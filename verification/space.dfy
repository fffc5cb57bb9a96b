/** `Point3d`: a cell of a three-dimensional grid, totally ordered
    lexicographically by `(x, y, z)`. */
module Space {
  import opened Scalar
  import opened Results
  import opened Text
  import opened Decimal

  datatype Point3d = Point3d(x: Isize, y: Isize, z: Isize)

  const Origin: Point3d := Point3d(0, 0, 0)

  /** `std::cmp::Ordering`. */
  datatype Ordering = Less | Equal | Greater {
    function Reverse(): Ordering {
      match this
      case Less => Greater
      case Equal => Equal
      case Greater => Less
    }
  }

  /** `isize::cmp`. */
  function CompareScalar(a: int, b: int): Ordering {
    if a < b then Less else if a == b then Equal else Greater
  }

  /** `Ordering::then`: the first comparison decides unless it found the two equal. */
  function Then(first: Ordering, next: Ordering): Ordering {
    if first == Equal then next else first
  }

  /** The derived `Ord::cmp`: fields compared in declaration order. It reports
      `Equal` for equal points only. */
  function Cmp(a: Point3d, b: Point3d): (o: Ordering)
    ensures o == Equal <==> a == b
  {
    Then(CompareScalar(a.x, b.x), Then(CompareScalar(a.y, b.y), CompareScalar(a.z, b.z)))
  }

  /** The derived `<=` of `PartialOrd`: `(x, y, z)` compared lexicographically,
      ties allowed. */
  predicate LessOrEqual(a: Point3d, b: Point3d)
    ensures LessOrEqual(a, b)
        <==> a.x < b.x || (a.x == b.x && (a.y < b.y || (a.y == b.y && a.z <= b.z)))
  {
    Cmp(a, b) != Greater
  }

  /** `Less` is the lexicographic order on `(x, y, z)`. */
  lemma CmpLexicographic(a: Point3d, b: Point3d)
    ensures Cmp(a, b) == Less
        <==> a.x < b.x || (a.x == b.x && a.y < b.y) || (a.x == b.x && a.y == b.y && a.z < b.z)
  {
  }

  /** Swapping the operands reverses the answer. */
  lemma CmpAntisymmetric(a: Point3d, b: Point3d)
    ensures Cmp(b, a) == Cmp(a, b).Reverse()
  {
  }

  /** `<=` is a total order: reflexive, antisymmetric, transitive, and any two points compare. */
  lemma LessOrEqualTotalOrder(a: Point3d, b: Point3d, c: Point3d)
    ensures LessOrEqual(a, a)
    ensures LessOrEqual(a, b) && LessOrEqual(b, a) ==> a == b
    ensures LessOrEqual(a, b) && LessOrEqual(b, c) ==> LessOrEqual(a, c)
    ensures LessOrEqual(a, b) || LessOrEqual(b, a)
  {
  }

  /** Adding the offset `d` stays within the `isize` range on every axis. */
  predicate CanAdd(p: Point3d, d: (Isize, Isize, Isize)) {
    InIsize(p.x + d.0) && InIsize(p.y + d.1) && InIsize(p.z + d.2)
  }

  /** The Manhattan distance between two points (the library defines it for `Point` only). */
  function Manhattan(a: Point3d, b: Point3d): nat {
    Abs(a.x - b.x) + Abs(a.y - b.y) + Abs(a.z - b.z)
  }

  /** `p + (dx, dy, dz)`: each axis moves by its own component, so the step's
      Manhattan length is that of the offset. */
  function Add(p: Point3d, d: (Isize, Isize, Isize)): (r: Point3d)
    requires CanAdd(p, d)
    ensures Manhattan(p, r) == Abs(d.0) + Abs(d.1) + Abs(d.2)
  {
    Point3d(p.x + d.0, p.y + d.1, p.z + d.2)
  }

  /** Two moves make one move by the summed offset. */
  lemma AddTwice(p: Point3d, d: (Isize, Isize, Isize), e: (Isize, Isize, Isize))
    requires CanAdd(p, d) && CanAdd(Add(p, d), e)
    requires InIsize(d.0 + e.0) && InIsize(d.1 + e.1) && InIsize(d.2 + e.2)
    ensures CanAdd(p, (d.0 + e.0, d.1 + e.1, d.2 + e.2))
    ensures Add(Add(p, d), e) == Add(p, (d.0 + e.0, d.1 + e.1, d.2 + e.2))
  {
  }

  /** Moving two points by the same offset keeps their order. */
  lemma AddKeepsOrder(a: Point3d, b: Point3d, d: (Isize, Isize, Isize))
    requires CanAdd(a, d) && CanAdd(b, d)
    ensures Cmp(Add(a, d), Add(b, d)) == Cmp(a, b)
  {
  }

  /** `p += (dx, dy, dz)`: updates `x`, `y`, then `z`, ending where `p + (dx, dy, dz)` would. */
  method AddAssign(p: Point3d, d: (Isize, Isize, Isize)) returns (q: Point3d)
    requires CanAdd(p, d)
    ensures q == Add(p, d)
  {
    q := p;
    q := q.(x := q.x + d.0);
    q := q.(y := q.y + d.1);
    q := q.(z := q.z + d.2);
  }

  /** `Point3d::from((a, b, c))`: the triple's components, in order; the same as
      moving the origin by the triple. */
  function FromTriple(t: (Isize, Isize, Isize)): (p: Point3d)
    ensures (p.x, p.y, p.z) == t
    ensures p == Add(Origin, t)
  {
    Point3d(t.0, t.1, t.2)
  }

  /** The unit steps along the axes, in the order `borders` lists them. */
  const UNIT_STEPS: seq<(Isize, Isize, Isize)> :=
    [(-1, 0, 0), (1, 0, 0), (0, -1, 0), (0, 1, 0), (0, 0, -1), (0, 0, 1)]

  /** None of the six neighbours leaves the `isize` range. */
  predicate HasBorders(p: Point3d) {
    InIsize(p.x - 1) && InIsize(p.x + 1) && InIsize(p.y - 1) && InIsize(p.y + 1)
    && InIsize(p.z - 1) && InIsize(p.z + 1)
  }

  /** `p.borders()`: the six axis neighbours, the k-th being `p` moved by the k-th
      unit step; no two of them coincide. */
  function Borders(p: Point3d): (r: seq<Point3d>)
    requires HasBorders(p)
    ensures |r| == 6
    ensures forall k :: 0 <= k < 6 ==> CanAdd(p, UNIT_STEPS[k]) && r[k] == Add(p, UNIT_STEPS[k])
    ensures forall i, j :: 0 <= i < j < 6 ==> r[i] != r[j]
  {
    [
      FromTriple((p.x - 1, p.y, p.z)),
      FromTriple((p.x + 1, p.y, p.z)),
      FromTriple((p.x, p.y - 1, p.z)),
      FromTriple((p.x, p.y + 1, p.z)),
      FromTriple((p.x, p.y, p.z - 1)),
      FromTriple((p.x, p.y, p.z + 1))
    ]
  }

  /** The six borders are exactly the points at Manhattan distance one. */
  lemma BordersAreUnitNeighbours(p: Point3d, q: Point3d)
    requires HasBorders(p)
    ensures q in Borders(p) <==> Manhattan(p, q) == 1
  {
  }

  /** Being a neighbour is symmetric. */
  lemma BordersSymmetric(p: Point3d, q: Point3d)
    requires HasBorders(p) && HasBorders(q)
    ensures q in Borders(p) <==> p in Borders(q)
  {
    BordersAreUnitNeighbours(p, q);
    BordersAreUnitNeighbours(q, p);
  }

  /** The text form `<X>,<Y>,<Z>`, no labels. */
  const FIELD_SEPARATOR: string := ","

  /** `s` is three comma-free number texts joined by commas, followed by nothing
      or by further fields after another comma. */
  predicate CommaText(s: string, a: string, b: string, c: string, tail: string) {
    && ',' !in a && ',' !in b && ',' !in c
    && (tail == "" || tail[0] == ',')
    && s == a + "," + b + "," + c + tail
  }

  /** `s` is exactly two comma-free texts joined by one comma. */
  predicate TwoFields(s: string, a: string, b: string) {
    ',' !in a && ',' !in b && s == a + "," + b
  }

  /** A comma-free text is one field. */
  lemma SplitOneField(s: string)
    requires ',' !in s
    ensures Split(s, FIELD_SEPARATOR) == [s]
  {
    FirstCharFree(s, FIELD_SEPARATOR);
    SplitSingleField(s, FIELD_SEPARATOR);
  }

  /** A comma-free field, a comma, and the rest: the field comes first. */
  lemma SplitFirstField(a: string, rest: string)
    requires ',' !in a
    ensures Split(a + "," + rest, FIELD_SEPARATOR) == [a] + Split(rest, FIELD_SEPARATOR)
  {
    FirstCharAbsent(a, FIELD_SEPARATOR, rest);
    SplitAfterField(a, FIELD_SEPARATOR, rest);
  }

  /** Two comma-free texts around one comma are two fields. */
  lemma SplitTwoFields(s: string, a: string, b: string)
    requires TwoFields(s, a, b)
    ensures Split(s, FIELD_SEPARATOR) == [a, b]
  {
    SplitFirstField(a, b);
    SplitOneField(b);
  }

  /** The first three fields of a comma text are its three number texts. */
  lemma SplitCommaText(s: string, a: string, b: string, c: string, tail: string)
    requires CommaText(s, a, b, c, tail)
    ensures |Split(s, FIELD_SEPARATOR)| >= 3 && Split(s, FIELD_SEPARATOR)[0] == a
              && Split(s, FIELD_SEPARATOR)[1] == b && Split(s, FIELD_SEPARATOR)[2] == c
  {
    var third: seq<string>;
    if tail == "" {
      assert c + tail == c;
      SplitOneField(c);
      third := [c];
    } else {
      assert c + tail == c + "," + tail[1..];
      SplitFirstField(c, tail[1..]);
      third := [c] + Split(tail[1..], FIELD_SEPARATOR);
    }
    assert Split(c + tail, FIELD_SEPARATOR) == third;
    assert s == a + "," + (b + "," + (c + tail));
    SplitFirstField(b, c + tail);
    SplitFirstField(a, b + "," + (c + tail));
    assert Split(s, FIELD_SEPARATOR) == [a] + ([b] + third);
  }

  /** How `s.split(',')` cuts texts of one, two, and three or more fields. */
  lemma FieldsOfCommaText(s: string)
    ensures ',' !in s ==> Split(s, FIELD_SEPARATOR) == [s]
    ensures forall a, b :: TwoFields(s, a, b) ==> Split(s, FIELD_SEPARATOR) == [a, b]
    ensures forall a, b, c, tail :: CommaText(s, a, b, c, tail) ==>
              |Split(s, FIELD_SEPARATOR)| >= 3 && Split(s, FIELD_SEPARATOR)[0] == a
              && Split(s, FIELD_SEPARATOR)[1] == b && Split(s, FIELD_SEPARATOR)[2] == c
  {
    if ',' !in s {
      SplitOneField(s);
    }
    forall a, b | TwoFields(s, a, b)
      ensures Split(s, FIELD_SEPARATOR) == [a, b]
    {
      SplitTwoFields(s, a, b);
    }
    forall a, b, c, tail | CommaText(s, a, b, c, tail)
      ensures |Split(s, FIELD_SEPARATOR)| >= 3 && Split(s, FIELD_SEPARATOR)[0] == a
              && Split(s, FIELD_SEPARATOR)[1] == b && Split(s, FIELD_SEPARATOR)[2] == c
    {
      SplitCommaText(s, a, b, c, tail);
    }
  }

  /** Joining three or more fields gives the first three around commas, then the
      join of the rest. */
  lemma JoinThree(f: seq<string>, tail: string)
    requires |f| >= 3
    requires tail == if |f| == 3 then "" else "," + Join(f[3..], FIELD_SEPARATOR)
    ensures Join(f, FIELD_SEPARATOR) == f[0] + "," + (f[1] + "," + (f[2] + tail))
  {
    var third := Join(f[2..], FIELD_SEPARATOR);
    assert third == f[2] + tail by {
      assert f[2..][1..] == f[3..];
    }
    assert Join(f[1..], FIELD_SEPARATOR) == f[1] + "," + third by {
      assert f[1..][1..] == f[2..];
    }
  }

  /** No field of `s.split(',')` holds a comma. */
  lemma FieldCommaFree(s: string, i: nat)
    requires i < |Split(s, FIELD_SEPARATOR)|
    ensures ',' !in Split(s, FIELD_SEPARATOR)[i]
  {
    FreeOfChar(Split(s, FIELD_SEPARATOR)[i], ',');
  }

  /** Three or more comma-free pieces joined by commas make a comma text. */
  lemma CommaTextOfPieces(s: string, f: seq<string>)
    requires |f| >= 3 && Join(f, FIELD_SEPARATOR) == s
    requires ',' !in f[0] && ',' !in f[1] && ',' !in f[2]
    ensures exists a, b, c, tail :: CommaText(s, a, b, c, tail)
  {
    var tail := if |f| == 3 then "" else "," + Join(f[3..], FIELD_SEPARATOR);
    JoinThree(f, tail);
    Reassociate(f[0], f[1], f[2], tail);
    assert CommaText(s, f[0], f[1], f[2], tail);
  }

  lemma Reassociate(a: string, b: string, c: string, tail: string)
    ensures a + "," + (b + "," + (c + tail)) == a + "," + b + "," + c + tail
  {
  }

  /** A text that splits into at least three fields is three comma-free fields
      followed by the rest. */
  lemma CommaTextOfFields(s: string)
    requires |Split(s, FIELD_SEPARATOR)| >= 3
    ensures exists a, b, c, tail :: CommaText(s, a, b, c, tail)
  {
    FieldCommaFree(s, 0);
    FieldCommaFree(s, 1);
    FieldCommaFree(s, 2);
    CommaTextOfPieces(s, Split(s, FIELD_SEPARATOR));
  }

  /** The parser unwraps the second field once the first has parsed, and the third
      once the second has: a text whose fields run out before a number fails panics.
      That happens exactly for a lone number and for two numbers with one comma
      between them; three fields are always enough. */
  predicate FieldsPresent(s: string)
    ensures ',' !in s ==> (FieldsPresent(s) <==> ParseIsize(s).Err?)
    ensures forall a, b :: TwoFields(s, a, b) ==>
              (FieldsPresent(s) <==> !(ParseIsize(a).Ok? && ParseIsize(b).Ok?))
    ensures forall a, b, c, tail :: CommaText(s, a, b, c, tail) ==> FieldsPresent(s)
  {
    FieldsOfCommaText(s);
    var fields := Split(s, FIELD_SEPARATOR);
    && (ParseIsize(fields[0]).Ok? ==> |fields| >= 2)
    && (ParseIsize(fields[0]).Ok? && ParseIsize(fields[1]).Ok? ==> |fields| >= 3)
  }

  /** The three `isize`s of the first three fields, or the error of the first that
      is not one. */
  function ParseFieldList(fields: seq<string>): (r: Result<Point3d>)
    requires |fields| >= 1
    requires ParseIsize(fields[0]).Ok? ==> |fields| >= 2
    requires ParseIsize(fields[0]).Ok? && ParseIsize(fields[1]).Ok? ==> |fields| >= 3
    ensures r.Ok? ==> |fields| >= 3
    ensures |fields| >= 3 ==>
              && (r.Ok? <==> ParseIsize(fields[0]).Ok? && ParseIsize(fields[1]).Ok? && ParseIsize(fields[2]).Ok?)
              && (r.Ok? ==> r.value == Point3d(ParseIsize(fields[0]).value, ParseIsize(fields[1]).value, ParseIsize(fields[2]).value))
  {
    match ParseIsize(fields[0])
    case Err => Err
    case Ok(x) =>
      match ParseIsize(fields[1])
      case Err => Err
      case Ok(y) =>
        match ParseIsize(fields[2])
        case Err => Err
        case Ok(z) => Ok(Point3d(x, y, z))
  }

  /** `Point3d::from_str`: the first three comma-separated fields as `isize`s, in
      order, stopping at the first that fails with the unit error. It succeeds only
      on a text of three comma-separated fields, and then exactly when all three
      are numbers. */
  function Parse(s: string): (r: Result<Point3d>)
    requires FieldsPresent(s)
    ensures forall a, b, c, tail :: CommaText(s, a, b, c, tail) ==>
              && (r.Ok? <==> ParseIsize(a).Ok? && ParseIsize(b).Ok? && ParseIsize(c).Ok?)
              && (r.Ok? ==> r.value == Point3d(ParseIsize(a).value, ParseIsize(b).value, ParseIsize(c).value))
    ensures r.Ok? ==> exists a, b, c, tail :: CommaText(s, a, b, c, tail)
  {
    var fields := Split(s, FIELD_SEPARATOR);
    FieldsOfCommaText(s);
    if |fields| >= 3 then CommaTextOfFields(s); ParseFieldList(fields) else ParseFieldList(fields)
  }

  /** The canonical text of a point, the inverse of `Parse`. */
  function Format(p: Point3d): string {
    Show(p.x) + "," + Show(p.y) + "," + Show(p.z)
  }

  /** Three comma-free number texts parse to the point of those numbers, and to
      the error when any of them is not an `isize`. */
  lemma ParseFields(a: string, b: string, c: string)
    requires ',' !in a && ',' !in b && ',' !in c
    ensures FieldsPresent(a + "," + b + "," + c)
    ensures Parse(a + "," + b + "," + c).Ok?
        <==> ParseIsize(a).Ok? && ParseIsize(b).Ok? && ParseIsize(c).Ok?
    ensures Parse(a + "," + b + "," + c).Ok? ==>
              Parse(a + "," + b + "," + c).value
              == Point3d(ParseIsize(a).value, ParseIsize(b).value, ParseIsize(c).value)
  {
    assert CommaText(a + "," + b + "," + c, a, b, c, "");
  }

  /** Text after a third comma is ignored. */
  lemma ParseIgnoresTrailingFields(a: string, b: string, c: string, rest: string)
    requires ',' !in a && ',' !in b && ',' !in c
    ensures FieldsPresent(a + "," + b + "," + c + "," + rest)
    ensures FieldsPresent(a + "," + b + "," + c)
    ensures Parse(a + "," + b + "," + c + "," + rest) == Parse(a + "," + b + "," + c)
  {
    assert CommaText(a + "," + b + "," + c + "," + rest, a, b, c, "," + rest);
    ParseFields(a, b, c);
  }

  /** A first field that is not a number is the error, however few fields follow. */
  lemma BadFirstField(s: string)
    requires ParseIsize(Split(s, FIELD_SEPARATOR)[0]).Err?
    ensures FieldsPresent(s) && Parse(s) == Err
  {
  }

  /** Round trip: the canonical text of a point parses back to that point. */
  lemma ParseFormat(p: Point3d)
    ensures FieldsPresent(Format(p)) && Parse(Format(p)) == Ok(p)
  {
    ShowHasNoSeparator(p.x, ',');
    ShowHasNoSeparator(p.y, ',');
    ShowHasNoSeparator(p.z, ',');
    ParseShow(p.x);
    ParseShow(p.y);
    ParseShow(p.z);
    ParseFields(Show(p.x), Show(p.y), Show(p.z));
  }

  lemma ParseAndBordersExample()
    ensures FieldsPresent("1,2,3") && Parse("1,2,3") == Ok(Point3d(1, 2, 3))
    ensures Borders(Point3d(1, 2, 3)) == [
      Point3d(0, 2, 3), Point3d(2, 2, 3), Point3d(1, 1, 3),
      Point3d(1, 3, 3), Point3d(1, 2, 2), Point3d(1, 2, 4)]
  {
    assert Format(Point3d(1, 2, 3)) == "1,2,3";
    ParseFormat(Point3d(1, 2, 3));
  }
}
