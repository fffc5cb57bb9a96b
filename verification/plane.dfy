/** `Point`: a cell of a grid, or an offset between cells, with the origin in the
    upper left corner and `y` growing downwards. */
module Plane {
  import opened Scalar
  import opened Results
  import opened Text
  import opened Decimal

  datatype Point = Point(x: Isize, y: Isize)

  /** The default point, both coordinates zero. */
  const Origin: Point := Point(0, 0)

  /** `p.between(upper_left, lower_right)`: `p` lies in the box spanned by the two
      corners, borders included. A point inside shows the box is not inverted, and
      a single point is a box containing itself. */
  function Between(p: Point, upperLeft: Point, lowerRight: Point): (inside: bool)
    ensures inside ==> upperLeft.x <= lowerRight.x && upperLeft.y <= lowerRight.y
    ensures p == upperLeft && p == lowerRight ==> inside
  {
    p.x >= upperLeft.x && p.x <= lowerRight.x && p.y >= upperLeft.y && p.y <= lowerRight.y
  }

  /** A box contains some point exactly when it is not inverted on either axis. */
  lemma BoxNonEmpty(upperLeft: Point, lowerRight: Point)
    ensures (exists p :: Between(p, upperLeft, lowerRight))
        <==> upperLeft.x <= lowerRight.x && upperLeft.y <= lowerRight.y
  {
    if upperLeft.x <= lowerRight.x && upperLeft.y <= lowerRight.y {
      assert Between(upperLeft, upperLeft, lowerRight);
    }
  }

  /** The sum of the per-axis distances fits a `usize`; the sum overflows otherwise. */
  predicate DistanceFits(a: Point, b: Point) {
    AbsDiff(a.x, b.x) + AbsDiff(a.y, b.y) <= USIZE_MAX
  }

  /** `a.distance(&b)`: the Manhattan distance, zero exactly between equal points. */
  function Distance(a: Point, b: Point): (d: Usize)
    requires DistanceFits(a, b)
    ensures d == 0 <==> a == b
  {
    AbsDiff(a.x, b.x) + AbsDiff(a.y, b.y)
  }

  lemma DistanceSymmetric(a: Point, b: Point)
    requires DistanceFits(a, b)
    ensures DistanceFits(b, a) && Distance(a, b) == Distance(b, a)
  {
  }

  lemma DistanceTriangle(a: Point, b: Point, c: Point)
    requires DistanceFits(a, b) && DistanceFits(b, c) && DistanceFits(a, c)
    ensures Distance(a, c) <= Distance(a, b) + Distance(b, c)
  {
  }

  /** The points of a (non-inverted) box are exactly those lying on a shortest
      grid path between its corners. */
  lemma BetweenIffOnShortestPath(p: Point, upperLeft: Point, lowerRight: Point)
    requires upperLeft.x <= lowerRight.x && upperLeft.y <= lowerRight.y
    requires DistanceFits(upperLeft, p) && DistanceFits(p, lowerRight) && DistanceFits(upperLeft, lowerRight)
    ensures Between(p, upperLeft, lowerRight)
        <==> Distance(upperLeft, p) + Distance(p, lowerRight) == Distance(upperLeft, lowerRight)
  {
  }

  /** Adding the offset `d` stays within the `isize` range on both axes. */
  predicate CanAdd(p: Point, d: (Isize, Isize)) {
    InIsize(p.x + d.0) && InIsize(p.y + d.1)
  }

  predicate CanSub(p: Point, d: (Isize, Isize)) {
    InIsize(p.x - d.0) && InIsize(p.y - d.1)
  }

  /** `p + (dx, dy)`: each axis moves by its own component only, so the step's
      Manhattan length is that of the offset. */
  function Add(p: Point, d: (Isize, Isize)): (r: Point)
    requires CanAdd(p, d)
    ensures DistanceFits(p, r) ==> Distance(p, r) == Abs(d.0) + Abs(d.1)
  {
    Point(p.x + d.0, p.y + d.1)
  }

  /** `p - (dx, dy)`: moves `p` back by the offset; adding the offset again undoes it. */
  function Sub(p: Point, d: (Isize, Isize)): (r: Point)
    requires CanSub(p, d)
    ensures CanAdd(r, d) && Add(r, d) == p
  {
    Point(p.x - d.0, p.y - d.1)
  }

  /** Subtracting the offset again undoes an addition. */
  lemma AddThenSub(p: Point, d: (Isize, Isize))
    requires CanAdd(p, d)
    ensures CanSub(Add(p, d), d) && Sub(Add(p, d), d) == p
  {
  }

  /** Subtracting an offset is adding its negation, whenever the negation is an `isize`. */
  lemma SubIsAddNegated(p: Point, d: (Isize, Isize))
    requires CanSub(p, d) && InIsize(-(d.0 as int)) && InIsize(-(d.1 as int))
    ensures CanAdd(p, (-d.0, -d.1)) && Sub(p, d) == Add(p, (-d.0, -d.1))
  {
  }

  /** Moving a point and its box by the same offset keeps it inside or outside. */
  lemma BetweenTranslated(p: Point, upperLeft: Point, lowerRight: Point, d: (Isize, Isize))
    requires CanAdd(p, d) && CanAdd(upperLeft, d) && CanAdd(lowerRight, d)
    ensures Between(Add(p, d), Add(upperLeft, d), Add(lowerRight, d)) == Between(p, upperLeft, lowerRight)
  {
  }

  /** `p += (dx, dy)`: updates `x`, then `y`, ending where `p + (dx, dy)` would. */
  method AddAssign(p: Point, d: (Isize, Isize)) returns (q: Point)
    requires CanAdd(p, d)
    ensures q == Add(p, d)
  {
    q := p;
    q := q.(x := q.x + d.0);
    q := q.(y := q.y + d.1);
  }

  /** `p -= (dx, dy)`: updates `x`, then `y`, ending where `p - (dx, dy)` would. */
  method SubAssign(p: Point, d: (Isize, Isize)) returns (q: Point)
    requires CanSub(p, d)
    ensures q == Sub(p, d)
  {
    q := p;
    q := q.(x := q.x - d.0);
    q := q.(y := q.y - d.1);
  }

  /** `Point::from((a, b))`: the pair's components, in order; the same as moving
      the origin by the pair. */
  function FromPair(t: (Isize, Isize)): (p: Point)
    ensures (p.x, p.y) == t
    ensures p == Add(Origin, t)
  {
    Point(t.0, t.1)
  }

  /** The text form `x=<X>, y=<Y>`, fields separated by a comma and a space. */
  const FIELD_SEPARATOR: string := ", "

  /** The labels the parser asserts, on the fields of the split text: a first
      field `x=…` and a second field `y=…`. */
  predicate LabelsAt(fields: seq<string>) {
    && |fields| >= 2
    && SplitOnce(fields[0], '=').Some?
    && SplitOnce(fields[0], '=').value.0 == "x"
    && SplitOnce(fields[1], '=').Some?
    && SplitOnce(fields[1], '=').value.0 == "y"
  }

  /** `s` is `x=<a>, y=<b>` followed by nothing or by further fields, where
      neither number text holds the field separator. */
  ghost predicate LabelledText(s: string, a: string, b: string, tail: string) {
    && Free(a, FIELD_SEPARATOR)
    && Free(b, FIELD_SEPARATOR)
    && (tail == "" || (|tail| >= 2 && tail[..2] == FIELD_SEPARATOR))
    && s == "x=" + a + ", y=" + b + tail
  }

  /** A label and `=` in front of a separator-free number text add no separator. */
  lemma LabelKeepsFree(name: char, a: string)
    requires name != ',' && Free(a, FIELD_SEPARATOR)
    ensures Free([name, '='] + a, FIELD_SEPARATOR)
  {
    var t := [name, '='] + a;
    forall k | 0 <= k && k + 2 <= |t|
      ensures !OccursAt(t, FIELD_SEPARATOR, k)
    {
      if k >= 2 {
        assert t[k..k + 2] == a[k - 2..k];
        assert !OccursAt(a, FIELD_SEPARATOR, k - 2);
      } else {
        assert t[k..k + 2][0] == t[k];
      }
    }
  }

  /** No separator starts inside a separator-free field followed by one: the
      separator's second character is not its first. */
  lemma SeparatorAfterField(p: string, rest: string)
    requires Free(p, FIELD_SEPARATOR)
    ensures NoneBefore(p + FIELD_SEPARATOR + rest, FIELD_SEPARATOR, |p|)
  {
    var s := p + FIELD_SEPARATOR + rest;
    forall k | 0 <= k < |p|
      ensures !OccursAt(s, FIELD_SEPARATOR, k)
    {
      if k + 2 <= |p| {
        assert s[k..k + 2] == p[k..k + 2];
        assert !OccursAt(p, FIELD_SEPARATOR, k);
      } else {
        assert s[k + 1] == ',';
        assert s[k..k + 2][1] == s[k + 1];
      }
    }
  }

  /** The first two fields of a labelled text are its labelled number texts. */
  lemma FieldsOfLabelledText(s: string)
    ensures forall a, b, tail :: LabelledText(s, a, b, tail) ==>
              && |Split(s, FIELD_SEPARATOR)| >= 2
              && SplitOnce(Split(s, FIELD_SEPARATOR)[0], '=') == Some(("x", a))
              && SplitOnce(Split(s, FIELD_SEPARATOR)[1], '=') == Some(("y", b))
  {
    forall a, b, tail | LabelledText(s, a, b, tail)
      ensures |Split(s, FIELD_SEPARATOR)| >= 2
      ensures SplitOnce(Split(s, FIELD_SEPARATOR)[0], '=') == Some(("x", a))
      ensures SplitOnce(Split(s, FIELD_SEPARATOR)[1], '=') == Some(("y", b))
    {
      var x := "x=" + a;
      var y := "y=" + b;
      LabelKeepsFree('x', a);
      LabelKeepsFree('y', b);
      assert s == x + FIELD_SEPARATOR + (y + tail);
      SeparatorAfterField(x, y + tail);
      SplitAfterField(x, FIELD_SEPARATOR, y + tail);
      if tail == "" {
        assert y + tail == y;
        SplitSingleField(y, FIELD_SEPARATOR);
      } else {
        assert y + tail == y + FIELD_SEPARATOR + tail[2..];
        SeparatorAfterField(y, tail[2..]);
        SplitAfterField(y, FIELD_SEPARATOR, tail[2..]);
      }
      LabelFields(a, b);
    }
  }

  /** Joining two or more fields gives the first two around the separator, then the
      join of the rest. */
  lemma JoinTwo(f: seq<string>, tail: string)
    requires |f| >= 2
    requires tail == if |f| == 2 then "" else FIELD_SEPARATOR + Join(f[2..], FIELD_SEPARATOR)
    ensures Join(f, FIELD_SEPARATOR) == f[0] + FIELD_SEPARATOR + (f[1] + tail)
  {
    assert Join(f[1..], FIELD_SEPARATOR) == f[1] + tail by {
      assert f[1..][1..] == f[2..];
    }
  }

  /** A field labelled `name` is the label, `=`, and the text after the first `=`,
      which holds no separator when the field holds none. */
  lemma LabelledPiece(p: string, name: char)
    requires SplitOnce(p, '=').Some? && SplitOnce(p, '=').value.0 == [name]
    requires Free(p, FIELD_SEPARATOR)
    ensures p == [name, '='] + SplitOnce(p, '=').value.1
    ensures Free(SplitOnce(p, '=').value.1, FIELD_SEPARATOR)
  {
    var v := SplitOnce(p, '=').value.1;
    assert p == [name] + ['='] + v;
    assert p == [name, '='] + v;
    SuffixFree([name, '='], v, FIELD_SEPARATOR);
  }

  lemma ReassociateLabels(a: string, b: string, tail: string)
    ensures "x=" + a + FIELD_SEPARATOR + ("y=" + b + tail) == "x=" + a + ", y=" + b + tail
  {
  }

  /** Labelled pieces joined by the separator put the text in labelled form. */
  lemma LabelledTextOfPieces(s: string, f: seq<string>)
    requires LabelsAt(f) && Join(f, FIELD_SEPARATOR) == s
    requires Free(f[0], FIELD_SEPARATOR) && Free(f[1], FIELD_SEPARATOR)
    ensures exists a, b, tail :: LabelledText(s, a, b, tail)
  {
    LabelledPiece(f[0], 'x');
    LabelledPiece(f[1], 'y');
    var a := SplitOnce(f[0], '=').value.1;
    var b := SplitOnce(f[1], '=').value.1;
    var tail := if |f| == 2 then "" else FIELD_SEPARATOR + Join(f[2..], FIELD_SEPARATOR);
    JoinTwo(f, tail);
    ReassociateLabels(a, b, tail);
    assert LabelledText(s, a, b, tail);
  }

  /** Labelled fields put the text in labelled form. */
  lemma LabelledTextOfFields(s: string)
    requires LabelsAt(Split(s, FIELD_SEPARATOR))
    ensures exists a, b, tail :: LabelledText(s, a, b, tail)
  {
    var fields := Split(s, FIELD_SEPARATOR);
    assert Free(fields[0], FIELD_SEPARATOR) && Free(fields[1], FIELD_SEPARATOR);
    LabelledTextOfPieces(s, fields);
  }

  /** The labels the parser asserts: on any text without them it panics. These are
      exactly the texts `x=<a>, y=<b>`, optionally followed by further fields, whose
      number texts do not hold the field separator. */
  predicate WellLabelled(s: string)
    ensures WellLabelled(s) <==> exists a, b, tail :: LabelledText(s, a, b, tail)
  {
    FieldsOfLabelledText(s);
    if LabelsAt(Split(s, FIELD_SEPARATOR)) then
      LabelledTextOfFields(s);
      true
    else
      false
  }

  /** `Point::from_str`: the text after each label is parsed as an `isize`; either
      failing is the unit error. The result is the point of the two number texts
      of the labelled form; fields after the second are never looked at. */
  function Parse(s: string): (r: Result<Point>)
    requires WellLabelled(s)
    ensures forall a, b, tail :: LabelledText(s, a, b, tail) ==>
              && (r.Ok? <==> ParseIsize(a).Ok? && ParseIsize(b).Ok?)
              && (r.Ok? ==> r.value == Point(ParseIsize(a).value, ParseIsize(b).value))
  {
    FieldsOfLabelledText(s);
    var fields := Split(s, FIELD_SEPARATOR);
    var xText := SplitOnce(fields[0], '=').value.1;
    var yText := SplitOnce(fields[1], '=').value.1;
    match ParseIsize(xText)
    case Err => Err
    case Ok(x) =>
      match ParseIsize(yText)
      case Err => Err
      case Ok(y) => Ok(Point(x, y))
  }

  /** The canonical text of a point, the inverse of `Parse`. */
  function Format(p: Point): string {
    "x=" + Show(p.x) + ", y=" + Show(p.y)
  }

  /** Both labelled fields split at their `=` into the label and the number text. */
  lemma LabelFields(a: string, b: string)
    ensures SplitOnce("x=" + a, '=') == Some(("x", a))
    ensures SplitOnce("y=" + b, '=') == Some(("y", b))
  {
    assert "x=" + a == "x" + ['='] + a;
    SplitOnceAtFirst("x", '=', a);
    assert "y=" + b == "y" + ['='] + b;
    SplitOnceAtFirst("y", '=', b);
  }

  /** The labelled text with number texts `a` and `b` (neither holding the field
      separator) is accepted without a panic and parses to the point of those
      numbers, and to the error when either is not an `isize`. */
  lemma ParseFields(a: string, b: string)
    requires Free(a, FIELD_SEPARATOR) && Free(b, FIELD_SEPARATOR)
    ensures WellLabelled("x=" + a + ", y=" + b)
    ensures Parse("x=" + a + ", y=" + b).Ok? <==> ParseIsize(a).Ok? && ParseIsize(b).Ok?
    ensures Parse("x=" + a + ", y=" + b).Ok? ==>
              Parse("x=" + a + ", y=" + b).value == Point(ParseIsize(a).value, ParseIsize(b).value)
  {
    assert "x=" + a + ", y=" + b == "x=" + a + ", y=" + b + "";
    assert LabelledText("x=" + a + ", y=" + b, a, b, "");
  }

  /** Text after a further field separator is ignored. */
  lemma ParseIgnoresTrailingFields(a: string, b: string, rest: string)
    requires Free(a, FIELD_SEPARATOR) && Free(b, FIELD_SEPARATOR)
    ensures WellLabelled("x=" + a + ", y=" + b + ", " + rest)
    ensures WellLabelled("x=" + a + ", y=" + b)
    ensures Parse("x=" + a + ", y=" + b + ", " + rest) == Parse("x=" + a + ", y=" + b)
  {
    var tail := FIELD_SEPARATOR + rest;
    assert "x=" + a + ", y=" + b + ", " + rest == "x=" + a + ", y=" + b + tail;
    assert tail[..2] == FIELD_SEPARATOR;
    assert LabelledText("x=" + a + ", y=" + b + ", " + rest, a, b, tail);
    ParseFields(a, b);
  }

  /** Round trip: the canonical text of a point parses back to that point. */
  lemma ParseFormat(p: Point)
    ensures WellLabelled(Format(p)) && Parse(Format(p)) == Ok(p)
  {
    ShowHasNoSeparator(p.x, ',');
    ShowHasNoSeparator(p.y, ',');
    FirstCharFree(Show(p.x), FIELD_SEPARATOR);
    FirstCharFree(Show(p.y), FIELD_SEPARATOR);
    ParseShow(p.x);
    ParseShow(p.y);
    ParseFields(Show(p.x), Show(p.y));
  }

  lemma ParseExample()
    ensures WellLabelled("x=3, y=-7") && Parse("x=3, y=-7") == Ok(Point(3, -7))
  {
    assert Show(3) == "3" && Show(-7) == "-7";
    assert Format(Point(3, -7)) == "x=3, y=-7";
    ParseFormat(Point(3, -7));
  }

  /** A comma without a space does not end a field: `1,2` is the x number text,
      which is not an `isize`. */
  lemma ParseCommaInNumberExample()
    ensures WellLabelled("x=1,2, y=3") && Parse("x=1,2, y=3") == Err
  {
    CommaWithoutSpaceIsFree();
    FirstCharFree("3", FIELD_SEPARATOR);
    assert ParseIsize("1,2") == Err by {
      assert !IsDigit("1,2"[1]);
    }
    assert "x=1,2, y=3" == "x=" + "1,2" + ", y=" + "3";
    ParseFields("1,2", "3");
  }

  /** A comma not followed by a space is not the field separator. */
  lemma CommaWithoutSpaceIsFree()
    ensures Free("1,2", FIELD_SEPARATOR)
  {
    forall k | 0 <= k && k + 2 <= 3
      ensures !OccursAt("1,2", FIELD_SEPARATOR, k)
    {
      assert "1,2"[k..k + 2][1] == "1,2"[k + 1] != ' ';
    }
  }
}
