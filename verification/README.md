# Integer grid geometry, modelled in Dafny

A model of the point library `src/lib.rs` of the aoc-helper crate. It covers:
- `Point`, a 2D grid cell or offset with the origin in the upper left corner and `y` growing downwards;
- `Point3d`, a 3D cell with a derived lexicographic order;
- the operations defined on them: box containment, Manhattan distance, offset arithmetic, tuple conversion, six-neighbour enumeration and the two text parsers.

The coordinate scalar is the library's default, `isize` on a 64-bit target. It is modelled as the subset type `Scalar.Isize` of `int`. Arithmetic that would overflow `isize` panics in a debug build, so every operation that can overflow states "no overflow" as its precondition (`CanAdd`, `CanSub`, `HasBorders`, `DistanceFits`).

Modules:
- `Results`: `Option`, and `Result<T>` for the parsers' `Result<T, ()>`.
- `Scalar`: the `isize`/`usize` ranges and `isize::abs_diff`.
- `Text`: the standard library's `str::split` and `str::split_once` (first-match, non-empty patterns), with `Join` as the printer that undoes a split.
- `Decimal`: `<isize as FromStr>` (`ParseIsize`) and the `Display` printer `Show`. `ParseIsize` accepts one optional `+` or `-`, then one or more ASCII digits, and rejects a value outside the `isize` range.
- `Plane`: `Point` (lib.rs lines 35-116).
- `Space`: `Point3d` (lib.rs lines 118-179).

Panics are preconditions:
- `Plane.WellLabelled`: the `unwrap`s and `assert_eq!`s on the labels of `Point::from_str`.
- `Space.FieldsPresent`: the `unwrap`s of `Point3d::from_str`. Such an `unwrap` is only reached once the fields before it have parsed, so a text whose first field is not a number is the error even if it has no comma.

The model follows the code where it departs from what a reader of the types might expect:
- The 3D parser panics on a missing field rather than failing.
- The 2D parser ignores fields after the second `", "`. It also panics, not only on a wrong label, but when `", "` or an `=` is missing.
- Only the tuple operators exist. There are no `Point + Point` operators and no conversion from a point back to a tuple.

## Model

| member | source | states |
|---|---|---|
| Plane.Between | src/lib.rs:44-49 | a point inside the box proves the box is not inverted on either axis; a one-point box `(p, p)` contains `p` |
| Plane.BoxNonEmpty | src/lib.rs:44-49 | a box contains some point exactly when `upper_left <= lower_right` on both axes, so an inverted box is empty |
| Plane.BetweenIffOnShortestPath | src/lib.rs:44-49 | in a well-formed box, `p` is inside exactly when it lies on a shortest grid path between the corners (distance to both corners sums to the corner distance) |
| Plane.BetweenTranslated | src/lib.rs:44-49 | moving the point and both corners by one offset keeps the point inside or outside |
| Scalar.AbsDiff | src/lib.rs:72 | `abs_diff` is the absolute difference and always fits a `usize` |
| Plane.Distance | src/lib.rs:71-73 | Manhattan distance, a `usize`, zero exactly for equal points; requires the final sum not to overflow `usize` |
| Plane.DistanceSymmetric | src/lib.rs:71-73 | `distance(a, b) == distance(b, a)` |
| Plane.DistanceTriangle | src/lib.rs:71-73 | the distance obeys the triangle inequality |
| Plane.Add | src/lib.rs:79-84 | the step from `p` to `p + (dx, dy)` has Manhattan length `abs(dx) + abs(dy)` |
| Plane.Sub | src/lib.rs:97-102 | adding the offset back to `p - (dx, dy)` cannot overflow and gives back `p` |
| Plane.AddThenSub | src/lib.rs:79-84 | subtracting the offset from `p + (dx, dy)` cannot overflow and gives back `p` |
| Plane.SubIsAddNegated | src/lib.rs:97-102 | `p - (dx, dy) == p + (-dx, -dy)` whenever the negation is an `isize` |
| Plane.AddAssign | src/lib.rs:88-91 | after `p += (dx, dy)`, `p` is what `p + (dx, dy)` returns |
| Plane.SubAssign | src/lib.rs:106-109 | after `p -= (dx, dy)`, `p` is what `p - (dx, dy)` returns |
| Plane.FromPair | src/lib.rs:112-116 | `Point::from((a, b))` keeps both components in order, and equals the origin moved by `(a, b)` |
| Plane.WellLabelled | src/lib.rs:56-61 | the parser gets past its label checks exactly on texts `x=<a>, y=<b>`, optionally followed by `", "` and more, where neither number text holds `", "` |
| Plane.Parse | src/lib.rs:55-67 | on a text `x=<a>, y=<b>…` the result is `Ok(Point(a, b))` when both number texts are `isize`s and `Err(())` otherwise; later fields never matter |
| Plane.LabelFields | src/lib.rs:57-61 | `split_once('=')` cuts the labelled fields into the label and the number text |
| Plane.ParseFields | src/lib.rs:55-67 | for number texts free of `", "`, `x=<a>, y=<b>` passes the label checks, and parses to `Point(a, b)` when both are `isize`s and to `Err(())` when either is not |
| Plane.ParseIgnoresTrailingFields | src/lib.rs:56-60 | for number texts free of `", "`, text after a further `", "` does not change the result |
| Plane.ParseCommaInNumberExample | src/lib.rs:56-64 | `"x=1,2, y=3"` passes the label checks (a comma without a space is not a separator) and is `Err(())` because `"1,2"` is not an `isize` |
| Plane.ParseFormat | src/lib.rs:55-67 | round trip: `"x=" + show(x) + ", y=" + show(y)` parses to `Ok(Point(x, y))` |
| Plane.ParseExample | src/lib.rs:55-67 | `"x=3, y=-7"` parses to `Point(3, -7)` |
| Space.Cmp | src/lib.rs:118 | the derived `cmp` answers `Equal` for equal points and only for them |
| Space.CmpLexicographic | src/lib.rs:118-123 | `Less` is the lexicographic order on `(x, y, z)` |
| Space.LessOrEqual | src/lib.rs:118 | the derived `<=` is the lexicographic order on `(x, y, z)` with ties allowed |
| Space.CmpAntisymmetric | src/lib.rs:118 | swapping the operands reverses the ordering |
| Space.LessOrEqualTotalOrder | src/lib.rs:118 | the derived `<=` is reflexive, antisymmetric, transitive and total |
| Space.Add | src/lib.rs:154-160 | the Manhattan length of the move from `p` to `p + (dx, dy, dz)` equals that of the offset, `abs(dx) + abs(dy) + abs(dz)` |
| Space.AddTwice | src/lib.rs:154-160 | two moves equal one move by the summed offset |
| Space.AddKeepsOrder | src/lib.rs:154-160 | moving two points by one offset keeps their order |
| Space.AddAssign | src/lib.rs:164-168 | after `p += (dx, dy, dz)`, `p` is what `p + (dx, dy, dz)` returns |
| Space.FromTriple | src/lib.rs:171-179 | `Point3d::from((a, b, c))` keeps the components in order, and equals the origin moved by the triple |
| Space.Borders | src/lib.rs:126-135 | exactly six points, the k-th being `self` moved by the k-th unit step in the order x−1, x+1, y−1, y+1, z−1, z+1, pairwise distinct |
| Space.BordersAreUnitNeighbours | src/lib.rs:126-135 | a point is among the borders exactly when it is at Manhattan distance 1 |
| Space.BordersSymmetric | src/lib.rs:126-135 | `q` borders `p` exactly when `p` borders `q` |
| Space.FieldsOfCommaText | src/lib.rs:142 | `split(",")` of a comma-free text is that text; of `a,b` is `[a, b]`; of `a,b,c…` starts with `a`, `b`, `c` |
| Space.FieldsPresent | src/lib.rs:143-145 | the parser's `unwrap`s panic exactly on a lone number and on two numbers around one comma; a text with three fields never panics |
| Space.ParseFieldList | src/lib.rs:143-147 | the fields are parsed in order; success needs three fields and is exactly when the first three are `isize`s, giving the point of their values |
| Space.Parse | src/lib.rs:141-148 | `Ok` only on a text `a,b,c…` of comma-free fields; on every such text, `Ok(Point3d(a, b, c))` when all three are `isize`s and `Err(())` otherwise |
| Space.ParseFields | src/lib.rs:141-148 | `<a>,<b>,<c>` parses to `Point3d(a, b, c)` when all three are `isize`s, and to `Err(())` when any is not |
| Space.ParseIgnoresTrailingFields | src/lib.rs:142-147 | text after a third comma does not change the result |
| Space.BadFirstField | src/lib.rs:143 | a first field that is not a number is `Err(())`, with no panic, however few fields follow |
| Space.ParseFormat | src/lib.rs:141-148 | round trip: `show(x) + "," + show(y) + "," + show(z)` parses to `Ok(Point3d(x, y, z))` |
| Space.ParseAndBordersExample | src/lib.rs:126-148 | `"1,2,3"` parses to `(1, 2, 3)`, whose borders are `(0,2,3), (2,2,3), (1,1,3), (1,3,3), (1,2,2), (1,2,4)` |
| Decimal.ParseIsize | src/lib.rs:64-65 | an accepted coordinate text is non-empty, starts with a digit or with a `+` or `-` followed by more text, and holds only digits after its first character |
| Decimal.ParseIsizeSound | src/lib.rs:64-65 | whatever the integer parser accepts is an optional sign, zeros, and the canonical digits of the value's magnitude |
| Decimal.ParseIsizeComplete | src/lib.rs:143-145 | every such text is accepted with its signed value, unless that value overflows `isize` (then `Err`) |
| Decimal.ParseShow | src/lib.rs:143-145 | the printed form of every `isize` parses back to it |
| Text.Split | src/lib.rs:56 | `split` yields at least one piece; no piece contains the separator; joining the pieces with it restores the text |
| Text.SplitJoin | src/lib.rs:142 | splitting undoes joining when no piece contains the separator's first character |
| Text.SplitOnce | src/lib.rs:57 | `split_once` returns the text before and after the first `=`, or nothing exactly when there is no `=` |
| Text.Find | src/lib.rs:56 | the separator search returns the first occurrence, or nothing exactly when there is none |

## Left out

- `Direction`, grid indexing by a point, and the grid-printing helper: no source for them is in `src/lib.rs`, which is the file modelled here.
- The `PointOption` trait, the `Debug`, `Hash` and `Default` derives (lines 6-33): compile-time bounds with no behaviour. The default point appears only as `Origin`.
- Scalar widths other than `isize` (`u8` … `u64`, `i8` … `i64`, `usize`): the scalar is fixed to the default type. `Point3d::borders` exists only for it anyway.
- Release-build wrap-around on overflow: overflow is a debug-build panic, stated as a precondition.
- Decimal.ParseIsize: the kind of `ParseIntError` (empty, invalid digit, overflow) is not modelled, because every call site maps it to `()`.
- Text.Split: only non-empty patterns are modelled; the library only splits on the non-empty literals `", "`, `","` and `'='`.
- The derived `<`, `>`, `>=`, `min`, `max` and `clamp` of `Point3d`: only `cmp` and `<=` are modelled; the others follow from `cmp` in the standard way.
- Plane.ParseFields: stated only for number texts free of `", "`. A number text that holds `", "` is cut at it, so `x=<a>, y=<b>` then reads other fields; `Plane.Parse` covers every text through the labelled form.
- `Plane.Format`, `Space.Format` and `Decimal.Show` print the canonical text forms. The library has no such printers; they exist to state the round trips.
