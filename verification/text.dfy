/** The string searching the parsers rely on: `str::split` and `str::split_once`
    of the standard library, for non-empty patterns, plus `Join`, the printer that
    undoes a split. */
module Text {
  import opened Results

  /** `pat` occurs in `s` starting at position `i`. */
  predicate OccursAt(s: string, pat: string, i: int) {
    0 <= i && i + |pat| <= |s| && s[i..i + |pat|] == pat
  }

  /** Occurrences in a proper tail are occurrences in the whole text, one position later. */
  lemma OccursAtTail(s: string, pat: string)
    requires |s| > 0
    ensures forall k :: OccursAt(s[1..], pat, k) ==> OccursAt(s, pat, k + 1)
    ensures forall k :: 1 <= k && OccursAt(s, pat, k) ==> OccursAt(s[1..], pat, k - 1)
  {
  }

  /** An occurrence inside a prefix is an occurrence in the whole text. */
  lemma OccursInPrefix(s: string, pat: string, n: nat)
    requires n <= |s|
    ensures forall k :: OccursAt(s[..n], pat, k) ==> OccursAt(s, pat, k)
  {
  }

  /** The position of the first occurrence of a non-empty `pat` in `s`, found by the
      left-to-right scan the standard library's string searcher performs. */
  function Find(s: string, pat: string): (r: Option<nat>)
    requires |pat| > 0
    ensures r.Some? ==> OccursAt(s, pat, r.value)
    ensures r.Some? ==> forall k :: 0 <= k < r.value ==> !OccursAt(s, pat, k)
    ensures r.None? ==> forall k :: !OccursAt(s, pat, k)
    decreases |s|
  {
    if |s| < |pat| then None
    else if s[..|pat|] == pat then Some(0)
    else
      OccursAtTail(s, pat);
      match Find(s[1..], pat)
      case None => None
      case Some(i) => Some(i + 1)
  }

  /** Concatenates `pieces` with `sep` between neighbours. */
  function Join(pieces: seq<string>, sep: string): string
    decreases |pieces|
  {
    if |pieces| == 0 then ""
    else if |pieces| == 1 then pieces[0]
    else pieces[0] + sep + Join(pieces[1..], sep)
  }

  /** `s.split(sep)`: the pieces between consecutive non-overlapping occurrences of
      `sep`, matched left to right. There is always at least one piece (the empty
      text splits into one empty piece), no piece contains the separator, and
      joining the pieces back with the separator gives the text again. */
  function Split(s: string, sep: string): (r: seq<string>)
    requires |sep| > 0
    ensures |r| >= 1
    ensures Join(r, sep) == s
    ensures forall i, k :: 0 <= i < |r| ==> !OccursAt(r[i], sep, k)
    decreases |s|
  {
    match Find(s, sep)
    case None => [s]
    case Some(i) =>
      OccursInPrefix(s, sep, i);
      var rest := Split(s[i + |sep|..], sep);
      assert s == s[..i] + sep + s[i + |sep|..];
      [s[..i]] + rest
  }

  /** `s.split_once(c)`: the text before and after the first `c`, or nothing when
      `c` does not occur. */
  function SplitOnce(s: string, c: char): (r: Option<(string, string)>)
    ensures r.Some? ==> s == r.value.0 + [c] + r.value.1 && c !in r.value.0
    ensures r.None? ==> c !in s
  {
    match Find(s, [c])
    case None =>
      assert forall k | 0 <= k < |s| :: s[k] != c by {
        forall k | 0 <= k < |s| ensures s[k] != c {
          assert !OccursAt(s, [c], k) && s[k..k + 1] == [s[k]];
        }
      }
      None
    case Some(i) =>
      assert forall k | 0 <= k < i :: s[k] != c by {
        forall k | 0 <= k < i ensures s[k] != c {
          assert !OccursAt(s, [c], k) && s[k..k + 1] == [s[k]];
        }
      }
      assert s == s[..i] + [c] + s[i + 1..];
      Some((s[..i], s[i + 1..]))
  }

  /** No occurrence of `sep` in `s` starts before position `n`. */
  predicate NoneBefore(s: string, sep: string, n: int) {
    forall k :: 0 <= k < n ==> !OccursAt(s, sep, k)
  }

  /** `t` does not contain `sep`. */
  ghost predicate Free(t: string, sep: string) {
    forall k :: !OccursAt(t, sep, k)
  }

  /** A text without the separator's first character contains no separator. */
  lemma FirstCharFree(a: string, sep: string)
    requires |sep| > 0 && sep[0] !in a
    ensures Free(a, sep)
  {
  }

  /** Nor can a separator start inside such a text when one follows it. */
  lemma FirstCharAbsent(a: string, sep: string, rest: string)
    requires |sep| > 0 && sep[0] !in a
    ensures NoneBefore(a + sep + rest, sep, |a|)
  {
  }

  /** A suffix of a separator-free text is separator-free. */
  lemma SuffixFree(u: string, v: string, sep: string)
    requires Free(u + v, sep)
    ensures Free(v, sep)
  {
    forall k | OccursAt(v, sep, k)
      ensures OccursAt(u + v, sep, |u| + k)
    {
      assert (u + v)[|u| + k..|u| + k + |sep|] == v[k..k + |sep|];
    }
  }

  /** Free of a one-character separator means free of that character. */
  lemma FreeOfChar(t: string, c: char)
    requires Free(t, [c])
    ensures c !in t
  {
    forall i | 0 <= i < |t|
      ensures t[i] != c
    {
      assert t[i..i + 1] == [t[i]];
      assert !OccursAt(t, [c], i);
    }
  }

  /** When no separator starts inside the field `a`, the first separator in
      `a + sep + rest` is the one right after `a`. */
  lemma FindAfterField(a: string, sep: string, rest: string)
    requires |sep| > 0 && NoneBefore(a + sep + rest, sep, |a|)
    ensures Find(a + sep + rest, sep) == Some(|a|)
  {
    var s := a + sep + rest;
    assert s[|a|..|a| + |sep|] == sep;
    assert OccursAt(s, sep, |a|);
  }

  lemma SplitSingleField(a: string, sep: string)
    requires |sep| > 0 && Free(a, sep)
    ensures Split(a, sep) == [a]
  {
  }

  lemma SplitAfterField(a: string, sep: string, rest: string)
    requires |sep| > 0 && NoneBefore(a + sep + rest, sep, |a|)
    ensures Split(a + sep + rest, sep) == [a] + Split(rest, sep)
  {
    var s := a + sep + rest;
    FindAfterField(a, sep, rest);
    assert s[..|a|] == a;
    assert s[|a| + |sep|..] == rest;
  }

  /** Splitting undoes joining, provided no piece contains the separator's first character. */
  lemma {:induction false} SplitJoin(pieces: seq<string>, sep: string)
    requires |sep| > 0 && |pieces| >= 1
    requires forall i :: 0 <= i < |pieces| ==> sep[0] !in pieces[i]
    ensures Split(Join(pieces, sep), sep) == pieces
    decreases |pieces|
  {
    if |pieces| == 1 {
      FirstCharFree(pieces[0], sep);
      SplitSingleField(pieces[0], sep);
    } else {
      FirstCharAbsent(pieces[0], sep, Join(pieces[1..], sep));
      SplitAfterField(pieces[0], sep, Join(pieces[1..], sep));
      SplitJoin(pieces[1..], sep);
    }
  }

  /** `split_once` finds the first `c`: a field free of `c` is cut off exactly. */
  lemma SplitOnceAtFirst(u: string, c: char, v: string)
    requires c !in u
    ensures SplitOnce(u + [c] + v, c) == Some((u, v))
  {
    FirstCharAbsent(u, [c], v);
    FindAfterField(u, [c], v);
    var s := u + [c] + v;
    assert s[..|u|] == u;
    assert s[|u| + 1..] == v;
  }
}
