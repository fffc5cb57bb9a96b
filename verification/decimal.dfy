/** Decimal text of the `isize` scalar: the standard library's `<isize as FromStr>`
    (what `str::parse` runs for a coordinate) and the `Display` printer that is its
    canonical inverse. */
module Decimal {
  import opened Scalar
  import opened Results

  predicate IsDigit(c: char) {
    '0' <= c <= '9'
  }

  predicate AllDigits(s: string) {
    forall i :: 0 <= i < |s| ==> IsDigit(s[i])
  }

  function DigitValue(c: char): nat
    requires IsDigit(c)
  {
    c as int - '0' as int
  }

  function DigitChar(d: nat): (c: char)
    requires d < 10
    ensures IsDigit(c) && DigitValue(c) == d
  {
    (d + '0' as int) as char
  }

  /** The value of a run of decimal digits, most significant first; leading zeros add nothing. */
  function DigitsValue(ds: string): nat
    requires AllDigits(ds)
    decreases |ds|
  {
    if |ds| == 0 then 0 else 10 * DigitsValue(ds[..|ds| - 1]) + DigitValue(ds[|ds| - 1])
  }

  /** The optional sign in front of the digits. */
  datatype Sign = Unsigned | Plus | Minus

  function SignText(sign: Sign): string {
    match sign
    case Unsigned => ""
    case Plus => "+"
    case Minus => "-"
  }

  function Signed(sign: Sign, magnitude: nat): int {
    if sign == Minus then -(magnitude as int) else magnitude
  }

  function Zeros(k: nat): (z: string)
    ensures |z| == k && AllDigits(z)
  {
    seq(k, _ => '0')
  }

  /** The sign a text starts with, as the integer parser reads it. */
  function SignOf(s: string): Sign
    requires |s| > 0
  {
    if s[0] == '-' then Minus else if s[0] == '+' then Plus else Unsigned
  }

  /** The text after the sign, if there is one. */
  function Magnitude(s: string): (digits: string)
    requires |s| > 0
    ensures s == SignText(SignOf(s)) + digits
  {
    if s[0] == '+' || s[0] == '-' then s[1..] else s
  }

  /** `s.parse::<isize>()` with its error kind erased. The text is one optional `+`
      or `-` followed by at least one ASCII digit and nothing else; a value outside
      the `isize` range is an error (the library detects the overflow while
      accumulating digits, which fails exactly when the final value is out of
      range). An accepted text is a sign and digits only. */
  function ParseIsize(s: string): (r: Result<Isize>)
    ensures r.Ok? ==> |s| >= 1 && (IsDigit(s[0]) || ((s[0] == '+' || s[0] == '-') && |s| >= 2))
    ensures r.Ok? ==> forall i :: 0 < i < |s| ==> IsDigit(s[i])
  {
    if |s| == 0 then Err
    else
      var digits := Magnitude(s);
      if |digits| == 0 || !AllDigits(digits) then Err
      else
        var v := Signed(SignOf(s), DigitsValue(digits));
        if InIsize(v) then Ok(v) else Err
  }

  /** A sign followed by a digit is read back as that sign and those digits. */
  lemma SignedTextParts(sign: Sign, ds: string)
    requires |ds| > 0 && IsDigit(ds[0])
    ensures |SignText(sign) + ds| > 0
    ensures SignOf(SignText(sign) + ds) == sign
    ensures Magnitude(SignText(sign) + ds) == ds
  {
  }

  /** The digits of `n` with no leading zero (the single digit `0` for zero). */
  function ShowNat(n: nat): (r: string)
    ensures |r| >= 1 && AllDigits(r)
    ensures r[0] == '0' ==> n == 0
    decreases n
  {
    if n < 10 then [DigitChar(n)] else ShowNat(n / 10) + [DigitChar(n % 10)]
  }

  /** `isize` as `Display` prints it: a `-` for negative values, never a `+`. */
  function Show(v: int): (r: string)
    ensures |r| >= 1
    ensures forall i :: 0 <= i < |r| ==> IsDigit(r[i]) || (i == 0 && r[i] == '-')
    ensures r[0] == '-' <==> v < 0
  {
    if v < 0 then "-" + ShowNat(-v) else ShowNat(v)
  }

  lemma ShowHasNoSeparator(v: int, c: char)
    requires !IsDigit(c) && c != '-'
    ensures c !in Show(v)
  {
  }

  lemma {:induction false} DigitsValueShowNat(n: nat)
    ensures DigitsValue(ShowNat(n)) == n
    decreases n
  {
    if n >= 10 {
      var s := ShowNat(n);
      assert s[..|s| - 1] == ShowNat(n / 10);
      DigitsValueShowNat(n / 10);
    }
  }

  lemma {:induction false} DigitsValueOfZeros(k: nat)
    ensures DigitsValue(Zeros(k)) == 0
  {
    if k > 0 {
      assert Zeros(k)[..k - 1] == Zeros(k - 1);
      DigitsValueOfZeros(k - 1);
    }
  }

  /** Leading zeros do not change the value of a run of digits. */
  lemma {:induction false} DigitsValueLeadingZeros(k: nat, ds: string)
    requires AllDigits(ds)
    ensures DigitsValue(Zeros(k) + ds) == DigitsValue(ds)
    decreases |ds|
  {
    if |ds| == 0 {
      assert Zeros(k) + ds == Zeros(k);
      DigitsValueOfZeros(k);
    } else {
      var s := Zeros(k) + ds;
      assert s[..|s| - 1] == Zeros(k) + ds[..|ds| - 1];
      DigitsValueLeadingZeros(k, ds[..|ds| - 1]);
    }
  }

  /** Every run of digits is the canonical digits of its value behind some zeros. */
  lemma {:induction false} DigitsCanonical(ds: string)
    requires |ds| >= 1 && AllDigits(ds)
    ensures |ShowNat(DigitsValue(ds))| <= |ds|
    ensures ds == Zeros(|ds| - |ShowNat(DigitsValue(ds))|) + ShowNat(DigitsValue(ds))
    decreases |ds|
  {
    var last := ds[|ds| - 1];
    var d := DigitValue(last);
    assert DigitChar(d) == last;
    if |ds| == 1 {
      assert ds == [last];
    } else {
      var init := ds[..|ds| - 1];
      assert ds == init + [last];
      DigitsCanonical(init);
      var vi := DigitsValue(init);
      var j := |init| - |ShowNat(vi)|;
      if vi == 0 {
        assert init == Zeros(j + 1);
        assert ds == Zeros(|ds| - 1) + [last];
      } else {
        var v := 10 * vi + d;
        assert v / 10 == vi && v % 10 == d;
        assert ShowNat(v) == ShowNat(vi) + [last];
      }
    }
  }

  /** Everything `ParseIsize` accepts is an optional sign, some zeros, and the
      canonical digits of the magnitude. */
  lemma ParseIsizeSound(s: string, v: int)
    requires ParseIsize(s) == Ok(v)
    ensures exists sign: Sign, k: nat :: s == SignText(sign) + Zeros(k) + ShowNat(Abs(v)) && v == Signed(sign, Abs(v))
  {
    var sign := SignOf(s);
    var digits := Magnitude(s);
    DigitsCanonical(digits);
    var n := DigitsValue(digits);
    var k := |digits| - |ShowNat(n)|;
    assert v == Signed(sign, n);
    assert Abs(v) == n;
    assert s == SignText(sign) + Zeros(k) + ShowNat(Abs(v));
  }

  /** A sign and a non-empty run of digits parse to the signed value of the digits,
      or to the error when it overflows. */
  lemma ParseSignedDigits(sign: Sign, ds: string)
    requires |ds| > 0 && AllDigits(ds)
    ensures ParseIsize(SignText(sign) + ds)
         == if InIsize(Signed(sign, DigitsValue(ds))) then Ok(Signed(sign, DigitsValue(ds))) else Err
  {
    assert IsDigit(ds[0]);
    SignedTextParts(sign, ds);
  }

  /** Conversely every such text is accepted, with the signed value, unless that
      value overflows `isize`. */
  lemma ParseIsizeComplete(sign: Sign, k: nat, n: nat)
    ensures ParseIsize(SignText(sign) + Zeros(k) + ShowNat(n))
         == if InIsize(Signed(sign, n)) then Ok(Signed(sign, n)) else Err
  {
    var ds := Zeros(k) + ShowNat(n);
    assert SignText(sign) + Zeros(k) + ShowNat(n) == SignText(sign) + ds;
    assert AllDigits(ds);
    DigitsValueLeadingZeros(k, ShowNat(n));
    DigitsValueShowNat(n);
    ParseSignedDigits(sign, ds);
  }

  /** The printer and the parser are inverse on the `isize` range. */
  lemma ParseShow(v: Isize)
    ensures ParseIsize(Show(v)) == Ok(v)
  {
    var sign := if v < 0 then Minus else Unsigned;
    assert Show(v) == SignText(sign) + Zeros(0) + ShowNat(Abs(v));
    ParseIsizeComplete(sign, 0, Abs(v));
  }
}
