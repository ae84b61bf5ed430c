/** Decimal text for integers: the `ToString()` used to build configuration
    keys such as "PinsConfig_3", and the .NET `int.Parse(string)` used by
    `PachinkoPage.SplitStringToInt`.

    `int.Parse` is modelled with the default `NumberStyles.Integer` and the
    invariant culture: optional white space (U+0009..U+000D and U+0020), an
    optional '+' or '-', one or more ASCII digits, optional white space, and
    then any number of NUL characters, which .NET tolerates at the very end.
    A string of that shape whose value is outside the 32-bit signed range is
    an overflow; any other string is a format error. */
module Decimal {
  import opened Wrappers

  const Int32Min: int := -0x8000_0000
  const Int32Max: int := 0x7FFF_FFFF

  predicate IsInt32(i: int) {
    Int32Min <= i <= Int32Max
  }

  /** The two exceptions `int.Parse` can raise on a non-null string. */
  datatype ParseError = FormatError | OverflowError

  predicate IsDigit(c: char) {
    '0' <= c <= '9'
  }

  predicate AllDigits(s: string) {
    forall i | 0 <= i < |s| :: IsDigit(s[i])
  }

  predicate IsWhite(c: char) {
    c == ' ' || ('\t' <= c <= '\r')
  }

  predicate AllWhite(s: string) {
    forall i | 0 <= i < |s| :: IsWhite(s[i])
  }

  predicate AllNul(s: string) {
    forall i | 0 <= i < |s| :: s[i] == '\0'
  }

  function DigitChar(d: nat): (c: char)
    requires d < 10
    ensures IsDigit(c)
  {
    (('0' as int) + d) as char
  }

  function DigitValue(c: char): (d: nat)
    requires IsDigit(c)
    ensures d < 10 && DigitChar(d) == c
  {
    (c as int) - ('0' as int)
  }

  /** Shortest decimal spelling of `n` (no leading zeros). */
  function NatToString(n: nat): (s: string)
    ensures |s| > 0 && AllDigits(s)
    ensures |s| > 1 ==> s[0] != '0'
    decreases n
  {
    if n < 10 then [DigitChar(n)]
    else NatToString(n / 10) + [DigitChar(n % 10)]
  }

  /** The number a digit string denotes; leading zeros are allowed. */
  function DigitsValue(s: string): nat
    requires AllDigits(s)
    decreases |s|
  {
    if |s| == 0 then 0
    else 10 * DigitsValue(s[..|s| - 1]) + DigitValue(s[|s| - 1])
  }

  /** C#'s `int.ToString()`: a '-' in front of negative values. */
  function IntToString(i: int): (s: string)
    ensures |s| > 0
    ensures i >= 0 ==> AllDigits(s)
    ensures i < 0 ==> s[0] == '-' && AllDigits(s[1..]) && |s| > 1
  {
    if i < 0 then "-" + NatToString(-i) else NatToString(i)
  }

  lemma {:induction false} NatToStringRoundTrip(n: nat)
    ensures DigitsValue(NatToString(n)) == n
    decreases n
  {
    var s := NatToString(n);
    if n >= 10 {
      NatToStringRoundTrip(n / 10);
      assert s[..|s| - 1] == NatToString(n / 10);
      assert s[|s| - 1] == DigitChar(n % 10);
    }
  }

  /** Distinct integers print differently. */
  lemma IntToStringInjective(i: int, j: int)
    requires IntToString(i) == IntToString(j)
    ensures i == j
  {
    if i < 0 && j < 0 {
      assert NatToString(-i) == IntToString(i)[1..];
      NatToStringRoundTrip(-i);
      NatToStringRoundTrip(-j);
    } else if i >= 0 && j >= 0 {
      NatToStringRoundTrip(i);
      NatToStringRoundTrip(j);
    }
  }

  /** `s` without its leading white space. */
  function TrimStart(s: string): (t: string)
    ensures |t| <= |s| && t == s[|s| - |t|..]
    ensures AllWhite(s[..|s| - |t|])
    ensures |t| > 0 ==> !IsWhite(t[0])
    decreases |s|
  {
    if |s| > 0 && IsWhite(s[0]) then
      var t := TrimStart(s[1..]);
      assert forall i | 1 <= i < |s| - |t| :: s[i] == s[1..][..|s| - 1 - |t|][i - 1];
      t
    else s
  }

  /** `s` without its trailing white space. */
  function TrimEnd(s: string): (t: string)
    ensures |t| <= |s| && t == s[..|t|]
    ensures AllWhite(s[|t|..])
    ensures |t| > 0 ==> !IsWhite(t[|t| - 1])
    decreases |s|
  {
    if |s| > 0 && IsWhite(s[|s| - 1]) then
      var t := TrimEnd(s[..|s| - 1]);
      assert s[|t|..] == s[..|s| - 1][|t|..] + [s[|s| - 1]];
      t
    else s
  }

  /** `s` without its trailing NUL characters. */
  function TrimNuls(s: string): (t: string)
    ensures |t| <= |s| && t == s[..|t|]
    ensures AllNul(s[|t|..])
    ensures |t| > 0 ==> t[|t| - 1] != '\0'
    decreases |s|
  {
    if |s| > 0 && s[|s| - 1] == '\0' then
      var t := TrimNuls(s[..|s| - 1]);
      assert s[|t|..] == s[..|s| - 1][|t|..] + [s[|s| - 1]];
      t
    else s
  }

  /** The trims remove exactly a white-space prefix, a white-space suffix and
      a NUL suffix. */
  lemma TrimStartOf(w: string, x: string)
    requires AllWhite(w) && (|x| > 0 ==> !IsWhite(x[0]))
    ensures TrimStart(w + x) == x
  {
    var s := w + x;
    assert forall i | 0 <= i < |w| :: s[i] == w[i];
    assert |x| > 0 ==> s[|w|] == x[0];
    assert |TrimStart(s)| == |x|;
    assert s[|w|..] == x;
  }

  lemma TrimEndOf(x: string, w: string)
    requires AllWhite(w) && (|x| > 0 ==> !IsWhite(x[|x| - 1]))
    ensures TrimEnd(x + w) == x
  {
    var s := x + w;
    assert forall i | |x| <= i < |s| :: s[i] == w[i - |x|];
    assert |x| > 0 ==> s[|x| - 1] == x[|x| - 1];
    assert |TrimEnd(s)| == |x|;
    assert s[..|x|] == x;
  }

  lemma TrimNulsOf(x: string, z: string)
    requires AllNul(z) && (|x| > 0 ==> x[|x| - 1] != '\0')
    ensures TrimNuls(x + z) == x
  {
    var s := x + z;
    assert forall i | |x| <= i < |s| :: s[i] == z[i - |x|];
    assert |x| > 0 ==> s[|x| - 1] == x[|x| - 1];
    assert |TrimNuls(s)| == |x|;
    assert s[..|x|] == x;
  }

  /** The signed value of an optional sign followed by digits, if `t` has that shape. */
  function SignedDigits(t: string): Option<int> {
    if |t| > 0 && (t[0] == '-' || t[0] == '+') then
      var digits := t[1..];
      if |digits| > 0 && AllDigits(digits) then
        var m: int := DigitsValue(digits);
        var v := if t[0] == '-' then -m else m;
        Some(v)
      else None
    else if |t| > 0 && AllDigits(t) then Some(DigitsValue(t))
    else None
  }

  /** `int.Parse(s)` on a non-null string. */
  function ParseInt32(s: string): (r: Result<int, ParseError>)
    ensures r.Success? ==> IsInt32(r.value)
    ensures |s| == 0 ==> r == Failure(FormatError)
  {
    match SignedDigits(TrimStart(TrimEnd(TrimNuls(s))))
    case None => Failure(FormatError)
    case Some(v) => if IsInt32(v) then Success(v) else Failure(OverflowError)
  }

  /** `s` is `lead + sign + digits + trail + nuls` in the shape `int.Parse`
      accepts: white space, an optional sign, one or more digits, white
      space, NUL characters. */
  predicate Spelling(s: string, lead: string, sign: string, digits: string, trail: string, nuls: string) {
    && s == lead + sign + digits + trail + nuls
    && AllWhite(lead)
    && (sign == "" || sign == "+" || sign == "-")
    && |digits| > 0 && AllDigits(digits)
    && AllWhite(trail)
    && AllNul(nuls)
  }

  ghost predicate WellSpelled(s: string) {
    exists lead, sign, digits, trail, nuls :: Spelling(s, lead, sign, digits, trail, nuls)
  }

  /** The number a spelling denotes. */
  function SpelledValue(sign: string, digits: string): int
    requires AllDigits(digits)
  {
    var m: int := DigitsValue(digits);
    if sign == "-" then -m else m
  }

  /** A well-spelled string parses to the value it spells when that fits in
      32 bits, and overflows otherwise. */
  lemma ParseSpelled(s: string, lead: string, sign: string, digits: string, trail: string, nuls: string)
    requires Spelling(s, lead, sign, digits, trail, nuls)
    ensures IsInt32(SpelledValue(sign, digits)) ==> ParseInt32(s) == Success(SpelledValue(sign, digits))
    ensures !IsInt32(SpelledValue(sign, digits)) ==> ParseInt32(s) == Failure(OverflowError)
  {
    TrimSpelled(s, lead, sign, digits, trail, nuls);
    SignedDigitsSpelled(sign, digits);
  }

  /** The three trims leave exactly the sign and the digits. */
  lemma TrimSpelled(s: string, lead: string, sign: string, digits: string, trail: string, nuls: string)
    requires Spelling(s, lead, sign, digits, trail, nuls)
    ensures TrimStart(TrimEnd(TrimNuls(s))) == sign + digits
  {
    var t := sign + digits;
    var core := lead + t;
    var kept := core + trail;
    assert s == kept + nuls;
    KeptEndsInDigitOrWhite(core, trail, digits);
    TrimNulsOf(kept, nuls);
    assert core[|core| - 1] == digits[|digits| - 1];
    TrimEndOf(core, trail);
    SignedStart(sign, digits);
    TrimStartOf(lead, t);
  }

  lemma KeptEndsInDigitOrWhite(core: string, trail: string, digits: string)
    requires |digits| > 0 && AllDigits(digits) && AllWhite(trail)
    requires |core| >= |digits| && core[|core| - |digits|..] == digits
    ensures |core + trail| > 0 && (core + trail)[|core + trail| - 1] != '\0'
  {
    var kept := core + trail;
    if |trail| > 0 {
      assert kept[|kept| - 1] == trail[|trail| - 1];
    } else {
      assert kept[|kept| - 1] == core[|core| - 1] == digits[|digits| - 1];
    }
  }

  lemma SignedStart(sign: string, digits: string)
    requires (sign == "" || sign == "+" || sign == "-") && |digits| > 0 && AllDigits(digits)
    ensures !IsWhite((sign + digits)[0])
  {
    if sign == "" {
      assert (sign + digits)[0] == digits[0];
    } else {
      assert (sign + digits)[0] == sign[0];
    }
  }

  lemma SignedDigitsSpelled(sign: string, digits: string)
    requires (sign == "" || sign == "+" || sign == "-") && |digits| > 0 && AllDigits(digits)
    ensures SignedDigits(sign + digits) == Some(SpelledValue(sign, digits))
  {
    var t := sign + digits;
    if sign != "" {
      assert t[0] == sign[0];
      assert t[1..] == digits;
    } else {
      assert t == digits;
    }
  }

  /** `int.Parse` reports a format error exactly on strings that are not well spelled. */
  lemma FormatErrorUnlessSpelled(s: string)
    ensures ParseInt32(s) == Failure(FormatError) <==> !WellSpelled(s)
  {
    if SignedDigits(TrimStart(TrimEnd(TrimNuls(s)))).Some? {
      SpelledByTrims(s);
    }
    if WellSpelled(s) {
      var lead, sign, digits, trail, nuls :| Spelling(s, lead, sign, digits, trail, nuls);
      ParseSpelled(s, lead, sign, digits, trail, nuls);
    }
  }

  /** What the trims strip off, with what they keep, spells the string. */
  lemma SpelledByTrims(s: string)
    requires SignedDigits(TrimStart(TrimEnd(TrimNuls(s)))).Some?
    ensures WellSpelled(s)
  {
    var n := TrimNuls(s);
    var e := TrimEnd(n);
    var t := TrimStart(e);
    SpelledByParts(s, n, e, t);
  }

  lemma SpelledByParts(s: string, n: string, e: string, t: string)
    requires |n| <= |s| && n == s[..|n|] && AllNul(s[|n|..])
    requires |e| <= |n| && e == n[..|e|] && AllWhite(n[|e|..])
    requires |t| <= |e| && t == e[|e| - |t|..] && AllWhite(e[..|e| - |t|])
    requires SignedDigits(t).Some?
    ensures WellSpelled(s)
  {
    var lead, trail, nuls := e[..|e| - |t|], n[|e|..], s[|n|..];
    var sign, digits := SignedParts(t);
    JoinParts(s, n, e, t, lead, trail, nuls);
    Regroup(lead, sign, digits, trail, nuls);
    assert Spelling(s, lead, sign, digits, trail, nuls);
  }

  /** Splits a signed number into its sign and its digits. */
  lemma SignedParts(t: string) returns (sign: string, digits: string)
    requires SignedDigits(t).Some?
    ensures t == sign + digits
    ensures sign == "" || sign == "+" || sign == "-"
    ensures |digits| > 0 && AllDigits(digits)
  {
    sign := if t[0] == '-' || t[0] == '+' then t[..1] else "";
    digits := t[|sign|..];
  }

  lemma JoinParts(s: string, n: string, e: string, t: string, lead: string, trail: string, nuls: string)
    requires |n| <= |s| && n == s[..|n|] && nuls == s[|n|..]
    requires |e| <= |n| && e == n[..|e|] && trail == n[|e|..]
    requires |t| <= |e| && t == e[|e| - |t|..] && lead == e[..|e| - |t|]
    ensures s == lead + t + trail + nuls
  {
    assert e == lead + t;
    assert n == e + trail;
    assert s == n + nuls;
  }

  lemma Regroup(lead: string, sign: string, digits: string, trail: string, nuls: string)
    ensures lead + (sign + digits) + trail + nuls == lead + sign + digits + trail + nuls
  {
  }

  /** Printing and then parsing an integer gives it back exactly when it fits
      in 32 bits; otherwise the parse overflows. */
  lemma ParseIntToString(i: int)
    ensures IsInt32(i) ==> ParseInt32(IntToString(i)) == Success(i)
    ensures !IsInt32(i) ==> ParseInt32(IntToString(i)) == Failure(OverflowError)
  {
    var sign := if i < 0 then "-" else "";
    var digits := NatToString(if i < 0 then -i else i);
    NatToStringRoundTrip(if i < 0 then -i else i);
    assert IntToString(i) == sign + digits;
    BareSpelling(sign, digits);
    ParseSpelled(sign + digits, "", sign, digits, "", "");
  }

  /** A sign and digits with nothing around them are well spelled. */
  lemma BareSpelling(sign: string, digits: string)
    requires (sign == "" || sign == "+" || sign == "-") && |digits| > 0 && AllDigits(digits)
    ensures Spelling(sign + digits, "", sign, digits, "", "")
  {
    assert sign + digits == "" + sign + digits + "" + "";
  }
}
