/** `PachinkoPage.SplitStringToInt`: reads an "a*b" pair of integers. The
    string is split on every '*' (C#'s `string.Split('*')`, which keeps empty
    fields), the first field is parsed, then the second one is looked up and
    parsed; fields after the second are never looked at. */
module PachinkoPage {
  import opened Wrappers
  import opened Decimal

  const Star: char := '*'

  /** The failures `SplitStringToInt` can end in: a field that `int.Parse`
      rejects, or a missing second field (`parts[1]` out of range). */
  datatype PairError = BadField(field: nat, error: ParseError) | MissingSecondField

  /** The fields joined back together with `sep` between neighbours. */
  function Join(parts: seq<string>, sep: char): string
    requires |parts| >= 1
    decreases |parts|
  {
    if |parts| == 1 then parts[0] else parts[0] + [sep] + Join(parts[1..], sep)
  }

  /** `s.Split(sep)`: the maximal `sep`-free fields of `s`, empty ones included. */
  function Split(s: string, sep: char): (parts: seq<string>)
    ensures |parts| >= 1
    ensures forall i | 0 <= i < |parts| :: sep !in parts[i]
    ensures Join(parts, sep) == s
    decreases |s|
  {
    if |s| == 0 then [""]
    else if s[0] == sep then [""] + Split(s[1..], sep)
    else
      var rest := Split(s[1..], sep);
      [[s[0]] + rest[0]] + rest[1..]
  }

  /** A string without the separator is a single field. */
  lemma {:induction false} SplitWithoutSeparator(s: string, sep: char)
    requires sep !in s
    ensures Split(s, sep) == [s]
    decreases |s|
  {
    if |s| > 0 {
      assert sep !in s[1..];
      SplitWithoutSeparator(s[1..], sep);
    }
  }

  /** A separator-free prefix followed by the separator is exactly the first field. */
  lemma {:induction false} SplitAtFirstSeparator(a: string, sep: char, b: string)
    requires sep !in a
    ensures Split(a + [sep] + b, sep) == [a] + Split(b, sep)
    decreases |a|
  {
    if |a| > 0 {
      assert (a + [sep] + b)[1..] == a[1..] + [sep] + b;
      SplitAtFirstSeparator(a[1..], sep, b);
      assert [a[0]] + a[1..] == a;
    } else {
      assert a + [sep] + b == [sep] + b;
      assert ([sep] + b)[1..] == b;
    }
  }

  /** The `(first, second)` pair written as "first*second". */
  function SplitStringToInt(input: string): (r: Result<(int, int), PairError>)
    ensures r.Success? ==> IsInt32(r.value.0) && IsInt32(r.value.1)
    ensures Star !in input ==> r.Failure?
  {
    var parts := Split(input, Star);
    match ParseInt32(parts[0])
    case Failure(e) => Failure(BadField(0, e))
    case Success(first) =>
      if |parts| < 2 then
        (SplitWithoutSeparatorIfSingle(input, parts); Failure(MissingSecondField))
      else
        match ParseInt32(parts[1])
        case Failure(e) => Failure(BadField(1, e))
        case Success(second) => Success((first, second))
  }

  /** A single field means the input held no separator. */
  lemma SplitWithoutSeparatorIfSingle(input: string, parts: seq<string>)
    requires parts == Split(input, Star) && |parts| < 2
    ensures Star !in input
  {
    assert Join(parts, Star) == parts[0];
  }

  /** The result depends only on the first two fields: with `a` and `b` free
      of '*', anything after a second '*' is ignored. */
  lemma FirstTwoFields(a: string, b: string, tail: string)
    requires Star !in a && Star !in b
    requires tail == "" || tail[0] == Star
    ensures SplitStringToInt(a + [Star] + b + tail) ==
      match ParseInt32(a)
      case Failure(e) => Failure(BadField(0, e))
      case Success(x) =>
        match ParseInt32(b)
        case Failure(e) => Failure(BadField(1, e))
        case Success(y) => Success((x, y))
  {
    var input := a + [Star] + b + tail;
    assert input == a + [Star] + (b + tail);
    SplitAtFirstSeparator(a, Star, b + tail);
    if tail == "" {
      assert b + tail == b;
      SplitWithoutSeparator(b, Star);
    } else {
      assert b + tail == b + [Star] + tail[1..];
      SplitAtFirstSeparator(b, Star, tail[1..]);
    }
    assert Split(input, Star)[0] == a && Split(input, Star)[1] == b;
  }

  /** "1*2*3" reads as (1, 2). */
  lemma ExtraFieldsIgnored()
    ensures SplitStringToInt("1*2*3") == Success((1, 2))
  {
    var a, b, tail := [DigitChar(1)], [DigitChar(2)], [Star, DigitChar(3)];
    calc {
      SplitStringToInt("1*2*3");
      { assert "1*2*3" == a + [Star] + b + tail; }
      SplitStringToInt(a + [Star] + b + tail);
      { FirstTwoFields(a, b, tail); ParsesDigit(1); ParsesDigit(2); }
      Success((1, 2));
    }
  }

  /** A single decimal digit reads as its value. */
  lemma ParsesDigit(d: int)
    requires 0 <= d <= 9
    ensures ParseInt32([DigitChar(d)]) == Success(d)
  {
    assert IntToString(d) == [DigitChar(d)];
    ParseIntToString(d);
  }

  /** Writing two 32-bit integers as "a*b" and reading them back gives them back. */
  lemma RoundTrip(a: int, b: int)
    requires IsInt32(a) && IsInt32(b)
    ensures SplitStringToInt(IntToString(a) + "*" + IntToString(b)) == Success((a, b))
  {
    NoStarInIntToString(a);
    NoStarInIntToString(b);
    FirstTwoFields(IntToString(a), IntToString(b), "");
    assert IntToString(a) + [Star] + IntToString(b) + "" == IntToString(a) + "*" + IntToString(b);
    ParseIntToString(a);
    ParseIntToString(b);
  }

  lemma NoStarInIntToString(i: int)
    ensures Star !in IntToString(i)
  {
    var s := IntToString(i);
    if i >= 0 {
      assert forall k | 0 <= k < |s| :: s[k] != Star;
    } else {
      assert forall k | 1 <= k < |s| :: s[1..][k - 1] == s[k] && s[k] != Star;
    }
  }
}
