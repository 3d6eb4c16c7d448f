/** .NET `int.TryParse(string, out int)` with the default integer style:
    surrounding white space, an optional leading sign, one or more ASCII
    digits, and a value within the 32-bit range; on failure the out value is
    zero. */
module IntParse {
  import opened Options
  import opened Strings

  const Int32Min: int := -0x8000_0000
  const Int32Max: int := 0x7FFF_FFFF

  /** White space accepted around a number: space and U+0009 to U+000D. */
  predicate IsWhite(c: char) {
    c == ' ' || '\t' <= c <= '\r'
  }

  predicate AllWhite(s: string) {
    forall k :: 0 <= k < |s| ==> IsWhite(s[k])
  }

  function TrimStart(s: string): (r: string)
    ensures |r| <= |s| && r == s[|s| - |r|..]
    ensures |r| > 0 ==> !IsWhite(r[0])
    ensures AllWhite(s[..|s| - |r|])
    decreases |s|
  {
    if |s| > 0 && IsWhite(s[0]) then
      var r := TrimStart(s[1..]);
      assert s[1..][..|s| - 1 - |r|] == s[1..|s| - |r|];
      r
    else s
  }

  function TrimEnd(s: string): (r: string)
    ensures |r| <= |s| && r == s[..|r|]
    ensures |r| > 0 ==> !IsWhite(r[|r| - 1])
    ensures AllWhite(s[|r|..])
    decreases |s|
  {
    if |s| > 0 && IsWhite(s[|s| - 1]) then
      var r := TrimEnd(s[..|s| - 1]);
      assert s[..|s| - 1][|r|..] == s[|r|..|s| - 1];
      r
    else s
  }

  /** The text between the surrounding white space. */
  function Trim(s: string): string {
    TrimEnd(TrimStart(s))
  }

  predicate IsSign(c: char) {
    c == '+' || c == '-'
  }

  /** The value of text already stripped of surrounding white space, or
      zero when it is not an optionally signed run of digits in range. */
  function ParseNumber(t: string): (r: int)
    ensures Int32Min <= r <= Int32Max
  {
    var signed := |t| > 0 && IsSign(t[0]);
    var digits := if signed then t[1..] else t;
    if |digits| == 0 || !AllDigits(digits) then 0
    else
      var magnitude := DigitsValue(digits);
      var v: int := if signed && t[0] == '-' then -(magnitude as int) else magnitude;
      if Int32Min <= v <= Int32Max then v else 0
  }

  /** The parsed value, or zero when `text` is null or not a 32-bit integer. */
  function TryParseInt(text: Option<string>): (r: int)
    ensures Int32Min <= r <= Int32Max
    ensures text.None? ==> r == 0
  {
    match text
    case None => 0
    case Some(s) => ParseNumber(Trim(s))
  }

  /** C#'s `int.ToString()` in the invariant culture. */
  function IntToString(n: int): (s: string)
    ensures |s| >= 1 && !IsWhite(s[0]) && !IsWhite(s[|s| - 1])
  {
    if n < 0 then "-" + NatToString(-n) else NatToString(n)
  }

  lemma {:induction false} TrimStartWhitePrefix(w: string, s: string)
    requires AllWhite(w)
    requires |s| > 0 && !IsWhite(s[0])
    ensures TrimStart(w + s) == s
    decreases |w|
  {
    if |w| > 0 {
      assert (w + s)[1..] == w[1..] + s;
      TrimStartWhitePrefix(w[1..], s);
    } else {
      assert w + s == s;
    }
  }

  lemma {:induction false} TrimEndWhiteSuffix(s: string, w: string)
    requires AllWhite(w)
    requires |s| > 0 && !IsWhite(s[|s| - 1])
    ensures TrimEnd(s + w) == s
    decreases |w|
  {
    if |w| > 0 {
      assert (s + w)[..|s + w| - 1] == s + w[..|w| - 1];
      TrimEndWhiteSuffix(s, w[..|w| - 1]);
    } else {
      assert s + w == s;
    }
  }

  lemma ParseUnsigned(n: nat)
    ensures ParseNumber(NatToString(n)) == if n <= Int32Max then n else 0
  {
    var s := NatToString(n);
    assert IsDigit(s[0]);
    NatToStringValue(n);
  }

  lemma ParseNegative(n: nat)
    requires 0 < n <= -Int32Min
    ensures ParseNumber("-" + NatToString(n)) == -(n as int)
  {
    var s := "-" + NatToString(n);
    assert s[1..] == NatToString(n);
    NatToStringValue(n);
  }

  lemma TrimSurrounded(before: string, s: string, after: string)
    requires AllWhite(before) && AllWhite(after)
    requires |s| >= 1 && !IsWhite(s[0]) && !IsWhite(s[|s| - 1])
    ensures Trim(before + s + after) == s
  {
    TrimStartWhitePrefix(before, s + after);
    assert before + s + after == before + (s + after);
    TrimEndWhiteSuffix(s, after);
  }

  /** Parsing undoes printing, whatever white space surrounds the number. */
  lemma TryParseIntToString(n: int, before: string, after: string)
    requires Int32Min <= n <= Int32Max
    requires AllWhite(before) && AllWhite(after)
    ensures TryParseInt(Some(before + IntToString(n) + after)) == n
  {
    TrimSurrounded(before, IntToString(n), after);
    if n < 0 {
      ParseNegative(-n);
    } else {
      ParseUnsigned(n);
    }
  }

  /** Text that starts with something other than white space, a sign or a
      digit does not parse, and reads as zero. */
  lemma NonNumericReadsZero(s: string)
    requires |s| > 0 && !IsWhite(s[0]) && !IsSign(s[0]) && !IsDigit(s[0])
    ensures TryParseInt(Some(s)) == 0
  {
    TrimStartWhitePrefix("", s);
    assert "" + s == s;
    var t := Trim(s);
    if |t| > 0 {
      assert t[0] == s[0];
    }
  }

  /** Numbers beyond the 32-bit range do not parse and read as zero. */
  lemma OverflowReadsZero(n: nat)
    requires n > Int32Max
    ensures TryParseInt(Some(NatToString(n))) == 0
  {
    TrimSurrounded("", NatToString(n), "");
    assert "" + NatToString(n) + "" == NatToString(n);
    ParseUnsigned(n);
  }
}
