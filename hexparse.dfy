/**
 * The class check `strconv.ParseInt(classID, 16, 64)`: an optional sign, then at
 * least one hexadecimal digit (no "0x" prefix and no underscores, since the base
 * is given explicitly), and a value that fits in a signed 64-bit integer. Any
 * syntax or range error is modelled as None.
 */
module HexParse {
  import opened Common

  const MaxInt64: int := 0x7FFF_FFFF_FFFF_FFFF
  const MinInt64: int := -0x8000_0000_0000_0000

  predicate IsHexDigit(c: char) {
    '0' <= c <= '9' || 'a' <= c <= 'f' || 'A' <= c <= 'F'
  }

  predicate AllHexDigits(s: string) {
    forall i :: 0 <= i < |s| ==> IsHexDigit(s[i])
  }

  function DigitValue(c: char): (v: nat)
    requires IsHexDigit(c)
    ensures v < 16
  {
    if '0' <= c <= '9' then c as int - '0' as int
    else if 'a' <= c <= 'f' then c as int - 'a' as int + 10
    else c as int - 'A' as int + 10
  }

  /** The value of a string of hexadecimal digits, most significant first. */
  function HexValue(s: string): nat
    requires AllHexDigits(s)
    decreases |s|
  {
    if s == [] then 0 else HexValue(s[..|s| - 1]) * 16 + DigitValue(s[|s| - 1])
  }

  /** The digits of `s` after at most one leading sign. */
  function Unsigned(s: string): (d: string)
    requires |s| > 0
    ensures |d| == |s| || |d| == |s| - 1
    ensures s[0] == '+' || s[0] == '-' ==> d == s[1..]
    ensures s[0] != '+' && s[0] != '-' ==> d == s
  {
    if s[0] == '+' || s[0] == '-' then s[1..] else s
  }

  /** What `strconv.ParseInt(s, 16, 64)` accepts: a sign, one digit or more, a value in range. */
  predicate WellFormed(s: string) {
    && |s| > 0
    && |Unsigned(s)| > 0
    && AllHexDigits(Unsigned(s))
    && (if s[0] == '-' then HexValue(Unsigned(s)) <= -MinInt64 else HexValue(Unsigned(s)) <= MaxInt64)
  }

  /** `strconv.ParseInt(s, 16, 64)`, with None for every error it reports. */
  function ParseInt16(s: string): (r: Option<int>)
    ensures r.Some? <==> WellFormed(s)
    ensures r.Some? ==> MinInt64 <= r.value <= MaxInt64
    ensures r.Some? ==> s[0] != '-' ==> r.value == HexValue(Unsigned(s))
    ensures r.Some? ==> s[0] == '-' ==> r.value == -(HexValue(Unsigned(s)) as int)
  {
    if |s| == 0 then None
    else
      var negative := s[0] == '-';
      var digits := Unsigned(s);
      if |digits| == 0 || !AllHexDigits(digits) then None
      else
        var magnitude := HexValue(digits);
        if !negative && magnitude > MaxInt64 then None
        else if negative && magnitude > -MinInt64 then None
        else Some(if negative then -(magnitude as int) else magnitude)
  }

  /** True when a class identifier parses and names a network controller. */
  predicate IsNetClass(classId: string, netClass: int) {
    ParseInt16(classId) == Some(netClass)
  }

  /** The lower-case hexadecimal digit of a value below 16. */
  function HexChar(d: nat): (c: char)
    requires d < 16
    ensures IsHexDigit(c) && DigitValue(c) == d
  {
    if d < 10 then ('0' as int + d) as char else ('a' as int + d - 10) as char
  }

  /** The shortest lower-case hexadecimal spelling of a natural number. */
  function FormatHex(n: nat): (s: string)
    ensures |s| > 0 && AllHexDigits(s)
    ensures s[0] != '-' && s[0] != '+'
    decreases n
  {
    if n < 16 then [HexChar(n)] else FormatHex(n / 16) + [HexChar(n % 16)]
  }

  lemma {:induction false} HexValueOfFormat(n: nat)
    ensures HexValue(FormatHex(n)) == n
    decreases n
  {
    var s := FormatHex(n);
    if n >= 16 {
      assert s[..|s| - 1] == FormatHex(n / 16);
      HexValueOfFormat(n / 16);
    } else {
      assert s[..|s| - 1] == [];
    }
  }

  /** Every value of the non-negative int64 range is read back from its hex spelling. */
  lemma ParseFormatRoundTrip(n: nat)
    requires n <= MaxInt64
    ensures ParseInt16(FormatHex(n)) == Some(n)
  {
    HexValueOfFormat(n);
  }

  /** A leading minus sign negates, down to the most negative int64. */
  lemma ParseNegativeRoundTrip(n: nat)
    requires n <= -MinInt64
    ensures ParseInt16("-" + FormatHex(n)) == Some(-(n as int))
  {
    var s := "-" + FormatHex(n);
    assert s[1..] == FormatHex(n);
    HexValueOfFormat(n);
  }

  /** A leading zero digit does not change the value of a digit string. */
  lemma {:induction false} HexValueLeadingZero(s: string)
    requires AllHexDigits(s)
    ensures AllHexDigits("0" + s) && HexValue("0" + s) == HexValue(s)
    decreases |s|
  {
    var z := "0" + s;
    assert IsHexDigit(z[0]);
    assert forall i :: 1 <= i < |z| ==> z[i] == s[i - 1];
    if s != [] {
      assert z[..|z| - 1] == "0" + s[..|s| - 1];
      HexValueLeadingZero(s[..|s| - 1]);
    } else {
      assert z[..|z| - 1] == [];
    }
  }

  /** Zero padding is accepted and ignored: "02" reads as 2, like "2". */
  lemma ParseZeroPadded(s: string)
    requires |s| > 0 && s[0] != '+' && s[0] != '-'
    ensures ParseInt16("0" + s) == ParseInt16(s)
  {
    if AllHexDigits(s) {
      HexValueLeadingZero(s);
    } else {
      var i :| 0 <= i < |s| && !IsHexDigit(s[i]);
      assert ("0" + s)[i + 1] == s[i];
    }
  }

  /** A plus sign is accepted and ignored; a "0x" prefix is a syntax error. */
  lemma ParseSignAndPrefix(s: string)
    requires |s| > 0 && s[0] != '+' && s[0] != '-'
    ensures ParseInt16("+" + s) == ParseInt16(s)
    ensures ParseInt16("0x" + s) == None
  {
    assert ("+" + s)[1..] == s;
    assert ("0x" + s)[1] == 'x';
  }

  /** A just-too-large magnitude is a range error, not a value. */
  lemma ParseRejectsOverflow()
    ensures ParseInt16(FormatHex(MaxInt64 + 1)) == None
    ensures ParseInt16("") == None
    ensures ParseInt16("-") == None
  {
    HexValueOfFormat(MaxInt64 + 1);
  }
}
