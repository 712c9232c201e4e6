/** The .NET integer primitives the version type relies on: the 32-bit `int`,
    decimal numerals, `int.Parse` on a numeral, `int.TryParse` on arbitrary text
    and the invariant-culture rendering of an `int`. */
module DotNetInt {
  import opened Wrappers

  const Int32Min: int := -0x8000_0000
  const Int32Max: int := 0x7FFF_FFFF

  /** C#'s `int`. */
  newtype int32 = x: int | -0x8000_0000 <= x < 0x8000_0000

  predicate IsDigit(c: char) {
    '0' <= c <= '9'
  }

  /** A non-empty run of ASCII decimal digits (what `\d+` matches, over ASCII). */
  predicate IsNumeral(s: string) {
    s != [] && forall i :: 0 <= i < |s| ==> IsDigit(s[i])
  }

  function DigitValue(c: char): nat
    requires IsDigit(c)
  {
    c as int - '0' as int
  }

  function DigitChar(d: nat): (c: char)
    requires d < 10
    ensures IsDigit(c) && DigitValue(c) == d
  {
    ('0' as int + d) as char
  }

  /** The value of a decimal numeral, leading zeros allowed. */
  function DigitsValue(s: string): nat
    requires forall i :: 0 <= i < |s| ==> IsDigit(s[i])
  {
    if s == [] then 0 else DigitsValue(s[..|s| - 1]) * 10 + DigitValue(s[|s| - 1])
  }

  /** The shortest decimal numeral of `n` (no leading zeros). */
  function NatToDigits(n: nat): (s: string)
    ensures IsNumeral(s)
    ensures s[0] != '0' || n == 0
  {
    if n < 10 then [DigitChar(n)] else NatToDigits(n / 10) + [DigitChar(n % 10)]
  }

  lemma {:induction false} DigitsRoundTrip(n: nat)
    ensures DigitsValue(NatToDigits(n)) == n
  {
    if n >= 10 {
      var s := NatToDigits(n);
      assert s[..|s| - 1] == NatToDigits(n / 10);
      DigitsRoundTrip(n / 10);
    }
  }

  /** `int.Parse` applied to a numeral matched by the version grammar: the value,
      or None where .NET throws an OverflowException. */
  function ParseNumeral(s: string): (r: Option<int32>)
    requires IsNumeral(s)
    ensures r.Some? <==> DigitsValue(s) <= Int32Max
    ensures r.Some? ==> 0 <= r.value && r.value as int == DigitsValue(s)
  {
    var v := DigitsValue(s);
    if v <= Int32Max then Some(v as int32) else None
  }

  /** Rendering a non-negative int and parsing it back gives the same int. */
  lemma ParseNumeralOfDigits(n: int32)
    requires 0 <= n
    ensures ParseNumeral(NatToDigits(n as nat)) == Some(n)
  {
    DigitsRoundTrip(n as nat);
  }

  /** `int.ToString()`, with `-` as the negative sign (the invariant culture's;
      non-negative numbers render the same in every culture). */
  function FormatInt32(n: int32): (s: string)
    ensures s != [] && (s[0] == '-' || IsDigit(s[0])) && IsDigit(s[|s| - 1])
    ensures s[0] == '-' <==> n < 0
  {
    if n < 0 then "-" + NatToDigits(-(n as int)) else NatToDigits(n as nat)
  }

  /** The white space `int.TryParse` skips around a number (NumberStyles.Integer). */
  predicate IsNumberWhite(c: char) {
    c == ' ' || '\t' <= c <= '\r'
  }

  function TrimStartWhite(s: string): (t: string)
    ensures t == [] || !IsNumberWhite(t[0])
  {
    if s != [] && IsNumberWhite(s[0]) then TrimStartWhite(s[1..]) else s
  }

  function TrimEndWhite(s: string): (t: string)
    ensures t == [] || !IsNumberWhite(t[|t| - 1])
  {
    if s != [] && IsNumberWhite(s[|s| - 1]) then TrimEndWhite(s[..|s| - 1]) else s
  }

  /** `int.TryParse(s, out n)` under the invariant culture: optional surrounding
      white space, an optional `+` or `-`, ASCII digits, and a value in range. */
  function TryParseInt32(s: string): (r: Option<int32>)
  {
    var t := TrimEndWhite(TrimStartWhite(s));
    if t == [] then None
    else
      var negative := t[0] == '-';
      var digits := if t[0] == '-' || t[0] == '+' then t[1..] else t;
      if !IsNumeral(digits) then None
      else
        var v := if negative then -(DigitsValue(digits) as int) else DigitsValue(digits) as int;
        if Int32Min <= v <= Int32Max then Some(v as int32) else None
  }

  /** Trimming leaves text alone that neither starts nor ends with white space. */
  lemma TrimUnpadded(s: string)
    requires s != [] && !IsNumberWhite(s[0]) && !IsNumberWhite(s[|s| - 1])
    ensures TrimEndWhite(TrimStartWhite(s)) == s
  {
  }

  /** A numeral is int-parsable exactly when its value fits in 32 bits. */
  lemma TryParseNumeral(s: string)
    requires IsNumeral(s)
    ensures TryParseInt32(s).Some? <==> DigitsValue(s) <= Int32Max
    ensures TryParseInt32(s).Some? ==> TryParseInt32(s).value as int == DigitsValue(s)
  {
    TrimUnpadded(s);
  }

  /** A minus sign followed by a numeral parses to the negated value when it fits. */
  lemma TryParseNegativeNumeral(digits: string)
    requires IsNumeral(digits) && DigitsValue(digits) <= -Int32Min
    ensures TryParseInt32("-" + digits) == Some(-(DigitsValue(digits) as int) as int32)
  {
    var s := "-" + digits;
    assert s[0] == '-' && s[1..] == digits;
    assert !IsNumberWhite(s[|s| - 1]) by { assert s[|s| - 1] == digits[|digits| - 1]; }
    TrimUnpadded(s);
    var t := TrimEndWhite(TrimStartWhite(s));
    assert t == s;
    var v := -(DigitsValue(digits) as int);
    assert Int32Min <= v <= Int32Max;
  }

  /** Text that `int.ToString()` produced is parsed back by `int.TryParse`. */
  lemma TryParseFormat(n: int32)
    ensures TryParseInt32(FormatInt32(n)) == Some(n)
  {
    if n < 0 {
      var m := -(n as int);
      DigitsRoundTrip(m);
      TryParseNegativeNumeral(NatToDigits(m));
    } else {
      DigitsRoundTrip(n as nat);
      TryParseNumeral(NatToDigits(n as nat));
    }
  }

  predicate IsAsciiLetter(c: char) {
    'A' <= c <= 'Z' || 'a' <= c <= 'z'
  }

  lemma {:induction false} TrimStartKeeps(s: string, c: char)
    requires c in s && !IsNumberWhite(c)
    ensures c in TrimStartWhite(s)
  {
    if s != [] && IsNumberWhite(s[0]) {
      assert c in s[1..];
      TrimStartKeeps(s[1..], c);
    }
  }

  lemma {:induction false} TrimEndKeeps(s: string, c: char)
    requires c in s && !IsNumberWhite(c)
    ensures c in TrimEndWhite(s)
  {
    if s != [] && IsNumberWhite(s[|s| - 1]) {
      assert c in s[..|s| - 1];
      TrimEndKeeps(s[..|s| - 1], c);
    }
  }

  /** A segment that holds an ASCII letter anywhere is never int-parsable. */
  lemma TryParseRejectsLetter(s: string, c: char)
    requires c in s && IsAsciiLetter(c)
    ensures TryParseInt32(s) == None
  {
    TrimStartKeeps(s, c);
    TrimEndKeeps(TrimStartWhite(s), c);
    var t := TrimEndWhite(TrimStartWhite(s));
    var i :| 0 <= i < |t| && t[i] == c;
    var digits := if t[0] == '-' || t[0] == '+' then t[1..] else t;
    var j := if t[0] == '-' || t[0] == '+' then i - 1 else i;
    assert 0 <= j < |digits| && digits[j] == c && !IsDigit(c);
  }
}
