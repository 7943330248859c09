/** Swift's failable `Int(_: String)` initialiser on a 64-bit platform, and the
    decimal rendering `String(n)` used to build page URLs.

    `Int(s)` accepts an optional `+` or `-` followed by one or more ASCII
    digits and nothing else (no spaces, no other digit scripts), and fails
    when the value does not fit in a signed 64-bit integer. */
module SwiftInt {
  import opened Common

  const Int64Min: int := -0x8000_0000_0000_0000
  const Int64Max: int := 0x7FFF_FFFF_FFFF_FFFF

  predicate InInt64(n: int) {
    Int64Min <= n <= Int64Max
  }

  predicate IsDigit(c: char) {
    '0' <= c <= '9'
  }

  predicate AllDigits(s: string) {
    forall i | 0 <= i < |s| :: IsDigit(s[i])
  }

  function DigitValue(c: char): (d: nat)
    requires IsDigit(c)
    ensures d < 10
  {
    (c as int) - ('0' as int)
  }

  function DigitChar(d: nat): (c: char)
    requires d < 10
    ensures IsDigit(c) && DigitValue(c) == d
  {
    (('0' as int) + d) as char
  }

  /** The value of a run of decimal digits, most significant first. */
  function DigitsValue(ds: string): nat
    requires AllDigits(ds)
  {
    if |ds| == 0 then 0
    else DigitsValue(ds[..|ds| - 1]) * 10 + DigitValue(ds[|ds| - 1])
  }

  /** The part of a literal after an optional leading sign. */
  function Magnitude(s: string): string {
    if |s| > 0 && (s[0] == '+' || s[0] == '-') then s[1..] else s
  }

  /** The literal's syntax: optional sign, then at least one digit. */
  predicate IsIntLiteral(s: string) {
    |Magnitude(s)| > 0 && AllDigits(Magnitude(s))
  }

  /** The mathematical value of a well-formed literal. */
  function LiteralValue(s: string): int
    requires IsIntLiteral(s)
  {
    var m: int := DigitsValue(Magnitude(s));
    if s[0] == '-' then -m else m
  }

  /** Swift's `Int(s)`. */
  function ParseInt(s: string): (r: Option<int>)
    ensures r.Some? ==> InInt64(r.value)
    ensures r.Some? <==> IsIntLiteral(s) && InInt64(LiteralValue(s))
    ensures r.Some? ==> r.value == LiteralValue(s)
  {
    if !IsIntLiteral(s) then None
    else
      var v := LiteralValue(s);
      if InInt64(v) then Some(v) else None
  }

  /** The decimal digits of a natural number, without leading zeros. */
  function NatToDigits(n: nat): (ds: string)
    ensures |ds| > 0 && AllDigits(ds)
  {
    if n < 10 then [DigitChar(n)] else NatToDigits(n / 10) + [DigitChar(n % 10)]
  }

  /** Swift's `String(n)`: a minus sign for negatives, then the digits. */
  function Format(n: int): (s: string)
    ensures IsIntLiteral(s)
    ensures n >= 0 ==> AllDigits(s)
  {
    if n < 0 then "-" + NatToDigits(-n) else NatToDigits(n)
  }

  lemma {:induction false} DigitsRoundTrip(n: nat)
    ensures DigitsValue(NatToDigits(n)) == n
  {
    if n >= 10 {
      var ds := NatToDigits(n);
      var prefix := NatToDigits(n / 10);
      assert ds[..|ds| - 1] == prefix;
      DigitsRoundTrip(n / 10);
    }
  }

  /** Parsing what `String(n)` prints gives `n` back for every 64-bit `n`. */
  lemma FormatParseRoundTrip(n: int)
    requires InInt64(n)
    ensures ParseInt(Format(n)) == Some(n)
  {
    var s := Format(n);
    if n < 0 {
      assert Magnitude(s) == NatToDigits(-n);
      DigitsRoundTrip(-n);
    } else {
      assert s[0] != '-' && s[0] != '+';
      DigitsRoundTrip(n);
    }
  }

  /** A negative number passes `Int(_:)`, and a word never does: the two
      strings the listing code special-cases are both rejected. */
  lemma ParseExamples()
    ensures ParseInt("-5") == Some(-5)
    ensures ParseInt("+7") == Some(7)
    ensures ParseInt("007") == Some(7)
    ensures ParseInt("") == None && ParseInt("-") == None && ParseInt(" 1") == None
    ensures ParseInt("공지") == None && ParseInt("번호") == None
  {
    assert Magnitude("-5") == "5";
    assert Magnitude("+7") == "7";
    assert DigitsValue("007") == 7 by {
      assert "007"[..2] == "00";
      assert "00"[..1] == "0";
    }
    assert !IsDigit("공지"[0]);
    assert !IsDigit("번호"[0]);
    assert !IsDigit(" 1"[0]);
  }
}
