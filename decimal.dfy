/**
 * Decimal text of unsigned integers: the `{}` formatting of Rust integers and
 * the `str::parse::<u8>` conversion that the BagIt version parser relies on.
 */
module Decimal {
  import opened Common

  predicate IsDigit(c: char) { '0' <= c <= '9' }

  predicate AllDigits(s: string) { forall i | 0 <= i < |s| :: IsDigit(s[i]) }

  function DigitChar(d: nat): (c: char)
    requires d < 10
    ensures IsDigit(c) && c as int - '0' as int == d
  {
    ('0' as int + d) as char
  }

  /** `format!("{}", n)`: decimal digits, no sign, no leading zeros. */
  function Format(n: nat): (r: string)
    ensures |r| > 0 && AllDigits(r)
    ensures |r| > 1 ==> r[0] != '0'
    ensures n < 10 <==> |r| == 1
    decreases n
  {
    if n < 10 then [DigitChar(n)] else Format(n / 10) + [DigitChar(n % 10)]
  }

  /** The number that a string of decimal digits denotes. */
  function Value(s: string): nat
    requires AllDigits(s)
  {
    if s == [] then 0 else Value(s[..|s| - 1]) * 10 + (s[|s| - 1] as int - '0' as int)
  }

  /** Reading the formatted digits back gives the number. */
  lemma {:induction false} ValueFormat(n: nat)
    ensures Value(Format(n)) == n
    decreases n
  {
    if n >= 10 {
      var r := Format(n);
      assert r[..|r| - 1] == Format(n / 10);
      ValueFormat(n / 10);
    }
  }

  /**
   * `s.parse::<u8>()`: an optional single `+`, then at least one ASCII digit,
   * denoting at most 255. Leading zeros are accepted.
   */
  function ParseU8(s: string): (r: Option<byte>)
    ensures r.Some? ==> |s| > 0 && s != "+" && (s[0] == '+' || IsDigit(s[0])) && AllDigits(s[1..])
    ensures r.Some? && s[0] != '+' ==> Value(s) == r.value as int
    ensures r.Some? && s[0] == '+' ==> Value(s[1..]) == r.value as int
    ensures |s| > 0 && s[0] == '+' && |s| > 1 && AllDigits(s[1..]) && Value(s[1..]) < 256 ==> r.Some?
    ensures |s| > 0 && AllDigits(s) && Value(s) < 256 ==> r.Some?
  {
    var digits := if |s| > 0 && s[0] == '+' then s[1..] else s;
    if digits != [] && AllDigits(digits) && Value(digits) < 256 then Some(Value(digits) as byte) else None
  }

  /** Every `u8` survives formatting and parsing. */
  lemma ParseFormatU8(n: byte)
    ensures ParseU8(Format(n as nat)) == Some(n)
  {
    ValueFormat(n as nat);
  }

  /** Formatting is injective. */
  lemma FormatInjective(m: nat, n: nat)
    requires Format(m) == Format(n)
    ensures m == n
  {
    ValueFormat(m);
    ValueFormat(n);
  }

  /** Values above 255 are rejected. */
  lemma ParseU8RejectsOutOfRange()
    ensures ParseU8("256") == None
  {
    assert "256"[..2] == "25" && "25"[..1] == "2";
    assert Value("2") == 2;
    assert Value("25") == 25;
    assert Value("256") == 256;
  }

  /** A single leading `+` and leading zeros are accepted, as Rust's integer parser does. */
  lemma ParseU8AcceptsSignAndZeros()
    ensures ParseU8("+1") == Some(1)
    ensures ParseU8("00") == Some(0)
  {
    assert "+1"[1..] == "1";
    assert "1"[..0] == "";
    assert Value("1") == 1;
    assert "00"[..1] == "0";
    assert Value("00") == 0;
  }
}
