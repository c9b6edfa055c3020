/**
 * UTF-8 as Rust's `String::from_utf8` accepts it: the well-formed byte
 * sequences of the Unicode standard (no overlong forms, no surrogates, nothing
 * above U+10FFFF). Text in the model is a Dafny `string`, whose characters are
 * Unicode scalar values; `Decode` is the check `from_utf8` makes and `Encode`
 * is the byte form of a Rust `String`.
 */
module Utf8 {
  import opened Common

  predicate IsCont(b: byte) { 0x80 <= b <= 0xBF }

  /** Length of the well-formed character at the start of `b`, or 0 if there is none. */
  function LeadLen(b: seq<byte>): (n: nat)
    ensures n <= 4 && n <= |b|
    ensures n == 1 <==> |b| > 0 && b[0] < 0x80
    ensures n > 1 ==> b[0] >= 0xC2 && forall k | 1 <= k < n :: IsCont(b[k])
  {
    if |b| == 0 then 0
    else if b[0] < 0x80 then 1
    else if |b| >= 2 && 0xC2 <= b[0] <= 0xDF && IsCont(b[1]) then 2
    else if |b| >= 3 && b[0] == 0xE0 && 0xA0 <= b[1] <= 0xBF && IsCont(b[2]) then 3
    else if |b| >= 3 && (0xE1 <= b[0] <= 0xEC || 0xEE <= b[0] <= 0xEF) && IsCont(b[1]) && IsCont(b[2]) then 3
    else if |b| >= 3 && b[0] == 0xED && 0x80 <= b[1] <= 0x9F && IsCont(b[2]) then 3
    else if |b| >= 4 && b[0] == 0xF0 && 0x90 <= b[1] <= 0xBF && IsCont(b[2]) && IsCont(b[3]) then 4
    else if |b| >= 4 && 0xF1 <= b[0] <= 0xF3 && IsCont(b[1]) && IsCont(b[2]) && IsCont(b[3]) then 4
    else if |b| >= 4 && b[0] == 0xF4 && 0x80 <= b[1] <= 0x8F && IsCont(b[2]) && IsCont(b[3]) then 4
    else 0
  }

  /** The scalar value of the well-formed character at the start of `b`. */
  function CharAt(b: seq<byte>): (c: char)
    requires LeadLen(b) > 0
    ensures (c as int < 0x80) <==> LeadLen(b) == 1
    ensures LeadLen(b) == 1 ==> c as int == b[0] as int
  {
    var n := LeadLen(b);
    if n == 1 then b[0] as int as char
    else if n == 2 then ((b[0] as int - 0xC0) * 64 + (b[1] as int - 0x80)) as char
    else if n == 3 then ((b[0] as int - 0xE0) * 4096 + (b[1] as int - 0x80) * 64 + (b[2] as int - 0x80)) as char
    else ((b[0] as int - 0xF0) * 262144 + (b[1] as int - 0x80) * 4096 + (b[2] as int - 0x80) * 64 + (b[3] as int - 0x80)) as char
  }

  /** `Some(text)` if `b` is well-formed UTF-8, `None` otherwise. */
  function Decode(b: seq<byte>): (r: Option<string>)
    ensures r.Some? && b == [] ==> r.value == []
    ensures r.Some? && b != [] ==> LeadLen(b) > 0 && |r.value| > 0 && r.value[0] == CharAt(b)
    decreases |b|
  {
    if b == [] then Some([])
    else
      var n := LeadLen(b);
      if n == 0 then None
      else
        match Decode(b[n..])
        case None => None
        case Some(rest) => Some([CharAt(b)] + rest)
  }

  predicate Valid(b: seq<byte>) { Decode(b).Some? }

  /** The UTF-8 form of one scalar value. */
  function EncodeChar(c: char): (r: seq<byte>)
    ensures 1 <= |r| <= 4
    ensures c as int < 0x80 ==> r == [c as int as byte]
    ensures c as int >= 0x80 ==> forall k | 0 <= k < |r| :: r[k] >= 0x80
  {
    var cp := c as int;
    if cp < 0x80 then [cp as byte]
    else if cp < 0x800 then [(0xC0 + cp / 64) as byte, (0x80 + cp % 64) as byte]
    else if cp < 0x10000 then
      [(0xE0 + cp / 4096) as byte, (0x80 + (cp / 64) % 64) as byte, (0x80 + cp % 64) as byte]
    else
      [(0xF0 + cp / 262144) as byte, (0x80 + (cp / 4096) % 64) as byte,
       (0x80 + (cp / 64) % 64) as byte, (0x80 + cp % 64) as byte]
  }

  function Encode(s: string): (r: seq<byte>)
    ensures |r| >= |s|
    ensures s == [] <==> r == []
  {
    if s == [] then [] else EncodeChar(s[0]) + Encode(s[1..])
  }

  lemma {:induction false} EncodeAppend(a: string, b: string)
    ensures Encode(a + b) == Encode(a) + Encode(b)
  {
    if a != [] {
      assert (a + b)[0] == a[0];
      assert (a + b)[1..] == a[1..] + b;
      EncodeAppend(a[1..], b);
      assert Encode(a + b) == EncodeChar(a[0]) + Encode(a[1..] + b);
      assert Encode(a) == EncodeChar(a[0]) + Encode(a[1..]);
      assert EncodeChar(a[0]) + (Encode(a[1..]) + Encode(b)) == (EncodeChar(a[0]) + Encode(a[1..])) + Encode(b);
    } else {
      assert a + b == b;
    }
  }

  lemma ReadBack2(c: char, rest: seq<byte>)
    requires 0x80 <= c as int < 0x800
    ensures LeadLen(EncodeChar(c) + rest) == 2
    ensures CharAt(EncodeChar(c) + rest) == c
  {
    var cp := c as int;
    var q, r := cp / 64, cp % 64;
    assert cp == q * 64 + r && 2 <= q < 32 && 0 <= r < 64;
    var b := EncodeChar(c) + rest;
    assert b[0] as int == 0xC0 + q && b[1] as int == 0x80 + r;
    assert LeadLen(b) == 2;
  }

  lemma ReadBack3(c: char, rest: seq<byte>)
    requires 0x800 <= c as int < 0x10000
    ensures LeadLen(EncodeChar(c) + rest) == 3
    ensures CharAt(EncodeChar(c) + rest) == c
  {
    var cp := c as int;
    var q1, r1 := cp / 64, cp % 64;
    var q2, r2 := q1 / 64, q1 % 64;
    assert cp == q1 * 64 + r1 && 0 <= r1 < 64;
    assert q1 == q2 * 64 + r2 && 0 <= r2 < 64;
    assert cp / 4096 == q2;
    assert q2 < 16;
    assert cp < 0xD800 || cp >= 0xE000;
    assert q2 == 0 ==> r2 >= 32;
    assert q2 == 13 ==> r2 < 32;
    var b := EncodeChar(c) + rest;
    assert b[0] as int == 0xE0 + q2 && b[1] as int == 0x80 + r2 && b[2] as int == 0x80 + r1;
    assert LeadLen(b) == 3;
  }

  lemma ReadBack4(c: char, rest: seq<byte>)
    requires 0x10000 <= c as int
    ensures LeadLen(EncodeChar(c) + rest) == 4
    ensures CharAt(EncodeChar(c) + rest) == c
  {
    var cp := c as int;
    assert cp < 0x110000;
    var q1, r1 := cp / 64, cp % 64;
    var q2, r2 := q1 / 64, q1 % 64;
    var q3, r3 := q2 / 64, q2 % 64;
    assert cp == q1 * 64 + r1 && 0 <= r1 < 64;
    assert q1 == q2 * 64 + r2 && 0 <= r2 < 64;
    assert q2 == q3 * 64 + r3 && 0 <= r3 < 64;
    assert cp / 4096 == q2;
    assert cp / 262144 == q3;
    assert 0 <= q3 <= 4;
    assert q3 == 0 ==> r3 >= 16;
    assert q3 == 4 ==> r3 < 16;
    var b := EncodeChar(c) + rest;
    assert b[0] as int == 0xF0 + q3 && b[1] as int == 0x80 + r3;
    assert b[2] as int == 0x80 + r2 && b[3] as int == 0x80 + r1;
    assert LeadLen(b) == 4;
  }

  /** The encoded character is read back, whatever follows it. */
  lemma EncodeCharReadsBack(c: char, rest: seq<byte>)
    ensures LeadLen(EncodeChar(c) + rest) == |EncodeChar(c)|
    ensures CharAt(EncodeChar(c) + rest) == c
  {
    var cp := c as int;
    if cp < 0x80 {
    } else if cp < 0x800 {
      ReadBack2(c, rest);
    } else if cp < 0x10000 {
      ReadBack3(c, rest);
    } else {
      ReadBack4(c, rest);
    }
  }

  /** Decoding inverts encoding: every `String` is valid UTF-8. */
  lemma {:induction false} DecodeEncode(s: string)
    ensures Decode(Encode(s)) == Some(s)
  {
    if s != [] {
      var e := EncodeChar(s[0]);
      EncodeCharReadsBack(s[0], Encode(s[1..]));
      assert (e + Encode(s[1..]))[|e|..] == Encode(s[1..]);
      DecodeEncode(s[1..]);
      assert [s[0]] + s[1..] == s;
    }
  }

  /** A decoded text has a CR or LF exactly where the bytes had one. */
  lemma {:induction false} DecodeNoCrLf(b: seq<byte>)
    requires Decode(b).Some?
    ensures NoCrLfBytes(b) <==> NoCrLf(Decode(b).value)
    decreases |b|
  {
    if b != [] {
      var n := LeadLen(b);
      var t := b[n..];
      DecodeNoCrLf(t);
      var s := Decode(b).value;
      var s' := Decode(t).value;
      assert s == [CharAt(b)] + s';
      var head := CharAt(b) != '\r' && CharAt(b) != '\n';
      assert head <==> (forall i | 0 <= i < n :: b[i] != CR_B && b[i] != LF_B);
      assert b == b[..n] + t;
      NoCrLfBytesSplit(b[..n], t);
      NoCrLfCons(CharAt(b), s');
    }
  }

  lemma NoCrLfBytesSplit(x: seq<byte>, y: seq<byte>)
    ensures NoCrLfBytes(x + y) <==> NoCrLfBytes(x) && NoCrLfBytes(y)
  {
    if NoCrLfBytes(x) && NoCrLfBytes(y) {
      forall i | 0 <= i < |x + y| ensures (x + y)[i] != CR_B && (x + y)[i] != LF_B {
        if i >= |x| { assert (x + y)[i] == y[i - |x|]; }
      }
    }
    if NoCrLfBytes(x + y) {
      forall i | 0 <= i < |y| ensures y[i] != CR_B && y[i] != LF_B {
        assert (x + y)[|x| + i] == y[i];
      }
      forall i | 0 <= i < |x| ensures x[i] != CR_B && x[i] != LF_B {
        assert (x + y)[i] == x[i];
      }
    }
  }

  lemma NoCrLfCons(c: char, s: string)
    ensures NoCrLf([c] + s) <==> c != '\r' && c != '\n' && NoCrLf(s)
  {
    if NoCrLf([c] + s) {
      assert ([c] + s)[0] == c;
      forall i | 0 <= i < |s| ensures s[i] != '\r' && s[i] != '\n' {
        assert ([c] + s)[i + 1] == s[i];
      }
    }
  }

  /** Encoding a text without CR or LF yields no CR or LF byte. */
  lemma {:induction false} EncodeNoCrLf(s: string)
    requires NoCrLf(s)
    ensures NoCrLfBytes(Encode(s))
  {
    DecodeEncode(s);
    DecodeNoCrLf(Encode(s));
  }

  /** The first decoded character is an ASCII character `c` iff the first byte is `c`. */
  lemma DecodeFirstAscii(b: seq<byte>, c: char)
    requires Decode(b).Some? && b != []
    requires c as int < 0x80
    ensures Decode(b).value[0] == c <==> b[0] as int == c as int
  {
  }

  /** A valid byte sequence decodes to the one-character ASCII text `[c]` iff it is `[c]`. */
  lemma DecodeSingleAscii(b: seq<byte>, c: char)
    requires Decode(b).Some?
    requires c as int < 0x80
    ensures Decode(b).value == [c] <==> b == [c as int as byte]
  {
    if b != [] {
      var n := LeadLen(b);
      if Decode(b).value == [c] {
        assert CharAt(b) == c;
        assert n == 1;
        assert Decode(b).value == [CharAt(b)] + Decode(b[1..]).value;
        assert Decode(b[1..]).value == [];
        assert b == [b[0]] + b[1..];
      }
    }
  }

  /** The two-character ASCII text `[c, c]` is decoded exactly from the bytes `[c, c]`. */
  lemma DecodeDoubleAscii(b: seq<byte>, c: char)
    requires Decode(b).Some?
    requires c as int < 0x80
    ensures Decode(b).value == [c, c] <==> b == [c as int as byte, c as int as byte]
  {
    if Decode(b).value == [c, c] {
      assert b != [];
      assert CharAt(b) == c && LeadLen(b) == 1;
      var rest := Decode(b[1..]).value;
      assert [c, c] == [CharAt(b)] + rest;
      assert |rest| == 1 && rest[0] == ([c, c])[1];
      assert rest == [c];
      DecodeSingleAscii(b[1..], c);
      assert b == [b[0]] + b[1..];
    }
    if b == [c as int as byte, c as int as byte] {
      assert LeadLen(b) == 1;
      assert b[1..] == [c as int as byte];
      DecodeSingleAscii(b[1..], c);
    }
  }
}
