/**
 * Percent-encoding of manifest file paths (section 2.1.3 of RFC 8493):
 * CR, LF and `%` become `%0D`, `%0A` and `%25`; everything else is kept.
 *
 * The source loops over the UTF-8 bytes of the string. CR, LF and `%` are
 * ASCII, and no byte of a multi-byte UTF-8 sequence is ASCII, so a loop over
 * the characters makes the same replacements.
 */
module Encoding {
  import opened Common

  const CR_ENCODED: string := "%0D"
  const LF_ENCODED: string := "%0A"
  const PERCENT_ENCODED: string := "%25"

  /** A character that a manifest path cannot hold verbatim. */
  predicate IsSpecial(c: char) { c == '\r' || c == '\n' || c == '%' }

  predicate NoSpecial(s: string) { forall i | 0 <= i < |s| :: !IsSpecial(s[i]) }

  /** The replacement text of one character. */
  function Escape(c: char): (r: string)
    ensures IsSpecial(c) ==> |r| == 3 && r[0] == '%'
    ensures !IsSpecial(c) ==> r == [c]
  {
    if c == '\r' then CR_ENCODED
    else if c == '\n' then LF_ENCODED
    else if c == '%' then PERCENT_ENCODED
    else [c]
  }

  /** Reference definition: the escapes of the characters, in order. */
  function Encoded(s: string): string
  {
    if s == [] then [] else Escape(s[0]) + Encoded(s[1..])
  }

  /** Number of characters that get escaped. */
  function Specials(s: string): nat
  {
    if s == [] then 0 else (if IsSpecial(s[0]) then 1 else 0) + Specials(s[1..])
  }

  /** `percent_encode`: find the first special character, copy the text before it, then escape byte by byte. */
  method PercentEncode(value: string) returns (r: string)
    ensures r == Encoded(value)
  {
    var i := 0;
    while i < |value| && !IsSpecial(value[i])
      invariant 0 <= i <= |value|
      invariant NoSpecial(value[..i])
    {
      i := i + 1;
    }
    if i == |value| {
      assert value[..i] == value;
      EncodedIdentity(value);
      return value;
    }
    var encoded := value[..i];
    EncodedIdentity(value[..i]);
    var j := i;
    while j < |value|
      invariant i <= j <= |value|
      invariant encoded == Encoded(value[..j])
    {
      var c := value[j];
      if c == '\r' {
        encoded := encoded + CR_ENCODED;
      } else if c == '\n' {
        encoded := encoded + LF_ENCODED;
      } else if c == '%' {
        encoded := encoded + PERCENT_ENCODED;
      } else {
        encoded := encoded + [c];
      }
      assert value[..j + 1] == value[..j] + [c];
      EncodedAppend(value[..j], [c]);
      EncodedSingle(c);
      j := j + 1;
    }
    assert value[..j] == value;
    return encoded;
  }

  /** Encoding distributes over concatenation. */
  lemma {:induction false} EncodedAppend(a: string, b: string)
    ensures Encoded(a + b) == Encoded(a) + Encoded(b)
  {
    if a == [] {
      assert a + b == b;
    } else {
      assert (a + b)[0] == a[0];
      assert (a + b)[1..] == a[1..] + b;
      EncodedAppend(a[1..], b);
    }
  }

  /** A single character encodes to its escape. */
  lemma EncodedSingle(c: char)
    ensures Encoded([c]) == Escape(c)
  {
    assert [c][1..] == [];
  }

  /** Text without CR, LF or `%` is returned unchanged. */
  lemma {:induction false} EncodedIdentity(s: string)
    requires NoSpecial(s)
    ensures Encoded(s) == s
  {
    if s != [] {
      EncodedIdentity(s[1..]);
      assert [s[0]] + s[1..] == s;
    }
  }

  /** The text before the first special character is copied verbatim. */
  lemma VerbatimPrefix(s: string, i: nat)
    requires i <= |s| && NoSpecial(s[..i])
    ensures i <= |Encoded(s)| && Encoded(s)[..i] == s[..i]
  {
    assert s == s[..i] + s[i..];
    EncodedAppend(s[..i], s[i..]);
    EncodedIdentity(s[..i]);
  }

  /** The encoded text holds no CR and no LF. */
  lemma {:induction false} EncodedNoCrLf(s: string)
    ensures NoCrLf(Encoded(s))
  {
    if s != [] {
      EncodedNoCrLf(s[1..]);
      var e := Escape(s[0]);
      assert NoCrLf(e);
      var t := Encoded(s[1..]);
      assert Encoded(s) == e + t;
      forall k | 0 <= k < |e + t|
        ensures (e + t)[k] != '\r' && (e + t)[k] != '\n'
      {
        if k >= |e| { assert (e + t)[k] == t[k - |e|]; }
      }
    }
  }

  /** Each escaped character adds exactly two characters. */
  lemma {:induction false} EncodedLength(s: string)
    ensures |Encoded(s)| == |s| + 2 * Specials(s)
  {
    if s != [] {
      EncodedLength(s[1..]);
    }
  }

  /** Left-to-right substitution of `%0D`, `%0A` and `%25`; every other character is copied. */
  function PercentDecode(s: string): string
  {
    if s == [] then []
    else if |s| >= 3 && s[..3] == CR_ENCODED then "\r" + PercentDecode(s[3..])
    else if |s| >= 3 && s[..3] == LF_ENCODED then "\n" + PercentDecode(s[3..])
    else if |s| >= 3 && s[..3] == PERCENT_ENCODED then "%" + PercentDecode(s[3..])
    else [s[0]] + PercentDecode(s[1..])
  }

  /** Decoding undoes encoding. */
  lemma {:induction false} DecodeEncoded(s: string)
    ensures PercentDecode(Encoded(s)) == s
  {
    if s != [] {
      var c := s[0];
      var t := Encoded(s[1..]);
      var e := Encoded(s);
      assert e == Escape(c) + t;
      DecodeEncoded(s[1..]);
      if IsSpecial(c) {
        assert e[..3] == Escape(c);
        assert e[3..] == t;
      } else {
        assert e[0] == c && e[1..] == t;
      }
      assert [c] + s[1..] == s;
    }
  }

  /** Distinct paths have distinct encodings. */
  lemma EncodedInjective(a: string, b: string)
    requires Encoded(a) == Encoded(b)
    ensures a == b
  {
    DecodeEncoded(a);
    DecodeEncoded(b);
  }

  /** The encoding of a text that starts with `c`. */
  lemma EncodedCons(c: char, s: string)
    ensures Encoded([c] + s) == Escape(c) + Encoded(s)
  {
    assert ([c] + s)[1..] == s;
  }

  // The three pieces of the mixed example below, and how they join up.
  lemma MixedHead() ensures Encoded("a\tbc%123") == "a\tbc%25123" { }
  lemma MixedMiddle() ensures Encoded("\rqwe\n%%") == "%0Dqwe%0A%25%25"
  {
    EncodedCons('%', "");
    EncodedCons('%', "%");
    EncodedCons('\n', "%%");
    EncodedCons('e', "\n%%");
    EncodedCons('w', "e\n%%");
    EncodedCons('q', "we\n%%");
    EncodedCons('\r', "qwe\n%%");
  }

  lemma MixedTail() ensures Encoded("asd\r\n !") == "asd%0D%0A !"
  {
    EncodedCons('!', "");
    EncodedCons(' ', "!");
    EncodedCons('\n', " !");
    EncodedCons('\r', "\n !");
    EncodedCons('d', "\r\n !");
    EncodedCons('s', "d\r\n !");
    EncodedCons('a', "sd\r\n !");
  }
  lemma MixedInput() ensures "a\tbc%123" + "\rqwe\n%%" + "asd\r\n !" == "a\tbc%123\rqwe\n%%asd\r\n !" { }
  lemma MixedOutput()
    ensures "a\tbc%25123" + "%0Dqwe%0A%25%25" + "asd%0D%0A !" == "a\tbc%25123%0Dqwe%0A%25%25asd%0D%0A !"
  {
  }

  /** The mixed example: escapes are applied everywhere, tabs and spaces are kept. */
  lemma MixedExample()
    ensures Encoded("a\tbc%123\rqwe\n%%asd\r\n !") == "a\tbc%25123%0Dqwe%0A%25%25asd%0D%0A !"
  {
    MixedHead();
    MixedMiddle();
    MixedTail();
    MixedInput();
    MixedOutput();
    EncodedAppend("a\tbc%123", "\rqwe\n%%");
    EncodedAppend("a\tbc%123" + "\rqwe\n%%", "asd\r\n !");
  }

  /** Text without special characters is its own encoding. */
  lemma PlainExample()
    ensures Encoded("nothing to see here") == "nothing to see here"
  {
    EncodedIdentity("nothing to see here");
  }
}
