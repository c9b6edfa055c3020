/**
 * The reference line splitter that `LineReader` is proved against, and its
 * laws. A line ends at LF, at CRLF or at a CR not followed by LF; the
 * terminator is not part of the line.
 */
module LineSplit {
  import opened Common
  import opened Errors
  import Utf8

  /** `bytes_to_string`: UTF-8 decoding; invalid input is `InvalidString`. */
  function BytesToString(b: seq<byte>): (r: Result<string>)
    ensures r.Ok? <==> Utf8.Valid(b)
    ensures r.Err? ==> r.error == InvalidString
    ensures r.Ok? ==> (NoCrLfBytes(b) <==> NoCrLf(r.value))
  {
    match Utf8.Decode(b)
    case Some(s) => Utf8.DecodeNoCrLf(b); Ok(s)
    case None => Err(InvalidString)
  }

  /** A string that is UTF-8 encoded is read back unchanged. */
  lemma BytesToStringEncode(s: string)
    ensures BytesToString(Utf8.Encode(s)) == Ok(s)
  {
    Utf8.DecodeEncode(s);
  }

  function MapToString(lines: seq<seq<byte>>): (r: seq<Result<string>>)
    ensures |r| == |lines|
    ensures forall i | 0 <= i < |lines| :: r[i] == BytesToString(lines[i])
  {
    if lines == [] then [] else [BytesToString(lines[0])] + MapToString(lines[1..])
  }

  predicate IsTerminator(b: byte) { b == CR_B || b == LF_B }

  /** Index of the first CR or LF, or the length when there is none. */
  function LineEnd(s: seq<byte>): (i: nat)
    ensures i <= |s| && NoCrLfBytes(s[..i])
    ensures i < |s| ==> IsTerminator(s[i])
  {
    if s == [] then 0
    else if IsTerminator(s[0]) then 0
    else
      var j := LineEnd(s[1..]);
      assert s[..j + 1] == [s[0]] + s[1..][..j];
      j + 1
  }

  /**
   * The lines of `s`. A non-empty unterminated final segment is a line; the
   * empty segment after the last terminator is not. The reader also drops
   * the empty line that a lone CR at the very end of the input would close,
   * which is the `[CR_B]` case.
   */
  function Lines(s: seq<byte>): (r: seq<seq<byte>>)
    decreases |s|
  {
    if s == [] || s == [CR_B] then []
    else
      var i := LineEnd(s);
      if i == |s| then [s]
      else if s[i] == LF_B then [s[..i]] + Lines(s[i + 1..])
      else if i + 1 < |s| && s[i + 1] == LF_B then [s[..i]] + Lines(s[i + 2..])
      else [s[..i]] + Lines(s[i + 1..])
  }

  /** No line holds a CR or an LF. */
  lemma {:induction false} LinesHaveNoTerminators(s: seq<byte>)
    ensures forall k | 0 <= k < |Lines(s)| :: NoCrLfBytes(Lines(s)[k])
    decreases |s|
  {
    if s != [] && s != [CR_B] {
      var i := LineEnd(s);
      if i < |s| {
        var j := if s[i] == LF_B then i + 1 else if i + 1 < |s| && s[i + 1] == LF_B then i + 2 else i + 1;
        LinesHaveNoTerminators(s[j..]);
        assert Lines(s) == [s[..i]] + Lines(s[j..]);
      }
    }
  }

  lemma {:induction false} LineEndAt(x: seq<byte>, y: seq<byte>)
    requires NoCrLfBytes(x) && y != [] && IsTerminator(y[0])
    ensures LineEnd(x + y) == |x|
  {
    if x == [] {
      assert x + y == y;
    } else {
      assert (x + y)[0] == x[0];
      assert (x + y)[1..] == x[1..] + y;
      LineEndAt(x[1..], y);
    }
  }

  lemma LineEndNone(x: seq<byte>)
    requires NoCrLfBytes(x)
    ensures LineEnd(x) == |x|
  {
  }

  /** Text without a terminator is a single line, unless it is empty. */
  lemma LinesUnterminated(x: seq<byte>)
    requires NoCrLfBytes(x)
    ensures Lines(x) == if x == [] then [] else [x]
  {
    if x != [] {
      assert x != [CR_B] by { assert x[0] != CR_B; }
      LineEndNone(x);
    }
  }

  /** A final lone CR closes the line before it; it yields nothing when that line is empty. */
  lemma LinesFinalCr(x: seq<byte>)
    requires NoCrLfBytes(x)
    ensures Lines(x + [CR_B]) == if x == [] then [] else [x]
  {
    if x != [] {
      var s := x + [CR_B];
      assert s != [CR_B] by { assert |s| > 1; }
      LineEndAt(x, [CR_B]);
      assert s[..|x|] == x;
      assert s[|x| + 1..] == [];
    } else {
      assert x + [CR_B] == [CR_B];
    }
  }

  /** An LF ends the first line. */
  lemma LinesLf(x: seq<byte>, y: seq<byte>)
    requires NoCrLfBytes(x)
    ensures Lines(x + [LF_B] + y) == [x] + Lines(y)
  {
    var s := x + [LF_B] + y;
    assert s == x + ([LF_B] + y);
    LineEndAt(x, [LF_B] + y);
    assert s != [CR_B] by { assert s[|x|] == LF_B; }
    assert s[..|x|] == x && s[|x|] == LF_B && s[|x| + 1..] == y;
  }

  /** A CRLF ends the first line. */
  lemma LinesCrLf(x: seq<byte>, y: seq<byte>)
    requires NoCrLfBytes(x)
    ensures Lines(x + [CR_B, LF_B] + y) == [x] + Lines(y)
  {
    var s := x + [CR_B, LF_B] + y;
    assert s == x + ([CR_B, LF_B] + y);
    LineEndAt(x, [CR_B, LF_B] + y);
    assert s != [CR_B] by { assert |s| >= 2; }
    assert s[..|x|] == x && s[|x|] == CR_B && s[|x| + 1] == LF_B && s[|x| + 2..] == y;
  }

  /** A CR that is not followed by LF ends the first line on its own. */
  lemma LinesCr(x: seq<byte>, y: seq<byte>)
    requires NoCrLfBytes(x) && y != [] && y[0] != LF_B
    ensures Lines(x + [CR_B] + y) == [x] + Lines(y)
  {
    var s := x + [CR_B] + y;
    assert s == x + ([CR_B] + y);
    LineEndAt(x, [CR_B] + y);
    assert s != [CR_B] by { assert |s| >= 2; }
    assert s[..|x|] == x && s[|x|] == CR_B && s[|x| + 1] == y[0] && s[|x| + 1..] == y;
  }

  /** Lines that end in LF are exactly the lines of their concatenation. */
  function JoinLf(lines: seq<seq<byte>>): seq<byte>
  {
    if lines == [] then [] else lines[0] + [LF_B] + JoinLf(lines[1..])
  }

  lemma {:induction false} JoinLfSnoc(lines: seq<seq<byte>>, line: seq<byte>)
    ensures JoinLf(lines + [line]) == JoinLf(lines) + line + [LF_B]
  {
    if lines == [] {
      assert [line][1..] == [];
    } else {
      assert (lines + [line])[1..] == lines[1..] + [line];
      JoinLfSnoc(lines[1..], line);
    }
  }

  /** Writing lines with LF terminators and reading them back gives the lines. */
  lemma {:induction false} LinesJoinLf(lines: seq<seq<byte>>)
    requires forall k | 0 <= k < |lines| :: NoCrLfBytes(lines[k])
    ensures Lines(JoinLf(lines)) == lines
  {
    if lines != [] {
      LinesJoinLf(lines[1..]);
      LinesLf(lines[0], JoinLf(lines[1..]));
    }
  }

  /**
   * A CR at the very end of the input ends no line of its own, while an LF
   * there does: after a terminated line, a final CR yields nothing and a
   * final LF yields one empty line.
   */
  lemma FinalCrAfterLine(x: seq<byte>)
    requires NoCrLfBytes(x)
    ensures Lines(x + [LF_B] + [CR_B]) == [x]
    ensures Lines(x + [LF_B] + [LF_B]) == [x, []]
  {
    LinesLf(x, [CR_B]);
    LinesLf(x, [LF_B]);
    LinesLf([], []);
    assert [] + [LF_B] + [] == [LF_B];
  }

  // The two halves of the example below.
  lemma MixedEndingsHead(l1: seq<byte>, l2: seq<byte>, l3: seq<byte>, l4: seq<byte>, rest: seq<byte>)
    requires NoCrLfBytes(l1) && NoCrLfBytes(l2) && NoCrLfBytes(l3) && NoCrLfBytes(l4)
    requires l2 != [] && l3 != []
    ensures Lines(l1 + [CR_B] + (l2 + [CR_B] + ([] + [CR_B] + (l3 + [CR_B, LF_B] + (l4 + [LF_B] + rest)))))
            == [l1] + ([l2] + ([[]] + ([l3] + ([l4] + Lines(rest)))))
  {
    var s5 := l4 + [LF_B] + rest;
    var s4 := l3 + [CR_B, LF_B] + s5;
    var s3 := [] + [CR_B] + s4;
    var s2 := l2 + [CR_B] + s3;
    LinesLf(l4, rest);
    LinesCrLf(l3, s5);
    LinesCr([], s4);
    LinesCr(l2, s3);
    LinesCr(l1, s2);
  }

  lemma MixedEndingsTail(l5: seq<byte>, l6: seq<byte>, l7: seq<byte>, l8: seq<byte>)
    requires NoCrLfBytes(l5) && NoCrLfBytes(l6) && NoCrLfBytes(l7) && NoCrLfBytes(l8)
    requires l6 != [] && l8 != []
    ensures Lines(l5 + [CR_B] + (l6 + [CR_B, LF_B] + (l7 + [LF_B] + ([] + [CR_B] + l8))))
            == [l5] + ([l6] + ([l7] + ([[]] + [l8])))
  {
    var s9 := [] + [CR_B] + l8;
    var s8 := l7 + [LF_B] + s9;
    var s7 := l6 + [CR_B, LF_B] + s8;
    LinesUnterminated(l8);
    LinesCr([], l8);
    LinesLf(l7, s9);
    LinesCrLf(l6, s8);
    LinesCr(l5, s7);
  }

  lemma ConsTen<T>(a: T, b: T, c: T, d: T, e: T, f: T, g: T, h: T, i: T, j: T)
    ensures [a] + ([b] + ([c] + ([d] + ([e] + ([f] + ([g] + ([h] + ([i] + [j]))))))))
            == [a, b, c, d, e, f, g, h, i, j]
  {
  }

  /**
   * Every kind of terminator in one input, with an empty line after a CR
   * and one after an LF, and no terminator at the end.
   */
  lemma MixedEndings(l1: seq<byte>, l2: seq<byte>, l3: seq<byte>, l4: seq<byte>,
                     l5: seq<byte>, l6: seq<byte>, l7: seq<byte>, l8: seq<byte>)
    requires NoCrLfBytes(l1) && NoCrLfBytes(l2) && NoCrLfBytes(l3) && NoCrLfBytes(l4)
    requires NoCrLfBytes(l5) && NoCrLfBytes(l6) && NoCrLfBytes(l7) && NoCrLfBytes(l8)
    requires l2 != [] && l3 != [] && l6 != [] && l8 != []
    ensures Lines(l1 + [CR_B] + (l2 + [CR_B] + ([] + [CR_B] + (l3 + [CR_B, LF_B] + (l4 + [LF_B] +
                  (l5 + [CR_B] + (l6 + [CR_B, LF_B] + (l7 + [LF_B] + ([] + [CR_B] + l8)))))))))
            == [l1, l2, [], l3, l4, l5, l6, l7, [], l8]
  {
    MixedEndingsTail(l5, l6, l7, l8);
    MixedEndingsHead(l1, l2, l3, l4, l5 + [CR_B] + (l6 + [CR_B, LF_B] + (l7 + [LF_B] + ([] + [CR_B] + l8))));
    ConsTen(l1, l2, [], l3, l4, l5, l6, l7, [], l8);
  }

  /** An input that starts with an empty line and ends with a terminator. */
  lemma LeadingEmptyLine(l1: seq<byte>, l2: seq<byte>, l3: seq<byte>)
    requires NoCrLfBytes(l1) && NoCrLfBytes(l2) && NoCrLfBytes(l3) && l2 != []
    ensures Lines([] + [CR_B, LF_B] + (l1 + [CR_B] + (l2 + [CR_B, LF_B] + (l3 + [LF_B])))) == [[], l1, l2, l3]
  {
    var s3 := l3 + [LF_B];
    var s2 := l2 + [CR_B, LF_B] + s3;
    var s1 := l1 + [CR_B] + s2;
    LinesLf(l3, []);
    assert l3 + [LF_B] + [] == s3;
    LinesCrLf(l2, s3);
    LinesCr(l1, s2);
    LinesCrLf([], s1);
  }
}
