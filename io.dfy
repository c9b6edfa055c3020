/**
 * `LineReader` and `TagLineReader` (src/bagit/io.rs). The underlying reader
 * is the sequence of answers its `read` calls give: a chunk of bytes, or a
 * failure. End of input is the point where no answer is left (a `read` of 0).
 */
module Io {
  import opened Common
  import opened Errors
  import opened LineSplit
  import Consts

  /** One answer of `Read::read`: some bytes copied into the buffer, or an I/O error. */
  datatype ReadResult = Data(bytes: seq<byte>) | Failure(kind: IoErrorKind)

  /** The `Read` contract: a successful read returns between 1 and `BUF_SIZE` bytes. */
  predicate WellFormed(rs: seq<ReadResult>)
  {
    forall i | 0 <= i < |rs| :: rs[i].Data? ==> 0 < |rs[i].bytes| <= Consts.BUF_SIZE
  }

  /** The bytes still to be delivered, failures skipped. */
  function Flatten(rs: seq<ReadResult>): seq<byte>
  {
    if rs == [] then [] else (if rs[0].Data? then rs[0].bytes else []) + Flatten(rs[1..])
  }

  /** Total number of answers and bytes, the measure that each read consumes. */
  function Size(rs: seq<ReadResult>): nat
  {
    if rs == [] then 0 else 1 + (if rs[0].Data? then |rs[0].bytes| else 0) + Size(rs[1..])
  }

  predicate EndsWithCr(b: seq<byte>) { |b| > 0 && b[|b| - 1] == CR_B }

  predicate StartsWithLf(b: seq<byte>) { |b| > 0 && b[0] == LF_B }

  /**
   * No failure lies ahead, and every chunk (the unread part of the buffer
   * first) that ends in CR is followed by a chunk that starts with LF. Under
   * this condition the reader splits exactly like `Lines`.
   */
  predicate CleanFrom(head: seq<byte>, rs: seq<ReadResult>)
    decreases |rs|
  {
    if rs == [] then true
    else rs[0].Data? && (EndsWithCr(head) ==> StartsWithLf(rs[0].bytes)) && CleanFrom(rs[0].bytes, rs[1..])
  }

  /** The kinds of the failures still ahead, in order. */
  function FailureKinds(rs: seq<ReadResult>): seq<IoErrorKind>
  {
    if rs == [] then [] else (if rs[0].Failure? then [rs[0].kind] else []) + FailureKinds(rs[1..])
  }

  lemma CleanFromSuffix(head: seq<byte>, head': seq<byte>, rs: seq<ReadResult>)
    requires CleanFrom(head, rs)
    requires EndsWithCr(head') ==> EndsWithCr(head)
    ensures CleanFrom(head', rs)
  {
  }

  /** The item is the error of a failed read. */
  predicate Failed(r: Option<Result<string>>)
  {
    r.Some? && r.value.Err? && r.value.error.IoGeneral?
  }

  class LineReader {
    /** The answers the underlying reader has still to give. */
    var rest: seq<ReadResult>
    const buf: array<byte>
    var position: nat
    var read: nat
    var end: bool

    ghost predicate Valid()
      reads this, buf
    {
      buf.Length == Consts.BUF_SIZE && position <= read <= buf.Length && WellFormed(rest)
      && (end ==> rest == [] && position == read)
    }

    /** The bytes not yet consumed: the unread part of the buffer, then the rest of the input. */
    ghost function Pending(): seq<byte>
      reads this, buf
      requires Valid()
    {
      buf[position..read] + Flatten(rest)
    }

    ghost predicate Clean()
      reads this, buf
    {
      Valid() && CleanFrom(buf[position..read], rest)
    }

    /** The items the reader yields from here on, when the input is clean. */
    ghost function Items(): seq<Result<string>>
      reads this, buf
      requires Clean()
    {
      MapToString(Lines(Pending()))
    }

    ghost function Measure(): nat
      reads this, buf
      requires Valid()
    {
      (if end then 0 else 1) + Size(rest) + (read - position)
    }

    /** `LineReader::new`: an empty buffer, nothing read, not at the end. */
    constructor(input: seq<ReadResult>)
      requires WellFormed(input)
      ensures Valid() && fresh(buf)
      ensures rest == input && position == 0 && read == 0 && !end
      ensures Pending() == Flatten(input)
    {
      rest := input;
      buf := new byte[Consts.BUF_SIZE];
      position := 0;
      read := 0;
      end := false;
    }

    /** `self.reader.read(&mut self.buf)`: the next answer of the input; `0` once it is exhausted. */
    method ReadIntoBuf() returns (n: nat, failure: Option<IoErrorKind>)
      requires Valid()
      modifies this`rest, buf
      ensures Valid()
      ensures old(rest) == [] ==> n == 0 && failure.None? && rest == []
      ensures old(rest) != [] ==> rest == old(rest[1..])
      ensures old(rest) != [] && old(rest[0]).Failure? ==> failure == Some(old(rest[0]).kind)
      ensures old(rest) != [] && old(rest[0]).Data? ==>
                failure.None? && n == |old(rest[0]).bytes| && 0 < n <= buf.Length && buf[..n] == old(rest[0]).bytes
    {
      if rest == [] {
        return 0, None;
      }
      match rest[0]
      case Failure(k) =>
        rest := rest[1..];
        return 0, Some(k);
      case Data(b) =>
        forall k | 0 <= k < |b| {
          buf[k] := b[k];
        }
        assert buf[..|b|] == b;
        rest := rest[1..];
        return |b|, None;
    }

    /**
     * `LineReader::next`. After the end it keeps returning `None`. A yielded
     * line holds no CR or LF. On clean input, the item is the first of
     * `Items()` and the remaining items are the rest of them.
     */
    method Next() returns (r: Option<Result<string>>)
      requires Valid()
      modifies this, buf
      ensures Valid()
      ensures old(end) ==> r.None? && end
      ensures r.None? ==> end
      ensures r.Some? ==> Measure() < old(Measure())
      ensures Measure() <= old(Measure())
      ensures r.Some? && r.value.Ok? ==> NoCrLf(r.value.value)
      ensures r.Some? && r.value.Err? ==> r.value.error == InvalidString || r.value.error.IoGeneral?
      ensures Failed(r) ==> FailureKinds(old(rest)) == [r.value.error.kind] + FailureKinds(rest)
      ensures !Failed(r) ==> FailureKinds(rest) == FailureKinds(old(rest))
      ensures old(Clean()) ==> Clean()
      ensures old(Clean()) && r.None? ==> old(Items()) == []
      ensures old(Clean()) && r.Some? ==> old(Items()) == [r.value] + Items()
    {
      if end {
        return None;
      }
      ghost var p0 := Pending();
      ghost var m0 := Measure();
      ghost var clean0 := Clean();
      ghost var rest0 := rest;
      var line: seq<byte> := [];
      // The scan of the previous buffer ended on a CR whose LF may begin the next buffer.
      ghost var carried := false;
      while true
        invariant Scanning(p0, clean0, line, carried)
        invariant Measure() <= m0
        invariant FailureKinds(rest) == FailureKinds(rest0)
        decreases Measure()
      {
        var done;
        done := Fill(p0, clean0, line, carried);
        if done.Some? {
          if clean0 {
            assert old(Items()) == MapToString(Lines(p0));
          }
          return done.value;
        }
        var found;
        line, found, carried := ScanStep(p0, clean0, line, carried);
        if found.Some? {
          if clean0 {
            assert old(Items()) == MapToString(Lines(p0));
          }
          return found;
        }
      }
    }

    /**
     * The state at the top of the loop of `next`: the bytes `line` collected
     * so far, then a CR dropped at the end of the previous buffer when
     * `carried`, then the pending bytes, are the bytes `p0` that were pending
     * when `next` began.
     */
    ghost predicate Scanning(p0: seq<byte>, clean0: bool, line: seq<byte>, carried: bool)
      reads this, buf
    {
      Valid() && !end && NoCrLfBytes(line) && (carried ==> position == read)
      && (clean0 ==>
            Clean() && p0 == line + CrIf(carried) + Pending()
            && (carried && rest != [] ==> StartsWithLf(rest[0].bytes)))
    }

    /**
     * `r` is a correct answer of `next`: on clean input it is the first of
     * the items of `p0`, and the items after it are the ones still to come.
     */
    ghost predicate Answered(p0: seq<byte>, clean0: bool, r: Option<Result<string>>)
      reads this, buf
    {
      Valid()
      && (r.None? ==> end)
      && (r.Some? && r.value.Ok? ==> NoCrLf(r.value.value))
      && (r.Some? && r.value.Err? ==> r.value.error == InvalidString || r.value.error.IoGeneral?)
      && (clean0 ==> Clean() && MapToString(Lines(p0)) == if r.None? then [] else [r.value] + Items())
    }

    /** The state after the refill: the buffer holds bytes, the first of them the LF of a carried CR. */
    ghost predicate Ready(p0: seq<byte>, clean0: bool, line: seq<byte>, carried: bool)
      reads this, buf
    {
      Valid() && !end && position < read && NoCrLfBytes(line)
      && (clean0 ==> Clean() && p0 == line + CrIf(carried) + Pending())
      && (clean0 && carried ==> buf[position] == LF_B)
    }

    /**
     * The refill and end-of-input part of one turn of the loop of `next`.
     * `done` is the answer of `next` when the turn ends it there.
     */
    method Fill(ghost p0: seq<byte>, ghost clean0: bool, line: seq<byte>, ghost carried: bool)
      returns (done: Option<Option<Result<string>>>)
      requires Scanning(p0, clean0, line, carried)
      modifies this, buf
      ensures Valid() && Measure() <= old(Measure())
      ensures done.Some? ==> Measure() < old(Measure())
      ensures done.None? ==> Ready(p0, clean0, line, carried)
      ensures done.Some? ==> Answered(p0, clean0, done.value)
      ensures done.Some? && Failed(done.value) ==> FailureKinds(old(rest)) == [done.value.value.error.kind] + FailureKinds(rest)
      ensures !(done.Some? && Failed(done.value)) ==> FailureKinds(rest) == FailureKinds(old(rest))
    {
      if position >= read {
        var failure := Refill();
        if failure.Some? {
          return Some(Some(Err(IoGeneral(failure.value))));
        }
      }
      if end {
        if clean0 {
          assert Pending() == [];
          FinalItems(p0, line, carried);
        }
        if line == [] {
          return Some(None);
        }
        return Some(Some(BytesToString(line)));
      }
      if clean0 && carried {
        assert buf[position] == LF_B;
      }
      return None;
    }

    /**
     * The scan part of one turn of the loop of `next`. `found` is the answer
     * of `next` when a terminator ends the line in this buffer.
     */
    method ScanStep(ghost p0: seq<byte>, ghost clean0: bool, line: seq<byte>, ghost carried: bool)
      returns (line': seq<byte>, found: Option<Result<string>>, ghost carried': bool)
      requires Ready(p0, clean0, line, carried)
      modifies this`position, this`read
      ensures Valid() && !end && Measure() < old(Measure())
      ensures found.None? ==> Scanning(p0, clean0, line', carried')
      ensures found.Some? ==> Answered(p0, clean0, found) && (found.value.Err? ==> found.value.error == InvalidString)
    {
      ghost var pending := Pending();
      assert clean0 ==> p0 == line + CrIf(carried) + pending;
      ghost var carriedIn := clean0 && carried;
      var foundEnd;
      ghost var term;
      line', foundEnd, carried', term := Consume(line, carriedIn);
      if !foundEnd {
        return line', None, carried';
      }
      if clean0 {
        LinesAfterTerminator(line', carriedIn, term, Pending());
        MapToStringCons(line', Lines(Pending()));
      }
      return line', Some(BytesToString(line')), carried';
    }

    /**
     * The refill at the top of the loop of `next`: read into the buffer; at
     * the end of the input set `end`, otherwise restart the buffer.
     */
    method Refill() returns (failure: Option<IoErrorKind>)
      requires Valid() && !end && position == read
      modifies this, buf
      ensures Valid()
      ensures old(rest) != [] ==> rest == old(rest[1..])
      ensures failure.Some? ==> old(rest) != [] && old(rest[0]) == Failure(failure.value) && !end && position == read
      ensures failure.Some? ==> FailureKinds(old(rest)) == [failure.value] + FailureKinds(rest)
      ensures failure.None? ==> FailureKinds(rest) == FailureKinds(old(rest))
      ensures failure.Some? || end ==> Measure() < old(Measure())
      ensures failure.None? ==> Pending() == old(Pending()) && (end <==> old(rest) == [])
      ensures failure.None? && !end ==> position == 0 < read && buf[position..read] == old(rest[0]).bytes
                                        && Measure() == old(Measure()) - 1
      ensures failure.None? && old(Clean()) ==> Clean()
    {
      ghost var rest0 := rest;
      var n;
      n, failure := ReadIntoBuf();
      assert rest0 != [] ==> Size(rest0) > Size(rest);

      if failure.Some? {
        return;
      }
      if n == 0 {
        end := true;
      } else {
        read := n;
        position := 0;
        assert old(Pending()) == old(rest[0]).bytes + Flatten(rest);
        assert buf[position..read] == buf[..n];
      }
    }

    /**
     * One pass of the scan over the buffer. When no terminator is found the
     * buffer is emptied (`position` and `read` back to 0) and `seenCr` tells
     * whether a CR was dropped at its end. `carried` says that the previous
     * pass dropped such a CR and the buffer starts with its LF.
     */
    method Consume(line: seq<byte>, ghost carried: bool)
      returns (line': seq<byte>, foundEnd: bool, ghost seenCr: bool, ghost term: seq<byte>)
      requires Valid() && !end && position < read
      requires NoCrLfBytes(line)
      requires carried ==> buf[position] == LF_B
      modifies this`position, this`read
      ensures Valid() && !end
      ensures NoCrLfBytes(line')
      ensures Measure() < old(Measure())
      ensures !foundEnd ==> position == read && !carried
      ensures !foundEnd && old(Clean()) ==>
                Clean() && line + CrIf(carried) + old(Pending()) == line' + CrIf(seenCr) + Pending()
                && (seenCr && rest != [] ==> StartsWithLf(rest[0].bytes))
      ensures foundEnd ==> (carried ==> term == [LF_B])
      ensures foundEnd && old(Clean()) ==>
                Clean() && Terminates(term, Pending())
                && line + CrIf(carried) + old(Pending()) == line' + CrIf(carried) + term + Pending()
    {
      var start := position;
      ghost var head := buf[start..read];
      ghost var tail := Flatten(rest);
      ghost var clean := Clean();
      line', seenCr, foundEnd, term := ScanLine(line);
      ghost var delta := line'[|line|..];
      assert line' == line + delta by {
        assert line'[..|line|] == line;
      }
      if !foundEnd {
        position, read := 0, 0;
        if clean {
          assert buf[0..0] == [];
          ShiftNotFound(line, delta, seenCr, head, tail);
          assert CrIf(carried) == [];
          NotFoundClean(head, rest, delta, seenCr);
        }
        return;
      }
      if clean {
        ghost var tailHead := buf[position..read];
        SliceSplit(buf, start, position, read);
        assert carried ==> delta == [];
        ShiftFound(line, carried, delta, term, head, tailHead, tail);
        CleanFromSuffix(head, tailHead, rest);
      }
    }

    /**
     * The scan of `for i in self.position..self.read`: bytes other than CR and
     * LF are appended to the line; the scan stops after an LF, after a CRLF,
     * or before the byte that follows a lone CR. `term` is the terminator.
     */
    method ScanLine(line: seq<byte>) returns (line': seq<byte>, seenCr: bool, foundEnd: bool, ghost term: seq<byte>)
      requires Valid() && position < read
      requires NoCrLfBytes(line)
      modifies this`position
      ensures Valid()
      ensures NoCrLfBytes(line') && |line| <= |line'| && line'[..|line|] == line
      ensures !foundEnd ==> position == old(position) && buf[old(position)..read] == line'[|line|..] + CrIf(seenCr)
      ensures foundEnd ==> old(position) < position <= read && buf[old(position)..position] == line'[|line|..] + term
      ensures foundEnd ==> term == [LF_B] || term == [CR_B, LF_B] || (term == [CR_B] && position < read && buf[position] != LF_B)
      ensures buf[old(position)] == LF_B ==> foundEnd && term == [LF_B] && line' == line
    {
      var start := position;
      line' := line;
      seenCr := false;
      foundEnd := false;
      term := [];
      var i := position;
      while i < read
        invariant start <= i <= read && position == start
        invariant NoCrLfBytes(line') && |line| <= |line'| && line'[..|line|] == line
        invariant buf[start..i] == line'[|line|..] + CrIf(seenCr)
        invariant i > start ==> buf[start] != LF_B
      {
        var b := buf[i];
        if seenCr && b != LF_B {
          foundEnd := true;
          position := i;
          term := [CR_B];
          return;
        } else if b == CR_B {
          seenCr := true;
        } else if b == LF_B {
          foundEnd := true;
          position := i + 1;
          term := if seenCr then [CR_B, LF_B] else [LF_B];
          assert buf[start..i + 1] == buf[start..i] + [b];
          return;
        } else {
          line' := line' + [b];
          NoCrLfAppend(line'[..|line'| - 1], b);
        }
        assert buf[start..i + 1] == buf[start..i] + [b];
        i := i + 1;
      }
    }
  }

  /** The CR that a scan may have dropped at the end of a buffer. */
  function CrIf(dropped: bool): seq<byte>
  {
    if dropped then [CR_B] else []
  }

  lemma ShiftNotFound(line: seq<byte>, delta: seq<byte>, seenCr: bool, head: seq<byte>, tail: seq<byte>)
    requires head == delta + CrIf(seenCr)
    ensures line + (head + tail) == (line + delta) + CrIf(seenCr) + ([] + tail)
  {
  }

  lemma ShiftFound(line: seq<byte>, carried: bool, delta: seq<byte>, term: seq<byte>,
                   head: seq<byte>, tailHead: seq<byte>, tail: seq<byte>)
    requires head == delta + term + tailHead
    requires carried ==> delta == []
    ensures line + CrIf(carried) + (head + tail) == (line + delta) + CrIf(carried) + term + (tailHead + tail)
  {
    if carried {
      assert line + delta == line;
    }
  }

  /** The items of the bytes left at the end of the input. */
  lemma FinalItems(p0: seq<byte>, line: seq<byte>, carried: bool)
    requires NoCrLfBytes(line)
    requires p0 == line + CrIf(carried) + []
    ensures MapToString(Lines(p0)) == if line == [] then [] else [BytesToString(line)]
  {
    if carried {
      assert p0 == line + [CR_B];
      LinesFinalCr(line);
    } else {
      assert p0 == line;
      LinesUnterminated(line);
    }
  }

  lemma SliceSplit(a: array<byte>, i: nat, j: nat, k: nat)
    requires i <= j <= k <= a.Length
    ensures a[i..k] == a[i..j] + a[j..k]
  {
  }

  lemma MapToStringCons(line: seq<byte>, lines: seq<seq<byte>>)
    ensures MapToString([line] + lines) == [BytesToString(line)] + MapToString(lines)
  {
    assert ([line] + lines)[1..] == lines;
  }

  /** A chunk scanned to its end without a terminator leaves a clean input behind it. */
  lemma NotFoundClean(head: seq<byte>, rs: seq<ReadResult>, delta: seq<byte>, seenCr: bool)
    requires CleanFrom(head, rs)
    requires head == delta + CrIf(seenCr)
    ensures CleanFrom([], rs)
    ensures seenCr && rs != [] ==> StartsWithLf(rs[0].bytes)
  {
  }

  lemma NoCrLfAppend(x: seq<byte>, b: byte)
    requires NoCrLfBytes(x) && b != CR_B && b != LF_B
    ensures NoCrLfBytes(x + [b])
  {
  }

  /** `term` ends a line when `tail` follows it: an LF, a CRLF, or a CR that is not followed by LF. */
  predicate Terminates(term: seq<byte>, tail: seq<byte>)
  {
    term == [LF_B] || term == [CR_B, LF_B] || (term == [CR_B] && tail != [] && tail[0] != LF_B)
  }

  /** The first line of `line`, an optional carried CR, a terminator and `tail` is `line`. */
  lemma LinesAfterTerminator(line: seq<byte>, carried: bool, term: seq<byte>, tail: seq<byte>)
    requires NoCrLfBytes(line)
    requires carried ==> term == [LF_B]
    requires Terminates(term, tail)
    ensures Lines(line + CrIf(carried) + term + tail) == [line] + Lines(tail)
  {
    if carried {
      assert line + [CR_B] + term + tail == line + [CR_B, LF_B] + tail;
      LinesCrLf(line, tail);
    } else if term == [LF_B] {
      assert line + [] + term + tail == line + [LF_B] + tail;
      LinesLf(line, tail);
    } else if term == [CR_B, LF_B] {
      assert line + [] + term + tail == line + [CR_B, LF_B] + tail;
      LinesCrLf(line, tail);
    } else {
      assert line + [] + term + tail == line + [CR_B] + tail;
      LinesCr(line, tail);
    }
  }

  /** `is_space_or_tab`. */
  predicate IsSpaceOrTab(c: char) { c == Consts.SPACE || c == Consts.TAB }

  /** `starts_with(is_space_or_tab)`: the line continues the previous tag line. */
  predicate IsContinuation(l: string) { |l| > 0 && IsSpaceOrTab(l[0]) }

  /** `trim_start_matches(is_space_or_tab)`: the longest suffix that does not start with a space or a tab. */
  function TrimStart(s: string): (r: string)
    ensures |r| <= |s| && r == s[|s| - |r|..]
    ensures forall k | 0 <= k < |s| - |r| :: IsSpaceOrTab(s[k])
    ensures !IsContinuation(r)
  {
    if s != [] && IsSpaceOrTab(s[0]) then TrimStart(s[1..]) else s
  }

  /**
   * Reference definition of the items a `TagLineReader` yields, given the
   * line it holds back and the items of its `LineReader`. A continuation line
   * is appended to the held line after one space with its leading blanks
   * removed; any other line releases the held line and is held itself. An
   * error is passed on at once and the held line is lost with it.
   */
  function Fold(current: Option<string>, items: seq<Result<string>>): seq<Result<string>>
    decreases |items|
  {
    if items == [] then (if current.Some? then [Ok(current.value)] else [])
    else match items[0]
      case Err(e) => [Err(e)] + Fold(None, items[1..])
      case Ok(l) =>
        if current.Some? && IsContinuation(l) then Fold(Some(current.value + [Consts.SPACE] + TrimStart(l)), items[1..])
        else if current.Some? then [Ok(current.value)] + Fold(Some(l), items[1..])
        else Fold(Some(l), items[1..])
  }

  lemma FoldErr(current: Option<string>, e: Error, items: seq<Result<string>>)
    ensures Fold(current, [Err(e)] + items) == [Err(e)] + Fold(None, items)
  {
    assert ([Err(e)] + items)[1..] == items;
  }

  lemma FoldOk(current: Option<string>, l: string, items: seq<Result<string>>)
    ensures Fold(current, [Ok(l)] + items) ==
            if current.Some? && IsContinuation(l) then Fold(Some(current.value + [Consts.SPACE] + TrimStart(l)), items)
            else if current.Some? then [Ok(current.value)] + Fold(Some(l), items)
            else Fold(Some(l), items)
  {
    assert ([Ok(l)] + items)[1..] == items;
  }

  lemma TrimStartNoCrLf(s: string)
    requires NoCrLf(s)
    ensures NoCrLf(TrimStart(s))
  {
  }

  /** Joining two lines without terminators by a space gives a line without terminators. */
  lemma JoinNoCrLf(a: string, b: string)
    requires NoCrLf(a) && NoCrLf(b)
    ensures NoCrLf(a + [Consts.SPACE] + b)
  {
    var j := a + [Consts.SPACE] + b;
    forall k | 0 <= k < |j|
      ensures j[k] != '\r' && j[k] != '\n'
    {
      if k < |a| { assert j[k] == a[k]; }
      else if k > |a| { assert j[k] == b[k - |a| - 1]; }
    }
  }

  /** The held line as a list of items. */
  function Held(current: Option<string>): seq<Result<string>>
  {
    if current.Some? then [Ok(current.value)] else []
  }

  /** No line is followed by a continuation line or by an error. */
  predicate Unjoined(items: seq<Result<string>>)
  {
    forall k | 0 < k < |items| :: items[k - 1].Ok? ==> items[k].Ok? && !IsContinuation(items[k].value)
  }

  lemma UnjoinedCons(x: Result<string>, items: seq<Result<string>>)
    ensures Unjoined([x] + items) <==>
            (items != [] && x.Ok? ==> items[0].Ok? && !IsContinuation(items[0].value)) && Unjoined(items)
  {
    var xs := [x] + items;
    assert forall k | 0 < k < |xs| :: xs[k] == items[k - 1];
    if Unjoined(xs) {
      if items != [] {
        assert xs[0] == x && xs[1] == items[0];
      }
      forall k | 0 < k < |items| && items[k - 1].Ok?
        ensures items[k].Ok? && !IsContinuation(items[k].value)
      {
        assert xs[k] == items[k - 1] && xs[k + 1] == items[k];
      }
    }
    if (items != [] && x.Ok? ==> items[0].Ok? && !IsContinuation(items[0].value)) && Unjoined(items) {
      forall k | 0 < k < |xs| && xs[k - 1].Ok?
        ensures xs[k].Ok? && !IsContinuation(xs[k].value)
      {
        if k > 1 {
          assert xs[k - 1] == items[k - 2] && xs[k] == items[k - 1];
        } else {
          assert xs[0] == x && xs[1] == items[0];
        }
      }
      assert Unjoined(xs);
    }
  }

  /** Folding never yields more items than it is given, counting the held line. */
  lemma {:induction false} FoldLength(current: Option<string>, items: seq<Result<string>>)
    ensures |Fold(current, items)| <= |Held(current)| + |items|
    decreases |items|
  {
    if items != [] {
      match items[0]
      case Err(e) => FoldLength(None, items[1..]);
      case Ok(l) =>
        if current.Some? && IsContinuation(l) {
          FoldLength(Some(current.value + [Consts.SPACE] + TrimStart(l)), items[1..]);
        } else {
          FoldLength(Some(l), items[1..]);
        }
    }
  }

  /** How many lines start a tag, given whether a line is held: each one that does not continue a held line. */
  function TagStarts(held: bool, items: seq<Result<string>>): nat
    requires forall k | 0 <= k < |items| :: items[k].Ok?
    decreases |items|
  {
    if items == [] then 0
    else (if held && IsContinuation(items[0].value) then 0 else 1) + TagStarts(true, items[1..])
  }

  /**
   * Without read errors the tag reader yields one line per tag: the held
   * line, if any, then one for every line that does not continue a held line.
   */
  lemma {:induction false} FoldCountsTags(current: Option<string>, items: seq<Result<string>>)
    requires forall k | 0 <= k < |items| :: items[k].Ok?
    ensures |Fold(current, items)| == |Held(current)| + TagStarts(current.Some?, items)
    ensures forall k | 0 <= k < |Fold(current, items)| :: Fold(current, items)[k].Ok?
    decreases |items|
  {
    if items != [] {
      var l := items[0].value;
      assert items == [Ok(l)] + items[1..];
      FoldOk(current, l, items[1..]);
      if current.Some? && IsContinuation(l) {
        FoldCountsTags(Some(current.value + [Consts.SPACE] + TrimStart(l)), items[1..]);
      } else {
        FoldCountsTags(Some(l), items[1..]);
      }
    }
  }

  /**
   * The tag reader passes the lines through unchanged exactly when no line
   * is followed by a continuation line, nor by an error that would discard it.
   */
  lemma {:induction false} FoldIdentity(current: Option<string>, items: seq<Result<string>>)
    ensures Fold(current, items) == Held(current) + items <==> Unjoined(Held(current) + items)
    decreases |items|
  {
    var h := Held(current);
    if items == [] {
      assert h + items == h;
    } else {
      var rest := items[1..];
      assert items == [items[0]] + rest;
      UnjoinedCons(items[0], rest);
      if current.Some? {
        assert h + items == [Ok(current.value)] + items;
        UnjoinedCons(Ok(current.value), items);
      } else {
        assert h + items == items;
      }
      match items[0]
      case Err(e) =>
        FoldIdentity(None, rest);
        assert Held(None) + rest == rest;
        if current.Some? {
          assert (h + items)[0] == Ok(current.value);
        }
      case Ok(l) =>
        if current.Some? && IsContinuation(l) {
          var j := Some(current.value + [Consts.SPACE] + TrimStart(l));
          FoldLength(j, rest);
          assert |Fold(current, items)| < |h + items|;
        } else if current.Some? {
          FoldIdentity(Some(l), rest);
          assert Held(Some(l)) + rest == items;
          var f := Fold(Some(l), rest);
          assert Fold(current, items) == [Ok(current.value)] + f;
          assert [Ok(current.value)] + f == [Ok(current.value)] + items ==> f == items by {
            if [Ok(current.value)] + f == [Ok(current.value)] + items {
              assert f == ([Ok(current.value)] + f)[1..];
            }
          }
        } else {
          FoldIdentity(Some(l), rest);
          assert Held(Some(l)) + rest == items;
        }
    }
  }

  /** The errors among some items, in order. */
  function ErrorsOf(items: seq<Result<string>>): seq<Error>
  {
    if items == [] then [] else (if items[0].Err? then [items[0].error] else []) + ErrorsOf(items[1..])
  }

  lemma {:induction false} ErrorsOfAppend(a: seq<Result<string>>, b: seq<Result<string>>)
    ensures ErrorsOf(a + b) == ErrorsOf(a) + ErrorsOf(b)
  {
    if a == [] {
      assert a + b == b;
    } else {
      assert (a + b)[0] == a[0] && (a + b)[1..] == a[1..] + b;
      ErrorsOfAppend(a[1..], b);
    }
  }

  /** Every error of the line reader is passed on, in order, and no other. */
  lemma {:induction false} FoldErrors(current: Option<string>, items: seq<Result<string>>)
    ensures ErrorsOf(Fold(current, items)) == ErrorsOf(items)
    decreases |items|
  {
    if items != [] {
      var rest := items[1..];
      match items[0]
      case Err(e) =>
        FoldErrors(None, rest);
        ErrorsOfAppend([Err(e)], Fold(None, rest));
      case Ok(l) =>
        if current.Some? && IsContinuation(l) {
          FoldErrors(Some(current.value + [Consts.SPACE] + TrimStart(l)), rest);
        } else if current.Some? {
          FoldErrors(Some(l), rest);
          ErrorsOfAppend([Ok(current.value)], Fold(Some(l), rest));
        } else {
          FoldErrors(Some(l), rest);
        }
    }
  }

  /** Lines without terminators fold into tag lines without terminators. */
  lemma {:induction false} FoldNoCrLf(current: Option<string>, items: seq<Result<string>>)
    requires current.Some? ==> NoCrLf(current.value)
    requires forall k | 0 <= k < |items| && items[k].Ok? :: NoCrLf(items[k].value)
    ensures forall k | 0 <= k < |Fold(current, items)| && Fold(current, items)[k].Ok? :: NoCrLf(Fold(current, items)[k].value)
    decreases |items|
  {
    if items != [] {
      var rest := items[1..];
      assert forall k | 0 <= k < |rest| :: rest[k] == items[k + 1];
      match items[0]
      case Err(e) =>
        FoldNoCrLf(None, rest);
      case Ok(l) =>
        if current.Some? && IsContinuation(l) {
          TrimStartNoCrLf(l);
          JoinNoCrLf(current.value, TrimStart(l));
          FoldNoCrLf(Some(current.value + [Consts.SPACE] + TrimStart(l)), rest);
        } else {
          FoldNoCrLf(Some(l), rest);
        }
    }
  }

  lemma FoldJoin(c: string, l: string, items: seq<Result<string>>, joined: string)
    requires IsContinuation(l) && joined == c + [Consts.SPACE] + TrimStart(l)
    ensures Fold(Some(c), [Ok(l)] + items) == Fold(Some(joined), items)
  {
    FoldOk(Some(c), l, items);
  }

  lemma FoldStart(l: string, items: seq<Result<string>>)
    ensures Fold(None, [Ok(l)] + items) == Fold(Some(l), items)
  {
    FoldOk(None, l, items);
  }

  lemma FoldRelease(c: string, l: string, items: seq<Result<string>>)
    requires !IsContinuation(l)
    ensures Fold(Some(c), [Ok(l)] + items) == [Ok(c)] + Fold(Some(l), items)
  {
    FoldOk(Some(c), l, items);
  }

  /** Trimming removes exactly the leading blanks. */
  lemma {:induction false} TrimStartAt(s: string, n: nat)
    requires n <= |s| && (forall k | 0 <= k < n :: IsSpaceOrTab(s[k])) && (n < |s| ==> !IsSpaceOrTab(s[n]))
    ensures TrimStart(s) == s[n..]
  {
    if n > 0 {
      TrimStartAt(s[1..], n - 1);
      assert s[1..][n - 1..] == s[n..];
    }
  }

  // The joins of the multi-line tag example below, one line at a time.
  lemma JoinTag2a() ensures "tag-2: 1" + [Consts.SPACE] + TrimStart(" 2") == "tag-2: 1 2"
  {
    TrimStartAt(" 2", 1);
    assert " 2"[1..] == "2";
  }

  lemma JoinTag2b() ensures "tag-2: 1 2" + [Consts.SPACE] + TrimStart("\t3") == "tag-2: 1 2 3"
  {
    TrimStartAt("\t3", 1);
    assert "\t3"[1..] == "3";
  }

  lemma JoinTag3a() ensures "tag-3:\t4" + [Consts.SPACE] + TrimStart("   5") == "tag-3:\t4 5"
  {
    TrimStartAt("   5", 3);
    assert "   5"[3..] == "5";
  }

  lemma JoinTag3b() ensures "tag-3:\t4 5" + [Consts.SPACE] + TrimStart("  ") == "tag-3:\t4 5 "
  {
    TrimStartAt("  ", 2);
    assert "  "[2..] == "";
  }

  lemma JoinTag3c() ensures "tag-3:\t4 5 " + [Consts.SPACE] + TrimStart(" \t 6") == "tag-3:\t4 5  6"
  {
    TrimStartAt(" \t 6", 3);
    assert " \t 6"[3..] == "6";
  }

  /** After a held line `prev`, a tag line with two continuation lines is yielded as one. */
  lemma FoldTwoContinuations(prev: string, t: string, ca: string, cb: string, ja: string, jb: string,
                             rest: seq<Result<string>>, after: seq<Result<string>>)
    requires !IsContinuation(t) && IsContinuation(ca) && IsContinuation(cb)
    requires ja == t + [Consts.SPACE] + TrimStart(ca) && jb == ja + [Consts.SPACE] + TrimStart(cb)
    requires Fold(Some(jb), rest) == [Ok(jb)] + after
    ensures Fold(Some(prev), [Ok(t)] + ([Ok(ca)] + ([Ok(cb)] + rest))) == [Ok(prev)] + ([Ok(jb)] + after)
  {
    FoldJoin(ja, cb, rest, jb);
    FoldJoin(t, ca, [Ok(cb)] + rest, ja);
    FoldRelease(prev, t, [Ok(ca)] + ([Ok(cb)] + rest));
  }

  /** After a held line `prev`, a tag line with three continuation lines is yielded as one. */
  lemma FoldThreeContinuations(prev: string, t: string, ca: string, cb: string, cc: string,
                               ja: string, jb: string, jc: string,
                               rest: seq<Result<string>>, after: seq<Result<string>>)
    requires !IsContinuation(t) && IsContinuation(ca) && IsContinuation(cb) && IsContinuation(cc)
    requires ja == t + [Consts.SPACE] + TrimStart(ca) && jb == ja + [Consts.SPACE] + TrimStart(cb)
    requires jc == jb + [Consts.SPACE] + TrimStart(cc)
    requires Fold(Some(jc), rest) == [Ok(jc)] + after
    ensures Fold(Some(prev), [Ok(t)] + ([Ok(ca)] + ([Ok(cb)] + ([Ok(cc)] + rest)))) == [Ok(prev)] + ([Ok(jc)] + after)
  {
    FoldJoin(jb, cc, rest, jc);
    FoldJoin(ja, cb, [Ok(cc)] + rest, jb);
    FoldJoin(t, ca, [Ok(cb)] + ([Ok(cc)] + rest), ja);
    FoldRelease(prev, t, [Ok(ca)] + ([Ok(cb)] + ([Ok(cc)] + rest)));
  }

  /** A held line followed by one plain line: both are yielded. */
  lemma FoldLastLine(prev: string, t: string)
    requires !IsContinuation(t)
    ensures Fold(Some(prev), [Ok(t)]) == [Ok(prev)] + [Ok(t)]
  {
    var e: seq<Result<string>> := [];
    assert Fold(Some(t), e) == [Ok(t)];
    assert [Ok(t)] + e == [Ok(t)];
    FoldRelease(prev, t, e);
  }

  lemma ConsFour<T>(a: T, b: T, c: T, d: T)
    ensures [a] + ([b] + ([c] + [d])) == [a, b, c, d]
  {
  }

  lemma ConsNine<T>(a: T, b: T, c: T, d: T, e: T, f: T, g: T, h: T, i: T)
    ensures [a] + ([b] + ([c] + ([d] + ([e] + ([f] + ([g] + ([h] + [i]))))))) == [a, b, c, d, e, f, g, h, i]
  {
  }

  /** Which lines of the example below are continuation lines. */
  lemma ExampleLineKinds()
    ensures !IsContinuation("tag-2: 1") && !IsContinuation("tag-3:\t4") && !IsContinuation("tag-4: end")
    ensures IsContinuation(" 2") && IsContinuation("\t3")
    ensures IsContinuation("   5") && IsContinuation("  ") && IsContinuation(" \t 6")
  {
  }

  /**
   * The multi-line tag example: continuation lines, including a blank one,
   * are joined to the line before them with one space.
   */
  lemma MultiLineTagsExample()
    ensures Fold(None, [Ok("tag-1: normal tag"), Ok("tag-2: 1"), Ok(" 2"), Ok("\t3"), Ok("tag-3:\t4"),
                        Ok("   5"), Ok("  "), Ok(" \t 6"), Ok("tag-4: end")])
            == [Ok("tag-1: normal tag"), Ok("tag-2: 1 2 3"), Ok("tag-3:\t4 5  6"), Ok("tag-4: end")]
  {
    ExampleLineKinds();
    JoinTag2a();
    JoinTag2b();
    JoinTag3a();
    JoinTag3b();
    JoinTag3c();
    var t4: seq<Result<string>> := [Ok("tag-4: end")];
    var t3 := [Ok("tag-3:\t4")] + ([Ok("   5")] + ([Ok("  ")] + ([Ok(" \t 6")] + t4)));
    var t1 := [Ok("tag-2: 1")] + ([Ok(" 2")] + ([Ok("\t3")] + t3));
    FoldLastLine("tag-3:\t4 5  6", "tag-4: end");
    FoldThreeContinuations("tag-2: 1 2 3", "tag-3:\t4", "   5", "  ", " \t 6",
                           "tag-3:\t4 5", "tag-3:\t4 5 ", "tag-3:\t4 5  6", t4, t4);
    FoldTwoContinuations("tag-1: normal tag", "tag-2: 1", " 2", "\t3", "tag-2: 1 2", "tag-2: 1 2 3",
                         t3, [Ok("tag-3:\t4 5  6")] + t4);
    FoldStart("tag-1: normal tag", t1);
    ConsNine(Ok("tag-1: normal tag"), Ok("tag-2: 1"), Ok(" 2"), Ok("\t3"), Ok("tag-3:\t4"),
             Ok("   5"), Ok("  "), Ok(" \t 6"), Ok("tag-4: end"));
    ConsFour(Ok("tag-1: normal tag"), Ok("tag-2: 1 2 3"), Ok("tag-3:\t4 5  6"), Ok("tag-4: end"));
  }

  class TagLineReader {
    const reader: LineReader
    /** A line read ahead that starts the next tag. */
    var next: Option<string>

    ghost predicate Valid()
      reads this, reader, reader.buf
    {
      reader.Valid() && (next.Some? ==> NoCrLf(next.value))
    }

    /** The items the reader yields from here on, when the input is clean. */
    ghost function Items(): seq<Result<string>>
      reads this, reader, reader.buf
      requires Valid() && reader.Clean()
    {
      Fold(next, reader.Items())
    }

    /** `TagLineReader::new`: a fresh `LineReader` and no line held back. */
    constructor(input: seq<ReadResult>)
      requires WellFormed(input)
      ensures Valid() && fresh(reader) && fresh(reader.buf)
      ensures reader.rest == input && !reader.end && reader.Pending() == Flatten(input)
      ensures next == None
    {
      reader := new LineReader(input);
      next := None;
    }

    /**
     * `TagLineReader::next`. A yielded tag line holds no CR or LF. On clean
     * input, the item is the first of `Items()` and the remaining items are
     * the rest of them.
     */
    method Next() returns (r: Option<Result<string>>)
      requires Valid()
      modifies this, reader, reader.buf
      ensures Valid()
      ensures r.Some? && r.value.Ok? ==> NoCrLf(r.value.value)
      ensures r.Some? && r.value.Err? ==> r.value.error == InvalidString || r.value.error.IoGeneral?
      ensures Failed(r) ==> FailureKinds(old(reader.rest)) == [r.value.error.kind] + FailureKinds(reader.rest)
      ensures !Failed(r) ==> FailureKinds(reader.rest) == FailureKinds(old(reader.rest))
      ensures old(reader.Clean()) ==> reader.Clean()
      ensures old(reader.Clean()) && r.None? ==> old(Items()) == []
      ensures old(reader.Clean()) && r.Some? ==> old(Items()) == [r.value] + Items()
    {
      ghost var clean0 := reader.Clean();
      ghost var items0 := if clean0 then Items() else [];
      ghost var rest0 := reader.rest;
      var current := next;
      next := None;
      while true
        invariant reader.Valid() && next == None
        invariant current.Some? ==> NoCrLf(current.value)
        invariant FailureKinds(reader.rest) == FailureKinds(rest0)
        invariant clean0 ==> reader.Clean() && items0 == Fold(current, reader.Items())
        decreases reader.Measure()
      {
        var done;
        current, done := Pull(clean0, if clean0 then reader.Items() else [], current);
        if done.Some? {
          return done.value;
        }
      }
    }

    /**
     * The outcome of one turn of the loop of `next`, starting from the held
     * line `current` and the items `before` of the line reader: either the
     * loop goes on with `current'`, or `done` holds the answer of `next`.
     */
    ghost predicate Pulled(clean0: bool, before: seq<Result<string>>, current: Option<string>,
                           current': Option<string>, done: Option<Option<Result<string>>>)
      reads this, reader, reader.buf
    {
      Valid() && (current'.Some? ==> NoCrLf(current'.value))
      && (done.None? ==> next == None)
      && (done.Some? && done.value.Some? && done.value.value.Ok? ==> NoCrLf(done.value.value.value))
      && (done.Some? && done.value.Some? && done.value.value.Err? ==>
            done.value.value.error == InvalidString || done.value.value.error.IoGeneral?)
      && (clean0 ==>
            reader.Clean()
            && Fold(current, before) == (if done.None? then Fold(current', reader.Items())
                                         else if done.value.None? then []
                                         else [done.value.value] + Fold(next, reader.Items())))
    }

    /**
     * One turn of the loop of `next`: read one line and fold it into the
     * held line `current`. `done` is the answer of `next` once there is one;
     * `next` is then the line held back for the following call.
     */
    method Pull(ghost clean0: bool, ghost before: seq<Result<string>>, current: Option<string>)
      returns (current': Option<string>, done: Option<Option<Result<string>>>)
      requires reader.Valid() && next == None
      requires current.Some? ==> NoCrLf(current.value)
      requires clean0 ==> reader.Clean() && before == reader.Items()
      modifies this, reader, reader.buf
      ensures Pulled(clean0, before, current, current', done)
      ensures done.None? ==> reader.Measure() < old(reader.Measure())
      ensures done.Some? && Failed(done.value) ==> FailureKinds(old(reader.rest)) == [done.value.value.error.kind] + FailureKinds(reader.rest)
      ensures !(done.Some? && Failed(done.value)) ==> FailureKinds(reader.rest) == FailureKinds(old(reader.rest))
    {
      var item := reader.Next();
      if clean0 && item.None? {
        assert reader.Pending() == [];
      }
      current', done := Absorb(clean0, before, current, item);
    }

    /** The `match` on the answer `item` of the line reader, in the loop of `next`. */
    method Absorb(ghost clean0: bool, ghost before: seq<Result<string>>, current: Option<string>, item: Option<Result<string>>)
      returns (current': Option<string>, done: Option<Option<Result<string>>>)
      requires reader.Valid() && next == None
      requires current.Some? ==> NoCrLf(current.value)
      requires item.Some? && item.value.Ok? ==> NoCrLf(item.value.value)
      requires item.Some? && item.value.Err? ==> item.value.error == InvalidString || item.value.error.IoGeneral?
      requires clean0 ==> reader.Clean() && before == if item.None? then [] else [item.value] + reader.Items()
      requires clean0 && item.None? ==> reader.Items() == []
      modifies this`next
      ensures Pulled(clean0, before, current, current', done)
      ensures done.None? ==> item.Some? && item.value.Ok?
      ensures Failed(item) ==> done == Some(item)
      ensures done.Some? && Failed(done.value) ==> Failed(item)
    {
      current' := current;
      match item {
        case None =>
          if current.Some? {
            return None, Some(Some(Ok(current.value)));
          }
          return None, Some(None);
        case Some(Err(e)) =>
          if clean0 {
            FoldErr(current, e, reader.Items());
          }
          return None, Some(Some(Err(e)));
        case Some(Ok(read)) =>
          if clean0 {
            FoldOk(current, read, reader.Items());
          }
          if current.Some? && IsContinuation(read) {
            TrimStartNoCrLf(read);
            JoinNoCrLf(current.value, TrimStart(read));
            current' := Some(current.value + [Consts.SPACE] + TrimStart(read));
          } else if current.Some? {
            next := Some(read);
            return None, Some(Some(Ok(current.value)));
          } else {
            current' := Some(read);
          }
          done := None;
      }
    }
  }
}
