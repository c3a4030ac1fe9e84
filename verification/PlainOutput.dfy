/**
  Line output of a plain pipe: sanitized text cut into logical lines and, where a line is long, into
  segments of at most 64 KiB, with carriage-return progress in between.
*/
module PlainOutput {
  import opened Wrappers
  import opened Utf8
  import opened Sanitizer

  const MAXIMUM_LINE_BYTES: nat := 64 * 1024
  const PROGRESS_INTERVAL: nat := 1_000_000_000

  const NEWLINE: seq<byte> := [0x0A]
  const RETURN: seq<byte> := [0x0D]

  // ---------------------------------------------------------------- characters

  /** The characters of well-formed text. */
  function Characters(s: seq<byte>): seq<seq<byte>>
    requires Valid(s)
    decreases |s|
  {
    if s == [] then [] else [s[..ScalarLength(s)]] + Characters(s[ScalarLength(s)..])
  }

  /** The first character of `a` is the first character of whatever `a` begins. */
  lemma {:induction false} FirstCharacter(a: seq<byte>, b: seq<byte>) returns (n: nat)
    requires a != [] && Valid(a) && Valid(a + b)
    ensures 0 < n <= |a| && Valid(a[n..]) && Valid(a[n..] + b)
    ensures Characters(a) == [a[..n]] + Characters(a[n..])
    ensures Characters(a + b) == [a[..n]] + Characters(a[n..] + b)
  {
    n := ScalarLength(a);
    ScalarLengthOfPrefix(a, b);
    assert (a + b)[..n] == a[..n];
  }

  lemma {:induction false} CharactersOfConcat(a: seq<byte>, b: seq<byte>)
    requires Valid(a) && Valid(b)
    ensures Valid(a + b) && Characters(a + b) == Characters(a) + Characters(b)
    decreases |a|
  {
    ValidConcat(a, b);
    if a == [] {
      assert a + b == b;
      EmptyInFront(Characters(b));
    } else {
      var n := FirstCharacter(a, b);
      CharactersOfConcat(a[n..], b);
      Associate([a[..n]], Characters(a[n..]), Characters(b));
    }
  }

  lemma Associate<T>(a: seq<T>, b: seq<T>, c: seq<T>)
    ensures a + (b + c) == (a + b) + c
  {
  }

  lemma EmptyInFront<T>(a: seq<T>)
    ensures [] + a == a
  {
  }

  /** One whole character, as the sanitizer emits them. */
  ghost predicate IsCharacter(c: seq<byte>) {
    ScalarLength(c) == |c| > 0
  }

  lemma {:induction false} CharactersAreCharacters(s: seq<byte>)
    requires Valid(s)
    ensures forall i :: 0 <= i < |Characters(s)| ==> IsCharacter(Characters(s)[i])
    decreases |s|
  {
    if s != [] {
      ScalarLengthOfPrefix(s, []);
      CharactersAreCharacters(s[ScalarLength(s)..]);
    }
  }

  /** A character that is shown: a tab, or anything but a control and delete. */
  predicate IsShown(c: seq<byte>) {
    |c| > 0 && (c[0] == 0x09 || (c[0] >= 0x20 && c[0] != 0x7F))
  }

  // ---------------------------------------------------------------- lines without carriage returns

  /** A logical line under construction, whether part of it was written, and everything written. */
  datatype LineState = LineState(line: seq<byte>, split: bool, written: seq<seq<byte>>)

  function WriteSegment(s: LineState): LineState {
    LineState([], true, s.written + [s.line])
  }

  function Append(s: LineState, c: seq<byte>): LineState {
    var room := if s.line != [] && |s.line| + |c| > MAXIMUM_LINE_BYTES then WriteSegment(s) else s;
    var longer := room.(line := room.line + c);
    if |longer.line| < MAXIMUM_LINE_BYTES then longer else WriteSegment(longer)
  }

  function EndLine(s: LineState): LineState {
    if s.line == [] && s.split then s.(split := false)
    else LineState([], false, s.written + [s.line])
  }

  function Put(s: LineState, c: seq<byte>): LineState {
    if c == NEWLINE then EndLine(s) else if IsShown(c) then Append(s, c) else s
  }

  function PutAll(s: LineState, cs: seq<seq<byte>>): LineState
    decreases |cs|
  {
    if cs == [] then s else PutAll(Put(s, cs[0]), cs[1..])
  }

  function EndStream(s: LineState): LineState {
    if s.line != [] then EndLine(s) else s.(split := false)
  }

  lemma {:induction false} PutAllInPieces(s: LineState, a: seq<seq<byte>>, b: seq<seq<byte>>)
    ensures PutAll(s, a + b) == PutAll(PutAll(s, a), b)
    decreases |a|
  {
    if a == [] {
      assert a + b == b;
    } else {
      assert (a + b)[1..] == a[1..] + b;
      PutAllInPieces(Put(s, a[0]), a[1..], b);
    }
  }

  // ---------------------------------------------------------------- what the written lines mean

  function Concat(parts: seq<seq<byte>>): seq<byte>
    decreases |parts|
  {
    if parts == [] then [] else parts[0] + Concat(parts[1..])
  }

  /** Pieces of one line, cut only where the next character would not fit. */
  ghost predicate Segments(parts: seq<seq<byte>>) {
    && (forall i :: 0 <= i < |parts| ==> 0 < |parts[i]| <= MAXIMUM_LINE_BYTES)
    && (forall i :: 0 <= i < |parts| - 1 ==> |parts[i]| + 4 > MAXIMUM_LINE_BYTES)
  }

  /** `parts` is how a finished line is written: an empty line as one empty payload, others in segments. */
  ghost predicate RendersLine(parts: seq<seq<byte>>, text: seq<byte>) {
    if text == [] then parts == [[]] else Segments(parts) && Concat(parts) == text
  }

  /** The shown characters of each logical line: those ended by a newline, then the rest. */
  datatype Lines = Lines(finished: seq<seq<byte>>, last: seq<byte>)

  function LinesOf(cs: seq<seq<byte>>): Lines
    decreases |cs|
  {
    if cs == [] then Lines([], [])
    else
      var before := LinesOf(cs[..|cs| - 1]);
      var c := cs[|cs| - 1];
      if c == NEWLINE then Lines(before.finished + [before.last], [])
      else if IsShown(c) then before.(last := before.last + c)
      else before
  }

  /** `written` is the lines one after the other, each in its own payloads. */
  ghost predicate Renders(written: seq<seq<byte>>, groups: seq<seq<seq<byte>>>, lines: seq<seq<byte>>) {
    && |groups| == |lines|
    && (forall i :: 0 <= i < |groups| ==> RendersLine(groups[i], lines[i]))
    && written == Join(groups)
  }

  function Join(groups: seq<seq<seq<byte>>>): seq<seq<byte>>
    decreases |groups|
  {
    if groups == [] then [] else Join(groups[..|groups| - 1]) + groups[|groups| - 1]
  }

  lemma {:induction false} ConcatAppend(parts: seq<seq<byte>>, last: seq<byte>)
    ensures Concat(parts + [last]) == Concat(parts) + last
    decreases |parts|
  {
    if parts == [] {
      assert parts + [last] == [last];
      assert [last][1..] == [];
    } else {
      assert (parts + [last])[1..] == parts[1..] + [last];
      ConcatAppend(parts[1..], last);
    }
  }

  /** The state after a line's beginning: some segments written, the rest in the buffer. */
  ghost predicate Mid(s: LineState, groups: seq<seq<seq<byte>>>, open: seq<seq<byte>>, lines: Lines) {
    && Renders(Join(groups), groups, lines.finished)
    && s.written == Join(groups) + open
    && Concat(open) + s.line == lines.last
    && (s.split <==> open != [])
    && Full(open)
    && |s.line| < MAXIMUM_LINE_BYTES
  }

  lemma {:induction false} SegmentKeepsMid(s: LineState, groups: seq<seq<seq<byte>>>, open: seq<seq<byte>>, lines: Lines)
    requires Mid(s.(line := []), groups, open, lines.(last := Concat(open)))
    requires Concat(open) + s.line == lines.last
    requires 0 < |s.line| <= MAXIMUM_LINE_BYTES && |s.line| + 4 > MAXIMUM_LINE_BYTES
    ensures Mid(WriteSegment(s), groups, open + [s.line], lines)
  {
    ConcatAppend(open, s.line);
    var next := WriteSegment(s);
    assert next.written == Join(groups) + (open + [s.line]);
    assert Concat(open + [s.line]) + next.line == lines.last;
  }

  lemma AppendKeepsMid(s: LineState, groups: seq<seq<seq<byte>>>, open: seq<seq<byte>>, lines: Lines, c: seq<byte>)
    returns (next: seq<seq<byte>>)
    requires Mid(s, groups, open, lines) && 0 < |c| <= 4
    ensures Mid(Append(s, c), groups, next, lines.(last := lines.last + c))
  {
    next := open;
    var room := s;
    if s.line != [] && |s.line| + |c| > MAXIMUM_LINE_BYTES {
      EmptyLineMid(s, groups, open, lines);
      SegmentKeepsMid(s, groups, open, lines);
      room := WriteSegment(s);
      next := open + [s.line];
    }
    next := LongerKeepsMid(room, groups, next, lines, c);
  }

  /** A character is added where there is room; a line it fills is written. */
  lemma LongerKeepsMid(room: LineState, groups: seq<seq<seq<byte>>>, open: seq<seq<byte>>, lines: Lines, c: seq<byte>)
    returns (next: seq<seq<byte>>)
    requires Mid(room, groups, open, lines) && 0 < |c| <= 4 && (room.line == [] || |room.line| + |c| <= MAXIMUM_LINE_BYTES)
    ensures var longer := room.(line := room.line + c);
            Mid(if |longer.line| < MAXIMUM_LINE_BYTES then longer else WriteSegment(longer), groups, next,
                lines.(last := lines.last + c))
  {
    next := open;
    var longer := room.(line := room.line + c);
    var after := lines.(last := lines.last + c);
    Associate(Concat(open), room.line, c);
    if |longer.line| >= MAXIMUM_LINE_BYTES {
      EmptyLineMid(room, groups, open, lines);
      SegmentKeepsMid(longer, groups, open, after);
      next := open + [longer.line];
    }
  }

  lemma {:induction false} EmptyLineMid(s: LineState, groups: seq<seq<seq<byte>>>, open: seq<seq<byte>>, lines: Lines)
    requires Mid(s, groups, open, lines)
    ensures Mid(s.(line := []), groups, open, lines.(last := Concat(open)))
  {
    assert Concat(open) + [] == Concat(open);
  }

  /** A finished line joins the rendered ones. */
  lemma EndLineKeepsMid(s: LineState, groups: seq<seq<seq<byte>>>, open: seq<seq<byte>>, lines: Lines)
    returns (group: seq<seq<byte>>)
    requires Mid(s, groups, open, lines)
    ensures Mid(EndLine(s), groups + [group], [], Lines(lines.finished + [lines.last], []))
  {
    group := if s.line == [] && s.split then open else open + [s.line];
    if s.line == [] && s.split {
      OpenRenders(open, lines.last);
    } else {
      ClosedRenders(open, s.line, lines.last);
    }
    AddGroup(groups, group, lines.finished, lines.last);
    assert EndLine(s).written == Join(groups + [group]) + [];
  }

  lemma {:induction false} AddGroup(groups: seq<seq<seq<byte>>>, group: seq<seq<byte>>, finished: seq<seq<byte>>,
                                    last: seq<byte>)
    requires Renders(Join(groups), groups, finished) && RendersLine(group, last)
    ensures Renders(Join(groups + [group]), groups + [group], finished + [last])
    ensures Join(groups + [group]) == Join(groups) + group
  {
    assert (groups + [group])[..|groups|] == groups;
  }

  /** Full segments. */
  ghost predicate Full(open: seq<seq<byte>>) {
    forall i :: 0 <= i < |open| ==> 0 < |open[i]| <= MAXIMUM_LINE_BYTES && |open[i]| + 4 > MAXIMUM_LINE_BYTES
  }

  lemma {:induction false} OpenRenders(open: seq<seq<byte>>, last: seq<byte>)
    requires open != [] && Full(open) && Concat(open) + [] == last
    ensures RendersLine(open, last)
  {
    NonemptyConcat(open);
  }

  lemma {:induction false} ClosedRenders(open: seq<seq<byte>>, line: seq<byte>, last: seq<byte>)
    requires Full(open) && |line| < MAXIMUM_LINE_BYTES && Concat(open) + line == last
    requires line == [] ==> open == []
    ensures RendersLine(open + [line], last)
  {
    ConcatAppend(open, line);
  }

  lemma {:induction false} NonemptyConcat(parts: seq<seq<byte>>)
    requires parts != [] && |parts[0]| > 0
    ensures Concat(parts) != []
  {
  }

  lemma {:induction false} PutAllIsMid(cs: seq<seq<byte>>) returns (groups: seq<seq<seq<byte>>>, open: seq<seq<byte>>)
    requires forall i :: 0 <= i < |cs| ==> IsCharacter(cs[i])
    ensures Mid(PutAll(LineState([], false, []), cs), groups, open, LinesOf(cs))
    decreases |cs|
  {
    var start := LineState([], false, []);
    if cs == [] {
      groups, open := [], [];
    } else {
      var before, c := cs[..|cs| - 1], cs[|cs| - 1];
      groups, open := PutAllIsMid(before);
      PutAllInPieces(start, before, [c]);
      assert cs == before + [c];
      var s := PutAll(start, before);
      var one: seq<seq<byte>> := [c];
      assert PutAll(s, one) == Put(s, c) by {
        assert one[1..] == [];
      }
      if c == NEWLINE {
        var group := EndLineKeepsMid(s, groups, open, LinesOf(before));
        groups, open := groups + [group], [];
      } else if IsShown(c) {
        open := AppendKeepsMid(s, groups, open, LinesOf(before), c);
      }
    }
  }

  /** All logical lines, the unfinished last one only if it holds text. */
  function AllLines(lines: Lines): seq<seq<byte>> {
    if lines.last == [] then lines.finished else lines.finished + [lines.last]
  }

  /**
    Without carriage returns, what is written by the end of the stream is exactly the logical lines of
    the visible text: no character lost, no line break added, none but long lines cut.
  */
  lemma {:induction false} StreamRendersItsLines(cs: seq<seq<byte>>) returns (groups: seq<seq<seq<byte>>>)
    requires forall i :: 0 <= i < |cs| ==> IsCharacter(cs[i])
    ensures Renders(EndStream(PutAll(LineState([], false, []), cs)).written, groups, AllLines(LinesOf(cs)))
  {
    var s := PutAll(LineState([], false, []), cs);
    var open;
    groups, open := PutAllIsMid(cs);
    var lines := LinesOf(cs);
    if s.line != [] {
      assert lines.last != [];
      var group := EndLineKeepsMid(s, groups, open, lines);
      groups := groups + [group];
      assert EndLine(s).written == Join(groups);
    } else if open != [] {
      NonemptyConcat(open);
      assert Concat(open) == lines.last;
      var more := groups + [open];
      assert more[..|groups|] == groups;
      groups := more;
    } else {
      assert lines.last == [];
      assert s.written == Join(groups);
    }
  }

  // ---------------------------------------------------------------- the stream in place

  /** No carriage return among the characters. */
  ghost predicate NoReturn(cs: seq<seq<byte>>) {
    forall i :: 0 <= i < |cs| ==> cs[i] != RETURN
  }

  /** `after` continues `before` with payloads of at most 64 KiB. */
  ghost predicate ExtendsWithin(before: seq<seq<byte>>, after: seq<seq<byte>>) {
    && before <= after
    && forall i :: |before| <= i < |after| ==> |after[i]| <= MAXIMUM_LINE_BYTES
  }

  class OutputStream {
    var line: seq<byte>
    var progress: seq<byte>
    var progressWritten: bool
    var segmentWritten: bool
    var lastProgress: Option<int>
    const sanitizer: TerminalSanitizer
    // the payloads accepted by the writer, the number of attempts, and which attempts fail
    var written: seq<seq<byte>>
    var attempts: nat
    const writeFails: nat -> bool

    ghost predicate Valid()
      reads this, sanitizer, sanitizer.utf8Bytes
    {
      && sanitizer.Valid()
      && |line| < MAXIMUM_LINE_BYTES
      && |progress| < MAXIMUM_LINE_BYTES
    }

    /** No carriage return has been seen on the current line. */
    ghost predicate Plain()
      reads this
    {
      progress == [] && !progressWritten && lastProgress.None?
    }

    ghost function Abstract(): LineState
      reads this
    {
      LineState(line, segmentWritten, written)
    }

    constructor (writeFails: nat -> bool)
      ensures Valid() && Plain() && Abstract() == LineState([], false, []) && fresh(sanitizer) && fresh(sanitizer.utf8Bytes)
      ensures sanitizer.Abstract() == INITIAL
      ensures this.writeFails == writeFails
    {
      line, progress, progressWritten, segmentWritten, lastProgress := [], [], false, false, None;
      sanitizer := new TerminalSanitizer();
      written, attempts := [], 0;
      this.writeFails := writeFails;
    }

    method Write(payload: seq<byte>) returns (ok: bool)
      modifies this`written, this`attempts
      ensures written == if ok then old(written) + [payload] else old(written)
      ensures (forall k :: !writeFails(k)) ==> ok
    {
      ok := !writeFails(attempts);
      attempts := attempts + 1;
      if ok {
        written := written + [payload];
      }
    }

    method WriteBufferedSegment() returns (ok: bool)
      requires 0 < |line| <= MAXIMUM_LINE_BYTES && |progress| < MAXIMUM_LINE_BYTES
      modifies this
      ensures ExtendsWithin(old(written), written)
      ensures |line| <= |old(line)| && |progress| < MAXIMUM_LINE_BYTES
      ensures ok ==> line == []
      ensures ok && old(Plain()) ==> Plain() && Abstract() == WriteSegment(old(Abstract()))
      ensures (forall k :: !writeFails(k)) ==> ok
    {
      ok := Write(line);
      if !ok {
        return;
      }
      line, progress := [], [];
      progressWritten := false;
      segmentWritten := true;
    }

    method AppendVisibleBytes(content: seq<byte>) returns (ok: bool)
      requires Valid() && 0 < |content| <= 4
      modifies this
      ensures ok ==> Valid()
      ensures ExtendsWithin(old(written), written)
      ensures ok && old(Plain()) ==> Plain() && Abstract() == Append(old(Abstract()), content)
      ensures (forall k :: !writeFails(k)) ==> ok
    {
      if |line| != 0 && |line| + |content| > MAXIMUM_LINE_BYTES {
        ok := WriteBufferedSegment();
        if !ok {
          return;
        }
      }
      line := line + content;
      if |line| < MAXIMUM_LINE_BYTES {
        return true;
      }
      ok := WriteBufferedSegment();
    }

    method ProgressUpdate(now: int) returns (ok: bool)
      requires Valid()
      modifies this
      ensures Valid() && ExtendsWithin(old(written), written)
      ensures (forall k :: !writeFails(k)) ==> ok
      // a carriage return shows at most one payload: the line it ends, or one empty line
      ensures written != old(written) ==> written == old(written) + [old(line)]
      // and never two within a second on one line
      ensures old(line) != [] && old(lastProgress).Some? && now - old(lastProgress.value) < PROGRESS_INTERVAL ==>
                written == old(written) && progress == old(line) && line == []
    {
      if |line| == 0 {
        ok := AcceptCarriageReturnWithoutLine(now);
        return;
      }
      progress := line;
      line := [];
      progressWritten := false;
      if lastProgress.Some? && now - lastProgress.value < PROGRESS_INTERVAL {
        return true;
      }
      ok := Write(progress);
      if !ok {
        return;
      }
      progressWritten := true;
      lastProgress := Some(now);
    }

    method AcceptCarriageReturnWithoutLine(now: int) returns (ok: bool)
      requires Valid() && line == []
      modifies this
      ensures Valid() && line == [] && ExtendsWithin(old(written), written)
      ensures (forall k :: !writeFails(k)) ==> ok
      ensures written != old(written) ==> written == old(written) + [[]] && old(progress) == [] && !old(progressWritten)
    {
      if |progress| != 0 || progressWritten {
        return true;
      }
      if segmentWritten {
        ResetLogicalLine();
        progressWritten := true;
        lastProgress := Some(now);
        return true;
      }
      ok := Write([]);
      if !ok {
        return;
      }
      progressWritten := true;
      lastProgress := Some(now);
    }

    method FinishLine() returns (ok: bool)
      requires Valid()
      modifies this
      ensures Valid() && ExtendsWithin(old(written), written)
      ensures ok && old(Plain()) ==> Plain() && Abstract() == EndLine(old(Abstract()))
      ensures (forall k :: !writeFails(k)) ==> ok
    {
      if |line| == 0 && progressWritten {
        ResetLogicalLine();
        return true;
      }
      if |line| == 0 && |progress| == 0 && segmentWritten {
        ResetLogicalLine();
        return true;
      }
      var payload := line;
      if |payload| == 0 && |progress| != 0 {
        payload := progress;
      }
      ok := Write(payload);
      if ok {
        ResetLogicalLine();
      }
    }

    method ResetLogicalLine()
      modifies this`line, this`progress, this`progressWritten, this`segmentWritten, this`lastProgress
      ensures line == [] && progress == [] && !progressWritten && !segmentWritten && lastProgress.None?
    {
      line, progress := [], [];
      progressWritten, segmentWritten := false, false;
      lastProgress := None;
    }

    /** One character of sanitized text. */
    method AcceptCharacter(c: seq<byte>, now: int) returns (ok: bool)
      requires Valid() && IsCharacter(c)
      modifies this
      ensures ok ==> Valid()
      ensures ExtendsWithin(old(written), written)
      ensures ok && old(Plain()) && c != RETURN ==> Plain() && Abstract() == Put(old(Abstract()), c)
      ensures (forall k :: !writeFails(k)) ==> ok
    {
      if c[0] >= 0x80 {
        ok := AppendVisibleBytes(c);
        return;
      }
      assert c == [c[0]];
      if c[0] == 0x0A {
        ok := FinishLine();
      } else if c[0] == 0x0D {
        ok := ProgressUpdate(now);
      } else if c[0] == 0x09 || (c[0] >= 0x20 && c[0] != 0x7F) {
        ok := AppendVisibleBytes(c);
      } else {
        ok := true;
      }
    }

    method AcceptSanitized(content: seq<byte>, now: int) returns (ok: bool)
      requires Valid() && Utf8.Valid(content)
      modifies this
      ensures ok ==> Valid()
      ensures ExtendsWithin(old(written), written)
      ensures ok && old(Plain()) && NoReturn(Characters(content)) ==>
                Plain() && Abstract() == PutAll(old(Abstract()), Characters(content))
      ensures (forall k :: !writeFails(k)) ==> ok
      decreases |content|
    {
      ok := true;
      var rest := content;
      while |rest| != 0
        invariant Valid() && Utf8.Valid(rest) && ExtendsWithin(old(written), written)
        invariant old(Plain()) && NoReturn(Characters(content)) ==>
                    && NoReturn(Characters(rest)) && Plain()
                    && PutAll(Abstract(), Characters(rest)) == PutAll(old(Abstract()), Characters(content))
        decreases |rest|
      {
        ghost var before, characters := written, Characters(rest);
        var width := ScalarLength(rest);
        ScalarLengthOfPrefix(rest, []);
        ok := AcceptCharacter(rest[..width], now);
        assert ExtendsWithin(before, written);
        if !ok {
          return;
        }
        assert characters == [rest[..width]] + Characters(rest[width..]);
        assert characters[0] == rest[..width] && characters[1..] == Characters(rest[width..]);
        rest := rest[width..];
      }
    }

    /** One raw byte of the command. */
    method AcceptByte(value: byte, now: int) returns (ok: bool)
      requires Valid()
      modifies this, sanitizer, sanitizer.utf8Bytes
      ensures ok ==> Valid()
      ensures ExtendsWithin(old(written), written)
      ensures sanitizer.Valid() && sanitizer.Abstract() == Step(old(sanitizer.Abstract()), value).0
      ensures Utf8.Valid(Step(old(sanitizer.Abstract()), value).1)
      ensures ok && old(Plain()) && NoReturn(Characters(Step(old(sanitizer.Abstract()), value).1)) ==>
                Plain() && Abstract() == PutAll(old(Abstract()), Characters(Step(old(sanitizer.Abstract()), value).1))
      ensures (forall k :: !writeFails(k)) ==> ok
    {
      StepIsClean(sanitizer.Abstract(), value);
      CleanIsValid(Step(sanitizer.Abstract(), value).1);
      var visible := sanitizer.Accept(value);
      ok := AcceptSanitized(visible.Contents(), now);
    }

    /** Raw bytes of the command. */
    method Accept(content: seq<byte>, now: int) returns (ok: bool)
      requires Valid()
      modifies this, sanitizer, sanitizer.utf8Bytes
      ensures ok ==> Valid()
      ensures ExtendsWithin(old(written), written)
      ensures ok ==> sanitizer.Abstract() == Run(old(sanitizer.Abstract()), content).0
      ensures Utf8.Valid(Run(old(sanitizer.Abstract()), content).1)
      ensures ok && old(Plain()) && NoReturn(Characters(Run(old(sanitizer.Abstract()), content).1)) ==>
                Plain() && Abstract() == PutAll(old(Abstract()), Characters(Run(old(sanitizer.Abstract()), content).1))
      ensures (forall k :: !writeFails(k)) ==> ok
    {
      ghost var start := sanitizer.Abstract();
      VisibleIsValid(start, content);
      ghost var all := Characters(Run(start, content).1);
      ghost var seen: seq<seq<byte>> := [];
      var index := 0;
      while index < |content|
        invariant 0 <= index <= |content| && Valid() && ExtendsWithin(old(written), written)
        invariant SeenAt(start, content, index, sanitizer.Abstract(), seen)
        invariant old(Plain()) && NoReturn(all) ==> Plain() && Abstract() == PutAll(old(Abstract()), seen)
      {
        ghost var middle, before, lines := sanitizer.Abstract(), written, Abstract();
        ok := AcceptByte(content[index], now);
        assert ExtendsWithin(before, written);
        if !ok {
          return;
        }
        ghost var more := Characters(Step(middle, content[index]).1);
        OneMoreByte(start, content, index, middle, seen);
        PutAllInPieces(old(Abstract()), seen, more);
        seen := seen + more;
        index := index + 1;
      }
      assert content[..index] == content;
      ok := true;
    }

    /** The end of the stream or of the command: the unfinished line is written. */
    method Flush() returns (ok: bool)
      requires Valid()
      modifies this, sanitizer
      ensures ok ==> Valid()
      ensures ExtendsWithin(old(written), written)
      ensures Utf8.Valid(AtEnd(old(sanitizer.Abstract())).1)
      ensures NoReturn(Characters(AtEnd(old(sanitizer.Abstract())).1))
      ensures ok && old(Plain()) ==>
                && Plain()
                && Abstract() == EndStream(PutAll(old(Abstract()), Characters(AtEnd(old(sanitizer.Abstract())).1)))
      ensures (forall k :: !writeFails(k)) ==> ok
    {
      RestIsReplacement(sanitizer.Abstract());
      var visible := sanitizer.Finish();
      ghost var before := written;
      ok := AcceptSanitized(visible.Contents(), 0);
      assert ExtendsWithin(before, written);
      if !ok {
        return;
      }
      before := written;
      if |line| != 0 || (|progress| != 0 && !progressWritten) {
        ok := FinishLine();
        assert ExtendsWithin(before, written);
        return;
      }
      ResetLogicalLine();
    }
  }

  lemma RestIsReplacement(s: State)
    ensures Valid(AtEnd(s).1) && NoReturn(Characters(AtEnd(s).1))
  {
    ReplacementIsValid();
    if s.pending != [] {
      assert REPLACEMENT[..3] == REPLACEMENT && REPLACEMENT[3..] == [];
      assert Characters(REPLACEMENT) == [REPLACEMENT];
    }
  }

  /** After `index` bytes the sanitizer is in `middle` and has shown the characters `seen`. */
  ghost predicate SeenAt(start: State, content: seq<byte>, index: nat, middle: State, seen: seq<seq<byte>>) {
    && Carried(start) && index <= |content|
    && Run(start, content[..index]).0 == middle
    && Valid(Run(start, content[..index]).1)
    && Characters(Run(start, content[..index]).1) == seen
  }

  lemma {:induction false} VisibleIsValid(start: State, content: seq<byte>)
    requires Carried(start)
    ensures Valid(Run(start, content).1)
  {
    RunIsClean(start, content);
    CleanIsValid(Run(start, content).1);
  }

  /** One more byte adds its characters at the end, and no carriage return the whole does not have. */
  lemma {:induction false} OneMoreByte(start: State, content: seq<byte>, index: nat, middle: State, seen: seq<seq<byte>>)
    requires index < |content| && SeenAt(start, content, index, middle, seen)
    ensures Valid(Step(middle, content[index]).1) && Valid(Run(start, content).1)
    ensures SeenAt(start, content, index + 1, Step(middle, content[index]).0,
                   seen + Characters(Step(middle, content[index]).1))
    ensures NoReturn(Characters(Run(start, content).1)) ==> NoReturn(Characters(Step(middle, content[index]).1))
  {
    var head, value, tail := content[..index], content[index], content[index + 1..];
    assert content[..index + 1] == head + [value];
    assert content == content[..index + 1] + tail;
    RunInPieces(start, head, [value]);
    RunOfOne(middle, value);
    RunInPieces(start, content[..index + 1], tail);
    RunIsClean(start, head);
    StepIsClean(middle, value);
    CleanIsValid(Step(middle, value).1);
    var after := Step(middle, value).0;
    VisibleIsValid(after, tail);
    var a, b, c := Run(start, head).1, Step(middle, value).1, Run(after, tail).1;
    CharactersOfConcat(a, b);
    CharactersOfConcat(a + b, c);
    if NoReturn(Characters(Run(start, content).1)) {
      MiddleHasNoReturn(Characters(a), Characters(b), Characters(c));
    }
  }

  lemma MiddleHasNoReturn(a: seq<seq<byte>>, b: seq<seq<byte>>, c: seq<seq<byte>>)
    requires NoReturn((a + b) + c)
    ensures NoReturn(b)
  {
    forall i | 0 <= i < |b| ensures b[i] != RETURN {
      assert ((a + b) + c)[|a| + i] == b[i];
    }
  }

  /**
    A whole stream without carriage returns: given any bytes, accepted and flushed, the payloads are
    the logical lines of the sanitized text.
  */
  method WriteStream(content: seq<byte>) returns (written: seq<seq<byte>>)
    ensures forall i :: 0 <= i < |written| ==> |written[i]| <= MAXIMUM_LINE_BYTES
    ensures Valid(Sanitize(content))
    ensures NoReturn(Characters(Sanitize(content))) ==>
              exists groups :: Renders(written, groups, AllLines(LinesOf(Characters(Sanitize(content)))))
  {
    var stream := new OutputStream(_ => false);
    var ok := stream.Accept(content, 0);
    ghost var state, shown := Run(INITIAL, content).0, Run(INITIAL, content).1;
    ok := stream.Flush();
    written := stream.written;
    SanitizedIsClean(content);
    CharactersOfConcat(shown, AtEnd(state).1);
    CharactersAreCharacters(Sanitize(content));
    ghost var all := Characters(Sanitize(content));
    if NoReturn(all) {
      FirstHasNoReturn(Characters(shown), Characters(AtEnd(state).1));
      PutAllInPieces(LineState([], false, []), Characters(shown), Characters(AtEnd(state).1));
      var groups := StreamRendersItsLines(all);
    }
  }

  lemma FirstHasNoReturn(a: seq<seq<byte>>, b: seq<seq<byte>>)
    requires NoReturn(a + b)
    ensures NoReturn(a)
  {
    forall i | 0 <= i < |a| ensures a[i] != RETURN {
      assert (a + b)[i] == a[i];
    }
  }
}
