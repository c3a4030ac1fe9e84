/** Numbers and frames on the supervisor's pipes. */
module Wire {
  import opened Utf8
  import opened Wrappers

  // ---------------------------------------------------------------- numbers

  function Pow256(width: nat): (r: nat)
    ensures r > 0
  {
    if width == 0 then 1 else 256 * Pow256(width - 1)
  }

  /** The last `width` bytes of a number, most significant first. */
  function BigEndian(n: nat, width: nat): (r: seq<byte>)
    ensures |r| == width
  {
    if width == 0 then [] else BigEndian(n / 256, width - 1) + [n % 256]
  }

  function FromBigEndian(s: seq<byte>): nat {
    if s == [] then 0 else FromBigEndian(s[..|s| - 1]) * 256 + s[|s| - 1]
  }

  lemma {:induction false} BigEndianRoundTrip(n: nat, width: nat)
    requires n < Pow256(width)
    ensures FromBigEndian(BigEndian(n, width)) == n
  {
    if width > 0 {
      BigEndianRoundTrip(n / 256, width - 1);
      var s := BigEndian(n, width);
      assert s[..|s| - 1] == BigEndian(n / 256, width - 1);
    }
  }

  lemma Widths()
    ensures Pow256(2) == 0x1_0000 && Pow256(4) == 0x1_0000_0000
  {
    assert Pow256(1) == 256;
    assert Pow256(3) == 0x100_0000;
  }

  // ---------------------------------------------------------------- frames

  const WIRE_VERSION: byte := 5
  const HEADER_BYTES := 8
  const MAXIMUM_WIRE_PAYLOAD := 65536
  const PIPE_ATOMIC_BYTES := 4096
  const MAXIMUM_EVENT_PAYLOAD := 4088
  const MAXIMUM_OUTPUT_CHUNK := 4086

  datatype Kind = Ready | Accepted | Start | Commit | Cancel | Resize | Input | Output | Status | Final

  datatype Frame = Frame(kind: Kind, payload: seq<byte>)

  function Code(kind: Kind): byte {
    match kind
    case Ready => 1 case Accepted => 2 case Start => 3 case Commit => 4 case Cancel => 5
    case Resize => 6 case Input => 7 case Output => 8 case Status => 9 case Final => 10
  }

  function KindOf(code: byte): Option<Kind> {
    if code == 1 then Some(Ready) else if code == 2 then Some(Accepted) else if code == 3 then Some(Start)
    else if code == 4 then Some(Commit) else if code == 5 then Some(Cancel) else if code == 6 then Some(Resize)
    else if code == 7 then Some(Input) else if code == 8 then Some(Output) else if code == 9 then Some(Status)
    else if code == 10 then Some(Final) else None
  }

  predicate AllowedOnEventPipe(kind: Kind) {
    kind.Ready? || kind.Accepted? || kind.Output? || kind.Status? || kind.Final?
  }

  function Header(kind: Kind, size: nat): (r: seq<byte>)
    ensures |r| == HEADER_BYTES
  {
    [0x57, 0x53, WIRE_VERSION, Code(kind)] + BigEndian(size, 4)
  }

  function EncodeFrame(f: Frame): Option<seq<byte>> {
    if |f.payload| > MAXIMUM_WIRE_PAYLOAD then None else Some(Header(f.kind, |f.payload|) + f.payload)
  }

  /** A frame from the start of a byte stream, and the bytes after it. */
  function ReadFrame(stream: seq<byte>): Option<(Frame, seq<byte>)> {
    if |stream| < HEADER_BYTES then None
    else
      var kind := KindOf(stream[3]);
      var size := FromBigEndian(stream[4..8]);
      if stream[0] != 0x57 || stream[1] != 0x53 || stream[2] != WIRE_VERSION
         || kind.None? || size > MAXIMUM_WIRE_PAYLOAD then None
      else if |stream| < HEADER_BYTES + size then None
      else Some((Frame(kind.value, stream[8..8 + size]), stream[8 + size..]))
  }

  /** What was written as a frame is read back as that frame, and nothing after it is consumed. */
  lemma FrameRoundTrip(f: Frame, rest: seq<byte>)
    requires |f.payload| <= MAXIMUM_WIRE_PAYLOAD
    ensures ReadFrame(EncodeFrame(f).value + rest) == Some((f, rest))
  {
    var stream := EncodeFrame(f).value + rest;
    Widths();
    BigEndianRoundTrip(|f.payload|, 4);
    assert stream[4..8] == BigEndian(|f.payload|, 4);
    assert stream[8..8 + |f.payload|] == f.payload;
    assert stream[8 + |f.payload|..] == rest;
  }

  /** Only what EncodeFrame writes is read. */
  lemma ReadOnlyFrames(stream: seq<byte>)
    requires ReadFrame(stream).Some?
    ensures var (f, rest) := ReadFrame(stream).value;
            |f.payload| <= MAXIMUM_WIRE_PAYLOAD && EncodeFrame(f).value + rest == stream
  {
    var (f, rest) := ReadFrame(stream).value;
    FromBigEndianIsInverse(stream[4..8]);
    assert stream == stream[..4] + stream[4..8] + stream[8..8 + |f.payload|] + rest;
    assert stream[..4] == [0x57, 0x53, WIRE_VERSION, Code(f.kind)];
  }

  lemma {:induction false} FromBigEndianIsInverse(s: seq<byte>)
    ensures BigEndian(FromBigEndian(s), |s|) == s
  {
    if s != [] {
      FromBigEndianIsInverse(s[..|s| - 1]);
      assert s == s[..|s| - 1] + [s[|s| - 1]];
    }
  }

  // ---------------------------------------------------------------- streams of frames

  function EncodeAll(frames: seq<Frame>): seq<byte>
    requires forall i :: 0 <= i < |frames| ==> |frames[i].payload| <= MAXIMUM_WIRE_PAYLOAD
  {
    if frames == [] then [] else EncodeFrame(frames[0]).value + EncodeAll(frames[1..])
  }

  /** Reads frames to the end of the stream. */
  function ReadAll(stream: seq<byte>): Option<seq<Frame>>
    decreases |stream|
  {
    if stream == [] then Some([])
    else
      match ReadFrame(stream)
      case None => None
      case Some((f, rest)) =>
        if |rest| >= |stream| then None
        else
          match ReadAll(rest)
          case None => None
          case Some(frames) => Some([f] + frames)
  }

  lemma {:induction false} StreamRoundTrip(frames: seq<Frame>)
    requires forall i :: 0 <= i < |frames| ==> |frames[i].payload| <= MAXIMUM_WIRE_PAYLOAD
    ensures ReadAll(EncodeAll(frames)) == Some(frames)
  {
    if frames != [] {
      var first, rest := EncodeFrame(frames[0]).value, EncodeAll(frames[1..]);
      StreamRoundTrip(frames[1..]);
      FrameRoundTrip(frames[0], rest);
      assert |first + rest| > |rest|;
      assert ReadAll(first + rest) == Some([frames[0]] + frames[1..]);
      assert frames == [frames[0]] + frames[1..];
    }
  }

  // ---------------------------------------------------------------- output and status events

  const MAXIMUM_TRANSFERS := 35

  /** A transfer number as the source keeps it: zero is no transfer. */
  type Number = n: nat | n <= MAXIMUM_TRANSFERS

  datatype OutputEvent = OutputEvent(transfer: Number, stream: byte, contents: seq<byte>)

  predicate ValidStream(stream: byte) {
    1 <= stream <= 3
  }

  function EncodeOutput(e: OutputEvent): Option<Frame> {
    if e.transfer == 0 || !ValidStream(e.stream) || |e.contents| == 0 || |e.contents| > MAXIMUM_OUTPUT_CHUNK then None
    else Some(Frame(Output, [e.transfer, e.stream] + e.contents))
  }

  function DecodeOutput(payload: seq<byte>): Option<OutputEvent> {
    if |payload| < 3 || !(1 <= payload[0] <= MAXIMUM_TRANSFERS) || !ValidStream(payload[1]) then None
    else Some(OutputEvent(payload[0], payload[1], payload[2..]))
  }

  lemma OutputRoundTrip(e: OutputEvent)
    requires EncodeOutput(e).Some?
    ensures |EncodeOutput(e).value.payload| <= MAXIMUM_EVENT_PAYLOAD && EncodeOutput(e).value.kind == Output
    ensures DecodeOutput(EncodeOutput(e).value.payload) == Some(e)
  {
    assert ([e.transfer, e.stream] + e.contents)[2..] == e.contents;
  }

  datatype TransferResult = TransferResult(transfer: Number, exitCode: int, signal: int)

  predicate ValidResult(r: TransferResult) {
    && r.transfer != 0 && 0 <= r.signal <= 255
    && ((r.signal == 0 && 0 <= r.exitCode <= 255) || (r.signal != 0 && r.exitCode == -1))
  }

  /** A 32-bit number with its sign, as it travels and as it is read. */
  function Unsigned32(n: int): (r: nat)
    ensures r < 0x1_0000_0000
  {
    n % 0x1_0000_0000
  }

  function Signed32(n: nat): int {
    if n >= 0x8000_0000 then n - 0x1_0000_0000 else n
  }

  datatype TransferStatus = TransferStatus(result: TransferResult, running: bool)

  predicate ValidStatus(s: TransferStatus) {
    s.result.transfer != 0 && if s.running then s.result.exitCode == 0 && s.result.signal == 0 else ValidResult(s.result)
  }

  function ResultFields(r: TransferResult): (s: seq<byte>)
    ensures |s| == 6
  {
    BigEndian(Unsigned32(r.exitCode), 4) + BigEndian(r.signal % 0x1_0000, 2)
  }

  function EncodeStatus(s: TransferStatus): Option<seq<byte>> {
    if !ValidStatus(s) then None
    else Some([s.result.transfer, if s.running then 1 else 2] + ResultFields(s.result))
  }

  function DecodeStatus(payload: seq<byte>): Option<TransferStatus> {
    if |payload| != 8 || !(1 <= payload[0] <= MAXIMUM_TRANSFERS) || !(payload[1] == 1 || payload[1] == 2) then None
    else
      var s := TransferStatus(TransferResult(payload[0], Signed32(FromBigEndian(payload[2..6])), FromBigEndian(payload[6..8])),
                              payload[1] == 1);
      if ValidStatus(s) then Some(s) else None
  }

  lemma ResultFieldsRoundTrip(r: TransferResult)
    requires 0 <= r.signal <= 255 && -1 <= r.exitCode <= 255
    ensures Signed32(FromBigEndian(ResultFields(r)[..4])) == r.exitCode && FromBigEndian(ResultFields(r)[4..]) == r.signal
  {
    Widths();
    var code := Unsigned32(r.exitCode);
    assert Signed32(code) == r.exitCode && r.signal % 0x1_0000 == r.signal;
    BigEndianRoundTrip(code, 4);
    BigEndianRoundTrip(r.signal, 2);
    TwoFields(BigEndian(code, 4), BigEndian(r.signal, 2));
  }

  lemma TwoFields(a: seq<byte>, b: seq<byte>)
    requires |a| == 4
    ensures (a + b)[..4] == a && (a + b)[4..] == b
  {
  }

  lemma StatusRoundTrip(s: TransferStatus)
    requires ValidStatus(s)
    ensures EncodeStatus(s).Some? && DecodeStatus(EncodeStatus(s).value) == Some(s)
  {
    ResultFieldsRoundTrip(s.result);
    var payload := EncodeStatus(s).value;
    assert payload[2..6] == ResultFields(s.result)[..4];
    assert payload[6..8] == ResultFields(s.result)[4..];
  }

  // ---------------------------------------------------------------- the event pipe

  /** The output bytes that frames carry for one transfer and stream. */
  function Carried(frames: seq<Frame>, transfer: Number, stream: byte): seq<byte> {
    if frames == [] then []
    else
      Carried(frames[..|frames| - 1], transfer, stream) +
      var last := frames[|frames| - 1];
      var e := if last.kind == Output then DecodeOutput(last.payload) else None;
      if e.Some? && e.value.transfer == transfer && e.value.stream == stream then e.value.contents else []
  }

  lemma {:induction false} CarriedNext(before: seq<Frame>, e: OutputEvent)
    requires EncodeOutput(e).Some?
    ensures Carried(before + [EncodeOutput(e).value], e.transfer, e.stream) == Carried(before, e.transfer, e.stream) + e.contents
  {
    OutputRoundTrip(e);
    var frames := before + [EncodeOutput(e).value];
    assert frames[..|frames| - 1] == before;
  }

  lemma MoveOver<T>(done: seq<T>, rest: seq<T>, count: nat)
    requires count <= |rest|
    ensures (done + rest[..count]) + rest[count..] == done + rest
  {
  }

  /** Every frame is decodable output. */
  ghost predicate AllOutput(frames: seq<Frame>) {
    forall i :: 0 <= i < |frames| ==> frames[i].kind == Output && DecodeOutput(frames[i].payload).Some?
  }

  class EventPipe {
    // the frames that have been written
    var written: seq<Frame>
    var finalSent: bool
    // which writes succeed
    const works: nat -> bool
    var clock: nat

    /** Every frame is atomic on the pipe, and a final is the last one. */
    ghost predicate Valid()
      reads this
    {
      && (forall i :: 0 <= i < |written| ==>
            && AllowedOnEventPipe(written[i].kind) && HEADER_BYTES + |written[i].payload| <= PIPE_ATOMIC_BYTES
            && (written[i].kind == Final <==> finalSent && i == |written| - 1))
      && (finalSent ==> written != [])
    }

    ghost predicate AllWork() {
      forall k :: works(k)
    }

    constructor (works: nat -> bool)
      ensures Valid() && written == [] && !finalSent && this.works == works
    {
      written, finalSent, clock := [], false, 0;
      this.works := works;
    }

    method SendLocked(f: Frame) returns (ok: bool)
      requires Valid() && AllowedOnEventPipe(f.kind) && |f.payload| <= MAXIMUM_EVENT_PAYLOAD
      modifies this
      ensures Valid()
      ensures written == if ok then old(written) + [f] else old(written)
      ensures ok ==> !old(finalSent) && finalSent == (f.kind == Final)
      ensures old(finalSent) ==> !ok && finalSent
      ensures !old(finalSent) && AllWork() ==> ok
      ensures !ok ==> finalSent == old(finalSent)
    {
      if finalSent {
        return false;
      }
      ok := works(clock);
      clock := clock + 1;
      if ok {
        written := written + [f];
        finalSent := f.kind == Final;
      }
    }

    method Send(kind: Kind, payload: seq<byte>) returns (ok: bool)
      requires Valid()
      modifies this
      ensures Valid()
      ensures written == if ok then old(written) + [Frame(kind, payload)] else old(written)
      ensures old(finalSent) || !AllowedOnEventPipe(kind) || |payload| > MAXIMUM_EVENT_PAYLOAD ==> !ok
      ensures !old(finalSent) && AllowedOnEventPipe(kind) && |payload| <= MAXIMUM_EVENT_PAYLOAD && AllWork() ==> ok
    {
      if !AllowedOnEventPipe(kind) || |payload| > MAXIMUM_EVENT_PAYLOAD {
        return false;
      }
      ok := SendLocked(Frame(kind, payload));
    }

    method SendNext(e: OutputEvent, ghost before: seq<Frame>) returns (ok: bool, ghost sent: seq<Frame>)
      requires Valid() && EncodeOutput(e).Some? && AllOutput(before)
      modifies this
      ensures Valid() && AllOutput(sent)
      ensures sent == if ok then before + [EncodeOutput(e).value] else before
      ensures written == if ok then old(written) + [EncodeOutput(e).value] else old(written)
      ensures ok ==> !finalSent && Carried(sent, e.transfer, e.stream) == Carried(before, e.transfer, e.stream) + e.contents
      ensures !old(finalSent) && AllWork() ==> ok
    {
      OutputRoundTrip(e);
      CarriedNext(before, e);
      ok := SendLocked(EncodeOutput(e).value);
      sent := if ok then before + [EncodeOutput(e).value] else before;
    }

    /** Sends output in chunks: what the frames carry is the contents, or when a write fails a prefix of them. */
    method SendOutput(transfer: Number, stream: byte, contents: seq<byte>) returns (ok: bool, ghost sent: seq<Frame>)
      requires Valid()
      modifies this
      ensures Valid() && written == old(written) + sent && AllOutput(sent)
      ensures Carried(sent, transfer, stream) <= contents
      ensures ok ==> Carried(sent, transfer, stream) == contents
      ensures (transfer == 0 || !ValidStream(stream) || contents == []) ==> !ok && sent == []
      ensures !old(finalSent) && AllWork() ==>
                (ok <==> transfer != 0 && ValidStream(stream) && contents != [])
    {
      sent := [];
      assert written == written + sent;
      if transfer == 0 || !ValidStream(stream) || |contents| == 0 {
        return false, sent;
      }
      var rest := contents;
      while |rest| != 0
        invariant Valid() && written == old(written) + sent && AllOutput(sent)
        invariant Carried(sent, transfer, stream) + rest == contents
        invariant !old(finalSent) ==> !finalSent
        decreases |rest|
      {
        var count := if |rest| < MAXIMUM_OUTPUT_CHUNK then |rest| else MAXIMUM_OUTPUT_CHUNK;
        MoveOver(Carried(sent, transfer, stream), rest, count);
        ok, sent := SendNext(OutputEvent(transfer, stream, rest[..count]), sent);
        if !ok {
          return;
        }
        rest := rest[count..];
      }
      ok := true;
    }
  }
}
