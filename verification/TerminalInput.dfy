/** Terminal input cut into key, mouse and byte events: nothing is lost and chunk boundaries do not matter. */
module TerminalInput {
  import opened Utf8
  import opened Wrappers

  const ESC: byte := 0x1B
  const ESCAPE_TIMEOUT := 35

  datatype Event = Bytes(raw: seq<byte>) | Mouse(raw: seq<byte>) | PagePrevious(raw: seq<byte>) | PageNext(raw: seq<byte>)

  /** The number of bytes before the first escape. */
  function PlainLength(s: seq<byte>): (n: nat)
    ensures n <= |s| && (forall i :: 0 <= i < n ==> s[i] != ESC) && (n < |s| ==> s[n] == ESC)
  {
    if s == [] || s[0] == ESC then 0 else 1 + PlainLength(s[1..])
  }

  predicate IsFinalByte(b: byte) {
    0x40 <= b <= 0x7E
  }

  /** The place of the byte that ends a control sequence, from `index` on. */
  function SequenceEnd(s: seq<byte>, index: nat): (end: Option<nat>)
    ensures end.Some? ==> index <= end.value < |s| && IsFinalByte(s[end.value])
    ensures end.Some? ==> forall i :: index <= i < end.value ==> !IsFinalByte(s[i])
    ensures end.None? ==> forall i :: index <= i < |s| ==> !IsFinalByte(s[i])
    decreases |s| - index
  {
    if index >= |s| then None else if IsFinalByte(s[index]) then Some(index) else SequenceEnd(s, index + 1)
  }

  method CsiSequenceEnd(s: seq<byte>) returns (end: Option<nat>)
    ensures end == SequenceEnd(s, 2)
  {
    var index := 2;
    while index < |s|
      invariant 2 <= index
      invariant SequenceEnd(s, 2) == SequenceEnd(s, index)
      decreases |s| - index
    {
      if IsFinalByte(s[index]) {
        return Some(index);
      }
      index := index + 1;
    }
    end := None;
  }

  predicate IsMouse(raw: seq<byte>) {
    |raw| >= 4 && raw[..3] == [ESC, 0x5B, 0x3C] && (raw[|raw| - 1] == 0x4D || raw[|raw| - 1] == 0x6D)
  }

  /** What a complete control sequence is. */
  function Classify(raw: seq<byte>): (e: Event)
    ensures e.raw == raw
  {
    if IsMouse(raw) then Mouse(raw)
    else if raw == [ESC, 0x5B, 0x44] then PagePrevious(raw)
    else if raw == [ESC, 0x5B, 0x43] then PageNext(raw)
    else Bytes(raw)
  }

  /** The first event of non-empty input, unless it is an escape that is not complete yet. */
  function DecodeOne(s: seq<byte>): (r: Option<Event>)
    requires s != []
    ensures r.Some? ==> 0 < |r.value.raw| <= |s| && r.value.raw == s[..|r.value.raw|]
  {
    if s[0] != ESC then Some(Bytes(s[..PlainLength(s)]))
    else if |s| == 1 then None
    else if s[1] == 0x4F then if |s| < 3 then None else Some(Bytes(s[..3]))
    else if s[1] != 0x5B then Some(Bytes(s[..2]))
    else
      match SequenceEnd(s, 2)
      case None => None
      case Some(end) => Some(Classify(s[..end + 1]))
  }

  datatype Decoded = Decoded(events: seq<Event>, pending: seq<byte>)

  /** Events from the front until the input is used up or an escape is not complete. */
  function DecodeAll(s: seq<byte>): Decoded
    decreases |s|
  {
    if s == [] then Decoded([], [])
    else
      match DecodeOne(s)
      case None => Decoded([], s)
      case Some(e) =>
        var rest := DecodeAll(s[|e.raw|..]);
        Decoded([e] + rest.events, rest.pending)
  }

  function Raw(events: seq<Event>): seq<byte> {
    if events == [] then [] else events[0].raw + Raw(events[1..])
  }

  lemma {:induction false} DecodeStep(s: seq<byte>, e: Event)
    requires s != [] && DecodeOne(s) == Some(e)
    ensures DecodeAll(s) == Decoded([e] + DecodeAll(s[|e.raw|..]).events, DecodeAll(s[|e.raw|..]).pending)
    ensures s == e.raw + s[|e.raw|..]
  {
    RejoinAt(s, |e.raw|);
  }

  lemma RejoinAt<T>(s: seq<T>, n: nat)
    requires n <= |s|
    ensures s == s[..n] + s[n..]
  {
  }

  lemma {:induction false} RawOfFirst(e: Event, rest: seq<Event>)
    ensures Raw([e] + rest) == e.raw + Raw(rest)
  {
    assert ([e] + rest)[1..] == rest;
  }

  lemma Reassociate<T>(a: seq<T>, b: seq<T>, c: seq<T>)
    ensures (a + b) + c == a + (b + c)
  {
  }

  /** Every byte of the input is in an event or still pending, in its place. */
  lemma {:induction false} NothingIsLost(s: seq<byte>)
    ensures Raw(DecodeAll(s).events) + DecodeAll(s).pending == s
    ensures DecodeAll(s).pending != [] ==> DecodeOne(DecodeAll(s).pending).None?
    decreases |s|
  {
    if s != [] && DecodeOne(s).Some? {
      var e := DecodeOne(s).value;
      var rest := s[|e.raw|..];
      DecodeStep(s, e);
      NothingIsLost(rest);
      RawOfFirst(e, DecodeAll(rest).events);
      Reassociate(e.raw, Raw(DecodeAll(rest).events), DecodeAll(rest).pending);
    } else {
      assert [] + s == s;
    }
  }

  // ---------------------------------------------------------------- chunks

  /** Events with each byte event taken apart: equal when adjacent byte events are joined. */
  datatype Item = Byte(b: byte) | Key(event: Event)

  function Apart(raw: seq<byte>): (r: seq<Item>)
    ensures |r| == |raw|
  {
    seq(|raw|, i requires 0 <= i < |raw| => Byte(raw[i]))
  }

  function Items(events: seq<Event>): seq<Item> {
    if events == [] then []
    else (if events[0].Bytes? then Apart(events[0].raw) else [Key(events[0])]) + Items(events[1..])
  }

  lemma {:induction false} ItemsConcat(a: seq<Event>, b: seq<Event>)
    ensures Items(a + b) == Items(a) + Items(b)
  {
    if a == [] {
      assert a + b == b;
    } else {
      assert (a + b)[1..] == a[1..] + b;
      ItemsConcat(a[1..], b);
    }
  }

  lemma {:induction false} PlainLengthGrows(s: seq<byte>, t: seq<byte>)
    ensures PlainLength(s + t) == if PlainLength(s) < |s| then PlainLength(s) else |s| + PlainLength(t)
  {
    if s == [] {
      assert s + t == t;
    } else {
      assert (s + t)[1..] == s[1..] + t;
      PlainLengthGrows(s[1..], t);
    }
  }

  lemma {:induction false} SequenceEndStays(s: seq<byte>, t: seq<byte>, index: nat)
    requires SequenceEnd(s, index).Some?
    ensures SequenceEnd(s + t, index) == SequenceEnd(s, index)
    decreases |s| - index
  {
    if !IsFinalByte(s[index]) {
      SequenceEndStays(s, t, index + 1);
    }
  }

  /** A complete escape is decoded the same with more input behind it. */
  lemma EscapeStays(s: seq<byte>, t: seq<byte>)
    requires s != [] && s[0] == ESC && DecodeOne(s).Some?
    ensures DecodeOne(s + t) == DecodeOne(s)
  {
    if s[1] == 0x5B {
      SequenceEndStays(s, t, 2);
      var end := SequenceEnd(s, 2).value;
      assert (s + t)[..end + 1] == s[..end + 1];
    } else if s[1] == 0x4F {
      assert (s + t)[..3] == s[..3];
    } else {
      assert (s + t)[..2] == s[..2];
    }
  }

  lemma {:induction false} FirstEvent(s: seq<byte>, e: Event)
    requires s != [] && DecodeOne(s) == Some(e)
    ensures DecodeAll(s).pending == DecodeAll(s[|e.raw|..]).pending
    ensures Items(DecodeAll(s).events) == (if e.Bytes? then Apart(e.raw) else [Key(e)]) + Items(DecodeAll(s[|e.raw|..]).events)
  {
    var rest := DecodeAll(s[|e.raw|..]);
    assert ([e] + rest.events)[1..] == rest.events;
  }

  lemma {:induction false} PlainFirst(s: seq<byte>, t: seq<byte>, n: nat)
    requires s != [] && PlainLength(s) == |s| && n == PlainLength(t)
    ensures DecodeOne(s + t) == Some(Bytes(s + t[..n])) && (s + t)[|s| + n..] == t[n..]
  {
    PlainLengthGrows(s, t);
    assert (s + t)[0] == s[0];
    assert (s + t)[..|s| + n] == s + t[..n];
  }

  /** The items of plain text at the front. */
  lemma {:induction false} PlainItems(t: seq<byte>, n: nat)
    requires n == PlainLength(t)
    ensures Items(DecodeAll(t).events) == Apart(t[..n]) + Items(DecodeAll(t[n..]).events)
    ensures DecodeAll(t).pending == DecodeAll(t[n..]).pending
  {
    if n == 0 {
      assert t[0..] == t && Apart(t[..0]) == [];
    } else {
      FirstEvent(t, Bytes(t[..n]));
    }
  }

  lemma ApartConcat(a: seq<byte>, b: seq<byte>)
    ensures Apart(a + b) == Apart(a) + Apart(b)
  {
  }

  /** Plain text in front of more input: its items come first. */
  lemma {:induction false} PlainInFront(s: seq<byte>, t: seq<byte>)
    requires s != [] && PlainLength(s) == |s|
    ensures Items(DecodeAll(s + t).events) == Apart(s) + Items(DecodeAll(t).events)
    ensures DecodeAll(s + t).pending == DecodeAll(t).pending
  {
    var n := PlainLength(t);
    PlainFirst(s, t, n);
    FirstEvent(s + t, Bytes(s + t[..n]));
    PlainItems(t, n);
    ApartConcat(s, t[..n]);
    Reassociate(Apart(s), Apart(t[..n]), Items(DecodeAll(t[n..]).events));
  }

  lemma {:induction false} PlainAlone(s: seq<byte>)
    requires s != [] && PlainLength(s) == |s|
    ensures DecodeAll(s) == Decoded([Bytes(s)], []) && Items([Bytes(s)]) == Apart(s)
  {
    assert s[..|s|] == s && s[|s|..] == [];
    assert [Bytes(s)][1..] == [];
  }

  /** Input may be cut anywhere: decoding the parts, the pending bytes in front, gives the same items. */
  lemma {:induction false} ChunksDoNotMatter(s: seq<byte>, t: seq<byte>)
    ensures var first := DecodeAll(s); var second := DecodeAll(first.pending + t);
            && Items(first.events) + Items(second.events) == Items(DecodeAll(s + t).events)
            && second.pending == DecodeAll(s + t).pending
    decreases |s|
  {
    if s == [] {
      assert s + t == t && [] + t == t;
    } else if DecodeOne(s).None? {
      assert DecodeAll(s) == Decoded([], s);
    } else if s[0] != ESC && PlainLength(s) == |s| {
      PlainInFront(s, t);
      PlainAlone(s);
      assert [] + t == t;
    } else {
      var e := DecodeOne(s).value;
      EventStays(s, t, e);
      ChunksDoNotMatter(s[|e.raw|..], t);
      FirstEvent(s, e);
      FirstEvent(s + t, e);
      var first := DecodeAll(s[|e.raw|..]);
      Reassociate(if e.Bytes? then Apart(e.raw) else [Key(e)], Items(first.events), Items(DecodeAll(first.pending + t).events));
    }
  }

  lemma CutInFront<T>(s: seq<T>, t: seq<T>, n: nat)
    requires n <= |s|
    ensures (s + t)[..n] == s[..n] && (s + t)[n..] == s[n..] + t
  {
  }

  /** Text that an escape ends is decoded the same with more input behind it. */
  lemma {:induction false} TextStays(s: seq<byte>, t: seq<byte>)
    requires s != [] && s[0] != ESC && PlainLength(s) < |s|
    ensures DecodeOne(s + t) == DecodeOne(s)
  {
    PlainLengthGrows(s, t);
    CutInFront(s, t, PlainLength(s));
  }

  /** An event that more input cannot lengthen. */
  lemma {:induction false} EventStays(s: seq<byte>, t: seq<byte>, e: Event)
    requires s != [] && DecodeOne(s) == Some(e) && (s[0] == ESC || PlainLength(s) < |s|)
    ensures DecodeOne(s + t) == Some(e) && (s + t)[|e.raw|..] == s[|e.raw|..] + t
  {
    if s[0] == ESC {
      EscapeStays(s, t);
    } else {
      TextStays(s, t);
    }
    CutInFront(s, t, |e.raw|);
  }

  // ---------------------------------------------------------------- the decoder

  class Decoder {
    var pending: seq<byte>
    var deadline: Option<int>

    /** Only an incomplete escape waits, and exactly then there is a deadline. */
    ghost predicate Valid()
      reads this
    {
      && (deadline.Some? <==> pending != [])
      && (pending != [] ==> DecodeOne(pending).None?)
    }

    constructor ()
      ensures Valid() && pending == [] && deadline == None
    {
      pending, deadline := [], None;
    }

    /** Decodes what is pending and what came; a deadline starts anew whenever an event was completed. */
    method Decode(content: seq<byte>, now: int) returns (events: seq<Event>)
      requires Valid()
      modifies this
      ensures Valid()
      ensures Decoded(events, pending) == DecodeAll(old(pending) + content)
      ensures pending != [] && old(deadline).Some? && events == [] ==> deadline == old(deadline)
      ensures pending != [] && (old(deadline).None? || events != []) ==> deadline == Some(now + ESCAPE_TIMEOUT)
    {
      ghost var all := pending + content;
      pending := pending + content;
      events := [];
      while pending != []
        invariant DecodeAll(all) == Decoded(events + DecodeAll(pending).events, DecodeAll(pending).pending)
        invariant events == [] ==> deadline == old(deadline)
        invariant events != [] ==> deadline == None
        decreases |pending|
      {
        var event := DecodeOne(pending);
        if event.None? {
          if deadline.None? {
            deadline := Some(now + ESCAPE_TIMEOUT);
          }
          break;
        }
        deadline := None;
        DecodeStep(pending, event.value);
        Reassociate(events, [event.value], DecodeAll(pending[|event.value.raw|..]).events);
        events := events + [event.value];
        pending := pending[|event.value.raw|..];
      }
      assert events + [] == events;
      if pending == [] {
        deadline := None;
      }
    }

    /** When its time is over an incomplete escape is passed on as bytes. */
    method Expire(now: int) returns (events: seq<Event>)
      requires Valid()
      modifies this
      ensures Valid()
      ensures old(deadline).Some? && now >= old(deadline).value ==> events == [Bytes(old(pending))] && pending == []
      ensures !(old(deadline).Some? && now >= old(deadline).value) ==>
                events == [] && pending == old(pending) && deadline == old(deadline)
    {
      if pending == [] || deadline.None? || now < deadline.value {
        return [];
      }
      events := [Bytes(pending)];
      pending, deadline := [], None;
    }
  }

  /** Feeding chunks one by one without a timeout gives the items of the whole input. */
  method DecodeChunks(chunks: seq<seq<byte>>) returns (events: seq<Event>, pending: seq<byte>)
    ensures Items(events) == Items(DecodeAll(Joined(chunks)).events) && pending == DecodeAll(Joined(chunks)).pending
  {
    var decoder := new Decoder();
    events := [];
    var index := 0;
    while index < |chunks|
      invariant 0 <= index <= |chunks| && decoder.Valid() && fresh(decoder)
      invariant Items(events) == Items(DecodeAll(Joined(chunks[..index])).events)
      invariant decoder.pending == DecodeAll(Joined(chunks[..index])).pending
    {
      ChunksDoNotMatter(Joined(chunks[..index]), chunks[index]);
      assert chunks[..index + 1][..index] == chunks[..index];
      var more := decoder.Decode(chunks[index], 0);
      ItemsConcat(events, more);
      events := events + more;
      index := index + 1;
    }
    assert chunks[..index] == chunks;
    pending := decoder.pending;
  }

  function Joined(chunks: seq<seq<byte>>): seq<byte> {
    if chunks == [] then [] else Joined(chunks[..|chunks| - 1]) + chunks[|chunks| - 1]
  }
}
