/**
  The byte machine that removes terminal control functions from command output and keeps ordinary
  UTF-8 text.
*/
module Sanitizer {
  import opened Utf8

  datatype Sequence = Text | Escape | EscapeIntermediate | Csi | Osc | ControlString | OscEscape | StringEscape

  const CHUNK_BYTES := 8
  const UTF_MAX := 4
  const ESC: byte := 0x1B
  const BEL: byte := 0x07
  const ST: byte := 0x9C

  function Utf8SequenceLength(value: byte): (n: nat) {
    if 0xC2 <= value <= 0xDF then 2
    else if 0xE0 <= value <= 0xEF then 3
    else if 0xF0 <= value <= 0xF4 then 4
    else 0
  }

  // ---------------------------------------------------------------- the machine as a value

  /** The unfinished character or control string carried from one byte to the next. */
  datatype State = State(sequence: Sequence, pending: seq<byte>, expected: nat, remaining: nat, c2: bool)

  const INITIAL := State(Text, [], 0, 0, false)

  function ResetUtf8(s: State): State { s.(pending := [], expected := 0) }
  function ResetString(s: State): State { s.(remaining := 0, c2 := false) }
  function ResetSequence(s: State): State { ResetString(s.(sequence := Text)) }

  function AfterC1(s: State, value: byte): State {
    if value in {0x90, 0x98, 0x9E, 0x9F} then ResetString(s.(sequence := ControlString))
    else if value == 0x9B then s.(sequence := Csi)
    else if value == 0x9D then ResetString(s.(sequence := Osc))
    else s
  }

  function AfterRawC1(s: State, value: byte): State {
    if 0x80 <= value <= 0x9F then AfterC1(s, value) else s
  }

  /** A byte outside any control function, when no character is unfinished. */
  function FreshText(s: State, value: byte): (State, seq<byte>) {
    if value < 0x80 then
      if value == ESC then (s.(sequence := Escape), []) else (s, [value])
    else if value <= 0x9F then (AfterC1(s, value), [])
    else if Utf8SequenceLength(value) == 0 then (s, REPLACEMENT)
    else (s.(pending := [value], expected := Utf8SequenceLength(value)), [])
  }

  /** A complete character: hidden if it is a C1 control, replaced if malformed. */
  function FinishCharacter(s: State, content: seq<byte>): (State, seq<byte>) {
    if !Valid(content) then (ResetUtf8(s), REPLACEMENT)
    else if ScalarLength(content) > 0 && 0x80 <= CodePoint(content) <= 0x9F then
      (ResetUtf8(AfterC1(s, CodePoint(content))), [])
    else (ResetUtf8(s), content)
  }

  function AfterText(s: State, value: byte): (State, seq<byte>) {
    if s.pending == [] then FreshText(s, value)
    else if value < 0x80 || value > 0xBF then
      var (next, out) := FreshText(ResetUtf8(s), value);
      (next, REPLACEMENT + out)
    else
      var content := s.pending + [value];
      if |content| < s.expected then (s.(pending := content), []) else FinishCharacter(s, content)
  }

  function AfterEscape(s: State, value: byte): State {
    if value == ESC then s
    else if value == '[' as int then s.(sequence := Csi)
    else if value == ']' as int then ResetString(s.(sequence := Osc))
    else if value in {'P' as int, 'X' as int, '^' as int, '_' as int} then ResetString(s.(sequence := ControlString))
    else if 0x20 <= value <= 0x2F then s.(sequence := EscapeIntermediate)
    else if 0x30 <= value <= 0x7E then s.(sequence := Text)
    else AfterRawC1(s.(sequence := Text), value)
  }

  function AfterEscapeIntermediate(s: State, value: byte): State {
    if value == ESC then s.(sequence := Escape)
    else if 0x20 <= value <= 0x2F then s
    else if 0x30 <= value <= 0x7E then s.(sequence := Text)
    else AfterRawC1(s.(sequence := Text), value)
  }

  function AfterCsi(s: State, value: byte): State {
    if value == ESC then s.(sequence := Escape)
    else if 0x20 <= value <= 0x3F then s
    else if 0x40 <= value <= 0x7E then s.(sequence := Text)
    else AfterRawC1(s.(sequence := Text), value)
  }

  function FreshControlString(s: State, value: byte, allowBell: bool, escape: Sequence): State {
    if value == ESC then s.(sequence := escape)
    else if (allowBell && value == BEL) || value == ST then ResetSequence(s)
    else if Utf8SequenceLength(value) != 0 then s.(remaining := Utf8SequenceLength(value) - 1, c2 := value == 0xC2)
    else s
  }

  function AfterControlString(s: State, value: byte, allowBell: bool, escape: Sequence): State {
    if s.remaining != 0 && IsContinuation(value) then
      if s.c2 && s.remaining == 1 && value == ST then ResetSequence(s)
      else s.(remaining := s.remaining - 1, c2 := if s.remaining == 1 then false else s.c2)
    else FreshControlString(if s.remaining != 0 then ResetString(s) else s, value, allowBell, escape)
  }

  function AfterStringEscape(s: State, value: byte, allowBell: bool, content: Sequence, escape: Sequence): State {
    if value == '\\' as int then ResetSequence(s)
    else if value == ESC then s
    else AfterControlString(s.(sequence := content), value, allowBell, escape)
  }

  function AfterSequence(s: State, value: byte): State {
    match s.sequence
    case Text => s
    case Escape => AfterEscape(s, value)
    case EscapeIntermediate => AfterEscapeIntermediate(s, value)
    case Csi => AfterCsi(s, value)
    case Osc => AfterControlString(s, value, true, OscEscape)
    case ControlString => AfterControlString(s, value, false, StringEscape)
    case OscEscape => AfterStringEscape(s, value, true, Osc, OscEscape)
    case StringEscape => AfterStringEscape(s, value, false, ControlString, StringEscape)
  }

  /** One byte: the state after it and the text it makes visible. */
  function Step(s: State, value: byte): (State, seq<byte>) {
    if s.sequence == Text then AfterText(s, value) else (AfterSequence(s, value), [])
  }

  /** The end of the stream: an unfinished character becomes a replacement character. */
  function AtEnd(s: State): (State, seq<byte>) {
    (INITIAL, if s.pending == [] then [] else REPLACEMENT)
  }

  function Run(s: State, input: seq<byte>): (State, seq<byte>)
    decreases |input|
  {
    if input == [] then (s, [])
    else
      var (middle, first) := Step(s, input[0]);
      var (last, rest) := Run(middle, input[1..]);
      (last, first + rest)
  }

  /** What a whole stream makes visible. */
  function Sanitize(input: seq<byte>): seq<byte> {
    var (last, visible) := Run(INITIAL, input);
    visible + AtEnd(last).1
  }

  /** Carried state: the beginning of one character in text, the rest of one character in a control string. */
  ghost predicate Carried(s: State) {
    && (s.pending == [] <==> s.expected == 0)
    && (s.pending != [] ==>
          && s.sequence == Text
          && Utf8SequenceLength(s.pending[0]) == s.expected
          && |s.pending| < s.expected
          && forall i :: 1 <= i < |s.pending| ==> IsContinuation(s.pending[i]))
    && s.remaining <= 3
    && (s.sequence !in {Osc, ControlString} ==> s.remaining == 0)
    && (s.c2 ==> s.remaining == 1)
  }

  // ---------------------------------------------------------------- clean text

  /** The first character is the escape control or a C1 control. */
  predicate StartsWithControl(s: seq<byte>)
    requires ScalarLength(s) > 0
  {
    s[0] == ESC || 0x80 <= CodePoint(s) <= 0x9F
  }

  /** Well-formed text without escape and C1 characters. */
  predicate Clean(s: seq<byte>) {
    s == [] || (ScalarLength(s) > 0 && !StartsWithControl(s) && Clean(s[ScalarLength(s)..]))
  }

  lemma {:induction false} CleanIsValid(s: seq<byte>)
    requires Clean(s)
    ensures Valid(s)
  {
    if s != [] {
      CleanIsValid(s[ScalarLength(s)..]);
    }
  }

  lemma {:induction false} CleanConcat(a: seq<byte>, b: seq<byte>)
    requires Clean(a) && Clean(b)
    ensures Clean(a + b)
  {
    if a == [] {
      assert a + b == b;
    } else {
      ScalarLengthOfPrefix(a, b);
      CleanConcat(a[ScalarLength(a)..], b);
    }
  }

  lemma {:induction false} OneCharacterIsClean(s: seq<byte>)
    requires ScalarLength(s) == |s| > 0 && !StartsWithControl(s)
    ensures Clean(s)
  {
    assert s[|s|..] == [];
  }

  /** An ESC byte appears in no clean text, and the bytes C2 80 to C2 9F never follow each other in it. */
  lemma {:induction false} CleanHasNoControl(s: seq<byte>, i: nat)
    requires Clean(s) && i < |s|
    ensures s[i] != ESC
    ensures i + 1 < |s| && s[i] == 0xC2 ==> !(0x80 <= s[i + 1] <= 0x9F)
  {
    var n := ScalarLength(s);
    if i >= n {
      CleanHasNoControl(s[n..], i - n);
    }
  }

  // ---------------------------------------------------------------- every byte makes clean text visible

  lemma {:induction false} StepIsClean(s: State, value: byte)
    requires Carried(s)
    ensures Carried(Step(s, value).0)
    ensures Clean(Step(s, value).1)
    ensures |Step(s, value).1| <= CHUNK_BYTES
  {
    ReplacementIsClean();
    if s.sequence == Text {
      TextStepIsClean(s, value);
    }
  }

  lemma ReplacementIsClean()
    ensures Clean(REPLACEMENT) && |REPLACEMENT| == 3
  {
    OneCharacterIsClean(REPLACEMENT);
  }

  lemma FreshTextIsClean(s: State, value: byte)
    requires Carried(s) && s.sequence == Text && s.pending == []
    ensures Carried(FreshText(s, value).0)
    ensures Clean(FreshText(s, value).1) && |FreshText(s, value).1| <= 3
  {
    ReplacementIsClean();
    if value < 0x80 && value != ESC {
      OneCharacterIsClean([value]);
    }
  }

  lemma {:induction false} TextStepIsClean(s: State, value: byte)
    requires Carried(s) && s.sequence == Text
    ensures Carried(AfterText(s, value).0)
    ensures Clean(AfterText(s, value).1) && |AfterText(s, value).1| <= 6
  {
    ReplacementIsClean();
    if s.pending == [] {
      FreshTextIsClean(s, value);
    } else if value < 0x80 || value > 0xBF {
      FreshTextIsClean(ResetUtf8(s), value);
      CleanConcat(REPLACEMENT, FreshText(ResetUtf8(s), value).1);
    } else {
      var content := s.pending + [value];
      if |content| == s.expected && Valid(content) {
        WholeCharacter(content, s.expected);
        if !(0x80 <= CodePoint(content) <= 0x9F) {
          OneCharacterIsClean(content);
        }
      }
    }
  }

  /** A lead byte followed by its number of continuation bytes is valid exactly as one character. */
  lemma {:induction false} WholeCharacter(content: seq<byte>, expected: nat)
    requires |content| == expected > 0 && Utf8SequenceLength(content[0]) == expected
    requires forall i :: 1 <= i < |content| ==> IsContinuation(content[i])
    requires Valid(content)
    ensures ScalarLength(content) == |content|
  {
  }

  lemma {:induction false} RunIsClean(s: State, input: seq<byte>)
    requires Carried(s)
    ensures Carried(Run(s, input).0)
    ensures Clean(Run(s, input).1)
    decreases |input|
  {
    if input != [] {
      StepIsClean(s, input[0]);
      var middle := Step(s, input[0]).0;
      RunIsClean(middle, input[1..]);
      CleanConcat(Step(s, input[0]).1, Run(middle, input[1..]).1);
    }
  }

  /** Whatever the stream, what it makes visible is well-formed text without escape and C1 characters. */
  lemma SanitizedIsClean(input: seq<byte>)
    ensures Clean(Sanitize(input)) && Valid(Sanitize(input))
  {
    RunIsClean(INITIAL, input);
    ReplacementIsClean();
    var (last, visible) := Run(INITIAL, input);
    CleanConcat(visible, AtEnd(last).1);
    CleanIsValid(Sanitize(input));
  }

  /** The stream may arrive in pieces. */
  lemma {:induction false} RunInPieces(s: State, a: seq<byte>, b: seq<byte>)
    ensures Run(s, a + b).0 == Run(Run(s, a).0, b).0
    ensures Run(s, a + b).1 == Run(s, a).1 + Run(Run(s, a).0, b).1
    decreases |a|
  {
    if a == [] {
      assert a + b == b;
    } else {
      assert (a + b)[1..] == a[1..] + b;
      RunInPieces(Step(s, a[0]).0, a[1..], b);
    }
  }

  // ---------------------------------------------------------------- clean text is left alone

  /** One character passes through unchanged. */
  lemma {:induction false} CharacterPasses(s: seq<byte>)
    requires ScalarLength(s) == |s| > 0 && !StartsWithControl(s)
    ensures Run(INITIAL, s) == (INITIAL, s)
  {
    if |s| == 1 {
      assert s == [s[0]];
      RunOfOne(INITIAL, s[0]);
    } else {
      FirstByteIsPending(s);
      RunOfCons(INITIAL, s);
      CharacterContinues(s, 1);
      assert [] + s == s;
    }
  }

  lemma FirstByteIsPending(s: seq<byte>)
    requires ScalarLength(s) == |s| > 1
    ensures Step(INITIAL, s[0]) == (State(Text, s[..1], |s|, 0, false), [])
  {
    assert s[..1] == [s[0]];
  }

  lemma {:induction false} RunOfOne(s: State, value: byte)
    ensures Run(s, [value]) == Step(s, value)
  {
    RunOfCons(s, [value]);
    assert [value][1..] == [];
    assert Run(Step(s, value).0, []) == (Step(s, value).0, []);
    assert Step(s, value).1 + [] == Step(s, value).1;
  }

  lemma {:induction false} RunOfCons(s: State, input: seq<byte>)
    requires input != []
    ensures Run(s, input) == (Run(Step(s, input[0]).0, input[1..]).0,
                              Step(s, input[0]).1 + Run(Step(s, input[0]).0, input[1..]).1)
  {
  }

  /** The machine part way through a character. */
  lemma {:induction false} CharacterContinues(s: seq<byte>, k: nat)
    requires 1 <= k < |s| && ScalarLength(s) == |s| && !StartsWithControl(s)
    ensures Run(State(Text, s[..k], |s|, 0, false), s[k..]) == (INITIAL, s)
    decreases |s| - k
  {
    var here := State(Text, s[..k], |s|, 0, false);
    RunOfCons(here, s[k..]);
    assert s[k..][1..] == s[k + 1..] && s[k..][0] == s[k];
    assert s[..k] + [s[k]] == s[..k + 1];
    assert IsContinuation(s[k]);
    if k + 1 < |s| {
      assert Step(here, s[k]) == (State(Text, s[..k + 1], |s|, 0, false), []);
      CharacterContinues(s, k + 1);
      var nothing: seq<byte> := [];
      assert nothing + s == s;
    } else {
      LastByteCompletes(here, s);
      assert s[k + 1..] == [];
      assert s + [] == s;
    }
  }

  lemma LastByteCompletes(here: State, s: seq<byte>)
    requires |s| > 1 && ScalarLength(s) == |s| && !StartsWithControl(s)
    requires here == State(Text, s[..|s| - 1], |s|, 0, false)
    ensures Step(here, s[|s| - 1]) == (INITIAL, s)
  {
    var value := s[|s| - 1];
    assert s[|s|..] == [];
    assert Valid(s);
    assert FinishCharacter(here, s) == (INITIAL, s);
    assert here.pending + [value] == s;
    assert IsContinuation(value);
    assert AfterText(here, value) == FinishCharacter(here, s);
  }

  lemma {:induction false} CleanPasses(s: seq<byte>)
    requires Clean(s)
    ensures Run(INITIAL, s) == (INITIAL, s)
  {
    if s != [] {
      var n := ScalarLength(s);
      var head, tail := s[..n], s[n..];
      assert s == head + tail;
      ScalarLengthOfPrefix(s, []);
      assert CodePoint(head) == CodePoint(s);
      CharacterPasses(head);
      CleanPasses(tail);
      RunInPieces(INITIAL, head, tail);
    }
  }

  /** A stream is unchanged exactly when it is clean text already. */
  lemma {:induction false} UnchangedExactlyWhenClean(input: seq<byte>)
    ensures Sanitize(input) == input <==> Clean(input)
  {
    SanitizedIsClean(input);
    if Clean(input) {
      CleanPasses(input);
    }
  }

  lemma SanitizeIsIdempotent(input: seq<byte>)
    ensures Sanitize(Sanitize(input)) == Sanitize(input)
  {
    SanitizedIsClean(input);
    CleanPasses(Sanitize(input));
  }

  // ---------------------------------------------------------------- control functions are consumed

  datatype StringKind = OperatingSystemCommand | OtherString

  /** The control functions of ECMA-48 and the ways a stream can spell them. */
  datatype ControlFunction =
    | EscapeSequence(intermediates: seq<byte>, final: byte)
    | ControlSequence(introducer: seq<byte>, parameters: seq<byte>, final: byte)
    | CommandString(kind: StringKind, opener: seq<byte>, content: seq<byte>, terminator: seq<byte>)
    | SingleC1(spelling: seq<byte>)

  function Encode(c: ControlFunction): seq<byte> {
    match c
    case EscapeSequence(intermediates, final) => [ESC] + intermediates + [final]
    case ControlSequence(introducer, parameters, final) => introducer + parameters + [final]
    case CommandString(_, opener, content, terminator) => opener + content + terminator
    case SingleC1(spelling) => spelling
  }

  predicate InRange(s: seq<byte>, low: nat, high: nat) {
    forall i :: 0 <= i < |s| ==> low <= s[i] <= high
  }

  /** Text without the characters that end a command string. */
  predicate StringContent(s: seq<byte>, kind: StringKind) {
    s == [] ||
    (&& ScalarLength(s) > 0
     && s[0] != ESC && CodePoint(s) != 0x9C && !(kind == OperatingSystemCommand && s[0] == BEL)
     && StringContent(s[ScalarLength(s)..], kind))
  }

  predicate IsOpener(opener: seq<byte>, kind: StringKind) {
    if kind == OperatingSystemCommand then opener in {[ESC, 0x5D], [0x9D], [0xC2, 0x9D]}
    else opener in {[ESC, 0x50], [ESC, 0x58], [ESC, 0x5E], [ESC, 0x5F], [0x90], [0x98], [0x9E], [0x9F],
                    [0xC2, 0x90], [0xC2, 0x98], [0xC2, 0x9E], [0xC2, 0x9F]}
  }

  predicate IsTerminator(terminator: seq<byte>, kind: StringKind) {
    || terminator in {[ESC, 0x5C], [ST], [0xC2, ST]}
    || (kind == OperatingSystemCommand && terminator == [BEL])
  }

  /** Sections 5.4 and 5.6 of ECMA-48, in 7-bit, 8-bit and UTF-8 spelling. */
  predicate WellFormed(c: ControlFunction) {
    match c
    case EscapeSequence(intermediates, final) =>
      && InRange(intermediates, 0x20, 0x2F) && 0x30 <= final <= 0x7E
      && (intermediates == [] ==> final !in {0x5B, 0x5D, 0x50, 0x58, 0x5E, 0x5F})
    case ControlSequence(introducer, parameters, final) =>
      && introducer in {[ESC, 0x5B], [0x9B], [0xC2, 0x9B]}
      && InRange(parameters, 0x20, 0x3F) && 0x40 <= final <= 0x7E
    case CommandString(kind, opener, content, terminator) =>
      IsOpener(opener, kind) && StringContent(content, kind) && IsTerminator(terminator, kind)
    case SingleC1(spelling) =>
      exists b: byte :: 0x80 <= b <= 0x9F && b !in {0x90, 0x98, 0x9B, 0x9D, 0x9E, 0x9F} && spelling in {[b], [0xC2, b]}
  }

  function Within(sequence: Sequence): State { State(sequence, [], 0, 0, false) }

  lemma {:induction false} QuietStep(s: State, input: seq<byte>)
    requires input != [] && Step(s, input[0]).1 == []
    ensures Run(s, input) == Run(Step(s, input[0]).0, input[1..])
  {
    var rest := Run(Step(s, input[0]).0, input[1..]).1;
    assert Step(s, input[0]).1 + rest == rest;
  }

  lemma {:induction false} LoopsInPlace(s: State, input: seq<byte>)
    requires forall i :: 0 <= i < |input| ==> Step(s, input[i]) == (s, [])
    ensures Run(s, input) == (s, [])
  {
    if input != [] {
      QuietStep(s, input);
      LoopsInPlace(s, input[1..]);
    }
  }

  /** Two bytes that make nothing visible. */
  lemma {:induction false} RunOfTwo(s: State, a: byte, b: byte)
    ensures Run(s, [a, b]).0 == Step(Step(s, a).0, b).0
    ensures Run(s, [a, b]).1 == Step(s, a).1 + Step(Step(s, a).0, b).1
  {
    RunOfCons(s, [a, b]);
    assert [a, b][1..] == [b];
    RunOfOne(Step(s, a).0, b);
  }

  /** A C1 control spelled as a two-byte character acts as its one-byte spelling. */
  lemma C1AsCharacter(b: byte)
    requires 0x80 <= b <= 0x9F
    ensures Run(INITIAL, [0xC2, b]) == (AfterC1(INITIAL, b), [])
    ensures Run(INITIAL, [b]) == (AfterC1(INITIAL, b), [])
  {
    RunOfOne(INITIAL, b);
    var lead := State(Text, [0xC2], 2, 0, false);
    var spelling: seq<byte> := [0xC2, b];
    assert Step(INITIAL, 0xC2) == (lead, []);
    QuietStep(INITIAL, spelling);
    assert spelling[1..] == [b];
    RunOfOne(lead, b);
    SecondByteOfC1(lead, b);
  }

  lemma SecondByteOfC1(lead: State, b: byte)
    requires lead == State(Text, [0xC2], 2, 0, false) && 0x80 <= b <= 0x9F
    ensures Step(lead, b) == (AfterC1(INITIAL, b), [])
  {
    var content := lead.pending + [b];
    assert content == [0xC2, b] && content[2..] == [];
    assert |content| == 2 && content[0] == 0xC2 && content[1] == b;
    assert ScalarLength(content) == 2;
    assert Bits(content[0], 0xC0) == 2 && Bits(content[1], 0x80) == b - 0x80;
    assert Valid(content);
    assert CodePoint(content) == b;
    assert ResetUtf8(AfterC1(lead, b)) == AfterC1(INITIAL, b);
    assert FinishCharacter(lead, content) == (AfterC1(INITIAL, b), []);
  }

  lemma {:induction false} OpenerOpens(opener: seq<byte>, kind: StringKind)
    requires IsOpener(opener, kind)
    ensures Run(INITIAL, opener) == (Within(if kind == OperatingSystemCommand then Osc else ControlString), [])
  {
    if |opener| == 1 {
      C1AsCharacter(opener[0]);
    } else if opener[0] == 0xC2 {
      C1AsCharacter(opener[1]);
    } else {
      RunOfTwo(INITIAL, ESC, opener[1]);
    }
  }

  lemma {:induction false} TerminatorEnds(terminator: seq<byte>, kind: StringKind)
    requires IsTerminator(terminator, kind)
    ensures Run(Within(if kind == OperatingSystemCommand then Osc else ControlString), terminator) == (INITIAL, [])
  {
    var s := Within(if kind == OperatingSystemCommand then Osc else ControlString);
    if |terminator| == 1 {
      RunOfOne(s, terminator[0]);
    } else {
      RunOfTwo(s, terminator[0], terminator[1]);
    }
  }

  /** The rest of a character inside a command string. */
  lemma {:induction false} StringCharacterContinues(s: State, rest: seq<byte>)
    requires s.sequence in {Osc, ControlString} && s.pending == [] && s.expected == 0
    requires 0 < |rest| == s.remaining <= 3 && forall i :: 0 <= i < |rest| ==> IsContinuation(rest[i])
    requires s.c2 ==> |rest| == 1 && rest[0] != ST
    ensures Run(s, rest) == (Within(s.sequence), [])
    decreases |rest|
  {
    QuietStep(s, rest);
    var next := Step(s, rest[0]).0;
    if |rest| == 1 {
      assert rest[1..] == [];
    } else {
      StringCharacterContinues(next, rest[1..]);
    }
  }

  lemma {:induction false} ContentIsConsumed(content: seq<byte>, kind: StringKind, sequence: Sequence)
    requires StringContent(content, kind)
    requires sequence == if kind == OperatingSystemCommand then Osc else ControlString
    ensures Run(Within(sequence), content) == (Within(sequence), [])
    decreases |content|
  {
    if content != [] {
      var n := ScalarLength(content);
      var head, tail := content[..n], content[n..];
      assert content == head + tail;
      StringCharacterIsConsumed(head, content, kind, sequence);
      ContentIsConsumed(tail, kind, sequence);
      RunInPieces(Within(sequence), head, tail);
    }
  }

  lemma {:induction false} StringCharacterIsConsumed(head: seq<byte>, content: seq<byte>, kind: StringKind,
                                                     sequence: Sequence)
    requires content != [] && StringContent(content, kind) && head == content[..ScalarLength(content)]
    requires sequence == if kind == OperatingSystemCommand then Osc else ControlString
    ensures Run(Within(sequence), head) == (Within(sequence), [])
  {
    var n := ScalarLength(content);
    assert head[0] == content[0];
    QuietStep(Within(sequence), head);
    if n > 1 {
      var next := Step(Within(sequence), head[0]).0;
      assert Utf8SequenceLength(head[0]) == n;
      assert forall i :: 0 <= i < n - 1 ==> IsContinuation(head[1..][i]) by {
        assert forall i :: 1 <= i < n ==> IsContinuation(content[i]);
      }
      assert head[1] == content[1];
      StringCharacterContinues(next, head[1..]);
    } else {
      assert head[1..] == [];
    }
  }

  lemma ControlFunctionIsConsumed(c: ControlFunction)
    requires WellFormed(c)
    ensures Run(INITIAL, Encode(c)) == (INITIAL, [])
  {
    match c {
      case EscapeSequence(intermediates, final) => EscapeSequenceIsConsumed(intermediates, final);
      case ControlSequence(introducer, parameters, final) =>
        if |introducer| == 1 {
          C1AsCharacter(0x9B);
        } else if introducer[0] == 0xC2 {
          C1AsCharacter(0x9B);
        } else {
          RunOfTwo(INITIAL, ESC, 0x5B);
        }
        LoopsInPlace(Within(Csi), parameters);
        RunOfOne(Within(Csi), final);
        RunInPieces(INITIAL, introducer, parameters);
        RunInPieces(INITIAL, introducer + parameters, [final]);
      case CommandString(kind, opener, content, terminator) =>
        OpenerOpens(opener, kind);
        ContentIsConsumed(content, kind, if kind == OperatingSystemCommand then Osc else ControlString);
        TerminatorEnds(terminator, kind);
        RunInPieces(INITIAL, opener, content);
        RunInPieces(INITIAL, opener + content, terminator);
      case SingleC1(spelling) =>
        var b: byte :| 0x80 <= b <= 0x9F && b !in {0x90, 0x98, 0x9B, 0x9D, 0x9E, 0x9F} && spelling in {[b], [0xC2, b]};
        C1AsCharacter(b);
    }
  }

  lemma {:induction false} EscapeSequenceIsConsumed(intermediates: seq<byte>, final: byte)
    requires InRange(intermediates, 0x20, 0x2F) && 0x30 <= final <= 0x7E
    requires intermediates == [] ==> final !in {0x5B, 0x5D, 0x50, 0x58, 0x5E, 0x5F}
    ensures Run(INITIAL, [ESC] + intermediates + [final]) == (INITIAL, [])
  {
    var introducer: seq<byte> := [ESC];
    RunOfOne(INITIAL, ESC);
    if intermediates == [] {
      assert introducer + intermediates == introducer;
      RunOfOne(Within(Escape), final);
      RunInPieces(INITIAL, introducer, [final]);
    } else {
      RunOfCons(Within(Escape), intermediates);
      LoopsInPlace(Within(EscapeIntermediate), intermediates[1..]);
      RunOfOne(Within(EscapeIntermediate), final);
      RunInPieces(INITIAL, introducer, intermediates);
      RunInPieces(INITIAL, introducer + intermediates, [final]);
    }
  }

  /** A stream written as text and control functions. */
  datatype Piece = Plain(text: seq<byte>) | Control(control: ControlFunction)

  ghost predicate WellFormedPiece(piece: Piece) {
    match piece case Plain(text) => Clean(text) case Control(c) => WellFormed(c)
  }

  function Spelled(pieces: seq<Piece>): seq<byte> {
    if pieces == [] then []
    else (match pieces[0] case Plain(text) => text case Control(c) => Encode(c)) + Spelled(pieces[1..])
  }

  function TextOf(pieces: seq<Piece>): seq<byte> {
    if pieces == [] then []
    else (match pieces[0] case Plain(text) => text case Control(_) => []) + TextOf(pieces[1..])
  }

  lemma {:induction false} PiecesRun(pieces: seq<Piece>)
    requires forall i :: 0 <= i < |pieces| ==> WellFormedPiece(pieces[i])
    ensures Run(INITIAL, Spelled(pieces)) == (INITIAL, TextOf(pieces))
  {
    if pieces != [] {
      assert WellFormedPiece(pieces[0]);
      var head := match pieces[0] case Plain(text) => text case Control(c) => Encode(c);
      match pieces[0] {
        case Plain(text) => CleanPasses(text);
        case Control(c) => ControlFunctionIsConsumed(c);
      }
      PiecesRun(pieces[1..]);
      RunInPieces(INITIAL, head, Spelled(pieces[1..]));
    }
  }

  /** Of a stream of text and control functions exactly the text becomes visible. */
  lemma {:induction false} ExactlyTheTextIsVisible(pieces: seq<Piece>)
    requires forall i :: 0 <= i < |pieces| ==> WellFormedPiece(pieces[i])
    ensures Sanitize(Spelled(pieces)) == TextOf(pieces)
  {
    PiecesRun(pieces);
  }

  // ---------------------------------------------------------------- the machine in place

  function Min(a: int, b: int): int { if a < b then a else b }

  /** A fixed buffer of 8 bytes; what does not fit is cut off. */
  class SanitizedChunk {
    const bytes: array<byte>
    var length: nat

    ghost predicate Valid()
      reads this
    {
      bytes.Length == CHUNK_BYTES && length <= CHUNK_BYTES
    }

    function Contents(): (s: seq<byte>)
      reads this, bytes
      requires Valid()
      ensures |s| == length
    {
      bytes[..length]
    }

    constructor ()
      ensures Valid() && Contents() == [] && fresh(bytes)
    {
      bytes := new byte[CHUNK_BYTES](_ => 0);
      length := 0;
    }

    method Append(content: seq<byte>)
      requires Valid()
      modifies this, bytes
      ensures Valid()
      ensures Contents() == old(Contents()) + content[..Min(|content|, CHUNK_BYTES - |old(Contents())|)]
    {
      var count := Min(|content|, CHUNK_BYTES - length);
      var i := 0;
      while i < count
        invariant 0 <= i <= count && length == old(length)
        invariant bytes[..length + i] == old(bytes[..length]) + content[..i]
      {
        bytes[length + i] := content[i];
        i := i + 1;
      }
      length := length + count;
    }

    method AppendReplacement()
      requires Valid()
      modifies this, bytes
      ensures Valid()
      ensures Contents() == old(Contents()) + REPLACEMENT[..Min(3, CHUNK_BYTES - |old(Contents())|)]
    {
      Append(REPLACEMENT);
    }
  }

  class TerminalSanitizer {
    var sequence: Sequence
    const utf8Bytes: array<byte>
    var utf8Length: nat
    var utf8Expected: nat
    var stringRemaining: nat
    var stringC2: bool

    ghost predicate Valid()
      reads this, utf8Bytes
    {
      && utf8Bytes.Length == UTF_MAX && utf8Length <= UTF_MAX && utf8Expected <= UTF_MAX
      && Carried(Abstract())
    }

    ghost function Abstract(): State
      reads this, utf8Bytes
      requires utf8Length <= utf8Bytes.Length
    {
      State(sequence, utf8Bytes[..utf8Length], utf8Expected, stringRemaining, stringC2)
    }

    constructor ()
      ensures Valid() && Abstract() == INITIAL && fresh(utf8Bytes)
    {
      sequence := Text;
      utf8Bytes := new byte[UTF_MAX](_ => 0);
      utf8Length, utf8Expected, stringRemaining, stringC2 := 0, 0, 0, false;
    }

    /** One byte.  The chunk always has room: it holds exactly what the byte makes visible. */
    method Accept(value: byte) returns (visible: SanitizedChunk)
      requires Valid()
      modifies this, utf8Bytes
      ensures Valid() && visible.Valid() && fresh(visible) && fresh(visible.bytes)
      ensures Abstract() == Step(old(Abstract()), value).0
      ensures visible.Contents() == Step(old(Abstract()), value).1
    {
      StepIsClean(Abstract(), value);
      visible := new SanitizedChunk();
      if sequence == Text {
        ConsumeText(value, visible);
      } else {
        ConsumeSequence(value);
      }
    }

    method Finish() returns (visible: SanitizedChunk)
      requires Valid()
      modifies this
      ensures Valid() && visible.Valid() && fresh(visible) && fresh(visible.bytes)
      ensures Abstract() == INITIAL
      ensures visible.Contents() == AtEnd(old(Abstract())).1
    {
      visible := new SanitizedChunk();
      if utf8Length != 0 {
        visible.AppendReplacement();
      }
      ResetUTF8();
      ResetSequenceFields();
    }

    method ConsumeText(value: byte, visible: SanitizedChunk)
      requires Valid() && sequence == Text && visible.Valid()
      requires {this, utf8Bytes} !! {visible, visible.bytes}
      requires |visible.Contents()| == 0
      modifies this, utf8Bytes, visible, visible.bytes
      ensures Valid() && visible.Valid()
      ensures Abstract() == AfterText(old(Abstract()), value).0
      ensures visible.Contents() == AfterText(old(Abstract()), value).1
    {
      ghost var before := Abstract();
      if utf8Length == 0 {
        ConsumeFreshText(value, visible);
      } else if value < 0x80 || value > 0xBF {
        visible.AppendReplacement();
        ResetUTF8();
        assert Abstract() == ResetUtf8(before);
        ConsumeFreshText(value, visible);
      } else {
        utf8Bytes[utf8Length] := value;
        utf8Length := utf8Length + 1;
        assert utf8Bytes[..utf8Length] == before.pending + [value];
        if utf8Length == utf8Expected {
          CompleteCharacter(before, visible);
        }
      }
    }

    /** A byte of text when no character is unfinished. */
    method ConsumeFreshText(value: byte, visible: SanitizedChunk)
      requires Valid() && sequence == Text && utf8Length == 0 && visible.Valid()
      requires {this, utf8Bytes} !! {visible, visible.bytes}
      requires |visible.Contents()| + 3 <= CHUNK_BYTES
      modifies this, utf8Bytes, visible, visible.bytes
      ensures Valid() && visible.Valid()
      ensures Abstract() == FreshText(old(Abstract()), value).0
      ensures visible.Contents() == old(visible.Contents()) + FreshText(old(Abstract()), value).1
    {
      if value < 0x80 {
        if value == ESC {
          sequence := Escape;
        } else {
          visible.Append([value]);
        }
      } else if value <= 0x9F {
        ConsumeC1(value);
      } else if Utf8SequenceLength(value) == 0 {
        visible.AppendReplacement();
      } else {
        utf8Bytes[0] := value;
        utf8Length := 1;
        utf8Expected := Utf8SequenceLength(value);
        assert utf8Bytes[..1] == [value];
      }
    }

    /** All bytes of a character are here. */
    method CompleteCharacter(ghost before: State, visible: SanitizedChunk)
      requires utf8Bytes.Length == UTF_MAX && 0 < utf8Length <= UTF_MAX && utf8Expected <= UTF_MAX
      requires Carried(before) && before.sequence == Text && before.pending != []
      requires Abstract() == before.(pending := utf8Bytes[..utf8Length])
      requires visible.Valid() && visible.bytes != utf8Bytes && |visible.Contents()| <= 2 && utf8Length <= 4
      modifies this, visible, visible.bytes
      ensures Valid() && visible.Valid()
      ensures Abstract() == FinishCharacter(before, old(utf8Bytes[..utf8Length])).0
      ensures visible.Contents() == old(visible.Contents()) + FinishCharacter(before, old(utf8Bytes[..utf8Length])).1
    {
      var content := utf8Bytes[..utf8Length];
      if !Utf8.Valid(content) {
        visible.AppendReplacement();
      } else {
        var character := CodePoint(content);
        if 0x80 <= character <= 0x9F {
          utf8Length, utf8Expected := 0, 0;
          ConsumeC1(character);
        } else {
          visible.Append(content);
        }
      }
      ResetUTF8();
    }

    method ConsumeC1(value: byte)
      requires Valid() && sequence == Text && utf8Length == 0 && 0x80 <= value <= 0x9F
      modifies this
      ensures Valid()
      ensures Abstract() == AfterC1(old(Abstract()), value)
    {
      if value in {0x90, 0x98, 0x9E, 0x9F} {
        sequence := ControlString;
        ResetControlStringUTF8();
      } else if value == 0x9B {
        sequence := Csi;
      } else if value == 0x9D {
        sequence := Osc;
        ResetControlStringUTF8();
      }
    }

    method ConsumeRawC1(value: byte)
      requires Valid() && sequence == Text && utf8Length == 0
      modifies this
      ensures Valid()
      ensures Abstract() == AfterRawC1(old(Abstract()), value)
    {
      if 0x80 <= value <= 0x9F {
        ConsumeC1(value);
      }
    }

    method ConsumeSequence(value: byte)
      requires Valid() && sequence != Text
      modifies this
      ensures Valid()
      ensures Abstract() == AfterSequence(old(Abstract()), value)
    {
      match sequence {
        case Text =>
        case Escape => ConsumeEscape(value);
        case EscapeIntermediate => ConsumeEscapeIntermediate(value);
        case Csi => ConsumeCSI(value);
        case Osc => ConsumeControlString(value, true, OscEscape);
        case ControlString => ConsumeControlString(value, false, StringEscape);
        case OscEscape => ConsumeStringEscape(value, true, Osc, OscEscape);
        case StringEscape => ConsumeStringEscape(value, false, ControlString, StringEscape);
      }
    }

    method ConsumeEscape(value: byte)
      requires Valid() && sequence == Escape
      modifies this
      ensures Valid()
      ensures Abstract() == AfterEscape(old(Abstract()), value)
    {
      if value == ESC {
      } else if value == '[' as int {
        sequence := Csi;
      } else if value == ']' as int {
        sequence := Osc;
        ResetControlStringUTF8();
      } else if value in {'P' as int, 'X' as int, '^' as int, '_' as int} {
        sequence := ControlString;
        ResetControlStringUTF8();
      } else if 0x20 <= value <= 0x2F {
        sequence := EscapeIntermediate;
      } else if 0x30 <= value <= 0x7E {
        sequence := Text;
      } else {
        sequence := Text;
        ConsumeRawC1(value);
      }
    }

    method ConsumeEscapeIntermediate(value: byte)
      requires Valid() && sequence == EscapeIntermediate
      modifies this
      ensures Valid()
      ensures Abstract() == AfterEscapeIntermediate(old(Abstract()), value)
    {
      if value == ESC {
        sequence := Escape;
      } else if 0x20 <= value <= 0x2F {
      } else if 0x30 <= value <= 0x7E {
        sequence := Text;
      } else {
        sequence := Text;
        ConsumeRawC1(value);
      }
    }

    method ConsumeCSI(value: byte)
      requires Valid() && sequence == Csi
      modifies this
      ensures Valid()
      ensures Abstract() == AfterCsi(old(Abstract()), value)
    {
      if value == ESC {
        sequence := Escape;
      } else if 0x20 <= value <= 0x3F {
      } else if 0x40 <= value <= 0x7E {
        sequence := Text;
      } else {
        sequence := Text;
        ConsumeRawC1(value);
      }
    }

    method ConsumeControlString(value: byte, allowBell: bool, escape: Sequence)
      requires Valid() && sequence in {Osc, ControlString} && escape in {OscEscape, StringEscape}
      modifies this
      ensures Valid()
      ensures Abstract() == AfterControlString(old(Abstract()), value, allowBell, escape)
    {
      if stringRemaining != 0 {
        if 0x80 <= value <= 0xBF {
          if stringC2 && stringRemaining == 1 && value == ST {
            ResetSequenceFields();
            return;
          }
          stringRemaining := stringRemaining - 1;
          if stringRemaining == 0 {
            stringC2 := false;
          }
          return;
        }
        ResetControlStringUTF8();
      }
      if value == ESC {
        sequence := escape;
        return;
      }
      if (allowBell && value == BEL) || value == ST {
        ResetSequenceFields();
        return;
      }
      var expected := Utf8SequenceLength(value);
      if expected != 0 {
        stringRemaining := expected - 1;
        stringC2 := value == 0xC2;
      }
    }

    method ConsumeStringEscape(value: byte, allowBell: bool, content: Sequence, escape: Sequence)
      requires Valid() && sequence in {OscEscape, StringEscape}
      requires content in {Osc, ControlString} && escape in {OscEscape, StringEscape}
      modifies this
      ensures Valid()
      ensures Abstract() == AfterStringEscape(old(Abstract()), value, allowBell, content, escape)
    {
      if value == '\\' as int {
        ResetSequenceFields();
        return;
      }
      if value == ESC {
        return;
      }
      sequence := content;
      ConsumeControlString(value, allowBell, escape);
    }

    method ResetUTF8()
      requires utf8Length <= utf8Bytes.Length
      modifies this`utf8Length, this`utf8Expected
      ensures utf8Length == utf8Expected == 0
    {
      utf8Length := 0;
      utf8Expected := 0;
    }

    method ResetControlStringUTF8()
      modifies this`stringRemaining, this`stringC2
      ensures stringRemaining == 0 && !stringC2
    {
      stringRemaining := 0;
      stringC2 := false;
    }

    method ResetSequenceFields()
      modifies this`sequence, this`stringRemaining, this`stringC2
      ensures sequence == Text && stringRemaining == 0 && !stringC2
    {
      sequence := Text;
      ResetControlStringUTF8();
    }
  }
}
