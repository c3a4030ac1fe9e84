/** The one final event of a run: diagnostics kept short and valid, and a codec that every final survives. */
module FinalEvents {
  import opened Sorting
  import opened Utf8
  import opened Wire
  import opened Wrappers

  const MAXIMUM_DIAGNOSTIC := 1024

  // ---------------------------------------------------------------- diagnostics

  /** Each run of bytes that are no characters becomes one replacement character. */
  function ToValid(s: seq<byte>, inRun: bool): seq<byte>
    decreases |s|
  {
    if s == [] then []
    else if ScalarLength(s) == 0 then (if inRun then [] else REPLACEMENT) + ToValid(s[1..], true)
    else s[..ScalarLength(s)] + ToValid(s[ScalarLength(s)..], false)
  }

  lemma CharacterIsValid(s: seq<byte>)
    requires ScalarLength(s) > 0
    ensures Valid(s[..ScalarLength(s)])
  {
    ScalarLengthOfPrefix(s, []);
    var c := s[..ScalarLength(s)];
    assert s + [] == s;
    assert c[ScalarLength(c)..] == [];
  }

  lemma {:induction false} RepairIsValid(s: seq<byte>, inRun: bool)
    ensures Valid(ToValid(s, inRun))
    decreases |s|
  {
    if s != [] {
      if ScalarLength(s) == 0 {
        RepairIsValid(s[1..], true);
        ReplacementIsValid();
        ValidConcat(REPLACEMENT, ToValid(s[1..], true));
        assert [] + ToValid(s[1..], true) == ToValid(s[1..], true);
      } else {
        RepairIsValid(s[ScalarLength(s)..], false);
        CharacterIsValid(s);
        ValidConcat(s[..ScalarLength(s)], ToValid(s[ScalarLength(s)..], false));
      }
    }
  }

  lemma {:induction false} RepairStep(s: seq<byte>, inRun: bool, n: nat)
    requires s != [] && n == ScalarLength(s) && Valid(s)
    ensures n > 0 && Valid(s[n..]) && ToValid(s, inRun) == s[..n] + ToValid(s[n..], false)
  {
  }

  lemma {:induction false} ValidNeedsNoRepair(s: seq<byte>, inRun: bool)
    requires Valid(s)
    ensures ToValid(s, inRun) == s
    decreases |s|
  {
    if s != [] {
      var n := ScalarLength(s);
      RepairStep(s, inRun, n);
      ValidNeedsNoRepair(s[n..], false);
      Rejoin(s, n);
    }
  }

  lemma Rejoin(s: seq<byte>, n: nat)
    requires n <= |s|
    ensures s[..n] + s[n..] == s
  {
  }

  lemma {:induction false} ToValidIsValid(s: seq<byte>, inRun: bool)
    ensures Valid(ToValid(s, inRun))
    ensures Valid(s) ==> ToValid(s, inRun) == s
  {
    RepairIsValid(s, inRun);
    if Valid(s) {
      ValidNeedsNoRepair(s, inRun);
    }
  }

  /** Where a cut at or before `limit` leaves valid text. */
  function CutAt(s: seq<byte>, limit: nat): (end: nat)
    requires limit <= |s|
    ensures end <= limit && Valid(s[..end])
    ensures forall e :: end < e <= limit ==> !Valid(s[..e])
  {
    if limit == 0 || Valid(s[..limit]) then
      assert s[..0] == [];
      limit
    else CutAt(s, limit - 1)
  }

  function Truncate(s: seq<byte>, limit: nat): (r: seq<byte>)
    ensures |r| <= limit
    ensures r <= s
  {
    if |s| <= limit then s else s[..CutAt(s, limit)]
  }

  method TruncateDiagnostic(s: seq<byte>, limit: nat) returns (r: seq<byte>)
    ensures r == Truncate(s, limit)
  {
    if |s| <= limit {
      return s;
    }
    var end := limit;
    while end > 0 && !Valid(s[..end])
      invariant 0 <= end <= limit && CutAt(s, end) == CutAt(s, limit)
    {
      end := end - 1;
    }
    r := s[..end];
  }

  lemma {:induction false} TruncateIsValid(s: seq<byte>, limit: nat)
    requires Valid(s)
    ensures Valid(Truncate(s, limit))
  {
  }

  /** A valid start of the text limits how much is cut off. */
  lemma {:induction false} CutReaches(s: seq<byte>, limit: nat, e: nat)
    requires e <= limit <= |s| && Valid(s[..e])
    ensures e <= CutAt(s, limit)
  {
  }

  lemma {:induction false} ValidStart(s: seq<byte>, n: nat, inner: nat)
    requires s != [] && Valid(s) && n == ScalarLength(s) && inner <= |s| - n && Valid(s[n..][..inner])
    ensures Valid(s[..n + inner])
  {
    CharacterIsValid(s);
    ValidConcat(s[..n], s[n..][..inner]);
    assert s[..n] + s[n..][..inner] == s[..n + inner];
  }

  /** Valid text has a cut within any four bytes. */
  lemma {:induction false} CutIsNear(s: seq<byte>, limit: nat)
    requires Valid(s) && limit <= |s|
    ensures limit < CutAt(s, limit) + 4
    decreases |s|
  {
    if s != [] {
      var n := ScalarLength(s);
      if limit >= n {
        var inner := CutAt(s[n..], limit - n);
        CutIsNear(s[n..], limit - n);
        ValidStart(s, n, inner);
        CutReaches(s, limit, n + inner);
      }
    }
  }

  /** Truncation keeps the longest valid start: it loses less than one character of room. */
  lemma {:induction false} TruncateKeepsMost(s: seq<byte>, limit: nat)
    requires Valid(s) && |s| > limit
    ensures limit < |Truncate(s, limit)| + 4
  {
    CutIsNear(s, limit);
  }

  function Normalize(s: seq<byte>): seq<byte> {
    Truncate(ToValid(s, false), MAXIMUM_DIAGNOSTIC)
  }

  lemma {:induction false} NormalizedIsShortAndValid(s: seq<byte>)
    ensures |Normalize(s)| <= MAXIMUM_DIAGNOSTIC && Valid(Normalize(s))
    ensures Valid(s) && |s| <= MAXIMUM_DIAGNOSTIC ==> Normalize(s) == s
  {
    ToValidIsValid(s, false);
    TruncateIsValid(ToValid(s, false), MAXIMUM_DIAGNOSTIC);
  }

  const SEPARATOR: seq<byte> := [0x3B, 0x20]

  /** How two texts that do not fit together share the room. */
  function Limits(left: nat, right: nat): (r: (nat, nat))
    requires left + 2 + right > MAXIMUM_DIAGNOSTIC
    ensures r.0 + r.1 == MAXIMUM_DIAGNOSTIC - 2
    ensures r.0 >= if left < 511 then left else 511
    ensures r.1 >= if right < 511 then right else 511
  {
    var budget := MAXIMUM_DIAGNOSTIC - 2;
    if left < budget / 2 then (left, budget - left)
    else if right < budget - budget / 2 then (budget - right, right)
    else (budget / 2, budget - budget / 2)
  }

  function Join(first: seq<byte>, second: seq<byte>): seq<byte> {
    var left, right := ToValid(first, false), ToValid(second, false);
    if left == [] then Truncate(right, MAXIMUM_DIAGNOSTIC)
    else if right == [] then Truncate(left, MAXIMUM_DIAGNOSTIC)
    else if |left| + 2 + |right| <= MAXIMUM_DIAGNOSTIC then left + SEPARATOR + right
    else
      var limits := Limits(|left|, |right|);
      Truncate(left, limits.0) + SEPARATOR + Truncate(right, limits.1)
  }

  /** A start of the text: all of it, or more than 507 bytes. */
  ghost predicate KeepsMost(part: seq<byte>, whole: seq<byte>) {
    part <= whole && Valid(part) && (part == whole || |part| > 507)
  }

  lemma {:induction false} TruncatedKeepsMost(s: seq<byte>, limit: nat)
    requires Valid(s) && limit >= (if |s| < 511 then |s| else 511)
    ensures KeepsMost(Truncate(s, limit), s)
  {
    TruncateIsValid(s, limit);
    if |s| > limit {
      TruncateKeepsMost(s, limit);
    }
  }

  /** Two texts that are there share the room: each keeps all of itself or about half. */
  lemma {:induction false} JoinKeepsBoth(left: seq<byte>, right: seq<byte>) returns (a: seq<byte>, b: seq<byte>)
    requires Valid(left) && Valid(right) && left != [] && right != []
    ensures Join(left, right) == a + SEPARATOR + b && KeepsMost(a, left) && KeepsMost(b, right)
  {
    ToValidIsValid(left, false);
    ToValidIsValid(right, false);
    if |left| + 2 + |right| <= MAXIMUM_DIAGNOSTIC {
      return left, right;
    }
    var limits := Limits(|left|, |right|);
    a, b := Truncate(left, limits.0), Truncate(right, limits.1);
    TruncatedKeepsMost(left, limits.0);
    TruncatedKeepsMost(right, limits.1);
  }

  /** A joined diagnostic is short and valid, whatever the two texts are. */
  lemma {:induction false} JoinIsShortAndValid(first: seq<byte>, second: seq<byte>)
    ensures |Join(first, second)| <= MAXIMUM_DIAGNOSTIC && Valid(Join(first, second))
  {
    var left, right := ToValid(first, false), ToValid(second, false);
    ToValidIsValid(first, false);
    ToValidIsValid(second, false);
    if left == [] || right == [] {
      TruncateIsValid(left, MAXIMUM_DIAGNOSTIC);
      TruncateIsValid(right, MAXIMUM_DIAGNOSTIC);
    } else if |left| + 2 + |right| <= MAXIMUM_DIAGNOSTIC {
      SeparatedIsValid(left, right);
    } else {
      var limits := Limits(|left|, |right|);
      TruncateIsValid(left, limits.0);
      TruncateIsValid(right, limits.1);
      SeparatedIsValid(Truncate(left, limits.0), Truncate(right, limits.1));
    }
  }

  lemma {:induction false} SeparatedIsValid(a: seq<byte>, b: seq<byte>)
    requires Valid(a) && Valid(b)
    ensures Valid(a + SEPARATOR + b)
  {
    assert SEPARATOR[1..] == [0x20] && [0x20 as byte][1..] == [];
    assert Valid(SEPARATOR[1..]);
    assert Valid(SEPARATOR);
    ValidConcat(SEPARATOR, b);
    ValidConcat(a, SEPARATOR + b);
    assert a + SEPARATOR + b == a + (SEPARATOR + b);
  }

  // ---------------------------------------------------------------- the final

  datatype SourceSummary = SourceSummary(followed: nat, ignored: nat, empty: nat, special: nat)

  datatype Final = Final(
    cancelled: bool, reason: byte, internalError: seq<byte>, runError: seq<byte>, cleanupError: seq<byte>,
    source: Option<SourceSummary>, transfers: seq<TransferResult>)

  const CANCEL_NONE: byte := 0
  const CANCEL_INTERNAL: byte := 5

  predicate ValidCancellation(reason: byte) {
    1 <= reason <= 5
  }

  predicate FitsIn64(s: SourceSummary) {
    s.followed < Pow256(8) && s.ignored < Pow256(8) && s.empty < Pow256(8) && s.special < Pow256(8)
  }

  predicate ValidDiagnostic(s: seq<byte>) {
    |s| <= MAXIMUM_DIAGNOSTIC && Valid(s)
  }

  /** The results are of the transfers 1 to n, each once, in any order. */
  predicate ValidTransfers(rs: seq<TransferResult>) {
    && |rs| <= MAXIMUM_TRANSFERS
    && (forall i :: 0 <= i < |rs| ==> ValidResult(rs[i]))
    && (forall i, j :: 0 <= i < j < |rs| ==> rs[i].transfer != rs[j].transfer)
    && (forall expected: nat :: 1 <= expected <= |rs| ==> HasTransfer(rs, expected))
  }

  predicate HasTransfer(rs: seq<TransferResult>, n: nat) {
    exists i :: 0 <= i < |rs| && rs[i].transfer == n
  }

  predicate ValidFinal(f: Final) {
    && f.cancelled == ValidCancellation(f.reason)
    && ValidDiagnostic(f.internalError) && ValidDiagnostic(f.runError) && ValidDiagnostic(f.cleanupError)
    && ValidTransfers(f.transfers)
  }

  predicate LowerTransfer(a: TransferResult, b: TransferResult) {
    a.transfer < b.transfer
  }

  function Ordered(f: Final): Final {
    f.(transfers := Sort(f.transfers, LowerTransfer))
  }

  function NormalizedFinal(f: Final): Final {
    f.(internalError := Normalize(f.internalError), runError := Normalize(f.runError), cleanupError := Normalize(f.cleanupError))
  }

  // ---------------------------------------------------------------- the codec

  function SummaryBytes(s: SourceSummary): (r: seq<byte>)
    ensures |r| == 32
  {
    BigEndian(s.followed, 8) + BigEndian(s.ignored, 8) + BigEndian(s.empty, 8) + BigEndian(s.special, 8)
  }

  function SourceBytes(source: Option<SourceSummary>): (r: seq<byte>)
    ensures |r| == 33
  {
    match source
    case Some(s) => [1] + SummaryBytes(s)
    case None => [0] + seq(32, i => 0)
  }

  function HeaderBytes(f: Final): (r: seq<byte>)
    ensures |r| == 41
  {
    [if f.cancelled then 1 else 0, f.reason] + BigEndian(|f.internalError|, 2) + BigEndian(|f.runError|, 2)
    + BigEndian(|f.cleanupError|, 2) + SourceBytes(f.source)
  }

  function ResultBytes(r: TransferResult): (s: seq<byte>)
    ensures |s| == 7
  {
    [r.transfer] + ResultFields(r)
  }

  function ResultsBytes(rs: seq<TransferResult>): (s: seq<byte>)
    ensures |s| == 7 * |rs|
  {
    if rs == [] then [] else ResultBytes(rs[0]) + ResultsBytes(rs[1..])
  }

  function Payload(f: Final): (s: seq<byte>)
    requires |f.transfers| <= MAXIMUM_TRANSFERS
    ensures |s| == 42 + |f.internalError| + |f.runError| + |f.cleanupError| + 7 * |f.transfers|
  {
    HeaderBytes(f) + f.internalError + f.runError + f.cleanupError + [|f.transfers|] + ResultsBytes(f.transfers)
  }

  function EncodeFinal(f: Final): Option<seq<byte>> {
    var normalized := NormalizedFinal(f);
    if !ValidFinal(normalized) then None
    else
      OrderedIsValid(normalized);
      Some(Payload(Ordered(normalized)))
  }

  function DecodeResults(payload: seq<byte>, count: nat): Option<seq<TransferResult>>
    requires |payload| == 7 * count
  {
    if count == 0 then Some([])
    else if !(1 <= payload[0] <= MAXIMUM_TRANSFERS) then None
    else
      var first := TransferResult(payload[0], Signed32(FromBigEndian(payload[1..5])), FromBigEndian(payload[5..7]));
      match DecodeResults(payload[7..], count - 1)
      case None => None
      case Some(rest) => Some([first] + rest)
  }

  /** The source summary as the decoder reads it from the payload. */
  function DecodeSource(payload: seq<byte>): Option<SourceSummary>
    requires |payload| >= 41
  {
    if payload[8] == 1 then
      Some(SourceSummary(FromBigEndian(payload[9..17]), FromBigEndian(payload[17..25]),
                         FromBigEndian(payload[25..33]), FromBigEndian(payload[33..41])))
    else None
  }

  /** The rest of the decoding once the three text sizes are known to fit. */
  function DecodeBody(payload: seq<byte>, a: nat, b: nat, c: nat): Option<Final>
    requires 42 + a + b + c <= |payload|
  {
    var count, offset := payload[41 + a + b + c], 42 + a + b + c;
    if count > MAXIMUM_TRANSFERS || |payload| != offset + 7 * count || payload[0] > 1 then None
    else
      match DecodeResults(payload[offset..], count)
      case None => None
      case Some(results) =>
        var f := Final.Final(payload[0] == 1, payload[1], payload[41..41 + a], payload[41 + a..41 + a + b],
                             payload[41 + a + b..41 + a + b + c], DecodeSource(payload), results);
        if ValidFinal(f) then Some(Ordered(f)) else None
  }

  function DecodeFinal(payload: seq<byte>): Option<Final> {
    if |payload| < 42 then None
    else
      var a, b, c := FromBigEndian(payload[2..4]), FromBigEndian(payload[4..6]), FromBigEndian(payload[6..8]);
      if a > MAXIMUM_DIAGNOSTIC || b > MAXIMUM_DIAGNOSTIC || c > MAXIMUM_DIAGNOSTIC || 42 + a + b + c > |payload|
         || payload[8] > 1 then None
      else DecodeBody(payload, a, b, c)
  }

  // ---------------------------------------------------------------- ordering

  lemma LowerTransferIsAnOrder()
    ensures StrictWeakOrder(LowerTransfer)
  {
  }

  /** Ordering the transfers keeps a final valid, and puts transfer k at place k. */
  lemma OrderedIsValid(f: Final)
    requires ValidFinal(f)
    ensures ValidFinal(Ordered(f)) && |Ordered(f).transfers| == |f.transfers|
    ensures StrictlyOrdered(Ordered(f).transfers)
  {
    var sorted := Sort(f.transfers, LowerTransfer);
    LowerTransferIsAnOrder();
    SortSorts(f.transfers, LowerTransfer);
    SortKeepsElements(f.transfers, LowerTransfer);
    RearrangedIsValid(f.transfers, sorted);
    DistinctAndSorted(sorted);
  }

  ghost predicate StrictlyOrdered(rs: seq<TransferResult>) {
    forall i, j :: 0 <= i < j < |rs| ==> rs[i].transfer < rs[j].transfer
  }

  lemma DistinctAndSorted(rs: seq<TransferResult>)
    requires Sorted(rs, LowerTransfer) && forall i, j :: 0 <= i < j < |rs| ==> rs[i].transfer != rs[j].transfer
    ensures StrictlyOrdered(rs)
  {
    forall i, j | 0 <= i < j < |rs| ensures rs[i].transfer < rs[j].transfer {
      assert !LowerTransfer(rs[j], rs[i]);
    }
  }

  lemma RearrangedIsValid(a: seq<TransferResult>, b: seq<TransferResult>)
    requires ValidTransfers(a) && multiset(a) == multiset(b) && |a| == |b|
    ensures ValidTransfers(b)
  {
    forall x ensures x in a <==> x in b {
      assert x in multiset(a) <==> x in multiset(b);
    }
    forall i | 0 <= i < |b| ensures ValidResult(b[i]) {
      assert b[i] in b;
    }
    forall expected: nat | 1 <= expected <= |b| ensures HasTransfer(b, expected) {
      assert HasTransfer(a, expected);
      var k :| 0 <= k < |a| && a[k].transfer == expected;
      assert a[k] in b;
    }
    forall i, j | 0 <= i < j < |b| ensures b[i].transfer != b[j].transfer {
      NumbersStayDistinct(a, b, i, j);
    }
  }

  lemma NumbersStayDistinct(a: seq<TransferResult>, b: seq<TransferResult>, i: nat, j: nat)
    requires ValidTransfers(a) && multiset(a) == multiset(b) && i < j < |b|
    ensures b[i].transfer != b[j].transfer
  {
    assert b[i] in multiset(b) && b[j] in multiset(b);
    var k :| 0 <= k < |a| && a[k] == b[i];
    var l :| 0 <= l < |a| && a[l] == b[j];
    if b[i].transfer == b[j].transfer {
      OnceOnly(a, k);
      TwiceAtLeast(b, i, j);
    }
  }

  lemma OnceOnly(a: seq<TransferResult>, k: nat)
    requires ValidTransfers(a) && k < |a|
    ensures multiset(a)[a[k]] <= 1
  {
    var before, after := a[..k], a[k + 1..];
    assert a == before + [a[k]] + after;
    forall x | x in before ensures x != a[k] {
      var i :| 0 <= i < k && before[i] == x;
    }
    forall x | x in after ensures x != a[k] {
      var i :| 0 <= i < |after| && after[i] == x;
      assert a[k + 1 + i] == x;
    }
    assert a[k] !in multiset(before) && a[k] !in multiset(after);
  }

  lemma TwiceAtLeast(b: seq<TransferResult>, i: nat, j: nat)
    requires i < j < |b|
    ensures b[i] == b[j] ==> multiset(b)[b[i]] >= 2
  {
    var first, rest := b[..i + 1], b[i + 1..];
    assert b == first + rest;
    assert first[i] == b[i] && rest[j - i - 1] == b[j];
    assert b[i] in multiset(first) && b[j] in multiset(rest);
  }

  lemma {:induction false} SortOfOrdered(rs: seq<TransferResult>)
    requires StrictlyOrdered(rs)
    ensures Sort(rs, LowerTransfer) == rs
  {
    if rs != [] {
      SortOfOrdered(rs[1..]);
      assert rs == [rs[0]] + rs[1..];
      if rs[1..] != [] {
        assert LowerTransfer(rs[0], rs[1]);
      }
    }
  }

  // ---------------------------------------------------------------- decoding what was encoded

  lemma FirstResult(r: TransferResult, rest: seq<byte>)
    requires ValidResult(r)
    ensures var bytes := ResultBytes(r) + rest;
            && bytes[0] == r.transfer && Signed32(FromBigEndian(bytes[1..5])) == r.exitCode
            && FromBigEndian(bytes[5..7]) == r.signal && bytes[7..] == rest
  {
    var bytes := ResultBytes(r) + rest;
    ResultFieldsRoundTrip(r);
    assert bytes[1..5] == ResultFields(r)[..4];
    assert bytes[5..7] == ResultFields(r)[4..];
  }

  lemma {:induction false} ResultsRoundTrip(rs: seq<TransferResult>)
    requires forall i :: 0 <= i < |rs| ==> ValidResult(rs[i])
    ensures DecodeResults(ResultsBytes(rs), |rs|) == Some(rs)
  {
    if rs != [] {
      ResultsRoundTrip(rs[1..]);
      FirstResult(rs[0], ResultsBytes(rs[1..]));
      assert rs == [rs[0]] + rs[1..];
    }
  }

  /** The parts of a payload stand where the decoder looks for them. */
  lemma PayloadParts(f: Final, header: seq<byte>, rest: seq<byte>, payload: seq<byte>)
    requires |header| == 41 && payload == header + f.internalError + f.runError + f.cleanupError + rest
    ensures payload[..41] == header
    ensures var a, b, c := |f.internalError|, |f.runError|, |f.cleanupError|;
            && payload[41..41 + a] == f.internalError && payload[41 + a..41 + a + b] == f.runError
            && payload[41 + a + b..41 + a + b + c] == f.cleanupError && payload[41 + a + b + c..] == rest
  {
  }

  lemma HeaderParts(f: Final)
    requires |f.internalError| <= MAXIMUM_DIAGNOSTIC && |f.runError| <= MAXIMUM_DIAGNOSTIC
             && |f.cleanupError| <= MAXIMUM_DIAGNOSTIC
    ensures var h := HeaderBytes(f);
            && FromBigEndian(h[2..4]) == |f.internalError| && FromBigEndian(h[4..6]) == |f.runError|
            && FromBigEndian(h[6..8]) == |f.cleanupError|
            && h[0] == (if f.cancelled then 1 else 0) && h[1] == f.reason && h[8..41] == SourceBytes(f.source)
  {
    var h := HeaderBytes(f);
    Widths();
    BigEndianRoundTrip(|f.internalError|, 2);
    BigEndianRoundTrip(|f.runError|, 2);
    BigEndianRoundTrip(|f.cleanupError|, 2);
    assert h[2..4] == BigEndian(|f.internalError|, 2);
    assert h[4..6] == BigEndian(|f.runError|, 2);
    assert h[6..8] == BigEndian(|f.cleanupError|, 2);
    assert h[8..41] == SourceBytes(f.source);
  }

  lemma SummaryParts(s: SourceSummary)
    requires FitsIn64(s)
    ensures var b := SummaryBytes(s);
            && FromBigEndian(b[..8]) == s.followed && FromBigEndian(b[8..16]) == s.ignored
            && FromBigEndian(b[16..24]) == s.empty && FromBigEndian(b[24..]) == s.special
  {
    var b := SummaryBytes(s);
    BigEndianRoundTrip(s.followed, 8);
    BigEndianRoundTrip(s.ignored, 8);
    BigEndianRoundTrip(s.empty, 8);
    BigEndianRoundTrip(s.special, 8);
    assert b[..8] == BigEndian(s.followed, 8) && b[8..16] == BigEndian(s.ignored, 8);
    assert b[16..24] == BigEndian(s.empty, 8) && b[24..] == BigEndian(s.special, 8);
  }

  lemma NestedSlice(payload: seq<byte>, i: nat, j: nat)
    requires i <= j <= 32 && |payload| >= 41
    ensures payload[8..41][1..][i..j] == payload[9 + i..9 + j]
  {
    assert payload[8..41][1..] == payload[9..41];
    SliceOfSlice(payload, 9, 41, i, j);
  }

  lemma SliceOfSlice<T>(s: seq<T>, a: nat, b: nat, i: nat, j: nat)
    requires a <= b <= |s| && i <= j <= b - a
    ensures s[a..b][i..j] == s[a + i..a + j]
  {
    var inner, outer := s[a..b][i..j], s[a + i..a + j];
    assert forall k :: 0 <= k < j - i ==> inner[k] == s[a..b][i + k];
  }

  lemma SourceRoundTrip(source: Option<SourceSummary>, payload: seq<byte>)
    requires (source.Some? ==> FitsIn64(source.value)) && |payload| >= 41 && payload[8..41] == SourceBytes(source)
    ensures DecodeSource(payload) == source && payload[8] <= 1
  {
    assert payload[8] == payload[8..41][0];
    if source.Some? {
      SummaryParts(source.value);
      var b := SummaryBytes(source.value);
      assert payload[8..41][1..] == b;
      NestedSlice(payload, 0, 8);
      NestedSlice(payload, 8, 16);
      NestedSlice(payload, 16, 24);
      NestedSlice(payload, 24, 32);
      assert b[0..8] == b[..8] && b[24..32] == b[24..];
    }
  }

  /** What the decoder reads from the header of a payload. */
  lemma HeaderRoundTrip(f: Final, payload: seq<byte>)
    requires ValidFinal(f) && (f.source.Some? ==> FitsIn64(f.source.value))
    requires |payload| >= 42 && payload[..41] == HeaderBytes(f)
    ensures FromBigEndian(payload[2..4]) == |f.internalError| && FromBigEndian(payload[4..6]) == |f.runError|
    ensures FromBigEndian(payload[6..8]) == |f.cleanupError|
    ensures payload[0] == (if f.cancelled then 1 else 0) && payload[1] == f.reason
    ensures DecodeSource(payload) == f.source && payload[8] <= 1
  {
    HeaderParts(f);
    assert payload[2..4] == payload[..41][2..4] && payload[4..6] == payload[..41][4..6] && payload[6..8] == payload[..41][6..8];
    assert payload[0] == payload[..41][0] && payload[1] == payload[..41][1];
    assert payload[8..41] == payload[..41][8..41];
    SourceRoundTrip(f.source, payload);
  }

  /** What stands behind the texts: the number of results and the results. */
  lemma {:induction false} CountAndResults(payload: seq<byte>, at: nat, rs: seq<TransferResult>)
    requires |rs| <= MAXIMUM_TRANSFERS && at <= |payload| && payload[at..] == [|rs|] + ResultsBytes(rs)
    ensures at < |payload| && payload[at] == |rs| && payload[at + 1..] == ResultsBytes(rs)
  {
    assert payload[at] == payload[at..][0];
    assert payload[at + 1..] == payload[at..][1..];
  }

  /** The decoder's body on a payload whose parts are known. */
  lemma BodyOfParts(f: Final, payload: seq<byte>, a: nat, b: nat, c: nat)
    requires ValidFinal(f) && Sort(f.transfers, LowerTransfer) == f.transfers
    requires |payload| == 42 + a + b + c + 7 * |f.transfers| && payload[41 + a + b + c] == |f.transfers|
    requires payload[0] == (if f.cancelled then 1 else 0) && payload[1] == f.reason && DecodeSource(payload) == f.source
    requires payload[41..41 + a] == f.internalError && payload[41 + a..41 + a + b] == f.runError
    requires payload[41 + a + b..41 + a + b + c] == f.cleanupError
    requires DecodeResults(payload[42 + a + b + c..], |f.transfers|) == Some(f.transfers)
    ensures DecodeBody(payload, a, b, c) == Some(f)
  {
    OrderedAlready(f);
    BodyFinal(payload, f, a, b, c);
  }

  lemma OrderedAlready(f: Final)
    requires Sort(f.transfers, LowerTransfer) == f.transfers
    ensures Ordered(f) == f
  {
  }

  /** The final read off a payload before it is checked. */
  lemma BodyFinal(payload: seq<byte>, f: Final, a: nat, b: nat, c: nat)
    requires 42 + a + b + c <= |payload|
    requires payload[0] == (if f.cancelled then 1 else 0) && payload[1] == f.reason && DecodeSource(payload) == f.source
    requires payload[41..41 + a] == f.internalError && payload[41 + a..41 + a + b] == f.runError
    requires payload[41 + a + b..41 + a + b + c] == f.cleanupError
    ensures Final.Final(payload[0] == 1, payload[1], payload[41..41 + a], payload[41 + a..41 + a + b],
                        payload[41 + a + b..41 + a + b + c], DecodeSource(payload), f.transfers) == f
  {
  }

  /** The payload shows the final at the places the decoder reads, its texts of lengths a, b and c. */
  ghost predicate LaidOut(payload: seq<byte>, f: Final, a: nat, b: nat, c: nat) {
    && 42 + a + b + c <= |payload|
    && FromBigEndian(payload[2..4]) == a && FromBigEndian(payload[4..6]) == b && FromBigEndian(payload[6..8]) == c
    && payload[0] == (if f.cancelled then 1 else 0) && payload[1] == f.reason
    && DecodeSource(payload) == f.source && payload[8] <= 1
    && payload[41..41 + a] == f.internalError && payload[41 + a..41 + a + b] == f.runError
    && payload[41 + a + b..41 + a + b + c] == f.cleanupError
    && payload[41 + a + b + c..] == [|f.transfers|] + ResultsBytes(f.transfers)
  }

  lemma PayloadIsLaidOut(f: Final)
    requires ValidFinal(f) && (f.source.Some? ==> FitsIn64(f.source.value))
    ensures LaidOut(Payload(f), f, |f.internalError|, |f.runError|, |f.cleanupError|)
  {
    var payload := Payload(f);
    var rest := [|f.transfers|] + ResultsBytes(f.transfers);
    assert payload == HeaderBytes(f) + f.internalError + f.runError + f.cleanupError + rest;
    PayloadParts(f, HeaderBytes(f), rest, payload);
    HeaderRoundTrip(f, payload);
  }

  lemma LaidOutResults(f: Final, payload: seq<byte>, at: nat, next: nat)
    requires ValidFinal(f) && at <= |payload| && payload[at..] == [|f.transfers|] + ResultsBytes(f.transfers) && next == at + 1
    ensures |payload| == next + 7 * |f.transfers| && payload[at] == |f.transfers|
    ensures DecodeResults(payload[next..], |f.transfers|) == Some(f.transfers)
  {
    CountAndResults(payload, at, f.transfers);
    ResultsRoundTrip(f.transfers);
  }

  lemma LaidOutDecodes(f: Final, payload: seq<byte>, a: nat, b: nat, c: nat)
    requires ValidFinal(f) && StrictlyOrdered(f.transfers) && LaidOut(payload, f, a, b, c)
    requires a <= MAXIMUM_DIAGNOSTIC && b <= MAXIMUM_DIAGNOSTIC && c <= MAXIMUM_DIAGNOSTIC
    ensures DecodeFinal(payload) == Some(f)
  {
    LaidOutSizes(f, payload, a, b, c);
    LaidOutBody(f, payload, a, b, c);
  }

  lemma LaidOutSizes(f: Final, payload: seq<byte>, a: nat, b: nat, c: nat)
    requires LaidOut(payload, f, a, b, c)
    requires a <= MAXIMUM_DIAGNOSTIC && b <= MAXIMUM_DIAGNOSTIC && c <= MAXIMUM_DIAGNOSTIC
    ensures DecodeFinal(payload) == DecodeBody(payload, a, b, c)
  {
  }

  lemma LaidOutBody(f: Final, payload: seq<byte>, a: nat, b: nat, c: nat)
    requires ValidFinal(f) && StrictlyOrdered(f.transfers) && LaidOut(payload, f, a, b, c)
    ensures DecodeBody(payload, a, b, c) == Some(f)
  {
    LaidOutResults(f, payload, 41 + a + b + c, 42 + a + b + c);
    SortOfOrdered(f.transfers);
    BodyOfParts(f, payload, a, b, c);
  }

  /** Every valid ordered final survives its payload. */
  lemma PayloadRoundTrip(f: Final)
    requires ValidFinal(f) && StrictlyOrdered(f.transfers) && (f.source.Some? ==> FitsIn64(f.source.value))
    ensures DecodeFinal(Payload(f)) == Some(f)
  {
    PayloadIsLaidOut(f);
    LaidOutDecodes(f, Payload(f), |f.internalError|, |f.runError|, |f.cleanupError|);
  }

  /** Decoding an encoded final gives it back with short valid diagnostics and its transfers in order. */
  lemma {:induction false} FinalRoundTrip(f: Final)
    requires EncodeFinal(f).Some? && (f.source.Some? ==> FitsIn64(f.source.value))
    ensures DecodeFinal(EncodeFinal(f).value) == Some(Ordered(NormalizedFinal(f)))
  {
    OrderedIsValid(NormalizedFinal(f));
    PayloadRoundTrip(Ordered(NormalizedFinal(f)));
  }

  /** Every encodable final fits one pipe-atomic frame with room to spare. */
  lemma FinalFitsOneFrame(f: Final)
    requires EncodeFinal(f).Some?
    ensures |EncodeFinal(f).value| <= 42 + 3 * MAXIMUM_DIAGNOSTIC + 7 * MAXIMUM_TRANSFERS
    ensures |EncodeFinal(f).value| <= MAXIMUM_EVENT_PAYLOAD
  {
    OrderedIsValid(NormalizedFinal(f));
  }

  // ---------------------------------------------------------------- the fallback

  /** The first valid result of a transfer. */
  function FirstValid(rs: seq<TransferResult>, n: nat): (r: Option<TransferResult>)
    ensures r.Some? ==> ValidResult(r.value) && r.value.transfer == n
  {
    if rs == [] then None
    else
      var earlier := FirstValid(rs[..|rs| - 1], n);
      var last := rs[|rs| - 1];
      if earlier.Some? then earlier else if ValidResult(last) && last.transfer == n then Some(last) else None
  }

  /** The transfers from `n` on as long as each has a valid result. */
  function Leading(rs: seq<TransferResult>, n: nat): seq<TransferResult>
    decreases MAXIMUM_TRANSFERS + 1 - n
  {
    if n > MAXIMUM_TRANSFERS || FirstValid(rs, n).None? then []
    else [FirstValid(rs, n).value] + Leading(rs, n + 1)
  }

  function Fallback(f: Final, problem: seq<byte>): Final {
    Final.Final(f.cancelled,
                if !f.cancelled then CANCEL_NONE else if ValidCancellation(f.reason) then f.reason else CANCEL_INTERNAL,
                Join(f.internalError, problem), Normalize(f.runError), Normalize(f.cleanupError), f.source,
                Leading(f.transfers, 1))
  }

  lemma {:induction false} LeadingNumbers(rs: seq<TransferResult>, n: nat)
    requires 1 <= n <= MAXIMUM_TRANSFERS + 1
    ensures |Leading(rs, n)| <= MAXIMUM_TRANSFERS + 1 - n
    ensures forall i :: 0 <= i < |Leading(rs, n)| ==> Leading(rs, n)[i].transfer == n + i && ValidResult(Leading(rs, n)[i])
    decreases MAXIMUM_TRANSFERS + 1 - n
  {
    if n <= MAXIMUM_TRANSFERS && FirstValid(rs, n).Some? {
      LeadingNumbers(rs, n + 1);
    }
  }

  /** The fallback of any final whatsoever can be encoded. */
  lemma FallbackIsEncodable(f: Final, problem: seq<byte>)
    ensures ValidFinal(Fallback(f, problem)) && EncodeFinal(Fallback(f, problem)).Some?
  {
    var g := Fallback(f, problem);
    JoinIsShortAndValid(f.internalError, problem);
    NormalizedIsShortAndValid(f.runError);
    NormalizedIsShortAndValid(f.cleanupError);
    NormalizedIsShortAndValid(g.internalError);
    NormalizedIsShortAndValid(g.runError);
    NormalizedIsShortAndValid(g.cleanupError);
    LeadingNumbers(f.transfers, 1);
    forall expected: nat | 1 <= expected <= |g.transfers| ensures HasTransfer(g.transfers, expected) {
      assert g.transfers[expected - 1].transfer == expected;
    }
  }

  /** The fallback keeps every result of valid transfers, in order, whatever order they came in. */
  lemma {:induction false} FallbackKeepsResults(rs: seq<TransferResult>)
    requires ValidTransfers(rs)
    ensures Leading(rs, 1) == Sort(rs, LowerTransfer)
  {
    var sorted := Sort(rs, LowerTransfer);
    LowerTransferIsAnOrder();
    SortSorts(rs, LowerTransfer);
    SortKeepsElements(rs, LowerTransfer);
    RearrangedIsValid(rs, sorted);
    DistinctAndSorted(sorted);
    NumbersInPlace(sorted, |sorted|);
    LeadingIsOrdered(rs, sorted, 1);
    assert sorted[0..] == sorted;
  }

  /** In order, the results are of transfers 1, 2 and so on. */
  lemma {:induction false} NumbersInPlace(sorted: seq<TransferResult>, n: nat)
    requires ValidTransfers(sorted) && StrictlyOrdered(sorted) && n <= |sorted|
    ensures forall i :: 0 <= i < n ==> sorted[i].transfer == i + 1
  {
    if n > 0 {
      NumbersInPlace(sorted, n - 1);
      assert HasTransfer(sorted, n);
      var k :| 0 <= k < |sorted| && sorted[k].transfer == n;
      assert ValidResult(sorted[n - 1]) && (n >= 2 ==> sorted[n - 2].transfer < sorted[n - 1].transfer);
    }
  }

  lemma {:induction false} LeadingIsOrdered(rs: seq<TransferResult>, sorted: seq<TransferResult>, n: nat)
    requires ValidTransfers(rs) && multiset(rs) == multiset(sorted) && |sorted| == |rs| && 1 <= n <= |rs| + 1
    requires forall i :: 0 <= i < |sorted| ==> sorted[i].transfer == i + 1
    ensures Leading(rs, n) == sorted[n - 1..]
    decreases |rs| + 1 - n
  {
    FirstValidIsMember(rs, n);
    NumbersWithin(rs, sorted);
    if n <= |rs| {
      assert sorted[n - 1] in multiset(rs);
      var k :| 0 <= k < |rs| && rs[k] == sorted[n - 1];
      FirstValidFinds(rs, k);
      LeadingIsOrdered(rs, sorted, n + 1);
      assert sorted[n - 1..] == [sorted[n - 1]] + sorted[n..];
    }
  }

  lemma NumbersWithin(rs: seq<TransferResult>, sorted: seq<TransferResult>)
    requires multiset(rs) == multiset(sorted) && forall i :: 0 <= i < |sorted| ==> sorted[i].transfer == i + 1
    ensures forall x :: x in rs ==> x.transfer <= |sorted|
  {
    forall x | x in rs ensures x.transfer <= |sorted| {
      assert x in multiset(sorted);
      var k :| 0 <= k < |sorted| && sorted[k] == x;
    }
  }

  lemma {:induction false} FirstValidIsMember(rs: seq<TransferResult>, n: nat)
    ensures FirstValid(rs, n).Some? ==> FirstValid(rs, n).value in rs
  {
    if rs != [] {
      FirstValidIsMember(rs[..|rs| - 1], n);
    }
  }

  lemma {:induction false} FirstValidFinds(rs: seq<TransferResult>, k: nat)
    requires (forall i :: 0 <= i < |rs| ==> ValidResult(rs[i])) && k < |rs|
    requires forall i, j :: 0 <= i < j < |rs| ==> rs[i].transfer != rs[j].transfer
    ensures FirstValid(rs, rs[k].transfer) == Some(rs[k])
  {
    var before := rs[..|rs| - 1];
    if k < |rs| - 1 {
      FirstValidFinds(before, k);
    } else {
      FirstValidIsMember(before, rs[k].transfer);
    }
  }

  /** `valid` holds the first valid result of each transfer. */
  ghost predicate HoldsFirst(valid: map<nat, TransferResult>, rs: seq<TransferResult>) {
    && (forall n :: n in valid ==> 1 <= n <= MAXIMUM_TRANSFERS)
    && (forall n: nat :: FirstValid(rs, n) == if n in valid then Some(valid[n]) else None)
  }

  method FirstValidResults(rs: seq<TransferResult>) returns (valid: map<nat, TransferResult>)
    ensures HoldsFirst(valid, rs)
  {
    valid := map[];
    var index := 0;
    while index < |rs|
      invariant 0 <= index <= |rs| && HoldsFirst(valid, rs[..index])
    {
      var result := rs[index];
      assert rs[..index + 1][..index] == rs[..index];
      if |valid| == MAXIMUM_TRANSFERS {
        FullMap(valid, MAXIMUM_TRANSFERS);
      }
      if |valid| != MAXIMUM_TRANSFERS && ValidResult(result) && result.transfer !in valid {
        valid := valid[result.transfer := result];
      }
      index := index + 1;
    }
    assert rs[..index] == rs;
  }

  method LeadingResults(rs: seq<TransferResult>, valid: map<nat, TransferResult>) returns (transfers: seq<TransferResult>)
    requires HoldsFirst(valid, rs)
    ensures transfers == Leading(rs, 1)
  {
    transfers := [];
    var expected := 1;
    while expected <= MAXIMUM_TRANSFERS && expected in valid
      invariant 1 <= expected <= MAXIMUM_TRANSFERS + 1
      invariant transfers + Leading(rs, expected) == Leading(rs, 1)
    {
      transfers := transfers + [valid[expected]];
      expected := expected + 1;
    }
  }

  method FinalEncodingFallback(f: Final, problem: seq<byte>) returns (g: Final)
    ensures g == Fallback(f, problem)
  {
    var valid := FirstValidResults(f.transfers);
    var transfers := LeadingResults(f.transfers, valid);
    g := Final.Final(f.cancelled,
                     if !f.cancelled then CANCEL_NONE else if ValidCancellation(f.reason) then f.reason else CANCEL_INTERNAL,
                     Join(f.internalError, problem), Normalize(f.runError), Normalize(f.cleanupError), f.source, transfers);
  }

  /** A map from numbers 1 to n that has n entries has them all. */
  lemma FullMap(m: map<nat, TransferResult>, n: nat)
    requires |m| == n && forall k :: k in m ==> 1 <= k <= n
    ensures forall k :: 1 <= k <= n ==> k in m
  {
    NumbersUpTo(n);
    assert m.Keys <= UpTo(n);
    if m.Keys != UpTo(n) {
      var k :| k in UpTo(n) && k !in m.Keys;
      assert m.Keys <= UpTo(n) - {k};
      SubsetSize(m.Keys, UpTo(n) - {k});
    }
  }

  function UpTo(n: nat): set<nat> {
    if n == 0 then {} else UpTo(n - 1) + {n}
  }

  lemma {:induction false} NumbersUpTo(n: nat)
    ensures |UpTo(n)| == n && forall k :: k in UpTo(n) <==> 1 <= k <= n
  {
    if n > 0 {
      NumbersUpTo(n - 1);
    }
  }

  lemma SubsetSize(a: set<nat>, b: set<nat>)
    requires a <= b
    ensures |a| <= |b|
  {
    assert b == a + (b - a);
  }
}
