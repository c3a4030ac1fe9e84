/**
  The leases of a host-network session: closing waits until every borrowed namespace is given back, under
  every interleaving of borrowers and of any number of concurrent Close calls.
*/
module LeaseDraining {
  import opened Wrappers

  /** The session fields under its mutex; `drains` counts how often the drained channel was closed. */
  datatype Gate = Gate(leases: int, closing: bool, closed: bool, drains: nat, rootCloses: nat)

  const FRESH: Gate := Gate(0, false, false, 0, 0)

  function Opened(g: Gate, lent: bool): Gate {
    if lent && !g.closing && !g.closed then g.(leases := g.leases + 1) else g
  }

  function GivenBack(g: Gate): Gate {
    var left := g.leases - 1;
    g.(leases := left, drains := if g.closing && left == 0 && g.drains == 0 then 1 else g.drains)
  }

  function Begun(g: Gate): Gate {
    if g.closing then g else g.(closing := true, drains := if g.leases == 0 then g.drains + 1 else g.drains)
  }

  function Ended(g: Gate): Gate {
    if g.closed then g else g.(closed := true, rootCloses := g.rootCloses + 1)
  }

  /** The session object; every method is one critical section of its mutex. */
  class Session {
    var leases: int
    var closing: bool
    var closed: bool
    var drains: nat
    var rootCloses: nat

    ghost function Value(): Gate
      reads this
    {
      Gate(leases, closing, closed, drains, rootCloses)
    }

    constructor ()
      ensures Value() == FRESH
    {
      leases, closing, closed, drains, rootCloses := 0, false, false, 0, 0;
    }

    /** Lends a namespace of a known transfer whose descriptor could be duplicated, unless closing has begun. */
    method OpenNamespace(known: bool, duplicated: bool) returns (lent: bool)
      modifies this
      ensures lent <==> known && duplicated && !old(closing) && !old(closed)
      ensures Value() == Opened(old(Value()), known && duplicated)
    {
      if closing || closed {
        return false;
      }
      if !known || !duplicated {
        return false;
      }
      leases := leases + 1;
      lent := true;
    }

    method ReleaseLease()
      modifies this
      ensures Value() == GivenBack(old(Value()))
    {
      leases := leases - 1;
      if closing && leases == 0 {
        if drains == 0 {
          drains := drains + 1;
        }
      }
    }

    method BeginClose()
      modifies this
      ensures Value() == Begun(old(Value()))
    {
      if !closing {
        closing := true;
        if leases == 0 {
          drains := drains + 1;
        }
      }
    }

    method FinishClose()
      modifies this
      ensures Value() == Ended(old(Value()))
    {
      if closed {
        return;
      }
      closed := true;
      rootCloses := rootCloses + 1;
    }
  }

  // ---------------------------------------------------------------- all interleavings

  /** A lease: its descriptor open, closed but not yet counted, or given back. */
  datatype Lease = Borrowed | DescriptorClosed | Returned

  /** One Close call. */
  datatype Closer =
    | Entering
    | WaitingForDrain
    | WaitingForTurn
    | Looking
    | Removing
    | ClosingFiles
    | Finishing
    | Over(ok: bool)

  datatype State = State(gate: Gate, leases: seq<Lease>, closers: seq<Closer>, turn: Option<nat>, removals: nat, fileCloses: nat)

  const INITIAL: State := State(FRESH, [], [], None, 0, 0)

  datatype Step =
    | Borrow(lendable: bool)
    | CloseDescriptor(lease: nat)
    | CountReturn(lease: nat)
    | CallClose
    | Begin(closer: nat)
    | SeeDrained(closer: nat)
    // the caller's context ends
    | GiveUp(closer: nat)
    | TakeTurn(closer: nat)
    | Look(closer: nat)
    // host objects and evidence of the run are removed, or that fails
    | Remove(closer: nat, ok: bool)
    | CloseFiles(closer: nat)
    | Finish(closer: nat)

  predicate InTurn(c: Closer) {
    c == Looking || c == Removing || c == ClosingFiles || c == Finishing
  }

  function ApplyLease(s: State, step: Step): Option<State> {
    match step
    case Borrow(lendable) =>
      var lent := lendable && !s.gate.closing && !s.gate.closed;
      Some(s.(gate := Opened(s.gate, lendable), leases := if lent then s.leases + [Borrowed] else s.leases))
    case CloseDescriptor(i) =>
      if i < |s.leases| && s.leases[i] == Borrowed then Some(s.(leases := s.leases[i := DescriptorClosed])) else None
    case CountReturn(i) =>
      if i < |s.leases| && s.leases[i] == DescriptorClosed then
        Some(s.(gate := GivenBack(s.gate), leases := s.leases[i := Returned]))
      else None
    case _ => None
  }

  function ApplyCloser(s: State, step: Step): Option<State> {
    match step
    case CallClose => Some(s.(closers := s.closers + [Entering]))
    case Begin(k) =>
      if k < |s.closers| && s.closers[k] == Entering then
        Some(s.(gate := Begun(s.gate), closers := s.closers[k := WaitingForDrain]))
      else None
    case SeeDrained(k) =>
      if k < |s.closers| && s.closers[k] == WaitingForDrain && s.gate.drains > 0 then
        Some(s.(closers := s.closers[k := WaitingForTurn]))
      else None
    case GiveUp(k) =>
      if k < |s.closers| && s.closers[k] == WaitingForDrain then Some(s.(closers := s.closers[k := Over(false)])) else None
    case TakeTurn(k) =>
      if k < |s.closers| && s.closers[k] == WaitingForTurn && s.turn == None then
        Some(s.(closers := s.closers[k := Looking], turn := Some(k)))
      else None
    case Look(k) =>
      if k < |s.closers| && s.closers[k] == Looking then
        if s.gate.closed then Some(s.(closers := s.closers[k := Over(true)], turn := None))
        else Some(s.(closers := s.closers[k := Removing]))
      else None
    case Remove(k, ok) =>
      if k < |s.closers| && s.closers[k] == Removing then
        if ok then Some(s.(closers := s.closers[k := ClosingFiles], removals := s.removals + 1))
        else Some(s.(closers := s.closers[k := Over(false)], turn := None))
      else None
    case CloseFiles(k) =>
      if k < |s.closers| && s.closers[k] == ClosingFiles then
        Some(s.(closers := s.closers[k := Finishing], fileCloses := s.fileCloses + 1))
      else None
    case Finish(k) =>
      if k < |s.closers| && s.closers[k] == Finishing then
        Some(s.(gate := Ended(s.gate), closers := s.closers[k := Over(true)], turn := None))
      else None
    case _ => None
  }

  predicate IsLeaseStep(step: Step) {
    step.Borrow? || step.CloseDescriptor? || step.CountReturn?
  }

  /** The step when it is possible. */
  function Apply(s: State, step: Step): Option<State> {
    if IsLeaseStep(step) then ApplyLease(s, step) else ApplyCloser(s, step)
  }

  // ---------------------------------------------------------------- the invariant

  function Outstanding(leases: seq<Lease>): nat {
    if leases == [] then 0
    else Outstanding(leases[..|leases| - 1]) + if leases[|leases| - 1] == Returned then 0 else 1
  }

  lemma {:induction false} OutstandingAt(leases: seq<Lease>, i: nat, l: Lease)
    requires i < |leases|
    ensures Outstanding(leases[i := l]) ==
            Outstanding(leases) - (if leases[i] == Returned then 0 else 1) + if l == Returned then 0 else 1
  {
    var n := |leases| - 1;
    if i == n {
      assert leases[i := l][..n] == leases[..n];
    } else {
      assert leases[i := l][..n] == leases[..n][i := l];
      OutstandingAt(leases[..n], i, l);
    }
  }

  lemma {:induction false} OutstandingMore(leases: seq<Lease>)
    ensures Outstanding(leases + [Borrowed]) == Outstanding(leases) + 1
  {
    assert (leases + [Borrowed])[..|leases|] == leases;
  }

  lemma {:induction false} NoneOutstanding(leases: seq<Lease>, i: nat)
    requires i < |leases| && Outstanding(leases) == 0
    ensures leases[i] == Returned
    decreases |leases|
  {
    if i < |leases| - 1 {
      NoneOutstanding(leases[..|leases| - 1], i);
    }
  }

  /** The count is exact, and once closing has begun the channel is closed exactly when nothing is out. */
  predicate Counted(s: State) {
    && s.gate.leases == Outstanding(s.leases)
    && s.gate.drains == (if s.gate.closing && s.gate.leases == 0 then 1 else 0)
  }

  /** What a Close call has reached is backed by the session. */
  predicate CloserFits(s: State, k: nat)
    requires k < |s.closers|
  {
    var c := s.closers[k];
    && (InTurn(c) <==> s.turn == Some(k))
    && (c != Entering && c != Over(false) ==> s.gate.closing)
    && (c == WaitingForTurn || InTurn(c) ==> s.gate.drains == 1)
    && (c == Removing ==> s.removals == 0)
    && (c == ClosingFiles ==> s.removals == 1 && s.fileCloses == 0)
    && (c == Finishing ==> s.removals == 1 && s.fileCloses == 1)
    && (c == Over(true) ==> s.gate.closed)
  }

  predicate Progress(s: State) {
    && s.fileCloses <= s.removals <= 1
    && s.gate.rootCloses == (if s.gate.closed then 1 else 0)
    && (s.gate.closed ==> s.removals == 1 && s.fileCloses == 1 && s.gate.closing)
    && (s.turn.Some? ==> s.turn.value < |s.closers|)
    && (s.removals == 1 && !s.gate.closed ==> s.turn.Some? && s.closers[s.turn.value] in {ClosingFiles, Finishing})
    && (s.gate.closed && s.turn.Some? ==> s.closers[s.turn.value] == Looking)
  }

  ghost predicate Inv(s: State) {
    Counted(s) && Progress(s) && forall k :: 0 <= k < |s.closers| ==> CloserFits(s, k)
  }

  lemma LeaseStepFits(s: State, step: Step)
    requires Inv(s) && IsLeaseStep(step) && Apply(s, step).Some?
    ensures Inv(Apply(s, step).value)
  {
    var t := Apply(s, step).value;
    match step {
      case Borrow(_) => OutstandingMore(s.leases);
      case CloseDescriptor(i) => OutstandingAt(s.leases, i, DescriptorClosed);
      case CountReturn(i) => OutstandingAt(s.leases, i, Returned);
    }
    assert t.closers == s.closers && t.turn == s.turn && t.gate.closing == s.gate.closing && s.gate.drains <= t.gate.drains <= 1;
    forall k | 0 <= k < |t.closers|
      ensures CloserFits(t, k)
    {
      assert CloserFits(s, k);
    }
  }

  /** The closer a step belongs to. */
  function Mover(s: State, step: Step): nat {
    match step
    case Begin(k) => k
    case SeeDrained(k) => k
    case GiveUp(k) => k
    case TakeTurn(k) => k
    case Look(k) => k
    case Remove(k, _) => k
    case CloseFiles(k) => k
    case Finish(k) => k
    case _ => |s.closers|
  }

  lemma MoverFits(s: State, step: Step, k: nat)
    requires Inv(s) && !IsLeaseStep(step) && Apply(s, step).Some? && k == Mover(s, step)
    ensures k < |Apply(s, step).value.closers| && CloserFits(Apply(s, step).value, k)
  {
    if k < |s.closers| {
      assert CloserFits(s, k);
    }
  }

  lemma OthersFit(s: State, step: Step, k: nat, j: nat)
    requires Inv(s) && !IsLeaseStep(step) && Apply(s, step).Some? && k == Mover(s, step) && j != k && j < |s.closers|
    ensures j < |Apply(s, step).value.closers| && CloserFits(Apply(s, step).value, j)
  {
    assert CloserFits(s, j);
    if k < |s.closers| {
      assert CloserFits(s, k);
    }
  }

  lemma ProgressKept(s: State, step: Step)
    requires Inv(s) && !IsLeaseStep(step) && Apply(s, step).Some?
    ensures Counted(Apply(s, step).value) && Progress(Apply(s, step).value)
  {
    var k := Mover(s, step);
    if k < |s.closers| {
      assert CloserFits(s, k);
    }
  }

  lemma CloserStepFits(s: State, step: Step)
    requires Inv(s) && !IsLeaseStep(step) && Apply(s, step).Some?
    ensures Inv(Apply(s, step).value)
  {
    var t, k := Apply(s, step).value, Mover(s, step);
    ProgressKept(s, step);
    MoverFits(s, step, k);
    forall j | 0 <= j < |t.closers|
      ensures CloserFits(t, j)
    {
      if j != k {
        OthersFit(s, step, k, j);
      }
    }
  }

  // ---------------------------------------------------------------- every reachable state

  /** Runs the steps, skipping those that are not possible. */
  function Run(s: State, steps: seq<Step>): State {
    if steps == [] then s
    else
      var before := Run(s, steps[..|steps| - 1]);
      var after := Apply(before, steps[|steps| - 1]);
      if after.Some? then after.value else before
  }

  lemma {:induction false} EveryReachableStateFits(steps: seq<Step>)
    ensures Inv(Run(INITIAL, steps))
  {
    if steps != [] {
      EveryReachableStateFits(steps[..|steps| - 1]);
      var before, step := Run(INITIAL, steps[..|steps| - 1]), steps[|steps| - 1];
      if Apply(before, step).Some? {
        if IsLeaseStep(step) {
          LeaseStepFits(before, step);
        } else {
          CloserStepFits(before, step);
        }
      }
    }
  }

  /** While the host objects are being removed no borrowed descriptor is open, and only one call removes. */
  lemma {:induction false} NothingBorrowedWhileRemoving(steps: seq<Step>, k: nat, other: nat, lease: nat)
    requires var s := Run(INITIAL, steps); k < |s.closers| && other < |s.closers| && lease < |s.leases|
    ensures var s := Run(INITIAL, steps);
            && (s.closers[k] in {Removing, ClosingFiles, Finishing} ==> s.leases[lease] == Returned)
            && (InTurn(s.closers[k]) && InTurn(s.closers[other]) ==> k == other)
  {
    var s := Run(INITIAL, steps);
    EveryReachableStateFits(steps);
    assert CloserFits(s, k) && CloserFits(s, other);
    if s.closers[k] in {Removing, ClosingFiles, Finishing} {
      NoneOutstanding(s.leases, lease);
    }
  }

  /** A Close call that succeeds means the run was removed, once; files, channel and root are each closed once. */
  lemma {:induction false} RemovedOnce(steps: seq<Step>, k: nat)
    requires k < |Run(INITIAL, steps).closers|
    ensures var s := Run(INITIAL, steps);
            && s.removals <= 1 && s.fileCloses <= 1 && s.gate.drains <= 1 && s.gate.rootCloses <= 1
            && (s.closers[k] == Over(true) ==> s.removals == 1 && s.fileCloses == 1 && s.gate.rootCloses == 1)
  {
    EveryReachableStateFits(steps);
    assert CloserFits(Run(INITIAL, steps), k);
  }

  /** A waiting Close call can go on exactly when every lease has been given back. */
  lemma {:induction false} WaitingEndsWithTheLastLease(steps: seq<Step>, k: nat)
    requires k < |Run(INITIAL, steps).closers| && Run(INITIAL, steps).closers[k] == WaitingForDrain
    ensures Apply(Run(INITIAL, steps), SeeDrained(k)).Some? <==> Outstanding(Run(INITIAL, steps).leases) == 0
  {
    EveryReachableStateFits(steps);
    assert CloserFits(Run(INITIAL, steps), k);
  }

  /** Once closing has begun no lease is granted any more. */
  lemma {:induction false} NoLeaseAfterClosing(s: State, steps: seq<Step>)
    requires s.gate.closing
    ensures Run(s, steps).gate.closing && |Run(s, steps).leases| == |s.leases|
  {
    if steps != [] {
      NoLeaseAfterClosing(s, steps[..|steps| - 1]);
    }
  }
}
