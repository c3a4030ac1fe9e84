/**
  The launch handshake between the client process and its supervisor child, step by step under every
  interleaving, with every write able to fail, cancellation at any time and the child able to die.
*/
module Handshake {
  import opened Wrappers

  datatype Event = Ready | Accepted | Output | Final

  datatype Control = Start | Commit | Malformed

  datatype ParentPhase =
    | AwaitReady
    | WriteStart
    | AwaitAccepted
    | WriteCommit
    | ReleaseSource
    // ends of a launch
    | Launched
    | FailedAfterCommit
    | StoppingEarly
    | Aborting
    | Failed

  datatype ChildPhase =
    | Booting
    | AwaitStart
    | Accepting
    | AwaitCommit
    | Refused
    | Working
    | WorkDone
    | Finished
    | Dead

  /** Which of the descriptors made of the source are open, and how often it was closed or handed on. */
  datatype Source = Source(session: bool, run: bool, closes: nat, handed: nat)

  datatype Parent = Parent(phase: ParentPhase, readAccepted: bool, commitWritten: bool, source: Source)

  datatype Child = Child(phase: ChildPhase, source: Source, workStarted: bool)

  /** The two pipes, and the flag of the event sender that a final was sent. */
  datatype Pipes = Pipes(control: seq<Control>, controlRead: nat, events: seq<Event>, eventsRead: nat, finalSent: bool)

  datatype State = State(parent: Parent, child: Child, pipes: Pipes)

  const UNTOUCHED: Source := Source(true, false, 0, 0)

  const INITIAL: State :=
    State(Parent(AwaitReady, false, false, UNTOUCHED), Child(Booting, UNTOUCHED, false), Pipes([], 0, [], 0, false))

  datatype ParentStep =
    | ReadReady
    | ReadAccepted
    // the event pipe ended or was unreadable
    | ReadFails
    | WriteStartFrame(ok: bool)
    | WriteCommitFrame(ok: bool)
    | CloseSource(ok: bool)
    // the launch context is cancelled
    | CancelLaunch
    | StopEarly
    | FinishAbort

  datatype ChildStep =
    | SendReady(ok: bool)
    | ReadStart
    | SendAccepted(ok: bool)
    | ReadCommit
    // the control pipe ended or was unreadable
    | ControlFails
    // a cancellation was recorded while waiting
    | CancelWait
    | TakeSource
    | SendOutput(ok: bool)
    | ReturnFromWork
    | SendFinal(ok: bool)
    | Die

  datatype Step = ByParent(parentStep: ParentStep) | ByChild(childStep: ChildStep)

  predicate Gone(c: ChildPhase) {
    c == Finished || c == Dead
  }

  /** Closes whatever is still open of a source. */
  function Closed(s: Source): Source {
    Source(false, false, s.closes + (if s.session then 1 else 0) + (if s.run then 1 else 0), s.handed)
  }

  function InPhase(p: Parent, phase: ParentPhase): Parent {
    Parent(phase, p.readAccepted, p.commitWritten, p.source)
  }

  function Killed(c: Child): Child {
    if Gone(c.phase) then c else Child(Dead, c.source, c.workStarted)
  }

  function WroteControl(p: Pipes, c: Control): Pipes {
    Pipes(p.control + [c], p.controlRead, p.events, p.eventsRead, p.finalSent)
  }

  function ReadEvent(p: Pipes): Pipes {
    Pipes(p.control, p.controlRead, p.events, p.eventsRead + 1, p.finalSent)
  }

  /** One send of the event pipe sender: refused once a final was sent, and the write itself may fail. */
  function SendLocked(p: Pipes, e: Event, writes: bool): Pipes {
    if p.finalSent || !writes then p
    else Pipes(p.control, p.controlRead, p.events + [e], p.eventsRead, e == Final)
  }

  function ReadControl(p: Pipes): Pipes {
    Pipes(p.control, p.controlRead + 1, p.events, p.eventsRead, p.finalSent)
  }

  function ParentApply(s: State, step: ParentStep): Option<State> {
    var p, q := s.parent, s.pipes;
    match step
    case ReadReady =>
      if p.phase == AwaitReady && q.eventsRead < |q.events| then
        Some(State(InPhase(p, if q.events[q.eventsRead] == Ready then WriteStart else StoppingEarly), s.child, ReadEvent(q)))
      else None
    case ReadAccepted =>
      if p.phase == AwaitAccepted && q.eventsRead < |q.events| then
        var accepted := q.events[q.eventsRead] == Accepted;
        Some(State(Parent(if accepted then WriteCommit else Aborting, accepted, p.commitWritten, p.source),
                   s.child, ReadEvent(q)))
      else None
    case ReadFails =>
      if p.phase == AwaitReady then Some(State(InPhase(p, StoppingEarly), s.child, q))
      else if p.phase == AwaitAccepted then Some(State(InPhase(p, Aborting), s.child, q))
      else None
    case WriteStartFrame(ok) =>
      if p.phase == WriteStart then
        if ok then Some(State(InPhase(p, AwaitAccepted), s.child, WroteControl(q, Start)))
        else Some(State(InPhase(p, StoppingEarly), s.child, q))
      else None
    case WriteCommitFrame(ok) =>
      if p.phase == WriteCommit then
        if ok then Some(State(Parent(ReleaseSource, p.readAccepted, true, p.source), s.child, WroteControl(q, Commit)))
        else Some(State(InPhase(p, Aborting), s.child, q))
      else None
    case CloseSource(ok) =>
      // after an error the client is cancelled and reaped, but the commit stands
      if p.phase == ReleaseSource then
        Some(State(Parent(if ok then Launched else FailedAfterCommit, p.readAccepted, p.commitWritten, Closed(p.source)),
                   s.child, q))
      else None
    case CancelLaunch =>
      if p.phase == AwaitReady || p.phase == WriteStart then Some(State(InPhase(p, StoppingEarly), s.child, q))
      else if p.phase == AwaitAccepted || p.phase == WriteCommit then Some(State(InPhase(p, Aborting), s.child, q))
      else None
    case StopEarly =>
      // a child that is still running is killed, then every descriptor is closed
      if p.phase == StoppingEarly then
        Some(State(Parent(Failed, p.readAccepted, p.commitWritten, Closed(p.source)), Killed(s.child), q))
      else None
    case FinishAbort =>
      // the cancellation pipe is closed; the child has exited or is killed after its time
      if p.phase == Aborting then
        Some(State(Parent(Failed, p.readAccepted, p.commitWritten, Closed(p.source)), Killed(s.child), q))
      else None
  }

  /** The child ends its session without having served: its source is closed. */
  function Unserved(c: Child, phase: ChildPhase): Child {
    Child(phase, Closed(c.source), c.workStarted)
  }

  function ChildApply(s: State, step: ChildStep): Option<State> {
    var c, q := s.child, s.pipes;
    match step
    case SendReady(ok) =>
      if c.phase == Booting then
        if ok && !q.finalSent then Some(State(s.parent, Child(AwaitStart, c.source, c.workStarted), SendLocked(q, Ready, ok)))
        else Some(State(s.parent, Unserved(c, Finished), q))
      else None
    case ReadStart =>
      if c.phase == AwaitStart && q.controlRead < |q.control| then
        if q.control[q.controlRead] == Start then
          Some(State(s.parent, Child(Accepting, c.source, c.workStarted), ReadControl(q)))
        else Some(State(s.parent, Unserved(c, Finished), ReadControl(q)))
      else None
    case SendAccepted(ok) =>
      if c.phase == Accepting then
        if ok && !q.finalSent then
          Some(State(s.parent, Child(AwaitCommit, c.source, c.workStarted), SendLocked(q, Accepted, ok)))
        else Some(State(s.parent, Unserved(c, Finished), q))
      else None
    case ReadCommit =>
      if c.phase == AwaitCommit && q.controlRead < |q.control| then
        if q.control[q.controlRead] == Commit then
          // the session's source becomes the run's
          Some(State(s.parent, Child(Working, Source(false, c.source.session, c.source.closes, c.source.handed), true),
                     ReadControl(q)))
        else Some(State(s.parent, Unserved(c, Refused), ReadControl(q)))
      else None
    case ControlFails =>
      if c.phase == AwaitStart then Some(State(s.parent, Unserved(c, Finished), q))
      else if c.phase == AwaitCommit then Some(State(s.parent, Unserved(c, Refused), q))
      else None
    case CancelWait =>
      if c.phase == AwaitCommit then Some(State(s.parent, Unserved(c, Refused), q)) else None
    case TakeSource =>
      if c.phase == Working && c.source.run then
        Some(State(s.parent, Child(Working, Source(c.source.session, false, c.source.closes, c.source.handed + 1),
                          c.workStarted), q))
      else None
    case SendOutput(ok) =>
      // goroutines of the work may still send output when it has returned and even after the final
      if c.workStarted && c.phase != Dead then Some(State(s.parent, c, SendLocked(q, Output, ok))) else None
    case ReturnFromWork =>
      if c.phase == Working then Some(State(s.parent, Child(WorkDone, Closed(c.source), c.workStarted), q)) else None
    case SendFinal(ok) =>
      if c.phase == WorkDone || c.phase == Refused then
        Some(State(s.parent, Child(Finished, c.source, c.workStarted), SendLocked(q, Final, ok)))
      else None
    case Die => Some(State(s.parent, Child(Dead, c.source, c.workStarted), q))
  }

  function Apply(s: State, step: Step): Option<State> {
    match step
    case ByParent(p) => ParentApply(s, p)
    case ByChild(c) => ChildApply(s, c)
  }

  // ---------------------------------------------------------------- the invariant

  predicate Ended(p: ParentPhase) {
    p == Launched || p == FailedAfterCommit || p == Failed
  }

  /** What the control pipe holds in each phase; a failed launch wrote at most its start. */
  function Written(p: ParentPhase, started: bool): seq<Control> {
    match p
    case AwaitReady => []
    case WriteStart => []
    case StoppingEarly => []
    case AwaitAccepted => [Start]
    case WriteCommit => [Start]
    case Aborting => [Start]
    case Failed => if started then [Start] else []
    case ReleaseSource => [Start, Commit]
    case Launched => [Start, Commit]
    case FailedAfterCommit => [Start, Commit]
  }

  /** What the parent has written, read and closed in each of its phases. */
  ghost predicate ParentFits(p: Parent, control: seq<Control>) {
    && control == Written(p.phase, control != [])
    && (p.commitWritten <==> p.phase == ReleaseSource || p.phase == Launched || p.phase == FailedAfterCommit)
    && (p.commitWritten || p.phase == WriteCommit ==> p.readAccepted)
    && p.source == if Ended(p.phase) then Source(false, false, 1, 0) else UNTOUCHED
  }

  /** The child's source is in exactly one place: its session, the run, the work's hands, or closed. */
  ghost predicate ChildFits(c: Child) {
    var s := c.source;
    && (if s.session then 1 else 0) + (if s.run then 1 else 0) + s.closes + s.handed == 1
    && (s.run ==> c.phase == Working || c.phase == Dead)
    && (s.session ==> c.phase in {Booting, AwaitStart, Accepting, AwaitCommit, Dead})
    && (c.phase == Working || c.phase == WorkDone || s.run || s.handed > 0 ==> c.workStarted)
  }

  /** A final is the last event, and the sender remembers it; only the end of a session sends one. */
  ghost predicate EventsFit(p: Pipes, child: ChildPhase) {
    && (forall i :: 0 <= i < |p.events| && p.events[i] == Final ==> i == |p.events| - 1 && p.finalSent)
    && (p.finalSent ==> Gone(child))
  }

  /** How far the child has read the control pipe in each phase, and that work started on a commit. */
  ghost predicate ReadingFits(c: Child, p: Pipes) {
    && p.controlRead <= |p.control| && p.eventsRead <= |p.events|
    && (c.phase == Booting || c.phase == AwaitStart ==> p.controlRead == 0)
    && (c.phase == Accepting || c.phase == AwaitCommit ==> p.controlRead == 1)
    && (c.workStarted ==> p.controlRead >= 2)
  }

  ghost predicate AcceptanceFits(p: Parent, events: seq<Event>) {
    p.readAccepted ==> Accepted in events
  }

  ghost predicate Inv(s: State) {
    && ParentFits(s.parent, s.pipes.control) && ChildFits(s.child)
    && EventsFit(s.pipes, s.child.phase) && ReadingFits(s.child, s.pipes)
    && AcceptanceFits(s.parent, s.pipes.events)
    && (s.parent.phase == Failed ==> Gone(s.child.phase))
  }

  lemma ParentKeepsInvariant(s: State, step: ParentStep, t: State)
    requires Inv(s) && ParentApply(s, step) == Some(t)
    ensures Inv(t)
  {
    match step {
      case ReadReady =>
      case ReadAccepted =>
      case ReadFails =>
      case WriteStartFrame(ok) =>
      case WriteCommitFrame(ok) =>
      case CloseSource(ok) =>
      case CancelLaunch =>
      case StopEarly =>
      case FinishAbort =>
    }
  }

  lemma ChildKeepsInvariant(s: State, step: ChildStep, t: State)
    requires Inv(s) && ChildApply(s, step) == Some(t)
    ensures Inv(t)
  {
    match step {
      case SendReady(ok) =>
      case ReadStart =>
      case SendAccepted(ok) =>
      case ReadCommit =>
      case ControlFails =>
      case CancelWait =>
      case TakeSource =>
      case SendOutput(ok) =>
      case ReturnFromWork =>
      case SendFinal(ok) =>
      case Die =>
    }
  }

  lemma {:induction false} StepKeepsInvariant(s: State, step: Step, t: State)
    requires Inv(s) && Apply(s, step) == Some(t)
    ensures Inv(t)
  {
    match step {
      case ByParent(p) => ParentKeepsInvariant(s, p, t);
      case ByChild(c) => ChildKeepsInvariant(s, c, t);
    }
  }

  /** The state after some steps; steps that are not enabled do not happen. */
  function After(steps: seq<Step>): State {
    if steps == [] then INITIAL
    else
      var before := After(steps[..|steps| - 1]);
      var next := Apply(before, steps[|steps| - 1]);
      if next.Some? then next.value else before
  }

  lemma {:induction false} EveryReachableStateFits(steps: seq<Step>)
    ensures Inv(After(steps))
  {
    if steps == [] {
    } else {
      var before := After(steps[..|steps| - 1]);
      EveryReachableStateFits(steps[..|steps| - 1]);
      var next := Apply(before, steps[|steps| - 1]);
      if next.Some? {
        StepKeepsInvariant(before, steps[|steps| - 1], next.value);
      }
    }
  }

  // ---------------------------------------------------------------- safety

  /** Work starts only after the commit was written, and the commit is written only after acceptance was read. */
  lemma {:induction false} WorkNeedsCommit(steps: seq<Step>)
    ensures var s := After(steps);
            && (s.child.workStarted ==> s.parent.commitWritten)
            && (s.parent.commitWritten ==> s.parent.readAccepted)
            && (s.parent.readAccepted ==> Accepted in s.pipes.events)
  {
    EveryReachableStateFits(steps);
  }

  /** One step of a whole run. */
  function Then(s: State, step: Step): State {
    if Apply(s, step).Some? then Apply(s, step).value else s
  }

  lemma {:induction false} AfterMore(steps: seq<Step>, more: seq<Step>)
    requires more != []
    ensures After(steps + more) == Then(After(steps + more[..|more| - 1]), more[|more| - 1])
  {
    assert (steps + more)[..|steps + more| - 1] == steps + more[..|more| - 1];
  }

  lemma FailedStays(s: State, step: Step)
    requires s.parent.phase == Failed
    ensures Then(s, step).parent == s.parent
  {
  }

  lemma {:induction false} FailureLasts(steps: seq<Step>, more: seq<Step>)
    requires After(steps).parent.phase == Failed
    ensures After(steps + more).parent.phase == Failed
  {
    if more == [] {
      assert steps + more == steps;
    } else {
      FailureLasts(steps, more[..|more| - 1]);
      AfterMore(steps, more);
      FailedStays(After(steps + more[..|more| - 1]), more[|more| - 1]);
    }
  }

  /** A launch that failed before writing its commit never lets work start, whatever happens later. */
  lemma {:induction false} FailedLaunchNeverWorks(steps: seq<Step>, more: seq<Step>)
    requires After(steps).parent.phase == Failed
    ensures !After(steps + more).child.workStarted && !After(steps + more).parent.commitWritten
  {
    FailureLasts(steps, more);
    EveryReachableStateFits(steps + more);
  }

  /** The parent closes its source descriptor once; the child closes its own once or hands it to the work once. */
  lemma {:induction false} SourceIsReleasedOnce(steps: seq<Step>)
    ensures var s := After(steps);
            && s.parent.source == (if Ended(s.parent.phase) then Source(false, false, 1, 0) else UNTOUCHED)
            && s.child.source.closes + s.child.source.handed <= 1
            && (s.child.phase == Finished ==> s.child.source.closes + s.child.source.handed == 1)
            && (s.child.source.handed == 1 ==> s.child.workStarted)
  {
    EveryReachableStateFits(steps);
  }

  /** At most one final event is ever sent, as the last event. */
  lemma {:induction false} FinalIsLast(steps: seq<Step>, i: nat)
    requires i < |After(steps).pipes.events| && After(steps).pipes.events[i] == Final
    ensures i == |After(steps).pipes.events| - 1
  {
    EveryReachableStateFits(steps);
  }

  lemma FinalStays(s: State, step: Step)
    requires Inv(s) && s.pipes.finalSent
    ensures Then(s, step).pipes.events == s.pipes.events && Then(s, step).pipes.finalSent
  {
  }

  /** Nothing is sent after a final, however long output goes on being offered. */
  lemma {:induction false} NothingAfterFinal(steps: seq<Step>, more: seq<Step>)
    requires Final in After(steps).pipes.events
    ensures After(steps + more).pipes.events == After(steps).pipes.events
    ensures After(steps + more).pipes.finalSent
  {
    EveryReachableStateFits(steps);
    var i :| 0 <= i < |After(steps).pipes.events| && After(steps).pipes.events[i] == Final;
    if more == [] {
      assert steps + more == steps;
    } else {
      NothingAfterFinal(steps, more[..|more| - 1]);
      EveryReachableStateFits(steps + more[..|more| - 1]);
      AfterMore(steps, more);
      FinalStays(After(steps + more[..|more| - 1]), more[|more| - 1]);
    }
  }

  // ---------------------------------------------------------------- cancellation

  datatype CancelReason = CancelNone | User | Terminate | Hangup | Lifeline | Internal

  datatype Recorded = Recorded(reason: CancelReason, diagnostic: string)

  /**
    What a history of recorded cancellations amounts to: the last internal failure if there is one,
    else the first that is not the lost lifeline, else the lost lifeline.
  */
  function Decided(history: seq<Recorded>): Recorded {
    if LastInternal(history).Some? then LastInternal(history).value
    else if FirstRequest(history).Some? then FirstRequest(history).value
    else if history != [] then history[0]
    else Recorded(CancelNone, "")
  }

  function LastInternal(history: seq<Recorded>): Option<Recorded> {
    if history == [] then None
    else if history[|history| - 1].reason == Internal then Some(history[|history| - 1])
    else LastInternal(history[..|history| - 1])
  }

  function FirstRequest(history: seq<Recorded>): Option<Recorded> {
    if history == [] then None
    else
      var earlier := FirstRequest(history[..|history| - 1]);
      if earlier.Some? then earlier
      else if history[|history| - 1].reason != Lifeline then Some(history[|history| - 1]) else None
  }

  lemma {:induction false} OnlyLifelines(history: seq<Recorded>)
    requires forall i :: 0 <= i < |history| ==> history[i].reason != CancelNone
    ensures FirstRequest(history).Some? ==> FirstRequest(history).value.reason !in {Lifeline, CancelNone}
    ensures FirstRequest(history).None? && history != [] ==> history[0].reason == Lifeline
    ensures LastInternal(history).Some? ==> LastInternal(history).value.reason == Internal && FirstRequest(history).Some?
    ensures LastInternal(history).None? && FirstRequest(history).Some? ==> FirstRequest(history).value.reason != Internal
  {
    if history != [] {
      OnlyLifelines(history[..|history| - 1]);
    }
  }

  /** How one more record changes the decision. */
  lemma OneMoreRecord(history: seq<Recorded>, r: Recorded)
    requires (forall i :: 0 <= i < |history| ==> history[i].reason != CancelNone) && r.reason != CancelNone
    ensures var before := Decided(history);
            Decided(history + [r]) ==
            if before.reason == CancelNone || r.reason == Internal || (before.reason == Lifeline && r.reason != Lifeline) then r
            else before
  {
    OnlyLifelines(history);
    var longer := history + [r];
    assert longer[..|longer| - 1] == history;
  }

  class SessionCancellation {
    var reason: CancelReason
    var diagnostic: string
    var frozen: bool
    // what was recorded before the freeze
    ghost var history: seq<Recorded>

    ghost predicate Valid()
      reads this
    {
      && (forall i :: 0 <= i < |history| ==> history[i].reason != CancelNone)
      && Recorded(reason, diagnostic) == Decided(history)
    }

    constructor ()
      ensures Valid() && !frozen && history == []
    {
      reason, diagnostic, frozen, history := CancelNone, "", false, [];
    }

    method Record(reason: CancelReason, diagnostic: string)
      requires Valid() && reason != CancelNone
      modifies this
      ensures Valid() && frozen == old(frozen)
      ensures history == if old(frozen) then old(history) else old(history) + [Recorded(reason, diagnostic)]
    {
      if frozen {
        return;
      }
      OneMoreRecord(history, Recorded(reason, diagnostic));
      if this.reason == CancelNone || reason == Internal || (this.reason == Lifeline && reason != Lifeline) {
        this.reason := reason;
        this.diagnostic := diagnostic;
      }
      history := history + [Recorded(reason, diagnostic)];
    }

    /** The decision, which no later record changes. */
    method Freeze() returns (snapshot: Recorded)
      requires Valid()
      modifies this`frozen
      ensures Valid() && frozen && snapshot == Decided(history)
    {
      frozen := true;
      snapshot := Recorded(reason, diagnostic);
    }
  }
}
