/**
  The life of run roots under one authority directory.  Any number of operations of any number of
  processes interleave step by step; each may fail or die at any step, which releases its locks.
*/
module RunDirectory {
  import opened Wrappers

  type Actor = nat
  type RunID = nat
  type DirID = nat

  /** The name a root has in the authority directory. */
  datatype Place = InStaging(id: RunID) | InRun(id: RunID) | InRemoving(id: RunID) | Gone

  /** A run root: its name, its entries, who made it, and who holds its two lock files. */
  datatype Root = Root(
    place: Place, maker: Actor, liveness: bool, recovery: bool, network: bool,
    liveHolder: Option<Actor>, recoveryHolder: Option<Actor>)

  datatype Phase =
    | Idle
    // creating
    | Creating(id: RunID)
    | Staging(dir: DirID)
    | StagedLocked(dir: DirID)
    | PublishedUnsynced(dir: DirID)
    | Discarding(dir: DirID, checked: bool)
    // holding a live run
    | Live(dir: DirID)
    | Retained(dir: DirID)
    | AwaitingRecovery(dir: DirID)
    | Completing(dir: DirID)
    // recovering
    | Snapshotting(entry: Option<DirID>)
    | Walking(ids: seq<RunID>)
    | Opened(dir: DirID, ids: seq<RunID>)
    | RecoveryOpen(dir: DirID, ids: seq<RunID>)
    | RecoveryHeld(dir: DirID, ids: seq<RunID>)
    | LivenessOpen(dir: DirID, ids: seq<RunID>)
    | Callback(dir: DirID, ids: seq<RunID>)
    | CallbackDone(dir: DirID, ids: seq<RunID>)
    // removing a completed run
    | Final(dir: DirID, ids: seq<RunID>)
    | Validated(dir: DirID, ids: seq<RunID>)
    | Isolated(dir: DirID, ids: seq<RunID>, checked: bool)

  datatype State = State(authority: Option<Actor>, roots: map<DirID, Root>, phases: map<Actor, Phase>)

  function PhaseOf(s: State, a: Actor): Phase {
    if a in s.phases then s.phases[a] else Idle
  }

  function DirOf(p: Phase): Option<DirID> {
    match p
    case Idle => None
    case Creating(_) => None
    case Snapshotting(_) => None
    case Walking(_) => None
    case _ => Some(p.dir)
  }

  predicate HoldsAuthority(p: Phase) {
    p.Creating? || p.Staging? || p.StagedLocked? || p.PublishedUnsynced? || p.Discarding? || p.Snapshotting? || p.Final?
    || p.Validated? || p.Isolated?
  }

  /** The root whose entries the actor has found to be lock files and is about to unlink. */
  function CheckedDir(p: Phase): Option<DirID> {
    match p
    case Snapshotting(entry) => entry
    case Discarding(dir, checked) => if checked then Some(dir) else None
    case Isolated(dir, _, checked) => if checked then Some(dir) else None
    case _ => None
  }

  function WithChecked(p: Phase, dir: DirID): Phase {
    match p
    case Snapshotting(_) => Snapshotting(Some(dir))
    case Discarding(d, _) => Discarding(d, true)
    case Isolated(d, ids, _) => Isolated(d, ids, true)
    case _ => p
  }

  predicate HoldsLive(p: Phase) {
    p.StagedLocked? || p.PublishedUnsynced? || IsLive(p) || HoldsBoth(p)
  }

  /** The phases in which a live lease on a published run is held. */
  predicate IsLive(p: Phase) {
    p.Live? || p.Retained? || p.AwaitingRecovery? || p.Completing?
  }

  predicate HoldsBoth(p: Phase) {
    p.Callback? || p.CallbackDone? || p.Final? || p.Validated? || p.Isolated?
  }

  predicate HoldsRecovery(p: Phase) {
    p.Completing? || p.RecoveryHeld? || p.LivenessOpen? || HoldsBoth(p)
  }

  /** A creation that has not finished yet. */
  predicate InCreation(p: Phase) {
    p.Staging? || p.StagedLocked? || p.PublishedUnsynced? || p.Discarding?
  }

  datatype Creation =
    | BeginCreate(id: RunID)
    | MakeStaging(dir: DirID)
    | CreateLiveness
    | CreateRecovery
    | LockNewLiveness

  datatype Publication = Publish | FinishCreate | FailCreate | DiscardRename

  datatype Living = CloseLive | Retain | ReleaseRetained | PutEvidence | RemoveEvidence | BeginComplete | TakeRecovery

  datatype Walk = BeginSnapshot | EndSnapshot(ids: seq<RunID>) | SkipMissing | OpenRoot(dir: DirID)

  datatype Claim = OpenRecovery | LockRecovery | OpenLiveness | LockLiveness | EndCallback

  datatype Removal = CheckEntries(dir: DirID) | UnlinkLiveness(dir: DirID) | UnlinkRecovery(dir: DirID) | RemoveRoot(dir: DirID)

  datatype Completion = LockAuthority | ValidateEntries | Isolate | Finish

  datatype Action =
    | Create(creation: Creation)
    | Publishing(publication: Publication)
    | OfLive(living: Living)
    | Recovering(walk: Walk)
    | Claiming(claim: Claim)
    | Removing(removal: Removal)
    | Complete(completion: Completion)
    // any operation can fail or its process can die
    | GiveUp

  function Moved(s: State, a: Actor, p: Phase): State {
    s.(phases := s.phases[a := p])
  }

  function WithRoot(s: State, d: DirID, r: Root): State {
    s.(roots := s.roots[d := r])
  }

  predicate Temporary(place: Place) {
    place.InStaging? || place.InRemoving?
  }

  /** The entries are nothing but lock files, and unless `allowMissing` both of them. */
  predicate FixedEntries(r: Root, allowMissing: bool) {
    !r.network && (allowMissing || (r.liveness && r.recovery))
  }

  ghost predicate NameTaken(s: State, id: RunID) {
    exists d :: d in s.roots && s.roots[d].place == InRun(id)
  }

  /** Locks that end with the actor's phase. */
  function Released(r: Root, a: Actor): Root {
    r.(liveHolder := if r.liveHolder == Some(a) then None else r.liveHolder,
       recoveryHolder := if r.recoveryHolder == Some(a) then None else r.recoveryHolder)
  }

  /** Back to idle with every lock released: an error return, or the death of the process. */
  function Stopped(s: State, a: Actor, p: Phase): State {
    var d := DirOf(PhaseOf(s, a));
    var released := if d.Some? && d.value in s.roots then WithRoot(s, d.value, Released(s.roots[d.value], a)) else s;
    Moved(released, a, p).(authority := if s.authority == Some(a) then None else s.authority)
  }

  /** Who may take the entries of a temporary root away: its failed creation, its remover, or a snapshot. */
  predicate MayRemove(p: Phase, d: DirID) {
    p.Snapshotting? || (p.Discarding? && p.dir == d) || (p.Isolated? && p.dir == d)
  }

  /** The root the actor works on exists. */
  predicate Known(s: State, a: Actor) {
    DirOf(PhaseOf(s, a)).Some? ==> DirOf(PhaseOf(s, a)).value in s.roots
  }

  ghost function ApplyCreation(s: State, a: Actor, action: Creation): Option<State>
    requires Known(s, a)
  {
    var p := PhaseOf(s, a);
    match action
    case BeginCreate(id) =>
      if p.Idle? && s.authority.None? then Some(Moved(s, a, Creating(id)).(authority := Some(a))) else None
    case MakeStaging(dir) =>
      if p.Creating? && dir !in s.roots then
        Some(Moved(WithRoot(s, dir, Root(InStaging(p.id), a, false, false, false, None, None)), a, Staging(dir)))
      else None
    case CreateLiveness =>
      if p.Staging? then Some(WithRoot(s, p.dir, s.roots[p.dir].(liveness := true))) else None
    case CreateRecovery =>
      if p.Staging? && s.roots[p.dir].liveness then Some(WithRoot(s, p.dir, s.roots[p.dir].(recovery := true))) else None
    case LockNewLiveness =>
      if p.Staging? && s.roots[p.dir].recovery && s.roots[p.dir].liveness && s.roots[p.dir].liveHolder.None? then
        Some(Moved(WithRoot(s, p.dir, s.roots[p.dir].(liveHolder := Some(a))), a, StagedLocked(p.dir)))
      else None
  }

  ghost function ApplyPublication(s: State, a: Actor, action: Publication): Option<State>
    requires Known(s, a)
  {
    var p := PhaseOf(s, a);
    match action
    case Publish =>
      if p.StagedLocked? && s.roots[p.dir].place.InStaging? && !NameTaken(s, s.roots[p.dir].place.id) then
        Some(Moved(WithRoot(s, p.dir, s.roots[p.dir].(place := InRun(s.roots[p.dir].place.id))), a, PublishedUnsynced(p.dir)))
      else None
    case FinishCreate =>
      if p.PublishedUnsynced? then Some(Moved(s, a, Live(p.dir)).(authority := None)) else None
    case FailCreate =>
      // the descriptors are closed before anything is taken back
      if p.Staging? || p.StagedLocked? || p.PublishedUnsynced? then
        Some(Moved(WithRoot(s, p.dir, Released(s.roots[p.dir], a)), a, Discarding(p.dir, false)))
      else None
    case DiscardRename =>
      if p.Discarding? && s.roots[p.dir].place.InRun? then
        Some(WithRoot(s, p.dir, s.roots[p.dir].(place := InStaging(s.roots[p.dir].place.id))))
      else None
  }

  ghost function ApplyLiving(s: State, a: Actor, action: Living): Option<State>
    requires Known(s, a)
  {
    var p := PhaseOf(s, a);
    match action
    case CloseLive => if p.Live? then Some(Stopped(s, a, Idle)) else None
    case Retain => if p.Live? then Some(Moved(s, a, Retained(p.dir))) else None
    case ReleaseRetained => if p.Retained? then Some(Stopped(s, a, Idle)) else None
    case PutEvidence => if p.Live? then Some(WithRoot(s, p.dir, s.roots[p.dir].(network := true))) else None
    case RemoveEvidence =>
      if p.Callback? || p.Live? then Some(WithRoot(s, p.dir, s.roots[p.dir].(network := false))) else None
    case BeginComplete =>
      if p.Live? && s.roots[p.dir].recovery then Some(Moved(s, a, AwaitingRecovery(p.dir))) else None
    case TakeRecovery =>
      if p.AwaitingRecovery? && s.roots[p.dir].recoveryHolder.None? then
        Some(Moved(WithRoot(s, p.dir, s.roots[p.dir].(recoveryHolder := Some(a))), a, Completing(p.dir)))
      else None
  }

  /** The walk takes whatever names it is given; they are looked up again one by one. */
  ghost function ApplyWalk(s: State, a: Actor, action: Walk): Option<State>
    requires Known(s, a)
  {
    var p := PhaseOf(s, a);
    match action
    case BeginSnapshot =>
      if p.Idle? && s.authority.None? then Some(Moved(s, a, Snapshotting(None)).(authority := Some(a))) else None
    case EndSnapshot(ids) =>
      if p.Snapshotting? then Some(Moved(s, a, Walking(ids)).(authority := None)) else None
    case SkipMissing =>
      if p.Walking? && p.ids != [] && !NameTaken(s, p.ids[0]) then Some(Moved(s, a, Walking(p.ids[1..]))) else None
    case OpenRoot(dir) =>
      if p.Walking? && p.ids != [] && dir in s.roots && s.roots[dir].place == InRun(p.ids[0]) then
        Some(Moved(s, a, Opened(dir, p.ids[1..])))
      else None
  }

  ghost function ApplyClaim(s: State, a: Actor, action: Claim): Option<State>
    requires Known(s, a)
  {
    var p := PhaseOf(s, a);
    match action
    case OpenRecovery =>
      if p.Opened? && s.roots[p.dir].recovery then Some(Moved(s, a, RecoveryOpen(p.dir, p.ids))) else None
    case LockRecovery =>
      if p.RecoveryOpen? && s.roots[p.dir].recoveryHolder.None? then
        Some(Moved(WithRoot(s, p.dir, s.roots[p.dir].(recoveryHolder := Some(a))), a, RecoveryHeld(p.dir, p.ids)))
      else None
    case OpenLiveness =>
      if p.RecoveryHeld? && s.roots[p.dir].liveness then Some(Moved(s, a, LivenessOpen(p.dir, p.ids))) else None
    case LockLiveness =>
      if p.LivenessOpen? then
        if s.roots[p.dir].liveHolder.None? then
          Some(Moved(WithRoot(s, p.dir, s.roots[p.dir].(liveHolder := Some(a))), a, Callback(p.dir, p.ids)))
        else
          // the run is active: leave it and go on
          Some(Stopped(s, a, Walking(p.ids)))
      else None
    case EndCallback => if p.Callback? then Some(Moved(s, a, CallbackDone(p.dir, p.ids))) else None
  }

  ghost function ApplyRemoval(s: State, a: Actor, action: Removal): Option<State>
    requires Known(s, a)
  {
    var p := PhaseOf(s, a);
    match action
    case CheckEntries(dir) =>
      if dir in s.roots && MayRemove(p, dir) && Temporary(s.roots[dir].place) && FixedEntries(s.roots[dir], true) then
        Some(Moved(s, a, WithChecked(p, dir)))
      else None
    case UnlinkLiveness(dir) =>
      // through the directory's descriptor, whatever happened since the check
      if dir in s.roots && CheckedDir(p) == Some(dir) then Some(WithRoot(s, dir, s.roots[dir].(liveness := false))) else None
    case UnlinkRecovery(dir) =>
      if dir in s.roots && CheckedDir(p) == Some(dir) && !s.roots[dir].liveness then
        Some(WithRoot(s, dir, s.roots[dir].(recovery := false)))
      else None
    case RemoveRoot(dir) =>
      // a directory is removed only when it is empty
      if && dir in s.roots && CheckedDir(p) == Some(dir) && Temporary(s.roots[dir].place)
         && !s.roots[dir].liveness && !s.roots[dir].recovery && !s.roots[dir].network then
        Some(WithRoot(s, dir, s.roots[dir].(place := Gone)))
      else None
  }

  ghost function ApplyCompletion(s: State, a: Actor, action: Completion): Option<State>
    requires Known(s, a)
  {
    var p := PhaseOf(s, a);
    match action
    case LockAuthority =>
      if (p.CallbackDone? || p.Completing?) && s.authority.None? then
        Some(Moved(s, a, Final(p.dir, if p.CallbackDone? then p.ids else [])).(authority := Some(a)))
      else None
    case ValidateEntries =>
      if p.Final? && s.roots[p.dir].place.InRun? && FixedEntries(s.roots[p.dir], false) then
        Some(Moved(s, a, Validated(p.dir, p.ids)))
      else None
    case Isolate =>
      // by name, whatever happened since the entries were validated
      if p.Validated? && s.roots[p.dir].place.InRun? then
        Some(Moved(WithRoot(s, p.dir, s.roots[p.dir].(place := InRemoving(s.roots[p.dir].place.id))), a,
                   Isolated(p.dir, p.ids, false)))
      else None
    case Finish =>
      if p.Isolated? then Some(Stopped(s, a, Walking(p.ids))) else if p.Discarding? then Some(Stopped(s, a, Idle)) else None
  }

  /** One step of one actor; none when the step is not enabled. */
  ghost function Apply(s: State, a: Actor, action: Action): Option<State> {
    if !Known(s, a) then None
    else
      match action
      case Create(c) => ApplyCreation(s, a, c)
      case Publishing(p) => ApplyPublication(s, a, p)
      case OfLive(l) => ApplyLiving(s, a, l)
      case Recovering(w) => ApplyWalk(s, a, w)
      case Claiming(c) => ApplyClaim(s, a, c)
      case Removing(r) => ApplyRemoval(s, a, r)
      case Complete(c) => ApplyCompletion(s, a, c)
      case GiveUp => Some(Stopped(s, a, Idle))
  }

  // ---------------------------------------------------------------- the invariant

  /** What holds of one actor in its phase, given the root it works on. */
  ghost predicate PhaseFits(p: Phase, a: Actor, r: Root) {
    && (r.liveHolder == Some(a) <==> HoldsLive(p))
    && (r.recoveryHolder == Some(a) <==> HoldsRecovery(p))
    && (InCreation(p) || IsLive(p) ==> r.maker == a)
    && (InCreation(p) ==> !r.network)
    && (p.Staging? || p.StagedLocked? ==> r.place.InStaging?)
    && (p.StagedLocked? ==> r.liveness && r.recovery)
    && (p.PublishedUnsynced? || IsLive(p) ==> r.place.InRun?)
    && (p.Discarding? ==> r.place.InStaging? || r.place.InRun? || r.place.Gone?)
    && (p.Validated? ==> r.place.InRun? && !r.network)
    && (p.Isolated? ==> r.place.InRemoving? || r.place.Gone?)
  }

  ghost predicate ActorFits(s: State, a: Actor) {
    var p := PhaseOf(s, a);
    && (HoldsAuthority(p) <==> s.authority == Some(a))
    && (DirOf(p).Some? ==> DirOf(p).value in s.roots && PhaseFits(p, a, s.roots[DirOf(p).value]))
    && CheckFits(s, CheckedDir(p))
  }

  /** What was checked for removal is still no published root. */
  ghost predicate CheckFits(s: State, checked: Option<DirID>) {
    checked.Some? ==> checked.value in s.roots && !s.roots[checked.value].place.InRun?
  }

  ghost predicate RootFits(s: State, d: DirID)
    requires d in s.roots
  {
    var r := s.roots[d];
    && (r.liveHolder.Some? ==> DirOf(PhaseOf(s, r.liveHolder.value)) == Some(d))
    && (r.recoveryHolder.Some? ==> DirOf(PhaseOf(s, r.recoveryHolder.value)) == Some(d))
    && (r.place.InRun? ==> r.liveness && r.recovery)
    && (r.network ==> r.place.InRun?)
  }

  ghost predicate OneRootPerName(s: State) {
    forall d, e :: d in s.roots && e in s.roots && s.roots[d].place.InRun? && s.roots[d].place == s.roots[e].place ==> d == e
  }

  ghost predicate Inv(s: State) {
    && (forall a: Actor :: ActorFits(s, a))
    && (forall d :: d in s.roots ==> RootFits(s, d))
    && OneRootPerName(s)
  }

  /** The step touched at most this actor's phase, this root, and the authority lock on this actor's behalf. */
  ghost predicate Local(s: State, t: State, a: Actor, d: DirID) {
    && (forall b: Actor :: b != a ==> PhaseOf(t, b) == PhaseOf(s, b))
    && (forall e :: e != d ==> (e in t.roots <==> e in s.roots) && (e in s.roots ==> t.roots[e] == s.roots[e]))
    && (d in s.roots ==> d in t.roots)
    && (t.authority == s.authority || (s.authority.None? && t.authority == Some(a))
             || (s.authority == Some(a) && t.authority.None?))
  }

  /** Another actor working on the changed root still fits. */
  ghost predicate OthersFit(s: State, t: State, a: Actor, d: DirID) {
    forall b: Actor :: b != a && DirOf(PhaseOf(s, b)) == Some(d) && d in s.roots && d in t.roots
                       && PhaseFits(PhaseOf(s, b), b, s.roots[d]) ==>
                         PhaseFits(PhaseOf(s, b), b, t.roots[d])
  }

  ghost predicate NameStaysUnique(s: State, t: State, d: DirID) {
    d in t.roots && t.roots[d].place.InRun? ==>
      (d in s.roots && t.roots[d].place == s.roots[d].place) || !NameTaken(s, t.roots[d].place.id)
  }

  /** Only under the authority lock does a root become a published one. */
  ghost predicate PublishedUnderLock(s: State, t: State, a: Actor, d: DirID) {
    d in s.roots && d in t.roots && t.roots[d].place.InRun? ==> s.roots[d].place.InRun? || HoldsAuthority(PhaseOf(s, a))
  }

  /** A local step keeps the invariant when it fits its own actor and root and does not disturb the others. */
  lemma LocalStep(s: State, t: State, a: Actor, d: DirID)
    requires Inv(s) && Local(s, t, a, d) && ActorFits(t, a) && OthersFit(s, t, a, d) && NameStaysUnique(s, t, d)
    requires d in t.roots ==> RootFits(t, d)
    requires PublishedUnderLock(s, t, a, d)
    // roots the actor leaves are no longer held by it
    requires forall e :: e != d && e in s.roots ==> s.roots[e].liveHolder != Some(a) && s.roots[e].recoveryHolder != Some(a)
    ensures Inv(t)
  {
    forall b: Actor ensures ActorFits(t, b) {
      if b != a {
        assert ActorFits(s, b);
        Rivals(s, a, b);
      }
    }
    forall e | e in t.roots ensures RootFits(t, e) {
      if e != d {
        assert RootFits(s, e);
      }
    }
  }

  /** An actor holds locks only of the root it works on. */
  lemma HeldElsewhere(s: State, a: Actor, d: DirID)
    requires Inv(s) && (DirOf(PhaseOf(s, a)) == None || DirOf(PhaseOf(s, a)) == Some(d))
    ensures forall e :: e != d && e in s.roots ==> s.roots[e].liveHolder != Some(a) && s.roots[e].recoveryHolder != Some(a)
  {
    forall e | e != d && e in s.roots ensures s.roots[e].liveHolder != Some(a) && s.roots[e].recoveryHolder != Some(a) {
      assert RootFits(s, e);
    }
  }

  /** What the invariant says of an actor that works on a root. */
  lemma Facts(s: State, a: Actor, d: DirID)
    requires Inv(s) && DirOf(PhaseOf(s, a)) == Some(d)
    ensures d in s.roots && PhaseFits(PhaseOf(s, a), a, s.roots[d]) && RootFits(s, d)
    ensures HoldsAuthority(PhaseOf(s, a)) <==> s.authority == Some(a)
  {
    assert ActorFits(s, a);
  }

  /** Two actors in the way of each other: at most one has the authority, and a root has one maker. */
  lemma Rivals(s: State, a: Actor, b: Actor)
    requires Inv(s) && b != a
    ensures !(HoldsAuthority(PhaseOf(s, a)) && HoldsAuthority(PhaseOf(s, b)))
  {
    assert ActorFits(s, a) && ActorFits(s, b);
  }

  // ---------------------------------------------------------------- steps that only move the actor

  lemma MoveOnly(s: State, t: State, a: Actor, d: DirID, p: Phase)
    requires Inv(s) && DirOf(PhaseOf(s, a)) == Some(d) && DirOf(p) == Some(d)
    requires t == Moved(s, a, p).(authority := t.authority)
    requires t.authority == s.authority || (s.authority.None? && t.authority == Some(a))
             || (s.authority == Some(a) && t.authority.None?)
    requires HoldsAuthority(p) <==> t.authority == Some(a)
    requires d in s.roots && PhaseFits(p, a, s.roots[d]) && CheckFits(s, CheckedDir(p))
    ensures Inv(t)
  {
    Facts(s, a, d);
    HeldElsewhere(s, a, d);
    RootStays(s, t, a, d);
    LocalStep(s, t, a, d);
  }

  /** A root no one else changed still fits when its own actor stays with it. */
  lemma RootStays(s: State, t: State, a: Actor, d: DirID)
    requires Inv(s) && d in s.roots && d in t.roots && t.roots[d] == s.roots[d]
    requires forall b: Actor :: b != a ==> PhaseOf(t, b) == PhaseOf(s, b)
    requires DirOf(PhaseOf(s, a)) == Some(d) ==> DirOf(PhaseOf(t, a)) == Some(d)
    ensures RootFits(t, d)
  {
    assert RootFits(s, d);
  }

  lemma WithoutRoot(s: State, t: State, a: Actor)
    requires Inv(s) && DirOf(PhaseOf(s, a)) == None && t.roots == s.roots
    requires forall b: Actor :: b != a ==> PhaseOf(t, b) == PhaseOf(s, b)
    requires t.authority == s.authority || (s.authority.None? && t.authority == Some(a))
             || (s.authority == Some(a) && t.authority.None?)
    requires HoldsAuthority(PhaseOf(t, a)) <==> t.authority == Some(a)
    requires var d := DirOf(PhaseOf(t, a)); d.Some? ==> d.value in s.roots && PhaseFits(PhaseOf(t, a), a, s.roots[d.value])
    requires CheckFits(s, CheckedDir(PhaseOf(t, a)))
    ensures Inv(t)
  {
    forall b: Actor ensures ActorFits(t, b) {
      if b != a {
        assert ActorFits(s, b);
      }
    }
    forall e | e in t.roots ensures RootFits(t, e) {
      assert RootFits(s, e);
    }
  }

  // ---------------------------------------------------------------- steps that change the actor's root

  /** The root changes, and the actor stays with it in phase `p`. */
  lemma RootStep(s: State, t: State, a: Actor, d: DirID, r: Root, p: Phase)
    requires Inv(s) && DirOf(PhaseOf(s, a)) == Some(d) && DirOf(p) == Some(d)
    requires t == Moved(WithRoot(s, d, r), a, p)
    requires HoldsAuthority(p) <==> HoldsAuthority(PhaseOf(s, a))
    requires PhaseFits(p, a, r)
    requires OthersFit(s, t, a, d) && NameStaysUnique(s, t, d)
    requires d in s.roots
    // locks change hands only to or from this actor
    requires r.liveHolder == s.roots[d].liveHolder || r.liveHolder == Some(a) || r.liveHolder.None?
    requires r.recoveryHolder == s.roots[d].recoveryHolder || r.recoveryHolder == Some(a) || r.recoveryHolder.None?
    requires r.place.InRun? ==> r.liveness && r.recovery
    requires r.network ==> r.place.InRun?
    requires r.place.InRun? ==> s.roots[d].place.InRun? || HoldsAuthority(PhaseOf(s, a))
    requires CheckedDir(p).Some? ==> CheckedDir(p).value == d && !r.place.InRun?
    ensures Inv(t)
  {
    Facts(s, a, d);
    HeldElsewhere(s, a, d);
    LocalStep(s, t, a, d);
  }

  lemma OthersUnmoved(s: State, t: State, a: Actor, d: DirID, r: Root)
    requires Inv(s) && d in s.roots && d in t.roots && t.roots[d] == r
    requires r.place == s.roots[d].place && r.maker == s.roots[d].maker
    requires r.network ==> s.roots[d].network || (s.roots[d].maker == a && s.roots[d].liveHolder == Some(a))
    requires r.liveness == s.roots[d].liveness || !s.roots[d].liveness
    requires r.recovery == s.roots[d].recovery || !s.roots[d].recovery
    requires LockMoves(s.roots[d].liveHolder, r.liveHolder, a) && LockMoves(s.roots[d].recoveryHolder, r.recoveryHolder, a)
    ensures OthersFit(s, t, a, d)
  {
  }

  /** A lock stays, or this actor takes it free or gives it up. */
  ghost predicate LockMoves(before: Option<Actor>, after: Option<Actor>, a: Actor) {
    before == after || (before.None? && after == Some(a)) || (before == Some(a) && after.None?)
  }

  // ---------------------------------------------------------------- every step keeps the invariant

  lemma StoppedKeepsInvariant(s: State, a: Actor, p: Phase)
    requires Inv(s) && DirOf(p).None? && !HoldsAuthority(p)
    ensures Inv(Stopped(s, a, p))
  {
    var t := Stopped(s, a, p);
    var dir := DirOf(PhaseOf(s, a));
    assert ActorFits(s, a);
    if dir.Some? {
      var d := dir.value;
      Facts(s, a, d);
      HeldElsewhere(s, a, d);
      OthersUnmoved(s, t, a, d, Released(s.roots[d], a));
      LocalStep(s, t, a, d);
    } else {
      WithoutRoot(s, t, a);
    }
  }

  lemma CreationKeepsInvariant(s: State, a: Actor, action: Creation, t: State)
    requires Inv(s) && Known(s, a) && ApplyCreation(s, a, action) == Some(t)
    ensures Inv(t)
  {
    var p := PhaseOf(s, a);
    assert ActorFits(s, a);
    if action.BeginCreate? {
      WithoutRoot(s, t, a);
    } else if action.MakeStaging? {
      HeldElsewhere(s, a, action.dir);
      NobodyWorksOnMissing(s, t, a, action.dir);
      LocalStep(s, t, a, action.dir);
    } else {
      Facts(s, a, p.dir);
      OthersUnmoved(s, t, a, p.dir, t.roots[p.dir]);
      RootStep(s, t, a, p.dir, t.roots[p.dir], PhaseOf(t, a));
    }
  }

  lemma NobodyWorksOnMissing(s: State, t: State, a: Actor, d: DirID)
    requires Inv(s) && d !in s.roots
    ensures OthersFit(s, t, a, d)
  {
  }

  lemma RenameKeepsInvariant(s: State, a: Actor, action: Publication, t: State, d: DirID)
    requires Inv(s) && Known(s, a) && ApplyPublication(s, a, action) == Some(t) && DirOf(PhaseOf(s, a)) == Some(d)
    requires action.Publish? || action.DiscardRename?
    ensures Inv(t)
  {
    Facts(s, a, d);
    RenamedByMaker(s, t, a, d, t.roots[d]);
    RootStep(s, t, a, d, t.roots[d], PhaseOf(t, a));
  }

  lemma FailKeepsInvariant(s: State, a: Actor, t: State, d: DirID)
    requires Inv(s) && Known(s, a) && ApplyPublication(s, a, FailCreate) == Some(t) && DirOf(PhaseOf(s, a)) == Some(d)
    ensures Inv(t)
  {
    Facts(s, a, d);
    OthersUnmoved(s, t, a, d, t.roots[d]);
    RootStep(s, t, a, d, t.roots[d], PhaseOf(t, a));
  }

  lemma PublicationKeepsInvariant(s: State, a: Actor, action: Publication, t: State)
    requires Inv(s) && Known(s, a) && ApplyPublication(s, a, action) == Some(t)
    ensures Inv(t)
  {
    var p := PhaseOf(s, a);
    match action {
      case FinishCreate =>
        Facts(s, a, p.dir);
        MoveOnly(s, t, a, p.dir, Live(p.dir));
      case FailCreate => FailKeepsInvariant(s, a, t, p.dir);
      case _ => RenameKeepsInvariant(s, a, action, t, p.dir);
    }
  }

  /** A maker renames its root under the authority lock: nobody else relies on the old name. */
  lemma RenamedByMaker(s: State, t: State, a: Actor, d: DirID, r: Root)
    requires Inv(s) && d in s.roots && d in t.roots && t.roots[d] == r && r == s.roots[d].(place := r.place)
    requires HoldsAuthority(PhaseOf(s, a)) && s.roots[d].maker == a
    ensures OthersFit(s, t, a, d)
  {
    forall b: Actor | b != a && DirOf(PhaseOf(s, b)) == Some(d) && PhaseFits(PhaseOf(s, b), b, s.roots[d])
      ensures PhaseFits(PhaseOf(s, b), b, t.roots[d])
    {
      Rivals(s, a, b);
    }
  }

  lemma LivingKeepsInvariant(s: State, a: Actor, action: Living, t: State)
    requires Inv(s) && Known(s, a) && ApplyLiving(s, a, action) == Some(t)
    ensures Inv(t)
  {
    var p := PhaseOf(s, a);
    if action.CloseLive? || action.ReleaseRetained? {
      StoppedKeepsInvariant(s, a, Idle);
    } else {
      Facts(s, a, p.dir);
      if action.Retain? || action.BeginComplete? {
        MoveOnly(s, t, a, p.dir, PhaseOf(t, a));
      } else {
        OthersUnmoved(s, t, a, p.dir, t.roots[p.dir]);
        RootStep(s, t, a, p.dir, t.roots[p.dir], PhaseOf(t, a));
      }
    }
  }

  lemma WalkKeepsInvariant(s: State, a: Actor, action: Walk, t: State)
    requires Inv(s) && Known(s, a) && ApplyWalk(s, a, action) == Some(t)
    ensures Inv(t)
  {
    assert ActorFits(s, a);
    if action.OpenRoot? {
      assert RootFits(s, action.dir);
    }
    WithoutRoot(s, t, a);
  }

  lemma LockKeepsInvariant(s: State, a: Actor, action: Claim, t: State, d: DirID)
    requires Inv(s) && Known(s, a) && ApplyClaim(s, a, action) == Some(t) && DirOf(PhaseOf(s, a)) == Some(d)
    requires action.LockRecovery? || (action.LockLiveness? && d in s.roots && s.roots[d].liveHolder.None?)
    ensures Inv(t)
  {
    Facts(s, a, d);
    OthersUnmoved(s, t, a, d, t.roots[d]);
    RootStep(s, t, a, d, t.roots[d], PhaseOf(t, a));
  }

  lemma OpenKeepsInvariant(s: State, a: Actor, action: Claim, t: State, d: DirID)
    requires Inv(s) && Known(s, a) && ApplyClaim(s, a, action) == Some(t) && DirOf(PhaseOf(s, a)) == Some(d)
    requires action.OpenRecovery? || action.OpenLiveness? || action.EndCallback?
    ensures Inv(t)
  {
    Facts(s, a, d);
    MoveOnly(s, t, a, d, PhaseOf(t, a));
  }

  lemma {:induction false} ClaimKeepsInvariant(s: State, a: Actor, action: Claim, t: State)
    requires Inv(s) && Known(s, a) && ApplyClaim(s, a, action) == Some(t)
    ensures Inv(t)
  {
    var p := PhaseOf(s, a);
    match action {
      case LockRecovery => LockKeepsInvariant(s, a, action, t, p.dir);
      case LockLiveness =>
        if s.roots[p.dir].liveHolder.Some? {
          StoppedKeepsInvariant(s, a, Walking(p.ids));
        } else {
          LockKeepsInvariant(s, a, action, t, p.dir);
        }
      case _ => OpenKeepsInvariant(s, a, action, t, p.dir);
    }
  }

  /** Entries of a temporary root are taken away under the authority lock: nobody else relies on them. */
  lemma TakenAway(s: State, t: State, a: Actor, d: DirID, r: Root)
    requires Inv(s) && d in s.roots && d in t.roots && t.roots[d] == r
    requires HoldsAuthority(PhaseOf(s, a)) && !s.roots[d].place.InRun?
    requires r == s.roots[d].(liveness := r.liveness, recovery := r.recovery, place := r.place)
    ensures OthersFit(s, t, a, d)
  {
    forall b: Actor | b != a && DirOf(PhaseOf(s, b)) == Some(d) && PhaseFits(PhaseOf(s, b), b, s.roots[d])
      ensures PhaseFits(PhaseOf(s, b), b, t.roots[d])
    {
      Rivals(s, a, b);
    }
  }

  lemma CheckKeepsInvariant(s: State, a: Actor, d: DirID, t: State)
    requires Inv(s) && Known(s, a) && ApplyRemoval(s, a, CheckEntries(d)) == Some(t)
    ensures Inv(t)
  {
    var p := PhaseOf(s, a);
    assert ActorFits(s, a);
    if p.Snapshotting? {
      WithoutRoot(s, t, a);
    } else {
      Facts(s, a, d);
      MoveOnly(s, t, a, d, WithChecked(p, d));
    }
  }

  lemma RemovalKeepsInvariant(s: State, a: Actor, action: Removal, t: State)
    requires Inv(s) && Known(s, a) && ApplyRemoval(s, a, action) == Some(t)
    ensures Inv(t)
  {
    var d := action.dir;
    if action.CheckEntries? {
      CheckKeepsInvariant(s, a, d, t);
    } else {
      assert ActorFits(s, a) && RootFits(s, d);
      TakenAway(s, t, a, d, t.roots[d]);
      HeldElsewhere(s, a, d);
      LocalStep(s, t, a, d);
    }
  }

  /** The holder of both locks and the authority renames a run root: no live lease relies on it. */
  lemma IsolatedByHolder(s: State, t: State, a: Actor, d: DirID, r: Root)
    requires Inv(s) && d in s.roots && d in t.roots && t.roots[d] == r && r == s.roots[d].(place := r.place)
    requires HoldsAuthority(PhaseOf(s, a)) && s.roots[d].liveHolder == Some(a)
    ensures OthersFit(s, t, a, d)
  {
    forall b: Actor | b != a && DirOf(PhaseOf(s, b)) == Some(d) && PhaseFits(PhaseOf(s, b), b, s.roots[d])
      ensures PhaseFits(PhaseOf(s, b), b, t.roots[d])
    {
      Rivals(s, a, b);
    }
  }

  lemma {:induction false} CompletionKeepsInvariant(s: State, a: Actor, action: Completion, t: State)
    requires Inv(s) && Known(s, a) && ApplyCompletion(s, a, action) == Some(t)
    ensures Inv(t)
  {
    var p := PhaseOf(s, a);
    match action {
      case Finish =>
        StoppedKeepsInvariant(s, a, PhaseOf(t, a));
      case LockAuthority =>
        Facts(s, a, p.dir);
        MoveOnly(s, t, a, p.dir, PhaseOf(t, a));
      case ValidateEntries =>
        Facts(s, a, p.dir);
        MoveOnly(s, t, a, p.dir, PhaseOf(t, a));
      case Isolate =>
        Facts(s, a, p.dir);
        IsolatedByHolder(s, t, a, p.dir, t.roots[p.dir]);
        RootStep(s, t, a, p.dir, t.roots[p.dir], PhaseOf(t, a));
    }
  }

  lemma {:induction false} StepKeepsInvariant(s: State, a: Actor, action: Action)
    requires Inv(s) && Apply(s, a, action).Some?
    ensures Inv(Apply(s, a, action).value)
  {
    var t := Apply(s, a, action).value;
    match action {
      case Create(c) => CreationKeepsInvariant(s, a, c, t);
      case Publishing(p) => PublicationKeepsInvariant(s, a, p, t);
      case OfLive(l) => LivingKeepsInvariant(s, a, l, t);
      case Recovering(w) => WalkKeepsInvariant(s, a, w, t);
      case Claiming(c) => ClaimKeepsInvariant(s, a, c, t);
      case Removing(r) => RemovalKeepsInvariant(s, a, r, t);
      case Complete(c) => CompletionKeepsInvariant(s, a, c, t);
      case GiveUp => StoppedKeepsInvariant(s, a, Idle);
    }
  }

  // ---------------------------------------------------------------- whole runs

  const INITIAL: State := State(None, map[], map[])

  /** The state after some steps; steps that are not enabled do not happen. */
  ghost function After(steps: seq<(Actor, Action)>): State {
    if steps == [] then INITIAL
    else
      var before := After(steps[..|steps| - 1]);
      var step := steps[|steps| - 1];
      var next := Apply(before, step.0, step.1);
      if next.Some? then next.value else before
  }

  lemma {:induction false} EveryReachableStateFits(steps: seq<(Actor, Action)>)
    ensures Inv(After(steps))
  {
    if steps == [] {
      assert forall a: Actor :: ActorFits(INITIAL, a);
    } else {
      var before, step := After(steps[..|steps| - 1]), steps[|steps| - 1];
      EveryReachableStateFits(steps[..|steps| - 1]);
      if Apply(before, step.0, step.1).Some? {
        StepKeepsInvariant(before, step.0, step.1);
      }
    }
  }

  /** While a recovery callback runs, nobody holds a live or retained lease on its root and no other callback has it. */
  lemma {:induction false} CallbackIsExclusive(steps: seq<(Actor, Action)>, a: Actor, b: Actor)
    requires PhaseOf(After(steps), a).Callback? && b != a
    ensures var p, q := PhaseOf(After(steps), a), PhaseOf(After(steps), b);
            DirOf(q) == Some(p.dir) ==> !IsLive(q) && !HoldsBoth(q) && !q.StagedLocked? && !q.PublishedUnsynced?
  {
    var s := After(steps);
    EveryReachableStateFits(steps);
    assert ActorFits(s, a) && ActorFits(s, b);
  }

  /** A run has one published root, so two callbacks on a published root of the same run are the same callback. */
  lemma {:induction false} OneCallbackPerRun(steps: seq<(Actor, Action)>, a: Actor, b: Actor, id: RunID)
    requires var s := After(steps);
             && PhaseOf(s, a).Callback? && PhaseOf(s, a).dir in s.roots && s.roots[PhaseOf(s, a).dir].place == InRun(id)
             && PhaseOf(s, b).Callback? && PhaseOf(s, b).dir in s.roots && s.roots[PhaseOf(s, b).dir].place == InRun(id)
    ensures a == b
  {
    var s := After(steps);
    EveryReachableStateFits(steps);
    assert ActorFits(s, a) && ActorFits(s, b);
  }

  /**
    What a snapshot or a remover takes away, at any time after it looked, is never a creation in progress,
    a live run's root or evidence.
  */
  lemma {:induction false} RemovalSparesCreations(steps: seq<(Actor, Action)>, a: Actor, b: Actor, removal: Removal)
    requires b != a && Apply(After(steps), a, Removing(removal)).Some?
    ensures var q := PhaseOf(After(steps), b); !InCreation(q) && !(DirOf(q) == Some(removal.dir) && IsLive(q))
    ensures removal.dir in After(steps).roots && !After(steps).roots[removal.dir].network
  {
    var s := After(steps);
    EveryReachableStateFits(steps);
    Rivals(s, a, b);
    assert ActorFits(s, a) && ActorFits(s, b) && RootFits(s, removal.dir);
  }

  /**
    A root is isolated for removal only when it still holds just its two lock files, however long ago they
    were looked at, and by the holder of both.
  */
  lemma {:induction false} IsolationIsSafe(steps: seq<(Actor, Action)>, a: Actor, d: DirID)
    requires DirOf(PhaseOf(After(steps), a)) == Some(d) && Apply(After(steps), a, Complete(Isolate)).Some?
    ensures var s := After(steps);
            && d in s.roots && s.roots[d].place.InRun? && s.roots[d].liveness && s.roots[d].recovery && !s.roots[d].network
            && s.roots[d].liveHolder == Some(a) && s.roots[d].recoveryHolder == Some(a)
    ensures forall b: Actor :: b != a ==> !(DirOf(PhaseOf(After(steps), b)) == Some(d) && IsLive(PhaseOf(After(steps), b)))
  {
    var s := After(steps);
    EveryReachableStateFits(steps);
    Facts(s, a, d);
    forall b: Actor | b != a ensures !(DirOf(PhaseOf(s, b)) == Some(d) && IsLive(PhaseOf(s, b))) {
      assert ActorFits(s, b);
    }
  }

  /** Evidence is only ever found in a published root with both its lock files, so it is never removed with a root. */
  lemma {:induction false} EvidenceStaysPublished(steps: seq<(Actor, Action)>, d: DirID)
    requires d in After(steps).roots && After(steps).roots[d].network
    ensures After(steps).roots[d].place.InRun? && After(steps).roots[d].liveness && After(steps).roots[d].recovery
  {
    EveryReachableStateFits(steps);
    assert RootFits(After(steps), d);
  }

  /** A lease handed to process containment is given up only by its completion or by the holder's death. */
  lemma RetainedIsKept(s: State, a: Actor, b: Actor, action: Action, t: State)
    requires Inv(s) && PhaseOf(s, a).Retained? && Apply(s, b, action) == Some(t)
    requires !(b == a && (action == OfLive(ReleaseRetained) || action == GiveUp))
    ensures PhaseOf(t, a) == PhaseOf(s, a)
    ensures DirOf(PhaseOf(s, a)).value in t.roots && t.roots[DirOf(PhaseOf(s, a)).value].liveHolder == Some(a)
  {
    StepKeepsInvariant(s, b, action);
    assert ActorFits(t, a);
    OnlyOwnPhase(s, b, action, t, a);
  }

  /** A step of one actor leaves the phase of every other, and a retained lease has no step but its release. */
  lemma OnlyOwnPhase(s: State, b: Actor, action: Action, t: State, a: Actor)
    requires Apply(s, b, action) == Some(t)
    ensures b != a ==> PhaseOf(t, a) == PhaseOf(s, a)
    ensures b == a && PhaseOf(s, a).Retained? ==> action == OfLive(ReleaseRetained) || action == GiveUp
  {
  }
}
