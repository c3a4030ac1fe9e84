/**
  The evidence directory of one run: a claim and an activation published by rename, staging removed by
  isolation, and every operation and every sync able to fail.  A crash keeps some prefix of the
  directory operations made since the last completed sync.
*/
module EvidenceStore {
  import opened Wrappers

  type Claim = nat

  datatype Name =
    | ClaimFile
    | ActivationFile
    | ClaimTemporary
    | ActivationTemporary
    | ClaimDiscard(id: nat)
    | ActivationDiscard(id: nat)

  datatype Content = Partial | ClaimOf(claim: Claim) | ActivationOf(claim: Claim)

  type Directory = map<Name, Content>

  /** The run root holds the network directory or does not. */
  type Store = Option<Directory>

  datatype Evidence = Evidence(claim: Claim, activated: bool)

  predicate IsStaging(name: Name) {
    name != ClaimFile && name != ActivationFile
  }

  predicate OfActivation(name: Name) {
    name == ActivationTemporary || name.ActivationDiscard?
  }

  function StagingOf(d: Directory): set<Name> {
    set name | name in d && IsStaging(name)
  }

  datatype Inspection = Inspection(claim: bool, activation: bool, staging: set<Name>)

  /** What the names in the directory say, or that they contradict each other. */
  function Inspect(d: Directory): Option<Inspection> {
    var staging := StagingOf(d);
    if ActivationFile in d && ClaimFile !in d then None
    else if |staging| > 1 then None
    else if (exists name :: name in staging && OfActivation(name)) && ClaimFile !in d then None
    else if ActivationFile in d && staging != {} then None
    else Some(Inspection(ClaimFile in d, ActivationFile in d, staging))
  }

  /** The directory is accepted and its published files are whole and belong together. */
  ghost predicate Good(d: Directory) {
    && Inspect(d).Some?
    && (ClaimFile in d ==> d[ClaimFile].ClaimOf?)
    && (ActivationFile in d ==> ClaimFile in d && d[ActivationFile] == ActivationOf(d[ClaimFile].claim))
  }

  ghost predicate GoodStore(s: Store) {
    s.Some? ==> Good(s.value)
  }

  /** The evidence a directory holds, if its claim is there. */
  function EvidenceIn(s: Store): Option<Evidence> {
    if s.Some? && ClaimFile in s.value && s.value[ClaimFile].ClaimOf? then
      Some(Evidence(s.value[ClaimFile].claim, ActivationFile in s.value))
    else None
  }

  datatype Event = Works | FailsBefore | FailsAfter | Dies

  /** The published entries. */
  function Published(d: Directory): Directory {
    d - StagingOf(d)
  }

  function Moved(d: Directory, from: Name, to: Name, content: Content): Directory {
    (d - {from})[to := content]
  }

  class Disk {
    var visible: Store
    // what may be found after a crash
    var durable: set<Store>
    // the names whose contents were written but not synced
    var unsynced: set<Name>
    var dead: bool
    var clock: nat
    const events: nat -> Event

    /** A new process at work on a directory, with what earlier processes did not sync still unsynced. */
    constructor (visible: Store, durable: set<Store>, unsynced: set<Name>, events: nat -> Event)
      requires visible in durable && (forall s :: s in durable ==> GoodStore(s))
      requires forall name :: name in unsynced ==> IsStaging(name)
      ensures this.visible == visible && this.durable == durable && this.unsynced == unsynced
      ensures this.events == events && !dead && Valid()
    {
      this.visible, this.durable, this.unsynced, this.events := visible, durable, unsynced, events;
      dead, clock := false, 0;
    }

    /** Whatever a crash leaves is accepted, whole and consistent. */
    ghost predicate Valid()
      reads this
    {
      visible in durable && (forall s :: s in durable ==> GoodStore(s)) && forall name :: name in unsynced ==> IsStaging(name)
    }

    /** From here on every operation of this process works. */
    ghost predicate Smooth()
      reads this`dead, this`clock
    {
      !dead && forall k :: clock <= k ==> events(k) == Works
    }

    method Attempt() returns (happens: bool, ok: bool)
      modifies this`dead, this`clock
      ensures ok ==> happens
      ensures happens ==> !old(dead)
      ensures old(Smooth()) ==> ok && Smooth()
    {
      if dead {
        return false, false;
      }
      var event := events(clock);
      clock := clock + 1;
      dead := event == Dies;
      happens := event == Works || event == FailsAfter;
      ok := event == Works;
    }

    /** One directory operation, not yet synced. */
    method Change(next: Store) returns (ok: bool)
      requires Valid() && GoodStore(next)
      modifies this`visible, this`durable, this`dead, this`clock
      ensures Valid()
      ensures || (visible == old(visible) && durable == old(durable))
              || (visible == next && durable == old(durable) + {next})
      ensures ok ==> visible == next && durable == old(durable) + {next}
      ensures old(Smooth()) ==> ok && Smooth()
    {
      var happens;
      happens, ok := Attempt();
      if happens {
        visible := next;
        durable := durable + {next};
      }
    }

    /** Publishes a written file under its final name; a crash finds its contents only because they were synced. */
    method PublishRename(from: Name, to: Name) returns (ok: bool)
      requires Valid() && visible.Some? && from in visible.value && from !in unsynced
      requires Good(Moved(visible.value, from, to, visible.value[from]))
      modifies this`visible, this`durable, this`dead, this`clock
      ensures Valid()
      ensures var next := Some(Moved(old(visible).value, from, to, old(visible).value[from]));
              && (|| (visible == old(visible) && durable == old(durable))
                  || (visible == next && durable == old(durable) + {next}))
              && (ok ==> visible == next && durable == old(durable) + {next})
      ensures old(Smooth()) && to !in old(visible).value ==> ok && Smooth()
    {
      var next := Some(Moved(visible.value, from, to, visible.value[from]));
      var empty := Some(Moved(visible.value, from, to, Partial));
      var happens;
      happens, ok := Attempt();
      if to in visible.value {
        return false;
      }
      if happens {
        // without the sync of the file, a crash could find the new name with nothing in it
        durable := durable + {next} + if from in unsynced then {empty} else {};
        visible := next;
      }
    }

    /** Makes what is visible durable. */
    method Sync() returns (ok: bool)
      requires Valid()
      modifies this`durable, this`dead, this`clock
      ensures Valid() && durable <= old(durable)
      ensures ok ==> durable == {visible}
      ensures old(Smooth()) ==> ok && Smooth()
    {
      var happens;
      happens, ok := Attempt();
      if happens {
        durable := {visible};
      }
    }

    // -------------------------------------------------------------- staging

    /** Moves a staging file to an isolated name, checks it again and removes it. */
    method IsolateAndRemove(name: Name, id: nat) returns (ok: bool)
      requires Valid() && visible.Some? && name in StagingOf(visible.value)
      modifies this`visible, this`durable, this`dead, this`clock
      ensures Valid() && SamePublished(old(visible), visible) && OnlyStagingDiffers(old(durable), durable, visible)
      ensures ok ==> visible == Some(old(visible).value - {name}) && durable == {visible}
      ensures old(Smooth()) ==> ok && Smooth()
    {
      ghost var start := visible.value;
      OnlyStaging(start, name);
      var isolation := IsolationName(name, id);
      var happens;
      happens, ok := Attempt();
      if !ok {
        return;
      }
      StagingMoved(visible.value, name, isolation);
      ok := Change(Some(Moved(visible.value, name, isolation, visible.value[name])));
      if !ok {
        return;
      }
      var same;
      happens, same := Attempt();
      if !same {
        // another file took the name: put it back and give up
        StagingMoved(visible.value, isolation, name);
        var preserved := Change(Some(Moved(visible.value, isolation, name, visible.value[isolation])));
        return false;
      }
      StagingRemoved(visible.value, isolation);
      assert Moved(start, name, isolation, start[name]) - {isolation} == start - {name};
      ok := Change(Some(visible.value - {isolation}));
      if !ok {
        return;
      }
      ok := Sync();
    }

    method RemoveStaging(staging: set<Name>, id: nat) returns (ok: bool)
      requires Valid() && visible.Some? && staging == StagingOf(visible.value) && Inspect(visible.value).Some?
      modifies this`visible, this`durable, this`dead, this`clock
      ensures Valid() && SamePublished(old(visible), visible) && OnlyStagingDiffers(old(durable), durable, visible)
      ensures ok ==> visible == Some(Published(old(visible).value)) && (staging != {} ==> durable == {visible})
      ensures ok ==> Inspect(visible.value).Some? && StagingOf(visible.value) == {}
      ensures old(Smooth()) ==> ok && Smooth()
    {
      if staging == {} {
        NoStaging(visible.value);
        return true;
      }
      var name :| name in staging;
      AtMostOne(visible.value, name);
      ok := IsolateAndRemove(name, id);
      assert old(visible).value - {name} == Published(old(visible).value);
    }

    // -------------------------------------------------------------- publishing

    /** Creates, writes and syncs a file under its temporary name. */
    method Stage(temporary: Name, content: Content) returns (ok: bool)
      requires Valid() && visible.Some? && StagingOf(visible.value) == {} && IsStaging(temporary)
      requires Good(visible.value) && ActivationFile !in visible.value && (OfActivation(temporary) ==> ClaimFile in visible.value)
      modifies this
      ensures Valid() && SamePublished(old(visible), visible) && OnlyStagingDiffers(old(durable), durable, visible)
      ensures ok ==> visible == Some(old(visible).value[temporary := content]) && temporary !in unsynced
      ensures old(Smooth()) ==> ok && Smooth()
    {
      ghost var start := visible.value;
      OneStaging(start, temporary, Partial);
      OneStaging(start, temporary, content);
      ok := Change(Some(visible.value[temporary := Partial]));
      unsynced := unsynced + {temporary};
      if !ok {
        return;
      }
      assert start[temporary := Partial][temporary := content] == start[temporary := content];
      ok := Change(Some(visible.value[temporary := content]));
      if !ok {
        return;
      }
      var happens;
      happens, ok := Attempt();
      if happens {
        unsynced := unsynced - {temporary};
      }
      if !ok {
        return;
      }
      happens, ok := Attempt();
    }

    /** Writes, syncs and renames one file, then syncs the directory. */
    method WriteEvidence(temporary: Name, final: Name, content: Content) returns (ok: bool)
      requires Valid() && visible.Some? && StagingOf(visible.value) == {} && final !in visible.value
      requires IsStaging(temporary) && !IsStaging(final) && Publishable(visible.value, temporary, final, content)
      modifies this
      ensures Valid() && WriteStep(old(visible), old(durable), visible, durable, old(visible).value[final := content])
      ensures ok ==> visible == Some(old(visible).value[final := content]) && durable == {visible}
      ensures old(Smooth()) ==> ok && Smooth()
    {
      ghost var start := visible.value;
      ok := Stage(temporary, content);
      if !ok {
        return;
      }
      NoStaging(start);
      assert Moved(start[temporary := content], temporary, final, content) == start[final := content];
      ok := PublishRename(temporary, final);
      if !ok {
        return;
      }
      ok := Sync();
    }

    /** Publishes the claim of a run that has no evidence yet. */
    method PublishClaim(c: Claim, id: nat) returns (ok: bool)
      requires Valid()
      modifies this
      ensures Valid()
      ensures EvidenceIn(visible) == EvidenceIn(old(visible))
              || (EvidenceIn(old(visible)).None? && EvidenceIn(visible) == Some(Evidence(c, false)))
      ensures Seen(durable) <= Seen(old(durable)) + {Some(Evidence(c, false))}
      ensures ok ==> EvidenceIn(old(visible)).None? && durable == {visible} && visible == Some(map[ClaimFile := ClaimOf(c)])
      ensures old(Smooth()) && EvidenceIn(old(visible)).None? ==> ok && Smooth()
    {
      if visible.None? {
        EmptyIsGood();
        ok := Change(Some(map[]));
        if !ok {
          return;
        }
      }
      ok := Sync();
      if !ok {
        return;
      }
      var happens;
      happens, ok := Attempt();
      var state := Inspect(visible.value);
      if !ok || state.None? || state.value.claim || state.value.activation {
        return false;
      }
      ghost var clean := visible.value;
      ghost var seen := durable;
      ok := RemoveStaging(state.value.staging, id);
      StagingIsUnseen(seen, durable, Some(clean), visible);
      if !ok {
        return;
      }
      NothingPublished(clean);
      assert visible.value == map[];
      ghost var before := durable;
      EmptyCanPublish(c);
      ok := WriteEvidence(ClaimTemporary, ClaimFile, ClaimOf(c));
      StepIsSeen(Some(map[]), before, visible, durable, map[ClaimFile := ClaimOf(c)]);
    }

    /** Publishes the activation next to its claim. */
    method PublishActivation(c: Claim, id: nat) returns (ok: bool)
      requires Valid()
      modifies this
      ensures Valid()
      ensures EvidenceIn(visible) == EvidenceIn(old(visible))
              || (EvidenceIn(old(visible)) == Some(Evidence(c, false)) && EvidenceIn(visible) == Some(Evidence(c, true)))
      ensures Seen(durable) <= Seen(old(durable)) + {Some(Evidence(c, true))}
      ensures EvidenceIn(old(visible)) != Some(Evidence(c, false)) ==> Seen(durable) <= Seen(old(durable))
      ensures ok ==> Seen(durable) == {Some(Evidence(c, true))} && EvidenceIn(visible) == Some(Evidence(c, true))
      ensures old(Smooth()) && EvidenceIn(old(visible)) == Some(Evidence(c, false)) ==> ok && Smooth()
    {
      if visible.None? {
        return false;
      }
      var happens;
      happens, ok := Attempt();
      var state := Inspect(visible.value);
      if !ok || state.None? || !state.value.claim || state.value.activation {
        return false;
      }
      ghost var start := visible;
      ghost var seen := durable;
      ok := RemoveStaging(state.value.staging, id);
      StagingIsUnseen(seen, durable, start, visible);
      if !ok {
        return;
      }
      var actual;
      happens, actual := Attempt();
      if !actual || EvidenceIn(visible) != Some(Evidence(c, false)) {
        return false;
      }
      ghost var before, clean := durable, visible;
      ActivationCanBePublished(visible.value, c);
      ok := WriteEvidence(ActivationTemporary, ActivationFile, ActivationOf(c));
      StepIsSeen(clean, before, visible, durable, clean.value[ActivationFile := ActivationOf(c)]);
    }

    // -------------------------------------------------------------- loading and removing

    /** Removes what was only staged and reads what is published. */
    method Load(id: nat) returns (found: Option<Evidence>, ok: bool)
      requires Valid()
      modifies this
      ensures Valid() && EvidenceIn(visible) == EvidenceIn(old(visible)) && Seen(durable) <= Seen(old(durable))
      ensures ok ==> found == EvidenceIn(visible)
      ensures ok && found.None? ==> visible == None
      ensures ok && found.Some? ==> visible.Some? && StagingOf(visible.value) == {}
      ensures old(Smooth()) ==> ok && Smooth()
    {
      found := None;
      if visible.None? {
        return None, true;
      }
      var happens;
      happens, ok := Attempt();
      var state := Inspect(visible.value);
      if !ok || state.None? {
        return None, false;
      }
      ghost var start := visible;
      ghost var seen := durable;
      ok := RemoveStaging(state.value.staging, id);
      StagingIsUnseen(seen, durable, start, visible);
      if !ok {
        return;
      }
      if !state.value.claim {
        ok := Change(None);
        if !ok {
          return;
        }
        ok := Sync();
        return;
      }
      happens, ok := Attempt();
      if ok {
        found := EvidenceIn(visible);
      }
    }

    method Unlink(name: Name) returns (ok: bool)
      requires Valid() && visible.Some? && name in visible.value && Good(visible.value - {name})
      modifies this`visible, this`durable, this`dead, this`clock
      ensures Valid()
      ensures visible == old(visible) || visible == Some(old(visible).value - {name})
      ensures durable <= old(durable) + {Some(old(visible).value - {name})}
      ensures ok ==> visible == Some(old(visible).value - {name}) && durable == {visible}
      ensures old(Smooth()) ==> ok && Smooth()
    {
      ok := Change(Some(visible.value - {name}));
      if !ok {
        return;
      }
      ok := Sync();
    }

    /** Removes the activation, then the claim, then the directory. */
    method RemoveEvidence(expected: Evidence, id: nat) returns (ok: bool)
      requires Valid()
      modifies this
      ensures Valid()
      ensures EvidenceIn(visible) == EvidenceIn(old(visible))
              || (&& EvidenceIn(old(visible)) == Some(expected)
                  && EvidenceIn(visible) in {Some(expected.(activated := false)), None})
      ensures Seen(durable) <= Seen(old(durable)) + {Some(expected.(activated := false)), None}
      ensures EvidenceIn(old(visible)) != Some(expected) ==> Seen(durable) <= Seen(old(durable))
      ensures ok ==> EvidenceIn(old(visible)) == Some(expected) && visible == None && durable == {None}
      ensures old(Smooth()) && EvidenceIn(old(visible)) == Some(expected) ==> ok && Smooth()
    {
      var actual, loaded := Load(id);
      if !loaded || actual != Some(expected) {
        return false;
      }
      ok := UnlinkPublished(expected);
      if !ok {
        return;
      }
      ok := Change(None);
      if !ok {
        return;
      }
      ok := Sync();
    }

    method UnlinkPublished(expected: Evidence) returns (ok: bool)
      requires Valid() && visible.Some? && StagingOf(visible.value) == {} && EvidenceIn(visible) == Some(expected)
      modifies this`visible, this`durable, this`dead, this`clock
      ensures Valid() && visible.Some?
      ensures EvidenceIn(visible) in {Some(expected), Some(expected.(activated := false)), None}
      ensures Seen(durable) <= Seen(old(durable)) + {Some(expected.(activated := false)), None}
      ensures ok ==> visible == Some(map[]) && durable == {visible}
      ensures old(Smooth()) ==> ok && Smooth()
    {
      ghost var full := visible.value;
      PublishedShapes(full, expected);
      if expected.activated {
        ok := Unlink(ActivationFile);
        if !ok {
          return;
        }
      }
      PublishedShapes(visible.value, expected.(activated := false));
      ok := Unlink(ClaimFile);
    }
  }

  predicate SamePublished(a: Store, b: Store) {
    a.Some? == b.Some? && (a.Some? ==> Published(a.value) == Published(b.value))
  }

  /** Every state a crash may find was possible before or shows the published files as they are now. */
  ghost predicate OnlyStagingDiffers(before: set<Store>, after: set<Store>, visible: Store) {
    forall s :: s in after ==> s in before || SamePublished(s, visible)
  }

  function IsolationName(name: Name, id: nat): (r: Name)
    requires IsStaging(name)
    ensures r != name && IsStaging(r) && OfActivation(r) == OfActivation(name)
  {
    if OfActivation(name) then
      if name == ActivationDiscard(id) then ActivationDiscard(id + 1) else ActivationDiscard(id)
    else
      if name == ClaimDiscard(id) then ClaimDiscard(id + 1) else ClaimDiscard(id)
  }

  lemma AtMostOne(d: Directory, name: Name)
    requires Inspect(d).Some? && name in StagingOf(d)
    ensures StagingOf(d) == {name}
  {
    var rest := StagingOf(d) - {name};
    assert StagingOf(d) == rest + {name};
    assert |rest| == 0;
  }

  lemma OnlyStaging(d: Directory, name: Name)
    requires Good(d) && name in StagingOf(d)
    ensures StagingOf(d) == {name} && ActivationFile !in d && (OfActivation(name) ==> ClaimFile in d)
  {
    AtMostOne(d, name);
  }

  lemma StagingMoved(d: Directory, from: Name, to: Name)
    requires Good(d) && StagingOf(d) == {from} && IsStaging(to) && to != from && OfActivation(to) == OfActivation(from)
    ensures Good(Moved(d, from, to, d[from])) && StagingOf(Moved(d, from, to, d[from])) == {to}
    ensures Published(Moved(d, from, to, d[from])) == Published(d)
  {
    assert from in StagingOf(d);
    OnlyStaging(d, from);
    var moved := Moved(d, from, to, d[from]);
    assert StagingOf(moved) == {to};
  }

  lemma StagingRemoved(d: Directory, name: Name)
    requires Good(d) && StagingOf(d) == {name}
    ensures Good(d - {name}) && StagingOf(d - {name}) == {} && Published(d - {name}) == Published(d)
  {
    assert StagingOf(d - {name}) == {};
    assert name in StagingOf(d);
  }

  lemma NoStaging(d: Directory)
    requires StagingOf(d) == {}
    ensures Published(d) == d
  {
    assert forall name :: name in d && IsStaging(name) ==> name in StagingOf(d);
  }

  lemma EmptyIsGood()
    ensures Good(map[])
  {
    assert StagingOf(map[]) == {};
  }

  /** A file of this content can be staged and published here. */
  ghost predicate Publishable(d: Directory, temporary: Name, final: Name, content: Content) {
    && (ActivationFile !in d) && (OfActivation(temporary) ==> ClaimFile in d)
    && Good(d) && Good(d[final := content])
  }

  lemma OneStaging(d: Directory, name: Name, content: Content)
    requires Good(d) && StagingOf(d) == {} && IsStaging(name) && ActivationFile !in d && (OfActivation(name) ==> ClaimFile in d)
    ensures Good(d[name := content]) && StagingOf(d[name := content]) == {name}
    ensures Published(d[name := content]) == Published(d)
  {
    assert StagingOf(d[name := content]) == {name};
  }

  /** A write leaves the published files as they were or with the new one, in every crash state. */
  ghost predicate WriteStep(before: Store, states: set<Store>, after: Store, later: set<Store>, next: Directory) {
    && (SamePublished(before, after) || after == Some(next))
    && forall s :: s in later ==> s in states || SamePublished(s, before) || s == Some(next)
  }

  /** The evidence crash states can show. */
  ghost function Seen(states: set<Store>): set<Option<Evidence>> {
    set s | s in states :: EvidenceIn(s)
  }

  lemma SameEvidence(a: Store, b: Store)
    requires SamePublished(a, b)
    ensures EvidenceIn(a) == EvidenceIn(b)
  {
    if a.Some? {
      assert ClaimFile in a.value <==> ClaimFile in Published(a.value);
      assert ClaimFile in b.value <==> ClaimFile in Published(b.value);
      assert ActivationFile in a.value <==> ActivationFile in Published(a.value);
      assert ActivationFile in b.value <==> ActivationFile in Published(b.value);
    }
  }

  lemma StagingIsUnseen(before: set<Store>, after: set<Store>, first: Store, last: Store)
    requires first in before && SamePublished(first, last) && OnlyStagingDiffers(before, after, last)
    ensures Seen(after) <= Seen(before) && EvidenceIn(last) == EvidenceIn(first)
  {
    SameEvidence(first, last);
    forall s | s in after ensures EvidenceIn(s) in Seen(before) {
      if s !in before {
        SameEvidence(s, last);
      }
    }
  }

  lemma StepIsSeen(before: Store, states: set<Store>, after: Store, later: set<Store>, next: Directory)
    requires before in states && WriteStep(before, states, after, later, next)
    ensures EvidenceIn(after) == EvidenceIn(before) || after == Some(next)
    ensures Seen(later) <= Seen(states) + {EvidenceIn(Some(next))}
  {
    if SamePublished(before, after) {
      SameEvidence(before, after);
    }
    forall s | s in later ensures EvidenceIn(s) in Seen(states) + {EvidenceIn(Some(next))} {
      if s !in states && s != Some(next) {
        SameEvidence(s, before);
      }
    }
  }

  lemma NothingPublished(d: Directory)
    requires ClaimFile !in d && ActivationFile !in d
    ensures Published(d) == map[]
  {
  }

  lemma EmptyCanPublish(c: Claim)
    ensures Publishable(map[], ClaimTemporary, ClaimFile, ClaimOf(c))
  {
    EmptyIsGood();
    assert StagingOf(map[ClaimFile := ClaimOf(c)]) == {};
  }

  lemma ActivationCanBePublished(d: Directory, c: Claim)
    requires Good(d) && StagingOf(d) == {} && EvidenceIn(Some(d)) == Some(Evidence(c, false))
    ensures Publishable(d, ActivationTemporary, ActivationFile, ActivationOf(c))
    ensures EvidenceIn(Some(d[ActivationFile := ActivationOf(c)])) == Some(Evidence(c, true))
  {
    assert StagingOf(d[ActivationFile := ActivationOf(c)]) == {};
  }

  /** Without staging a directory holds the claim, or the claim and its activation, and nothing else. */
  lemma PublishedShapes(d: Directory, e: Evidence)
    requires Good(d) && StagingOf(d) == {} && EvidenceIn(Some(d)) == Some(e)
    ensures e.activated ==>
              && ActivationFile in d && Good(d - {ActivationFile}) && StagingOf(d - {ActivationFile}) == {}
              && EvidenceIn(Some(d - {ActivationFile})) == Some(e.(activated := false))
    ensures !e.activated ==> d - {ClaimFile} == map[] && Good(map[])
  {
    EmptyIsGood();
    assert forall name :: name in d && IsStaging(name) ==> name in StagingOf(d);
    assert StagingOf(d - {ActivationFile}) == {};
  }

  // ---------------------------------------------------------------- histories

  datatype Step =
    | Publishing(claim: Claim, id: nat)
    | Activating(claim: Claim, id: nat)
    | Loading(id: nat)
    | Removing(evidence: Evidence, id: nat)
    // the process is replaced by another one; nothing is synced by that
    | Replacing(events: nat -> Event)
    // the machine stops and comes back with one of the directories that may be found
    | PowerFailing(events: nat -> Event, found: Store)

  function ClaimsPublished(steps: seq<Step>): set<Claim> {
    if steps == [] then {}
    else
      ClaimsPublished(steps[..|steps| - 1]) +
      match steps[|steps| - 1] case Publishing(c, _) => {c} case _ => {}
  }

  /** Every crash state shows no evidence, or evidence of one of these claims. */
  ghost predicate ShowsOnly(states: set<Store>, claims: set<Claim>) {
    forall e :: e in Seen(states) && e.Some? ==> e.value.claim in claims
  }

  method Take(disk: Disk, step: Step, ghost claims: set<Claim>)
    requires disk.Valid() && ShowsOnly(disk.durable, claims) && !step.Replacing? && !step.PowerFailing?
    modifies disk
    ensures disk.Valid() && ShowsOnly(disk.durable, claims + if step.Publishing? then {step.claim} else {})
  {
    assert EvidenceIn(disk.visible) in Seen(disk.durable);
    match step {
      case Publishing(c, id) =>
        var ok := disk.PublishClaim(c, id);
      case Activating(c, id) =>
        var ok := disk.PublishActivation(c, id);
      case Loading(id) =>
        var found, ok := disk.Load(id);
      case Removing(evidence, id) =>
        var ok := disk.RemoveEvidence(evidence, id);
    }
  }

  /** A new process sees what the one before did, and whatever was not synced can still be lost. */
  method ReplaceProcess(disk: Disk, events: nat -> Event) returns (next: Disk)
    requires disk.Valid()
    ensures fresh(next) && next.Valid()
    ensures next.visible == disk.visible && next.durable == disk.durable && next.unsynced == disk.unsynced
  {
    next := new Disk(disk.visible, disk.durable, disk.unsynced, events);
  }

  /** After a power failure one of the possible directories is there, and nothing else any more. */
  method FailPower(disk: Disk, found: Store, events: nat -> Event) returns (next: Disk)
    requires disk.Valid()
    ensures fresh(next) && next.Valid()
    ensures next.visible in disk.durable && (found in disk.durable ==> next.visible == found)
    ensures next.durable == {next.visible} && next.unsynced == {} && Seen(next.durable) <= Seen(disk.durable)
  {
    var left := if found in disk.durable then found else disk.visible;
    next := new Disk(left, {left}, {}, events);
    assert EvidenceIn(next.visible) in Seen(disk.durable);
  }

  /**
    Any sequence of publications, activations, loads and removals by any number of processes, each dying
    anywhere, with power failures that lose unsynced operations of all of them: the directory is always
    accepted, and what it shows is nothing or exactly a claim that was published, with an activation only
    beside its claim.
  */
  method RunStore(events: nat -> Event, steps: seq<Step>) returns (disk: Disk)
    ensures disk.Valid() && ShowsOnly(disk.durable, ClaimsPublished(steps))
  {
    disk := new Disk(None, {None}, {}, events);
    assert Seen(disk.durable) == {None};
    var index := 0;
    while index < |steps|
      invariant 0 <= index <= |steps|
      invariant fresh(disk)
      invariant disk.Valid() && ShowsOnly(disk.durable, ClaimsPublished(steps[..index]))
    {
      assert steps[..index + 1][..index] == steps[..index];
      match steps[index] {
        case Replacing(later) =>
          disk := ReplaceProcess(disk, later);
        case PowerFailing(later, found) =>
          disk := FailPower(disk, found, later);
        case _ =>
          Take(disk, steps[index], ClaimsPublished(steps[..index]));
      }
      index := index + 1;
    }
    assert steps[..index] == steps;
  }
}
