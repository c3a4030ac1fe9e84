/**
  Whole histories of one host: runs opening, closing and being recovered, processes dying at any
  operation and being replaced, and everybody else changing what is theirs.
*/
module HostHistory {
  import opened HostTransaction
  import opened Wrappers

  datatype Step =
    | Opening(claim: Claim)
    | Closing(claim: Claim, installation: Installation)
    | Recovering(run: RunID, waits: nat)
    | Restarting(events: nat -> Event)
    // other programs change their own objects, the kernel drops a dead run's links, traffic comes and goes
    | Changing(come: set<HostObject>, gone: set<HostObject>)
    | Vanishing(vanished: set<HostObject>)
    | Traffic(subnets: set<nat>)

  function Foreign(objects: set<HostObject>): set<HostObject> {
    set o | o in objects && o.content.Other?
  }

  /** What other programs' objects are after a history, by their own steps alone. */
  function ForeignAfter(steps: seq<Step>, start: set<HostObject>): set<HostObject> {
    if steps == [] then start
    else
      var before := ForeignAfter(steps[..|steps| - 1], start);
      match steps[|steps| - 1]
      case Changing(come, gone) => before + Foreign(come) - Foreign(gone)
      case _ => before
  }

  lemma OwnChangesOnly(before: set<HostObject>, after: set<HostObject>, c: Claim)
    requires before - after <= ObjectsOf(c) && after - before <= ObjectsOf(c)
    ensures Foreign(before) == Foreign(after)
  {
    OwnContent(c);
    forall o: HostObject | o.content.Other? ensures o in before <==> o in after {
      assert o in before ==> o in before - after || o in after;
      assert o in after ==> o in after - before || o in before;
    }
  }

  method Take(host: Host, step: Step)
    requires Covered(host.objects, host.evidence) && !step.Restarting?
    modifies host
    ensures Covered(host.objects, host.evidence)
    ensures Foreign(host.objects)
         == if step.Changing? then Foreign(old(host.objects)) + Foreign(step.come) - Foreign(step.gone)
            else Foreign(old(host.objects))
  {
    match step {
      case Opening(c) =>
        if WellFormed(c) && c.run !in host.evidence {
          var session := host.Open(c);
          OwnChangesOnly(old(host.objects), host.objects, c);
        }
      case Closing(c, installation) =>
        if WellFormed(c) {
          var closed := host.CloseSession(c, installation);
          OwnChangesOnly(old(host.objects), host.objects, c);
        }
      case Recovering(run, waits) =>
        ghost var evidence := host.evidence;
        var recovered := host.Recover(run, waits);
        if run in evidence {
          OwnChangesOnly(old(host.objects), host.objects, evidence[run].claim);
        }
      case Changing(come, gone) =>
        host.objects := host.objects + Foreign(come) - Foreign(gone);
      case Vanishing(vanished) =>
        host.objects := set o | o in host.objects && !(o in vanished && o.content.Exact?);
      case Traffic(subnets) =>
        host.connections := subnets;
    }
  }

  /**
    Whatever the history: any run's object on the host is claimed by evidence on disk, and what is not
    Transfer Lanes' own is exactly what others made of it.
  */
  method RunHistory(start: Host, steps: seq<Step>) returns (host: Host)
    requires Covered(start.objects, start.evidence)
    modifies start
    ensures Covered(host.objects, host.evidence)
    ensures Foreign(host.objects) == ForeignAfter(steps, Foreign(old(start.objects)))
  {
    host := start;
    var index := 0;
    while index < |steps|
      invariant 0 <= index <= |steps|
      invariant host == start || fresh(host)
      invariant Covered(host.objects, host.evidence)
      invariant Foreign(host.objects) == ForeignAfter(steps[..index], Foreign(old(start.objects)))
    {
      assert steps[..index + 1][..index] == steps[..index];
      if steps[index].Restarting? {
        host := new Host(host.objects, host.connections, host.evidence, steps[index].events);
      } else {
        Take(host, steps[index]);
      }
      index := index + 1;
    }
    assert steps[..index] == steps;
  }

  // ---------------------------------------------------------------- recovery is not always a cleaning

  /** A run of one transfer that died between adding its outbound rule and its return rule. */
  const STUCK: Claim := Claim(1, 30000, [Transfer(7, 0, 20000, 20001)], 5)

  const LEFT: set<HostObject> :=
    {VethOf(STUCK, STUCK.transfers[0]), RouteOf(STUCK, STUCK.transfers[0]), OutboundOf(STUCK, STUCK.transfers[0])}

  lemma LeftIsOwn()
    ensures LEFT <= ObjectsOf(STUCK) && OutboundOf(STUCK, STUCK.transfers[0]) in LEFT * Rules(STUCK, STUCK.transfers)
  {
    assert STUCK.transfers[0] in STUCK.transfers;
  }

  /**
    That state keeps the invariant and has nothing foreign in it, and still no recovery ever removes
    its evidence: recovery leaves an unactivated run's rules alone and then requires them gone.
  */
  lemma StuckBeforeActivation()
    ensures WellFormed(STUCK) && Covered(LEFT, map[1 := Evidence(STUCK, false)]) && OnlyExact(LEFT, STUCK)
    ensures !CanBeCleaned(LEFT, Evidence(STUCK, false))
  {
    LeftIsOwn();
    LeftIsExact();
  }

  lemma LeftIsExact()
    ensures OnlyExact(LEFT, STUCK)
  {
    LeftIsOwn();
    forall own | own in ObjectsOf(STUCK) ensures OnlyThis(LEFT, own) {
      forall x | x in LEFT && x.slot == own.slot ensures x == own {
        SamePlace(STUCK, x, own);
      }
    }
    forall x | x in LEFT ensures !x.slot.FirewallRule? {
    }
  }

  /** Recovering it leaves the rule and the evidence, however often it is tried. */
  method RecoverStuck(host: Host, waits: nat) returns (ok: bool)
    requires Covered(host.objects, host.evidence) && 1 in host.evidence && host.evidence[1] == Evidence(STUCK, false)
    requires OutboundOf(STUCK, STUCK.transfers[0]) in host.objects
    modifies host
    ensures !ok && 1 in host.evidence && OutboundOf(STUCK, STUCK.transfers[0]) in host.objects
    ensures host.evidence[1] == Evidence(STUCK, false) && Covered(host.objects, host.evidence)
  {
    var rule := OutboundOf(STUCK, STUCK.transfers[0]);
    LeftIsOwn();
    RulesAreOwn(STUCK);
    ok := host.Recover(1, waits);
    if AllFree(host.objects, STUCK) {
      AllFreeParts(host.objects, STUCK);
    }
  }

  function DeathAt(n: nat): nat -> Event {
    k => if k == n then Dies else Works
  }

  lemma OnEmptyHost()
    ensures WellFormed(STUCK) && Covered({}, map[]) && OpenPlaces({}, STUCK)
    ensures |STUCK.transfers| == 1 && FirstRuleMade(STUCK) == LEFT
  {
    assert STUCK.transfers == [STUCK.transfers[0]];
  }

  /** On an empty host, opening the run with a death at its eighth operation leads exactly there. */
  method DieBetweenRules() returns (host: Host)
    ensures fresh(host) && host.objects == LEFT && host.evidence == map[1 := Evidence(STUCK, false)]
  {
    OnEmptyHost();
    host := new Host({}, {}, map[], DeathAt(7));
    assert host.DiesAfter(2 * |STUCK.transfers| + 5);
    var session := host.Open(STUCK);
  }

  /** From there any number of recoveries, by whatever processes, leaves the rule and the evidence. */
  method RecoverInVain(recoveries: seq<(nat -> Event, nat)>) returns (host: Host)
    ensures OutboundOf(STUCK, STUCK.transfers[0]) in host.objects && 1 in host.evidence
  {
    host := DieBetweenRules();
    StuckBeforeActivation();
    var index := 0;
    while index < |recoveries|
      invariant 0 <= index <= |recoveries| && fresh(host) && Covered(host.objects, host.evidence)
      invariant 1 in host.evidence && host.evidence[1] == Evidence(STUCK, false)
      invariant OutboundOf(STUCK, STUCK.transfers[0]) in host.objects
    {
      host := new Host(host.objects, host.connections, host.evidence, recoveries[index].0);
      var ok := RecoverStuck(host, recoveries[index].1);
      index := index + 1;
    }
  }
}
