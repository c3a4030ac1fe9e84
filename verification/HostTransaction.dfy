/**
  The host-network transaction of a run: publish a claim, install its objects while collecting
  receipts, activate, and later close, roll back or recover.  Every filesystem or kernel operation may
  fail before or after its effect, and the process may die between any two of them; after a death
  nothing else happens, so what holds at the end of a method holds at every moment of it.
*/
module HostTransaction {
  import opened Wrappers

  type RunID = nat

  /** A place on the host a claim reserves. */
  datatype Slot =
    | VethName(name: nat)
    | Priority(value: nat)
    | ReturnPrefix(table: nat, subnet: nat)
    | FirewallRule(owner: RunID, index: nat)

  /** What stands there: exactly what the run claims, or something else. */
  datatype Content = Exact(run: RunID) | Other(id: nat)

  datatype HostObject = HostObject(slot: Slot, content: Content)

  datatype Transfer = Transfer(veth: nat, subnet: nat, outbound: nat, returning: nat)

  datatype Claim = Claim(run: RunID, returnTable: nat, transfers: seq<Transfer>, firewallRules: nat)

  datatype Evidence = Evidence(claim: Claim, activated: bool)

  function VethOf(c: Claim, t: Transfer): HostObject { HostObject(VethName(t.veth), Exact(c.run)) }

  function RouteOf(c: Claim, t: Transfer): HostObject { HostObject(ReturnPrefix(c.returnTable, t.subnet), Exact(c.run)) }

  function OutboundOf(c: Claim, t: Transfer): HostObject { HostObject(Priority(t.outbound), Exact(c.run)) }

  function ReturnOf(c: Claim, t: Transfer): HostObject { HostObject(Priority(t.returning), Exact(c.run)) }

  function RuleOf(c: Claim, i: nat): HostObject { HostObject(FirewallRule(c.run, i), Exact(c.run)) }

  function Veths(c: Claim, ts: seq<Transfer>): set<HostObject> { set t | t in ts :: VethOf(c, t) }

  function Routes(c: Claim, ts: seq<Transfer>): set<HostObject> { set t | t in ts :: RouteOf(c, t) }

  function Rules(c: Claim, ts: seq<Transfer>): set<HostObject> {
    (set t | t in ts :: OutboundOf(c, t)) + (set t | t in ts :: ReturnOf(c, t))
  }

  function FirewallUpTo(c: Claim, count: nat): set<HostObject> { set i: nat | 0 <= i < count :: RuleOf(c, i) }

  function Routing(c: Claim, ts: seq<Transfer>): set<HostObject> { Routes(c, ts) + Rules(c, ts) }

  /** Everything the claim may put on the host. */
  function ObjectsOf(c: Claim): set<HostObject> {
    Veths(c, c.transfers) + Routing(c, c.transfers) + FirewallUpTo(c, c.firewallRules)
  }

  function Sources(c: Claim): set<nat> { set t | t in c.transfers :: t.subnet }

  predicate Free(objects: set<HostObject>, slot: Slot) {
    forall o :: o in objects ==> o.slot != slot
  }

  /** Nothing at all stands at any place the claim reserves. */
  predicate AllFree(objects: set<HostObject>, c: Claim) {
    && (forall o :: o in ObjectsOf(c) ==> Free(objects, o.slot))
    && (forall o :: o in objects ==> !(o.slot.FirewallRule? && o.slot.owner == c.run))
  }

  /** Nothing foreign stands at the claim's places. */
  predicate OnlyExact(objects: set<HostObject>, c: Claim) {
    && (forall own :: own in ObjectsOf(c) ==> OnlyThis(objects, own))
    && (forall o :: o in objects && o.slot.FirewallRule? && o.slot.owner == c.run ==> o in FirewallUpTo(c, c.firewallRules))
  }

  predicate WellFormed(c: Claim) {
    && (forall i, j :: 0 <= i < j < |c.transfers| ==>
          && c.transfers[i].veth != c.transfers[j].veth && c.transfers[i].subnet != c.transfers[j].subnet
          && c.transfers[i].outbound != c.transfers[j].outbound && c.transfers[i].returning != c.transfers[j].returning)
    && (forall i, j :: 0 <= i < |c.transfers| && 0 <= j < |c.transfers| ==> c.transfers[i].outbound != c.transfers[j].returning)
  }

  /** How one operation can end. */
  datatype Event = Works | FailsBefore | FailsAfter | Dies

  datatype Installation = Installation(links: set<HostObject>, routing: set<HostObject>, firewall: set<HostObject>)

  function Receipts(i: Installation): set<HostObject> { i.links + i.routing + i.firewall }

  /** What stands at a place. */
  function At(objects: set<HostObject>, slot: Slot): set<HostObject> {
    set x | x in objects && x.slot == slot
  }

  /** Nothing but this object stands at its place. */
  predicate OnlyThis(objects: set<HostObject>, o: HostObject) {
    forall x :: x in objects && x.slot == o.slot ==> x == o
  }

  lemma AtSlot(objects: set<HostObject>, o: HostObject)
    ensures At(objects, o.slot) == {} <==> Free(objects, o.slot)
    ensures At(objects, o.slot) == {o} <==> o in objects && OnlyThis(objects, o)
  {
    var matching := At(objects, o.slot);
    assert forall x :: x in objects && x.slot == o.slot <==> x in matching;
  }

  // ---------------------------------------------------------------- facts about the sets

  lemma NextOf(c: Claim, ts: seq<Transfer>, i: nat)
    requires i < |ts|
    ensures Veths(c, ts[..i + 1]) == Veths(c, ts[..i]) + {VethOf(c, ts[i])}
    ensures Routes(c, ts[..i + 1]) == Routes(c, ts[..i]) + {RouteOf(c, ts[i])}
    ensures Rules(c, ts[..i + 1]) == Rules(c, ts[..i]) + {OutboundOf(c, ts[i]), ReturnOf(c, ts[i])}
  {
    assert ts[..i + 1] == ts[..i] + [ts[i]];
  }

  /** The objects of one transfer. */
  function OfTransfer(c: Claim, t: Transfer): set<HostObject> {
    {VethOf(c, t), RouteOf(c, t), OutboundOf(c, t), ReturnOf(c, t)}
  }

  lemma OwnObjects(c: Claim)
    ensures forall t :: t in c.transfers ==> OfTransfer(c, t) <= ObjectsOf(c)
    ensures forall i: nat :: i < c.firewallRules ==> RuleOf(c, i) in ObjectsOf(c)
  {
  }

  /** Earlier transfers reserve other places. */
  lemma OtherPlaces(c: Claim, i: nat)
    requires WellFormed(c) && i < |c.transfers|
    ensures var before, t := c.transfers[..i], c.transfers[i];
            && Free(Veths(c, before), VethName(t.veth)) && Free(Routes(c, before), ReturnPrefix(c.returnTable, t.subnet))
            && Free(Rules(c, before), Priority(t.outbound)) && Free(Rules(c, before), Priority(t.returning))
            && t.outbound != t.returning
  {
    var before, t := c.transfers[..i], c.transfers[i];
    forall u | u in before
      ensures u.veth != t.veth && u.subnet != t.subnet && u.outbound != t.outbound && u.returning != t.returning
              && u.outbound != t.returning && u.returning != t.outbound
    {
      var j :| 0 <= j < |before| && before[j] == u;
      assert c.transfers[j] == u;
    }
  }

  lemma AllFreeParts(objects: set<HostObject>, c: Claim)
    requires AllFree(objects, c)
    ensures forall t :: t in c.transfers ==>
              && Free(objects, VethName(t.veth)) && Free(objects, ReturnPrefix(c.returnTable, t.subnet))
              && Free(objects, Priority(t.outbound)) && Free(objects, Priority(t.returning))
    ensures objects !! ObjectsOf(c)
  {
    forall t | t in c.transfers
      ensures && Free(objects, VethName(t.veth)) && Free(objects, ReturnPrefix(c.returnTable, t.subnet))
              && Free(objects, Priority(t.outbound)) && Free(objects, Priority(t.returning))
    {
      OwnObjects(c);
      assert VethOf(c, t) in ObjectsOf(c) && RouteOf(c, t) in ObjectsOf(c);
      assert OutboundOf(c, t) in ObjectsOf(c) && ReturnOf(c, t) in ObjectsOf(c);
    }
  }

  datatype RouteDeletion = Deleted | Pending | Failed

  class Host {
    var objects: set<HostObject>
    // subnets whose addresses have tracked connections
    var connections: set<nat>
    var evidence: map<RunID, Evidence>
    var dead: bool
    var clock: nat
    const events: nat -> Event

    constructor (objects: set<HostObject>, connections: set<nat>, evidence: map<RunID, Evidence>, events: nat -> Event)
      ensures this.objects == objects && this.connections == connections && this.evidence == evidence
      ensures this.events == events && !dead && clock == 0
    {
      this.objects, this.connections, this.evidence, this.events := objects, connections, evidence, events;
      dead, clock := false, 0;
    }

    /** From here on every operation of this process works. */
    ghost predicate Smooth()
      reads this`dead, this`clock
    {
      !dead && forall k :: clock <= k ==> events(k) == Works
    }

    /** From here on at most one operation fails, and without effect. */
    ghost predicate Once()
      reads this`dead, this`clock
    {
      !dead && exists n :: OnceAt(n)
    }

    ghost predicate OnceAt(n: int)
      reads this`clock
    {
      forall k :: clock <= k ==> events(k) == if k == n then FailsBefore else Works
    }

    /** The process does `n` more operations, which work, and dies at the next one. */
    ghost predicate DiesAfter(n: nat)
      reads this`dead, this`clock
    {
      !dead && (forall k :: clock <= k < clock + n ==> events(k) == Works) && events(clock + n) == Dies
    }

    /** One operation: whether its effect happens and whether it reports success. */
    method Attempt() returns (happens: bool, ok: bool)
      modifies this`dead, this`clock
      ensures ok ==> happens
      ensures happens ==> !old(dead) && !dead
      ensures old(Smooth()) ==> ok && Smooth()
      ensures old(Once()) ==> Once() && happens == ok && (!ok ==> Smooth())
      ensures old(dead) ==> dead && !happens
      ensures old(DiesAfter(0)) ==> dead && !happens
      ensures forall n: nat :: n > 0 && old(DiesAfter(n)) ==> ok && DiesAfter(n - 1)
    {
      if dead {
        return false, false;
      }
      var event := events(clock);
      ghost var n: int :| Once() ==> OnceAt(n);
      clock := clock + 1;
      dead := event == Dies;
      happens := event == Works || event == FailsAfter;
      ok := event == Works;
      assert old(Once()) ==> OnceAt(n);
    }

    // -------------------------------------------------------------- kernel operations

    /** Adds an object at an empty place, as for a link or a route. */
    method Create(o: HostObject) returns (ok: bool)
      modifies this`objects, this`dead, this`clock
      ensures objects == old(objects) || (Free(old(objects), o.slot) && objects == old(objects) + {o})
      ensures ok ==> Free(old(objects), o.slot) && objects == old(objects) + {o}
      ensures old(Smooth()) ==> Smooth() && (ok <==> Free(old(objects), o.slot))
      ensures old(Once()) ==> Once() && (!ok ==> objects == old(objects)) && (!ok && Free(old(objects), o.slot) ==> Smooth())
      ensures forall n: nat :: n > 0 && old(DiesAfter(n)) && Free(old(objects), o.slot) ==> ok && DiesAfter(n - 1)
    {
      var happens;
      happens, ok := Attempt();
      if exists x :: x in objects && x.slot == o.slot {
        return false;
      }
      if happens {
        objects := objects + {o};
      }
    }

    /** Adds a policy rule; several different rules may share a priority. */
    method AddRule(o: HostObject) returns (ok: bool)
      modifies this`objects, this`dead, this`clock
      ensures objects == old(objects) || (o !in old(objects) && objects == old(objects) + {o})
      ensures ok ==> o !in old(objects) && objects == old(objects) + {o}
      ensures old(Smooth()) ==> Smooth() && (ok <==> o !in old(objects))
      ensures old(Once()) ==> Once() && (!ok ==> objects == old(objects)) && (!ok && o !in old(objects) ==> Smooth())
      ensures old(DiesAfter(0)) ==> dead && !ok && objects == old(objects)
      ensures forall n: nat :: n > 0 && old(DiesAfter(n)) && o !in old(objects) ==> ok && DiesAfter(n - 1)
    {
      var happens;
      happens, ok := Attempt();
      if o in objects {
        return false;
      }
      if happens {
        objects := objects + {o};
      }
    }

    /** Deletes what stands at the place if that is exactly the claimed object; an empty place is fine. */
    method DeleteExact(o: HostObject) returns (ok: bool)
      modifies this`objects, this`dead, this`clock
      ensures objects == old(objects) || objects == old(objects) - {o}
      ensures ok ==> objects == old(objects) - {o} && Free(objects, o.slot)
      ensures old(Smooth()) ==> Smooth() && (ok <==> OnlyThis(old(objects), o))
    {
      var happens;
      happens, ok := Attempt();
      AtSlot(objects, o);
      if !ok || At(objects, o.slot) == {} {
        return;
      }
      if At(objects, o.slot) != {o} {
        return false;
      }
      happens, ok := Attempt();
      if happens {
        objects := objects - {o};
      }
    }

    /** Deletes a claimed return route; a route whose link is gone waits for the kernel. */
    method DeleteReturnRoute(c: Claim, t: Transfer) returns (result: RouteDeletion)
      modifies this`objects, this`dead, this`clock
      ensures objects == old(objects) || objects == old(objects) - {RouteOf(c, t)}
      ensures result == Deleted ==> objects == old(objects) - {RouteOf(c, t)} && Free(objects, RouteOf(c, t).slot)
      ensures result == Pending ==> objects == old(objects) && RouteOf(c, t) in objects && Free(objects, VethName(t.veth))
      ensures old(Smooth()) ==> Smooth()
      ensures old(Smooth()) && OnlyThis(old(objects), RouteOf(c, t)) && OnlyThis(old(objects), VethOf(c, t)) ==>
                && result != Failed
                && (result == Pending <==> RouteOf(c, t) in old(objects) && VethOf(c, t) !in old(objects))
    {
      var route, veth := RouteOf(c, t), VethOf(c, t);
      AtSlot(objects, route);
      AtSlot(objects, veth);
      var happens, ok := Attempt();
      if !ok {
        return Failed;
      }
      if At(objects, route.slot) == {} {
        return Deleted;
      }
      if At(objects, route.slot) != {route} {
        return Failed;
      }
      happens, ok := Attempt();
      if !ok {
        return Failed;
      }
      if At(objects, veth.slot) == {} {
        return Pending;
      }
      if At(objects, veth.slot) != {veth} {
        return Failed;
      }
      happens, ok := Attempt();
      if happens {
        objects := objects - {route};
      }
      result := if ok then Deleted else Failed;
    }

    /** Deletes the host end of a transfer's link; the kernel drops the route through it. */
    method RemoveVeth(c: Claim, t: Transfer) returns (ok: bool)
      modifies this`objects, this`dead, this`clock
      ensures objects == old(objects) || objects == old(objects) - {VethOf(c, t), RouteOf(c, t)}
      ensures VethOf(c, t) !in old(objects) ==> objects == old(objects)
      ensures ok ==> Free(objects, VethName(t.veth))
      ensures ok && VethOf(c, t) in old(objects) ==> objects == old(objects) - {VethOf(c, t), RouteOf(c, t)}
      ensures old(Smooth()) ==> Smooth() && (ok <==> OnlyThis(old(objects), VethOf(c, t)))
    {
      var veth := VethOf(c, t);
      AtSlot(objects, veth);
      var happens;
      happens, ok := Attempt();
      if !ok || At(objects, veth.slot) == {} {
        return;
      }
      if At(objects, veth.slot) != {veth} {
        return false;
      }
      happens, ok := Attempt();
      if happens {
        objects := objects - {veth, RouteOf(c, t)};
      }
    }

    // -------------------------------------------------------------- installation

    /** Makes one link; it is configured and verified only after its receipt is taken. */
    method InstallNextLink(c: Claim, t: Transfer, ghost left: nat) returns (receipts: set<HostObject>, ok: bool)
      modifies this`objects, this`dead, this`clock
      ensures old(objects) <= objects <= old(objects) + {VethOf(c, t)}
      ensures receipts <= {VethOf(c, t)} && receipts <= objects - old(objects)
      ensures ok ==> receipts == {VethOf(c, t)} && objects == old(objects) + receipts
      ensures old(Smooth()) && Free(old(objects), VethName(t.veth)) ==> ok && Smooth()
      ensures old(Once()) ==> Once() && objects == old(objects) + receipts
      ensures old(Once()) && Free(old(objects), VethName(t.veth)) && !ok ==> Smooth()
      ensures left > 1 && old(DiesAfter(left)) && Free(old(objects), VethName(t.veth)) ==> ok && DiesAfter(left - 2)
    {
      receipts := {};
      ok := Create(VethOf(c, t));
      if !ok {
        return;
      }
      receipts := {VethOf(c, t)};
      var happens;
      happens, ok := Attempt();
    }

    method InstallLinks(c: Claim) returns (receipts: set<HostObject>, ok: bool)
      requires WellFormed(c)
      modifies this`objects, this`dead, this`clock
      ensures old(objects) <= objects <= old(objects) + Veths(c, c.transfers)
      ensures receipts <= objects - old(objects)
      ensures ok ==> receipts == Veths(c, c.transfers)
      ensures old(Smooth()) && AllFree(old(objects), c) ==> ok && Smooth()
      ensures old(Once()) ==> Once() && objects == old(objects) + receipts
      ensures old(Once()) && AllFree(old(objects), c) && !ok ==> Smooth()
      ensures old(DiesAfter(2 * |c.transfers| + 3)) && AllFree(old(objects), c) ==> ok && DiesAfter(3)
    {
      receipts := {};
      ghost var left := 2 * |c.transfers| + 3;
      var i := 0;
      while i < |c.transfers|
        invariant 0 <= i <= |c.transfers| && left == 2 * (|c.transfers| - i) + 3
        invariant receipts == Veths(c, c.transfers[..i]) && receipts !! old(objects)
        invariant objects == old(objects) + receipts
        invariant old(Smooth()) && AllFree(old(objects), c) ==> Smooth()
        invariant old(Once()) ==> Once()
        invariant old(DiesAfter(2 * |c.transfers| + 3)) && AllFree(old(objects), c) ==> DiesAfter(left)
      {
        LinksStep(old(objects), c, i);
        var more;
        more, ok := InstallNextLink(c, c.transfers[i], left);
        left := left - 2;
        receipts := receipts + more;
        if !ok {
          return;
        }
        i := i + 1;
      }
      assert c.transfers[..i] == c.transfers;
      ok := true;
    }

    method InstallTransferRouting(c: Claim, t: Transfer) returns (receipts: set<HostObject>, ok: bool)
      requires t.outbound != t.returning
      modifies this`objects, this`dead, this`clock
      ensures old(objects) <= objects <= old(objects) + {RouteOf(c, t), OutboundOf(c, t), ReturnOf(c, t)}
      ensures receipts <= objects - old(objects)
      ensures ok ==> receipts == {RouteOf(c, t), OutboundOf(c, t), ReturnOf(c, t)} && objects == old(objects) + receipts
      ensures old(Smooth()) && TransferReady(old(objects), c, t) ==> ok && Smooth()
      ensures old(Once()) ==> Once() && objects == old(objects) + receipts
      ensures old(Once()) && TransferReady(old(objects), c, t) && !ok ==> Smooth()
      // death between the two rules leaves the route and the first rule
      ensures old(DiesAfter(3)) && TransferReady(old(objects), c, t) ==>
                dead && !ok && objects == old(objects) + {RouteOf(c, t), OutboundOf(c, t)}
    {
      receipts := {};
      var happens;
      happens, ok := Attempt();
      if !ok || VethOf(c, t) !in objects {
        return receipts, false;
      }
      ok := Create(RouteOf(c, t));
      if !ok {
        return;
      }
      receipts := receipts + {RouteOf(c, t)};
      ok := AddRule(OutboundOf(c, t));
      if !ok {
        return;
      }
      receipts := receipts + {OutboundOf(c, t)};
      ok := AddRule(ReturnOf(c, t));
      if !ok {
        return;
      }
      receipts := receipts + {ReturnOf(c, t)};
    }

    method InstallNextRouting(c: Claim, i: nat, before: set<HostObject>, ghost base: set<HostObject>)
      returns (receipts: set<HostObject>, ok: bool)
      requires WellFormed(c) && i < |c.transfers| && Made(base, before, c, i) && objects == base + before
      modifies this`objects, this`dead, this`clock
      ensures base <= objects <= base + Routing(c, c.transfers)
      ensures receipts <= objects - base
      ensures ok ==> Made(base, receipts, c, i + 1) && objects == base + receipts
      ensures old(Smooth()) && RoutingReady(base, c) ==> ok && Smooth()
      ensures old(Once()) ==> Once() && objects == base + receipts
      ensures old(Once()) && RoutingReady(base, c) && !ok ==> Smooth()
      ensures old(DiesAfter(3)) && RoutingReady(base, c) ==>
                dead && !ok && objects == base + before + BetweenRules(c, c.transfers[i])
    {
      OtherPlaces(c, i);
      NextIsReady(base, objects, c, i);
      var more;
      more, ok := InstallTransferRouting(c, c.transfers[i]);
      NextMade(base, before, more, objects, c, i);
      receipts := before + more;
    }

    method InstallRouting(c: Claim) returns (receipts: set<HostObject>, ok: bool)
      requires WellFormed(c)
      modifies this`objects, this`dead, this`clock
      ensures old(objects) <= objects <= old(objects) + Routing(c, c.transfers)
      ensures receipts <= objects - old(objects)
      ensures ok ==> receipts == Routing(c, c.transfers)
      ensures old(Smooth()) && RoutingReady(old(objects), c) ==> ok && Smooth()
      ensures old(Once()) ==> Once() && objects == old(objects) + receipts
      ensures old(Once()) && RoutingReady(old(objects), c) && !ok ==> Smooth()
      ensures old(DiesAfter(3)) && RoutingReady(old(objects), c) && c.transfers != [] ==>
                dead && !ok && objects == old(objects) + BetweenRules(c, c.transfers[0])
    {
      receipts := {};
      ghost var base := objects;
      assert Made(base, receipts, c, 0);
      var i := 0;
      while i < |c.transfers|
        invariant 0 <= i <= |c.transfers|
        invariant Made(base, receipts, c, i) && objects == base + receipts
        invariant old(Smooth()) && RoutingReady(base, c) ==> Smooth()
        invariant old(Once()) ==> Once()
        invariant old(DiesAfter(3)) && RoutingReady(base, c) ==> i == 0 && DiesAfter(3)
      {
        receipts, ok := InstallNextRouting(c, i, receipts, base);
        if !ok {
          return;
        }
        i := i + 1;
      }
      assert c.transfers[..i] == c.transfers;
      ok := true;
    }

    method InstallFirewall(c: Claim) returns (receipts: set<HostObject>, ok: bool)
      modifies this`objects, this`dead, this`clock
      ensures old(objects) <= objects <= old(objects) + FirewallUpTo(c, c.firewallRules)
      ensures receipts <= objects - old(objects)
      ensures ok ==> receipts == FirewallUpTo(c, c.firewallRules)
      ensures old(Smooth()) ==> Smooth() && (ok <==> NoOwner(old(objects), c.run))
      ensures old(Once()) ==> Once() && objects == old(objects) + receipts
      ensures old(Once()) && NoOwner(old(objects), c.run) && !ok ==> Smooth()
    {
      receipts := {};
      var happens;
      happens, ok := Attempt();
      if !ok || exists o :: o in objects && o.slot.FirewallRule? && o.slot.owner == c.run {
        return receipts, false;
      }
      var i := 0;
      while i < c.firewallRules
        invariant 0 <= i <= c.firewallRules
        invariant receipts == FirewallUpTo(c, i) && receipts !! old(objects)
        invariant objects == old(objects) + receipts
        invariant NoOwner(old(objects), c.run)
        invariant old(Smooth()) ==> Smooth()
        invariant old(Once()) ==> Once()
      {
        assert FirewallUpTo(c, i + 1) == FirewallUpTo(c, i) + {RuleOf(c, i)};
        assert RuleOf(c, i) !in receipts;
        ok := AddRule(RuleOf(c, i));
        if !ok {
          return;
        }
        receipts := receipts + {RuleOf(c, i)};
        // the readback
        happens, ok := Attempt();
        if !ok {
          return;
        }
        i := i + 1;
      }
      ok := true;
    }

    /** Links, then routing. */
    method InstallPaths(c: Claim) returns (links: set<HostObject>, routing: set<HostObject>, ok: bool)
      requires WellFormed(c)
      modifies this`objects, this`dead, this`clock
      ensures old(objects) <= objects <= old(objects) + Veths(c, c.transfers) + Routing(c, c.transfers)
      ensures links + routing <= objects - old(objects)
      ensures links <= Veths(c, c.transfers) && routing <= Routing(c, c.transfers)
      ensures routing != {} || ok ==> links == Veths(c, c.transfers)
      ensures ok ==> routing == Routing(c, c.transfers)
      ensures old(Smooth()) && AllFree(old(objects), c) ==> ok && Smooth()
      ensures old(Once()) ==> Once() && objects == old(objects) + links + routing
      ensures old(Once()) && AllFree(old(objects), c) && !ok ==> Smooth()
      ensures old(DiesAfter(2 * |c.transfers| + 3)) && AllFree(old(objects), c) && c.transfers != [] ==>
                dead && !ok && objects == old(objects) + FirstRuleMade(c)
    {
      ghost var before := objects;
      routing := {};
      links, ok := InstallLinks(c);
      if !ok {
        LinksOnly(before, objects, c, links);
        return;
      }
      AfterLinks(before, objects, c);
      ghost var linked := objects;
      routing, ok := InstallRouting(c);
      ThenRouting(before, linked, objects, c, links, routing);
    }

    /** Links, routing, firewall, in this order; the receipts name only what this call created. */
    method Install(c: Claim) returns (installation: Installation, ok: bool)
      requires WellFormed(c)
      modifies this`objects, this`dead, this`clock
      ensures old(objects) <= objects <= old(objects) + ObjectsOf(c)
      ensures Receipts(installation) <= objects - old(objects)
      ensures PartOf(installation, c)
      ensures ok ==> Complete(installation, c)
      ensures installation.routing != {} ==> installation.links == Veths(c, c.transfers)
      ensures old(Smooth()) && AllFree(old(objects), c) ==> ok && Smooth()
      ensures old(Once()) ==> Once() && objects == old(objects) + Receipts(installation)
      ensures old(Once()) && AllFree(old(objects), c) && !ok ==> Smooth()
      ensures old(DiesAfter(2 * |c.transfers| + 4)) && AllFree(old(objects), c) && c.transfers != [] ==>
                dead && !ok && objects == old(objects) + FirstRuleMade(c)
    {
      installation := Installation({}, {}, {});
      var happens;
      happens, ok := Attempt();
      if !ok {
        return;
      }
      var links, routing;
      links, routing, ok := InstallPaths(c);
      installation := Installation(links, routing, {});
      if !ok {
        return;
      }
      ghost var paths := objects;
      var receipts;
      receipts, ok := InstallFirewall(c);
      installation := Installation(links, routing, receipts);
      OnTop(old(objects), paths, objects, links, routing, receipts);
    }

    // -------------------------------------------------------------- removal

    method RemoveNextRule(c: Claim, i: nat, permitted: Option<set<HostObject>>) returns (ok: bool)
      requires i < c.firewallRules
      modifies this`objects, this`dead, this`clock
      ensures objects == old(objects) || objects == old(objects) - Permitted({RuleOf(c, i)}, permitted)
      ensures ok ==> objects == old(objects) - Permitted({RuleOf(c, i)}, permitted)
      ensures old(Smooth()) ==> ok && Smooth()
    {
      ok := true;
      if RuleOf(c, i) in objects && (permitted.None? || RuleOf(c, i) in permitted.value) {
        var happens;
        happens, ok := Attempt();
        if happens {
          objects := objects - {RuleOf(c, i)};
        }
        if !ok {
          return;
        }
        // the readback
        happens, ok := Attempt();
      }
    }

    /** Deletes the present firewall rules, with receipts only the receipted ones; stops at the first error. */
    method RemoveFirewall(c: Claim, permitted: Option<set<HostObject>>) returns (ok: bool)
      modifies this`objects, this`dead, this`clock
      ensures objects <= old(objects) <= objects + Permitted(FirewallUpTo(c, c.firewallRules), permitted)
      ensures ok ==> objects == old(objects) - Permitted(FirewallUpTo(c, c.firewallRules), permitted)
      ensures old(Smooth()) ==> Smooth() && (ok <==> OwnersExact(old(objects), c))
    {
      var happens;
      happens, ok := Attempt();
      if !ok || !OwnersExact(objects, c) {
        return false;
      }
      var i := 0;
      while i < c.firewallRules
        invariant 0 <= i <= c.firewallRules
        invariant objects == old(objects) - Permitted(FirewallUpTo(c, i), permitted)
        invariant old(Smooth()) ==> Smooth()
      {
        assert FirewallUpTo(c, i + 1) == FirewallUpTo(c, i) + {RuleOf(c, i)};
        FirewallGrows(c, i + 1);
        ok := RemoveNextRule(c, i, permitted);
        if !ok {
          return;
        }
        i := i + 1;
      }
      ok := true;
    }

    /** Deletes the receipted rules and route of one transfer; errors do not stop it. */
    method RollbackTransferRouting(c: Claim, t: Transfer, receipts: set<HostObject>) returns (ok: bool)
      modifies this`objects, this`dead, this`clock
      ensures objects <= old(objects) <= objects + receipts * RoutingOf(c, t)
      ensures old(Smooth()) ==> Smooth()
      ensures old(Smooth()) && OnlyExactOf(old(objects), c, t) && !Orphan(old(objects), c, t) ==>
                ok && objects !! receipts * RoutingOf(c, t)
    {
      ok := true;
      if ReturnOf(c, t) in receipts {
        var deleted := DeleteExact(ReturnOf(c, t));
        ok := ok && deleted;
      }
      if OutboundOf(c, t) in receipts {
        var deleted := DeleteExact(OutboundOf(c, t));
        ok := ok && deleted;
      }
      if RouteOf(c, t) in receipts {
        var deleted := DeleteReturnRoute(c, t);
        ok := ok && deleted == Deleted;
      }
    }

    method RollbackRouting(c: Claim, receipts: set<HostObject>) returns (ok: bool)
      modifies this`objects, this`dead, this`clock
      ensures objects <= old(objects) <= objects + receipts * Routing(c, c.transfers)
      ensures old(Smooth()) ==> Smooth()
      ensures old(Smooth()) && OnlyExact(old(objects), c) && NoOrphans(old(objects), c) ==>
                ok && objects !! receipts * Routing(c, c.transfers)
    {
      ok := true;
      var i := |c.transfers|;
      while i > 0
        invariant 0 <= i <= |c.transfers|
        invariant objects <= old(objects) <= objects + receipts * Routing(c, c.transfers)
        invariant old(Smooth()) ==> Smooth()
        invariant old(Smooth()) && OnlyExact(old(objects), c) && NoOrphans(old(objects), c) ==>
                    ok && objects !! receipts * Routing(c, c.transfers[i..])
      {
        i := i - 1;
        RoutingFrom(c, i);
        if OnlyExact(old(objects), c) && NoOrphans(old(objects), c) {
          StillExact(old(objects), objects, c, i);
        }
        var done := RollbackTransferRouting(c, c.transfers[i], receipts);
        ok := ok && done;
      }
      assert c.transfers[0..] == c.transfers;
    }

    method RemoveNextLink(c: Claim, i: nat, permitted: Option<set<HostObject>>, ghost base: set<HostObject>)
      returns (ok: bool)
      requires WellFormed(c) && i < |c.transfers| && IsPermitted(VethOf(c, c.transfers[i]), permitted)
      requires objects <= base <= objects + LinksAndRoutes(c, c.transfers[i + 1..], permitted)
      modifies this`objects, this`dead, this`clock
      ensures objects <= old(objects) && base <= objects + LinksAndRoutes(c, c.transfers[i..], permitted)
      ensures old(Smooth()) ==> Smooth()
      ensures old(Smooth()) && OnlyExact(base, c) ==> ok && LinkGone(base, objects, c, c.transfers[i])
    {
      LinksFrom(c, i, permitted);
      if OnlyExact(base, c) {
        OnlyExactTransfer(base, c, c.transfers[i]);
      }
      ok := RemoveVeth(c, c.transfers[i]);
    }

    /** Removes the links, with receipts only the receipted ones, last transfer first. */
    method RemoveLinks(c: Claim, permitted: Option<set<HostObject>>) returns (ok: bool)
      requires WellFormed(c)
      modifies this`objects, this`dead, this`clock
      ensures objects <= old(objects) <= objects + LinksAndRoutes(c, c.transfers, permitted)
      ensures old(Smooth()) ==> Smooth()
      ensures old(Smooth()) && OnlyExact(old(objects), c) ==> ok && LinksGone(old(objects), objects, c, 0, permitted)
    {
      ok := true;
      ghost var base := objects;
      var i := |c.transfers|;
      while i > 0
        invariant 0 <= i <= |c.transfers|
        invariant objects <= base <= objects + LinksAndRoutes(c, c.transfers[i..], permitted)
        invariant old(Smooth()) ==> Smooth()
        invariant old(Smooth()) && OnlyExact(base, c) ==> ok && LinksGone(base, objects, c, i, permitted)
      {
        i := i - 1;
        LinksFrom(c, i, permitted);
        if permitted.None? || VethOf(c, c.transfers[i]) in permitted.value {
          // the context
          var happens, alive := Attempt();
          if !alive {
            LinksFromStart(c, i + 1, permitted);
            return false;
          }
          var done := RemoveNextLink(c, i, permitted, base);
          ok := ok && done;
        }
      }
      assert c.transfers[0..] == c.transfers;
    }

    /** Deletes the traffic records of the claimed addresses and looks again. */
    method ClearConnections(c: Claim) returns (ok: bool)
      modifies this`connections, this`dead, this`clock
      ensures connections <= old(connections) <= connections + Sources(c)
      ensures ok ==> connections !! Sources(c)
      ensures old(Smooth()) ==> ok && Smooth()
    {
      var happens;
      happens, ok := Attempt();
      if happens {
        connections := connections - Sources(c);
      }
      if !ok {
        return;
      }
      happens, ok := Attempt();
      ok := ok && connections !! Sources(c);
    }

    /** Requires every claimed place to be empty, whatever stands there. */
    method VerifyAbsent(c: Claim, activated: bool) returns (ok: bool)
      modifies this`dead, this`clock
      ensures ok ==> AllFree(objects, c) && (activated ==> connections !! Sources(c))
      ensures old(Smooth()) ==>
                Smooth() && (ok <==> AllFree(objects, c) && (activated ==> connections !! Sources(c)))
    {
      var happens;
      happens, ok := Attempt();
      ok := ok && AllFree(objects, c);
      if activated {
        var observed;
        happens, observed := Attempt();
        ok := ok && observed && connections !! Sources(c);
      }
    }

    // -------------------------------------------------------------- routing of a stale run

    method RemoveActivatedTransfer(c: Claim, t: Transfer) returns (result: RouteDeletion)
      modifies this`objects, this`dead, this`clock
      ensures objects <= old(objects) <= objects + RoutingOf(c, t)
      ensures old(Smooth()) ==> Smooth()
      ensures old(Smooth()) && OnlyExactOf(old(objects), c, t) ==>
                && (result == Deleted ==> objects !! RoutingOf(c, t))
                && (result == Failed ==> false)
                && (result == Pending ==> Orphan(old(objects), c, t))
    {
      var returnRule := DeleteExact(ReturnOf(c, t));
      var outboundRule := DeleteExact(OutboundOf(c, t));
      result := DeleteReturnRoute(c, t);
      if !returnRule || !outboundRule {
        result := Failed;
      }
    }

    /** One pass over the claimed routing, last transfer first; errors do not stop it. */
    method RemoveActivatedRoutingOnce(c: Claim) returns (result: RouteDeletion)
      modifies this`objects, this`dead, this`clock
      ensures objects <= old(objects) <= objects + Routing(c, c.transfers)
      ensures old(Smooth()) ==> Smooth()
      ensures old(Smooth()) && OnlyExact(old(objects), c) ==>
                && result != Failed
                && (NoOrphans(old(objects), c) ==> result == Deleted)
                && (result == Deleted ==> objects !! Routing(c, c.transfers))
    {
      result := Deleted;
      ghost var base := objects;
      var i := |c.transfers|;
      while i > 0
        invariant 0 <= i <= |c.transfers|
        invariant objects <= base <= objects + Routing(c, c.transfers)
        invariant old(Smooth()) ==> Smooth()
        invariant old(Smooth()) && OnlyExact(base, c) ==>
                    && result != Failed
                    && (NoOrphans(base, c) ==> result == Deleted)
                    && (result == Deleted ==> objects !! Routing(c, c.transfers[i..]))
      {
        i := i - 1;
        RoutingFrom(c, i);
        if OnlyExact(base, c) {
          ExactAfterRouting(base, objects, c, i);
        }
        var one := RemoveActivatedTransfer(c, c.transfers[i]);
        result := Worse(result, one);
      }
      assert c.transfers[0..] == c.transfers;
    }

    /** The kernel drops routes whose links are gone, in its own time. */
    method AwaitCascade(c: Claim) returns (waited: bool)
      modifies this`objects, this`dead, this`clock
      ensures objects <= old(objects) <= objects + Routing(c, c.transfers)
      ensures old(Smooth()) ==> waited && Smooth() && NoOrphans(objects, c)
    {
      var happens;
      happens, waited := Attempt();
      if happens {
        objects := objects - set t | t in c.transfers && VethOf(c, t) !in objects :: RouteOf(c, t);
      }
    }

    /** Repeats the pass while only routes waiting for the kernel are left, up to a limit of waits. */
    method RemoveActivatedRouting(c: Claim, waits: nat) returns (ok: bool)
      modifies this`objects, this`dead, this`clock
      ensures objects <= old(objects) <= objects + Routing(c, c.transfers)
      ensures old(Smooth()) ==> Smooth()
      ensures old(Smooth()) && OnlyExact(old(objects), c) && waits > 0 ==> ok && objects !! Routing(c, c.transfers)
    {
      ghost var base := objects;
      var result := RemoveActivatedRoutingOnce(c);
      var left := waits;
      while result == Pending && left > 0
        invariant objects <= base <= objects + Routing(c, c.transfers)
        invariant old(Smooth()) ==> Smooth()
        invariant old(Smooth()) && OnlyExact(base, c) ==>
                    && result != Failed && (left < waits ==> result == Deleted)
                    && (result == Deleted ==> objects !! Routing(c, c.transfers))
        decreases left
      {
        left := left - 1;
        var waited := AwaitCascade(c);
        if !waited {
          return false;
        }
        if OnlyExact(base, c) {
          OnlyExactShrinks(base, objects, c);
        }
        result := RemoveActivatedRoutingOnce(c);
      }
      ok := result == Deleted;
    }

    /** Looks at the routing of a claim that was not activated; it is left alone. */
    method ObserveRouting(c: Claim) returns (ok: bool)
      modifies this`dead, this`clock
      ensures old(Smooth()) ==> Smooth()
      ensures old(Smooth()) && OnlyExact(objects, c) ==> (ok <==> NoOrphans(objects, c))
    {
      var i := 0;
      while i < |c.transfers|
        invariant 0 <= i <= |c.transfers|
        invariant old(Smooth()) ==> Smooth() && forall k :: 0 <= k < i ==> !Orphan(objects, c, c.transfers[k])
      {
        var t := c.transfers[i];
        var happens, alive := Attempt();
        if OnlyExact(objects, c) {
          OnlyExactTransfer(objects, c, t);
        }
        if !alive || !OnlyThis(objects, OutboundOf(c, t)) || !OnlyThis(objects, ReturnOf(c, t)) {
          return false;
        }
        if !Free(objects, RouteOf(c, t).slot)
           && !(OnlyThis(objects, RouteOf(c, t)) && VethOf(c, t) in objects && OnlyThis(objects, VethOf(c, t))) {
          return false;
        }
        i := i + 1;
      }
      ok := true;
    }

    // -------------------------------------------------------------- the phases

    /** Compares every claimed object with what is there before traffic may start. */
    method Verify(c: Claim, installation: Installation) returns (ok: bool)
      modifies this`dead, this`clock
      ensures ok ==> Complete(installation, c) && Standing(objects, c)
      ensures old(Smooth()) ==> Smooth() && (ok <==> Complete(installation, c) && Standing(objects, c))
      ensures old(Once()) ==> Once() && (!ok && Complete(installation, c) && Standing(objects, c) ==> Smooth())
    {
      if !Complete(installation, c) {
        return false;
      }
      var happens;
      happens, ok := Attempt();
      ok := ok && Standing(objects, c);
    }

    /** Takes away the receipted objects: firewall rules, routing, links. */
    method UndoInstallation(c: Claim, installation: Installation) returns (ok: bool)
      requires WellFormed(c) && PartOf(installation, c)
      modifies this`objects, this`dead, this`clock
      ensures objects <= old(objects) <= objects + Undoable(c, installation)
      ensures old(Smooth()) ==> Smooth()
      ensures old(Smooth()) && OnlyExact(old(objects), c) && NoOrphans(old(objects), c) ==>
                ok && objects == old(objects) - Undoable(c, installation)
    {
      ghost var base := objects;
      if OnlyExact(base, c) {
        ExactOwners(base, c);
      }
      ok := RemoveFirewall(c, Some(installation.firewall));
      ghost var afterFirewall := objects;
      if OnlyExact(base, c) && NoOrphans(base, c) {
        AfterFirewall(base, objects, c);
      }
      var done := RollbackRouting(c, installation.routing);
      ok := ok && done;
      ghost var afterRouting := objects;
      if OnlyExact(base, c) {
        OnlyExactShrinks(base, objects, c);
      }
      done := RemoveLinks(c, Some(installation.links));
      ok := ok && done;
      UndoneExactly(base, afterFirewall, afterRouting, objects, c, installation);
    }

    /**
      Undoes a failed installation from its receipts.  Where nothing foreign stands and no route waits
      for the kernel, exactly what the receipts allow goes.
    */
    method Rollback(c: Claim, installation: Installation, activated: bool) returns (ok: bool)
      requires WellFormed(c) && PartOf(installation, c)
      modifies this`objects, this`connections, this`dead, this`clock
      ensures objects <= old(objects) <= objects + Undoable(c, installation)
      ensures connections <= old(connections) <= connections + Sources(c)
      ensures ok ==> AllFree(objects, c) && (activated ==> connections !! Sources(c))
      ensures old(Smooth()) ==> Smooth()
      ensures old(Smooth()) && OnlyExact(old(objects), c) && NoOrphans(old(objects), c) ==>
                objects == old(objects) - Undoable(c, installation) && (ok <==> AllFree(objects, c))
    {
      ok := UndoInstallation(c, installation);
      if activated {
        var cleared := ClearConnections(c);
        ok := ok && cleared;
      }
      var absent := VerifyAbsent(c, activated);
      ok := ok && absent;
    }

    /** Removes a live installation. */
    method CloseHost(c: Claim, installation: Installation) returns (ok: bool)
      requires WellFormed(c)
      modifies this`objects, this`connections, this`dead, this`clock
      ensures objects <= old(objects) <= objects + ObjectsOf(c)
      ensures connections <= old(connections) <= connections + Sources(c)
      ensures ok ==> AllFree(objects, c) && connections !! Sources(c)
      ensures old(Smooth()) ==> Smooth()
      ensures old(Smooth()) && Complete(installation, c) && OnlyExact(old(objects), c) && NoOrphans(old(objects), c) ==> ok
    {
      if !Complete(installation, c) {
        return false;
      }
      ghost var base := objects;
      if OnlyExact(base, c) {
        ExactOwners(base, c);
      }
      ok := RemoveFirewall(c, Some(installation.firewall));
      if OnlyExact(base, c) && NoOrphans(base, c) {
        AfterFirewall(base, objects, c);
      }
      var done := RollbackRouting(c, installation.routing);
      ok := ok && done;
      if OnlyExact(base, c) {
        OnlyExactShrinks(base, objects, c);
      }
      done := RemoveLinks(c, Some(installation.links));
      ok := ok && done;
      LinksAndRoutesAreOwn(c, Some(installation.links));
      if OnlyExact(base, c) && objects !! ObjectsOf(c) {
        NothingLeft(base, objects, c);
      }
      done := ClearConnections(c);
      ok := ok && done;
      done := VerifyAbsent(c, true);
      ok := ok && done;
    }

    /** Stops the forwarding of a dead run, looks at or removes its routing, and removes its links. */
    method RemoveStale(c: Claim, activated: bool, waits: nat) returns (ok: bool)
      requires WellFormed(c)
      modifies this`objects, this`dead, this`clock
      ensures objects <= old(objects) <= objects + ObjectsOf(c)
      // an unactivated claim's policy rules are never deleted
      ensures !activated ==> old(objects) * Rules(c, c.transfers) <= objects
      ensures old(Smooth()) ==> Smooth()
      ensures old(Smooth()) && OnlyExact(old(objects), c) && waits > 0 ==>
                && (ok <==> activated || NoOrphans(old(objects), c))
                && (ok && (activated || old(objects) !! Rules(c, c.transfers)) ==> AllFree(objects, c))
    {
      ghost var base := objects;
      if OnlyExact(base, c) {
        ExactOwners(base, c);
      }
      ok := RemoveFirewall(c, None);
      if OnlyExact(base, c) {
        OnlyExactShrinks(base, objects, c);
      }
      FirewallLeavesLinks(base, objects, c);
      ghost var afterFirewall := objects;
      var done := StaleRouting(c, activated, waits);
      ok := ok && done;
      ghost var afterRouting := objects;
      if OnlyExact(base, c) {
        OnlyExactShrinks(base, objects, c);
      }
      done := RemoveLinks(c, None);
      ok := ok && done;
      LinksAndRoutesAreOwn(c, None);
      WhatIsLeft(base, afterFirewall, afterRouting, objects, c);
    }

    method StaleRouting(c: Claim, activated: bool, waits: nat) returns (ok: bool)
      modifies this`objects, this`dead, this`clock
      ensures objects <= old(objects) <= objects + Routing(c, c.transfers)
      ensures !activated ==> objects == old(objects)
      ensures old(Smooth()) ==> Smooth()
      ensures old(Smooth()) && OnlyExact(old(objects), c) && waits > 0 ==>
                && (ok <==> activated || NoOrphans(old(objects), c))
                && (ok ==> NoOrphans(objects, c))
                && (activated ==> objects !! Rules(c, c.transfers))
    {
      if activated {
        ok := RemoveActivatedRouting(c, waits);
      } else {
        ok := ObserveRouting(c);
      }
    }

    /** Removes what a dead run left behind. */
    method Cleanup(c: Claim, activated: bool, waits: nat) returns (ok: bool)
      requires WellFormed(c)
      modifies this`objects, this`connections, this`dead, this`clock
      ensures objects <= old(objects) <= objects + ObjectsOf(c)
      ensures connections <= old(connections) <= connections + Sources(c)
      ensures ok ==> AllFree(objects, c) && (activated ==> connections !! Sources(c))
      ensures !activated ==> old(objects) * Rules(c, c.transfers) <= objects
      ensures old(Smooth()) ==> Smooth()
      ensures old(Smooth()) && OnlyExact(old(objects), c) && waits > 0 ==>
                (ok <==> activated || (old(objects) !! Rules(c, c.transfers) && NoOrphans(old(objects), c)))
    {
      ok := RemoveStale(c, activated, waits);
      if activated {
        var done := ClearConnections(c);
        ok := ok && done;
      }
      if AllFree(objects, c) {
        AllFreeParts(objects, c);
        RulesAreOwn(c);
      }
      var done := VerifyAbsent(c, activated);
      ok := ok && done;
    }

    // -------------------------------------------------------------- evidence

    method PublishClaim(c: Claim) returns (ok: bool)
      modifies this`evidence, this`dead, this`clock
      ensures evidence == old(evidence) || (c.run !in old(evidence) && evidence == old(evidence)[c.run := Evidence(c, false)])
      ensures ok ==> c.run !in old(evidence) && evidence == old(evidence)[c.run := Evidence(c, false)]
      ensures old(Smooth()) ==> Smooth() && (ok <==> c.run !in old(evidence))
      ensures old(Once()) ==> Once() && (!ok ==> evidence == old(evidence))
      ensures forall n: nat :: n > 0 && old(DiesAfter(n)) && c.run !in old(evidence) ==> ok && DiesAfter(n - 1)
    {
      var happens;
      happens, ok := Attempt();
      if c.run in evidence {
        return false;
      }
      if happens {
        evidence := evidence[c.run := Evidence(c, false)];
      }
    }

    method PublishActivation(c: Claim) returns (ok: bool)
      requires c.run in evidence && evidence[c.run] == Evidence(c, false)
      modifies this`evidence, this`dead, this`clock
      ensures evidence == old(evidence) || evidence == old(evidence)[c.run := Evidence(c, true)]
      ensures ok ==> evidence == old(evidence)[c.run := Evidence(c, true)]
      ensures old(Smooth()) ==> ok && Smooth()
      ensures old(Once()) && !ok ==> Smooth() && evidence == old(evidence)
    {
      var happens;
      happens, ok := Attempt();
      if happens {
        evidence := evidence[c.run := Evidence(c, true)];
      }
    }

    method LoadEvidence(run: RunID) returns (found: Option<Evidence>, ok: bool)
      modifies this`dead, this`clock
      ensures ok ==> found == if run in evidence then Some(evidence[run]) else None
      ensures old(dead) ==> !ok
      ensures old(Smooth()) ==> ok && Smooth()
    {
      var happens;
      happens, ok := Attempt();
      found := if ok && run in evidence then Some(evidence[run]) else None;
    }

    /** Unlinks the activation, then the claim, then the directory. */
    method RemoveEvidence(expected: Evidence) returns (ok: bool)
      modifies this`evidence, this`dead, this`clock
      ensures || evidence == old(evidence)
              || (&& expected.claim.run in old(evidence) && old(evidence)[expected.claim.run] == expected
                  && (evidence == old(evidence)[expected.claim.run := expected.(activated := false)]
                      || evidence == old(evidence) - {expected.claim.run}))
      ensures ok ==> evidence == old(evidence) - {expected.claim.run}
      ensures old(Smooth()) ==> Smooth()
      ensures old(Smooth()) && expected.claim.run in old(evidence) && old(evidence)[expected.claim.run] == expected ==> ok
    {
      var run := expected.claim.run;
      var found, loaded := LoadEvidence(run);
      if !loaded || found != Some(expected) {
        return false;
      }
      var happens;
      if expected.activated {
        happens, ok := Attempt();
        if happens {
          evidence := evidence[run := expected.(activated := false)];
        }
        if !ok {
          return;
        }
      }
      happens, ok := Attempt();
      if happens {
        evidence := evidence - {run};
      }
      if !ok {
        return;
      }
      happens, ok := Attempt();
    }

    // -------------------------------------------------------------- the transaction

    method RollbackOpen(c: Claim, installation: Installation)
      requires WellFormed(c) && c.run in evidence && evidence[c.run].claim == c && PartOf(installation, c)
      modifies this`objects, this`connections, this`evidence, this`dead, this`clock
      ensures objects <= old(objects) <= objects + Undoable(c, installation)
      ensures connections <= old(connections) <= connections + Sources(c)
      ensures Settled(old(evidence), evidence, c) && (c.run !in evidence ==> AllFree(objects, c))
      ensures old(Smooth()) && OnlyExact(old(objects), c) && NoOrphans(old(objects), c) ==>
                && objects == old(objects) - Undoable(c, installation)
                && (AllFree(objects, c) ==> c.run !in evidence)
      ensures old(dead) ==> objects == old(objects) && evidence == old(evidence)
    {
      var found, loaded := LoadEvidence(c.run);
      if !loaded || found.None? {
        return;
      }
      var clean := Rollback(c, installation, found.value.activated);
      if !clean {
        return;
      }
      var removed := RemoveEvidence(found.value);
    }

    /** Installs and verifies; after one failure without effect exactly the receipted objects are there. */
    method InstallVerified(c: Claim) returns (made: Installation, ok: bool)
      requires WellFormed(c)
      modifies this`objects, this`dead, this`clock
      ensures old(objects) <= objects <= old(objects) + ObjectsOf(c)
      ensures Receipts(made) <= objects - old(objects) && PartOf(made, c)
      ensures made.routing != {} ==> made.links == Veths(c, c.transfers)
      ensures ok ==> Complete(made, c) && Standing(objects, c)
      ensures old(Smooth()) && OpenPlaces(old(objects), c) ==> ok && Smooth()
      ensures old(Once()) ==> Once() && objects == old(objects) + Receipts(made)
      ensures old(Once()) && OpenPlaces(old(objects), c) && !ok ==> Smooth()
      ensures old(DiesAfter(2 * |c.transfers| + 4)) && OpenPlaces(old(objects), c) && c.transfers != [] ==>
                dead && !ok && objects == old(objects) + FirstRuleMade(c)
    {
      ghost var base := objects;
      made, ok := Install(c);
      if !ok {
        return;
      }
      if OpenPlaces(base, c) {
        InstalledOnTop(base, objects, made, c);
      }
      ok := Verify(c, made);
    }

    /** Installs, verifies and activates. */
    method InstallAndActivate(c: Claim) returns (made: Installation, ok: bool)
      requires WellFormed(c) && c.run in evidence && evidence[c.run] == Evidence(c, false)
      modifies this`objects, this`evidence, this`dead, this`clock
      ensures old(objects) <= objects <= old(objects) + ObjectsOf(c)
      ensures Receipts(made) <= objects - old(objects) && PartOf(made, c)
      ensures made.routing != {} ==> made.links == Veths(c, c.transfers)
      ensures evidence == old(evidence) || evidence == old(evidence)[c.run := Evidence(c, true)]
      ensures ok ==> Complete(made, c) && Standing(objects, c) && connections !! Sources(c)
      ensures ok ==> evidence == old(evidence)[c.run := Evidence(c, true)]
      ensures old(Smooth()) && OpenPlaces(old(objects), c) && connections !! Sources(c) ==> ok
      ensures old(Once()) && OpenPlaces(old(objects), c) && connections !! Sources(c) && !ok ==>
                Smooth() && objects == old(objects) + Receipts(made)
      ensures old(DiesAfter(2 * |c.transfers| + 4)) && OpenPlaces(old(objects), c) && c.transfers != [] ==>
                dead && !ok && objects == old(objects) + FirstRuleMade(c) && evidence == old(evidence)
    {
      made, ok := InstallVerified(c);
      if ok {
        ok := ActivateUnused(c);
      }
    }

    /** Activates the claim when its addresses have no tracked connections. */
    method ActivateUnused(c: Claim) returns (ok: bool)
      requires c.run in evidence && evidence[c.run] == Evidence(c, false)
      modifies this`evidence, this`dead, this`clock
      ensures evidence == old(evidence) || evidence == old(evidence)[c.run := Evidence(c, true)]
      ensures ok ==> connections !! Sources(c) && evidence == old(evidence)[c.run := Evidence(c, true)]
      ensures old(Smooth()) && connections !! Sources(c) ==> ok
      ensures old(Once()) && connections !! Sources(c) && !ok ==> Smooth()
    {
      var happens, observed := Attempt();
      if !observed || !(connections !! Sources(c)) {
        return false;
      }
      ok := PublishActivation(c);
    }

    method InstallPublished(c: Claim) returns (installation: Option<Installation>)
      requires WellFormed(c) && c.run in evidence && evidence[c.run] == Evidence(c, false) && objects !! ObjectsOf(c)
      modifies this`objects, this`connections, this`evidence, this`dead, this`clock
      ensures old(objects) <= objects <= old(objects) + ObjectsOf(c)
      ensures OnlyThisRun(old(evidence), evidence, c)
      ensures c.run !in evidence ==> objects == old(objects)
      ensures connections <= old(connections) <= connections + Sources(c)
      ensures installation.Some? ==>
                && Complete(installation.value, c) && Standing(objects, c) && connections !! Sources(c)
                && c.run in evidence && evidence[c.run] == Evidence(c, true)
      ensures old(Smooth()) && OpenPlaces(old(objects), c) && old(connections) !! Sources(c) ==> installation.Some?
      ensures old(Once()) && OpenPlaces(old(objects), c) && old(connections) !! Sources(c) ==>
                installation.Some? || c.run !in evidence
      ensures old(DiesAfter(2 * |c.transfers| + 4)) && OpenPlaces(old(objects), c) && c.transfers != [] ==>
                objects == old(objects) + FirstRuleMade(c) && evidence == old(evidence)
    {
      ghost var base := objects;
      var made, ok := InstallAndActivate(c);
      if ok {
        return Some(made);
      }
      UndoFailed(c, made, base);
      installation := None;
    }

    /** Rolls a failed opening back to the host `base` it started from, as far as the operations work. */
    method UndoFailed(c: Claim, made: Installation, ghost base: set<HostObject>)
      requires WellFormed(c) && c.run in evidence && evidence[c.run].claim == c && base !! ObjectsOf(c)
      requires base <= objects <= base + ObjectsOf(c) && PartOf(made, c)
      requires made.routing != {} ==> made.links == Veths(c, c.transfers)
      modifies this`objects, this`connections, this`evidence, this`dead, this`clock
      ensures base <= objects <= base + ObjectsOf(c) && OnlyThisRun(old(evidence), evidence, c)
      ensures c.run !in evidence ==> objects == base
      ensures connections <= old(connections) <= connections + Sources(c)
      ensures old(Smooth()) && OpenPlaces(base, c) && old(objects) == base + Receipts(made) ==> c.run !in evidence
      ensures old(dead) ==> objects == old(objects) && evidence == old(evidence)
    {
      ghost var between := objects;
      if OpenPlaces(base, c) {
        PartlyInstalled(base, made, c);
      }
      RollbackOpen(c, made);
      RolledBack(base, between, objects, made, c);
    }

    /**
      Opens the host network of a run.  Whatever fails, and wherever the process dies, nothing that was
      on the host before is touched, everything added belongs to the claim, and without evidence left
      the host is exactly as it was.
    */
    method Open(c: Claim) returns (installation: Option<Installation>)
      requires WellFormed(c) && c.run !in evidence && Covered(objects, evidence)
      modifies this`objects, this`connections, this`evidence, this`dead, this`clock
      ensures old(objects) <= objects <= old(objects) + ObjectsOf(c)
      ensures Covered(objects, evidence)
      ensures evidence - {c.run} == old(evidence) && (c.run in evidence ==> evidence[c.run].claim == c)
      ensures c.run !in evidence ==> objects == old(objects)
      ensures connections <= old(connections) <= connections + Sources(c)
      ensures installation.Some? ==>
                && Complete(installation.value, c) && Standing(objects, c) && connections !! Sources(c)
                && c.run in evidence && evidence[c.run] == Evidence(c, true)
      ensures old(Smooth()) && OpenPlaces(old(objects), c) && old(connections) !! Sources(c) ==> installation.Some?
      // on free places one failed operation without effect is undone completely
      ensures old(Once()) && OpenPlaces(old(objects), c) && old(connections) !! Sources(c) && installation.None? ==>
                evidence == old(evidence) && objects == old(objects)
      // a process that dies between the two rules of the first transfer leaves exactly this behind
      ensures old(DiesAfter(2 * |c.transfers| + 5)) && OpenPlaces(old(objects), c) && c.transfers != [] ==>
                objects == old(objects) + FirstRuleMade(c) && evidence == old(evidence)[c.run := Evidence(c, false)]
    {
      NotYetOnHost(objects, evidence, c);
      installation := PublishAndInstall(c);
      StillCovered(old(objects), old(evidence), objects, evidence, c);
    }

    method PublishAndInstall(c: Claim) returns (installation: Option<Installation>)
      requires WellFormed(c) && c.run !in evidence && objects !! ObjectsOf(c)
      modifies this`objects, this`connections, this`evidence, this`dead, this`clock
      ensures old(objects) <= objects <= old(objects) + ObjectsOf(c)
      ensures evidence - {c.run} == old(evidence) && (c.run in evidence ==> evidence[c.run].claim == c)
      ensures c.run !in evidence ==> objects == old(objects)
      ensures connections <= old(connections) <= connections + Sources(c)
      ensures installation.Some? ==>
                && Complete(installation.value, c) && Standing(objects, c) && connections !! Sources(c)
                && c.run in evidence && evidence[c.run] == Evidence(c, true)
      ensures old(Smooth()) && OpenPlaces(old(objects), c) && old(connections) !! Sources(c) ==> installation.Some?
      ensures old(Once()) && OpenPlaces(old(objects), c) && old(connections) !! Sources(c) && installation.None? ==>
                evidence == old(evidence) && objects == old(objects)
      ensures old(DiesAfter(2 * |c.transfers| + 5)) && OpenPlaces(old(objects), c) && c.transfers != [] ==>
                objects == old(objects) + FirstRuleMade(c) && evidence == old(evidence)[c.run := Evidence(c, false)]
    {
      var published := PublishClaim(c);
      if !published {
        return None;
      }
      installation := InstallPublished(c);
    }

    /** Closes a live run: its evidence goes only when everything it claimed is gone. */
    method CloseSession(c: Claim, installation: Installation) returns (ok: bool)
      requires WellFormed(c) && Covered(objects, evidence)
      modifies this`objects, this`connections, this`evidence, this`dead, this`clock
      ensures objects <= old(objects) <= objects + ObjectsOf(c) && Covered(objects, evidence)
      ensures connections <= old(connections) <= connections + Sources(c)
      ensures Settled(old(evidence), evidence, c)
      ensures c.run in old(evidence) && c.run !in evidence ==> AllFree(objects, c) && connections !! Sources(c)
      ensures ok ==> c.run in old(evidence) && c.run !in evidence && objects == old(objects) - ObjectsOf(c)
      ensures old(Smooth()) && Complete(installation, c) && c.run in old(evidence)
                && old(evidence)[c.run] == Evidence(c, true) && OnlyExact(old(objects), c) && NoOrphans(old(objects), c) ==>
                ok
    {
      var found, loaded := LoadEvidence(c.run);
      if !loaded || found != Some(Evidence(c, true)) || !Complete(installation, c) {
        return false;
      }
      ghost var base := objects;
      var clean := CloseHost(c, installation);
      FreeMeansGone(base, objects, c);
      if !clean {
        return false;
      }
      ok := RemoveEvidence(found.value);
    }

    /**
      Recovers a stale run.  Its evidence goes only when everything it claimed is gone, so a host is
      clean or the evidence is kept; without failures an activated run is always cleaned, and one that
      died before activation exactly when it had not yet added a policy rule and no route of it waits
      for the kernel.
    */
    method Recover(run: RunID, waits: nat) returns (ok: bool)
      requires Covered(objects, evidence)
      modifies this`objects, this`connections, this`evidence, this`dead, this`clock
      ensures Covered(objects, evidence)
      ensures run !in old(evidence) ==> objects == old(objects) && evidence == old(evidence) && connections == old(connections)
      ensures run in old(evidence) ==>
                var c := old(evidence)[run].claim;
                && objects <= old(objects) <= objects + ObjectsOf(c)
                && connections <= old(connections) <= connections + Sources(c)
                && Settled(old(evidence), evidence, c)
                && (run !in evidence ==> AllFree(objects, c))
                && (!old(evidence)[run].activated ==> old(objects) * Rules(c, c.transfers) <= objects)
      ensures ok ==> run !in evidence
      ensures old(Smooth()) && waits > 0 && run in old(evidence) && OnlyExact(old(objects), old(evidence)[run].claim) ==>
                (run !in evidence <==> CanBeCleaned(old(objects), old(evidence)[run]))
    {
      var found, loaded := LoadEvidence(run);
      if !loaded {
        return false;
      }
      if found.None? {
        return true;
      }
      var c := found.value.claim;
      assert WellFormed(c) && c.run == run;
      ghost var base := objects;
      var clean := Cleanup(c, found.value.activated, waits);
      FreeMeansGone(base, objects, c);
      if !clean {
        return false;
      }
      ok := RemoveEvidence(found.value);
    }
  }

  /** What a transfer has got between its two policy rules, apart from its link. */
  function BetweenRules(c: Claim, t: Transfer): set<HostObject> {
    {RouteOf(c, t), OutboundOf(c, t)}
  }

  /** All links, and the first transfer's route and outbound rule. */
  function FirstRuleMade(c: Claim): set<HostObject>
    requires c.transfers != []
  {
    Veths(c, c.transfers) + BetweenRules(c, c.transfers[0])
  }

  lemma LinksStep(before: set<HostObject>, c: Claim, i: nat)
    requires WellFormed(c) && i < |c.transfers|
    ensures Veths(c, c.transfers[..i + 1]) == Veths(c, c.transfers[..i]) + {VethOf(c, c.transfers[i])}
    ensures Veths(c, c.transfers[..i + 1]) <= Veths(c, c.transfers)
    ensures AllFree(before, c) ==> Free(before + Veths(c, c.transfers[..i]), VethName(c.transfers[i].veth))
  {
    NextOf(c, c.transfers, i);
    OtherPlaces(c, i);
    assert forall t :: t in c.transfers[..i + 1] ==> t in c.transfers;
    if AllFree(before, c) {
      AllFreeParts(before, c);
    }
  }

  lemma RoutingStep(c: Claim, i: nat)
    requires WellFormed(c) && i < |c.transfers|
    ensures var ts, t := c.transfers, c.transfers[i];
            && Routing(c, ts[..i + 1]) == Routing(c, ts[..i]) + {RouteOf(c, t), OutboundOf(c, t), ReturnOf(c, t)}
            && Routing(c, ts[..i + 1]) <= Routing(c, ts) && t.outbound != t.returning
  {
    NextOf(c, c.transfers, i);
    OtherPlaces(c, i);
    RoutingGrows(c, i + 1);
  }

  lemma RoutingGrows(c: Claim, i: nat)
    requires i <= |c.transfers|
    ensures Routing(c, c.transfers[..i]) <= Routing(c, c.transfers)
  {
    assert forall t :: t in c.transfers[..i] ==> t in c.transfers;
  }

  /** The routing of the first transfers has been made on top of `base`. */
  ghost predicate Made(base: set<HostObject>, receipts: set<HostObject>, c: Claim, i: nat) {
    i <= |c.transfers| && receipts == Routing(c, c.transfers[..i]) && receipts !! base
  }

  /** The receipts of one more transfer join those before. */
  lemma NextMade(base: set<HostObject>, before: set<HostObject>, more: set<HostObject>, now: set<HostObject>, c: Claim, i: nat)
    requires WellFormed(c) && i < |c.transfers| && Made(base, before, c, i)
    requires base + before <= now <= base + before + RoutingOf(c, c.transfers[i]) && more <= now - (base + before)
    ensures base <= now <= base + Routing(c, c.transfers) && before + more <= now - base
    ensures more == RoutingOf(c, c.transfers[i]) ==> Made(base, before + more, c, i + 1)
    ensures now == base + before + more ==> now == base + (before + more)
  {
    RoutingStep(c, i);
  }

  lemma NextIsReady(before: set<HostObject>, now: set<HostObject>, c: Claim, i: nat)
    requires WellFormed(c) && i < |c.transfers| && now == before + Routing(c, c.transfers[..i])
    ensures RoutingReady(before, c) ==> TransferReady(now, c, c.transfers[i])
  {
    OtherPlaces(c, i);
    assert c.transfers[i] in c.transfers;
  }

  /** The transfer's link is there and its routing places are empty. */
  ghost predicate TransferReady(objects: set<HostObject>, c: Claim, t: Transfer) {
    && VethOf(c, t) in objects && Free(objects, ReturnPrefix(c.returnTable, t.subnet))
    && Free(objects, Priority(t.outbound)) && Free(objects, Priority(t.returning))
  }

  ghost predicate NoOwner(objects: set<HostObject>, run: RunID) {
    forall o :: o in objects ==> !(o.slot.FirewallRule? && o.slot.owner == run)
  }

  /** The links are there and the routing places are empty. */
  ghost predicate RoutingReady(objects: set<HostObject>, c: Claim) {
    forall t :: t in c.transfers ==> TransferReady(objects, c, t)
  }

  predicate Complete(i: Installation, c: Claim) {
    && i.links == Veths(c, c.transfers) && i.routing == Routing(c, c.transfers)
    && i.firewall == FirewallUpTo(c, c.firewallRules)
  }

  ghost predicate PartOf(i: Installation, c: Claim) {
    && i.links <= Veths(c, c.transfers) && i.routing <= Routing(c, c.transfers)
    && i.firewall <= FirewallUpTo(c, c.firewallRules)
  }

  lemma OnTop(base: set<HostObject>, paths: set<HostObject>, now: set<HostObject>, links: set<HostObject>,
              routing: set<HostObject>, firewall: set<HostObject>)
    ensures paths == base + links + routing && now == paths + firewall ==>
              now == base + Receipts(Installation(links, routing, firewall))
  {
  }

  lemma LinksOnly(before: set<HostObject>, now: set<HostObject>, c: Claim, links: set<HostObject>)
    requires before <= now <= before + Veths(c, c.transfers) && links <= now - before
    ensures links <= Veths(c, c.transfers)
  {
  }

  /** Links and routing together on top of what was there. */
  lemma ThenRouting(before: set<HostObject>, linked: set<HostObject>, now: set<HostObject>, c: Claim,
                    links: set<HostObject>, routing: set<HostObject>)
    requires before <= linked <= before + Veths(c, c.transfers) && links == Veths(c, c.transfers) <= linked - before
    requires linked <= now <= linked + Routing(c, c.transfers) && routing <= now - linked
    ensures before <= now <= before + Veths(c, c.transfers) + Routing(c, c.transfers) && linked == before + links
    ensures links + routing <= now - before && routing <= Routing(c, c.transfers)
    ensures c.transfers != [] && now == linked + BetweenRules(c, c.transfers[0]) ==> now == before + FirstRuleMade(c)
  {
  }

  lemma AfterLinks(before: set<HostObject>, after: set<HostObject>, c: Claim)
    requires before <= after <= before + Veths(c, c.transfers) && Veths(c, c.transfers) <= after
    ensures AllFree(before, c) ==> RoutingReady(after, c)
  {
    if AllFree(before, c) {
      AllFreeParts(before, c);
    }
  }

  // ---------------------------------------------------------------- facts about removal

  function Permitted(some: set<HostObject>, permitted: Option<set<HostObject>>): (r: set<HostObject>)
    ensures r <= some
  {
    match permitted case None => some case Some(receipts) => some * receipts
  }

  /** Every firewall rule with the run's owner is one of the claimed. */
  predicate OwnersExact(objects: set<HostObject>, c: Claim) {
    forall o :: o in objects && o.slot.FirewallRule? && o.slot.owner == c.run ==> o in FirewallUpTo(c, c.firewallRules)
  }

  lemma FirewallGrows(c: Claim, i: nat)
    requires i <= c.firewallRules
    ensures FirewallUpTo(c, i) <= FirewallUpTo(c, c.firewallRules)
  {
  }

  function RoutingOf(c: Claim, t: Transfer): set<HostObject> {
    {RouteOf(c, t), OutboundOf(c, t), ReturnOf(c, t)}
  }

  ghost predicate OnlyExactOf(objects: set<HostObject>, c: Claim, t: Transfer) {
    && OnlyThis(objects, VethOf(c, t)) && OnlyThis(objects, RouteOf(c, t))
    && OnlyThis(objects, OutboundOf(c, t)) && OnlyThis(objects, ReturnOf(c, t))
  }

  /** A return route whose link has gone; the kernel drops it on its own. */
  ghost predicate Orphan(objects: set<HostObject>, c: Claim, t: Transfer) {
    RouteOf(c, t) in objects && VethOf(c, t) !in objects
  }

  ghost predicate NoOrphans(objects: set<HostObject>, c: Claim) {
    forall t :: t in c.transfers ==> !Orphan(objects, c, t)
  }

  lemma OnlyExactTransfer(objects: set<HostObject>, c: Claim, t: Transfer)
    requires OnlyExact(objects, c) && t in c.transfers
    ensures OnlyExactOf(objects, c, t)
  {
    OwnObjects(c);
    assert OfTransfer(c, t) <= ObjectsOf(c);
    assert VethOf(c, t) in OfTransfer(c, t) && RouteOf(c, t) in OfTransfer(c, t);
    assert OutboundOf(c, t) in OfTransfer(c, t) && ReturnOf(c, t) in OfTransfer(c, t);
  }

  lemma RoutingFrom(c: Claim, i: nat)
    requires i < |c.transfers|
    ensures Routing(c, c.transfers[i..]) == Routing(c, c.transfers[i + 1..]) + RoutingOf(c, c.transfers[i])
    ensures RoutingOf(c, c.transfers[i]) <= Routing(c, c.transfers)
  {
    var after := c.transfers[i + 1..];
    assert c.transfers[i..] == [c.transfers[i]] + after;
    assert c.transfers[i] in c.transfers;
  }

  /** Taking routing away keeps the rest exact and orphans no route. */
  lemma StillExact(before: set<HostObject>, now: set<HostObject>, c: Claim, i: nat)
    requires OnlyExact(before, c) && NoOrphans(before, c) && i < |c.transfers|
    requires now <= before <= now + Routing(c, c.transfers)
    ensures OnlyExactOf(now, c, c.transfers[i]) && !Orphan(now, c, c.transfers[i])
  {
    OnlyExactTransfer(before, c, c.transfers[i]);
    assert c.transfers[i] in c.transfers;
    assert VethOf(c, c.transfers[i]) !in Routing(c, c.transfers);
  }

  predicate IsPermitted(o: HostObject, permitted: Option<set<HostObject>>) {
    permitted.None? || o in permitted.value
  }

  /** The permitted links and the routes through them. */
  function LinksAndRoutes(c: Claim, ts: seq<Transfer>, permitted: Option<set<HostObject>>): set<HostObject> {
    (set t | t in ts && IsPermitted(VethOf(c, t), permitted) :: VethOf(c, t)) +
    (set t | t in ts && IsPermitted(VethOf(c, t), permitted) :: RouteOf(c, t))
  }

  lemma LinksFrom(c: Claim, i: nat, permitted: Option<set<HostObject>>)
    requires i < |c.transfers|
    ensures var ts, t := c.transfers, c.transfers[i];
            LinksAndRoutes(c, ts[i..], permitted)
            == LinksAndRoutes(c, ts[i + 1..], permitted)
               + if IsPermitted(VethOf(c, t), permitted) then {VethOf(c, t), RouteOf(c, t)} else {}
    ensures WellFormed(c) ==> VethOf(c, c.transfers[i]) !in LinksAndRoutes(c, c.transfers[i + 1..], permitted)
  {
    var after := c.transfers[i + 1..];
    assert c.transfers[i..] == [c.transfers[i]] + after;
    if WellFormed(c) {
      forall t | t in after ensures t.veth != c.transfers[i].veth {
        var j :| 0 <= j < |after| && after[j] == t;
        assert c.transfers[i + 1 + j] == t;
      }
    }
  }

  lemma LinksFromStart(c: Claim, i: nat, permitted: Option<set<HostObject>>)
    requires i <= |c.transfers|
    ensures LinksAndRoutes(c, c.transfers[i..], permitted) <= LinksAndRoutes(c, c.transfers, permitted)
  {
    assert forall t :: t in c.transfers[i..] ==> t in c.transfers;
  }

  /** The link is gone, and with it the route that went through it. */
  ghost predicate LinkGone(before: set<HostObject>, now: set<HostObject>, c: Claim, t: Transfer) {
    VethOf(c, t) !in now && !(VethOf(c, t) in before && RouteOf(c, t) in now)
  }

  ghost predicate LinksGone(before: set<HostObject>, now: set<HostObject>, c: Claim, i: nat, permitted: Option<set<HostObject>>) {
    forall k :: i <= k < |c.transfers| && IsPermitted(VethOf(c, c.transfers[k]), permitted) ==>
                  LinkGone(before, now, c, c.transfers[k])
  }

  /** Where only exact objects stood and none is left, nothing stands. */
  lemma NothingLeft(before: set<HostObject>, now: set<HostObject>, c: Claim)
    requires OnlyExact(before, c) && now <= before && now !! ObjectsOf(c)
    ensures AllFree(now, c)
  {
    forall o | o in ObjectsOf(c) ensures Free(now, o.slot) {
      assert OnlyThis(before, o);
    }
  }

  // ---------------------------------------------------------------- facts about the phases

  function Worse(a: RouteDeletion, b: RouteDeletion): RouteDeletion {
    if a == Failed || b == Failed then Failed else if a == Pending || b == Pending then Pending else Deleted
  }

  lemma OnlyExactShrinks(before: set<HostObject>, now: set<HostObject>, c: Claim)
    requires OnlyExact(before, c) && now <= before
    ensures OnlyExact(now, c)
  {
    forall own | own in ObjectsOf(c) ensures OnlyThis(now, own) {
      assert OnlyThis(before, own);
    }
  }

  lemma ExactAfterRouting(before: set<HostObject>, now: set<HostObject>, c: Claim, i: nat)
    requires OnlyExact(before, c) && i < |c.transfers| && now <= before <= now + Routing(c, c.transfers)
    ensures OnlyExactOf(now, c, c.transfers[i])
    ensures NoOrphans(before, c) ==> !Orphan(now, c, c.transfers[i])
  {
    OnlyExactTransfer(before, c, c.transfers[i]);
    if NoOrphans(before, c) {
      StillExact(before, now, c, i);
    }
  }

  /** The host shows exactly the claim at the claim's places. */
  predicate Standing(objects: set<HostObject>, c: Claim) {
    && ObjectsOf(c) <= objects
    && OnlyExact(objects, c)
    && (forall o :: o in objects && o.slot.ReturnPrefix? && o.slot.table == c.returnTable ==> o in Routes(c, c.transfers))
  }

  /** What a rollback may take away: receipted objects, and the routes of receipted links. */
  function Undoable(c: Claim, i: Installation): set<HostObject> {
    Receipts(i) + LinksAndRoutes(c, c.transfers, Some(i.links))
  }

  lemma ExactOwners(objects: set<HostObject>, c: Claim)
    requires OnlyExact(objects, c)
    ensures OwnersExact(objects, c)
  {
  }

  lemma AfterFirewall(before: set<HostObject>, now: set<HostObject>, c: Claim)
    requires OnlyExact(before, c) && NoOrphans(before, c)
    requires now <= before <= now + FirewallUpTo(c, c.firewallRules)
    ensures OnlyExact(now, c) && NoOrphans(now, c)
  {
    OnlyExactShrinks(before, now, c);
  }

  lemma LinksAndRoutesAreOwn(c: Claim, permitted: Option<set<HostObject>>)
    ensures LinksAndRoutes(c, c.transfers, permitted) <= Veths(c, c.transfers) + Routes(c, c.transfers)
    ensures Veths(c, c.transfers) + Routing(c, c.transfers) <= ObjectsOf(c)
    ensures Rules(c, c.transfers) !! Veths(c, c.transfers) + Routes(c, c.transfers) + FirewallUpTo(c, c.firewallRules)
  {
  }

  lemma RulesAreOwn(c: Claim)
    ensures Rules(c, c.transfers) <= ObjectsOf(c)
  {
  }

  lemma FirewallLeavesLinks(before: set<HostObject>, now: set<HostObject>, c: Claim)
    requires now <= before <= now + FirewallUpTo(c, c.firewallRules)
    ensures NoOrphans(before, c) <==> NoOrphans(now, c)
    ensures before * Rules(c, c.transfers) <= now
  {
    assert forall t :: t in c.transfers ==> (VethOf(c, t) in before <==> VethOf(c, t) in now);
    assert forall t :: t in c.transfers ==> (RouteOf(c, t) in before <==> RouteOf(c, t) in now);
  }

  /** After the links are gone nothing is left, unless rules or waiting routes had stayed. */
  lemma WhatIsLeft(base: set<HostObject>, afterFirewall: set<HostObject>, afterRouting: set<HostObject>, now: set<HostObject>,
                   c: Claim)
    requires now <= afterRouting <= afterFirewall <= base
    ensures OnlyExact(base, c) && afterFirewall !! FirewallUpTo(c, c.firewallRules) && LinksGone(afterRouting, now, c, 0, None)
            && afterRouting !! Rules(c, c.transfers) && NoOrphans(afterRouting, c)
            ==> AllFree(now, c)
    ensures AllFree(now, c) ==> now !! Rules(c, c.transfers)
  {
    if AllFree(now, c) {
      AllFreeParts(now, c);
    }
    if OnlyExact(base, c) && afterFirewall !! FirewallUpTo(c, c.firewallRules) && LinksGone(afterRouting, now, c, 0, None)
       && afterRouting !! Rules(c, c.transfers) && NoOrphans(afterRouting, c) {
      forall t | t in c.transfers ensures VethOf(c, t) !in now && RouteOf(c, t) !in now {
        var k :| 0 <= k < |c.transfers| && c.transfers[k] == t;
        assert LinkGone(afterRouting, now, c, c.transfers[k]);
      }
      NothingLeft(base, now, c);
    }
  }

  // ---------------------------------------------------------------- the write-ahead invariant

  /** Every run's object on the host is claimed by evidence on disk. */
  ghost predicate Covered(objects: set<HostObject>, evidence: map<RunID, Evidence>) {
    && (forall run :: run in evidence ==> evidence[run].claim.run == run && WellFormed(evidence[run].claim))
    && (forall o :: o in objects && o.content.Exact? ==>
          o.content.run in evidence && o in ObjectsOf(evidence[o.content.run].claim))
  }

  /** Only this run's evidence changed, and not its claim. */
  ghost predicate OnlyThisRun(before: map<RunID, Evidence>, after: map<RunID, Evidence>, c: Claim) {
    && after - {c.run} == before - {c.run}
    && (c.run in after ==> c.run in before && after[c.run].claim == before[c.run].claim)
  }

  /** Only this run's evidence changed, and only towards nothing. */
  ghost predicate Settled(before: map<RunID, Evidence>, after: map<RunID, Evidence>, c: Claim) {
    OnlyThisRun(before, after, c) && (c.run in after && after[c.run].activated ==> before[c.run].activated)
  }

  ghost predicate TableEmpty(objects: set<HostObject>, c: Claim) {
    forall o :: o in objects ==> !(o.slot.ReturnPrefix? && o.slot.table == c.returnTable)
  }

  /** What a stale recovery without failures can clean. */
  ghost predicate CanBeCleaned(objects: set<HostObject>, e: Evidence) {
    e.activated || (objects !! Rules(e.claim, e.claim.transfers) && NoOrphans(objects, e.claim))
  }

  lemma OwnContent(c: Claim)
    ensures forall o :: o in ObjectsOf(c) ==> o.content == Exact(c.run)
  {
  }

  lemma NotYetOnHost(objects: set<HostObject>, evidence: map<RunID, Evidence>, c: Claim)
    requires Covered(objects, evidence) && c.run !in evidence
    ensures objects !! ObjectsOf(c)
  {
    OwnContent(c);
  }

  lemma StillCovered(base: set<HostObject>, before: map<RunID, Evidence>, objects: set<HostObject>,
                     evidence: map<RunID, Evidence>, c: Claim)
    requires Covered(base, before) && c.run !in before && WellFormed(c)
    requires base <= objects <= base + ObjectsOf(c) && (c.run !in evidence ==> objects == base)
    requires evidence - {c.run} == before && (c.run in evidence ==> evidence[c.run].claim == c)
    ensures Covered(objects, evidence)
  {
    OwnContent(c);
    forall run | run in evidence && run != c.run ensures run in before && evidence[run] == before[run] {
      assert run in evidence - {c.run};
    }
    forall run | run in before ensures run in evidence && evidence[run] == before[run] {
      assert run in evidence - {c.run};
    }
  }

  /** The places of the claim are empty, its return table included. */
  ghost predicate OpenPlaces(objects: set<HostObject>, c: Claim) {
    AllFree(objects, c) && TableEmpty(objects, c)
  }

  lemma SamePlace(c: Claim, x: HostObject, own: HostObject)
    requires x in ObjectsOf(c) && own in ObjectsOf(c) && x.slot == own.slot
    ensures x == own
  {
    OwnContent(c);
  }

  lemma ExactOnTop(base: set<HostObject>, now: set<HostObject>, c: Claim, own: HostObject)
    requires now <= base + ObjectsOf(c) && own in ObjectsOf(c) && Free(base, own.slot)
    ensures OnlyThis(now, own)
  {
    forall x | x in now && x.slot == own.slot ensures x == own {
      SamePlace(c, x, own);
    }
  }

  lemma OwnKinds(c: Claim, x: HostObject)
    requires x in ObjectsOf(c)
    ensures x.slot.FirewallRule? ==> x in FirewallUpTo(c, c.firewallRules)
    ensures x.slot.ReturnPrefix? ==> x in Routes(c, c.transfers)
  {
  }

  /** An installation on a free host stands as claimed. */
  lemma {:induction false} InstalledOnTop(base: set<HostObject>, now: set<HostObject>, made: Installation, c: Claim)
    requires now <= base + ObjectsOf(c) && Receipts(made) <= now
    requires OpenPlaces(base, c) && Complete(made, c)
    ensures Standing(now, c)
  {
    forall own | own in ObjectsOf(c) ensures OnlyThis(now, own) {
      assert Free(base, own.slot);
      ExactOnTop(base, now, c, own);
    }
    forall x | x in now && x !in base ensures x.slot.FirewallRule? ==> x in FirewallUpTo(c, c.firewallRules)
      ensures x.slot.ReturnPrefix? ==> x in Routes(c, c.transfers)
    {
      OwnKinds(c, x);
    }
    ReceiptsAreOwn(made, c);
  }

  lemma ReceiptsAreOwn(i: Installation, c: Claim)
    requires PartOf(i, c)
    ensures Receipts(i) <= ObjectsOf(c) && Undoable(c, i) <= ObjectsOf(c)
    ensures Complete(i, c) ==> Receipts(i) == ObjectsOf(c)
  {
    LinksAndRoutesAreOwn(c, Some(i.links));
  }

  lemma RolledBack(base: set<HostObject>, between: set<HostObject>, now: set<HostObject>, made: Installation, c: Claim)
    requires base <= between <= base + ObjectsOf(c) && base !! ObjectsOf(c)
    requires now <= between <= now + Undoable(c, made) && PartOf(made, c)
    ensures base <= now <= base + ObjectsOf(c)
    ensures AllFree(now, c) ==> now == base
  {
    ReceiptsAreOwn(made, c);
    if AllFree(now, c) {
      AllFreeParts(now, c);
    }
  }

  /** What a rollback leaves when each of its parts removed all it may. */
  lemma UndoneExactly(base: set<HostObject>, afterFirewall: set<HostObject>, afterRouting: set<HostObject>,
                      now: set<HostObject>, c: Claim, i: Installation)
    requires now <= afterRouting <= afterFirewall <= base <= now + Undoable(c, i) && PartOf(i, c)
    ensures afterFirewall == base - i.firewall && afterRouting !! i.routing && NoOrphans(afterFirewall, c)
            && afterFirewall <= afterRouting + i.routing && LinksGone(afterRouting, now, c, 0, Some(i.links))
            ==> now == base - Undoable(c, i)
  {
    if afterFirewall == base - i.firewall && afterRouting !! i.routing && NoOrphans(afterFirewall, c)
       && afterFirewall <= afterRouting + i.routing && LinksGone(afterRouting, now, c, 0, Some(i.links)) {
      forall t | t in c.transfers && VethOf(c, t) in i.links ensures VethOf(c, t) !in now && RouteOf(c, t) !in now {
        var k :| 0 <= k < |c.transfers| && c.transfers[k] == t;
        assert IsPermitted(VethOf(c, c.transfers[k]), Some(i.links));
        assert LinkGone(afterRouting, now, c, c.transfers[k]);
        assert !Orphan(afterFirewall, c, t);
        LinksAndRoutesAreOwn(c, None);
        assert VethOf(c, t) !in Routing(c, c.transfers);
      }
      assert now !! LinksAndRoutes(c, c.transfers, Some(i.links));
      assert forall o :: o in i.links ==> o in LinksAndRoutes(c, c.transfers, Some(i.links));
      assert now !! Undoable(c, i);
    }
  }

  /** On free places, what was made so far stands exactly and can be undone completely. */
  lemma PartlyInstalled(base: set<HostObject>, made: Installation, c: Claim)
    requires OpenPlaces(base, c) && PartOf(made, c) && (made.routing != {} ==> made.links == Veths(c, c.transfers))
    ensures var now := base + Receipts(made);
            && OnlyExact(now, c) && NoOrphans(now, c)
            && now - Undoable(c, made) == base && AllFree(base, c)
  {
    var now := base + Receipts(made);
    ReceiptsAreOwn(made, c);
    AllFreeParts(base, c);
    forall own | own in ObjectsOf(c) ensures OnlyThis(now, own) {
      assert Free(base, own.slot);
      ExactOnTop(base, now, c, own);
    }
    forall x | x in Receipts(made) ensures x.slot.FirewallRule? ==> x in FirewallUpTo(c, c.firewallRules) {
      OwnKinds(c, x);
    }
    forall t | t in c.transfers ensures !Orphan(now, c, t) {
      if RouteOf(c, t) in now {
        assert RouteOf(c, t) in made.routing;
        assert VethOf(c, t) in Veths(c, c.transfers);
      }
    }
  }

  lemma FreeMeansGone(base: set<HostObject>, now: set<HostObject>, c: Claim)
    requires now <= base <= now + ObjectsOf(c)
    ensures AllFree(now, c) ==> now == base - ObjectsOf(c)
  {
    if AllFree(now, c) {
      AllFreeParts(now, c);
    }
  }
}
