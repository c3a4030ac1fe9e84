/**
  Claims of the published runs, the reservations made from them, and the allocation of a new claim
  that conflicts with none.
*/
module ClaimAllocation {
  import opened Ipv4
  import opened ResourceSearch
  import opened Sorting
  import opened Wrappers

  const MAXIMUM_TRANSFERS := 35
  const CONNTRACK_PRIORITY := -200
  const SOURCE_NAT_PRIORITY := 100

  datatype NatChain = NatChain(family: string, table: string, name: string, priority: int, hasRules: bool)

  datatype ForwardChain = ForwardChain(family: string, table: string, name: string)

  datatype Backend =
    | Nftables(table: string, priority: int, forwardChains: seq<ForwardChain>)
    | Iptables(frontend: string)

  datatype ClaimTransfer = ClaimTransfer(
    number: nat, source: IPv4, providerName: string, providerIndex: int, routeTable: int, gateway: Option<IPv4>,
    subnet: nat, outbound: int, returning: int, hostVeth: string, peerVeth: string)

  datatype Claim = Claim(run: string, protocol: int, returnTable: int, backend: Backend, transfers: seq<ClaimTransfer>)

  // ---------------------------------------------------------------- what a claim reserves

  datatype Resource =
    | ReturnTable(table: int)
    | Protocol(protocol: int)
    | FirewallOwner(run: string)
    | NftTable(name: string)
    | NftPriority(priority: int)
    | PolicyPriority(priority: int)
    | HostLink(name: string)
    | TemporarySubnet(index: nat)

  function TransferResources(t: ClaimTransfer): seq<Resource> {
    [PolicyPriority(t.outbound), PolicyPriority(t.returning), HostLink(t.hostVeth), TemporarySubnet(t.subnet)]
  }

  function TransfersResources(ts: seq<ClaimTransfer>): seq<Resource> {
    if ts == [] then [] else TransfersResources(ts[..|ts| - 1]) + TransferResources(ts[|ts| - 1])
  }

  function RunResources(c: Claim): seq<Resource> {
    [ReturnTable(c.returnTable), Protocol(c.protocol), FirewallOwner(c.run)] +
    if c.backend.Nftables? then [NftTable(c.backend.table), NftPriority(c.backend.priority)] else []
  }

  function ResourcesOf(c: Claim): seq<Resource> {
    RunResources(c) + TransfersResources(c.transfers)
  }

  function AllResources(claims: seq<Claim>): seq<Resource> {
    if claims == [] then [] else AllResources(claims[..|claims| - 1]) + ResourcesOf(claims[|claims| - 1])
  }

  predicate Distinct<T(==)>(s: seq<T>) {
    forall i, j :: 0 <= i < j < |s| ==> s[i] != s[j]
  }

  /** No two published claims, and no two parts of one, reserve the same thing. */
  ghost predicate Disjoint(claims: seq<Claim>) {
    Distinct(AllResources(claims))
  }

  lemma DistinctConcat<T>(a: seq<T>, b: seq<T>)
    ensures Distinct(a + b) <==> Distinct(a) && Distinct(b) && forall x :: x in a ==> x !in b
  {
    if Distinct(a + b) {
      assert forall i :: 0 <= i < |a| ==> (a + b)[i] == a[i];
      assert forall i :: 0 <= i < |b| ==> (a + b)[|a| + i] == b[i];
      forall i, j | 0 <= i < |a| && 0 <= j < |b| ensures a[i] != b[j] {
        assert (a + b)[i] != (a + b)[|a| + j];
      }
    }
    if Distinct(a) && Distinct(b) && forall x :: x in a ==> x !in b {
      forall i, j | 0 <= i < j < |a + b| ensures (a + b)[i] != (a + b)[j] {
        if i < |a| <= j {
          assert a[i] in a && b[j - |a|] in b;
        }
      }
    }
  }

  // ---------------------------------------------------------------- reservations

  class Reservations {
    // what has been reserved, and by which run
    var reserved: map<Resource, string>

    constructor ()
      ensures reserved == map[]
    {
      reserved := map[];
    }

    /** Exactly the resources of these claims are reserved. */
    ghost predicate Match(claims: seq<Claim>)
      reads this
    {
      forall r :: r in reserved <==> r in AllResources(claims)
    }

    method Reserve(resource: Resource, run: string) returns (ok: bool)
      modifies this
      ensures ok <==> resource !in old(reserved)
      ensures reserved == if ok then old(reserved)[resource := run] else old(reserved)
    {
      if resource in reserved {
        return false;
      }
      reserved := reserved[resource := run];
      ok := true;
    }

    method ReserveEach(resources: seq<Resource>, run: string) returns (ok: bool)
      modifies this
      ensures ok <==> Distinct(resources) && forall r :: r in resources ==> r !in old(reserved)
      ensures ok ==> forall r :: r in reserved <==> r in old(reserved) || r in resources
    {
      var index := 0;
      while index < |resources|
        invariant 0 <= index <= |resources|
        invariant Distinct(resources[..index]) && forall r :: r in resources[..index] ==> r !in old(reserved)
        invariant forall r :: r in reserved <==> r in old(reserved) || r in resources[..index]
      {
        var resource := resources[index];
        assert resources[..index + 1] == resources[..index] + [resource];
        ok := Reserve(resource, run);
        if !ok {
          if resource in resources[..index] {
            var earlier :| 0 <= earlier < index && resources[..index][earlier] == resource;
            assert resources[earlier] == resources[index];
          } else {
            assert resource in resources;
          }
          return;
        }
        index := index + 1;
      }
      assert resources[..index] == resources;
      ok := true;
    }

    method AddTransfer(run: string, t: ClaimTransfer) returns (ok: bool)
      modifies this
      ensures ok <==> Distinct(TransferResources(t)) && forall r :: r in TransferResources(t) ==> r !in old(reserved)
      ensures ok ==> forall r :: r in reserved <==> r in old(reserved) || r in TransferResources(t)
    {
      ok := ReserveEach(TransferResources(t), run);
    }

    /** Reserves everything a claim names, in order, until something is taken. */
    method Add(c: Claim) returns (ok: bool)
      modifies this
      ensures ok <==> Distinct(ResourcesOf(c)) && forall r :: r in ResourcesOf(c) ==> r !in old(reserved)
      ensures ok ==> forall r :: r in reserved <==> r in old(reserved) || r in ResourcesOf(c)
    {
      DistinctConcat(RunResources(c), TransfersResources(c.transfers));
      ok := ReserveEach(RunResources(c), c.run);
      if !ok {
        return;
      }
      ghost var before := reserved;
      var index := 0;
      while index < |c.transfers|
        invariant 0 <= index <= |c.transfers|
        invariant Fits(TransfersResources(c.transfers[..index]), before)
        invariant forall r :: r in reserved <==> r in before || r in TransfersResources(c.transfers[..index])
      {
        NextTransfer(c.transfers, index, before);
        ok := AddTransfer(c.run, c.transfers[index]);
        if !ok {
          Misfit(c.transfers, index, before);
          return;
        }
        index := index + 1;
      }
      assert c.transfers[..index] == c.transfers;
      ok := true;
    }
  }

  /** The resources are different ones and none of them is taken. */
  ghost predicate Fits(resources: seq<Resource>, taken: map<Resource, string>) {
    Distinct(resources) && forall r :: r in resources ==> r !in taken
  }

  lemma NextTransfer(ts: seq<ClaimTransfer>, i: nat, taken: map<Resource, string>)
    requires i < |ts|
    ensures TransfersResources(ts[..i + 1]) == TransfersResources(ts[..i]) + TransferResources(ts[i])
    ensures Fits(TransfersResources(ts[..i]), taken) && Distinct(TransferResources(ts[i]))
            && (forall r :: r in TransferResources(ts[i]) ==> r !in taken && r !in TransfersResources(ts[..i]))
            ==> Fits(TransfersResources(ts[..i + 1]), taken)
  {
    assert ts[..i + 1][..i] == ts[..i];
    DistinctConcat(TransfersResources(ts[..i]), TransferResources(ts[i]));
  }

  /** What does not fit at one transfer does not fit as a whole. */
  lemma {:induction false} Misfit(ts: seq<ClaimTransfer>, i: nat, taken: map<Resource, string>)
    requires i < |ts|
    requires !Distinct(TransferResources(ts[i]))
             || exists r :: r in TransferResources(ts[i]) && (r in taken || r in TransfersResources(ts[..i]))
    ensures !Fits(TransfersResources(ts), taken)
  {
    NextTransfer(ts, i, taken);
    DistinctConcat(TransfersResources(ts[..i]), TransferResources(ts[i]));
    LongerResources(ts, i + 1);
    assert !Fits(TransfersResources(ts[..i + 1]), taken);
    var rest :| TransfersResources(ts) == TransfersResources(ts[..i + 1]) + rest;
    DistinctConcat(TransfersResources(ts[..i + 1]), rest);
  }

  lemma {:induction false} LongerResources(ts: seq<ClaimTransfer>, i: nat)
    requires i <= |ts|
    ensures exists rest :: TransfersResources(ts) == TransfersResources(ts[..i]) + rest
    decreases |ts| - i
  {
    if i == |ts| {
      assert ts[..i] == ts;
      assert TransfersResources(ts) == TransfersResources(ts[..i]) + [];
    } else {
      LongerResources(ts, i + 1);
      var rest :| TransfersResources(ts) == TransfersResources(ts[..i + 1]) + rest;
      assert ts[..i + 1][..i] == ts[..i];
      assert TransfersResources(ts) == TransfersResources(ts[..i]) + (TransferResources(ts[i]) + rest);
    }
  }

  // ---------------------------------------------------------------- the inventory of the host

  datatype FirewallKind = UsesNftables | UsesIptables(frontend: string) | NoFirewall

  datatype Inventory = Inventory(
    firewall: FirewallKind, linkNames: set<string>, nftTables: set<string>, owners: set<string>, natChains: seq<NatChain>,
    forwardChains: seq<ForwardChain>, priorities: set<int>, routeTables: set<int>, protocols: set<int>,
    localAddresses: set<IPv4>, routePrefixes: seq<Prefix>, rules: seq<RoutingRule>, connections: set<IPv4>)

  /** The inventory shows the resource as taken. */
  ghost predicate Holds(inventory: Inventory, r: Resource) {
    match r
    case ReturnTable(table) => table in inventory.routeTables
    case Protocol(protocol) => protocol in inventory.protocols
    case FirewallOwner(run) => run in inventory.owners
    case NftTable(name) => name in inventory.nftTables
    case NftPriority(priority) => exists chain :: chain in inventory.natChains && chain.hasRules && chain.priority == priority
    case PolicyPriority(priority) => priority in inventory.priorities
    case HostLink(name) => name in inventory.linkNames
    case TemporarySubnet(index) => index < SUBNET_COUNT && Subnet(index) in inventory.routePrefixes
  }

  /** Everything these resources are is taken. */
  ghost predicate HoldsAll(inventory: Inventory, resources: seq<Resource>) {
    forall r :: r in resources ==> Holds(inventory, r)
  }

  /** None of these resources is taken. */
  ghost predicate HoldsNone(inventory: Inventory, resources: seq<Resource>) {
    forall r :: r in resources ==> !Holds(inventory, r)
  }

  /** The later inventory shows at least what the earlier one showed. */
  ghost predicate Extends(later: Inventory, earlier: Inventory) {
    forall r :: Holds(earlier, r) ==> Holds(later, r)
  }

  // ---------------------------------------------------------------- published claims

  function FirewallName(run: string): string {
    "transferlanes_" + run
  }

  predicate ValidProviderName(name: string) {
    name != "" && name != "." && name != ".." && |name| <= 15 && '/' !in name && '\0' !in name
  }

  predicate EndsWithPlus(name: string) {
    name != "" && name[|name| - 1] == '+'
  }

  predicate ValidTransfer(c: Claim, t: ClaimTransfer) {
    && t.source != 0 && ValidProviderName(t.providerName) && t.providerIndex > 0
    && t.routeTable > 0 && t.routeTable != c.returnTable
    && FIRST_PRIORITY <= t.outbound <= LAST_PRIORITY && FIRST_PRIORITY <= t.returning <= LAST_PRIORITY
    && t.subnet < SUBNET_COUNT
  }

  function LinkNames(ts: seq<ClaimTransfer>): seq<string> {
    if ts == [] then [] else LinkNames(ts[..|ts| - 1]) + [ts[|ts| - 1].hostVeth, ts[|ts| - 1].peerVeth]
  }

  function TransferSlots(ts: seq<ClaimTransfer>): seq<Resource> {
    if ts == [] then []
    else
      var t := ts[|ts| - 1];
      TransferSlots(ts[..|ts| - 1]) + [PolicyPriority(t.outbound), PolicyPriority(t.returning), TemporarySubnet(t.subnet)]
  }

  predicate ForwardChainLess(a: ForwardChain, b: ForwardChain) {
    || StringLess(a.family, b.family)
    || (a.family == b.family && (StringLess(a.table, b.table) || (a.table == b.table && StringLess(a.name, b.name))))
  }

  predicate ValidForwardChains(chains: seq<ForwardChain>, ownTable: string) {
    && (forall i :: 0 <= i < |chains| ==>
          && (chains[i].family == "ip" || chains[i].family == "inet")
          && chains[i].table != "" && chains[i].name != "" && '\0' !in chains[i].table && '\0' !in chains[i].name
          && !(chains[i].family == "ip" && chains[i].table == ownTable))
    && (forall i :: 0 < i < |chains| ==> ForwardChainLess(chains[i - 1], chains[i]))
  }

  predicate ValidBackend(c: Claim) {
    match c.backend
    case Nftables(table, priority, forwardChains) =>
      && table == FirewallName(c.run)
      && CONNTRACK_PRIORITY < priority < SOURCE_NAT_PRIORITY
      && ValidForwardChains(forwardChains, table)
      && Distinct([table] + LinkNames(c.transfers))
    case Iptables(frontend) =>
      && KnownFrontend(frontend)
      && (forall i :: 0 <= i < |c.transfers| ==>
            !EndsWithPlus(c.transfers[i].providerName) && !EndsWithPlus(c.transfers[i].hostVeth))
      && Distinct(LinkNames(c.transfers))
  }

  predicate KnownFrontend(frontend: string) {
    frontend == "nf_tables" || frontend == "legacy"
  }

  predicate ValidClaim(c: Claim) {
    && 1 <= |c.transfers| <= MAXIMUM_TRANSFERS
    && FIRST_RETURN_TABLE <= c.returnTable <= LAST_RETURN_TABLE
    && FIRST_CLAIM_PROTOCOL <= c.protocol <= LAST_CLAIM_PROTOCOL
    && ValidBackend(c)
    && (forall i :: 0 <= i < |c.transfers| ==> c.transfers[i].number == i + 1 && ValidTransfer(c, c.transfers[i]))
    && Distinct(TransferSlots(c.transfers))
  }

  // ---------------------------------------------------------------- merging published claims

  datatype MergeError = Conflict | Unobserved | ChainConflict | ChainMissing | ChainUnexpected

  function ExpectedChain(table: string, priority: int): NatChain {
    NatChain("ip", table, "postrouting", priority, true)
  }

  predicate SameIdentity(a: NatChain, b: NatChain) {
    a.family == b.family && a.table == b.table && a.name == b.name
  }

  /** A published program that is there shows as exactly its one chain, and one that is not shows nothing of its chain. */
  ghost predicate ChainAgrees(chains: seq<NatChain>, expected: NatChain, present: bool) {
    if present then exists i :: OnlyChain(chains, expected, i)
    else forall j :: 0 <= j < |chains| ==> !SameIdentity(chains[j], expected)
  }

  ghost predicate OnlyChain(chains: seq<NatChain>, expected: NatChain, i: int) {
    0 <= i < |chains| && chains[i] == expected && forall j :: 0 <= j < |chains| && SameIdentity(chains[j], expected) ==> j == i
  }

  function WithChain(inventory: Inventory, table: string, priority: int, present: bool): Inventory {
    inventory.(
      natChains := if present then inventory.natChains else inventory.natChains + [ExpectedChain(table, priority)],
      nftTables := inventory.nftTables + {table})
  }

  /** The places of the expected chain among the first `index` chains, all of them equal to it. */
  ghost predicate Counted(chains: seq<NatChain>, expected: NatChain, index: nat, matches: nat, last: nat) {
    && index <= |chains|
    && (matches == 0 ==> forall j :: 0 <= j < index ==> !SameIdentity(chains[j], expected))
    && (matches > 0 ==> last < index && chains[last] == expected)
    && (matches == 1 ==> forall j :: 0 <= j < index && SameIdentity(chains[j], expected) ==> j == last)
    && (matches > 1 ==> exists j :: 0 <= j < last && SameIdentity(chains[j], expected))
  }

  /** Adds the chain of one published nftables claim, exactly when it agrees with what the host shows. */
  method MergeNatChain(inventory: Inventory, table: string, priority: int, present: bool)
    returns (r: Result<Inventory, MergeError>)
    ensures r.Ok? <==> ChainAgrees(inventory.natChains, ExpectedChain(table, priority), present)
    ensures r.Ok? ==> r.value == WithChain(inventory, table, priority, present)
    ensures r.Ok? ==> Extends(r.value, inventory) && HoldsAll(r.value, [NftTable(table), NftPriority(priority)])
    ensures r.Err? ==> r.error in {ChainConflict, ChainMissing, ChainUnexpected}
  {
    var expected := ExpectedChain(table, priority);
    var matches := 0;
    ghost var last := 0;
    var index := 0;
    while index < |inventory.natChains|
      invariant 0 <= index <= |inventory.natChains| && matches >= 0
      invariant Counted(inventory.natChains, expected, index, matches, last)
    {
      var observed := inventory.natChains[index];
      if SameIdentity(observed, expected) {
        matches := matches + 1;
        if observed != expected {
          return Err(ChainConflict);
        }
        last := index;
      }
      index := index + 1;
    }
    if matches > 1 {
      return Err(ChainConflict);
    }
    if present && matches != 1 {
      return Err(ChainMissing);
    }
    if !present && matches != 0 {
      return Err(ChainUnexpected);
    }
    assert present ==> OnlyChain(inventory.natChains, expected, last);
    var chains := if present then inventory.natChains else inventory.natChains + [expected];
    var merged := inventory.(natChains := chains, nftTables := inventory.nftTables + {table});
    MoreChains(inventory, merged);
    assert expected in chains;
    r := Ok(merged);
  }

  lemma MoreChains(earlier: Inventory, later: Inventory)
    requires later == earlier.(natChains := later.natChains, nftTables := later.nftTables)
    requires earlier.nftTables <= later.nftTables && forall chain :: chain in earlier.natChains ==> chain in later.natChains
    ensures Extends(later, earlier)
  {
  }

  /** The inventory with one transfer's resources taken. */
  function WithTransfer(inventory: Inventory, t: ClaimTransfer): Inventory {
    inventory.(
      linkNames := inventory.linkNames + {t.hostVeth},
      priorities := inventory.priorities + {t.outbound, t.returning},
      routePrefixes := inventory.routePrefixes + if t.subnet < SUBNET_COUNT then [Subnet(t.subnet)] else [])
  }

  lemma WithTransferHolds(inventory: Inventory, t: ClaimTransfer)
    requires t.subnet < SUBNET_COUNT
    ensures Extends(WithTransfer(inventory, t), inventory) && HoldsAll(WithTransfer(inventory, t), TransferResources(t))
  {
  }

  /** The inventory with one published transfer: its resources and its addresses. */
  function WithPublished(inventory: Inventory, t: ClaimTransfer): Inventory {
    WithTransfer(inventory, t).(
      localAddresses := inventory.localAddresses
                        + if t.subnet < SUBNET_COUNT then {HostIP(t.subnet), NamespaceIP(t.subnet)} else {})
  }

  function WithAllPublished(inventory: Inventory, ts: seq<ClaimTransfer>): Inventory {
    if ts == [] then inventory else WithPublished(WithAllPublished(inventory, ts[..|ts| - 1]), ts[|ts| - 1])
  }

  /** Every transfer has one of the temporary subnets. */
  ghost predicate SubnetsExist(ts: seq<ClaimTransfer>) {
    forall t :: t in ts ==> t.subnet < SUBNET_COUNT
  }

  method MergeTransfers(inventory: Inventory, ts: seq<ClaimTransfer>) returns (merged: Inventory)
    requires SubnetsExist(ts)
    ensures merged == WithAllPublished(inventory, ts)
    ensures Extends(merged, inventory) && HoldsAll(merged, TransfersResources(ts))
  {
    merged := inventory;
    var index := 0;
    while index < |ts|
      invariant 0 <= index <= |ts|
      invariant merged == WithAllPublished(inventory, ts[..index])
      invariant Extends(merged, inventory) && HoldsAll(merged, TransfersResources(ts[..index]))
    {
      assert ts[..index + 1][..index] == ts[..index];
      WithTransferHolds(merged, ts[index]);
      MoreAddresses(WithTransfer(merged, ts[index]), {HostIP(ts[index].subnet), NamespaceIP(ts[index].subnet)});
      merged := WithPublished(merged, ts[index]);
      index := index + 1;
    }
    assert ts[..index] == ts;
  }

  lemma MoreAddresses(inventory: Inventory, addresses: set<IPv4>)
    ensures forall r :: Holds(inventory.(localAddresses := inventory.localAddresses + addresses), r) <==> Holds(inventory, r)
  {
  }

  function WithIdentity(inventory: Inventory, c: Claim): Inventory {
    inventory.(
      routeTables := inventory.routeTables + {c.returnTable},
      protocols := inventory.protocols + {c.protocol},
      owners := inventory.owners + {c.run})
  }

  /** The inventory with one published claim in it, whether or not its firewall program shows. */
  function WithClaim(inventory: Inventory, c: Claim, present: bool): Inventory {
    var identified := WithIdentity(inventory, c);
    WithAllPublished(
      if c.backend.Nftables? then WithChain(identified, c.backend.table, c.backend.priority, present) else identified,
      c.transfers)
  }

  method MergeClaim(inventory: Inventory, c: Claim, present: bool) returns (r: Result<Inventory, MergeError>)
    requires ValidClaim(c)
    ensures r.Ok? ==>
              r.value == WithClaim(inventory, c, present) && Extends(r.value, inventory) && HoldsAll(r.value, ResourcesOf(c))
    ensures r.Ok? <==> c.backend.Nftables? ==>
              ChainAgrees(inventory.natChains, ExpectedChain(c.backend.table, c.backend.priority), present)
    ensures r.Err? ==> r.error in {ChainConflict, ChainMissing, ChainUnexpected}
  {
    var merged := WithIdentity(inventory, c);
    assert Extends(merged, inventory);
    assert HoldsAll(merged, [ReturnTable(c.returnTable), Protocol(c.protocol), FirewallOwner(c.run)]);
    if c.backend.Nftables? {
      var chained := MergeNatChain(merged, c.backend.table, c.backend.priority, present);
      if chained.Err? {
        return chained;
      }
      merged := chained.value;
    }
    assert HoldsAll(merged, RunResources(c));
    ghost var second := merged;
    merged := MergeTransfers(merged, c.transfers);
    r := Ok(merged);
  }

  /** The inventory with all published claims in it. */
  function WithClaims(inventory: Inventory, claims: seq<Claim>, firewalls: map<string, bool>): Inventory {
    if claims == [] then inventory
    else
      var c := claims[|claims| - 1];
      WithClaim(WithClaims(inventory, claims[..|claims| - 1], firewalls), c, c.run in firewalls && firewalls[c.run])
  }

  /** Every claim's chain agrees with the host and the claims before it. */
  ghost predicate ChainsAgree(inventory: Inventory, claims: seq<Claim>, firewalls: map<string, bool>) {
    claims == [] ||
    (var before, c := claims[..|claims| - 1], claims[|claims| - 1];
     && ChainsAgree(inventory, before, firewalls)
     && (c.backend.Nftables? ==>
           ChainAgrees(WithClaims(inventory, before, firewalls).natChains, ExpectedChain(c.backend.table, c.backend.priority),
                       c.run in firewalls && firewalls[c.run])))
  }

  lemma {:induction false} ChainsAgreeBefore(inventory: Inventory, claims: seq<Claim>, firewalls: map<string, bool>,
                                             i: nat)
    requires i <= |claims| && ChainsAgree(inventory, claims, firewalls)
    ensures ChainsAgree(inventory, claims[..i], firewalls)
  {
    if i == |claims| {
      assert claims[..i] == claims;
    } else {
      assert claims[..|claims| - 1][..i] == claims[..i];
      ChainsAgreeBefore(inventory, claims[..|claims| - 1], firewalls, i);
    }
  }

  /** The published claims can all be taken over into the inventory. */
  ghost predicate Mergeable(inventory: Inventory, claims: seq<Claim>, firewalls: map<string, bool>) {
    && Disjoint(claims) && ChainsAgree(inventory, claims, firewalls)
    && forall i :: 0 <= i < |claims| ==> claims[i].run in firewalls
  }

  /**
    Reserves every published claim and adds what they reserve to the inventory.  Claims that are
    disjoint never conflict; claims that are not are always refused.
  */
  method MergePublished(inventory: Inventory, claims: seq<Claim>, firewalls: map<string, bool>)
    returns (r: Result<Inventory, MergeError>)
    requires forall i :: 0 <= i < |claims| ==> ValidClaim(claims[i])
    ensures r.Ok? ==> Disjoint(claims) && Extends(r.value, inventory) && HoldsAll(r.value, AllResources(claims))
    ensures r.Ok? ==> r.value == WithClaims(inventory, claims, firewalls)
    ensures r.Ok? <==> Mergeable(inventory, claims, firewalls)
    ensures r == Err(Conflict) ==> !Disjoint(claims)
    ensures r == Err(Unobserved) ==> exists i :: 0 <= i < |claims| && claims[i].run !in firewalls
  {
    var error := ReserveAll(claims, firewalls);
    if error.Some? {
      return Err(error.value);
    }
    r := MergeEach(inventory, claims, firewalls);
  }

  method ReserveAll(claims: seq<Claim>, firewalls: map<string, bool>) returns (error: Option<MergeError>)
    ensures error.None? ==> Disjoint(claims) && forall i :: 0 <= i < |claims| ==> claims[i].run in firewalls
    ensures error == Some(Conflict) ==> !Disjoint(claims)
    ensures error.Some? && error != Some(Conflict) ==>
              error == Some(Unobserved) && exists i :: 0 <= i < |claims| && claims[i].run !in firewalls
  {
    var reservations := new Reservations();
    var index := 0;
    while index < |claims|
      invariant 0 <= index <= |claims|
      invariant Disjoint(claims[..index]) && reservations.Match(claims[..index])
      invariant forall i :: 0 <= i < index ==> claims[i].run in firewalls
    {
      var ok := ReserveNext(reservations, claims, index);
      if !ok {
        return Some(Conflict);
      }
      if claims[index].run !in firewalls {
        return Some(Unobserved);
      }
      index := index + 1;
    }
    assert claims[..index] == claims;
    error := None;
  }

  method ReserveNext(reservations: Reservations, claims: seq<Claim>, index: nat) returns (ok: bool)
    requires index < |claims| && Disjoint(claims[..index]) && reservations.Match(claims[..index])
    modifies reservations
    ensures ok ==> Disjoint(claims[..index + 1]) && reservations.Match(claims[..index + 1])
    ensures !ok ==> !Disjoint(claims)
  {
    NextClaim(claims, index);
    ok := reservations.Add(claims[index]);
  }

  method MergeEach(inventory: Inventory, claims: seq<Claim>, firewalls: map<string, bool>)
    returns (r: Result<Inventory, MergeError>)
    requires forall i :: 0 <= i < |claims| ==> ValidClaim(claims[i]) && claims[i].run in firewalls
    ensures r.Ok? ==> Extends(r.value, inventory) && HoldsAll(r.value, AllResources(claims))
    ensures r.Ok? ==> r.value == WithClaims(inventory, claims, firewalls)
    ensures r.Ok? <==> ChainsAgree(inventory, claims, firewalls)
    ensures r.Err? ==> r.error in {ChainConflict, ChainMissing, ChainUnexpected}
  {
    var merged := inventory;
    var index := 0;
    while index < |claims|
      invariant 0 <= index <= |claims| && Merged(inventory, claims[..index], firewalls, merged)
    {
      var one := MergeClaim(merged, claims[index], firewalls[claims[index].run]);
      MergeNext(inventory, claims, firewalls, index, merged, one);
      if one.Err? {
        return Err(one.error);
      }
      merged := one.value;
      index := index + 1;
    }
    assert claims[..index] == claims;
    r := Ok(merged);
  }

  /** All claims are taken over, their chains agreeing with the host. */
  ghost predicate Merged(inventory: Inventory, claims: seq<Claim>, firewalls: map<string, bool>, merged: Inventory) {
    && merged == WithClaims(inventory, claims, firewalls) && ChainsAgree(inventory, claims, firewalls)
    && Extends(merged, inventory) && HoldsAll(merged, AllResources(claims))
  }

  /** What merging one more claim means for all. */
  lemma {:induction false} MergeNext(inventory: Inventory, claims: seq<Claim>, firewalls: map<string, bool>, i: nat,
                                     before: Inventory, r: Result<Inventory, MergeError>)
    requires i < |claims| && claims[i].run in firewalls && Merged(inventory, claims[..i], firewalls, before)
    requires r.Ok? ==> r.value == WithClaim(before, claims[i], firewalls[claims[i].run]) && Extends(r.value, before)
    requires r.Ok? ==> HoldsAll(r.value, ResourcesOf(claims[i]))
    requires r.Ok? <==> claims[i].backend.Nftables? ==>
               ChainAgrees(before.natChains, ExpectedChain(claims[i].backend.table, claims[i].backend.priority),
                           firewalls[claims[i].run])
    ensures r.Ok? ==> Merged(inventory, claims[..i + 1], firewalls, r.value)
    ensures r.Err? ==> !ChainsAgree(inventory, claims, firewalls)
  {
    var more := claims[..i + 1];
    assert more[..i] == claims[..i];
    assert r.Ok? <==> ChainsAgree(inventory, more, firewalls);
    if ChainsAgree(inventory, claims, firewalls) {
      ChainsAgreeBefore(inventory, claims, firewalls, i + 1);
    }
  }

  /** The claim reserves different things, and none that the others reserve. */
  ghost predicate Joins(c: Claim, others: seq<Claim>) {
    Distinct(ResourcesOf(c)) && forall r :: r in ResourcesOf(c) ==> r !in AllResources(others)
  }

  lemma NextClaim(claims: seq<Claim>, i: nat)
    requires i < |claims|
    ensures AllResources(claims[..i + 1]) == AllResources(claims[..i]) + ResourcesOf(claims[i])
    ensures Disjoint(claims[..i]) && Joins(claims[i], claims[..i]) ==> Disjoint(claims[..i + 1])
    ensures Disjoint(claims) ==> Joins(claims[i], claims[..i])
  {
    assert claims[..i + 1][..i] == claims[..i];
    DistinctConcat(AllResources(claims[..i]), ResourcesOf(claims[i]));
    LongerClaims(claims, i + 1);
    var rest :| AllResources(claims) == AllResources(claims[..i + 1]) + rest;
    DistinctConcat(AllResources(claims[..i + 1]), rest);
  }

  lemma {:induction false} LongerClaims(claims: seq<Claim>, i: nat)
    requires i <= |claims|
    ensures exists rest :: AllResources(claims) == AllResources(claims[..i]) + rest
    decreases |claims| - i
  {
    if i == |claims| {
      assert claims[..i] == claims;
      assert AllResources(claims) == AllResources(claims[..i]) + [];
    } else {
      LongerClaims(claims, i + 1);
      var rest :| AllResources(claims) == AllResources(claims[..i + 1]) + rest;
      assert claims[..i + 1][..i] == claims[..i];
      assert AllResources(claims) == AllResources(claims[..i]) + (ResourcesOf(claims[i]) + rest);
    }
  }

  // ---------------------------------------------------------------- allocating a claim

  datatype Selection = Selection(
    number: nat, source: IPv4, providerName: string, providerIndex: int, routeTable: int, gateway: Option<IPv4>)

  /** The names derived from the owner token and the run for one transfer. */
  datatype Links = Links(hostName: string, peerName: string)

  datatype Starts = Starts(protocol: int, returnTable: int, priority: int, temporarySubnet: int)

  datatype AllocationError =
    | InvalidSelections | NoReturnTable | NoProtocol | InvalidChains | NoEarlierPriority | UnknownFrontend | NoBackend
    | IdentityExists | LinkExists | NoPriority | NoSubnet

  predicate LowerNumber(a: Selection, b: Selection) {
    a.number < b.number
  }

  predicate ValidSelection(s: Selection) {
    ValidProviderName(s.providerName) && s.source != 0 && s.providerIndex > 0 && s.routeTable > 0
  }

  ghost predicate Numbered(ordered: seq<Selection>) {
    forall i :: 0 <= i < |ordered| ==> ordered[i].number == i + 1 && ValidSelection(ordered[i])
  }

  /** The selections by transfer number; they must be 1, 2, ... without a gap and with usable facts. */
  method OrderedSelections(selected: seq<Selection>) returns (r: Option<seq<Selection>>)
    ensures r.Some? <==> 1 <= |selected| <= MAXIMUM_TRANSFERS && Numbered(Sort(selected, LowerNumber))
    ensures r.Some? ==> r.value == Sort(selected, LowerNumber) && multiset(r.value) == multiset(selected)
  {
    SortKeepsElements(selected, LowerNumber);
    if |selected| == 0 || |selected| > MAXIMUM_TRANSFERS {
      return None;
    }
    var ordered := Sort(selected, LowerNumber);
    var numbered := AreNumbered(ordered);
    r := if numbered then Some(ordered) else None;
  }

  method AreNumbered(ordered: seq<Selection>) returns (numbered: bool)
    ensures numbered <==> Numbered(ordered)
  {
    var index := 0;
    while index < |ordered|
      invariant 0 <= index <= |ordered|
      invariant forall i :: 0 <= i < index ==> ordered[i].number == i + 1 && ValidSelection(ordered[i])
    {
      if ordered[index].number != index + 1 || !ValidSelection(ordered[index]) {
        return false;
      }
      index := index + 1;
    }
    return true;
  }

  predicate ValidNatChains(chains: seq<NatChain>) {
    && (forall i :: 0 <= i < |chains| ==>
          && (chains[i].family == "ip" || chains[i].family == "inet")
          && chains[i].table != "" && chains[i].name != "" && '\0' !in chains[i].table && '\0' !in chains[i].name
          && chains[i].priority > CONNTRACK_PRIORITY)
    && (forall i, j :: 0 <= i < j < |chains| ==> !SameIdentity(chains[i], chains[j]))
  }

  /** Not later than any chain with rules, nor than the standard source NAT priority. */
  ghost predicate AtMostEach(priority: int, chains: seq<NatChain>) {
    priority <= SOURCE_NAT_PRIORITY && forall i :: 0 <= i < |chains| && chains[i].hasRules ==> priority <= chains[i].priority
  }

  /** The priority directly before every active NAT chain; none when that would reach connection tracking. */
  method NextNatPriority(chains: seq<NatChain>) returns (r: Result<int, AllocationError>)
    ensures r.Ok? ==>
              && CONNTRACK_PRIORITY < r.value < SOURCE_NAT_PRIORITY && AtMostEach(r.value + 1, chains)
              && !AtMostEach(r.value + 2, chains)
    ensures r == Err(InvalidChains) <==> !ValidNatChains(chains)
    ensures r == Err(NoEarlierPriority) <==> ValidNatChains(chains) && !AtMostEach(CONNTRACK_PRIORITY + 2, chains)
    ensures r.Err? ==> r.error in {InvalidChains, NoEarlierPriority}
  {
    if !ValidNatChains(chains) {
      return Err(InvalidChains);
    }
    var earliest := SOURCE_NAT_PRIORITY;
    var index := 0;
    while index < |chains|
      invariant 0 <= index <= |chains|
      invariant AtMostEach(earliest, chains[..index]) && !AtMostEach(earliest + 1, chains[..index])
      invariant earliest <= SOURCE_NAT_PRIORITY
    {
      if chains[index].hasRules && chains[index].priority < earliest {
        assert chains[..index + 1][index] == chains[index];
        earliest := chains[index].priority;
      } else {
        OneMoreChain(earliest, chains, index);
      }
      index := index + 1;
    }
    assert chains[..index] == chains;
    if earliest <= CONNTRACK_PRIORITY + 1 {
      return Err(NoEarlierPriority);
    }
    r := Ok(earliest - 1);
  }

  lemma OneMoreChain(earliest: int, chains: seq<NatChain>, index: nat)
    requires index < |chains| && !AtMostEach(earliest + 1, chains[..index])
    ensures !AtMostEach(earliest + 1, chains[..index + 1])
  {
    assert forall i :: 0 <= i < index ==> chains[..index][i] == chains[..index + 1][i];
  }

  /** What every allocated claim says about the selections and reserves. */
  ghost predicate Follows(t: ClaimTransfer, s: Selection, links: nat -> Links) {
    && t.number == s.number && t.source == s.source && t.providerName == s.providerName
    && t.providerIndex == s.providerIndex && t.routeTable == s.routeTable && t.gateway == s.gateway
    && t.hostVeth == links(s.number).hostName && t.peerVeth == links(s.number).peerName
  }

  ghost predicate FollowsAll(ts: seq<ClaimTransfer>, selected: seq<Selection>, links: nat -> Links) {
    |ts| <= |selected| && forall i :: 0 <= i < |ts| ==> Follows(ts[i], selected[i], links)
  }

  ghost predicate InRange(t: ClaimTransfer) {
    && FIRST_PRIORITY <= t.outbound <= LAST_PRIORITY && FIRST_PRIORITY <= t.returning <= LAST_PRIORITY
    && t.subnet < SUBNET_COUNT
  }

  /** The first unused number of a range in circular order from the start. */
  ghost predicate FirstUnused(first: int, last: int, used: set<int>, start: int, value: int) {
    && first <= value <= last && value !in used
    && FirstFree(start, last - first + 1, (i: nat) => first + i !in used, value - first)
  }

  predicate TwoFree(used: set<int>, a: int, b: int) {
    && FIRST_PRIORITY <= a <= LAST_PRIORITY && FIRST_PRIORITY <= b <= LAST_PRIORITY
    && a != b && a !in used && b !in used
  }

  function SurroundingsOf(inventory: Inventory, localAddresses: set<IPv4>): Surroundings {
    Surroundings(inventory.routePrefixes, inventory.connections, inventory.rules, localAddresses)
  }

  ghost predicate NoSubnetFits(inventory: Inventory, localAddresses: set<IPv4>, host: string, provider: string, a: int, b: int) {
    forall index: nat :: !Acceptable(index, SurroundingsOf(inventory, localAddresses), host, provider, a, b)
  }

  /** The priorities a transfer gets: the first unused one and the first unused after it. */
  ghost predicate FirstPair(used: set<int>, start: int, a: int, b: int) {
    && FirstUnused(FIRST_PRIORITY, LAST_PRIORITY, used, start, a)
    && FirstUnused(FIRST_PRIORITY, LAST_PRIORITY, used + {a}, start, b)
  }

  /** The first acceptable subnet in circular order. */
  ghost predicate FirstFitting(inventory: Inventory, localAddresses: set<IPv4>, host: string, provider: string, a: int, b: int,
                               start: int, subnet: nat) {
    && Acceptable(subnet, SurroundingsOf(inventory, localAddresses), host, provider, a, b)
    && FirstFree(start, SUBNET_COUNT, (i: nat) => Acceptable(i, SurroundingsOf(inventory, localAddresses), host, provider, a, b),
                 subnet)
  }

  /** The transfer that the inventory, the names and the starts determine for a selection. */
  ghost predicate Placed(s: Selection, names: Links, inventory: Inventory, localAddresses: set<IPv4>, starts: Starts,
                         t: ClaimTransfer) {
    && names.hostName !in inventory.linkNames
    && FirstPair(inventory.priorities, starts.priority, t.outbound, t.returning)
    && FirstFitting(inventory, localAddresses, names.hostName, s.providerName, t.outbound, t.returning, starts.temporarySubnet,
                    t.subnet)
    && t == ClaimTransfer(s.number, s.source, s.providerName, s.providerIndex, s.routeTable, s.gateway,
                          t.subnet, t.outbound, t.returning, names.hostName, names.peerName)
  }

  /** The reason for which no transfer can be allocated here. */
  ghost predicate Refused(s: Selection, names: Links, inventory: Inventory, localAddresses: set<IPv4>, starts: Starts,
                          error: AllocationError) {
    match error
    case LinkExists => names.hostName in inventory.linkNames
    case NoPriority => names.hostName !in inventory.linkNames && forall a, b :: !TwoFree(inventory.priorities, a, b)
    case NoSubnet =>
      && names.hostName !in inventory.linkNames
      && exists a, b :: FirstPair(inventory.priorities, starts.priority, a, b)
                        && NoSubnetFits(inventory, localAddresses, names.hostName, s.providerName, a, b)
    case _ => false
  }

  lemma FirstPairIsUnique(used: set<int>, start: int, a: int, b: int, c: int, d: int)
    requires FirstPair(used, start, a, b) && FirstPair(used, start, c, d)
    ensures a == c && b == d && TwoFree(used, a, b)
  {
    var count := LAST_PRIORITY - FIRST_PRIORITY + 1;
    FirstFreeIsUnique(start, count, (i: nat) => FIRST_PRIORITY + i !in used, a - FIRST_PRIORITY, c - FIRST_PRIORITY);
    FirstFreeIsUnique(start, count, (i: nat) => FIRST_PRIORITY + i !in used + {a}, b - FIRST_PRIORITY, d - FIRST_PRIORITY);
  }

  lemma FittingIsUnique(inventory: Inventory, localAddresses: set<IPv4>, host: string, provider: string, a: int, b: int,
                        start: int, i: nat, j: nat)
    requires FirstFitting(inventory, localAddresses, host, provider, a, b, start, i)
    requires FirstFitting(inventory, localAddresses, host, provider, a, b, start, j)
    ensures i == j
  {
    FirstFreeIsUnique(start, SUBNET_COUNT,
                      (k: nat) => Acceptable(k, SurroundingsOf(inventory, localAddresses), host, provider, a, b), i, j);
  }

  /** A selection has one transfer or one reason to be refused. */
  lemma PlacedIsUnique(s: Selection, names: Links, inventory: Inventory, localAddresses: set<IPv4>, starts: Starts,
                       t: ClaimTransfer, u: ClaimTransfer)
    requires Placed(s, names, inventory, localAddresses, starts, t) && Placed(s, names, inventory, localAddresses, starts, u)
    ensures t == u
  {
    FirstPairIsUnique(inventory.priorities, starts.priority, t.outbound, t.returning, u.outbound, u.returning);
    FittingIsUnique(inventory, localAddresses, names.hostName, s.providerName, t.outbound, t.returning, starts.temporarySubnet,
                    t.subnet, u.subnet);
  }

  lemma PlacedIsNotRefused(s: Selection, names: Links, inventory: Inventory, localAddresses: set<IPv4>, starts: Starts,
                           t: ClaimTransfer, error: AllocationError)
    requires Placed(s, names, inventory, localAddresses, starts, t)
    ensures !Refused(s, names, inventory, localAddresses, starts, error)
  {
    FirstPairIsUnique(inventory.priorities, starts.priority, t.outbound, t.returning, t.outbound, t.returning);
    forall a, b | FirstPair(inventory.priorities, starts.priority, a, b)
      ensures !NoSubnetFits(inventory, localAddresses, names.hostName, s.providerName, a, b)
    {
      FirstPairIsUnique(inventory.priorities, starts.priority, t.outbound, t.returning, a, b);
    }
  }

  lemma RefusedOnce(s: Selection, names: Links, inventory: Inventory, localAddresses: set<IPv4>, starts: Starts,
                    e: AllocationError, f: AllocationError)
    requires Refused(s, names, inventory, localAddresses, starts, e) && Refused(s, names, inventory, localAddresses, starts, f)
    ensures e == f
  {
    forall a, b | FirstPair(inventory.priorities, starts.priority, a, b) ensures TwoFree(inventory.priorities, a, b) {
      FirstPairIsUnique(inventory.priorities, starts.priority, a, b, a, b);
    }
  }

  /** Places one transfer, or says the one reason for which it cannot be placed. */
  method AllocateTransfer(s: Selection, names: Links, inventory: Inventory, localAddresses: set<IPv4>, starts: Starts)
    returns (r: Result<ClaimTransfer, AllocationError>)
    ensures r.Ok? ==> Placed(s, names, inventory, localAddresses, starts, r.value)
    ensures r.Ok? ==>
              InRange(r.value) && Distinct(TransferResources(r.value)) && HoldsNone(inventory, TransferResources(r.value))
    ensures r.Err? ==> Refused(s, names, inventory, localAddresses, starts, r.error)
  {
    if names.hostName in inventory.linkNames {
      return Err(LinkExists);
    }
    var priorities := AllocatePriorities(inventory.priorities, starts.priority);
    if priorities.None? {
      return Err(NoPriority);
    }
    var (outbound, returning) := priorities.value;
    var subnet := NextTemporarySubnet(SurroundingsOf(inventory, localAddresses), names.hostName, s.providerName,
                                      outbound, returning, starts.temporarySubnet);
    if subnet.None? {
      assert NoSubnetFits(inventory, localAddresses, names.hostName, s.providerName, outbound, returning);
      return Err(NoSubnet);
    }
    var t := ClaimTransfer(s.number, s.source, s.providerName, s.providerIndex, s.routeTable, s.gateway,
                           subnet.value, outbound, returning, names.hostName, names.peerName);
    FirstPairIsUnique(inventory.priorities, starts.priority, outbound, returning, outbound, returning);
    FitsInventory(inventory, localAddresses, t, s.providerName);
    r := Ok(t);
  }

  /** Two different priorities, the first unused and the next. */
  method AllocatePriorities(used: set<int>, start: int) returns (r: Option<(int, int)>)
    ensures r.Some? ==> FirstPair(used, start, r.value.0, r.value.1) && TwoFree(used, r.value.0, r.value.1)
    ensures r.None? ==> forall a, b :: !TwoFree(used, a, b)
  {
    var outbound := NextInRange(FIRST_PRIORITY, LAST_PRIORITY, used, start);
    if outbound.None? {
      return None;
    }
    var returning := NextInRange(FIRST_PRIORITY, LAST_PRIORITY, used + {outbound.value}, start);
    if returning.None? {
      OnlyOneFree(used, outbound.value);
      return None;
    }
    r := Some((outbound.value, returning.value));
  }

  lemma FitsInventory(inventory: Inventory, localAddresses: set<IPv4>, t: ClaimTransfer, provider: string)
    requires t.hostVeth !in inventory.linkNames && TwoFree(inventory.priorities, t.outbound, t.returning)
    requires Acceptable(t.subnet, SurroundingsOf(inventory, localAddresses), t.hostVeth, provider, t.outbound, t.returning)
    ensures InRange(t) && Distinct(TransferResources(t)) && HoldsNone(inventory, TransferResources(t))
  {
    AcceptedIsNotHeld(inventory, t.subnet);
  }

  lemma OnlyOneFree(used: set<int>, one: int)
    requires forall value :: FIRST_PRIORITY <= value <= LAST_PRIORITY ==> value in used + {one}
    ensures forall a, b :: !TwoFree(used, a, b)
  {
    forall a, b ensures !TwoFree(used, a, b) {
      if FIRST_PRIORITY <= a <= LAST_PRIORITY && FIRST_PRIORITY <= b <= LAST_PRIORITY {
        assert a in used + {one} && b in used + {one};
      }
    }
  }

  lemma AcceptedIsNotHeld(inventory: Inventory, index: nat)
    requires index < SUBNET_COUNT && !OverlapsAny(Subnet(index), inventory.routePrefixes)
    ensures !Holds(inventory, TemporarySubnet(index))
  {
    SubnetsOverlap(index, index);
    forall at | 0 <= at < |inventory.routePrefixes| ensures inventory.routePrefixes[at] != Subnet(index) {
      assert Overlaps(Subnet(index), Subnet(index));
    }
  }

  /** Some transfers allocated: different things, none of them taken before and all of them taken now. */
  ghost predicate Allocated(before: Inventory, now: Inventory, ts: seq<ClaimTransfer>) {
    && Extends(now, before) && HoldsAll(now, TransfersResources(ts))
    && Distinct(TransfersResources(ts)) && HoldsNone(before, TransfersResources(ts))
    && (forall i :: 0 <= i < |ts| ==> InRange(ts[i]))
  }

  lemma AllocateNext(before: Inventory, now: Inventory, ts: seq<ClaimTransfer>, t: ClaimTransfer)
    requires Allocated(before, now, ts) && InRange(t)
    requires Distinct(TransferResources(t)) && HoldsNone(now, TransferResources(t))
    ensures Allocated(before, WithTransfer(now, t), ts + [t])
  {
    assert (ts + [t])[..|ts|] == ts;
    DistinctConcat(TransfersResources(ts), TransferResources(t));
    WithTransferHolds(now, t);
  }

  function LocalWith(inventory: Inventory, selected: seq<Selection>): set<IPv4> {
    inventory.localAddresses + set s | s in selected :: s.source
  }

  /** The inventory after some transfers of the claim were placed. */
  function Taken(inventory: Inventory, ts: seq<ClaimTransfer>): Inventory {
    if ts == [] then inventory else WithTransfer(Taken(inventory, ts[..|ts| - 1]), ts[|ts| - 1])
  }

  /** The selection at `k` has its determined transfer, given those before it. */
  ghost predicate PlacedAt(selected: seq<Selection>, links: nat -> Links, inventory: Inventory, starts: Starts,
                           ts: seq<ClaimTransfer>, k: nat)
    requires k < |ts| && k < |selected|
  {
    Placed(selected[k], links(selected[k].number), Taken(inventory, ts[..k]), LocalWith(inventory, selected), starts, ts[k])
  }

  /** The first selections have their determined transfers, each given those before it. */
  ghost predicate PlacedInOrder(selected: seq<Selection>, links: nat -> Links, inventory: Inventory, starts: Starts,
                                ts: seq<ClaimTransfer>) {
    |ts| <= |selected| && forall k :: 0 <= k < |ts| ==> PlacedAt(selected, links, inventory, starts, ts, k)
  }

  /** The selection after those placed is refused. */
  ghost predicate RefusedAfter(selected: seq<Selection>, links: nat -> Links, inventory: Inventory, starts: Starts,
                               ts: seq<ClaimTransfer>, error: AllocationError) {
    && PlacedInOrder(selected, links, inventory, starts, ts) && |ts| < |selected|
    && Refused(selected[|ts|], links(selected[|ts|].number), Taken(inventory, ts), LocalWith(inventory, selected), starts, error)
  }

  /** Some selection cannot be placed after those before it, for this reason. */
  ghost predicate TransfersRefused(selected: seq<Selection>, links: nat -> Links, inventory: Inventory, starts: Starts,
                                   error: AllocationError) {
    exists ts :: RefusedAfter(selected, links, inventory, starts, ts, error)
  }

  /** Two placements agree as far as both go. */
  lemma {:induction false} PlacementsAgree(selected: seq<Selection>, links: nat -> Links, inventory: Inventory,
                                           starts: Starts, ts: seq<ClaimTransfer>, us: seq<ClaimTransfer>, n: nat)
    requires PlacedInOrder(selected, links, inventory, starts, ts) && PlacedInOrder(selected, links, inventory, starts, us)
    requires n <= |ts| && n <= |us|
    ensures ts[..n] == us[..n]
  {
    if n > 0 {
      PlacementsAgree(selected, links, inventory, starts, ts, us, n - 1);
      var k := n - 1;
      assert PlacedAt(selected, links, inventory, starts, ts, k) && PlacedAt(selected, links, inventory, starts, us, k);
      PlacedIsUnique(selected[k], links(selected[k].number), Taken(inventory, ts[..k]), LocalWith(inventory, selected), starts,
                     ts[k], us[k]);
      assert ts[..n] == ts[..k] + [ts[k]] && us[..n] == us[..k] + [us[k]];
    }
  }

  /** No placement goes past a refusal. */
  lemma RefusalStops(selected: seq<Selection>, links: nat -> Links, inventory: Inventory, starts: Starts,
                     ts: seq<ClaimTransfer>, us: seq<ClaimTransfer>, error: AllocationError)
    requires RefusedAfter(selected, links, inventory, starts, ts, error) && PlacedInOrder(selected, links, inventory, starts, us)
    ensures |us| <= |ts|
  {
    var k := |ts|;
    if k < |us| {
      PlacementsAgree(selected, links, inventory, starts, ts, us, k);
      assert ts[..k] == ts && PlacedAt(selected, links, inventory, starts, us, k);
      PlacedIsNotRefused(selected[k], links(selected[k].number), Taken(inventory, ts), LocalWith(inventory, selected), starts,
                         us[k], error);
    }
  }

  /** Selections that are all placed are not refused, and those refused are refused for one reason. */
  lemma PlacementIsDecided(selected: seq<Selection>, links: nat -> Links, inventory: Inventory, starts: Starts,
                           ts: seq<ClaimTransfer>)
    requires PlacedInOrder(selected, links, inventory, starts, ts)
    ensures |ts| == |selected| ==> forall e :: !TransfersRefused(selected, links, inventory, starts, e)
    ensures forall e, f ::
              RefusedAfter(selected, links, inventory, starts, ts, e) && TransfersRefused(selected, links, inventory, starts, f) ==>
                e == f
  {
    forall e, us | RefusedAfter(selected, links, inventory, starts, us, e) ensures |ts| <= |us| < |selected| {
      RefusalStops(selected, links, inventory, starts, us, ts, e);
    }
    forall e, f | RefusedAfter(selected, links, inventory, starts, ts, e) && TransfersRefused(selected, links, inventory, starts, f)
      ensures e == f
    {
      var us :| RefusedAfter(selected, links, inventory, starts, us, f);
      RefusalStops(selected, links, inventory, starts, ts, us, e);
      PlacementsAgree(selected, links, inventory, starts, ts, us, |ts|);
      assert ts[..|ts|] == ts && us[..|ts|] == us;
      RefusedOnce(selected[|ts|], links(selected[|ts|].number), Taken(inventory, ts), LocalWith(inventory, selected), starts, e, f);
    }
  }

  lemma {:induction false} PlaceNext(selected: seq<Selection>, links: nat -> Links, inventory: Inventory, starts: Starts,
                                     ts: seq<ClaimTransfer>, t: ClaimTransfer)
    requires PlacedInOrder(selected, links, inventory, starts, ts) && |ts| < |selected|
    requires Placed(selected[|ts|], links(selected[|ts|].number), Taken(inventory, ts), LocalWith(inventory, selected), starts, t)
    ensures PlacedInOrder(selected, links, inventory, starts, ts + [t])
    ensures Taken(inventory, ts + [t]) == WithTransfer(Taken(inventory, ts), t)
  {
    var longer := ts + [t];
    assert longer[..|ts|] == ts;
    forall k | 0 <= k < |longer| ensures PlacedAt(selected, links, inventory, starts, longer, k) {
      if k < |ts| {
        assert PlacedAt(selected, links, inventory, starts, ts, k);
        assert longer[..k] == ts[..k];
      }
    }
  }

  lemma PlacedFollows(selected: seq<Selection>, links: nat -> Links, inventory: Inventory, starts: Starts,
                      ts: seq<ClaimTransfer>)
    requires PlacedInOrder(selected, links, inventory, starts, ts)
    ensures FollowsAll(ts, selected, links)
  {
    forall k | 0 <= k < |ts| ensures Follows(ts[k], selected[k], links) {
      assert PlacedAt(selected, links, inventory, starts, ts, k);
    }
  }

  /** Allocates the transfers in order, each seeing what the earlier ones took; refused exactly when one cannot be placed. */
  method AppendTransfers(selected: seq<Selection>, links: nat -> Links, inventory: Inventory, starts: Starts)
    returns (r: Result<seq<ClaimTransfer>, AllocationError>)
    ensures r.Ok? ==>
              && |r.value| == |selected| && PlacedInOrder(selected, links, inventory, starts, r.value)
              && Distinct(TransfersResources(r.value)) && HoldsNone(inventory, TransfersResources(r.value))
              && (forall i :: 0 <= i < |r.value| ==> InRange(r.value[i]))
    ensures forall e :: r == Err(e) <==> TransfersRefused(selected, links, inventory, starts, e)
  {
    var localAddresses := LocalWith(inventory, selected);
    var current := inventory;
    var ts: seq<ClaimTransfer> := [];
    var index := 0;
    while index < |selected|
      invariant 0 <= index <= |selected| && |ts| == index && current == Taken(inventory, ts)
      invariant PlacedInOrder(selected, links, inventory, starts, ts) && Allocated(inventory, current, ts)
    {
      var one := AllocateTransfer(selected[index], links(selected[index].number), current, localAddresses, starts);
      if one.Err? {
        assert RefusedAfter(selected, links, inventory, starts, ts, one.error);
        PlacementIsDecided(selected, links, inventory, starts, ts);
        return Err(one.error);
      }
      AllocateNext(inventory, current, ts, one.value);
      PlaceNext(selected, links, inventory, starts, ts, one.value);
      ts := ts + [one.value];
      current := WithTransfer(current, one.value);
      index := index + 1;
    }
    PlacementIsDecided(selected, links, inventory, starts, ts);
    r := Ok(ts);
  }

  function TablesWith(inventory: Inventory, selected: seq<Selection>): set<int> {
    inventory.routeTables + set s | s in selected :: s.routeTable
  }

  ghost predicate AllUsed(first: int, last: int, used: set<int>) {
    forall value :: first <= value <= last ==> value in used
  }

  /** The reason for which the run can have no identity here. */
  ghost predicate IdentityRefused(run: string, selected: seq<Selection>, inventory: Inventory, error: AllocationError) {
    var noTable := AllUsed(FIRST_RETURN_TABLE, LAST_RETURN_TABLE, TablesWith(inventory, selected));
    var noProtocol := AllUsed(FIRST_CLAIM_PROTOCOL, LAST_CLAIM_PROTOCOL, inventory.protocols);
    match error
    case NoReturnTable => noTable
    case NoProtocol => !noTable && noProtocol
    case _ => !noTable && !noProtocol && BackendRefused(run, inventory, error)
  }

  ghost predicate IdentityAvailable(run: string, selected: seq<Selection>, inventory: Inventory) {
    && !AllUsed(FIRST_RETURN_TABLE, LAST_RETURN_TABLE, TablesWith(inventory, selected))
    && !AllUsed(FIRST_CLAIM_PROTOCOL, LAST_CLAIM_PROTOCOL, inventory.protocols)
    && BackendAvailable(run, inventory)
  }

  ghost predicate BackendRefused(run: string, inventory: Inventory, error: AllocationError) {
    match inventory.firewall
    case UsesNftables =>
      if !ValidNatChains(inventory.natChains) then error == InvalidChains
      else if !AtMostEach(CONNTRACK_PRIORITY + 2, inventory.natChains) then error == NoEarlierPriority
      else error == IdentityExists && (FirewallName(run) in inventory.nftTables || run in inventory.owners)
    case UsesIptables(frontend) =>
      if !KnownFrontend(frontend) then error == UnknownFrontend else error == IdentityExists && run in inventory.owners
    case NoFirewall => error == NoBackend
  }

  ghost predicate BackendAvailable(run: string, inventory: Inventory) {
    && run !in inventory.owners
    && match inventory.firewall
       case UsesNftables =>
         && ValidNatChains(inventory.natChains) && AtMostEach(CONNTRACK_PRIORITY + 2, inventory.natChains)
         && FirewallName(run) !in inventory.nftTables
       case UsesIptables(frontend) => KnownFrontend(frontend)
       case NoFirewall => false
  }

  /** The identity of the run: return table, protocol and firewall identity. */
  method AllocateIdentity(run: string, selected: seq<Selection>, inventory: Inventory, starts: Starts)
    returns (r: Result<Claim, AllocationError>)
    ensures r.Ok? ==>
              && r.value.run == run && r.value.transfers == []
              && FIRST_RETURN_TABLE <= r.value.returnTable <= LAST_RETURN_TABLE
              && FIRST_CLAIM_PROTOCOL <= r.value.protocol <= LAST_CLAIM_PROTOCOL
              && (forall s :: s in selected ==> s.routeTable != r.value.returnTable)
              && Distinct(RunResources(r.value)) && HoldsNone(inventory, RunResources(r.value))
              && BackendFollows(r.value.backend, run, inventory)
    ensures r.Ok? ==>
              && FirstUnused(FIRST_RETURN_TABLE, LAST_RETURN_TABLE, TablesWith(inventory, selected), starts.returnTable,
                             r.value.returnTable)
              && FirstUnused(FIRST_CLAIM_PROTOCOL, LAST_CLAIM_PROTOCOL, inventory.protocols, starts.protocol, r.value.protocol)
    ensures forall e :: r == Err(e) <==> IdentityRefused(run, selected, inventory, e)
    ensures r.Ok? <==> IdentityAvailable(run, selected, inventory)
  {
    var routeTables := TablesWith(inventory, selected);
    var table := NextInRange(FIRST_RETURN_TABLE, LAST_RETURN_TABLE, routeTables, starts.returnTable);
    if table.None? {
      return Err(NoReturnTable);
    }
    forall s | s in selected ensures s.routeTable != table.value {
      assert s.routeTable in routeTables;
    }
    var protocol := NextInRange(FIRST_CLAIM_PROTOCOL, LAST_CLAIM_PROTOCOL, inventory.protocols, starts.protocol);
    if protocol.None? {
      return Err(NoProtocol);
    }
    var backend := AllocateBackend(run, inventory);
    if backend.Err? {
      return Err(backend.error);
    }
    r := Ok(Claim(run, protocol.value, table.value, backend.value, []));
  }

  ghost predicate BackendFollows(b: Backend, run: string, inventory: Inventory) {
    match b
    case Nftables(table, priority, forwardChains) =>
      && inventory.firewall.UsesNftables? && table == FirewallName(run) && forwardChains == inventory.forwardChains
      && CONNTRACK_PRIORITY < priority < SOURCE_NAT_PRIORITY && AtMostEach(priority + 1, inventory.natChains)
    case Iptables(frontend) => inventory.firewall == UsesIptables(frontend) && KnownFrontend(frontend)
  }

  method AllocateBackend(run: string, inventory: Inventory) returns (r: Result<Backend, AllocationError>)
    ensures r.Ok? ==>
              && BackendFollows(r.value, run, inventory) && run !in inventory.owners
              && (r.value.Nftables? ==>
                    && r.value.table !in inventory.nftTables
                    && !Holds(inventory, NftPriority(r.value.priority)))
    ensures forall e :: r == Err(e) <==> BackendRefused(run, inventory, e)
    ensures r.Ok? <==> BackendAvailable(run, inventory)
  {
    match inventory.firewall {
      case UsesNftables =>
        var priority := NextNatPriority(inventory.natChains);
        if priority.Err? {
          return Err(priority.error);
        }
        if FirewallName(run) in inventory.nftTables || run in inventory.owners {
          return Err(IdentityExists);
        }
        r := Ok(Nftables(FirewallName(run), priority.value, inventory.forwardChains));
      case UsesIptables(frontend) =>
        if !KnownFrontend(frontend) {
          return Err(UnknownFrontend);
        }
        if run in inventory.owners {
          return Err(IdentityExists);
        }
        r := Ok(Iptables(frontend));
      case NoFirewall =>
        r := Err(NoBackend);
    }
  }

  /** The host and peer names of transfers 1 to n. */
  function NamesUpTo(links: nat -> Links, n: nat): seq<string> {
    if n == 0 then [] else NamesUpTo(links, n - 1) + [links(n).hostName, links(n).peerName]
  }

  predicate NoPlus(selected: seq<Selection>, links: nat -> Links) {
    forall s :: s in selected ==> !EndsWithPlus(s.providerName) && !EndsWithPlus(links(s.number).hostName)
  }

  /** What must hold of the inputs of an allocation for its claim to be publishable. */
  predicate PublishableInputs(run: string, selected: seq<Selection>, links: nat -> Links, inventory: Inventory) {
    match inventory.firewall
    case UsesNftables =>
      && ValidForwardChains(inventory.forwardChains, FirewallName(run))
      && Distinct([FirewallName(run)] + NamesUpTo(links, |selected|))
    case UsesIptables(_) => NoPlus(selected, links) && Distinct(NamesUpTo(links, |selected|))
    case NoFirewall => false
  }

  lemma {:induction false} SlotsAreResources(ts: seq<ClaimTransfer>)
    ensures Distinct(TransfersResources(ts)) ==> Distinct(TransferSlots(ts))
    ensures forall r :: r in TransferSlots(ts) ==> r in TransfersResources(ts)
  {
    if ts != [] {
      var before, t := ts[..|ts| - 1], ts[|ts| - 1];
      SlotsAreResources(before);
      var slots: seq<Resource> := [PolicyPriority(t.outbound), PolicyPriority(t.returning), TemporarySubnet(t.subnet)];
      DistinctConcat(TransfersResources(before), TransferResources(t));
      DistinctConcat(TransferSlots(before), slots);
      assert forall r :: r in slots ==> r in TransferResources(t);
      if Distinct(TransferResources(t)) {
        assert TransferResources(t)[0] != TransferResources(t)[1];
        assert Distinct(slots);
      }
    }
  }

  ghost predicate UsableSelections(selected: seq<Selection>) {
    1 <= |selected| <= MAXIMUM_TRANSFERS && Numbered(Sort(selected, LowerNumber))
  }

  /** The reason for which no claim can be allocated. */
  ghost predicate NetworkRefused(run: string, selected: seq<Selection>, links: nat -> Links, inventory: Inventory,
                                 starts: Starts, error: AllocationError) {
    var ordered := Sort(selected, LowerNumber);
    if !UsableSelections(selected) then error == InvalidSelections
    else if !IdentityAvailable(run, ordered, inventory) then IdentityRefused(run, ordered, inventory, error)
    else TransfersRefused(ordered, links, inventory, starts, error)
  }

  /**
    Allocates a claim, or says the one reason for which there is none.  A claim reserves nothing the
    inventory shows as taken, and it passes the validation of published claims exactly when its inputs
    are publishable.
  */
  method AllocateNetwork(run: string, selected: seq<Selection>, links: nat -> Links, inventory: Inventory, starts: Starts)
    returns (r: Result<Claim, AllocationError>)
    ensures r.Ok? ==>
              && r.value.run == run && Distinct(ResourcesOf(r.value)) && HoldsNone(inventory, ResourcesOf(r.value))
              && |r.value.transfers| == |selected|
              && PlacedInOrder(Sort(selected, LowerNumber), links, inventory, starts, r.value.transfers)
              && BackendFollows(r.value.backend, run, inventory)
    ensures r.Ok? ==> (ValidClaim(r.value) <==> PublishableInputs(run, selected, links, inventory))
    ensures forall e :: r == Err(e) <==> NetworkRefused(run, selected, links, inventory, starts, e)
  {
    var ordered := OrderedSelections(selected);
    if ordered.None? {
      return Err(InvalidSelections);
    }
    var identity := AllocateIdentity(run, ordered.value, inventory, starts);
    if identity.Err? {
      return identity;
    }
    var transfers := AppendTransfers(ordered.value, links, inventory, starts);
    if transfers.Err? {
      return Err(transfers.error);
    }
    PlacedFollows(ordered.value, links, inventory, starts, transfers.value);
    SortKeepsElements(selected, LowerNumber);
    var c := identity.value.(transfers := transfers.value);
    TransfersAreNotRunResources(identity.value, transfers.value);
    SlotsAreResources(transfers.value);
    AllocatedIsValid(c, selected, ordered.value, links, inventory);
    r := Ok(c);
  }

  /** A provider with a plus sign at its end is allocated under iptables and its claim cannot be published. */
  lemma PlusProviderIsNotPublishable(run: string) returns (selected: seq<Selection>, links: nat -> Links, inventory: Inventory,
                                                           starts: Starts)
    ensures forall e :: !NetworkRefused(run, selected, links, inventory, starts, e)
    ensures !PublishableInputs(run, selected, links, inventory)
  {
    selected := [Selection(1, 1, "ppp+", 1, 254, None)];
    links := n => Links("host", "peer");
    inventory := Inventory(UsesIptables("legacy"), {}, {}, {}, [], [], {}, {}, {}, {}, [], [], {});
    starts := Starts(0, 0, 0, 0);
    assert Sort(selected, LowerNumber) == selected by {
      assert selected[1..] == [];
    }
    assert selected[0] in selected && EndsWithPlus(selected[0].providerName);
    assert FIRST_RETURN_TABLE !in TablesWith(inventory, selected) && FIRST_CLAIM_PROTOCOL !in inventory.protocols;
    forall ts, e ensures !RefusedAfter(selected, links, inventory, starts, ts, e) {
      if |ts| == 0 {
        FirstIsNotRefused(selected[0], links(1), inventory, LocalWith(inventory, selected), starts, e);
      }
    }
  }

  lemma FirstIsNotRefused(s: Selection, names: Links, inventory: Inventory, localAddresses: set<IPv4>, starts: Starts,
                          e: AllocationError)
    requires inventory.linkNames == {} && inventory.priorities == {} && inventory.routePrefixes == []
    requires inventory.rules == [] && inventory.connections == {}
    ensures !Refused(s, names, inventory, localAddresses, starts, e)
  {
    assert TwoFree(inventory.priorities, FIRST_PRIORITY, FIRST_PRIORITY + 1);
    var first: nat := 0;
    forall a, b ensures !NoSubnetFits(inventory, localAddresses, names.hostName, s.providerName, a, b) {
      assert Acceptable(first, SurroundingsOf(inventory, localAddresses), names.hostName, s.providerName, a, b);
    }
  }

  lemma {:induction false} NamesFollow(ts: seq<ClaimTransfer>, ordered: seq<Selection>, links: nat -> Links)
    requires FollowsAll(ts, ordered, links) && forall i :: 0 <= i < |ordered| ==> ordered[i].number == i + 1
    ensures LinkNames(ts) == NamesUpTo(links, |ts|)
  {
    if ts != [] {
      var n := |ts| - 1;
      assert FollowsAll(ts[..n], ordered, links);
      NamesFollow(ts[..n], ordered, links);
      assert Follows(ts[n], ordered[n], links);
    }
  }

  lemma PlusFollows(ts: seq<ClaimTransfer>, selected: seq<Selection>, ordered: seq<Selection>, links: nat -> Links)
    requires |ts| == |ordered| && FollowsAll(ts, ordered, links) && multiset(ordered) == multiset(selected)
    ensures (forall i :: 0 <= i < |ts| ==> !EndsWithPlus(ts[i].providerName) && !EndsWithPlus(ts[i].hostVeth))
            <==> NoPlus(selected, links)
  {
    assert forall s :: s in selected <==> s in ordered by {
      assert forall s :: s in selected <==> s in multiset(selected);
      assert forall s :: s in ordered <==> s in multiset(ordered);
    }
    forall i | 0 <= i < |ts|
      ensures Follows(ts[i], ordered[i], links) && ordered[i] in selected
    {
      assert ordered[i] in ordered;
    }
  }

  lemma AllocatedIsValid(c: Claim, selected: seq<Selection>, ordered: seq<Selection>, links: nat -> Links, inventory: Inventory)
    requires 1 <= |c.transfers| <= MAXIMUM_TRANSFERS && |c.transfers| == |ordered| && FollowsAll(c.transfers, ordered, links)
    requires |ordered| == |selected| && multiset(ordered) == multiset(selected)
    requires forall i :: 0 <= i < |ordered| ==> ordered[i].number == i + 1 && ValidSelection(ordered[i])
    requires forall s :: s in ordered ==> s.routeTable != c.returnTable
    requires FIRST_RETURN_TABLE <= c.returnTable <= LAST_RETURN_TABLE
    requires FIRST_CLAIM_PROTOCOL <= c.protocol <= LAST_CLAIM_PROTOCOL
    requires forall i :: 0 <= i < |c.transfers| ==> InRange(c.transfers[i])
    requires Distinct(TransferSlots(c.transfers)) && BackendFollows(c.backend, c.run, inventory)
    ensures ValidClaim(c) <==> PublishableInputs(c.run, selected, links, inventory)
  {
    forall i | 0 <= i < |c.transfers| ensures c.transfers[i].number == i + 1 && ValidTransfer(c, c.transfers[i]) {
      assert Follows(c.transfers[i], ordered[i], links);
      assert ordered[i] in ordered;
    }
    NamesFollow(c.transfers, ordered, links);
    PlusFollows(c.transfers, selected, ordered, links);
  }

  lemma {:induction false} TransferKinds(ts: seq<ClaimTransfer>)
    ensures forall r :: r in TransfersResources(ts) ==> r.PolicyPriority? || r.HostLink? || r.TemporarySubnet?
  {
    if ts != [] {
      TransferKinds(ts[..|ts| - 1]);
    }
  }

  lemma {:induction false} TransfersAreNotRunResources(identity: Claim, ts: seq<ClaimTransfer>)
    requires identity.transfers == [] && Distinct(RunResources(identity)) && Distinct(TransfersResources(ts))
    ensures ResourcesOf(identity.(transfers := ts)) == RunResources(identity) + TransfersResources(ts)
    ensures Distinct(ResourcesOf(identity.(transfers := ts)))
  {
    TransferKinds(ts);
    DistinctConcat(RunResources(identity), TransfersResources(ts));
  }

  // ---------------------------------------------------------------- runs of the whole system

  datatype Action =
    | Opening(run: string, selected: seq<Selection>, links: nat -> Links, observed: Inventory, starts: Starts,
              firewalls: map<string, bool>)
    | Ending(run: string)

  function Without(claims: seq<Claim>, run: string): (r: seq<Claim>)
    ensures forall c :: c in r ==> c in claims
  {
    if claims == [] then []
    else Without(claims[..|claims| - 1], run) + if claims[|claims| - 1].run == run then [] else [claims[|claims| - 1]]
  }

  lemma {:induction false} EndingKeepsDisjoint(claims: seq<Claim>, run: string)
    requires Disjoint(claims)
    ensures Disjoint(Without(claims, run))
    ensures forall r :: r in AllResources(Without(claims, run)) ==> r in AllResources(claims)
  {
    if claims != [] {
      var before, last := claims[..|claims| - 1], claims[|claims| - 1];
      DistinctConcat(AllResources(before), ResourcesOf(last));
      EndingKeepsDisjoint(before, run);
      var kept := Without(before, run);
      if last.run != run {
        assert (kept + [last])[..|kept|] == kept;
        DistinctConcat(AllResources(kept), ResourcesOf(last));
      } else {
        assert Without(claims, run) == kept;
      }
    }
  }

  lemma {:induction false} OpeningKeepsDisjoint(claims: seq<Claim>, inventory: Inventory, c: Claim)
    requires Disjoint(claims) && HoldsAll(inventory, AllResources(claims))
    requires Distinct(ResourcesOf(c)) && HoldsNone(inventory, ResourcesOf(c))
    ensures Disjoint(claims + [c])
  {
    assert (claims + [c])[..|claims|] == claims;
    DistinctConcat(AllResources(claims), ResourcesOf(c));
  }

  /** All valid claims. */
  ghost predicate AllValid(claims: seq<Claim>) {
    forall i :: 0 <= i < |claims| ==> ValidClaim(claims[i])
  }

  /** Why an opening publishes nothing. */
  datatype Refusal = Merging(merge: MergeError) | Allocating(allocation: AllocationError) | NotPublishable

  /**
    One opening under the host lock: reserve what is published, allocate, and publish a claim that
    encodes.  Published claims never conflict with each other, so none is refused for that.
  */
  method OpenOne(published: seq<Claim>, action: Action) returns (now: seq<Claim>, r: Result<Claim, Refusal>)
    requires Disjoint(published) && AllValid(published) && action.Opening?
    ensures Disjoint(now) && AllValid(now)
    ensures r.Ok? ==> now == published + [r.value] && r.value.run == action.run
    ensures r.Err? ==> now == published && r.error != Merging(Conflict)
    // refused exactly when the host contradicts a published claim, nothing can be allocated, or the inputs do not publish
    ensures (r.Err? && r.error.Merging?) <==> !Mergeable(action.observed, published, action.firewalls)
    ensures var merged := WithClaims(action.observed, published, action.firewalls);
            && (forall e :: r == Err(Allocating(e)) <==>
                  && Mergeable(action.observed, published, action.firewalls)
                  && NetworkRefused(action.run, action.selected, action.links, merged, action.starts, e))
            && (r.Ok? ==> PublishableInputs(action.run, action.selected, action.links, merged))
            && (r == Err(NotPublishable) ==> !PublishableInputs(action.run, action.selected, action.links, merged))
  {
    now := published;
    var merged := MergePublished(action.observed, published, action.firewalls);
    if merged.Err? {
      return now, Err(Merging(merged.error));
    }
    var claim := AllocateNetwork(action.run, action.selected, action.links, merged.value, action.starts);
    if claim.Err? {
      return now, Err(Allocating(claim.error));
    }
    if !ValidClaim(claim.value) {
      return now, Err(NotPublishable);
    }
    OpeningKeepsDisjoint(published, merged.value, claim.value);
    now := published + [claim.value];
    r := Ok(claim.value);
  }

  /**
    Any serialised sequence of openings and endings, an ending being a close, a rollback or a recovery:
    at every moment the published claims are pairwise disjoint, and no opening is ever refused because
    published claims conflict.
  */
  method RunActions(actions: seq<Action>) returns (published: seq<Claim>, conflicts: nat)
    ensures Disjoint(published) && AllValid(published) && conflicts == 0
  {
    published, conflicts := [], 0;
    var index := 0;
    while index < |actions|
      invariant 0 <= index <= |actions|
      invariant Disjoint(published) && AllValid(published) && conflicts == 0
    {
      match actions[index] {
        case Opening(_, _, _, _, _, _) =>
          var outcome;
          published, outcome := OpenOne(published, actions[index]);
          conflicts := conflicts + if outcome == Err(Merging(Conflict)) then 1 else 0;
        case Ending(run) =>
          EndingKeepsDisjoint(published, run);
          EndingKeepsValid(published, run);
          published := Without(published, run);
      }
      index := index + 1;
    }
  }

  lemma {:induction false} EndingKeepsValid(claims: seq<Claim>, run: string)
    requires AllValid(claims)
    ensures AllValid(Without(claims, run))
  {
    var kept := Without(claims, run);
    forall i | 0 <= i < |kept| ensures ValidClaim(kept[i]) {
      assert kept[i] in kept;
      var at :| 0 <= at < |claims| && claims[at] == kept[i];
    }
  }
}
