/**
  Choosing free host resources: circular searches from a token-derived start, and the temporary /30
  subnet that no used prefix, tracked connection or earlier policy rule can disturb.
*/
module ResourceSearch {
  import opened Ipv4
  import opened Wrappers

  const FIRST_PRIORITY := 20000
  const LAST_PRIORITY := 29999
  const FIRST_RETURN_TABLE := 30000
  const LAST_RETURN_TABLE := 39999
  const FIRST_CLAIM_PROTOCOL := 100
  const LAST_CLAIM_PROTOCOL := 252

  /** The remainder of a division that truncates toward zero. */
  function Remainder(a: int, b: int): int
    requires b > 0
  {
    if a >= 0 then a % b else -((-a) % b)
  }

  function NormalizedStart(start: int, count: int): (r: int)
    requires count > 0
    ensures 0 <= r < count
    ensures r == start % count
  {
    var value := Remainder(start, count);
    NegativeRemainder(start, count);
    if value < 0 then value + count else value
  }

  lemma {:induction false} NegativeRemainder(a: int, b: int)
    requires b > 0
    ensures a % b == var value := Remainder(a, b); if value < 0 then value + b else value
  {
    if a < 0 {
      var q, m := (-a) / b, (-a) % b;
      assert a == b * (-q) - m;
      if m == 0 {
        QuotientAndRemainder(a, b, -q, 0);
      } else {
        assert b * (-q - 1) == b * (-q) - b;
        QuotientAndRemainder(a, b, -q - 1, b - m);
      }
    }
  }

  lemma {:induction false} QuotientAndRemainder(a: int, b: int, q: int, r: int)
    requires b > 0 && a == b * q + r && 0 <= r < b
    ensures a % b == r
  {
    var d := a / b - q;
    assert a == b * (a / b) + a % b;
    assert b * d == r - a % b by {
      assert b * (a / b - q) == b * (a / b) - b * q;
    }
    AtLeastOnce(b, d);
  }

  lemma AtLeastOnce(b: int, d: int)
    requires b > 0
    ensures d >= 1 ==> b * d >= b
    ensures d <= -1 ==> b * d <= -b
  {
  }

  /** The value looked at after `visited` others. */
  function Candidate(start: int, count: int, visited: nat): (r: nat)
    requires count > 0
    ensures r < count
  {
    (NormalizedStart(start, count) + visited) % count
  }

  /** Every value of the range is a candidate. */
  lemma EveryValueIsACandidate(start: int, count: int, value: nat)
    requires count > 0 && value < count
    ensures exists visited: nat :: visited < count && Candidate(start, count, visited) == value
  {
    var origin := NormalizedStart(start, count);
    var visited: nat := if value >= origin then value - origin else value - origin + count;
    if value >= origin {
      QuotientAndRemainder(origin + visited, count, 0, value);
    } else {
      QuotientAndRemainder(origin + visited, count, 1, value);
    }
    assert Candidate(start, count, visited) == value;
  }

  /** The first free value in circular order from the start. */
  ghost predicate FirstFree(start: int, count: int, free: nat -> bool, value: nat) {
    && count > 0
    && free(value)
    && exists visited: nat ::
         && visited < count && Candidate(start, count, visited) == value
         && NoneFree(start, count, free, visited)
  }

  ghost predicate NoneFree(start: int, count: int, free: nat -> bool, visited: nat)
    requires count > 0
  {
    forall v: nat :: v < visited ==> !free(Candidate(start, count, v))
  }

  /** The first free value is one value. */
  lemma FirstFreeIsUnique(start: int, count: int, free: nat -> bool, a: nat, b: nat)
    requires FirstFree(start, count, free, a) && FirstFree(start, count, free, b)
    ensures a == b
  {
    var i: nat :| i < count && Candidate(start, count, i) == a && NoneFree(start, count, free, i);
    var j: nat :| j < count && Candidate(start, count, j) == b && NoneFree(start, count, free, j);
  }

  /** The circular search: it finds the first free value and fails only when none is free. */
  method Search(start: int, count: int, free: nat -> bool) returns (r: Option<nat>)
    requires count > 0
    ensures r.Some? ==> r.value < count && FirstFree(start, count, free, r.value)
    ensures r.None? ==> forall value: nat :: value < count ==> !free(value)
  {
    var visited := 0;
    while visited < count
      invariant 0 <= visited <= count
      invariant NoneFree(start, count, free, visited)
    {
      var value := Candidate(start, count, visited);
      if free(value) {
        return Some(value);
      }
      visited := visited + 1;
    }
    forall value: nat | value < count ensures !free(value) {
      EveryValueIsACandidate(start, count, value);
    }
    r := None;
  }

  /** A number of an inclusive range that is not used yet. */
  method NextInRange(first: int, last: int, used: set<int>, start: int) returns (r: Option<int>)
    requires first <= last
    ensures r.Some? ==>
              && first <= r.value <= last && r.value !in used
              && FirstFree(start, last - first + 1, (i: nat) => first + i !in used, r.value - first)
    ensures r.None? <==> forall value :: first <= value <= last ==> value in used
  {
    var free := (i: nat) => first + i !in used;
    var found := Search(start, last - first + 1, free);
    if found.None? {
      forall value | first <= value <= last ensures value in used {
        var index: nat := value - first;
        assert !free(index);
      }
      return None;
    }
    assert free(found.value);
    r := Some(first + found.value);
  }

  // ---------------------------------------------------------------- temporary subnets

  const TEMPORARY_BASE: IPv4 := 0xC612_0000
  const SUBNET_COUNT := 32768

  /** The /30 with this index in 198.18.0.0/15. */
  function Subnet(index: nat): (p: Prefix)
    requires index < SUBNET_COUNT
    ensures p.bits == 30 && p.address % 4 == 0
    ensures TEMPORARY_BASE <= p.address < TEMPORARY_BASE + 0x2_0000
  {
    Prefix(TEMPORARY_BASE + 4 * index, 30)
  }

  function HostIP(index: nat): IPv4
    requires index < SUBNET_COUNT
  {
    Subnet(index).address + 1
  }

  function NamespaceIP(index: nat): IPv4
    requires index < SUBNET_COUNT
  {
    Subnet(index).address + 2
  }

  predicate Overlaps(p: Prefix, q: Prefix) {
    if p.bits <= q.bits then p.Contains(q.address) else q.Contains(p.address)
  }

  lemma {:induction false} DividedTwice(x: nat, s: nat, k: nat)
    requires s > 0 && k > 0
    ensures s * k > 0 && x / (s * k) == (x / s) / k
  {
    var q, r := (x / s) / k, (x / s) % k;
    assert x / s == k * q + r;
    assert x == s * (x / s) + x % s;
    assert s * (k * q + r) == (s * k) * q + s * r;
    Below(s, r, k, x % s);
    Positive(s, k);
    QuotientIs(x, s * k, q, s * r + x % s);
  }

  lemma Positive(s: nat, k: nat)
    requires s > 0 && k > 0
    ensures s * k > 0
  {
  }

  lemma {:induction false} Below(s: nat, r: nat, k: nat, rest: nat)
    requires r < k && rest < s
    ensures s * r + rest < s * k
  {
    Scale(r + 1, k, s);
    assert s * (r + 1) == s * r + s;
  }

  lemma {:induction false} QuotientIs(a: int, b: int, q: int, r: int)
    requires b > 0 && a == b * q + r && 0 <= r < b
    ensures a / b == q
  {
    QuotientAndRemainder(a, b, q, r);
    assert b * (a / b) == b * q;
    Cancel(b, a / b, q);
  }

  lemma Cancel(b: int, x: int, y: int)
    requires b > 0 && b * x == b * y
    ensures x == y
  {
    AtLeastOnce(b, x - y);
    assert b * (x - y) == b * x - b * y;
  }

  /** Prefixes that do not overlap have no address in common. */
  lemma NoSharedAddress(p: Prefix, q: Prefix, a: IPv4)
    requires p.Valid() && q.Valid() && !Overlaps(p, q)
    ensures !(p.Contains(a) && q.Contains(a))
  {
    if p.bits <= q.bits {
      LongerInside(p, q, a);
    } else {
      LongerInside(q, p, a);
    }
  }

  lemma LongerInside(p: Prefix, q: Prefix, a: IPv4)
    requires p.Valid() && q.Valid() && p.bits <= q.bits
    ensures p.Contains(a) && q.Contains(a) ==> p.Contains(q.address)
  {
    var k := Pow2(q.bits - p.bits);
    Pow2Adds(32 - q.bits, q.bits - p.bits);
    assert p.BlockSize() == q.BlockSize() * k;
    DividedTwice(a, q.BlockSize(), k);
    DividedTwice(q.address, q.BlockSize(), k);
  }

  /** Different subnets of the range do not overlap, equal ones do. */
  lemma SubnetsOverlap(i: nat, j: nat)
    requires i < SUBNET_COUNT && j < SUBNET_COUNT
    ensures Overlaps(Subnet(i), Subnet(j)) <==> i == j
  {
    assert Pow2(2) == 4;
  }

  lemma SubnetAddresses(i: nat, a: IPv4)
    requires i < SUBNET_COUNT
    ensures Subnet(i).Contains(a) <==> Subnet(i).address <= a < Subnet(i).address + 4
  {
    assert Pow2(2) == 4;
  }

  // ---------------------------------------------------------------- policy rules in the way

  datatype RoutingRule = RoutingRule(
    priority: int,
    source: Option<Prefix>,
    destination: Option<Prefix>,
    inputInterface: string,
    inverted: bool,
    unknownSelector: bool,
    builtinLocal: bool)

  predicate PrefixMatches(prefix: Option<Prefix>, address: IPv4) {
    prefix.None? || prefix.value.Contains(address)
  }

  predicate Earlier(rule: RoutingRule, priority: int) {
    !rule.builtinLocal && 0 <= rule.priority < priority
  }

  predicate PreemptsOutbound(rule: RoutingRule, namespaceIP: IPv4, hostVeth: string, priority: int) {
    && Earlier(rule, priority)
    && var sourceMatches := PrefixMatches(rule.source, namespaceIP);
       var interfaceMatches := rule.inputInterface == "" || rule.inputInterface == hostVeth;
       if rule.inverted then !sourceMatches || !interfaceMatches || rule.unknownSelector
       else sourceMatches && interfaceMatches
  }

  predicate ReturnSourceMayMatch(source: Option<Prefix>, localAddresses: set<IPv4>) {
    source.None? || source.value.bits != 32 || source.value.address !in localAddresses
  }

  predicate PreemptsReturn(rule: RoutingRule, namespaceIP: IPv4, provider: string, priority: int, localAddresses: set<IPv4>) {
    && Earlier(rule, priority)
    && var destinationMatches := PrefixMatches(rule.destination, namespaceIP);
       var interfaceMatches := rule.inputInterface == "" || rule.inputInterface == provider;
       if rule.inverted then !destinationMatches || !interfaceMatches || rule.source.Some? || rule.unknownSelector
       else ReturnSourceMayMatch(rule.source, localAddresses) && destinationMatches && interfaceMatches
  }

  predicate AnyPreemptsOutbound(rules: seq<RoutingRule>, namespaceIP: IPv4, hostVeth: string, priority: int) {
    exists i :: 0 <= i < |rules| && PreemptsOutbound(rules[i], namespaceIP, hostVeth, priority)
  }

  predicate AnyPreemptsReturn(rules: seq<RoutingRule>, namespaceIP: IPv4, provider: string, priority: int,
                              localAddresses: set<IPv4>) {
    exists i :: 0 <= i < |rules| && PreemptsReturn(rules[i], namespaceIP, provider, priority, localAddresses)
  }

  /** A forwarded packet as the policy rules see it. */
  datatype Packet = Packet(source: IPv4, destination: IPv4, inputInterface: string)

  /** The kernel's match of one rule; what an unknown selector says is a parameter. */
  predicate KernelMatches(rule: RoutingRule, packet: Packet, unknownAgrees: bool) {
    rule.inverted !=
    (&& PrefixMatches(rule.source, packet.source) && PrefixMatches(rule.destination, packet.destination)
     && (rule.inputInterface == "" || rule.inputInterface == packet.inputInterface)
     && (rule.unknownSelector ==> unknownAgrees))
  }

  /**
    A packet leaving an accepted transfer meets an earlier matching rule exactly when that rule is
    inverted and names a destination that does not hold the packet's.
  */
  lemma OutboundPreemption(rule: RoutingRule, packet: Packet, unknownAgrees: bool, priority: int)
    requires !PreemptsOutbound(rule, packet.source, packet.inputInterface, priority) && Earlier(rule, priority)
    ensures KernelMatches(rule, packet, unknownAgrees) <==>
              rule.inverted && rule.destination.Some? && !rule.destination.value.Contains(packet.destination)
  {
  }

  /** The rule takes some packet from the address and link away from the transfer's own rule. */
  ghost predicate TakesPackets(rule: RoutingRule, source: IPv4, inputInterface: string) {
    exists destination: IPv4, unknownAgrees: bool :: KernelMatches(rule, Packet(source, destination, inputInterface), unknownAgrees)
  }

  /** A rule the check overlooks: inverted, with a destination that leaves some address out. */
  predicate Overlooked(rule: RoutingRule) {
    rule.inverted && rule.destination.Some? && rule.destination.value.bits > 0
  }

  /**
    An earlier rule takes packets of the transfer exactly when the check finds it or overlooks it, so the
    check is exact for all other rules.
  */
  lemma OutboundCheckIsExact(rule: RoutingRule, source: IPv4, inputInterface: string, priority: int)
    requires Earlier(rule, priority) && (rule.destination.Some? ==> rule.destination.value.Valid())
    ensures TakesPackets(rule, source, inputInterface)
            <==> PreemptsOutbound(rule, source, inputInterface, priority) || Overlooked(rule)
  {
    if PreemptsOutbound(rule, source, inputInterface, priority) {
      var destination := if rule.destination.Some? then rule.destination.value.address else 0;
      assert KernelMatches(rule, Packet(source, destination, inputInterface), !rule.inverted);
    } else if Overlooked(rule) {
      var destination := MaskedPrefixExcludes(rule.destination.value);
      assert KernelMatches(rule, Packet(source, destination, inputInterface), true);
    } else {
      forall destination: IPv4, agrees: bool
        ensures !KernelMatches(rule, Packet(source, destination, inputInterface), agrees)
      {
        OutboundPreemption(rule, Packet(source, destination, inputInterface), agrees, priority);
        if rule.destination.Some? && rule.destination.value.bits == 0 {
          DefaultContainsEverything(rule.destination.value, destination);
        }
      }
    }
  }

  /** A rule that is overlooked. */
  lemma InvertedDestinationPreempts() returns (rule: RoutingRule, packet: Packet)
    ensures Earlier(rule, FIRST_PRIORITY) && !PreemptsOutbound(rule, packet.source, packet.inputInterface, FIRST_PRIORITY)
    ensures forall unknownAgrees :: KernelMatches(rule, packet, unknownAgrees)
  {
    var destination := Prefix(0x0A00_0000, 8);
    rule := RoutingRule(100, None, Some(destination), "", true, false, false);
    packet := Packet(NamespaceIP(0), 0x0800_0000, "veth");
    assert Pow2(24) == 0x100_0000 by {
      assert Pow2(12) == 4096;
      Pow2Adds(12, 12);
    }
  }

  /** A returning packet of an accepted transfer, from a remote address, meets no earlier matching rule. */
  lemma ReturnIsNotPreempted(rules: seq<RoutingRule>, packet: Packet, priority: int, localAddresses: set<IPv4>)
    requires !AnyPreemptsReturn(rules, packet.destination, packet.inputInterface, priority, localAddresses)
    requires packet.source !in localAddresses
    ensures forall i, unknownAgrees :: 0 <= i < |rules| && Earlier(rules[i], priority) ==>
                                         !KernelMatches(rules[i], packet, unknownAgrees)
  {
    forall i, unknownAgrees | 0 <= i < |rules| && Earlier(rules[i], priority)
      ensures !KernelMatches(rules[i], packet, unknownAgrees)
    {
      assert !PreemptsReturn(rules[i], packet.destination, packet.inputInterface, priority, localAddresses);
      if rules[i].source.Some? && rules[i].source.value.bits == 32 {
        assert rules[i].source.value.BlockSize() == 1;
      }
    }
  }

  /** What makes a subnet unusable for one transfer. */
  datatype Surroundings = Surroundings(
    usedPrefixes: seq<Prefix>,
    connections: set<IPv4>,
    rules: seq<RoutingRule>,
    localAddresses: set<IPv4>)

  predicate OverlapsAny(candidate: Prefix, used: seq<Prefix>) {
    exists i :: 0 <= i < |used| && used[i].bits > 0 && Overlaps(candidate, used[i])
  }

  predicate Acceptable(index: nat, s: Surroundings, hostVeth: string, provider: string, outbound: int, returning: int) {
    && index < SUBNET_COUNT
    && !OverlapsAny(Subnet(index), s.usedPrefixes)
    && !(exists a :: a in s.connections && Subnet(index).Contains(a))
    && !AnyPreemptsOutbound(s.rules, NamespaceIP(index), hostVeth, outbound)
    && !AnyPreemptsReturn(s.rules, NamespaceIP(index), provider, returning, s.localAddresses)
  }

  /** The first acceptable /30 in circular order. */
  method NextTemporarySubnet(s: Surroundings, hostVeth: string, provider: string, outbound: int, returning: int, start: int)
    returns (r: Option<nat>)
    ensures r.Some? ==>
              && Acceptable(r.value, s, hostVeth, provider, outbound, returning)
              && FirstFree(start, SUBNET_COUNT, (i: nat) => Acceptable(i, s, hostVeth, provider, outbound, returning), r.value)
    ensures r.None? <==> forall index: nat :: !Acceptable(index, s, hostVeth, provider, outbound, returning)
  {
    var free := (i: nat) => Acceptable(i, s, hostVeth, provider, outbound, returning);
    r := Search(start, SUBNET_COUNT, free);
    if r.None? {
      forall index: nat ensures !Acceptable(index, s, hostVeth, provider, outbound, returning) {
        if index < SUBNET_COUNT {
          assert !free(index);
        }
      }
    } else {
      assert free(r.value);
    }
  }
}
