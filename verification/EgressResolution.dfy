/**
  Resolution of a source address to one network egress: a walk over Linux policy rules and FIB
  tables in which some rule selectors are unknown, and the concrete kernel walk it stands for.
*/
module EgressResolution {
  import opened Wrappers
  import opened Ipv4

  // ---------------------------------------------------------------- observed facts

  datatype Address = V4(ip: IPv4) | OtherFamily

  datatype Link = Link(index: int, name: string, kind: string, up: bool, loopback: bool,
                       masterIndex: int, operationalState: string)

  datatype LocalAddress = LocalAddress(linkIndex: int, prefix: Prefix)

  datatype RuleAction = Lookup | Blackhole | Unreachable | Prohibit | Continue | UnknownAction

  datatype InputState = InputUnset | InputUnresolved | InputAttached | InputDetached
  datatype InputSelector = InputSelector(name: string, state: InputState, index: int, isL3Master: bool)

  datatype OutputState = OutputUnset | OutputAttached | OutputDetached
  datatype OutputSelector = OutputSelector(name: string, state: OutputState)

  datatype Selector = Selector(kind: nat, attribute: nat, value: seq<nat>)
  datatype Effect = Effect(kind: nat, attribute: nat, value: seq<nat>, flags: nat)

  datatype PolicyRule = PolicyRule(
    priority: int, table: int,
    source: Option<Prefix>, destination: Option<Prefix>,
    inputInterface: InputSelector, outputInterface: OutputSelector,
    unresolvedSelectors: seq<Selector>, unsupportedEffects: seq<Effect>,
    inverted: bool, action: RuleAction)

  datatype RouteKind = Unicast | Throw | RouteUnreachable | RouteBlackhole | RouteProhibit | RouteUnsupported

  datatype Route = Route(table: int, destination: Option<Prefix>, kind: RouteKind, linkIndex: int,
                         gateway: Option<Address>, metric: int)

  const NO_INPUT := InputSelector("", InputUnset, 0, false)
  const NO_OUTPUT := OutputSelector("", OutputUnset)

  // Linux uses the loopback index as the input interface of locally originated lookups.
  const LOCAL_OUTPUT_INPUT_INDEX := 1

  datatype Snapshot = Snapshot(links: seq<Link>, addresses: seq<LocalAddress>, rules: seq<PolicyRule>, routes: seq<Route>)

  /** A capture as newSnapshot leaves it: rules by priority, routes as `LessRoute` orders them. */
  ghost predicate SortedFacts(s: Snapshot) {
    && (forall i, j :: 0 <= i < j < |s.rules| ==> s.rules[i].priority <= s.rules[j].priority)
    && (forall i, j :: 0 <= i < j < |s.routes| ==> !LessRoute(s.routes[j], s.routes[i]))
    && (forall r :: r in s.rules ==> r.destination.Some? ==> r.destination.value.bits <= 32)
  }

  function MaskLength(p: Option<Prefix>): int {
    match p case Some(prefix) => prefix.bits case None => -1
  }

  function RouteKindRank(kind: RouteKind): nat {
    match kind
    case Unicast => 0 case Throw => 1 case RouteUnreachable => 2
    case RouteBlackhole => 3 case RouteProhibit => 4 case RouteUnsupported => 5
  }

  predicate LessRoute(left: Route, right: Route) {
    if left.table != right.table then left.table < right.table
    else if MaskLength(left.destination) != MaskLength(right.destination) then
      MaskLength(left.destination) > MaskLength(right.destination)
    else if left.metric != right.metric then left.metric < right.metric
    else if left.kind != right.kind then RouteKindRank(left.kind) < RouteKindRank(right.kind)
    else left.linkIndex < right.linkIndex
  }

  // ---------------------------------------------------------------- three-valued rule match

  datatype RuleMatch = DoesNotMatch | Matches | MayMatch

  /** (matches, known) for the input interface of a rule. */
  function InputMatchesLocalOutput(selector: InputSelector): (bool, bool) {
    if selector.isL3Master then (false, false)
    else match selector.state
      case InputAttached =>
        if selector.index <= 0 then (false, false) else (selector.index == LOCAL_OUTPUT_INPUT_INDEX, true)
      case InputDetached => if selector.index != -1 then (false, false) else (false, true)
      case _ => (false, false)
  }

  function InputIsKnownMismatch(rule: PolicyRule): bool {
    rule.inputInterface.name != "" && InputMatchesLocalOutput(rule.inputInterface) == (false, true)
  }

  function InputIsUndecidable(rule: PolicyRule): bool {
    if rule.inputInterface.name != "" then !InputMatchesLocalOutput(rule.inputInterface).1
    else rule.inputInterface != NO_INPUT
  }

  function MatchLocalOutputRule(rule: PolicyRule, source: IPv4): RuleMatch {
    var nonmatching := (rule.source.Some? && !rule.source.value.Contains(source)) || InputIsKnownMismatch(rule);
    var undecidable :=
      || (rule.destination.Some? && rule.destination.value.bits > 0)
      || InputIsUndecidable(rule)
      || rule.outputInterface.name != "" || rule.outputInterface != NO_OUTPUT
      || |rule.unresolvedSelectors| > 0;
    if nonmatching then (if rule.inverted then Matches else DoesNotMatch)
    else if undecidable then MayMatch
    else if rule.inverted then DoesNotMatch
    else Matches
  }

  // ---------------------------------------------------------------- the kernel's concrete walk

  /** What the observer of the rules cannot know about a packet. */
  datatype Condition = OnInput(input: InputSelector) | OnOutput(output: OutputSelector) | OnSelector(selector: Selector)

  /**
    A locally originated packet: `holds` says which conditions on marks, type of service, user,
    transport, tunnel, output interface and unidentified input interface it happens to meet.
  */
  datatype Packet = Packet(source: IPv4, destination: IPv4, holds: Condition -> bool)

  ghost predicate InputHolds(selector: InputSelector, p: Packet) {
    if selector == NO_INPUT then true
    else if selector.name != "" && !selector.isL3Master && selector.state == InputAttached && selector.index > 0 then
      // bound to a known device: compared with the device local output is looked up with
      selector.index == LOCAL_OUTPUT_INPUT_INDEX
    else if selector.name != "" && !selector.isL3Master && selector.state == InputDetached && selector.index == -1 then
      // names a device that does not exist
      false
    else p.holds(OnInput(selector))
  }

  ghost predicate KernelConditions(rule: PolicyRule, p: Packet) {
    && (rule.source.Some? ==> rule.source.value.Contains(p.source))
    && (rule.destination.Some? ==> rule.destination.value.Contains(p.destination))
    && InputHolds(rule.inputInterface, p)
    && (rule.outputInterface == NO_OUTPUT || p.holds(OnOutput(rule.outputInterface)))
    && (forall i :: 0 <= i < |rule.unresolvedSelectors| ==> p.holds(OnSelector(rule.unresolvedSelectors[i])))
  }

  ghost predicate KernelMatches(rule: PolicyRule, p: Packet) {
    if rule.inverted then !KernelConditions(rule, p) else KernelConditions(rule, p)
  }

  datatype Outcome =
    | Routed(linkIndex: int, table: int, gateway: Option<Address>)
    | Rejected(action: RuleAction)
    | RouteRejected(kind: RouteKind)
    | Unrouted

  ghost predicate Covers(r: Route, table: int, destination: IPv4) {
    r.table == table && r.destination.Some? && r.destination.value.Contains(destination)
  }

  /** `r` is a longest-prefix match of least metric; among equals the kernel may pick any. */
  ghost predicate Best(routes: seq<Route>, table: int, destination: IPv4, r: Route) {
    && r in routes && Covers(r, table, destination)
    && forall o :: o in routes && Covers(o, table, destination) ==>
         || o.destination.value.bits < r.destination.value.bits
         || (o.destination.value.bits == r.destination.value.bits && o.metric >= r.metric)
  }

  /** The walk over `rules` from position `i` can end in `out`. */
  ghost predicate WalkEnds(rules: seq<PolicyRule>, i: nat, routes: seq<Route>, p: Packet, out: Outcome)
    decreases |rules| - i
  {
    if i >= |rules| then out == Unrouted
    else if !KernelMatches(rules[i], p) then WalkEnds(rules, i + 1, routes, p, out)
    // goto, route suppression and unknown flags may do anything
    else if rules[i].unsupportedEffects != [] then true
    else match rules[i].action
      case Continue => WalkEnds(rules, i + 1, routes, p, out)
      case Lookup =>
        || ((forall r :: !Best(routes, rules[i].table, p.destination, r)) && WalkEnds(rules, i + 1, routes, p, out))
        || (exists r :: Best(routes, rules[i].table, p.destination, r) &&
              match r.kind
              case Throw => WalkEnds(rules, i + 1, routes, p, out)
              case Unicast => out == Routed(r.linkIndex, r.table, r.gateway)
              case RouteUnsupported => true
              case _ => out == RouteRejected(r.kind))
      case UnknownAction => true
      case _ => out == Rejected(rules[i].action)
  }

  /** The kernel's own list: the same rules, by priority, in any order within a priority. */
  ghost predicate KernelOrder(kernel: seq<PolicyRule>, rules: seq<PolicyRule>) {
    && (forall i, j :: 0 <= i < j < |kernel| ==> kernel[i].priority <= kernel[j].priority)
    && (forall r :: r in kernel <==> r in rules)
  }

  /** Only default routes cover the destination. */
  ghost predicate NoMoreSpecificRoute(routes: seq<Route>, destination: IPv4) {
    forall r :: r in routes && r.destination.Some? && r.destination.value.bits > 0 ==>
                  !r.destination.value.Contains(destination)
  }

  // ---------------------------------------------------------------- soundness of the match

  lemma {:induction false} MatchIsSound(rule: PolicyRule, p: Packet)
    ensures MatchLocalOutputRule(rule, p.source) == Matches ==> KernelMatches(rule, p)
    ensures MatchLocalOutputRule(rule, p.source) == DoesNotMatch ==> !KernelMatches(rule, p)
  {
    if rule.destination.Some? && rule.destination.value.bits == 0 {
      DefaultContainsEverything(rule.destination.value, p.destination);
    }
  }

  /** "May" is not a loss of precision: some packet matches and another does not. */
  lemma MatchIsExact(rule: PolicyRule, source: IPv4) returns (inside: Packet, outside: Packet)
    requires MatchLocalOutputRule(rule, source) == MayMatch
    requires rule.destination.Some? ==> rule.destination.value.bits <= 32
    ensures inside.source == source && KernelConditions(rule, inside)
    ensures outside.source == source && !KernelConditions(rule, outside)
    ensures KernelMatches(rule, inside) != KernelMatches(rule, outside)
  {
    var all := (c: Condition) => true;
    var none := (c: Condition) => false;
    inside := Packet(source, if rule.destination.Some? then rule.destination.value.address else 0, all);
    if rule.destination.Some? && rule.destination.value.bits > 0 {
      var elsewhere := MaskedPrefixExcludes(rule.destination.value);
      outside := Packet(source, elsewhere, all);
    } else {
      outside := Packet(source, 0, none);
      if |rule.unresolvedSelectors| > 0 {
        assert !outside.holds(OnSelector(rule.unresolvedSelectors[0]));
      }
    }
  }

  // ---------------------------------------------------------------- what decides an egress

  ghost predicate IsDefault(r: Route, table: int) {
    r.table == table && r.destination.Some? && r.destination.value.bits == 0
  }

  ghost predicate BestDefault(s: Snapshot, table: int, r: Route) {
    && r in s.routes && IsDefault(r, table)
    && forall o :: o in s.routes && IsDefault(o, table) ==> r.metric <= o.metric
  }

  predicate SameRoute(a: Route, b: Route) {
    a.kind == b.kind && a.linkIndex == b.linkIndex && a.gateway == b.gateway
  }

  ghost predicate HasDefault(s: Snapshot, table: int) {
    exists r :: r in s.routes && IsDefault(r, table)
  }

  /** All best default routes of the table are interchangeable with `r`. */
  ghost predicate TableLeadsTo(s: Snapshot, table: int, r: Route) {
    BestDefault(s, table, r) && forall o :: BestDefault(s, table, o) ==> SameRoute(o, r)
  }

  ghost predicate TableFallsThrough(s: Snapshot, table: int) {
    !HasDefault(s, table) || exists r :: TableLeadsTo(s, table, r) && r.kind == Throw
  }

  /** Local output certainly goes past this rule. */
  ghost predicate Passes(s: Snapshot, source: IPv4, rule: PolicyRule) {
    match MatchLocalOutputRule(rule, source)
    case DoesNotMatch => true
    case MayMatch => false
    case Matches =>
      && rule.unsupportedEffects == []
      && (rule.action == Continue || (rule.action == Lookup && TableFallsThrough(s, rule.table)))
  }

  /** No two different rules of the priority both match. */
  ghost predicate Unambiguous(s: Snapshot, source: IPv4, priority: int) {
    forall a, b :: && a in s.rules && b in s.rules && a.priority == b.priority == priority
                   && MatchLocalOutputRule(a, source) == Matches && MatchLocalOutputRule(b, source) == Matches
                   ==> a == b
  }

  /** Rule `rule` is certainly the one that handles local output from `source`. */
  ghost predicate Decides(s: Snapshot, source: IPv4, rule: PolicyRule) {
    && rule in s.rules
    && MatchLocalOutputRule(rule, source) == Matches
    && (forall r :: r in s.rules && r.priority < rule.priority ==>
          Passes(s, source, r) && Unambiguous(s, source, r.priority))
    && (forall r :: r in s.rules && r.priority == rule.priority ==> MatchLocalOutputRule(r, source) != MayMatch)
    && Unambiguous(s, source, rule.priority)
  }

  // ---------------------------------------------------------------- soundness of the walk

  lemma {:induction false} BestIsBestDefault(s: Snapshot, routes: seq<Route>, table: int, destination: IPv4)
    requires forall r :: r in routes <==> r in s.routes
    requires NoMoreSpecificRoute(s.routes, destination)
    ensures forall r :: Best(routes, table, destination, r) <==> BestDefault(s, table, r)
  {
    forall r | r in s.routes ensures Covers(r, table, destination) <==> IsDefault(r, table) {
      if r.destination.Some? && r.destination.value.bits == 0 {
        DefaultContainsEverything(r.destination.value, destination);
      }
    }
  }

  ghost predicate SameRoutes(s: Snapshot, routes: seq<Route>) {
    forall r :: r in routes <==> r in s.routes
  }

  /** A packet goes past a rule that `Passes`. */
  lemma PassedRuleIsSkipped(s: Snapshot, kernel: seq<PolicyRule>, i: nat, routes: seq<Route>, p: Packet, out: Outcome)
    requires i < |kernel| && Passes(s, p.source, kernel[i])
    requires SameRoutes(s, routes) && NoMoreSpecificRoute(s.routes, p.destination)
    ensures WalkEnds(kernel, i, routes, p, out) <==> WalkEnds(kernel, i + 1, routes, p, out)
  {
    var rule := kernel[i];
    MatchIsSound(rule, p);
    if KernelMatches(rule, p) && rule.action == Lookup {
      BestIsBestDefault(s, routes, rule.table, p.destination);
      if HasDefault(s, rule.table) {
        var r :| TableLeadsTo(s, rule.table, r) && r.kind == Throw;
        assert Best(routes, rule.table, p.destination, r);
        assert forall o :: Best(routes, rule.table, p.destination, o) ==> o.kind == Throw;
      } else {
        assert forall r :: !Best(routes, rule.table, p.destination, r);
      }
    }
  }

  /** What a default route does to a packet; a throw route does nothing. */
  ghost predicate RouteGives(r: Route, table: int, out: Outcome) {
    match r.kind
    case Unicast => out == Routed(r.linkIndex, table, r.gateway)
    case Throw => false
    case RouteUnsupported => false
    case _ => out == RouteRejected(r.kind)
  }

  /** What the deciding rule does to a packet. */
  ghost predicate RuleOutcome(s: Snapshot, rule: PolicyRule, out: Outcome) {
    && rule.unsupportedEffects == []
    && match rule.action
       case Lookup => exists r :: TableLeadsTo(s, rule.table, r) && RouteGives(r, rule.table, out)
       case Continue => false
       case UnknownAction => false
       case _ => out == Rejected(rule.action)
  }

  lemma {:induction false} DecidingRuleActs(s: Snapshot, kernel: seq<PolicyRule>, i: nat, routes: seq<Route>, p: Packet,
                         expected: Outcome, out: Outcome)
    requires i < |kernel| && MatchLocalOutputRule(kernel[i], p.source) == Matches
    requires RuleOutcome(s, kernel[i], expected)
    requires SameRoutes(s, routes) && NoMoreSpecificRoute(s.routes, p.destination)
    ensures WalkEnds(kernel, i, routes, p, out) <==> out == expected
  {
    MatchIsSound(kernel[i], p);
    if kernel[i].action == Lookup {
      var r :| TableLeadsTo(s, kernel[i].table, r) && RouteGives(r, kernel[i].table, expected);
      InterchangeableRoutes(s, routes, kernel[i].table, p.destination, r);
    }
  }

  lemma InterchangeableRoutes(s: Snapshot, routes: seq<Route>, table: int, destination: IPv4, r: Route)
    requires TableLeadsTo(s, table, r) && SameRoutes(s, routes) && NoMoreSpecificRoute(s.routes, destination)
    ensures Best(routes, table, destination, r)
    ensures forall o :: Best(routes, table, destination, o) ==> SameRoute(o, r) && o.table == table
  {
    BestIsBestDefault(s, routes, table, destination);
  }

  /** From any position up to the deciding rule's priority, the walk ends as the deciding rule says. */
  lemma {:induction false} WalkIsDecided(s: Snapshot, kernel: seq<PolicyRule>, i: nat, routes: seq<Route>, p: Packet,
                                         rule: PolicyRule, expected: Outcome, out: Outcome)
    requires KernelOrder(kernel, s.rules) && SameRoutes(s, routes)
    requires NoMoreSpecificRoute(s.routes, p.destination)
    requires Decides(s, p.source, rule) && RuleOutcome(s, rule, expected)
    requires i <= |kernel| && rule in kernel[i..]
    ensures WalkEnds(kernel, i, routes, p, out) <==> out == expected
    decreases |kernel| - i
  {
    NextInKernel(s, kernel, i, rule);
    if kernel[i] == rule {
      DecidingRuleActs(s, kernel, i, routes, p, expected, out);
    } else {
      EarlierRulePasses(s, p.source, kernel[i], rule);
      PassedRuleIsSkipped(s, kernel, i, routes, p, out);
      WalkIsDecided(s, kernel, i + 1, routes, p, rule, expected, out);
    }
  }

  /** The rule at hand comes no later than one still ahead. */
  lemma NextInKernel(s: Snapshot, kernel: seq<PolicyRule>, i: nat, rule: PolicyRule)
    requires KernelOrder(kernel, s.rules) && i <= |kernel| && rule in kernel[i..]
    ensures i < |kernel| && kernel[i] in s.rules && kernel[i].priority <= rule.priority
    ensures kernel[i] == rule || rule in kernel[i + 1..]
  {
    var position :| i <= position < |kernel| && kernel[position] == rule;
    assert kernel[i] in kernel;
    assert position > i ==> kernel[i + 1..][position - i - 1] == rule;
  }

  /** Every other rule up to the deciding one's priority lets its packets pass. */
  lemma EarlierRulePasses(s: Snapshot, source: IPv4, current: PolicyRule, rule: PolicyRule)
    requires Decides(s, source, rule) && current in s.rules && current.priority <= rule.priority && current != rule
    ensures Passes(s, source, current)
  {
    if current.priority == rule.priority {
      assert Unambiguous(s, source, rule.priority);
    }
  }

  /**
    Every packet the deciding rule's source can send, in every kernel order, ends exactly one way.
  */
  lemma {:induction false} DecidedWalk(s: Snapshot, kernel: seq<PolicyRule>, routes: seq<Route>, p: Packet,
                                       rule: PolicyRule, expected: Outcome)
    requires KernelOrder(kernel, s.rules) && SameRoutes(s, routes)
    requires NoMoreSpecificRoute(s.routes, p.destination)
    requires Decides(s, p.source, rule) && RuleOutcome(s, rule, expected)
    ensures forall out :: WalkEnds(kernel, 0, routes, p, out) <==> out == expected
  {
    forall out ensures WalkEnds(kernel, 0, routes, p, out) <==> out == expected {
      assert kernel[0..] == kernel;
      WalkIsDecided(s, kernel, 0, routes, p, rule, expected, out);
    }
  }

  // ---------------------------------------------------------------- the resolver

  datatype Reason =
    | NotIPv4
    | NotLocal
    | ConflictingFacts
    | MissingInterface
    | InterfaceUnavailable
    | LoopbackInterface
    | VrfTopology
    | UndecidableRule
    | AmbiguousRules(priority: int)
    | UnsupportedEffect
    | RuleActionIs(action: RuleAction)
    | UnsupportedAction
    | AmbiguousRoutes(table: int)
    | RouteActionIs(kind: RouteKind)
    | UnsupportedRoute
    | OutputUnavailable
    | InvalidGateway
    | NoUsableDefault

  datatype Egress = Runnable(link: Link, table: int, gateway: Option<Address>) | Refused(reason: Reason)

  datatype Step = Finished(egress: Egress) | GoOn

  /** The link with the index; a repeated index names its last observation. */
  function LinkAt(links: seq<Link>, index: int): (r: Option<Link>)
    ensures r.Some? ==> r.value in links && r.value.index == index
  {
    if links == [] then None
    else if links[|links| - 1].index == index then Some(links[|links| - 1])
    else LinkAt(links[..|links| - 1], index)
  }

  predicate Available(link: Link) {
    link.up && link.operationalState in {"", "up", "unknown"}
  }

  predicate InVrf(links: seq<Link>, link: Link) {
    || link.kind == "vrf"
    || (match LinkAt(links, link.masterIndex) case Some(master) => master.kind == "vrf" case None => false)
  }

  predicate IsInvalidGateway(address: Address) {
    match address
    case OtherFamily => true
    case V4(ip) => ip == 0 || ip / 0x100_0000 == 127 || ip / 0x1000_0000 == 14 || ip == 0xFFFF_FFFF
  }

  function RunnableRoute(s: Snapshot, route: Route): Egress {
    match LinkAt(s.links, route.linkIndex)
    case None => Refused(OutputUnavailable)
    case Some(link) =>
      if link.index <= 0 || link.name == "" then Refused(OutputUnavailable)
      else if !Available(link) then Refused(InterfaceUnavailable)
      else if InVrf(s.links, link) then Refused(VrfTopology)
      else if route.gateway.Some? && IsInvalidGateway(route.gateway.value) then Refused(InvalidGateway)
      else Runnable(link, route.table, route.gateway)
  }

  function ApplyRoute(s: Snapshot, route: Route): Step {
    match route.kind
    case Throw => GoOn
    case RouteUnreachable => Finished(Refused(RouteActionIs(route.kind)))
    case RouteBlackhole => Finished(Refused(RouteActionIs(route.kind)))
    case RouteProhibit => Finished(Refused(RouteActionIs(route.kind)))
    case Unicast => Finished(RunnableRoute(s, route))
    case RouteUnsupported => Finished(Refused(UnsupportedRoute))
  }

  method DefaultRoutes(s: Snapshot, table: int) returns (result: seq<Route>)
    ensures forall r :: r in result <==> r in s.routes && IsDefault(r, table)
    ensures (forall i, j :: 0 <= i < j < |s.routes| ==> !LessRoute(s.routes[j], s.routes[i])) ==>
              forall i, j :: 0 <= i < j < |result| ==> result[i].metric <= result[j].metric
  {
    result := [];
    var index := 0;
    while index < |s.routes|
      invariant 0 <= index <= |s.routes|
      invariant forall r :: r in result <==> exists i :: 0 <= i < index && s.routes[i] == r && IsDefault(r, table)
      invariant (forall i, j :: 0 <= i < j < |s.routes| ==> !LessRoute(s.routes[j], s.routes[i])) ==>
                  forall i, j :: 0 <= i < j < |result| ==> result[i].metric <= result[j].metric
    {
      var route := s.routes[index];
      if route.table == table && route.destination.Some? && route.destination.value.bits == 0 {
        forall i | 0 <= i < |result|
          ensures (forall i, j :: 0 <= i < j < |s.routes| ==> !LessRoute(s.routes[j], s.routes[i])) ==>
                    result[i].metric <= route.metric
        {
          assert result[i] in result;
        }
        result := result + [route];
      }
      index := index + 1;
    }
  }

  method EqualMetricRoutes(routes: seq<Route>) returns (best: seq<Route>)
    requires |routes| > 0
    ensures best <= routes && |best| > 0
    ensures forall r :: r in best ==> r.metric == routes[0].metric
    ensures |best| < |routes| ==> routes[|best|].metric != routes[0].metric
  {
    var end := 1;
    while end < |routes| && routes[end].metric == routes[0].metric
      invariant 1 <= end <= |routes|
      invariant forall i :: 0 <= i < end ==> routes[i].metric == routes[0].metric
    {
      end := end + 1;
    }
    best := routes[..end];
  }

  method EquivalentRoutes(routes: seq<Route>) returns (equivalent: bool)
    requires |routes| > 0
    ensures equivalent <==> forall r :: r in routes ==> SameRoute(r, routes[0])
  {
    var index := 1;
    while index < |routes|
      invariant 1 <= index <= |routes|
      invariant forall i :: 0 <= i < index ==> SameRoute(routes[i], routes[0])
    {
      if !SameRoute(routes[index], routes[0]) {
        assert routes[index] in routes;
        return false;
      }
      index := index + 1;
    }
    return true;
  }

  /** What looking the table up does, in terms of the facts alone. */
  ghost predicate TableStep(s: Snapshot, table: int, step: Step) {
    if !HasDefault(s, table) then step == GoOn
    else if exists r :: TableLeadsTo(s, table, r) then exists r :: TableLeadsTo(s, table, r) && step == ApplyRoute(s, r)
    else step == Finished(Refused(AmbiguousRoutes(table)))
  }

  method LookupTable(s: Snapshot, table: int) returns (step: Step)
    requires SortedFacts(s)
    ensures TableStep(s, table, step)
  {
    var candidates := DefaultRoutes(s, table);
    if |candidates| == 0 {
      forall r ensures !(r in s.routes && IsDefault(r, table)) {
        assert r !in candidates;
      }
      return GoOn;
    }
    assert candidates[0] in candidates;
    var best := EqualMetricRoutes(candidates);
    BestAreFirst(s, table, candidates, best);
    if |best| > 1 {
      var equivalent := EquivalentRoutes(best);
      if !equivalent {
        var first := best[0];
        var other :| other in best && !SameRoute(other, first);
        assert first in best;
        assert forall r :: TableLeadsTo(s, table, r) ==> SameRoute(other, r) && SameRoute(first, r);
        return Finished(Refused(AmbiguousRoutes(table)));
      }
    }
    assert best[0] in best;
    assert TableLeadsTo(s, table, best[0]);
    step := ApplyRoute(s, best[0]);
  }

  /** The best default routes of a table are the leading candidates of the first metric. */
  lemma BestAreFirst(s: Snapshot, table: int, candidates: seq<Route>, best: seq<Route>)
    requires |candidates| > 0 && forall r :: r in candidates <==> r in s.routes && IsDefault(r, table)
    requires forall i, j :: 0 <= i < j < |candidates| ==> candidates[i].metric <= candidates[j].metric
    requires best <= candidates && |best| > 0
    requires forall r :: r in best ==> r.metric == candidates[0].metric
    requires |best| < |candidates| ==> candidates[|best|].metric != candidates[0].metric
    ensures forall r :: r in best <==> BestDefault(s, table, r)
    ensures HasDefault(s, table)
  {
    assert candidates[0] in candidates;
    assert |best| < |candidates| ==> candidates[|best|].metric > candidates[0].metric;
    forall r | r in best ensures BestDefault(s, table, r) {
      assert r in candidates;
    }
    forall r | BestDefault(s, table, r) ensures r in best {
      assert r in candidates;
      var k :| 0 <= k < |candidates| && candidates[k] == r;
      if k >= |best| {
        assert false;
      }
      assert best[k] == r;
    }
  }

  /** What applying a matching rule does, in terms of the facts alone. */
  ghost predicate RuleStep(s: Snapshot, rule: PolicyRule, step: Step) {
    if rule.unsupportedEffects != [] then step == Finished(Refused(UnsupportedEffect))
    else match rule.action
      case Continue => step == GoOn
      case Lookup => TableStep(s, rule.table, step)
      case UnknownAction => step == Finished(Refused(UnsupportedAction))
      case _ => step == Finished(Refused(RuleActionIs(rule.action)))
  }

  method ApplyRule(s: Snapshot, rule: PolicyRule) returns (step: Step)
    requires SortedFacts(s)
    ensures RuleStep(s, rule, step)
  {
    if |rule.unsupportedEffects| != 0 {
      return Finished(Refused(UnsupportedEffect));
    }
    match rule.action {
      case Continue => return GoOn;
      case Blackhole => return Finished(Refused(RuleActionIs(rule.action)));
      case Unreachable => return Finished(Refused(RuleActionIs(rule.action)));
      case Prohibit => return Finished(Refused(RuleActionIs(rule.action)));
      case Lookup => step := LookupTable(s, rule.table);
      case UnknownAction => return Finished(Refused(UnsupportedAction));
    }
  }

  lemma TableStepIsUnique(s: Snapshot, table: int, a: Step, b: Step)
    requires TableStep(s, table, a) && TableStep(s, table, b)
    ensures a == b
    ensures a == GoOn <==> TableFallsThrough(s, table)
  {
    if HasDefault(s, table) && exists r :: TableLeadsTo(s, table, r) {
      var r :| TableLeadsTo(s, table, r) && a == ApplyRoute(s, r);
      var t :| TableLeadsTo(s, table, t) && b == ApplyRoute(s, t);
      LeadingRoutesAreSame(s, table, r, t);
      FallsThroughWith(s, table, r);
    }
  }

  lemma LeadingRoutesAreSame(s: Snapshot, table: int, r: Route, t: Route)
    requires TableLeadsTo(s, table, r) && TableLeadsTo(s, table, t)
    ensures SameRoute(r, t) && r.table == t.table
  {
  }

  lemma FallsThroughWith(s: Snapshot, table: int, r: Route)
    requires TableLeadsTo(s, table, r) && HasDefault(s, table)
    ensures TableFallsThrough(s, table) <==> r.kind == Throw
  {
    forall t | TableLeadsTo(s, table, t) ensures SameRoute(t, r) {
      LeadingRoutesAreSame(s, table, t, r);
    }
  }

  /** A matching rule either lets local output pass or finishes with one answer. */
  lemma RuleStepIsUnique(s: Snapshot, source: IPv4, rule: PolicyRule, a: Step, b: Step)
    requires RuleStep(s, rule, a) && RuleStep(s, rule, b)
    requires MatchLocalOutputRule(rule, source) == Matches
    ensures a == b
    ensures a == GoOn <==> Passes(s, source, rule)
  {
    if rule.unsupportedEffects == [] && rule.action == Lookup {
      TableStepIsUnique(s, rule.table, a, b);
    }
  }

  /** Positions start up to end hold one priority, and it does not continue. */
  ghost predicate IsGroup(rules: seq<PolicyRule>, start: nat, end: nat) {
    && start < end <= |rules|
    && (forall i :: start <= i < end ==> rules[i].priority == rules[start].priority)
    && (end < |rules| ==> rules[end].priority != rules[start].priority)
  }

  method EqualPriorityEnd(rules: seq<PolicyRule>, start: nat) returns (end: nat)
    requires start < |rules|
    ensures IsGroup(rules, start, end)
  {
    end := start + 1;
    while end < |rules| && rules[end].priority == rules[start].priority
      invariant start < end <= |rules|
      invariant forall i :: start <= i < end ==> rules[i].priority == rules[start].priority
    {
      end := end + 1;
    }
  }

  method EquivalentRules(rules: seq<PolicyRule>) returns (equivalent: bool)
    requires |rules| > 0
    ensures equivalent <==> forall r :: r in rules ==> r == rules[0]
  {
    var index := 1;
    while index < |rules|
      invariant 1 <= index <= |rules|
      invariant forall i :: 0 <= i < index ==> rules[i] == rules[0]
    {
      if rules[index] != rules[0] {
        assert rules[index] in rules;
        return false;
      }
      index := index + 1;
    }
    return true;
  }

  /** Rule `rule` decides and finishes with `egress`. */
  ghost predicate DecidesOn(s: Snapshot, source: IPv4, rule: PolicyRule, egress: Egress) {
    Decides(s, source, rule) && RuleStep(s, rule, Finished(egress))
  }

  /** All rules before position `index` let local output pass, and the position starts a new priority. */
  ghost predicate PassedUpTo(s: Snapshot, source: IPv4, index: nat) {
    && index <= |s.rules|
    && (0 < index < |s.rules| ==> s.rules[index - 1].priority < s.rules[index].priority)
    && (forall k :: 0 <= k < index ==> Passes(s, source, s.rules[k]) && Unambiguous(s, source, s.rules[k].priority))
  }

  /** The rules of one priority, examined up to position `j`: none may match, `applicable` match. */
  ghost predicate Examined(s: Snapshot, source: IPv4, index: nat, j: nat, applicable: seq<PolicyRule>) {
    && index <= j <= |s.rules|
    && (forall k :: index <= k < j ==> MatchLocalOutputRule(s.rules[k], source) != MayMatch)
    && (forall r :: r in applicable <==>
          exists k :: index <= k < j && s.rules[k] == r && MatchLocalOutputRule(r, source) == Matches)
  }

  /** What the resolver must answer: the deciding rule's answer, and no egress when no rule decides. */
  ghost predicate ResolvedTo(s: Snapshot, source: IPv4, egress: Egress) {
    && (forall rule, e :: DecidesOn(s, source, rule, e) ==> egress == e)
    && (egress.Runnable? || egress.reason.RuleActionIs? || egress.reason.RouteActionIs? ==>
          exists rule :: DecidesOn(s, source, rule, egress))
    && (egress == Refused(NoUsableDefault) ==> PassedUpTo(s, source, |s.rules|))
  }

  /** Matches the rules of one priority in order; `undecidable` when one of them may match. */
  method ExamineGroup(s: Snapshot, source: IPv4, index: nat, end: nat)
    returns (applicable: seq<PolicyRule>, undecidable: Option<nat>)
    requires index < end <= |s.rules|
    ensures undecidable.None? ==> Examined(s, source, index, end, applicable)
    ensures undecidable.Some? ==> index <= undecidable.value < end
                                  && MatchLocalOutputRule(s.rules[undecidable.value], source) == MayMatch
  {
    applicable := [];
    var j := index;
    while j < end
      invariant j <= end && Examined(s, source, index, j, applicable)
    {
      var rule := s.rules[j];
      var outcome := MatchLocalOutputRule(rule, source);
      if outcome == MayMatch {
        return applicable, Some(j);
      }
      if outcome == Matches {
        applicable := applicable + [rule];
      }
      j := j + 1;
    }
    undecidable := None;
  }

  method ResolveRules(s: Snapshot, source: IPv4) returns (egress: Egress)
    requires SortedFacts(s)
    ensures ResolvedTo(s, source, egress)
  {
    var index := 0;
    while index < |s.rules|
      invariant PassedUpTo(s, source, index)
    {
      var end := EqualPriorityEnd(s.rules, index);
      var step := ResolveGroup(s, source, index, end);
      if step.Finished? {
        return step.egress;
      }
      index := end;
    }
    egress := Refused(NoUsableDefault);
    AllPassedMeansUndecided(s, source);
  }

  /** The rules of one priority: they finish the search or all let local output pass. */
  method ResolveGroup(s: Snapshot, source: IPv4, index: nat, end: nat) returns (step: Step)
    requires SortedFacts(s) && PassedUpTo(s, source, index) && IsGroup(s.rules, index, end)
    ensures step.Finished? ==> ResolvedTo(s, source, step.egress)
    ensures step.GoOn? ==> PassedUpTo(s, source, end)
  {
    var applicable, undecidable := ExamineGroup(s, source, index, end);
    if undecidable.Some? {
      UndecidableMeansUndecided(s, source, index, undecidable.value);
      return Finished(Refused(UndecidableRule));
    }
    if |applicable| > 1 {
      var equivalent := EquivalentRules(applicable);
      if !equivalent {
        AmbiguousMeansUndecided(s, source, index, end, applicable);
        return Finished(Refused(AmbiguousRules(applicable[0].priority)));
      }
    }
    step := GoOn;
    if |applicable| > 0 {
      step := ApplyRule(s, applicable[0]);
    }
    if step.Finished? {
      GroupDecides(s, source, index, end, applicable, step.egress);
    } else {
      GroupPasses(s, source, index, end, applicable);
    }
  }

  lemma AllPassedMeansUndecided(s: Snapshot, source: IPv4)
    requires PassedUpTo(s, source, |s.rules|)
    ensures ResolvedTo(s, source, Refused(NoUsableDefault))
  {
    forall rule, e ensures !DecidesOn(s, source, rule, e) {
      if DecidesOn(s, source, rule, e) {
        RuleStepIsUnique(s, source, rule, Finished(e), Finished(e));
        assert false;
      }
    }
  }

  /** No rule that decides lies among those passed. */
  lemma DecidingRuleIsLater(s: Snapshot, source: IPv4, index: nat, rule: PolicyRule, e: Egress)
    requires SortedFacts(s) && PassedUpTo(s, source, index) && index < |s.rules|
    requires DecidesOn(s, source, rule, e)
    ensures rule.priority >= s.rules[index].priority
  {
    var k :| 0 <= k < |s.rules| && s.rules[k] == rule;
    RuleStepIsUnique(s, source, rule, Finished(e), Finished(e));
    assert k >= index;
  }

  lemma UndecidableMeansUndecided(s: Snapshot, source: IPv4, index: nat, j: nat)
    requires SortedFacts(s) && PassedUpTo(s, source, index) && index <= j < |s.rules|
    requires s.rules[j].priority == s.rules[index].priority
    requires MatchLocalOutputRule(s.rules[j], source) == MayMatch
    ensures ResolvedTo(s, source, Refused(UndecidableRule))
  {
    assert s.rules[j] in s.rules;
    forall rule, e ensures !DecidesOn(s, source, rule, e) {
      if DecidesOn(s, source, rule, e) {
        DecidingRuleIsLater(s, source, index, rule, e);
        assert false;
      }
    }
  }

  /** Up to the deciding rule's priority no two different rules match. */
  lemma DecidedPriorityIsUnambiguous(s: Snapshot, source: IPv4, rule: PolicyRule, earlier: PolicyRule)
    requires Decides(s, source, rule) && earlier in s.rules && earlier.priority <= rule.priority
    ensures Unambiguous(s, source, earlier.priority)
  {
  }

  lemma AmbiguousMeansUndecided(s: Snapshot, source: IPv4, index: nat, end: nat, applicable: seq<PolicyRule>)
    requires SortedFacts(s) && PassedUpTo(s, source, index) && IsGroup(s.rules, index, end)
    requires Examined(s, source, index, end, applicable)
    requires |applicable| > 0 && exists r :: r in applicable && r != applicable[0]
    ensures ResolvedTo(s, source, Refused(AmbiguousRules(applicable[0].priority)))
  {
    var other :| other in applicable && other != applicable[0];
    assert applicable[0] in applicable;
    forall rule, e ensures !DecidesOn(s, source, rule, e) {
      if DecidesOn(s, source, rule, e) {
        DecidingRuleIsLater(s, source, index, rule, e);
        DecidedPriorityIsUnambiguous(s, source, rule, s.rules[index]);
        assert false;
      }
    }
  }

  /** A rule of the group's priority is in the group. */
  lemma GroupHoldsPriority(s: Snapshot, index: nat, end: nat, r: PolicyRule) returns (k: nat)
    requires SortedFacts(s) && IsGroup(s.rules, index, end)
    requires 0 < index ==> s.rules[index - 1].priority < s.rules[index].priority
    requires r in s.rules && r.priority == s.rules[index].priority
    ensures index <= k < end && s.rules[k] == r
  {
    k :| 0 <= k < |s.rules| && s.rules[k] == r;
    assert end < |s.rules| ==> s.rules[index].priority < s.rules[end].priority;
  }

  lemma GroupIsUnambiguous(s: Snapshot, source: IPv4, index: nat, end: nat, applicable: seq<PolicyRule>)
    requires SortedFacts(s) && PassedUpTo(s, source, index) && IsGroup(s.rules, index, end)
    requires Examined(s, source, index, end, applicable)
    requires forall r :: r in applicable ==> r == applicable[0]
    ensures Unambiguous(s, source, s.rules[index].priority)
    ensures forall r :: r in s.rules && r.priority == s.rules[index].priority ==>
                          MatchLocalOutputRule(r, source) != MayMatch
    ensures forall r :: r in s.rules && r.priority == s.rules[index].priority ==>
                          MatchLocalOutputRule(r, source) == Matches ==> r in applicable
  {
    forall r | r in s.rules && r.priority == s.rules[index].priority
      ensures MatchLocalOutputRule(r, source) != MayMatch
      ensures MatchLocalOutputRule(r, source) == Matches ==> r in applicable
    {
      var k := GroupHoldsPriority(s, index, end, r);
    }
  }

  lemma GroupDecides(s: Snapshot, source: IPv4, index: nat, end: nat, applicable: seq<PolicyRule>, egress: Egress)
    requires SortedFacts(s) && PassedUpTo(s, source, index) && IsGroup(s.rules, index, end)
    requires Examined(s, source, index, end, applicable) && |applicable| > 0
    requires forall r :: r in applicable ==> r == applicable[0]
    requires RuleStep(s, applicable[0], Finished(egress))
    ensures ResolvedTo(s, source, egress)
  {
    GroupIsUnambiguous(s, source, index, end, applicable);
    var chosen := applicable[0];
    assert chosen in applicable;
    RuleStepIsUnique(s, source, chosen, Finished(egress), Finished(egress));
    forall r | r in s.rules && r.priority < chosen.priority
      ensures Passes(s, source, r) && Unambiguous(s, source, r.priority)
    {
      var k :| 0 <= k < |s.rules| && s.rules[k] == r;
      assert k < index;
    }
    assert DecidesOn(s, source, chosen, egress);
    if egress == Refused(NoUsableDefault) {
      NeverNoUsableDefault(s, chosen);
      assert false;
    }
    forall rule, e | DecidesOn(s, source, rule, e) ensures egress == e {
      DecidingRuleIsLater(s, source, index, rule, e);
      if rule.priority == chosen.priority {
        assert rule == chosen;
        RuleStepIsUnique(s, source, chosen, Finished(egress), Finished(e));
      } else {
        assert false;
      }
    }
  }

  lemma NeverNoUsableDefault(s: Snapshot, rule: PolicyRule)
    ensures !RuleStep(s, rule, Finished(Refused(NoUsableDefault)))
  {
  }

  lemma {:induction false} GroupPasses(s: Snapshot, source: IPv4, index: nat, end: nat, applicable: seq<PolicyRule>)
    requires SortedFacts(s) && PassedUpTo(s, source, index) && IsGroup(s.rules, index, end)
    requires Examined(s, source, index, end, applicable)
    requires forall r :: r in applicable ==> r == applicable[0]
    requires |applicable| > 0 ==> RuleStep(s, applicable[0], GoOn)
    ensures PassedUpTo(s, source, end)
  {
    GroupIsUnambiguous(s, source, index, end, applicable);
    if |applicable| > 0 {
      assert applicable[0] in applicable;
      RuleStepIsUnique(s, source, applicable[0], GoOn, GoOn);
    }
    forall k | 0 <= k < end ensures Passes(s, source, s.rules[k]) && Unambiguous(s, source, s.rules[k].priority) {
      if k >= index && MatchLocalOutputRule(s.rules[k], source) == Matches {
        assert s.rules[k] in applicable;
      }
    }
  }

  // ---------------------------------------------------------------- one source address

  /** Two observations of the address contradict each other. */
  predicate Conflicting(s: Snapshot, source: IPv4, a: LocalAddress, b: LocalAddress) {
    && a in s.addresses && b in s.addresses && a.prefix.address == source && b.prefix.address == source
    && (a.linkIndex != b.linkIndex || a.prefix.bits != b.prefix.bits)
  }

  /** What the resolver must answer for one selected address. */
  ghost predicate ResolvedOne(s: Snapshot, source: Address, egress: Egress) {
    match source
    case OtherFamily => egress == Refused(NotIPv4)
    case V4(ip) =>
      if forall a :: a in s.addresses ==> a.prefix.address != ip then egress == Refused(NotLocal)
      else if exists a, b :: Conflicting(s, ip, a, b) then egress == Refused(ConflictingFacts)
      else forall a :: a in s.addresses && a.prefix.address == ip ==> ResolvedFrom(s, a, ip, egress)
  }

  ghost predicate ResolvedFrom(s: Snapshot, address: LocalAddress, source: IPv4, egress: Egress) {
    match UnsupportedTopology(s, address)
    case Some(reason) => egress == Refused(reason)
    case None => ResolvedTo(s, source, egress)
  }

  method FindLocalAddress(s: Snapshot, source: IPv4) returns (r: Result<LocalAddress, Reason>)
    ensures r.Ok? ==>
              && r.value in s.addresses && r.value.prefix.address == source
              && forall a :: a in s.addresses && a.prefix.address == source ==>
                   a.linkIndex == r.value.linkIndex && a.prefix.bits == r.value.prefix.bits
    ensures r == Err(NotLocal) <==> forall a :: a in s.addresses ==> a.prefix.address != source
    ensures r == Err(ConflictingFacts) <==> exists a, b :: Conflicting(s, source, a, b)
    ensures r.Err? ==> r.error in {NotLocal, ConflictingFacts}
  {
    var matches: seq<LocalAddress> := [];
    var index := 0;
    while index < |s.addresses|
      invariant 0 <= index <= |s.addresses|
      invariant forall a :: a in matches <==> a in s.addresses[..index] && a.prefix.address == source
    {
      assert s.addresses[..index + 1] == s.addresses[..index] + [s.addresses[index]];
      if s.addresses[index].prefix.address == source {
        matches := matches + [s.addresses[index]];
      }
      index := index + 1;
    }
    assert s.addresses[..index] == s.addresses;
    if |matches| == 0 {
      return Err(NotLocal);
    }
    var first := matches[0];
    assert first in matches;
    index := 1;
    while index < |matches|
      invariant 1 <= index <= |matches|
      invariant forall i :: 0 <= i < index ==>
                              matches[i].linkIndex == first.linkIndex && matches[i].prefix.bits == first.prefix.bits
    {
      if matches[index].linkIndex != first.linkIndex || matches[index].prefix.bits != first.prefix.bits {
        assert matches[index] in matches;
        assert Conflicting(s, source, matches[index], first);
        return Err(ConflictingFacts);
      }
      index := index + 1;
    }
    return Ok(first);
  }

  function UnsupportedTopology(s: Snapshot, address: LocalAddress): Option<Reason> {
    match LinkAt(s.links, address.linkIndex)
    case None => Some(MissingInterface)
    case Some(link) =>
      if !Available(link) then Some(InterfaceUnavailable)
      else if link.loopback then Some(LoopbackInterface)
      else if InVrf(s.links, link) then Some(VrfTopology)
      else None
  }

  method ResolveOne(s: Snapshot, source: Address) returns (egress: Egress)
    requires SortedFacts(s)
    ensures ResolvedOne(s, source, egress)
    ensures egress.Runnable? ==> source.V4?
    ensures source.V4? && egress != Refused(NotLocal) ==> exists a :: a in s.addresses && a.prefix.address == source.ip
    // the answer is what every packet meets, whatever the kernel's order and the packet's unknown attributes
    ensures source.V4? && OutcomeOf(egress).Some? ==> AlwaysEnds(s, source.ip, OutcomeOf(egress).value)
    // a runnable egress is usable
    ensures egress.Runnable? ==>
              && egress.link in s.links && egress.link.name != "" && egress.link.index > 0
              && Available(egress.link) && !InVrf(s.links, egress.link)
              && (egress.gateway.Some? ==> !IsInvalidGateway(egress.gateway.value))
    // past the address checks, no deciding rule is overlooked
    ensures source.V4? && egress.Refused? && egress.reason in {UndecidableRule, NoUsableDefault} ==>
              forall rule, e :: !DecidesOn(s, source.ip, rule, e)
  {
    if source == OtherFamily {
      return Refused(NotIPv4);
    }
    var address := FindLocalAddress(s, source.ip);
    if address.Err? {
      return Refused(address.error);
    }
    var reason := UnsupportedTopology(s, address.value);
    SameTopology(s, source.ip, address.value);
    if reason.Some? {
      return Refused(reason.value);
    }
    egress := ResolveRules(s, source.ip);
    ResolvedAnswerIsSound(s, source.ip, egress);
    if egress.Refused? && egress.reason in {UndecidableRule, NoUsableDefault} {
      NeverUndecided(s, source.ip, egress);
    }
  }

  /** All observations of an address without a conflict say the same of it. */
  lemma SameTopology(s: Snapshot, source: IPv4, address: LocalAddress)
    requires !exists a, b :: Conflicting(s, source, a, b)
    requires address in s.addresses && address.prefix.address == source
    ensures forall a :: a in s.addresses && a.prefix.address == source ==> UnsupportedTopology(s, a) == UnsupportedTopology(s, address)
  {
    forall a | a in s.addresses && a.prefix.address == source ensures a.linkIndex == address.linkIndex {
      assert !Conflicting(s, source, a, address);
    }
  }

  lemma StepDecides(s: Snapshot, rule: PolicyRule, e: Egress)
    requires RuleStep(s, rule, Finished(e))
    ensures e.Refused? ==> e.reason !in {UndecidableRule, NoUsableDefault}
  {
  }

  lemma NeverUndecided(s: Snapshot, source: IPv4, egress: Egress)
    requires ResolvedTo(s, source, egress)
    requires egress.Refused? && egress.reason in {UndecidableRule, NoUsableDefault}
    ensures forall rule, e :: !DecidesOn(s, source, rule, e)
  {
    forall rule, e ensures !DecidesOn(s, source, rule, e) {
      if DecidesOn(s, source, rule, e) {
        StepDecides(s, rule, e);
        assert false;
      }
    }
  }

  // ---------------------------------------------------------------- the answer against the kernel

  /** The fate of packets that an answer claims. */
  function OutcomeOf(egress: Egress): Option<Outcome> {
    match egress
    case Runnable(link, table, gateway) => Some(Routed(link.index, table, gateway))
    case Refused(RuleActionIs(action)) => Some(Rejected(action))
    case Refused(RouteActionIs(kind)) => Some(RouteRejected(kind))
    case Refused(NoUsableDefault) => Some(Unrouted)
    case _ => None
  }

  /**
    Every packet from the source to a destination without a more specific route ends in `expected`
    and nowhere else, in every order of rules of one priority and of routes of one metric.
  */
  ghost predicate AlwaysEnds(s: Snapshot, source: IPv4, expected: Outcome) {
    forall kernel: seq<PolicyRule>, routes: seq<Route>, p: Packet ::
      KernelOrder(kernel, s.rules) && SameRoutes(s, routes) && p.source == source
      && NoMoreSpecificRoute(s.routes, p.destination) ==>
        forall out :: WalkEnds(kernel, 0, routes, p, out) <==> out == expected
  }

  lemma ResolvedAnswerIsSound(s: Snapshot, source: IPv4, egress: Egress)
    requires SortedFacts(s) && ResolvedTo(s, source, egress)
    ensures OutcomeOf(egress).Some? ==> AlwaysEnds(s, source, OutcomeOf(egress).value)
    ensures egress.Runnable? ==>
              && egress.link in s.links && egress.link.name != "" && egress.link.index > 0
              && Available(egress.link) && !InVrf(s.links, egress.link)
              && (egress.gateway.Some? ==> !IsInvalidGateway(egress.gateway.value))
  {
    if OutcomeOf(egress).Some? && egress != Refused(NoUsableDefault) {
      var rule :| DecidesOn(s, source, rule, egress);
      var expected := OutcomeOf(egress).value;
      StepIsOutcome(s, rule, egress);
      forall kernel, routes, p: Packet | KernelOrder(kernel, s.rules) && SameRoutes(s, routes) && p.source == source
                                         && NoMoreSpecificRoute(s.routes, p.destination)
        ensures forall out :: WalkEnds(kernel, 0, routes, p, out) <==> out == expected
      {
        DecidedWalk(s, kernel, routes, p, rule, expected);
      }
    } else if egress == Refused(NoUsableDefault) {
      forall kernel, routes, p: Packet | KernelOrder(kernel, s.rules) && SameRoutes(s, routes) && p.source == source
                                         && NoMoreSpecificRoute(s.routes, p.destination)
        ensures forall out :: WalkEnds(kernel, 0, routes, p, out) <==> out == Unrouted
      {
        forall out ensures WalkEnds(kernel, 0, routes, p, out) <==> out == Unrouted {
          AllPassed(s, kernel, 0, routes, p, out);
        }
      }
    }
  }

  lemma StepIsOutcome(s: Snapshot, rule: PolicyRule, egress: Egress)
    requires RuleStep(s, rule, Finished(egress)) && OutcomeOf(egress).Some? && egress != Refused(NoUsableDefault)
    ensures RuleOutcome(s, rule, OutcomeOf(egress).value)
    ensures egress.Runnable? ==>
              && egress.link in s.links && egress.link.name != "" && egress.link.index > 0
              && Available(egress.link) && !InVrf(s.links, egress.link)
              && (egress.gateway.Some? ==> !IsInvalidGateway(egress.gateway.value))
  {
    if rule.action == Lookup {
      var r :| TableLeadsTo(s, rule.table, r) && Finished(egress) == ApplyRoute(s, r);
      assert RouteGives(r, rule.table, OutcomeOf(egress).value);
    }
  }

  lemma {:induction false} AllPassed(s: Snapshot, kernel: seq<PolicyRule>, i: nat, routes: seq<Route>, p: Packet,
                                     out: Outcome)
    requires KernelOrder(kernel, s.rules) && SameRoutes(s, routes) && i <= |kernel|
    requires NoMoreSpecificRoute(s.routes, p.destination) && PassedUpTo(s, p.source, |s.rules|)
    ensures WalkEnds(kernel, i, routes, p, out) <==> out == Unrouted
    decreases |kernel| - i
  {
    if i < |kernel| {
      assert kernel[i] in s.rules;
      PassedRuleIsSkipped(s, kernel, i, routes, p, out);
      AllPassed(s, kernel, i + 1, routes, p, out);
    }
  }

  /** The same facts, captured in any order; an index is that of one link. */
  ghost predicate SameFacts(s: Snapshot, t: Snapshot) {
    && (forall l :: l in s.links <==> l in t.links) && (forall a :: a in s.addresses <==> a in t.addresses)
    && (forall r :: r in s.rules <==> r in t.rules) && (forall r :: r in s.routes <==> r in t.routes)
    && forall l, m :: l in s.links && m in s.links && l.index == m.index ==> l == m
  }

  lemma {:induction false} LinkAtFinds(links: seq<Link>, l: Link)
    requires l in links
    ensures LinkAt(links, l.index).Some?
  {
    if links[|links| - 1].index != l.index {
      LinkAtFinds(links[..|links| - 1], l);
    }
  }

  lemma SameLinks(s: Snapshot, t: Snapshot)
    requires SameFacts(s, t)
    ensures forall index :: LinkAt(s.links, index) == LinkAt(t.links, index)
  {
    forall index ensures LinkAt(s.links, index) == LinkAt(t.links, index) {
      var a, b := LinkAt(s.links, index), LinkAt(t.links, index);
      if a.Some? {
        LinkAtFinds(t.links, a.value);
      }
      if b.Some? {
        LinkAtFinds(s.links, b.value);
      }
    }
  }

  /** The order in which links, addresses, rules and routes were captured does not change a runnable answer. */
  lemma {:induction false} AnswerIgnoresOrder(s: Snapshot, t: Snapshot, source: Address, a: Egress, b: Egress)
    requires SortedFacts(s) && SortedFacts(t) && SameFacts(s, t)
    requires ResolvedOne(s, source, a) && ResolvedOne(t, source, b) && a.Runnable?
    ensures a == b
  {
    SameLinks(s, t);
    var address :| address in s.addresses && address.prefix.address == source.ip;
    forall x, y ensures !Conflicting(t, source.ip, x, y) {
      assert !Conflicting(s, source.ip, x, y);
    }
    assert ResolvedFrom(s, address, source.ip, a) && ResolvedFrom(t, address, source.ip, b);
    SameTopologies(s, t, address);
    var rule :| DecidesOn(s, source.ip, rule, a);
    SameFactsSameStep(s, t, source.ip, rule, a);
  }

  lemma SameTopologies(s: Snapshot, t: Snapshot, address: LocalAddress)
    requires forall index :: LinkAt(s.links, index) == LinkAt(t.links, index)
    ensures UnsupportedTopology(s, address) == UnsupportedTopology(t, address)
  {
  }

  lemma SameFactsSameStep(s: Snapshot, t: Snapshot, source: IPv4, rule: PolicyRule, e: Egress)
    requires forall index :: LinkAt(s.links, index) == LinkAt(t.links, index)
    requires forall r :: r in s.rules <==> r in t.rules
    requires forall r :: r in s.routes <==> r in t.routes
    requires DecidesOn(s, source, rule, e)
    ensures DecidesOn(t, source, rule, e)
  {
    forall table, r ensures BestDefault(s, table, r) <==> BestDefault(t, table, r) {
    }
    forall table ensures TableFallsThrough(s, table) <==> TableFallsThrough(t, table) {
      SameTables(s, t, table);
    }
    forall r | r in t.rules && r.priority < rule.priority
      ensures Passes(t, source, r) && Unambiguous(t, source, r.priority)
    {
      assert Passes(s, source, r) && Unambiguous(s, source, r.priority);
    }
    assert Decides(t, source, rule);
    SameTables(s, t, rule.table);
    forall r ensures ApplyRoute(s, r) == ApplyRoute(t, r) {
    }
  }

  lemma SameTables(s: Snapshot, t: Snapshot, table: int)
    requires forall r :: r in s.routes <==> r in t.routes
    ensures HasDefault(s, table) <==> HasDefault(t, table)
    ensures forall r :: TableLeadsTo(s, table, r) <==> TableLeadsTo(t, table, r)
  {
    forall r ensures BestDefault(s, table, r) <==> BestDefault(t, table, r) {
    }
  }
}
