/**
  The iptables rule plane: per-claim programs inserted in front of foreign chains one rule at a time,
  read back by their owner comments, and removed exactly.
*/
module IptablesPlane {
  import opened Wrappers

  type Line = seq<string>

  datatype Table = Filter | Nat

  function ChainOf(table: Table): string {
    match table case Filter => "FORWARD" case Nat => "POSTROUTING"
  }

  /** One rule of a program as iptables-save prints it, with the owner its comment names. */
  datatype Rule = Rule(table: Table, line: Line, owner: string)

  datatype Program = Program(ownerPrefix: string, rules: seq<Rule>)

  /** The value after the first occurrence of an option. */
  function OptionValue(argv: Line, name: string): string {
    if |argv| < 2 then "" else if argv[0] == name then argv[1] else OptionValue(argv[1..], name)
  }

  function CommentOf(line: Line): string {
    if |line| < 2 || line[0] != "-A" then "" else OptionValue(line[2..], "--comment")
  }

  predicate HasPrefix(s: string, prefix: string) {
    prefix <= s
  }

  predicate OwnedBy(line: Line, p: Program) {
    |line| >= 2 && line[0] == "-A" && HasPrefix(CommentOf(line), p.ownerPrefix)
  }

  /** A program whose rules can be told apart and recognised. */
  ghost predicate WellFormed(p: Program) {
    && p.ownerPrefix != ""
    && (forall i :: 0 <= i < |p.rules| ==>
          && OwnedBy(p.rules[i].line, p)
          && CommentOf(p.rules[i].line) == p.rules[i].owner
          && p.rules[i].line[1] == ChainOf(p.rules[i].table))
    && (forall i, j :: 0 <= i < j < |p.rules| ==> p.rules[i].owner != p.rules[j].owner)
    && (forall table: Table :: RulesOf(p.rules, table) != [])
  }

  /** The rules of one table, in program order. */
  function RulesOf(rules: seq<Rule>, table: Table): seq<Rule> {
    if rules == [] then []
    else (if rules[0].table == table then [rules[0]] else []) + RulesOf(rules[1..], table)
  }

  lemma {:induction false} RulesOfMembers(rules: seq<Rule>, table: Table)
    ensures forall r :: r in RulesOf(rules, table) <==> r in rules && r.table == table
  {
    if rules != [] {
      RulesOfMembers(rules[1..], table);
    }
  }

  function LinesOf(rules: seq<Rule>): (r: seq<Line>)
    ensures |r| == |rules|
    ensures forall i :: 0 <= i < |rules| ==> r[i] == rules[i].line
  {
    seq(|rules|, i requires 0 <= i < |rules| => rules[i].line)
  }

  /** What a program puts into a table. */
  function ProgramLines(p: Program, table: Table): seq<Line> {
    LinesOf(RulesOf(p.rules, table))
  }

  // ---------------------------------------------------------------- reading the plane back

  /** One table: the chain the programs go into, and every other line of the table. */
  datatype TableState = TableState(chain: seq<Line>, others: seq<Line>)

  /** The chain holds its own lines and no other line is one of the chain. */
  ghost predicate ChainsApart(t: TableState, table: Table) {
    && (forall i :: 0 <= i < |t.chain| ==> |t.chain[i]| >= 2 && t.chain[i][0] == "-A" && t.chain[i][1] == ChainOf(table))
    && (forall i :: 0 <= i < |t.others| ==>
          !(|t.others[i]| >= 2 && t.others[i][0] == "-A" && t.others[i][1] == ChainOf(table)))
  }

  function AllLines(t: TableState): seq<Line> {
    t.others + t.chain
  }

  ghost predicate IsRule(line: Line, table: Table, p: Program) {
    exists r :: r in p.rules && r.table == table && r.line == line && r.owner == CommentOf(line)
  }

  /** Every line with the program's owner prefix is exactly one of its rules, and appears once. */
  ghost predicate Readable(lines: seq<Line>, table: Table, p: Program) {
    && (forall i :: 0 <= i < |lines| && OwnedBy(lines[i], p) ==>
          IsRule(lines[i], table, p))
    && (forall i, j :: 0 <= i < j < |lines| && OwnedBy(lines[i], p) && OwnedBy(lines[j], p) ==>
          CommentOf(lines[i]) != CommentOf(lines[j]))
  }

  /** The owners of the program's rules that the lines show. */
  function OwnersIn(lines: seq<Line>, p: Program): set<string> {
    if lines == [] then {}
    else OwnersIn(lines[..|lines| - 1], p) +
         if OwnedBy(lines[|lines| - 1], p) then {CommentOf(lines[|lines| - 1])} else {}
  }

  lemma {:induction false} OwnersInMembers(lines: seq<Line>, p: Program)
    ensures forall o :: o in OwnersIn(lines, p) <==>
              exists i :: 0 <= i < |lines| && OwnedBy(lines[i], p) && CommentOf(lines[i]) == o
  {
    if lines != [] {
      OwnersInMembers(lines[..|lines| - 1], p);
    }
  }

  datatype ObserveError = UnknownOwner | Repeated | ConflictingShape | Incomplete | NotLeading

  function FindRule(rules: seq<Rule>, table: Table, owner: string): (r: Option<Rule>)
    ensures r.Some? ==> r.value in rules && r.value.table == table && r.value.owner == owner
    ensures r.None? ==> forall x :: x in rules ==> x.table != table || x.owner != owner
  {
    if rules == [] then None
    else if rules[0].table == table && rules[0].owner == owner then Some(rules[0])
    else FindRule(rules[1..], table, owner)
  }

  method ObserveTable(lines: seq<Line>, table: Table, p: Program, present: set<string>)
    returns (r: Result<set<string>, ObserveError>)
    requires WellFormed(p)
    requires forall x :: x in p.rules && x.owner in present ==> x.table != table
    ensures r.Ok? <==> Readable(lines, table, p)
    ensures r.Ok? ==> r.value == present + OwnersIn(lines, p)
  {
    var found := present;
    var index := 0;
    assert lines[..0] == [];
    while index < |lines|
      invariant 0 <= index <= |lines|
      invariant Readable(lines[..index], table, p)
      invariant found == present + OwnersIn(lines[..index], p)
    {
      var line := lines[index];
      NextLine(lines, table, p, index);
      if OwnedBy(line, p) {
        var owner := CommentOf(line);
        var want := FindRule(p.rules, table, owner);
        WantedRule(p, table, line, want);
        if want.None? {
          RefusedLine(lines, table, p, index);
          return Err(UnknownOwner);
        }
        if owner in found {
          RefusedLine(lines, table, p, index);
          return Err(Repeated);
        }
        if line != want.value.line {
          RefusedLine(lines, table, p, index);
          return Err(ConflictingShape);
        }
        found := found + {owner};
      }
      index := index + 1;
    }
    assert lines[..index] == lines;
    return Ok(found);
  }

  /** When one more line keeps the lines readable. */
  lemma {:induction false} NextLine(lines: seq<Line>, table: Table, p: Program, i: nat)
    requires i < |lines| && Readable(lines[..i], table, p)
    ensures OwnersIn(lines[..i + 1], p) == OwnersIn(lines[..i], p) + if OwnedBy(lines[i], p) then {CommentOf(lines[i])} else {}
    ensures (OwnedBy(lines[i], p) ==> CommentOf(lines[i]) !in OwnersIn(lines[..i], p) && IsRule(lines[i], table, p))
            ==> Readable(lines[..i + 1], table, p)
  {
    var before, after := lines[..i], lines[..i + 1];
    assert after == before + [lines[i]] && after[..|after| - 1] == before;
    OwnersInMembers(before, p);
  }

  /** When no continuation makes the lines readable. */
  lemma {:induction false} RefusedLine(lines: seq<Line>, table: Table, p: Program, i: nat)
    requires i < |lines| && OwnedBy(lines[i], p)
    requires CommentOf(lines[i]) in OwnersIn(lines[..i], p) || !IsRule(lines[i], table, p)
    ensures !Readable(lines, table, p)
  {
    var before := lines[..i];
    OwnersInMembers(before, p);
    if CommentOf(lines[i]) in OwnersIn(before, p) {
      var earlier :| 0 <= earlier < |before| && OwnedBy(before[earlier], p) && CommentOf(before[earlier]) == CommentOf(lines[i]);
      assert lines[earlier] == before[earlier];
    }
  }

  lemma {:induction false} WantedRule(p: Program, table: Table, line: Line, want: Option<Rule>)
    requires WellFormed(p) && want == FindRule(p.rules, table, CommentOf(line))
    ensures IsRule(line, table, p) <==> want.Some? && want.value.line == line
  {
    OneRulePerOwner(p);
  }

  lemma OneRulePerOwner(p: Program)
    requires WellFormed(p)
    ensures forall a, b :: a in p.rules && b in p.rules && a.owner == b.owner ==> a == b
  {
  }

  ghost predicate PlaneReadable(filter: TableState, natTable: TableState, p: Program) {
    Readable(AllLines(filter), Filter, p) && Readable(AllLines(natTable), Nat, p)
  }

  ghost function PlaneOwners(filter: TableState, natTable: TableState, p: Program): set<string> {
    OwnersIn(AllLines(filter), p) + OwnersIn(AllLines(natTable), p)
  }

  /** The owners present; partial presence is allowed. */
  method ObserveProgram(filter: TableState, natTable: TableState, p: Program) returns (r: Result<set<string>, ObserveError>)
    requires WellFormed(p)
    ensures r.Ok? <==> PlaneReadable(filter, natTable, p)
    ensures r.Ok? ==> r.value == PlaneOwners(filter, natTable, p)
  {
    r := ObserveTable(AllLines(filter), Filter, p, {});
    if r.Err? {
      return;
    }
    FilterOwnersAreFilterRules(AllLines(filter), p);
    r := ObserveTable(AllLines(natTable), Nat, p, r.value);
  }

  lemma {:induction false} FilterOwnersAreFilterRules(lines: seq<Line>, p: Program)
    requires WellFormed(p) && Readable(lines, Filter, p)
    ensures forall x :: x in p.rules && x.owner in OwnersIn(lines, p) ==> x.table != Nat
  {
    OwnersInMembers(lines, p);
    OneRulePerOwner(p);
  }

  // ---------------------------------------------------------------- installation

  /** No line of these is owned by the program. */
  ghost predicate Quiet(lines: seq<Line>, p: Program) {
    forall i :: 0 <= i < |lines| ==> !OwnedBy(lines[i], p)
  }

  /** The table holds the last rules of the program, from `k` on, in front of `base`. */
  ghost predicate InstalledFrom(t: TableState, base: TableState, table: Table, p: Program, k: nat) {
    && k <= |ProgramLines(p, table)|
    && t.others == base.others
    && t.chain == ProgramLines(p, table)[k..] + base.chain
  }

  lemma {:induction false} RulesOfDistinct(rules: seq<Rule>, table: Table)
    requires forall i, j :: 0 <= i < j < |rules| ==> rules[i].owner != rules[j].owner
    ensures forall i, j :: 0 <= i < j < |RulesOf(rules, table)| ==>
                             RulesOf(rules, table)[i].owner != RulesOf(rules, table)[j].owner
  {
    if rules != [] {
      RulesOfDistinct(rules[1..], table);
      RulesOfMembers(rules[1..], table);
    }
  }

  lemma {:induction false} OwnersInConcat(a: seq<Line>, b: seq<Line>, p: Program)
    ensures OwnersIn(a + b, p) == OwnersIn(a, p) + OwnersIn(b, p)
  {
    if b == [] {
      assert a + b == a;
    } else {
      assert (a + b)[..|a + b| - 1] == a + b[..|b| - 1];
      OwnersInConcat(a, b[..|b| - 1], p);
    }
  }

  lemma {:induction false} QuietHasNoOwners(lines: seq<Line>, p: Program)
    requires Quiet(lines, p)
    ensures OwnersIn(lines, p) == {}
  {
    if lines != [] {
      QuietHasNoOwners(lines[..|lines| - 1], p);
    }
  }

  lemma {:induction false} OneOwnerPerLine(lines: seq<Line>, p: Program)
    requires forall i :: 0 <= i < |lines| ==> OwnedBy(lines[i], p)
    requires forall i, j :: 0 <= i < j < |lines| ==> CommentOf(lines[i]) != CommentOf(lines[j])
    ensures |OwnersIn(lines, p)| == |lines|
  {
    if lines != [] {
      OneOwnerPerLine(lines[..|lines| - 1], p);
      OwnersInMembers(lines[..|lines| - 1], p);
    }
  }

  /** The facts about the lines of one program in one table. */
  lemma {:induction false} ProgramLinesFacts(p: Program, table: Table)
    requires WellFormed(p)
    ensures |ProgramLines(p, table)| == |RulesOf(p.rules, table)| > 0
    ensures forall i :: 0 <= i < |ProgramLines(p, table)| ==>
              && RulesOf(p.rules, table)[i] in p.rules && RulesOf(p.rules, table)[i].table == table
              && ProgramLines(p, table)[i] == RulesOf(p.rules, table)[i].line
              && CommentOf(ProgramLines(p, table)[i]) == RulesOf(p.rules, table)[i].owner
              && OwnedBy(ProgramLines(p, table)[i], p)
    ensures forall i, j :: 0 <= i < j < |ProgramLines(p, table)| ==>
              CommentOf(ProgramLines(p, table)[i]) != CommentOf(ProgramLines(p, table)[j])
  {
    RulesOfMembers(p.rules, table);
    RulesOfDistinct(p.rules, table);
    forall i | 0 <= i < |RulesOf(p.rules, table)| ensures RulesOf(p.rules, table)[i] in p.rules {
      assert RulesOf(p.rules, table)[i] in RulesOf(p.rules, table);
    }
  }

  /** Between quiet lines only the middle part can hold owned lines. */
  ghost predicate OwnedOnlyInside(lines: seq<Line>, start: nat, part: seq<Line>, p: Program) {
    forall i :: 0 <= i < |lines| && OwnedBy(lines[i], p) ==> start <= i < start + |part| && lines[i] == part[i - start]
  }

  lemma {:induction false} OwnedLinesAreInside(before: seq<Line>, part: seq<Line>, after: seq<Line>, p: Program)
    requires Quiet(before, p) && Quiet(after, p)
    ensures OwnedOnlyInside(before + (part + after), |before|, part, p)
    ensures OwnersIn(before + (part + after), p) == OwnersIn(part, p)
  {
    OwnersInConcat(before, part + after, p);
    OwnersInConcat(part, after, p);
    QuietHasNoOwners(before, p);
    QuietHasNoOwners(after, p);
  }

  lemma RulesInPartAreReadable(lines: seq<Line>, start: nat, part: seq<Line>, rules: seq<Rule>, table: Table, p: Program)
    requires OwnedOnlyInside(lines, start, part, p) && |rules| == |part|
    requires forall i :: 0 <= i < |part| ==>
               && rules[i] in p.rules && rules[i].table == table && rules[i].line == part[i]
               && rules[i].owner == CommentOf(part[i])
    requires forall i, j :: 0 <= i < j < |part| ==> CommentOf(part[i]) != CommentOf(part[j])
    ensures Readable(lines, table, p)
  {
    forall i | 0 <= i < |lines| && OwnedBy(lines[i], p)
      ensures IsRule(lines[i], table, p)
    {
      var r := rules[i - start];
      assert r in p.rules && r.line == lines[i];
    }
  }

  lemma {:induction false} PartOfProgramIsReadable(t: TableState, base: TableState, table: Table, p: Program, k: nat)
    requires WellFormed(p) && InstalledFrom(t, base, table, p, k)
    requires Quiet(base.others, p) && Quiet(base.chain, p)
    ensures Readable(AllLines(t), table, p)
    ensures OwnersIn(AllLines(t), p) == OwnersIn(ProgramLines(p, table)[k..], p)
    ensures |OwnersIn(AllLines(t), p)| == |ProgramLines(p, table)| - k
  {
    ProgramLinesFacts(p, table);
    var part := ProgramLines(p, table)[k..];
    OwnedLinesAreInside(base.others, part, base.chain, p);
    RulesInPartAreReadable(base.others + (part + base.chain), |base.others|, part, RulesOf(p.rules, table)[k..], table, p);
    OneOwnerPerLine(part, p);
  }

  lemma {:induction false} UnownedIsQuiet(lines: seq<Line>, p: Program)
    requires OwnersIn(lines, p) == {}
    ensures Quiet(lines, p)
  {
    OwnersInMembers(lines, p);
    assert forall i :: 0 <= i < |lines| && OwnedBy(lines[i], p) ==> CommentOf(lines[i]) in OwnersIn(lines, p);
  }

  /** How one command can end: done, refused, or done but reported as failed. */
  datatype CommandOutcome = Done | Refused | DoneButFailed

  datatype Mutation = Mutation(owner: string, table: Table, line: Line)

  /** One table's insertions, last rule first. */
  function InsertionsOf(rules: seq<Rule>): (r: seq<Mutation>)
    ensures |r| == |rules|
  {
    seq(|rules|, i requires 0 <= i < |rules| =>
      var rule := rules[|rules| - 1 - i]; Mutation(rule.owner, rule.table, rule.line))
  }

  method BuildInstallMutations(p: Program) returns (mutations: seq<Mutation>)
    ensures mutations == InsertionsOf(RulesOf(p.rules, Filter)) + InsertionsOf(RulesOf(p.rules, Nat))
  {
    var forFilter := BuildTableMutations(p, Filter);
    var forNat := BuildTableMutations(p, Nat);
    mutations := forFilter + forNat;
  }

  method BuildTableMutations(p: Program, table: Table) returns (mutations: seq<Mutation>)
    ensures mutations == InsertionsOf(RulesOf(p.rules, table))
  {
    mutations := [];
    var index := |p.rules|;
    while index > 0
      invariant 0 <= index <= |p.rules|
      invariant mutations == InsertionsOf(RulesOf(p.rules[index..], table))
    {
      index := index - 1;
      var rule := p.rules[index];
      ghost var tail := p.rules[index + 1..];
      assert p.rules[index..] == [rule] + tail;
      assert p.rules[index..][1..] == tail;
      if rule.table == table {
        InsertionsOfCons(rule, RulesOf(tail, table));
        mutations := mutations + [Mutation(rule.owner, rule.table, rule.line)];
      } else {
        assert [] + RulesOf(tail, table) == RulesOf(tail, table);
      }
    }
    assert p.rules[0..] == p.rules;
  }

  lemma InsertionsOfCons(rule: Rule, rest: seq<Rule>)
    ensures InsertionsOf([rule] + rest) == InsertionsOf(rest) + [Mutation(rule.owner, rule.table, rule.line)]
  {
  }

  /** The first `index` insertions have been made on top of the base tables. */
  ghost predicate InstalledUpTo(f: TableState, n: TableState, baseF: TableState, baseN: TableState, p: Program, index: nat) {
    var filterCount, natCount := |ProgramLines(p, Filter)|, |ProgramLines(p, Nat)|;
    && index <= filterCount + natCount
    && InstalledFrom(f, baseF, Filter, p, if index < filterCount then filterCount - index else 0)
    && InstalledFrom(n, baseN, Nat, p, if index < filterCount then natCount else filterCount + natCount - index)
  }

  function Mutations(p: Program): seq<Mutation> {
    InsertionsOf(RulesOf(p.rules, Filter)) + InsertionsOf(RulesOf(p.rules, Nat))
  }

  ghost predicate BaseIsQuiet(baseF: TableState, baseN: TableState, p: Program) {
    Quiet(baseF.others, p) && Quiet(baseF.chain, p) && Quiet(baseN.others, p) && Quiet(baseN.chain, p)
  }

  function Pushed(t: TableState, table: Table, m: Mutation): TableState {
    if m.table == table then t.(chain := [m.line] + t.chain) else t
  }

  /** The rule behind the mutation at `index`, and its place in its table. */
  lemma MutationAt(p: Program, index: nat)
    requires index < |Mutations(p)|
    ensures var filterCount, natCount := |ProgramLines(p, Filter)|, |ProgramLines(p, Nat)|;
            && |Mutations(p)| == filterCount + natCount
            && var m := Mutations(p)[index];
               if index < filterCount then
                 m.table == Filter && m.line == ProgramLines(p, Filter)[filterCount - 1 - index]
               else
                 m.table == Nat && m.line == ProgramLines(p, Nat)[filterCount + natCount - 1 - index]
    ensures exists r :: r in p.rules && Mutations(p)[index] == Mutation(r.owner, r.table, r.line)
  {
    RulesOfMembers(p.rules, Filter);
    RulesOfMembers(p.rules, Nat);
    var fs, ns := RulesOf(p.rules, Filter), RulesOf(p.rules, Nat);
    if index < |fs| {
      var r := fs[|fs| - 1 - index];
      assert r in fs;
      assert Mutations(p)[index] == Mutation(r.owner, r.table, r.line);
    } else {
      var r := ns[|fs| + |ns| - 1 - index];
      assert r in ns;
      assert Mutations(p)[index] == Mutation(r.owner, r.table, r.line);
    }
  }

  lemma OneMoreInFront<T>(lines: seq<T>, base: seq<T>, k: nat)
    requires 0 < k <= |lines|
    ensures [lines[k - 1]] + (lines[k..] + base) == lines[k - 1..] + base
  {
    assert lines[k - 1..] == [lines[k - 1]] + lines[k..];
  }

  lemma NextInTable(t: TableState, base: TableState, table: Table, p: Program, k: nat)
    requires InstalledFrom(t, base, table, p, k) && k > 0
    ensures InstalledFrom(t.(chain := [ProgramLines(p, table)[k - 1]] + t.chain), base, table, p, k - 1)
  {
    OneMoreInFront(ProgramLines(p, table), base.chain, k);
  }

  lemma NothingInserted(f: TableState, n: TableState, p: Program)
    ensures InstalledUpTo(f, n, f, n, p, 0)
  {
    var fs, ns := ProgramLines(p, Filter), ProgramLines(p, Nat);
    assert fs[|fs|..] + f.chain == f.chain && ns[|ns|..] + n.chain == n.chain;
  }

  lemma NextInsertion(f: TableState, n: TableState, baseF: TableState, baseN: TableState, p: Program, index: nat)
    requires InstalledUpTo(f, n, baseF, baseN, p, index) && index < |Mutations(p)|
    ensures InstalledUpTo(Pushed(f, Filter, Mutations(p)[index]), Pushed(n, Nat, Mutations(p)[index]), baseF, baseN, p, index + 1)
  {
    MutationAt(p, index);
    var filterCount, natCount := |ProgramLines(p, Filter)|, |ProgramLines(p, Nat)|;
    if index < filterCount {
      NextInTable(f, baseF, Filter, p, filterCount - index);
    } else {
      NextInTable(n, baseN, Nat, p, filterCount + natCount - index);
    }
  }

  /** What the plane shows of a program part way through its installation. */
  lemma InstalledUpToIsReadable(f: TableState, n: TableState, baseF: TableState, baseN: TableState, p: Program, index: nat)
    requires WellFormed(p) && BaseIsQuiet(baseF, baseN, p) && InstalledUpTo(f, n, baseF, baseN, p, index)
    ensures PlaneReadable(f, n, p)
    ensures |PlaneOwners(f, n, p)| == index
  {
    var filterCount, natCount := |ProgramLines(p, Filter)|, |ProgramLines(p, Nat)|;
    PartOfProgramIsReadable(f, baseF, Filter, p, if index < filterCount then filterCount - index else 0);
    PartOfProgramIsReadable(n, baseN, Nat, p, if index < filterCount then natCount else filterCount + natCount - index);
    OwnersOfTablesAreApart(f, n, p);
  }

  lemma {:induction false} OwnersOfTablesAreApart(f: TableState, n: TableState, p: Program)
    requires WellFormed(p) && PlaneReadable(f, n, p)
    ensures OwnersIn(AllLines(f), p) !! OwnersIn(AllLines(n), p)
    ensures |PlaneOwners(f, n, p)| == |OwnersIn(AllLines(f), p)| + |OwnersIn(AllLines(n), p)|
  {
    FilterOwnersAreFilterRules(AllLines(f), p);
    OwnersInMembers(AllLines(n), p);
  }

  lemma PushedOwner(f: TableState, n: TableState, p: Program, index: nat)
    requires WellFormed(p) && index < |Mutations(p)|
    ensures PlaneOwners(Pushed(f, Filter, Mutations(p)[index]), Pushed(n, Nat, Mutations(p)[index]), p)
         == PlaneOwners(f, n, p) + {Mutations(p)[index].owner}
  {
    var m := Mutations(p)[index];
    MutationAt(p, index);
    assert OwnedBy(m.line, p) && CommentOf(m.line) == m.owner;
    if m.table == Filter {
      PushedOwners(f, m.line, p);
    } else {
      PushedOwners(n, m.line, p);
    }
  }

  lemma {:induction false} PushedOwners(t: TableState, line: Line, p: Program)
    requires OwnedBy(line, p)
    ensures OwnersIn(AllLines(t.(chain := [line] + t.chain)), p) == OwnersIn(AllLines(t), p) + {CommentOf(line)}
  {
    OwnersInConcat(t.others, [line] + t.chain, p);
    OwnersInConcat([line], t.chain, p);
    OwnersInConcat(t.others, t.chain, p);
    var one: seq<Line> := [line];
    assert one[..0] == [];
    assert OwnersIn(one, p) == {CommentOf(line)};
  }

  lemma QuietTable(t: TableState, p: Program)
    ensures Quiet(AllLines(t), p) <==> Quiet(t.others, p) && Quiet(t.chain, p)
  {
    if Quiet(AllLines(t), p) {
      assert forall i :: 0 <= i < |t.others| ==> AllLines(t)[i] == t.others[i];
      assert forall i :: 0 <= i < |t.chain| ==> AllLines(t)[|t.others| + i] == t.chain[i];
    }
  }

  /** An empty observation means no line is the program's. */
  lemma NothingOwned(f: TableState, n: TableState, p: Program)
    ensures PlaneOwners(f, n, p) == {} <==> BaseIsQuiet(f, n, p)
  {
    QuietTable(f, p);
    QuietTable(n, p);
    if PlaneOwners(f, n, p) == {} {
      UnownedIsQuiet(AllLines(f), p);
      UnownedIsQuiet(AllLines(n), p);
    }
    if BaseIsQuiet(f, n, p) {
      QuietHasNoOwners(AllLines(f), p);
      QuietHasNoOwners(AllLines(n), p);
    }
  }

  // ---------------------------------------------------------------- removal

  /** The lines that do not carry one of these owners of the program. */
  function Without(lines: seq<Line>, p: Program, owners: set<string>): (r: seq<Line>)
    ensures forall i :: 0 <= i < |r| ==> r[i] in lines && !(OwnedBy(r[i], p) && CommentOf(r[i]) in owners)
  {
    if lines == [] then []
    else
      (if OwnedBy(lines[0], p) && CommentOf(lines[0]) in owners then [] else [lines[0]]) + Without(lines[1..], p, owners)
  }

  lemma {:induction false} WithoutNothing(lines: seq<Line>, p: Program, owners: set<string>)
    requires forall i :: 0 <= i < |lines| && OwnedBy(lines[i], p) ==> CommentOf(lines[i]) !in owners
    ensures Without(lines, p, owners) == lines
  {
    if lines != [] {
      WithoutNothing(lines[1..], p, owners);
      assert lines == [lines[0]] + lines[1..];
    }
  }

  lemma {:induction false} WithoutConcat(a: seq<Line>, b: seq<Line>, p: Program, owners: set<string>)
    ensures Without(a + b, p, owners) == Without(a, p, owners) + Without(b, p, owners)
  {
    if a == [] {
      assert a + b == b;
    } else {
      assert (a + b)[1..] == a[1..] + b;
      WithoutConcat(a[1..], b, p, owners);
    }
  }

  lemma {:induction false} WithoutTwice(lines: seq<Line>, p: Program, first: set<string>, second: set<string>)
    ensures Without(Without(lines, p, first), p, second) == Without(lines, p, first + second)
  {
    if lines != [] {
      WithoutTwice(lines[1..], p, first, second);
      var head: seq<Line> := if OwnedBy(lines[0], p) && CommentOf(lines[0]) in first then [] else [lines[0]];
      WithoutConcat(head, Without(lines[1..], p, first), p, second);
      WithoutOne(lines[0], p, second);
    }
  }

  lemma {:induction false} WithoutOne(line: Line, p: Program, owners: set<string>)
    ensures Without([line], p, owners) == if OwnedBy(line, p) && CommentOf(line) in owners then [] else [line]
    ensures Without([], p, owners) == []
  {
    var one: seq<Line> := [line];
    assert one[1..] == [];
  }

  /** The lines the program does not own, in order. */
  function Foreign(lines: seq<Line>, p: Program): seq<Line> {
    if lines == [] then [] else (if OwnedBy(lines[0], p) then [] else [lines[0]]) + Foreign(lines[1..], p)
  }

  /** A removal keeps every foreign line in its place. */
  lemma {:induction false} ForeignLinesStay(lines: seq<Line>, p: Program, owners: set<string>)
    ensures Foreign(Without(lines, p, owners), p) == Foreign(lines, p)
  {
    if lines != [] {
      ForeignLinesStay(lines[1..], p, owners);
      var rest := Without(lines[1..], p, owners);
      if OwnedBy(lines[0], p) && CommentOf(lines[0]) in owners {
        assert Without(lines, p, owners) == rest;
        assert Foreign(lines, p) == Foreign(lines[1..], p);
      } else {
        assert Without(lines, p, owners) == [lines[0]] + rest;
        assert ([lines[0]] + rest)[1..] == rest;
      }
    }
  }

  /** iptables -D: the first equal rule goes, and none there is an error. */
  function DeleteFirst(chain: seq<Line>, line: Line): (r: Option<seq<Line>>)
    ensures r.Some? <==> line in chain
  {
    if chain == [] then None
    else if chain[0] == line then Some(chain[1..])
    else match DeleteFirst(chain[1..], line) case None => None case Some(rest) => Some([chain[0]] + rest)
  }

  ghost predicate OwnersDiffer(lines: seq<Line>, p: Program) {
    forall i, j :: 0 <= i < j < |lines| && OwnedBy(lines[i], p) && OwnedBy(lines[j], p) ==>
                     CommentOf(lines[i]) != CommentOf(lines[j])
  }

  lemma {:induction false} DeleteFirstIsExact(chain: seq<Line>, line: Line, p: Program)
    requires OwnedBy(line, p) && line in chain && OwnersDiffer(chain, p)
    ensures DeleteFirst(chain, line) == Some(Without(chain, p, {CommentOf(line)}))
  {
    var owners := {CommentOf(line)};
    if chain[0] == line {
      WithoutNothing(chain[1..], p, owners);
      assert Without(chain, p, owners) == Without(chain[1..], p, owners);
    } else {
      assert line in chain[1..];
      var at :| 0 <= at < |chain[1..]| && chain[1..][at] == line;
      assert chain[at + 1] == line;
      assert OwnersDiffer(chain[1..], p);
      DeleteFirstIsExact(chain[1..], line, p);
    }
  }

  lemma {:induction false} WithoutOwners(lines: seq<Line>, p: Program, owners: set<string>)
    ensures OwnersIn(Without(lines, p, owners), p) == OwnersIn(lines, p) - owners
  {
    if lines != [] {
      var last := lines[|lines| - 1];
      var init := lines[..|lines| - 1];
      assert lines == init + [last];
      WithoutConcat(init, [last], p, owners);
      WithoutOne(last, p, owners);
      OwnersInConcat(Without(init, p, owners), Without([last], p, owners), p);
      OwnersInConcat(init, [last], p);
      OwnersInOne(last, p);
      WithoutOwners(init, p, owners);
    }
  }

  lemma {:induction false} OwnersInOne(line: Line, p: Program)
    ensures OwnersIn([line], p) == if OwnedBy(line, p) then {CommentOf(line)} else {}
    ensures OwnersIn([], p) == {}
  {
    var one: seq<Line> := [line];
    assert one[..0] == [];
  }

  lemma {:induction false} WithoutKeepsReadable(lines: seq<Line>, table: Table, p: Program, owners: set<string>)
    requires Readable(lines, table, p)
    ensures Readable(Without(lines, p, owners), table, p)
  {
    if lines != [] {
      assert Readable(lines[1..], table, p) by {
        assert forall i :: 0 <= i < |lines[1..]| ==> lines[1..][i] == lines[i + 1];
      }
      WithoutKeepsReadable(lines[1..], table, p, owners);
      var rest := Without(lines[1..], p, owners);
      if !(OwnedBy(lines[0], p) && CommentOf(lines[0]) in owners) {
        ReadableHead(lines, rest, table, p);
      }
    }
  }

  lemma ReadableHead(lines: seq<Line>, rest: seq<Line>, table: Table, p: Program)
    requires lines != [] && Readable(lines, table, p) && Readable(rest, table, p)
    requires forall i :: 0 <= i < |rest| ==> rest[i] in lines[1..]
    ensures Readable([lines[0]] + rest, table, p)
  {
    var all := [lines[0]] + rest;
    forall j | 0 < j < |all| && OwnedBy(lines[0], p) && OwnedBy(all[j], p) ensures CommentOf(lines[0]) != CommentOf(all[j]) {
      assert all[j] == rest[j - 1];
      var at :| 0 <= at < |lines[1..]| && lines[1..][at] == all[j];
      assert lines[at + 1] == all[j];
    }
    forall i, j | 0 <= i < j < |all| && OwnedBy(all[i], p) && OwnedBy(all[j], p) ensures CommentOf(all[i]) != CommentOf(all[j]) {
      if i > 0 {
        assert all[i] == rest[i - 1] && all[j] == rest[j - 1];
      }
    }
    forall i | 0 <= i < |all| && OwnedBy(all[i], p)
      ensures IsRule(all[i], table, p)
    {
      if i > 0 {
        assert all[i] == rest[i - 1];
      }
    }
  }

  lemma ReadableParts(before: seq<Line>, chain: seq<Line>, table: Table, p: Program)
    requires WellFormed(p) && Readable(before + chain, table, p)
    ensures Readable(chain, table, p)
    ensures forall i :: 0 <= i < |before| && OwnedBy(before[i], p) ==> before[i][0] == "-A" && before[i][1] == ChainOf(table)
  {
    var lines := before + chain;
    assert forall i :: 0 <= i < |chain| ==> lines[|before| + i] == chain[i];
    forall i | 0 <= i < |before| && OwnedBy(before[i], p) ensures before[i][0] == "-A" && before[i][1] == ChainOf(table) {
      assert lines[i] == before[i];
      var r :| r in p.rules && r.table == table && r.line == before[i];
    }
  }

  lemma QuietBefore(before: seq<Line>, chain: seq<Line>, table: Table, p: Program)
    requires Quiet(before, p) && Readable(chain, table, p)
    ensures Readable(before + chain, table, p)
  {
    var lines := before + chain;
    assert forall i :: 0 <= i < |lines| && OwnedBy(lines[i], p) ==> i >= |before| && lines[i] == chain[i - |before|];
  }

  /** In a readable table the program's lines are all in its chain. */
  lemma OwnedLinesAreInTheChain(t: TableState, table: Table, p: Program)
    requires WellFormed(p) && ChainsApart(t, table)
    ensures Readable(AllLines(t), table, p) <==> Quiet(t.others, p) && Readable(t.chain, table, p)
  {
    if Readable(AllLines(t), table, p) {
      ReadableParts(t.others, t.chain, table, p);
    }
    if Quiet(t.others, p) && Readable(t.chain, table, p) {
      QuietBefore(t.others, t.chain, table, p);
    }
  }

  lemma {:induction false} OwnersAreInTheChain(t: TableState, p: Program)
    requires Quiet(t.others, p)
    ensures OwnersIn(AllLines(t), p) == OwnersIn(t.chain, p)
  {
    OwnersInConcat(t.others, t.chain, p);
    QuietHasNoOwners(t.others, p);
  }

  ghost function TableWithout(t: TableState, p: Program, owners: set<string>): TableState {
    t.(chain := Without(t.chain, p, owners))
  }

  /** The tables a removal starts from: chains apart, and everything of the program recognised. */
  ghost predicate Removable(f: TableState, n: TableState, p: Program) {
    ChainsApart(f, Filter) && ChainsApart(n, Nat) && PlaneReadable(f, n, p)
  }

  lemma {:induction false} WithoutIsRemovable(t: TableState, table: Table, p: Program, owners: set<string>)
    requires WellFormed(p) && ChainsApart(t, table) && Readable(AllLines(t), table, p)
    ensures ChainsApart(TableWithout(t, p, owners), table)
    ensures Readable(AllLines(TableWithout(t, p, owners)), table, p)
    ensures OwnersIn(AllLines(TableWithout(t, p, owners)), p) == OwnersIn(AllLines(t), p) - owners
  {
    var after := TableWithout(t, p, owners);
    OwnedLinesAreInTheChain(t, table, p);
    WithoutKeepsReadable(t.chain, table, p, owners);
    ChainMembers(t.chain, after.chain, table);
    OwnedLinesAreInTheChain(after, table, p);
    OwnersAreInTheChain(t, p);
    OwnersAreInTheChain(after, p);
    WithoutOwners(t.chain, p, owners);
  }

  ghost predicate AllOfChain(lines: seq<Line>, table: Table) {
    forall i :: 0 <= i < |lines| ==> |lines[i]| >= 2 && lines[i][0] == "-A" && lines[i][1] == ChainOf(table)
  }

  lemma ChainMembers(lines: seq<Line>, part: seq<Line>, table: Table)
    requires AllOfChain(lines, table) && forall i :: 0 <= i < |part| ==> part[i] in lines
    ensures AllOfChain(part, table)
  {
    forall i | 0 <= i < |part| ensures |part[i]| >= 2 && part[i][0] == "-A" && part[i][1] == ChainOf(table) {
      var at :| 0 <= at < |lines| && lines[at] == part[i];
    }
  }

  function Popped(t: TableState, table: Table, rule: Rule): Option<TableState> {
    if rule.table != table then Some(t)
    else match DeleteFirst(t.chain, rule.line) case None => None case Some(chain) => Some(t.(chain := chain))
  }

  /** Deleting a present rule by its own text takes exactly that rule. */
  lemma {:induction false} PoppedIsExact(t: TableState, table: Table, p: Program, rule: Rule)
    requires WellFormed(p) && ChainsApart(t, table) && Readable(AllLines(t), table, p)
    requires rule in p.rules && rule.table == table && rule.owner in OwnersIn(AllLines(t), p)
    ensures Popped(t, table, rule) == Some(TableWithout(t, p, {rule.owner}))
  {
    OwnedLinesAreInTheChain(t, table, p);
    OwnersAreInTheChain(t, p);
    OwnersInMembers(t.chain, p);
    OneRulePerOwner(p);
    var at :| 0 <= at < |t.chain| && OwnedBy(t.chain[at], p) && CommentOf(t.chain[at]) == rule.owner;
    assert t.chain[at] == rule.line;
    DeleteFirstIsExact(t.chain, rule.line, p);
  }

  /** A rule of the other table owns nothing here. */
  lemma {:induction false} OtherTableUntouched(t: TableState, table: Table, p: Program, rule: Rule)
    requires WellFormed(p) && ChainsApart(t, table) && Readable(AllLines(t), table, p)
    requires rule in p.rules && rule.table != table
    ensures TableWithout(t, p, {rule.owner}) == t
    ensures rule.owner !in OwnersIn(AllLines(t), p)
  {
    OwnedLinesAreInTheChain(t, table, p);
    OwnersAreInTheChain(t, p);
    OwnersInMembers(t.chain, p);
    OneRulePerOwner(p);
    WithoutNothing(t.chain, p, {rule.owner});
  }

  function Permitted(receipts: Option<set<string>>, owner: string): bool {
    match receipts case None => true case Some(owners) => owner in owners
  }

  /** The rules a removal deletes: those present and, when there are receipts, receipted. */
  function RemovalsOf(rules: seq<Rule>, present: set<string>, receipts: Option<set<string>>): (r: seq<Rule>)
    ensures forall x :: x in r <==> x in rules && x.owner in present && Permitted(receipts, x.owner)
  {
    if rules == [] then []
    else (if rules[0].owner in present && Permitted(receipts, rules[0].owner) then [rules[0]] else [])
         + RemovalsOf(rules[1..], present, receipts)
  }

  lemma {:induction false} RemovalsAreDistinct(rules: seq<Rule>, present: set<string>, receipts: Option<set<string>>)
    requires forall i, j :: 0 <= i < j < |rules| ==> rules[i].owner != rules[j].owner
    ensures forall i, j :: 0 <= i < j < |RemovalsOf(rules, present, receipts)| ==>
              RemovalsOf(rules, present, receipts)[i].owner != RemovalsOf(rules, present, receipts)[j].owner
  {
    if rules != [] {
      RemovalsAreDistinct(rules[1..], present, receipts);
      var rest := RemovalsOf(rules[1..], present, receipts);
      forall j | 0 <= j < |rest| ensures rest[j].owner != rules[0].owner {
        assert rest[j] in rest;
        var at :| 0 <= at < |rules[1..]| && rules[1..][at] == rest[j];
        assert rules[at + 1] == rest[j];
      }
    }
  }

  function OwnersOf(rules: seq<Rule>): set<string> {
    set r | r in rules :: r.owner
  }

  /** The owners a removal takes away. */
  function Removed(present: set<string>, receipts: Option<set<string>>): (r: set<string>)
    ensures r <= present
  {
    match receipts case None => present case Some(owners) => present * owners
  }

  /** Every present owner has a rule, so the removed rules name exactly the permitted owners. */
  lemma {:induction false} RemovalsCoverThePermitted(f: TableState, n: TableState, p: Program,
                                                     receipts: Option<set<string>>)
    requires WellFormed(p) && PlaneReadable(f, n, p)
    ensures OwnersOf(RemovalsOf(p.rules, PlaneOwners(f, n, p), receipts)) == Removed(PlaneOwners(f, n, p), receipts)
  {
    var present := PlaneOwners(f, n, p);
    var removals := RemovalsOf(p.rules, present, receipts);
    assert forall o :: o in present ==> exists r :: r in p.rules && r.owner == o by {
      OwnersInMembers(AllLines(f), p);
      OwnersInMembers(AllLines(n), p);
    }
    forall o | o in Removed(present, receipts) ensures o in OwnersOf(removals) {
      var r :| r in p.rules && r.owner == o;
      assert r in removals;
    }
  }

  /** What is left after some of the owners are gone, and what deleting one more rule does. */
  lemma {:induction false} NextRemovalInTable(t0: TableState, table: Table, p: Program, done: set<string>, rule: Rule)
    requires WellFormed(p) && ChainsApart(t0, table) && Readable(AllLines(t0), table, p)
    requires rule in p.rules && rule.owner !in done && (rule.table == table ==> rule.owner in OwnersIn(AllLines(t0), p))
    ensures Popped(TableWithout(t0, p, done), table, rule) == Some(TableWithout(t0, p, done + {rule.owner}))
  {
    var t := TableWithout(t0, p, done);
    WithoutIsRemovable(t0, table, p, done);
    WithoutTwice(t0.chain, p, done, {rule.owner});
    assert TableWithout(t, p, {rule.owner}) == TableWithout(t0, p, done + {rule.owner});
    if rule.table == table {
      PoppedIsExact(t, table, p, rule);
    } else {
      OtherTableUntouched(t, table, p, rule);
    }
  }

  /** A part of the program can be gone from both tables. */
  ghost predicate Reduced(f: TableState, n: TableState, f0: TableState, n0: TableState, p: Program, done: set<string>) {
    f == TableWithout(f0, p, done) && n == TableWithout(n0, p, done)
  }

  lemma ReducedIsRemovable(f: TableState, n: TableState, f0: TableState, n0: TableState, p: Program, done: set<string>)
    requires WellFormed(p) && Removable(f0, n0, p) && Reduced(f, n, f0, n0, p, done)
    ensures Removable(f, n, p) && PlaneOwners(f, n, p) == PlaneOwners(f0, n0, p) - done
  {
    WithoutIsRemovable(f0, Filter, p, done);
    WithoutIsRemovable(n0, Nat, p, done);
  }

  /** The owner of a rule shows only in the rule's own table. */
  lemma {:induction false} OwnerShowsInItsTable(f: TableState, n: TableState, p: Program, rule: Rule)
    requires WellFormed(p) && Removable(f, n, p) && rule in p.rules && rule.owner in PlaneOwners(f, n, p)
    ensures rule.table == Filter ==> rule.owner in OwnersIn(AllLines(f), p)
    ensures rule.table == Nat ==> rule.owner in OwnersIn(AllLines(n), p)
  {
    if rule.table == Filter {
      OtherTableUntouched(n, Nat, p, rule);
    } else {
      OtherTableUntouched(f, Filter, p, rule);
    }
  }

  /** The step of the removal loop, on values. */
  lemma {:induction false} NextRemoval(f: TableState, n: TableState, f0: TableState, n0: TableState,
                                    p: Program, done: set<string>, rule: Rule)
    requires WellFormed(p) && Removable(f0, n0, p) && Reduced(f, n, f0, n0, p, done)
    requires rule in p.rules && rule.owner in PlaneOwners(f0, n0, p) - done
    ensures Popped(f, Filter, rule) == Some(TableWithout(f0, p, done + {rule.owner}))
    ensures Popped(n, Nat, rule) == Some(TableWithout(n0, p, done + {rule.owner}))
  {
    OwnerShowsInItsTable(f0, n0, p, rule);
    NextRemovalInTable(f0, Filter, p, done, rule);
    NextRemovalInTable(n0, Nat, p, done, rule);
  }

  class RulePlane {
    var filter: TableState
    var natTable: TableState
    // what each command in turn does
    const outcomes: nat -> CommandOutcome
    var commands: nat

    constructor (filter: TableState, natTable: TableState, outcomes: nat -> CommandOutcome)
      ensures this.filter == filter && this.natTable == natTable && this.outcomes == outcomes && commands == 0
    {
      this.filter, this.natTable, this.outcomes, this.commands := filter, natTable, outcomes, 0;
    }

    ghost predicate AllDone()
    {
      forall k :: outcomes(k) == Done
    }

    /** iptables -I chain 1 */
    method Insert(mutation: Mutation) returns (ok: bool)
      modifies this`filter, this`natTable, this`commands
      ensures AllDone() ==> ok
      ensures || (&& filter == Pushed(old(filter), Filter, mutation)
                  && natTable == Pushed(old(natTable), Nat, mutation))
              || (!ok && filter == old(filter) && natTable == old(natTable))
    {
      var outcome := outcomes(commands);
      commands := commands + 1;
      if outcome != Refused {
        filter, natTable := Pushed(filter, Filter, mutation), Pushed(natTable, Nat, mutation);
      }
      ok := outcome == Done;
    }

    /** Makes one insertion and requires the readback to show exactly one rule more. */
    method InsertExactly(p: Program, mutation: Mutation, index: nat, before: set<string>, ghost baseF: TableState,
                         ghost baseN: TableState)
      returns (receipts: set<string>, ok: bool)
      requires WellFormed(p) && BaseIsQuiet(baseF, baseN, p) && InstalledUpTo(filter, natTable, baseF, baseN, p, index)
      requires index < |Mutations(p)| && mutation == Mutations(p)[index] && before == PlaneOwners(filter, natTable, p)
      modifies this`filter, this`natTable, this`commands
      ensures receipts <= PlaneOwners(filter, natTable, p)
      ensures || InstalledUpTo(filter, natTable, baseF, baseN, p, index)
              || InstalledUpTo(filter, natTable, baseF, baseN, p, index + 1)
      ensures ok ==>
                && InstalledUpTo(filter, natTable, baseF, baseN, p, index + 1)
                && receipts == PlaneOwners(filter, natTable, p)
      ensures AllDone() ==> ok
    {
      NextInsertion(filter, natTable, baseF, baseN, p, index);
      PushedOwner(filter, natTable, p, index);
      receipts := before;
      ok := Insert(mutation);
      if !ok {
        return;
      }
      receipts := receipts + {mutation.owner};
      InstalledUpToIsReadable(filter, natTable, baseF, baseN, p, index + 1);
      var observation := ObserveProgram(filter, natTable, p);
      ok := observation.Ok? && |observation.value| == index + 1;
    }

    /**
      Inserts the program rule by rule at the head of its chains.  The receipts name only rules that
      were inserted, and at every outcome what was in the plane before follows unchanged.
    */
    method Install(p: Program) returns (receipts: set<string>, ok: bool)
      requires WellFormed(p)
      modifies this`filter, this`natTable, this`commands
      ensures ok ==>
                && BaseIsQuiet(old(filter), old(natTable), p)
                && InstalledFrom(filter, old(filter), Filter, p, 0)
                && InstalledFrom(natTable, old(natTable), Nat, p, 0)
                && receipts == PlaneOwners(filter, natTable, p)
      ensures receipts <= PlaneOwners(filter, natTable, p)
      ensures || (filter == old(filter) && natTable == old(natTable))
              || exists index :: InstalledUpTo(filter, natTable, old(filter), old(natTable), p, index)
      // without failing commands only a plane that already shows the owner refuses
      ensures AllDone() ==> (ok <==> BaseIsQuiet(old(filter), old(natTable), p))
    {
      receipts := {};
      var mutations := BuildInstallMutations(p);
      NothingOwned(filter, natTable, p);
      if BaseIsQuiet(filter, natTable, p) {
        QuietPlaneIsReadable(filter, natTable, p);
      }
      var observation := ObserveProgram(filter, natTable, p);
      if observation.Err? || |observation.value| != 0 {
        return receipts, false;
      }
      receipts, ok := InsertEach(p, mutations, filter, natTable);
    }

    method InsertEach(p: Program, mutations: seq<Mutation>, ghost baseF: TableState, ghost baseN: TableState)
      returns (receipts: set<string>, ok: bool)
      requires WellFormed(p) && BaseIsQuiet(baseF, baseN, p) && filter == baseF && natTable == baseN
      requires mutations == Mutations(p)
      modifies this`filter, this`natTable, this`commands
      ensures receipts <= PlaneOwners(filter, natTable, p)
      ensures exists index: nat :: InstalledUpTo(filter, natTable, baseF, baseN, p, index)
      ensures ok ==>
                && InstalledUpTo(filter, natTable, baseF, baseN, p, |Mutations(p)|)
                && receipts == PlaneOwners(filter, natTable, p)
      ensures AllDone() ==> ok
    {
      receipts := {};
      NothingOwned(baseF, baseN, p);
      NothingInserted(baseF, baseN, p);
      var index := 0;
      while index < |mutations|
        invariant 0 <= index <= |mutations|
        invariant InstalledUpTo(filter, natTable, baseF, baseN, p, index)
        invariant receipts == PlaneOwners(filter, natTable, p)
      {
        receipts, ok := InsertExactly(p, mutations[index], index, receipts, baseF, baseN);
        if !ok {
          return;
        }
        index := index + 1;
      }
      ok := true;
    }

    /** iptables -D chain rule */
    method Delete(rule: Rule) returns (ok: bool)
      modifies this`filter, this`natTable, this`commands
      ensures AllDone() && Popped(old(filter), Filter, rule).Some? && Popped(old(natTable), Nat, rule).Some? ==> ok
      ensures || (&& Popped(old(filter), Filter, rule) == Some(filter)
                  && Popped(old(natTable), Nat, rule) == Some(natTable))
              || (!ok && filter == old(filter) && natTable == old(natTable))
    {
      var outcome := outcomes(commands);
      commands := commands + 1;
      var newFilter, newNat := Popped(filter, Filter, rule), Popped(natTable, Nat, rule);
      if newFilter.None? || newNat.None? {
        return false;
      }
      if outcome != Refused {
        filter, natTable := newFilter.value, newNat.value;
      }
      ok := outcome == Done;
    }

    /** Deletes one rule and requires the readback to show exactly one rule less. */
    method DeleteExactly(p: Program, rule: Rule, remaining: int, ghost f0: TableState, ghost n0: TableState,
                         ghost before: set<string>)
      returns (ok: bool, ghost after: set<string>)
      requires WellFormed(p) && Removable(f0, n0, p) && Reduced(filter, natTable, f0, n0, p, before)
      requires rule in p.rules && rule.owner in PlaneOwners(f0, n0, p) - before
      requires remaining == |PlaneOwners(f0, n0, p) - before|
      modifies this`filter, this`natTable, this`commands
      ensures Reduced(filter, natTable, f0, n0, p, after)
      ensures after == before || after == before + {rule.owner}
      ensures ok ==> after == before + {rule.owner} && remaining - 1 == |PlaneOwners(f0, n0, p) - after|
      ensures AllDone() ==> ok
    {
      NextRemoval(filter, natTable, f0, n0, p, before, rule);
      OneLess(PlaneOwners(f0, n0, p), before, rule.owner);
      ok := Delete(rule);
      if !ok {
        after := if Reduced(filter, natTable, f0, n0, p, before + {rule.owner}) then before + {rule.owner} else before;
        return;
      }
      after := before + {rule.owner};
      ReducedIsRemovable(filter, natTable, f0, n0, p, after);
      var observation := ObserveProgram(filter, natTable, p);
      ok := observation.Ok? && |observation.value| == remaining - 1;
    }

    /**
      Deletes the program's present rules one by one; with receipts only the receipted ones.  Success
      takes away exactly those, and at every outcome some of those and nothing else are gone.
    */
    method Remove(p: Program, receipts: Option<set<string>>) returns (ok: bool, ghost gone: set<string>)
      requires WellFormed(p)
      requires ChainsApart(filter, Filter) && ChainsApart(natTable, Nat)
      modifies this`filter, this`natTable, this`commands
      ensures gone <= Removed(PlaneOwners(old(filter), old(natTable), p), receipts)
      ensures Reduced(filter, natTable, old(filter), old(natTable), p, gone)
      ensures ok ==>
                && PlaneReadable(old(filter), old(natTable), p)
                && gone == Removed(PlaneOwners(old(filter), old(natTable), p), receipts)
      // without failing commands only an unreadable plane refuses
      ensures AllDone() ==> (ok <==> PlaneReadable(old(filter), old(natTable), p))
    {
      ghost var f0, n0 := filter, natTable;
      NothingReduced(f0, n0, p);
      gone := {};
      var observation := ObserveProgram(filter, natTable, p);
      if observation.Err? {
        return false, gone;
      }
      PlanRemovals(f0, n0, p, receipts);
      var removals := RemovalsOf(p.rules, observation.value, receipts);
      ok, gone := RemoveEach(p, removals, |observation.value|, f0, n0);
    }

    method RemoveEach(p: Program, removals: seq<Rule>, present: nat, ghost f0: TableState, ghost n0: TableState)
      returns (ok: bool, ghost gone: set<string>)
      requires WellFormed(p) && Removable(f0, n0, p) && filter == f0 && natTable == n0
      requires Planned(removals, p, PlaneOwners(f0, n0, p)) && present == |PlaneOwners(f0, n0, p)|
      modifies this`filter, this`natTable, this`commands
      ensures Reduced(filter, natTable, f0, n0, p, gone) && gone <= OwnersOf(removals)
      ensures ok ==> gone == OwnersOf(removals)
      ensures AllDone() ==> ok
    {
      NothingReduced(f0, n0, p);
      var remaining: int := present;
      gone := {};
      var index := 0;
      while index < |removals|
        invariant 0 <= index <= |removals|
        invariant gone == OwnersOf(removals[..index])
        invariant Reduced(filter, natTable, f0, n0, p, gone)
        invariant remaining == |PlaneOwners(f0, n0, p) - gone|
      {
        var rule := removals[index];
        OwnersOfNext(removals, index);
        SomeOwners(removals, index);
        ok, gone := DeleteExactly(p, rule, remaining, f0, n0, gone);
        if !ok {
          return;
        }
        remaining := remaining - 1;
        index := index + 1;
      }
      assert removals[..index] == removals;
      ok := true;
    }
  }

  /** The rules to delete: different rules of the program that are present. */
  ghost predicate Planned(removals: seq<Rule>, p: Program, present: set<string>) {
    && (forall i :: 0 <= i < |removals| ==> removals[i] in p.rules && removals[i].owner in present)
    && (forall i, j :: 0 <= i < j < |removals| ==> removals[i].owner != removals[j].owner)
  }

  lemma {:induction false} PlanRemovals(f: TableState, n: TableState, p: Program, receipts: Option<set<string>>)
    requires WellFormed(p) && PlaneReadable(f, n, p)
    ensures var removals := RemovalsOf(p.rules, PlaneOwners(f, n, p), receipts);
            && Planned(removals, p, PlaneOwners(f, n, p))
            && OwnersOf(removals) == Removed(PlaneOwners(f, n, p), receipts)
  {
    var present := PlaneOwners(f, n, p);
    RemovalsAreDistinct(p.rules, present, receipts);
    RemovalsCoverThePermitted(f, n, p, receipts);
    var removals := RemovalsOf(p.rules, present, receipts);
    forall i | 0 <= i < |removals| ensures removals[i] in p.rules && removals[i].owner in present {
      assert removals[i] in removals;
    }
  }

  lemma SomeOwners(rules: seq<Rule>, i: nat)
    requires i < |rules|
    ensures OwnersOf(rules[..i]) + {rules[i].owner} <= OwnersOf(rules)
  {
    assert forall r :: r in rules[..i] ==> r in rules;
    assert rules[i] in rules;
  }

  lemma NothingReduced(f: TableState, n: TableState, p: Program)
    ensures Reduced(f, n, f, n, p, {})
  {
    WithoutNothing(f.chain, p, {});
    WithoutNothing(n.chain, p, {});
  }

  lemma OneLess(all: set<string>, done: set<string>, owner: string)
    requires owner in all && owner !in done
    ensures |all - (done + {owner})| == |all - done| - 1
  {
    assert all - done == (all - (done + {owner})) + {owner};
  }

  lemma OwnersOfNext(rules: seq<Rule>, i: nat)
    requires i < |rules|
    requires forall a, b :: 0 <= a < b < |rules| ==> rules[a].owner != rules[b].owner
    ensures OwnersOf(rules[..i + 1]) == OwnersOf(rules[..i]) + {rules[i].owner}
    ensures rules[i].owner !in OwnersOf(rules[..i])
    ensures rules[i].owner in OwnersOf(rules)
  {
    assert rules[..i + 1] == rules[..i] + [rules[i]];
    assert rules[i] in rules;
  }

  lemma QuietPlaneIsReadable(f: TableState, n: TableState, p: Program)
    requires BaseIsQuiet(f, n, p)
    ensures PlaneReadable(f, n, p)
  {
    QuietTable(f, p);
    QuietTable(n, p);
  }
}
