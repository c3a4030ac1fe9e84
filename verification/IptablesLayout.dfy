/**
  Several programs in one plane: any sequence of completed installations and removals leaves the
  installed programs, newest first, in front of the untouched chain, and the leading-program matcher
  recognises exactly such chains.
*/
module IptablesLayout {
  import opened IptablesPlane
  import opened Wrappers

  /** The lines of several programs, one program after the other. */
  function Arranged(programs: seq<Program>, table: Table): seq<Line> {
    if programs == [] then [] else ProgramLines(programs[0], table) + Arranged(programs[1..], table)
  }

  lemma {:induction false} ArrangedConcat(a: seq<Program>, b: seq<Program>, table: Table)
    ensures Arranged(a + b, table) == Arranged(a, table) + Arranged(b, table)
  {
    if a == [] {
      assert a + b == b;
    } else {
      assert (a + b)[1..] == a[1..] + b;
      ArrangedConcat(a[1..], b, table);
    }
  }

  lemma {:induction false} ArrangedOne(p: Program, table: Table)
    ensures Arranged([p], table) == ProgramLines(p, table)
  {
    var one: seq<Program> := [p];
    assert one[1..] == [];
  }

  /** Neither owner prefix continues the other, as with different run identities of one length. */
  ghost predicate Apart(p: Program, q: Program) {
    !(p.ownerPrefix <= q.ownerPrefix) && !(q.ownerPrefix <= p.ownerPrefix)
  }

  lemma OwnedByOne(line: Line, p: Program, q: Program)
    requires OwnedBy(line, p) && OwnedBy(line, q)
    ensures !Apart(p, q)
  {
    var owner := CommentOf(line);
    var a, b := p.ownerPrefix, q.ownerPrefix;
    assert a == owner[..|a|] && b == owner[..|b|];
    if |a| <= |b| {
      assert a == b[..|a|];
    } else {
      assert b == a[..|b|];
    }
  }

  ghost predicate AllApart(programs: seq<Program>) {
    && (forall i :: 0 <= i < |programs| ==> WellFormed(programs[i]))
    && (forall i, j :: 0 <= i < j < |programs| ==> Apart(programs[i], programs[j]))
  }

  // ---------------------------------------------------------------- installing and removing

  datatype Operation = Installing(program: Program) | Removing(program: Program)

  function Dropped(programs: seq<Program>, p: Program): (r: seq<Program>)
    ensures forall q :: q in r ==> q in programs && q != p
  {
    if programs == [] then []
    else (if programs[0] == p then [] else [programs[0]]) + Dropped(programs[1..], p)
  }

  /** The installed programs after one more operation, newest first. */
  function Next(installed: seq<Program>, operation: Operation): seq<Program> {
    match operation
    case Installing(p) => [p] + installed
    case Removing(p) => Dropped(installed, p)
  }

  function InstalledAfter(operations: seq<Operation>): seq<Program> {
    if operations == [] then []
    else Next(InstalledAfter(operations[..|operations| - 1]), operations[|operations| - 1])
  }

  /** The table shows the installed programs, in order, in front of its original chain. */
  ghost predicate LaidOut(t: TableState, base: TableState, table: Table, installed: seq<Program>) {
    t.others == base.others && t.chain == Arranged(installed, table) + base.chain
  }

  ghost predicate QuietFor(base: TableState, p: Program) {
    Quiet(base.others, p) && Quiet(base.chain, p)
  }

  ghost predicate ApartFrom(programs: seq<Program>, p: Program) {
    forall i :: 0 <= i < |programs| ==> Apart(programs[i], p)
  }

  lemma {:induction false} QuietForStrangers(installed: seq<Program>, table: Table, p: Program)
    requires AllApart(installed) && ApartFrom(installed, p)
    ensures Quiet(Arranged(installed, table), p)
  {
    if installed != [] {
      var q := installed[0];
      ProgramLinesFacts(q, table);
      var own := ProgramLines(q, table);
      forall i | 0 <= i < |own| ensures !OwnedBy(own[i], p) {
        if OwnedBy(own[i], p) {
          OwnedByOne(own[i], q, p);
        }
      }
      QuietForStrangers(installed[1..], table, p);
    }
  }

  lemma QuietConcat(a: seq<Line>, b: seq<Line>, p: Program)
    ensures Quiet(a + b, p) <==> Quiet(a, p) && Quiet(b, p)
  {
    if Quiet(a + b, p) {
      assert forall i :: 0 <= i < |a| ==> (a + b)[i] == a[i];
      assert forall i :: 0 <= i < |b| ==> (a + b)[|a| + i] == b[i];
    }
  }

  lemma {:induction false} WithoutAll(lines: seq<Line>, p: Program, owners: set<string>)
    requires forall i :: 0 <= i < |lines| ==> OwnedBy(lines[i], p) && CommentOf(lines[i]) in owners
    ensures Without(lines, p, owners) == []
  {
    if lines != [] {
      WithoutAll(lines[1..], p, owners);
    }
  }

  ghost predicate HoldsOwners(owners: set<string>, p: Program, table: Table) {
    forall i :: 0 <= i < |ProgramLines(p, table)| ==> CommentOf(ProgramLines(p, table)[i]) in owners
  }

  lemma {:induction false} StrangerLinesStay(q: Program, table: Table, p: Program, owners: set<string>)
    requires WellFormed(q) && Apart(q, p)
    ensures Without(ProgramLines(q, table), p, owners) == ProgramLines(q, table)
  {
    ProgramLinesFacts(q, table);
    var own := ProgramLines(q, table);
    forall i | 0 <= i < |own| ensures !OwnedBy(own[i], p) {
      if OwnedBy(own[i], p) {
        OwnedByOne(own[i], q, p);
      }
    }
    WithoutNothing(own, p, owners);
  }

  lemma {:induction false} OwnLinesGo(p: Program, table: Table, owners: set<string>)
    requires WellFormed(p) && HoldsOwners(owners, p, table)
    ensures Without(ProgramLines(p, table), p, owners) == []
  {
    ProgramLinesFacts(p, table);
    WithoutAll(ProgramLines(p, table), p, owners);
  }

  ghost predicate SameOrApart(installed: seq<Program>, p: Program) {
    forall i :: 0 <= i < |installed| ==> installed[i] == p || Apart(installed[i], p)
  }

  /** Removing one program of a layout leaves the others, in order. */
  lemma {:induction false} WithoutOneProgram(installed: seq<Program>, table: Table, p: Program, owners: set<string>)
    requires AllApart(installed) && (p in installed ==> HoldsOwners(owners, p, table))
    requires SameOrApart(installed, p)
    ensures Without(Arranged(installed, table), p, owners) == Arranged(Dropped(installed, p), table)
  {
    if installed != [] {
      var q, rest := installed[0], installed[1..];
      WithoutConcat(ProgramLines(q, table), Arranged(rest, table), p, owners);
      WithoutOneProgram(rest, table, p, owners);
      if q == p {
        OwnLinesGo(p, table, owners);
        assert Dropped(installed, p) == Dropped(rest, p);
      } else {
        StrangerLinesStay(q, table, p, owners);
        ArrangedOne(q, table);
        ArrangedConcat([q], Dropped(rest, p), table);
      }
    }
  }

  /** An installed program shows all its owners. */
  lemma {:induction false} InstalledShowsOwners(installed: seq<Program>, table: Table, p: Program, rest: seq<Line>)
    requires p in installed && WellFormed(p)
    ensures HoldsOwners(OwnersIn(Arranged(installed, table) + rest, p), p, table)
  {
    var q, others := installed[0], installed[1..];
    var lines := ProgramLines(q, table);
    assert Arranged(installed, table) + rest == lines + (Arranged(others, table) + rest);
    OwnersInConcat(lines, Arranged(others, table) + rest, p);
    if q == p {
      ProgramLinesFacts(p, table);
      OwnersInMembers(lines, p);
    } else {
      InstalledShowsOwners(others, table, p, rest);
    }
  }

  lemma {:induction false} ArrangedInChain(installed: seq<Program>, table: Table)
    requires forall i :: 0 <= i < |installed| ==> WellFormed(installed[i])
    ensures AllOfChain(Arranged(installed, table), table)
  {
    if installed != [] {
      ProgramLinesFacts(installed[0], table);
      ArrangedInChain(installed[1..], table);
    }
  }

  lemma LaidOutChainsApart(t: TableState, base: TableState, table: Table, installed: seq<Program>)
    requires ChainsApart(base, table) && LaidOut(t, base, table, installed) && AllApart(installed)
    ensures ChainsApart(t, table)
  {
    ArrangedInChain(installed, table);
  }

  lemma {:induction false} LaidOutAfterRemoval(t: TableState, base: TableState, table: Table, installed: seq<Program>,
                                               p: Program, owners: set<string>)
    requires LaidOut(t, base, table, installed) && AllApart(installed) && QuietFor(base, p)
    requires p in installed ==> HoldsOwners(owners, p, table)
    requires SameOrApart(installed, p)
    ensures LaidOut(TableWithout(t, p, owners), base, table, Dropped(installed, p))
  {
    WithoutConcat(Arranged(installed, table), base.chain, p, owners);
    WithoutOneProgram(installed, table, p, owners);
    WithoutNothing(base.chain, p, owners);
  }

  lemma LaidOutAfterInstallation(t: TableState, before: TableState, base: TableState, table: Table,
                                 installed: seq<Program>, p: Program)
    requires LaidOut(before, base, table, installed) && InstalledFrom(t, before, table, p, 0)
    ensures LaidOut(t, base, table, [p] + installed)
  {
    assert ProgramLines(p, table)[0..] == ProgramLines(p, table);
    ArrangedOne(p, table);
    ArrangedConcat([p], installed, table);
  }

  lemma {:induction false} DroppedApart(installed: seq<Program>, p: Program)
    requires AllApart(installed)
    ensures AllApart(Dropped(installed, p))
  {
    if installed != [] {
      DroppedApart(installed[1..], p);
      var rest := Dropped(installed[1..], p);
      forall i | 0 <= i < |rest| ensures Apart(installed[0], rest[i]) {
        assert rest[i] in rest;
        var at :| 0 <= at < |installed[1..]| && installed[1..][at] == rest[i];
        assert installed[at + 1] == rest[i];
      }
    }
  }

  /** An installed program is visible, so it cannot be installed on top of itself. */
  lemma InstalledIsNotQuiet(t: TableState, base: TableState, table: Table, installed: seq<Program>, p: Program)
    requires LaidOut(t, base, table, installed) && WellFormed(p) && p in installed
    ensures !Quiet(t.chain, p)
  {
    InstalledShowsOwners(installed, table, p, base.chain);
    ProgramLinesFacts(p, table);
    assert CommentOf(ProgramLines(p, table)[0]) in OwnersIn(t.chain, p);
    if Quiet(t.chain, p) {
      QuietHasNoOwners(t.chain, p);
    }
  }

  /** The programs of the operations: well formed, of different owners, and not in the original tables. */
  ghost predicate Serialised(operations: seq<Operation>, filter: TableState, natTable: TableState) {
    && (forall i :: 0 <= i < |operations| ==>
          && WellFormed(operations[i].program)
          && QuietFor(filter, operations[i].program) && QuietFor(natTable, operations[i].program))
    && (forall i, j :: 0 <= i < |operations| && 0 <= j < |operations| ==>
          operations[i].program == operations[j].program || Apart(operations[i].program, operations[j].program))
  }

  lemma {:induction false} InstalledComesFromOperations(operations: seq<Operation>)
    ensures forall q :: q in InstalledAfter(operations) ==> exists i :: 0 <= i < |operations| && operations[i].program == q
  {
    if operations != [] {
      InstalledComesFromOperations(operations[..|operations| - 1]);
    }
  }

  lemma InstalledIsApart(operations: seq<Operation>, k: nat, filter: TableState, natTable: TableState)
    requires Serialised(operations, filter, natTable) && k < |operations|
    ensures SameOrApart(InstalledAfter(operations[..k]), operations[k].program)
  {
    var installed, p := InstalledAfter(operations[..k]), operations[k].program;
    InstalledComesFromOperations(operations[..k]);
    forall i | 0 <= i < |installed| ensures installed[i] == p || Apart(installed[i], p) {
      assert installed[i] in installed;
      var at :| 0 <= at < k && operations[..k][at].program == installed[i];
      assert operations[at].program == installed[i];
    }
  }

  /** The plane after completed operations, on values. */
  ghost predicate PlaneLaidOut(f: TableState, n: TableState, f0: TableState, n0: TableState, installed: seq<Program>) {
    AllApart(installed) && LaidOut(f, f0, Filter, installed) && LaidOut(n, n0, Nat, installed)
  }

  lemma InstallKeepsLayout(f: TableState, n: TableState, f1: TableState, n1: TableState, f0: TableState, n0: TableState,
                           installed: seq<Program>, p: Program)
    requires PlaneLaidOut(f, n, f0, n0, installed) && WellFormed(p) && BaseIsQuiet(f, n, p)
    requires SameOrApart(installed, p)
    requires InstalledFrom(f1, f, Filter, p, 0) && InstalledFrom(n1, n, Nat, p, 0)
    ensures PlaneLaidOut(f1, n1, f0, n0, [p] + installed)
  {
    if p in installed {
      InstalledIsNotQuiet(f, f0, Filter, installed, p);
    }
    LaidOutAfterInstallation(f1, f, f0, Filter, installed, p);
    LaidOutAfterInstallation(n1, n, n0, Nat, installed, p);
    var all := [p] + installed;
    forall j | 0 < j < |all| ensures Apart(p, all[j]) {
      assert all[j] == installed[j - 1] && all[j] in installed;
    }
  }

  lemma {:induction false} RemoveKeepsLayout(f: TableState, n: TableState, f0: TableState, n0: TableState,
                                             installed: seq<Program>, p: Program)
    requires PlaneLaidOut(f, n, f0, n0, installed) && WellFormed(p) && QuietFor(f0, p) && QuietFor(n0, p)
    requires SameOrApart(installed, p)
    ensures var owners := PlaneOwners(f, n, p);
            PlaneLaidOut(TableWithout(f, p, owners), TableWithout(n, p, owners), f0, n0, Dropped(installed, p))
  {
    var owners := PlaneOwners(f, n, p);
    OwnersInConcat(f.others, f.chain, p);
    OwnersInConcat(n.others, n.chain, p);
    if p in installed {
      InstalledShowsOwners(installed, Filter, p, f0.chain);
      InstalledShowsOwners(installed, Nat, p, n0.chain);
      assert HoldsOwners(owners, p, Filter) && HoldsOwners(owners, p, Nat);
    }
    LaidOutAfterRemoval(f, f0, Filter, installed, p, owners);
    LaidOutAfterRemoval(n, n0, Nat, installed, p, owners);
    DroppedApart(installed, p);
  }

  method RunOne(plane: RulePlane, operation: Operation, ghost f0: TableState, ghost n0: TableState,
                ghost installed: seq<Program>)
    returns (ok: bool)
    requires ChainsApart(f0, Filter) && ChainsApart(n0, Nat) && PlaneLaidOut(plane.filter, plane.natTable, f0, n0, installed)
    requires WellFormed(operation.program) && QuietFor(f0, operation.program) && QuietFor(n0, operation.program)
    requires SameOrApart(installed, operation.program)
    modifies plane
    ensures ok ==> PlaneLaidOut(plane.filter, plane.natTable, f0, n0, Next(installed, operation))
  {
    ghost var f, n := plane.filter, plane.natTable;
    LaidOutChainsApart(f, f0, Filter, installed);
    LaidOutChainsApart(n, n0, Nat, installed);
    var p := operation.program;
    if operation.Installing? {
      var receipts;
      receipts, ok := plane.Install(p);
      if ok {
        InstallKeepsLayout(f, n, plane.filter, plane.natTable, f0, n0, installed, p);
      }
    } else {
      ghost var gone;
      ok, gone := plane.Remove(p, None);
      if ok {
        RemoveKeepsLayout(f, n, f0, n0, installed, p);
      }
    }
  }

  /**
    Runs operations one after another.  When all complete, both chains are the installed programs,
    newest first and in the same order, followed by exactly the original chain.
  */
  method RunOperations(plane: RulePlane, operations: seq<Operation>) returns (ok: bool)
    requires ChainsApart(plane.filter, Filter) && ChainsApart(plane.natTable, Nat)
    requires Serialised(operations, plane.filter, plane.natTable)
    modifies plane
    ensures ok ==> PlaneLaidOut(plane.filter, plane.natTable, old(plane.filter), old(plane.natTable), InstalledAfter(operations))
  {
    ghost var f0, n0 := plane.filter, plane.natTable;
    var index := 0;
    while index < |operations|
      invariant 0 <= index <= |operations|
      invariant PlaneLaidOut(plane.filter, plane.natTable, f0, n0, InstalledAfter(operations[..index]))
    {
      InstalledIsApart(operations, index, f0, n0);
      assert operations[..index + 1][..index] == operations[..index];
      ok := RunOne(plane, operations[index], f0, n0, InstalledAfter(operations[..index]));
      if !ok {
        return;
      }
      index := index + 1;
    }
    assert operations[..index] == operations;
    ok := true;
  }

  // ---------------------------------------------------------------- recognising a layout

  function Pick(programs: seq<Program>, order: seq<nat>): (r: seq<Program>)
    requires forall i :: 0 <= i < |order| ==> order[i] < |programs|
    ensures |r| == |order|
  {
    seq(|order|, i requires 0 <= i < |order| => programs[order[i]])
  }

  ghost predicate Within(order: seq<nat>, programs: seq<Program>) {
    forall i :: 0 <= i < |order| ==> order[i] < |programs|
  }

  /** The chain starts with these programs in this order. */
  ghost predicate Leads(chain: seq<Line>, table: Table, programs: seq<Program>, order: seq<nat>) {
    Within(order, programs) && Arranged(Pick(programs, order), table) <= chain
  }

  ghost predicate Ordering(order: seq<nat>, complete: seq<nat>) {
    multiset(order) == multiset(complete)
  }

  /** The program's lines stand at the cursor. */
  predicate StandsAt(chain: seq<Line>, cursor: nat, table: Table, p: Program) {
    var expected := ProgramLines(p, table);
    |expected| > 0 && cursor + |expected| <= |chain| && chain[cursor..cursor + |expected|] == expected
  }

  lemma {:induction false} PickConcat(programs: seq<Program>, a: seq<nat>, b: seq<nat>, table: Table)
    requires Within(a, programs) && Within(b, programs)
    ensures Within(a + b, programs)
    ensures Arranged(Pick(programs, a + b), table) == Arranged(Pick(programs, a), table) + Arranged(Pick(programs, b), table)
  {
    assert Pick(programs, a + b) == Pick(programs, a) + Pick(programs, b);
    ArrangedConcat(Pick(programs, a), Pick(programs, b), table);
  }

  lemma {:induction false} PickOne(programs: seq<Program>, x: nat, table: Table)
    requires x < |programs|
    ensures Arranged(Pick(programs, [x]), table) == ProgramLines(programs[x], table)
  {
    assert Pick(programs, [x]) == [programs[x]];
    ArrangedOne(programs[x], table);
  }

  lemma PrefixTwice<T>(a: seq<T>, b: seq<T>, c: seq<T>, chain: seq<T>)
    requires a + (b + c) <= chain
    ensures |a| + |b| <= |chain| && chain[|a|..|a| + |b|] == b
  {
    assert (a + (b + c))[|a|..|a| + |b|] == b;
  }

  lemma {:induction false} SplitOrder(programs: seq<Program>, order: seq<nat>, k: nat, table: Table)
    requires Within(order, programs) && k < |order|
    ensures Within(order[..k], programs) && Within(order[k + 1..], programs)
    ensures Arranged(Pick(programs, order), table)
         == Arranged(Pick(programs, order[..k]), table)
            + (ProgramLines(programs[order[k]], table) + Arranged(Pick(programs, order[k + 1..]), table))
  {
    var before, x, after := order[..k], order[k], order[k + 1..];
    assert order == before + ([x] + after);
    PickConcat(programs, before, [x] + after, table);
    PickConcat(programs, [x], after, table);
    PickOne(programs, x, table);
  }

  /** In an order that leads the chain, the next program stands after the ones before it. */
  lemma {:induction false} NextStands(chain: seq<Line>, table: Table, programs: seq<Program>, order: seq<nat>, k: nat)
    requires AllApart(programs) && Leads(chain, table, programs, order) && k < |order|
    ensures StandsAt(chain, |Arranged(Pick(programs, order[..k]), table)|, table, programs[order[k]])
  {
    var x := order[k];
    SplitOrder(programs, order, k, table);
    ProgramLinesFacts(programs[x], table);
    PrefixTwice(Arranged(Pick(programs, order[..k]), table), ProgramLines(programs[x], table),
                Arranged(Pick(programs, order[k + 1..]), table), chain);
  }

  /** Only one of different programs can stand at a place. */
  lemma OneStandsAt(chain: seq<Line>, cursor: nat, table: Table, p: Program, q: Program)
    requires WellFormed(p) && WellFormed(q) && StandsAt(chain, cursor, table, p) && StandsAt(chain, cursor, table, q)
    ensures !Apart(p, q)
  {
    ProgramLinesFacts(p, table);
    ProgramLinesFacts(q, table);
    assert chain[cursor] == ProgramLines(p, table)[0];
    assert chain[cursor] == ProgramLines(q, table)[0];
    OwnedByOne(chain[cursor], p, q);
  }

  lemma SameRest(a: seq<nat>, rest: seq<nat>, remaining: seq<nat>)
    requires multiset(a + rest) == multiset(a) + multiset(remaining)
    ensures multiset(rest) == multiset(remaining)
  {
    assert multiset(a + rest) == multiset(a) + multiset(rest);
    forall x: nat ensures multiset(rest)[x] == multiset(remaining)[x] {
      assert multiset(a + rest)[x] == multiset(a)[x] + multiset(rest)[x];
      assert (multiset(a) + multiset(remaining))[x] == multiset(a)[x] + multiset(remaining)[x];
    }
  }

  lemma OrderContinues(order: seq<nat>, remaining: seq<nat>, complete: seq<nat>, o: seq<nat>)
    requires multiset(order) + multiset(remaining) == multiset(complete) && Ordering(o, complete)
    requires order <= o && remaining != []
    ensures |order| < |o| && o[|order|] in remaining
  {
    var rest := o[|order|..];
    assert o == order + rest;
    SameRest(order, rest, remaining);
    assert remaining[0] in multiset(remaining);
    assert remaining[0] in rest;
    assert rest[0] in multiset(rest);
  }

  method FindStanding(chain: seq<Line>, cursor: nat, table: Table, programs: seq<Program>, remaining: seq<nat>)
    returns (found: Option<nat>)
    requires Within(remaining, programs)
    ensures found.Some? ==> found.value < |remaining| && StandsAt(chain, cursor, table, programs[remaining[found.value]])
    ensures found.None? ==> NoneStands(chain, cursor, table, programs, remaining)
  {
    var index := 0;
    while index < |remaining|
      invariant 0 <= index <= |remaining|
      invariant forall i :: 0 <= i < index ==> !StandsAt(chain, cursor, table, programs[remaining[i]])
    {
      if StandsAt(chain, cursor, table, programs[remaining[index]]) {
        return Some(index);
      }
      index := index + 1;
    }
    found := None;
  }

  /** Every ordering that leads the chain begins with what has been matched. */
  ghost predicate Forced(chain: seq<Line>, table: Table, programs: seq<Program>, complete: seq<nat>, order: seq<nat>) {
    forall o: seq<nat> :: Ordering(o, complete) && Leads(chain, table, programs, o) ==> order <= o
  }

  lemma {:induction false} StuckMeansNone(chain: seq<Line>, table: Table, programs: seq<Program>, complete: seq<nat>,
                                          order: seq<nat>, remaining: seq<nat>, o: seq<nat>)
    requires AllApart(programs) && Within(order, programs) && Within(remaining, programs) && remaining != []
    requires multiset(order) + multiset(remaining) == multiset(complete)
    requires Forced(chain, table, programs, complete, order)
    requires forall i :: 0 <= i < |remaining| ==>
               !StandsAt(chain, |Arranged(Pick(programs, order), table)|, table, programs[remaining[i]])
    requires Ordering(o, complete)
    ensures !Leads(chain, table, programs, o)
  {
    if Leads(chain, table, programs, o) {
      OrderContinues(order, remaining, complete, o);
      assert o[..|order|] == order;
      NextStands(chain, table, programs, o, |order|);
      assert false;
    }
  }

  lemma {:induction false} MatchIsForced(chain: seq<Line>, table: Table, programs: seq<Program>, complete: seq<nat>,
                                         order: seq<nat>, remaining: seq<nat>, m: nat)
    requires AllApart(programs) && Within(order, programs) && Within(remaining, programs) && m < |remaining|
    requires multiset(order) + multiset(remaining) == multiset(complete)
    requires Forced(chain, table, programs, complete, order)
    requires StandsAt(chain, |Arranged(Pick(programs, order), table)|, table, programs[remaining[m]])
    ensures Forced(chain, table, programs, complete, order + [remaining[m]])
  {
    var cursor := |Arranged(Pick(programs, order), table)|;
    forall o: seq<nat> | Ordering(o, complete) && Leads(chain, table, programs, o) ensures order + [remaining[m]] <= o {
      OrderContinues(order, remaining, complete, o);
      assert o[..|order|] == order;
      NextStands(chain, table, programs, o, |order|);
      OneStandsAt(chain, cursor, table, programs[o[|order|]], programs[remaining[m]]);
      assert o[|order|] == remaining[m];
    }
  }

  lemma PrefixContinues<T>(a: seq<T>, b: seq<T>, chain: seq<T>)
    requires a <= chain && |a| + |b| <= |chain| && chain[|a|..|a| + |b|] == b
    ensures a + b <= chain
  {
    assert chain[..|a| + |b|] == chain[..|a|] + chain[|a|..|a| + |b|];
  }

  lemma {:induction false} MatchLeads(chain: seq<Line>, table: Table, programs: seq<Program>, order: seq<nat>, x: nat)
    requires Leads(chain, table, programs, order) && x < |programs|
    requires StandsAt(chain, |Arranged(Pick(programs, order), table)|, table, programs[x])
    ensures Leads(chain, table, programs, order + [x])
    ensures |Arranged(Pick(programs, order + [x]), table)|
         == |Arranged(Pick(programs, order), table)| + |ProgramLines(programs[x], table)|
  {
    PickConcat(programs, order, [x], table);
    PickOne(programs, x, table);
    PrefixContinues(Arranged(Pick(programs, order), table), ProgramLines(programs[x], table), chain);
  }

  function DeletedAt(s: seq<nat>, m: nat): (r: seq<nat>)
    requires m < |s|
    ensures |r| == |s| - 1
    ensures forall i :: 0 <= i < |r| ==> r[i] in s
    ensures multiset(r) + multiset{s[m]} == multiset(s)
  {
    assert s == s[..m] + ([s[m]] + s[m + 1..]);
    s[..m] + s[m + 1..]
  }

  /** What holds while matching: the matched programs end at the cursor and no other start is possible. */
  ghost predicate Matching(chain: seq<Line>, table: Table, programs: seq<Program>, complete: seq<nat>, order: seq<nat>,
                           remaining: seq<nat>, cursor: nat) {
    && multiset(order) + multiset(remaining) == multiset(complete)
    && Within(remaining, programs) && Leads(chain, table, programs, order)
    && cursor == |Arranged(Pick(programs, order), table)|
    && Forced(chain, table, programs, complete, order)
  }

  lemma StillWithin(programs: seq<Program>, remaining: seq<nat>, m: nat)
    requires Within(remaining, programs) && m < |remaining|
    ensures Within(DeletedAt(remaining, m), programs)
  {
    var rest := DeletedAt(remaining, m);
    forall i | 0 <= i < |rest| ensures rest[i] < |programs| {
      var at :| 0 <= at < |remaining| && remaining[at] == rest[i];
    }
  }

  lemma NextMatch(chain: seq<Line>, table: Table, programs: seq<Program>, complete: seq<nat>, order: seq<nat>,
                  remaining: seq<nat>, cursor: nat, m: nat)
    requires AllApart(programs) && Matching(chain, table, programs, complete, order, remaining, cursor) && m < |remaining|
    requires Within(remaining, programs) && StandsAt(chain, cursor, table, programs[remaining[m]])
    ensures Matching(chain, table, programs, complete, order + [remaining[m]], DeletedAt(remaining, m),
                     cursor + |ProgramLines(programs[remaining[m]], table)|)
  {
    MatchIsForced(chain, table, programs, complete, order, remaining, m);
    MatchLeads(chain, table, programs, order, remaining[m]);
    StillWithin(programs, remaining, m);
    assert multiset(order + [remaining[m]]) == multiset(order) + multiset{remaining[m]};
  }

  lemma NothingMatchedYet(chain: seq<Line>, table: Table, programs: seq<Program>, complete: seq<nat>)
    requires Within(complete, programs)
    ensures Matching(chain, table, programs, complete, [], complete, 0)
  {
    assert Pick(programs, []) == [];
  }

  lemma AllMatched(chain: seq<Line>, table: Table, programs: seq<Program>, complete: seq<nat>, order: seq<nat>, cursor: nat)
    requires Matching(chain, table, programs, complete, order, [], cursor)
    ensures OnlyOrder(chain, table, programs, complete, order)
  {
    var none: seq<nat> := [];
    assert multiset(none) == multiset{};
    forall o: seq<nat> | Ordering(o, complete) && Leads(chain, table, programs, o) ensures o == order {
      SameSizePrefix(order, o);
    }
  }

  /** None of the remaining programs stands at the cursor. */
  ghost predicate NoneStands(chain: seq<Line>, cursor: nat, table: Table, programs: seq<Program>, remaining: seq<nat>) {
    Within(remaining, programs) && forall i :: 0 <= i < |remaining| ==> !StandsAt(chain, cursor, table, programs[remaining[i]])
  }

  lemma {:induction false} Stuck(chain: seq<Line>, table: Table, programs: seq<Program>, complete: seq<nat>,
                                 order: seq<nat>, remaining: seq<nat>, cursor: nat)
    requires AllApart(programs) && Matching(chain, table, programs, complete, order, remaining, cursor) && remaining != []
    requires NoneStands(chain, cursor, table, programs, remaining)
    ensures NoOrder(chain, table, programs, complete)
  {
    forall o: seq<nat> | Ordering(o, complete) ensures !Leads(chain, table, programs, o) {
      StuckMeansNone(chain, table, programs, complete, order, remaining, o);
    }
  }

  ghost predicate OnlyOrder(chain: seq<Line>, table: Table, programs: seq<Program>, complete: seq<nat>, order: seq<nat>) {
    && Ordering(order, complete) && Leads(chain, table, programs, order)
    && forall o: seq<nat> :: Ordering(o, complete) && Leads(chain, table, programs, o) ==> o == order
  }

  ghost predicate NoOrder(chain: seq<Line>, table: Table, programs: seq<Program>, complete: seq<nat>) {
    forall o: seq<nat> :: Ordering(o, complete) ==> !Leads(chain, table, programs, o)
  }

  /**
    The greedy matcher: it succeeds exactly when the chain starts with some ordering of the complete
    programs, and that ordering is the only one.
  */
  method LeadingProgramOrder(chain: seq<Line>, table: Table, programs: seq<Program>, complete: seq<nat>)
    returns (r: Result<seq<nat>, ObserveError>)
    requires AllApart(programs) && Within(complete, programs)
    ensures r.Ok? ==> OnlyOrder(chain, table, programs, complete, r.value)
    ensures r.Err? ==> NoOrder(chain, table, programs, complete)
  {
    var remaining := complete;
    var order: seq<nat> := [];
    var cursor: nat := 0;
    NothingMatchedYet(chain, table, programs, complete);
    while |remaining| > 0
      invariant Matching(chain, table, programs, complete, order, remaining, cursor)
      decreases |remaining|
    {
      assert Within(remaining, programs);
      var found := FindStanding(chain, cursor, table, programs, remaining);
      if found.None? {
        Stuck(chain, table, programs, complete, order, remaining, cursor);
        return Err(NotLeading);
      }
      var matched := remaining[found.value];
      NextMatch(chain, table, programs, complete, order, remaining, cursor, found.value);
      cursor := cursor + |ProgramLines(programs[matched], table)|;
      order := order + [matched];
      remaining := DeletedAt(remaining, found.value);
    }
    AllMatched(chain, table, programs, complete, order, cursor);
    r := Ok(order);
  }

  lemma SameSizePrefix(order: seq<nat>, o: seq<nat>)
    requires multiset(order) == multiset(o) && order <= o
    ensures o == order
  {
    assert |multiset(order)| == |order| && |multiset(o)| == |o|;
  }

  // ---------------------------------------------------------------- observing published programs

  ghost predicate Whole(f: TableState, n: TableState, p: Program) {
    PlaneReadable(f, n, p) && |PlaneOwners(f, n, p)| == |p.rules|
  }

  ghost predicate Absent(f: TableState, n: TableState, p: Program) {
    PlaneReadable(f, n, p) && PlaneOwners(f, n, p) == {}
  }

  /** The first programs are each whole or absent, and `complete` lists the whole ones. */
  ghost predicate Classified(f: TableState, n: TableState, programs: seq<Program>, count: nat, complete: seq<nat>) {
    && count <= |programs|
    && (forall i :: 0 <= i < count ==> if i in complete then Whole(f, n, programs[i]) else Absent(f, n, programs[i]))
    && (forall k :: 0 <= k < |complete| ==> complete[k] < count)
    && (forall k, l :: 0 <= k < l < |complete| ==> complete[k] != complete[l])
  }

  /** Every published program is whole or absent, and the whole ones lead both chains in one order. */
  ghost predicate Published(f: TableState, n: TableState, programs: seq<Program>, order: seq<nat>) {
    && Classified(f, n, programs, |programs|, order)
    && Leads(f.chain, Filter, programs, order) && Leads(n.chain, Nat, programs, order)
  }

  lemma {:induction false} RuleCounts(rules: seq<Rule>)
    ensures |RulesOf(rules, Filter)| + |RulesOf(rules, Nat)| == |rules|
  {
    if rules != [] {
      RuleCounts(rules[1..]);
    }
  }

  lemma HasRules(p: Program)
    requires WellFormed(p)
    ensures |p.rules| > 0
  {
    RuleCounts(p.rules);
    assert RulesOf(p.rules, Filter) != [];
  }

  lemma {:induction false} SameElements(a: seq<nat>, b: seq<nat>)
    requires forall k, l :: 0 <= k < l < |a| ==> a[k] != a[l]
    requires forall k, l :: 0 <= k < l < |b| ==> b[k] != b[l]
    requires forall x :: x in a <==> x in b
    ensures multiset(a) == multiset(b)
  {
    forall x: nat ensures multiset(a)[x] == multiset(b)[x] {
      CountInDistinct(a, x);
      CountInDistinct(b, x);
    }
  }

  lemma {:induction false} CountInDistinct(s: seq<nat>, x: nat)
    requires forall k, l :: 0 <= k < l < |s| ==> s[k] != s[l]
    ensures multiset(s)[x] == if x in s then 1 else 0
  {
    if s != [] {
      assert s == [s[0]] + s[1..];
      CountInDistinct(s[1..], x);
    }
  }

  lemma {:induction false} DistinctFromMultiset(a: seq<nat>, b: seq<nat>)
    requires forall k, l :: 0 <= k < l < |a| ==> a[k] != a[l]
    requires multiset(a) == multiset(b)
    ensures forall k, l :: 0 <= k < l < |b| ==> b[k] != b[l]
    ensures forall x :: x in a <==> x in b
  {
    forall x ensures x in a <==> x in b {
      assert x in a <==> x in multiset(a);
      assert x in b <==> x in multiset(b);
    }
    forall k, l | 0 <= k < l < |b| ensures b[k] != b[l] {
      CountInDistinct(a, b[k]);
      var first, rest := b[..k + 1], b[k + 1..];
      assert b == first + rest;
      assert first[k] == b[k] && rest[l - k - 1] == b[l];
      assert first[k] in multiset(first) && rest[l - k - 1] in multiset(rest);
    }
  }

  lemma {:induction false} NotBoth(f: TableState, n: TableState, p: Program)
    requires WellFormed(p)
    ensures !(Whole(f, n, p) && Absent(f, n, p))
  {
    HasRules(p);
  }

  /** Two lists of the whole programs are orderings of each other. */
  lemma ClassifiedAgree(f: TableState, n: TableState, programs: seq<Program>, a: seq<nat>, b: seq<nat>)
    requires AllApart(programs)
    requires Classified(f, n, programs, |programs|, a) && Classified(f, n, programs, |programs|, b)
    ensures Ordering(a, b)
  {
    forall x ensures x in a <==> x in b {
      if (x in a) != (x in b) {
        NotBoth(f, n, programs[x]);
      }
    }
    SameElements(a, b);
  }

  lemma Reclassified(f: TableState, n: TableState, programs: seq<Program>, a: seq<nat>, b: seq<nat>)
    requires Classified(f, n, programs, |programs|, a) && Ordering(b, a)
    ensures Classified(f, n, programs, |programs|, b)
  {
    DistinctFromMultiset(a, b);
    forall k | 0 <= k < |b| ensures b[k] < |programs| {
      assert b[k] in b;
      var at :| 0 <= at < |a| && a[at] == b[k];
    }
  }

  lemma ClassifyNext(f: TableState, n: TableState, programs: seq<Program>, index: nat, complete: seq<nat>)
    requires Classified(f, n, programs, index, complete) && index < |programs|
    ensures Whole(f, n, programs[index]) ==> Classified(f, n, programs, index + 1, complete + [index])
    ensures Absent(f, n, programs[index]) ==> Classified(f, n, programs, index + 1, complete)
  {
    var longer := complete + [index];
    forall i | 0 <= i <= index ensures i in longer <==> i in complete || i == index {
      assert longer[|complete|] == index;
    }
  }

  lemma Unclassifiable(f: TableState, n: TableState, programs: seq<Program>, index: nat)
    requires index < |programs| && !Whole(f, n, programs[index]) && !Absent(f, n, programs[index])
    ensures forall order: seq<nat> :: !Published(f, n, programs, order)
  {
  }

  /** Observes each published program and the common order of those present. */
  method ObservePublished(f: TableState, n: TableState, programs: seq<Program>) returns (r: Result<seq<nat>, ObserveError>)
    requires AllApart(programs)
    ensures r.Ok? ==> Published(f, n, programs, r.value)
    ensures r.Err? ==> forall order: seq<nat> :: !Published(f, n, programs, order)
  {
    var complete: seq<nat> := [];
    var index := 0;
    while index < |programs|
      invariant 0 <= index <= |programs|
      invariant Classified(f, n, programs, index, complete)
    {
      var p := programs[index];
      var whole := Classify(f, n, p);
      if whole.Err? {
        Unclassifiable(f, n, programs, index);
        return Err(whole.error);
      }
      ClassifyNext(f, n, programs, index, complete);
      if whole.value {
        complete := complete + [index];
      }
      index := index + 1;
    }
    r := CommonOrder(f, n, programs, complete);
  }

  method Classify(f: TableState, n: TableState, p: Program) returns (whole: Result<bool, ObserveError>)
    requires WellFormed(p)
    ensures whole.Ok? ==> if whole.value then Whole(f, n, p) else Absent(f, n, p)
    ensures whole.Err? ==> !Whole(f, n, p) && !Absent(f, n, p)
  {
    var observation := ObserveProgram(f, n, p);
    if observation.Err? {
      return Err(observation.error);
    }
    HasRules(p);
    var count := |observation.value|;
    if count == 0 {
      return Ok(false);
    }
    if count == |p.rules| {
      return Ok(true);
    }
    whole := Err(Incomplete);
  }

  method CommonOrder(f: TableState, n: TableState, programs: seq<Program>, complete: seq<nat>)
    returns (r: Result<seq<nat>, ObserveError>)
    requires AllApart(programs) && Classified(f, n, programs, |programs|, complete)
    ensures r.Ok? ==> Published(f, n, programs, r.value)
    ensures r.Err? ==> forall order: seq<nat> :: !Published(f, n, programs, order)
  {
    forall order: seq<nat> | Published(f, n, programs, order) ensures Ordering(order, complete) {
      ClassifiedAgree(f, n, programs, order, complete);
    }
    var filterOrder := LeadingProgramOrder(f.chain, Filter, programs, complete);
    if filterOrder.Err? {
      return filterOrder;
    }
    var natOrder := LeadingProgramOrder(n.chain, Nat, programs, complete);
    if natOrder.Err? {
      return natOrder;
    }
    if filterOrder.value != natOrder.value {
      return Err(NotLeading);
    }
    Reclassified(f, n, programs, complete, filterOrder.value);
    r := filterOrder;
  }

  // ---------------------------------------------------------------- a laid-out plane is observed

  lemma {:induction false} SplitAt(installed: seq<Program>, table: Table, k: nat)
    requires k < |installed|
    ensures Arranged(installed, table)
         == Arranged(installed[..k], table) + (ProgramLines(installed[k], table) + Arranged(installed[k + 1..], table))
  {
    assert installed == installed[..k] + ([installed[k]] + installed[k + 1..]);
    ArrangedConcat(installed[..k], [installed[k]] + installed[k + 1..], table);
    ArrangedConcat([installed[k]], installed[k + 1..], table);
    ArrangedOne(installed[k], table);
  }

  lemma PartsApart(installed: seq<Program>, k: nat)
    requires AllApart(installed) && k < |installed|
    ensures AllApart(installed[..k]) && ApartFrom(installed[..k], installed[k])
    ensures AllApart(installed[k + 1..]) && ApartFrom(installed[k + 1..], installed[k])
  {
    var after := installed[k + 1..];
    forall i | 0 <= i < |after| ensures Apart(after[i], installed[k]) {
      assert Apart(installed[k], installed[i + k + 1]);
    }
  }

  lemma Regroup<T>(o: seq<T>, a: seq<T>, b: seq<T>, c: seq<T>, d: seq<T>)
    ensures o + ((a + (b + c)) + d) == (o + a) + (b + (c + d))
  {
  }

  /** The quiet lines around one installed program. */
  lemma {:induction false} Surroundings(t: TableState, base: TableState, table: Table, installed: seq<Program>, k: nat)
    requires LaidOut(t, base, table, installed) && AllApart(installed) && k < |installed| && QuietFor(base, installed[k])
    ensures var before, after := t.others + Arranged(installed[..k], table), Arranged(installed[k + 1..], table) + base.chain;
            && Quiet(before, installed[k]) && Quiet(after, installed[k])
            && AllLines(t) == before + (ProgramLines(installed[k], table) + after)
  {
    var p := installed[k];
    PartsApart(installed, k);
    QuietForStrangers(installed[..k], table, p);
    QuietForStrangers(installed[k + 1..], table, p);
    SplitAt(installed, table, k);
    QuietConcat(t.others, Arranged(installed[..k], table), p);
    QuietConcat(Arranged(installed[k + 1..], table), base.chain, p);
    Regroup(t.others, Arranged(installed[..k], table), ProgramLines(p, table), Arranged(installed[k + 1..], table), base.chain);
  }

  lemma {:induction false} BetweenQuietLines(lines: seq<Line>, before: seq<Line>, after: seq<Line>, table: Table,
                                             p: Program)
    requires WellFormed(p) && Quiet(before, p) && Quiet(after, p)
    requires lines == before + (ProgramLines(p, table) + after)
    ensures Readable(lines, table, p)
    ensures |OwnersIn(lines, p)| == |RulesOf(p.rules, table)|
  {
    var own := ProgramLines(p, table);
    OwnedLinesAreInside(before, own, after, p);
    ProgramLinesFacts(p, table);
    RulesInPartAreReadable(lines, |before|, own, RulesOf(p.rules, table), table, p);
    OneOwnerPerLine(own, p);
  }

  /** One installed program read back from one table of the layout. */
  lemma {:induction false} InstalledIsReadable(t: TableState, base: TableState, table: Table, installed: seq<Program>,
                                               k: nat)
    requires LaidOut(t, base, table, installed) && AllApart(installed) && k < |installed| && QuietFor(base, installed[k])
    ensures Readable(AllLines(t), table, installed[k])
    ensures |OwnersIn(AllLines(t), installed[k])| == |RulesOf(installed[k].rules, table)|
  {
    Surroundings(t, base, table, installed, k);
    BetweenQuietLines(AllLines(t), t.others + Arranged(installed[..k], table), Arranged(installed[k + 1..], table) + base.chain,
                      table, installed[k]);
  }

  lemma StrangerIsAbsent(t: TableState, base: TableState, table: Table, installed: seq<Program>, p: Program)
    requires LaidOut(t, base, table, installed) && AllApart(installed) && QuietFor(base, p)
    requires ApartFrom(installed, p)
    ensures Quiet(t.others, p) && Quiet(t.chain, p)
  {
    QuietForStrangers(installed, table, p);
    QuietConcat(Arranged(installed, table), base.chain, p);
  }

  ghost predicate QuietForAll(base: TableState, programs: seq<Program>) {
    forall i :: 0 <= i < |programs| ==> QuietFor(base, programs[i])
  }

  lemma LaidOutIsClassified(f: TableState, n: TableState, f0: TableState, n0: TableState, programs: seq<Program>,
                            order: seq<nat>, i: nat)
    requires AllApart(programs) && QuietForAll(f0, programs) && QuietForAll(n0, programs) && i < |programs|
    requires Within(order, programs) && PlaneLaidOut(f, n, f0, n0, Pick(programs, order))
    ensures if i in order then Whole(f, n, programs[i]) else Absent(f, n, programs[i])
  {
    var installed := Pick(programs, order);
    var p := programs[i];
    assert QuietFor(f0, p) && QuietFor(n0, p);
    if i in order {
      var k :| 0 <= k < |order| && order[k] == i;
      InstalledIsReadable(f, f0, Filter, installed, k);
      InstalledIsReadable(n, n0, Nat, installed, k);
      OwnersOfTablesAreApart(f, n, p);
      RuleCounts(p.rules);
    } else {
      StrangerIsAbsent(f, f0, Filter, installed, p);
      StrangerIsAbsent(n, n0, Nat, installed, p);
      NothingOwned(f, n, p);
      QuietPlaneIsReadable(f, n, p);
    }
  }

  /**
    After completed operations the published programs are observed as installed, in the order of the
    layout: neither an installation nor a removal can make a later observation fail.
  */
  lemma {:induction false} LaidOutIsPublished(f: TableState, n: TableState, f0: TableState, n0: TableState,
                                              programs: seq<Program>, order: seq<nat>)
    requires AllApart(programs) && QuietForAll(f0, programs) && QuietForAll(n0, programs)
    requires Within(order, programs) && PlaneLaidOut(f, n, f0, n0, Pick(programs, order))
    requires forall k, l :: 0 <= k < l < |order| ==> order[k] != order[l]
    ensures Published(f, n, programs, order)
  {
    forall i | 0 <= i < |programs| ensures if i in order then Whole(f, n, programs[i]) else Absent(f, n, programs[i]) {
      LaidOutIsClassified(f, n, f0, n0, programs, order, i);
    }
  }
}
