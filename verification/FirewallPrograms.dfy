/**
  Compiling a claim into firewall programs: the iptables rules can be read back and mean what is
  intended exactly for ordinary provider names, and both back ends isolate the transfers alike.
*/
module FirewallPrograms {
  import opened IptablesPlane
  import opened Wrappers
  import Layout = IptablesLayout

  /** One transfer as the firewall sees it; addresses are kept as they are printed. */
  datatype FirewallTransfer = FirewallTransfer(
    number: nat, subnet: string, source: string, namespaceIP: string, hostVeth: string, providerName: string)

  datatype FirewallClaim = FirewallClaim(run: string, token: string, transfers: seq<FirewallTransfer>)

  // ---------------------------------------------------------------- owners

  function Decimal(n: nat): (r: string)
    ensures r != "" && forall c :: c in r ==> '0' <= c <= '9'
  {
    (if n < 10 then "" else Decimal(n / 10)) + [('0' as int + n % 10) as char]
  }

  lemma {:induction false} DecimalIsInjective(m: nat, n: nat)
    requires Decimal(m) == Decimal(n)
    ensures m == n
  {
    var a, b := Decimal(m), Decimal(n);
    assert a[|a| - 1] == b[|b| - 1];
    assert m % 10 == n % 10;
    var headA, headB := a[..|a| - 1], b[..|b| - 1];
    assert headA == if m < 10 then "" else Decimal(m / 10);
    assert headB == if n < 10 then "" else Decimal(n / 10);
    if m >= 10 && n >= 10 {
      DecimalIsInjective(m / 10, n / 10);
    }
  }

  const FORWARD_OUT := ":forward-out"
  const RETURN := ":return"
  const DROP_OUT := ":drop-out"
  const DROP_IN := ":drop-in"
  const SNAT := ":snat"

  function OwnerPrefix(run: string, token: string): string {
    "transferlanes:" + run + ":" + token + ":"
  }

  function Owner(prefix: string, number: nat, suffix: string): string {
    prefix + (Decimal(number) + suffix)
  }

  lemma OwnersDifferBySuffix(prefix: string, m: nat, n: nat, a: string, b: string)
    requires Owner(prefix, m, a) == Owner(prefix, n, b)
    requires a != "" && b != "" && a[0] == ':' && b[0] == ':'
    ensures m == n && a == b
  {
    var x, y := Decimal(m) + a, Decimal(n) + b;
    assert Owner(prefix, m, a)[|prefix|..] == x && Owner(prefix, n, b)[|prefix|..] == y;
    assert x[|Decimal(m)|] == ':' && y[|Decimal(n)|] == ':';
    assert forall i :: 0 <= i < |Decimal(m)| ==> x[i] in Decimal(m);
    assert forall i :: 0 <= i < |Decimal(n)| ==> y[i] in Decimal(n);
    assert |Decimal(m)| == |Decimal(n)|;
    assert Decimal(m) == x[..|Decimal(m)|] && Decimal(n) == y[..|Decimal(n)|];
    assert a == x[|Decimal(m)|..] && b == y[|Decimal(n)|..];
    DecimalIsInjective(m, n);
  }

  /** Owner prefixes of different runs never continue each other: the identities have one length. */
  lemma RunsAreApart(a: FirewallClaim, b: FirewallClaim, p: Program, q: Program)
    requires |a.run| == |b.run| && |a.token| == |b.token| && a.run != b.run
    requires p.ownerPrefix == OwnerPrefix(a.run, a.token) && q.ownerPrefix == OwnerPrefix(b.run, b.token)
    ensures Layout.Apart(p, q)
  {
    var x, y := p.ownerPrefix, q.ownerPrefix;
    assert |x| == |y|;
    assert x[14..14 + |a.run|] == a.run && y[14..14 + |b.run|] == b.run;
  }

  // ---------------------------------------------------------------- the iptables program

  /** The arguments with the comment match in front of the jump. */
  function WithComment(argv: Line, owner: string): Line {
    if argv == [] then ["-m", "comment", "--comment", owner]
    else if argv[0] == "-j" then ["-m", "comment", "--comment", owner] + argv
    else [argv[0]] + WithComment(argv[1..], owner)
  }

  function NewRule(table: Table, owner: string, argv: Line): Rule {
    Rule(table, ["-A", ChainOf(table)] + WithComment(argv, owner), owner)
  }

  function ForwardOut(t: FirewallTransfer): Line {
    ["-s", t.subnet, "-i", t.hostVeth, "-o", t.providerName, "-j", "ACCEPT"]
  }

  function Return(t: FirewallTransfer): Line {
    ["-d", t.subnet, "-i", t.providerName, "-o", t.hostVeth, "-m", "conntrack", "--ctstate", "RELATED,ESTABLISHED",
     "-j", "ACCEPT"]
  }

  function DropOut(t: FirewallTransfer): Line {
    ["-i", t.hostVeth, "-j", "DROP"]
  }

  function DropIn(t: FirewallTransfer): Line {
    ["-o", t.hostVeth, "-j", "DROP"]
  }

  function Snat(t: FirewallTransfer): Line {
    ["-s", t.namespaceIP, "-o", t.providerName, "-j", "SNAT", "--to-source", t.source]
  }

  function TransferRules(prefix: string, t: FirewallTransfer): seq<Rule> {
    [NewRule(Filter, Owner(prefix, t.number, FORWARD_OUT), ForwardOut(t)),
     NewRule(Filter, Owner(prefix, t.number, RETURN), Return(t)),
     NewRule(Filter, Owner(prefix, t.number, DROP_OUT), DropOut(t)),
     NewRule(Filter, Owner(prefix, t.number, DROP_IN), DropIn(t)),
     NewRule(Nat, Owner(prefix, t.number, SNAT), Snat(t))]
  }

  function TransfersRules(prefix: string, ts: seq<FirewallTransfer>): seq<Rule> {
    if ts == [] then [] else TransfersRules(prefix, ts[..|ts| - 1]) + TransferRules(prefix, ts[|ts| - 1])
  }

  method BuildProgram(c: FirewallClaim) returns (p: Program)
    ensures p == Program(OwnerPrefix(c.run, c.token), TransfersRules(OwnerPrefix(c.run, c.token), c.transfers))
  {
    var prefix := OwnerPrefix(c.run, c.token);
    var rules: seq<Rule> := [];
    var index := 0;
    while index < |c.transfers|
      invariant 0 <= index <= |c.transfers|
      invariant rules == TransfersRules(prefix, c.transfers[..index])
    {
      assert c.transfers[..index + 1][..index] == c.transfers[..index];
      rules := rules + TransferRules(prefix, c.transfers[index]);
      index := index + 1;
    }
    assert c.transfers[..index] == c.transfers;
    p := Program(prefix, rules);
  }

  /** Link names and printed addresses do not look like options. */
  ghost predicate Plain(t: FirewallTransfer) {
    && t.subnet != "-j" && t.subnet != "--comment" && t.namespaceIP != "-j" && t.namespaceIP != "--comment"
    && t.hostVeth != "-j" && t.hostVeth != "--comment"
  }

  // ---------------------------------------------------------------- reading the comment back

  lemma {:induction false} WithCommentIsLong(argv: Line, owner: string)
    ensures |WithComment(argv, owner)| == |argv| + 4
  {
    if argv != [] && argv[0] != "-j" {
      WithCommentIsLong(argv[1..], owner);
    }
  }

  lemma {:induction false} CommentOfRule(table: Table, owner: string, argv: Line)
    ensures NewRule(table, owner, argv).line[0] == "-A" && NewRule(table, owner, argv).line[1] == ChainOf(table)
    ensures CommentOf(NewRule(table, owner, argv).line) == OptionValue(WithComment(argv, owner), "--comment")
  {
    WithCommentIsLong(argv, owner);
    assert NewRule(table, owner, argv).line[2..] == WithComment(argv, owner);
  }

  /** The rule's comment names its owner, which carries the prefix. */
  ghost predicate ReadableRule(r: Rule, prefix: string) {
    && |r.line| >= 2 && r.line[0] == "-A" && r.line[1] == ChainOf(r.table)
    && CommentOf(r.line) == r.owner && prefix <= r.owner
  }

  lemma {:induction false} FirstComment(argv: Line, owner: string, jump: nat)
    requires jump < |argv| && argv[jump] == "-j" && forall i :: 0 <= i < jump ==> argv[i] != "--comment"
    ensures OptionValue(WithComment(argv, owner), "--comment") == owner
  {
    var whole := WithComment(argv, owner);
    if argv[0] == "-j" {
      assert whole == ["-m", "comment"] + (["--comment", owner] + argv);
      SkipTwo("-m", "comment", ["--comment", owner] + argv, "--comment");
    } else {
      FirstComment(argv[1..], owner, jump - 1);
      assert whole[1..] == WithComment(argv[1..], owner);
      WithCommentIsLong(argv[1..], owner);
    }
  }

  lemma ReadsBack(table: Table, prefix: string, number: nat, suffix: string, argv: Line, jump: nat)
    requires jump < |argv| && argv[jump] == "-j" && forall i :: 0 <= i < jump ==> argv[i] != "--comment"
    ensures ReadableRule(NewRule(table, Owner(prefix, number, suffix), argv), prefix)
  {
    CommentOfRule(table, Owner(prefix, number, suffix), argv);
    FirstComment(argv, Owner(prefix, number, suffix), jump);
    WithCommentIsLong(argv, Owner(prefix, number, suffix));
  }

  /** The comment of every rule names its owner when the provider is not named like the comment option. */
  lemma TransferReadsBack(prefix: string, t: FirewallTransfer)
    requires Plain(t) && t.providerName != "--comment"
    ensures forall i :: 0 <= i < 5 ==> ReadableRule(TransferRules(prefix, t)[i], prefix)
  {
    ReadsBack(Filter, prefix, t.number, FORWARD_OUT, ForwardOut(t), 6);
    ReadsBack(Filter, prefix, t.number, RETURN, Return(t), 10);
    ReadsBack(Filter, prefix, t.number, DROP_OUT, DropOut(t), 2);
    ReadsBack(Filter, prefix, t.number, DROP_IN, DropIn(t), 2);
    ReadsBack(Nat, prefix, t.number, SNAT, Snat(t), 4);
  }

  /** Where the comment goes: in front of the first jump. */
  lemma {:induction false} WithCommentIs(argv: Line, owner: string, jump: nat)
    requires jump < |argv| && argv[jump] == "-j" && forall i :: 0 <= i < jump ==> argv[i] != "-j"
    ensures WithComment(argv, owner) == argv[..jump] + ["-m", "comment", "--comment", owner] + argv[jump..]
  {
    if jump > 0 {
      WithCommentIs(argv[1..], owner, jump - 1);
      assert argv[..jump] == [argv[0]] + argv[1..][..jump - 1];
      assert argv[jump..] == argv[1..][jump - 1..];
    }
  }

  lemma {:induction false} FirstOption(argv: Line, name: string, k: nat)
    requires k + 1 < |argv| && argv[k] == name && forall i :: 0 <= i < k ==> argv[i] != name
    ensures OptionValue(argv, name) == argv[k + 1]
  {
    if k > 0 {
      FirstOption(argv[1..], name, k - 1);
    }
  }

  /** A provider named like the comment option hides the owner of its first rule. */
  lemma CommentProviderHidesOwner(prefix: string, t: FirewallTransfer)
    requires Plain(t) && t.providerName == "--comment"
    ensures CommentOf(TransferRules(prefix, t)[0].line) == "-m"
  {
    var owner := Owner(prefix, t.number, FORWARD_OUT);
    CommentOfRule(Filter, owner, ForwardOut(t));
    WithCommentIs(ForwardOut(t), owner, 6);
    FirstOption(WithComment(ForwardOut(t), owner), "--comment", 5);
  }

  /** Skipping two leading arguments when looking for an option. */
  lemma {:induction false} SkipTwo(a: string, b: string, rest: Line, name: string)
    requires a != name && b != name
    ensures OptionValue([a, b] + rest, name) == OptionValue(rest, name)
  {
    assert ([a, b] + rest)[1..] == [b] + rest;
    assert ([b] + rest)[1..] == rest;
    if |rest| < 1 {
      assert |[b] + rest| < 2;
    }
  }

  // ---------------------------------------------------------------- when a program is well formed

  function OwnersOfTransfer(prefix: string, n: nat): seq<string> {
    [Owner(prefix, n, FORWARD_OUT), Owner(prefix, n, RETURN), Owner(prefix, n, DROP_OUT), Owner(prefix, n, DROP_IN),
     Owner(prefix, n, SNAT)]
  }

  lemma TransferOwnersDiffer(prefix: string, n: nat)
    ensures forall i, j :: 0 <= i < j < 5 ==> OwnersOfTransfer(prefix, n)[i] != OwnersOfTransfer(prefix, n)[j]
  {
    var owners := OwnersOfTransfer(prefix, n);
    var suffixes := [FORWARD_OUT, RETURN, DROP_OUT, DROP_IN, SNAT];
    assert |FORWARD_OUT| == 12 && |RETURN| == 7 && |DROP_OUT| == 9 && |DROP_IN| == 8 && |SNAT| == 5;
    forall i, j | 0 <= i < j < 5 ensures owners[i] != owners[j] {
      if owners[i] == owners[j] {
        OwnersDifferBySuffix(prefix, n, n, suffixes[i], suffixes[j]);
      }
    }
  }

  lemma NumbersKeepOwnersApart(prefix: string, m: nat, n: nat)
    requires m != n
    ensures forall i, j :: 0 <= i < 5 && 0 <= j < 5 ==> OwnersOfTransfer(prefix, m)[i] != OwnersOfTransfer(prefix, n)[j]
  {
    var suffixes := [FORWARD_OUT, RETURN, DROP_OUT, DROP_IN, SNAT];
    forall i, j | 0 <= i < 5 && 0 <= j < 5 ensures OwnersOfTransfer(prefix, m)[i] != OwnersOfTransfer(prefix, n)[j] {
      if OwnersOfTransfer(prefix, m)[i] == OwnersOfTransfer(prefix, n)[j] {
        OwnersDifferBySuffix(prefix, m, n, suffixes[i], suffixes[j]);
      }
    }
  }

  /** The rule carries one of the transfer's owners. */
  ghost predicate OfNumber(r: Rule, prefix: string, n: nat) {
    exists i :: 0 <= i < 5 && r.owner == OwnersOfTransfer(prefix, n)[i]
  }

  lemma {:induction false} RuleNumbers(prefix: string, ts: seq<FirewallTransfer>)
    ensures forall r :: r in TransfersRules(prefix, ts) ==> exists t :: t in ts && OfNumber(r, prefix, t.number)
  {
    if ts != [] {
      var before, t := ts[..|ts| - 1], ts[|ts| - 1];
      RuleNumbers(prefix, before);
      forall r | r in TransfersRules(prefix, ts) ensures exists u :: u in ts && OfNumber(r, prefix, u.number) {
        if r in TransferRules(prefix, t) {
          var i :| 0 <= i < 5 && TransferRules(prefix, t)[i] == r;
          assert r.owner == OwnersOfTransfer(prefix, t.number)[i];
          assert t in ts && OfNumber(r, prefix, t.number);
        } else {
          assert r in TransfersRules(prefix, before);
          var u :| u in before && OfNumber(r, prefix, u.number);
          assert u in ts;
        }
      }
    }
  }

  ghost predicate NumbersDiffer(ts: seq<FirewallTransfer>) {
    forall i, j :: 0 <= i < j < |ts| ==> ts[i].number != ts[j].number
  }

  ghost predicate OwnersDistinct(rules: seq<Rule>) {
    forall i, j :: 0 <= i < j < |rules| ==> rules[i].owner != rules[j].owner
  }

  lemma {:induction false} RuleOwnersDiffer(prefix: string, ts: seq<FirewallTransfer>)
    requires NumbersDiffer(ts)
    ensures OwnersDistinct(TransfersRules(prefix, ts))
  {
    if ts != [] {
      var before, t := ts[..|ts| - 1], ts[|ts| - 1];
      var a, b := TransfersRules(prefix, before), TransferRules(prefix, t);
      RuleOwnersDiffer(prefix, before);
      RuleNumbers(prefix, before);
      TransferOwnersDiffer(prefix, t.number);
      forall i, j | 0 <= i < |a| && 0 <= j < 5 ensures a[i].owner != b[j].owner {
        assert a[i] in a;
        var u :| u in before && OfNumber(a[i], prefix, u.number);
        var at :| 0 <= at < |before| && before[at] == u;
        assert u.number != t.number;
        NumbersKeepOwnersApart(prefix, u.number, t.number);
        assert b[j].owner == OwnersOfTransfer(prefix, t.number)[j];
      }
      ApartConcat(a, b, prefix, t);
    }
  }

  lemma ApartConcat(a: seq<Rule>, b: seq<Rule>, prefix: string, t: FirewallTransfer)
    requires OwnersDistinct(a) && b == TransferRules(prefix, t)
    requires forall i, j :: 0 <= i < j < 5 ==> OwnersOfTransfer(prefix, t.number)[i] != OwnersOfTransfer(prefix, t.number)[j]
    requires forall i, j :: 0 <= i < |a| && 0 <= j < |b| ==> a[i].owner != b[j].owner
    ensures OwnersDistinct(a + b)
  {
    assert forall i :: 0 <= i < 5 ==> b[i].owner == OwnersOfTransfer(prefix, t.number)[i];
  }

  lemma {:induction false} RulesReadBack(prefix: string, ts: seq<FirewallTransfer>)
    requires forall t :: t in ts ==> Plain(t) && t.providerName != "--comment"
    ensures forall r :: r in TransfersRules(prefix, ts) ==> ReadableRule(r, prefix)
  {
    if ts != [] {
      var before, t := ts[..|ts| - 1], ts[|ts| - 1];
      RulesReadBack(prefix, before);
      TransferReadsBack(prefix, t);
    }
  }

  lemma {:induction false} EveryTransferHasRules(prefix: string, ts: seq<FirewallTransfer>, t: FirewallTransfer)
    requires t in ts
    ensures forall i :: 0 <= i < 5 ==> TransferRules(prefix, t)[i] in TransfersRules(prefix, ts)
  {
    var before, last := ts[..|ts| - 1], ts[|ts| - 1];
    if t != last {
      assert t in before;
      EveryTransferHasRules(prefix, before, t);
    } else {
      forall i | 0 <= i < 5 ensures TransferRules(prefix, t)[i] in TransfersRules(prefix, ts) {
        assert TransferRules(prefix, t)[i] in TransferRules(prefix, last);
      }
    }
  }

  /**
    The compiled program can be told apart and recognised again, as installation, observation and
    removal require, exactly when no provider interface is named "--comment".
  */
  lemma ProgramIsWellFormed(c: FirewallClaim, p: Program)
    requires c.transfers != [] && NumbersDiffer(c.transfers) && forall t :: t in c.transfers ==> Plain(t)
    requires p == Program(OwnerPrefix(c.run, c.token), TransfersRules(OwnerPrefix(c.run, c.token), c.transfers))
    ensures WellFormed(p) <==> forall t :: t in c.transfers ==> t.providerName != "--comment"
  {
    if t :| t in c.transfers && t.providerName == "--comment" {
      CommentProviderIsNotWellFormed(c, p, t);
    } else {
      var prefix := OwnerPrefix(c.run, c.token);
      RulesReadBack(prefix, c.transfers);
      RuleOwnersDiffer(prefix, c.transfers);
      forall i | 0 <= i < |p.rules|
        ensures OwnedBy(p.rules[i].line, p) && CommentOf(p.rules[i].line) == p.rules[i].owner
                && p.rules[i].line[1] == ChainOf(p.rules[i].table)
      {
        assert p.rules[i] in p.rules;
        assert ReadableRule(p.rules[i], prefix);
      }
      forall table: Table ensures RulesOf(p.rules, table) != [] {
        BothTablesHaveRules(prefix, c.transfers, table);
      }
    }
  }

  lemma {:induction false} BothTablesHaveRules(prefix: string, ts: seq<FirewallTransfer>, table: Table)
    requires ts != []
    ensures RulesOf(TransfersRules(prefix, ts), table) != []
  {
    EveryTransferHasRules(prefix, ts, ts[0]);
    var rules := TransfersRules(prefix, ts);
    RulesOfMembers(rules, table);
    var own := TransferRules(prefix, ts[0]);
    assert own[0] in rules && own[4] in rules;
    assert (if table == Filter then own[0] else own[4]) in RulesOf(rules, table);
  }

  lemma CommentProviderIsNotWellFormed(c: FirewallClaim, p: Program, t: FirewallTransfer)
    requires t in c.transfers && Plain(t) && t.providerName == "--comment"
    requires p == Program(OwnerPrefix(c.run, c.token), TransfersRules(OwnerPrefix(c.run, c.token), c.transfers))
    ensures !WellFormed(p)
  {
    var prefix := OwnerPrefix(c.run, c.token);
    CommentProviderHidesOwner(prefix, t);
    EveryTransferHasRules(prefix, c.transfers, t);
    var rule := TransferRules(prefix, t)[0];
    assert rule in p.rules;
    assert |rule.owner| > 2;
  }

  // ---------------------------------------------------------------- what the rules mean

  datatype Test = Input(name: string) | Output(name: string) | Source(prefix: string) | Destination(prefix: string) | Established

  datatype Verdict = Accept | Drop

  datatype ForwardRule = ForwardRule(tests: seq<Test>, verdict: Verdict)

  function WithTest(test: Test, rule: Option<ForwardRule>): Option<ForwardRule> {
    match rule case None => None case Some(r) => Some(r.(tests := [test] + r.tests))
  }

  /** How iptables reads the arguments of one FORWARD rule. */
  function Parse(argv: Line): Option<ForwardRule> {
    if |argv| < 2 then None
    else if argv[0] == "-j" then
      if argv[1..] == ["ACCEPT"] then Some(ForwardRule([], Accept))
      else if argv[1..] == ["DROP"] then Some(ForwardRule([], Drop))
      else None
    else if argv[0] == "-m" then
      if |argv| < 4 then None
      else if argv[1] == "comment" && argv[2] == "--comment" then Parse(argv[4..])
      else if argv[1] == "conntrack" && argv[2] == "--ctstate" && argv[3] == "RELATED,ESTABLISHED" then
        WithTest(Established, Parse(argv[4..]))
      else None
    else if argv[0] == "-s" then WithTest(Source(argv[1]), Parse(argv[2..]))
    else if argv[0] == "-d" then WithTest(Destination(argv[1]), Parse(argv[2..]))
    else if argv[0] == "-i" then WithTest(Input(argv[1]), Parse(argv[2..]))
    else if argv[0] == "-o" then WithTest(Output(argv[1]), Parse(argv[2..]))
    else None
  }

  function MeaningOf(line: Line): Option<ForwardRule> {
    if |line| < 2 then None else Parse(line[2..])
  }

  /** The forward rules of one transfer as the claim intends them. */
  function IptablesForward(t: FirewallTransfer): seq<ForwardRule> {
    [ForwardRule([Source(t.subnet), Input(t.hostVeth), Output(t.providerName)], Accept),
     ForwardRule([Destination(t.subnet), Input(t.providerName), Output(t.hostVeth), Established], Accept),
     ForwardRule([Input(t.hostVeth)], Drop),
     ForwardRule([Output(t.hostVeth)], Drop)]
  }

  lemma {:induction false} ParseTwo(option: string, value: string, rest: Line)
    requires option in {"-s", "-d", "-i", "-o"}
    ensures Parse([option, value] + rest) == WithTest(TestOf(option, value), Parse(rest))
  {
    assert ([option, value] + rest)[2..] == rest;
  }

  function TestOf(option: string, value: string): Test
    requires option in {"-s", "-d", "-i", "-o"}
  {
    if option == "-s" then Source(value) else if option == "-d" then Destination(value)
    else if option == "-i" then Input(value) else Output(value)
  }

  function Jump(owner: string, verdict: string): Line {
    ["-m", "comment", "--comment", owner, "-j", verdict]
  }

  lemma {:induction false} ParseThree(o1: string, v1: string, o2: string, v2: string, o3: string, v3: string, tail: Line)
    requires o1 in {"-s", "-d", "-i", "-o"} && o2 in {"-s", "-d", "-i", "-o"} && o3 in {"-s", "-d", "-i", "-o"}
    ensures Parse([o1, v1, o2, v2, o3, v3] + tail)
         == WithTest(TestOf(o1, v1), WithTest(TestOf(o2, v2), WithTest(TestOf(o3, v3), Parse(tail))))
  {
    var third: Line := [o3, v3] + tail;
    var second: Line := [o2, v2] + third;
    ParseTwo(o3, v3, tail);
    ParseTwo(o2, v2, third);
    ParseTwo(o1, v1, second);
    assert [o1, v1, o2, v2, o3, v3] + tail == [o1, v1] + second;
  }

  lemma {:induction false} ParseState(tail: Line)
    ensures Parse(["-m", "conntrack", "--ctstate", "RELATED,ESTABLISHED"] + tail) == WithTest(Established, Parse(tail))
  {
    assert (["-m", "conntrack", "--ctstate", "RELATED,ESTABLISHED"] + tail)[4..] == tail;
  }

  lemma {:induction false} ParseComment(owner: string, tail: Line)
    ensures Parse(["-m", "comment", "--comment", owner] + tail) == Parse(tail)
  {
    assert (["-m", "comment", "--comment", owner] + tail)[4..] == tail;
  }

  lemma ParseVerdict(verdict: string)
    ensures Parse(["-j", verdict]) == if verdict == "ACCEPT" then Some(ForwardRule([], Accept))
                                      else if verdict == "DROP" then Some(ForwardRule([], Drop)) else None
  {
    var argv: Line := ["-j", verdict];
    assert argv[1..] == [verdict];
  }

  lemma ParseJump(owner: string, verdict: string)
    ensures Parse(Jump(owner, verdict)) == Parse(["-j", verdict])
  {
    ParseComment(owner, ["-j", verdict]);
    assert Jump(owner, verdict) == ["-m", "comment", "--comment", owner] + ["-j", verdict];
  }

  lemma {:induction false} MeaningOfRule(table: Table, owner: string, argv: Line)
    ensures MeaningOf(NewRule(table, owner, argv).line) == Parse(WithComment(argv, owner))
  {
    assert NewRule(table, owner, argv).line[2..] == WithComment(argv, owner);
  }

  lemma ThreeTests(a: Test, b: Test, c: Test, verdict: Verdict)
    ensures WithTest(a, WithTest(b, WithTest(c, Some(ForwardRule([], verdict))))) == Some(ForwardRule([a, b, c], verdict))
  {
    assert [a] + ([b] + ([c] + [])) == [a, b, c];
  }

  lemma FourTests(a: Test, b: Test, c: Test, d: Test, verdict: Verdict)
    ensures WithTest(a, WithTest(b, WithTest(c, WithTest(d, Some(ForwardRule([], verdict))))))
         == Some(ForwardRule([a, b, c, d], verdict))
  {
    assert [a] + ([b] + ([c] + ([d] + []))) == [a, b, c, d];
  }

  lemma {:induction false} SplitForwardOut(owner: string, t: FirewallTransfer)
    requires Plain(t) && t.providerName != "-j"
    ensures WithComment(ForwardOut(t), owner)
         == ["-s", t.subnet, "-i", t.hostVeth, "-o", t.providerName] + Jump(owner, "ACCEPT")
  {
    WithCommentIs(ForwardOut(t), owner, 6);
  }

  lemma ForwardOutMeans(owner: string, t: FirewallTransfer)
    requires Plain(t) && t.providerName != "-j"
    ensures MeaningOf(NewRule(Filter, owner, ForwardOut(t)).line) == Some(IptablesForward(t)[0])
  {
    MeaningOfRule(Filter, owner, ForwardOut(t));
    SplitForwardOut(owner, t);
    ParseThree("-s", t.subnet, "-i", t.hostVeth, "-o", t.providerName, Jump(owner, "ACCEPT"));
    ParseJump(owner, "ACCEPT");
    ParseVerdict("ACCEPT");
    ThreeTests(Source(t.subnet), Input(t.hostVeth), Output(t.providerName), Accept);
  }

  lemma {:induction false} SplitReturn(owner: string, t: FirewallTransfer)
    requires Plain(t) && t.providerName != "-j"
    ensures WithComment(Return(t), owner)
         == ["-d", t.subnet, "-i", t.providerName, "-o", t.hostVeth]
            + (["-m", "conntrack", "--ctstate", "RELATED,ESTABLISHED"] + Jump(owner, "ACCEPT"))
  {
    WithCommentIs(Return(t), owner, 10);
  }

  lemma ReturnMeans(owner: string, t: FirewallTransfer)
    requires Plain(t) && t.providerName != "-j"
    ensures MeaningOf(NewRule(Filter, owner, Return(t)).line) == Some(IptablesForward(t)[1])
  {
    MeaningOfRule(Filter, owner, Return(t));
    SplitReturn(owner, t);
    ParseThree("-d", t.subnet, "-i", t.providerName, "-o", t.hostVeth,
               ["-m", "conntrack", "--ctstate", "RELATED,ESTABLISHED"] + Jump(owner, "ACCEPT"));
    ParseState(Jump(owner, "ACCEPT"));
    ParseJump(owner, "ACCEPT");
    ParseVerdict("ACCEPT");
    FourTests(Destination(t.subnet), Input(t.providerName), Output(t.hostVeth), Established, Accept);
  }

  lemma OneTestMeans(owner: string, option: string, name: string)
    requires option in {"-i", "-o"} && name != "-j"
    ensures MeaningOf(NewRule(Filter, owner, [option, name, "-j", "DROP"]).line)
         == Some(ForwardRule([TestOf(option, name)], Drop))
  {
    var argv: Line := [option, name, "-j", "DROP"];
    MeaningOfRule(Filter, owner, argv);
    WithCommentIs(argv, owner, 2);
    assert WithComment(argv, owner) == [option, name] + Jump(owner, "DROP");
    ParseTwo(option, name, Jump(owner, "DROP"));
    ParseJump(owner, "DROP");
    ParseVerdict("DROP");
    assert [TestOf(option, name)] + [] == [TestOf(option, name)];
  }

  lemma {:induction false} SplitBroken(owner: string, t: FirewallTransfer)
    requires Plain(t) && t.providerName == "-j"
    ensures WithComment(ForwardOut(t), owner)
         == ["-s", t.subnet, "-i", t.hostVeth, "-o", "-m"] + ["comment", "--comment", owner, "-j", "-j", "ACCEPT"]
  {
    WithCommentIs(ForwardOut(t), owner, 5);
  }

  /** A provider named like the jump option tears the first rule apart: iptables cannot read it. */
  lemma JumpProviderBreaksRule(owner: string, t: FirewallTransfer)
    requires Plain(t) && t.providerName == "-j"
    ensures MeaningOf(NewRule(Filter, owner, ForwardOut(t)).line) == None
  {
    MeaningOfRule(Filter, owner, ForwardOut(t));
    SplitBroken(owner, t);
    var rest: Line := ["comment", "--comment", owner, "-j", "-j", "ACCEPT"];
    assert Parse(rest) == None;
    ParseThree("-s", t.subnet, "-i", t.hostVeth, "-o", "-m", rest);
  }

  /** The four forward rules of a transfer mean what is intended exactly when its provider is not named "-j". */
  lemma TransferMeans(prefix: string, t: FirewallTransfer)
    requires Plain(t)
    ensures (forall i :: 0 <= i < 4 ==> MeaningOf(TransferRules(prefix, t)[i].line) == Some(IptablesForward(t)[i]))
            <==> t.providerName != "-j"
  {
    OneTestMeans(Owner(prefix, t.number, DROP_OUT), "-i", t.hostVeth);
    OneTestMeans(Owner(prefix, t.number, DROP_IN), "-o", t.hostVeth);
    if t.providerName == "-j" {
      JumpProviderBreaksRule(Owner(prefix, t.number, FORWARD_OUT), t);
      assert MeaningOf(TransferRules(prefix, t)[0].line) != Some(IptablesForward(t)[0]);
    } else {
      ForwardOutMeans(Owner(prefix, t.number, FORWARD_OUT), t);
      ReturnMeans(Owner(prefix, t.number, RETURN), t);
    }
  }

  // ---------------------------------------------------------------- isolation

  datatype ForwardedPacket = ForwardedPacket(input: string, output: string, source: nat, destination: nat, established: bool)

  /** iptables reads a trailing plus sign as "any name that starts like this"; nftables compares names. */
  predicate InterfaceMatches(pattern: string, name: string, wildcards: bool) {
    if wildcards && pattern != "" && pattern[|pattern| - 1] == '+' then pattern[..|pattern| - 1] <= name else pattern == name
  }

  predicate TestHolds(test: Test, packet: ForwardedPacket, covers: (string, nat) -> bool, wildcards: bool) {
    match test
    case Input(name) => InterfaceMatches(name, packet.input, wildcards)
    case Output(name) => InterfaceMatches(name, packet.output, wildcards)
    case Source(prefix) => covers(prefix, packet.source)
    case Destination(prefix) => covers(prefix, packet.destination)
    case Established => packet.established
  }

  predicate AllHold(tests: seq<Test>, packet: ForwardedPacket, covers: (string, nat) -> bool, wildcards: bool) {
    forall i :: 0 <= i < |tests| ==> TestHolds(tests[i], packet, covers, wildcards)
  }

  /** The first matching rule decides; without one the packet goes on to the rest of the chain. */
  function FirstMatch(rules: seq<ForwardRule>, packet: ForwardedPacket, covers: (string, nat) -> bool, wildcards: bool)
    : Option<Verdict>
  {
    if rules == [] then None
    else if AllHold(rules[0].tests, packet, covers, wildcards) then Some(rules[0].verdict)
    else FirstMatch(rules[1..], packet, covers, wildcards)
  }

  /** The nftables forward rules of one transfer. */
  function NftForward(t: FirewallTransfer): seq<ForwardRule> {
    [ForwardRule([Input(t.hostVeth), Output(t.providerName), Source(t.subnet)], Accept),
     ForwardRule([Input(t.providerName), Output(t.hostVeth), Destination(t.subnet), Established], Accept),
     ForwardRule([Input(t.hostVeth)], Drop),
     ForwardRule([Output(t.hostVeth)], Drop)]
  }

  function Compiled(ts: seq<FirewallTransfer>, nft: bool): seq<ForwardRule> {
    if ts == [] then [] else (if nft then NftForward(ts[0]) else IptablesForward(ts[0])) + Compiled(ts[1..], nft)
  }

  lemma {:induction false} CompiledMore(ts: seq<FirewallTransfer>, t: FirewallTransfer, nft: bool)
    ensures Compiled(ts + [t], nft) == Compiled(ts, nft) + if nft then NftForward(t) else IptablesForward(t)
  {
    var own := if nft then NftForward(t) else IptablesForward(t);
    if ts == [] {
      assert ts + [t] == [t] && [t][1..] == [] && own + [] == own && [] + own == own;
    } else {
      assert (ts + [t])[1..] == ts[1..] + [t];
      CompiledMore(ts[1..], t, nft);
      var first := if nft then NftForward(ts[0]) else IptablesForward(ts[0]);
      assert first + (Compiled(ts[1..], nft) + own) == (first + Compiled(ts[1..], nft)) + own;
    }
  }

  // ---------------------------------------------------------------- what the compilers build

  lemma {:induction false} RulesOfConcat(a: seq<Rule>, b: seq<Rule>, table: Table)
    ensures RulesOf(a + b, table) == RulesOf(a, table) + RulesOf(b, table)
  {
    if a == [] {
      assert a + b == b;
    } else {
      assert (a + b)[1..] == a[1..] + b;
      RulesOfConcat(a[1..], b, table);
    }
  }

  lemma FilterRulesOf(prefix: string, t: FirewallTransfer)
    ensures RulesOf(TransferRules(prefix, t), Filter) == TransferRules(prefix, t)[..4]
  {
    var r := TransferRules(prefix, t);
    assert r[1..][1..] == r[2..] && r[2..][1..] == r[3..] && r[3..][1..] == r[4..] && r[4..][1..] == [];
    assert RulesOf(r[4..], Filter) == [];
    assert RulesOf(r[3..], Filter) == [r[3]];
    assert RulesOf(r[2..], Filter) == [r[2]] + RulesOf(r[3..], Filter);
    assert RulesOf(r[1..], Filter) == [r[1]] + RulesOf(r[2..], Filter);
  }

  /** The rules are read, in order, as these. */
  ghost predicate Means(rules: seq<Rule>, meanings: seq<ForwardRule>) {
    |rules| == |meanings| && forall i :: 0 <= i < |rules| ==> MeaningOf(rules[i].line) == Some(meanings[i])
  }

  lemma MeansConcat(a: seq<Rule>, b: seq<Rule>, m: seq<ForwardRule>, n: seq<ForwardRule>)
    requires |a| == |m|
    ensures Means(a + b, m + n) <==> Means(a, m) && Means(b, n)
  {
    if Means(a + b, m + n) {
      forall i | 0 <= i < |a| ensures MeaningOf(a[i].line) == Some(m[i]) {
        assert (a + b)[i] == a[i] && (m + n)[i] == m[i];
      }
      forall i | 0 <= i < |b| ensures MeaningOf(b[i].line) == Some(n[i]) {
        assert (a + b)[|a| + i] == b[i] && (m + n)[|a| + i] == n[i];
      }
    }
  }

  /** No provider is named like the jump option. */
  ghost predicate NoJumpProvider(ts: seq<FirewallTransfer>) {
    forall t :: t in ts ==> t.providerName != "-j"
  }

  lemma {:induction false} RulesMean(prefix: string, ts: seq<FirewallTransfer>)
    requires forall t :: t in ts ==> Plain(t)
    ensures |RulesOf(TransfersRules(prefix, ts), Filter)| == |Compiled(ts, false)|
    ensures Means(RulesOf(TransfersRules(prefix, ts), Filter), Compiled(ts, false)) <==> NoJumpProvider(ts)
  {
    if ts != [] {
      var before, t := ts[..|ts| - 1], ts[|ts| - 1];
      assert ts == before + [t];
      RulesMean(prefix, before);
      var rules, own := RulesOf(TransfersRules(prefix, before), Filter), TransferRules(prefix, t)[..4];
      assert RulesOf(TransfersRules(prefix, ts), Filter) == rules + own by {
        RulesOfConcat(TransfersRules(prefix, before), TransferRules(prefix, t), Filter);
        FilterRulesOf(prefix, t);
      }
      assert Compiled(ts, false) == Compiled(before, false) + IptablesForward(t) by {
        CompiledMore(before, t, false);
      }
      MeansConcat(rules, own, Compiled(before, false), IptablesForward(t));
      assert Means(own, IptablesForward(t)) <==> t.providerName != "-j" by {
        TransferMeans(prefix, t);
        assert forall i :: 0 <= i < 4 ==> own[i] == TransferRules(prefix, t)[i];
      }
      assert NoJumpProvider(ts) <==> NoJumpProvider(before) && t.providerName != "-j";
    }
  }

  /** The filter rules of the built program are read, in order, as intended exactly when no provider is named "-j". */
  lemma BuiltProgramMeans(c: FirewallClaim, p: Program)
    requires p == Program(OwnerPrefix(c.run, c.token), TransfersRules(OwnerPrefix(c.run, c.token), c.transfers))
    requires forall t :: t in c.transfers ==> Plain(t)
    ensures Means(RulesOf(p.rules, Filter), Compiled(c.transfers, false)) <==> NoJumpProvider(c.transfers)
  {
    RulesMean(OwnerPrefix(c.run, c.token), c.transfers);
  }

  /** What iptables decides by the built rules; a rule it cannot read is not there. */
  function RulesVerdict(rules: seq<Rule>, packet: ForwardedPacket, covers: (string, nat) -> bool): Option<Verdict> {
    if rules == [] then None
    else
      match MeaningOf(rules[0].line)
      case None => RulesVerdict(rules[1..], packet, covers)
      case Some(rule) =>
        if AllHold(rule.tests, packet, covers, true) then Some(rule.verdict) else RulesVerdict(rules[1..], packet, covers)
  }

  lemma {:induction false} MeansDecides(rules: seq<Rule>, meanings: seq<ForwardRule>, packet: ForwardedPacket,
                                        covers: (string, nat) -> bool)
    requires Means(rules, meanings)
    ensures RulesVerdict(rules, packet, covers) == FirstMatch(meanings, packet, covers, true)
  {
    if rules != [] {
      MeansDecides(rules[1..], meanings[1..], packet, covers);
    }
  }

  /** One rule of the nftables program, by the fields its kind uses. */
  datatype NftRule = NftRule(chain: string, kind: string, input: string, output: string, source: string, destination: string,
                             address: string, owner: string)

  function NftTransferRules(prefix: string, t: FirewallTransfer): seq<NftRule> {
    [NftRule("forward", "forward-out", t.hostVeth, t.providerName, t.subnet, "", "", Owner(prefix, t.number, FORWARD_OUT)),
     NftRule("forward", "return", t.providerName, t.hostVeth, "", t.subnet, "", Owner(prefix, t.number, RETURN)),
     NftRule("forward", "drop-out", t.hostVeth, "", "", "", "", Owner(prefix, t.number, DROP_OUT)),
     NftRule("forward", "drop-in", "", t.hostVeth, "", "", "", Owner(prefix, t.number, DROP_IN)),
     NftRule("postrouting", "snat", t.hostVeth, t.providerName, t.namespaceIP, "", t.source, Owner(prefix, t.number, SNAT))]
  }

  function NftTransfersRules(prefix: string, ts: seq<FirewallTransfer>): seq<NftRule> {
    if ts == [] then [] else NftTransfersRules(prefix, ts[..|ts| - 1]) + NftTransferRules(prefix, ts[|ts| - 1])
  }

  method BuildNftProgram(c: FirewallClaim) returns (rules: seq<NftRule>)
    ensures rules == NftTransfersRules(OwnerPrefix(c.run, c.token), c.transfers)
  {
    var prefix := OwnerPrefix(c.run, c.token);
    rules := [];
    var index := 0;
    while index < |c.transfers|
      invariant 0 <= index <= |c.transfers|
      invariant rules == NftTransfersRules(prefix, c.transfers[..index])
    {
      assert c.transfers[..index + 1][..index] == c.transfers[..index];
      rules := rules + NftTransferRules(prefix, c.transfers[index]);
      index := index + 1;
    }
    assert c.transfers[..index] == c.transfers;
  }

  /** The expressions a rule of this kind becomes; source translation is no forward rule. */
  function NftExpressions(r: NftRule): Option<ForwardRule> {
    if r.kind == "forward-out" then Some(ForwardRule([Input(r.input), Output(r.output), Source(r.source)], Accept))
    else if r.kind == "return" then
      Some(ForwardRule([Input(r.input), Output(r.output), Destination(r.destination), Established], Accept))
    else if r.kind == "drop-out" then Some(ForwardRule([Input(r.input)], Drop))
    else if r.kind == "drop-in" then Some(ForwardRule([Output(r.output)], Drop))
    else None
  }

  /** The forward chain of the nftables program. */
  function NftChain(rules: seq<NftRule>): seq<ForwardRule> {
    if rules == [] then []
    else
      var rest := NftChain(rules[1..]);
      if rules[0].chain == "forward" && NftExpressions(rules[0]).Some? then [NftExpressions(rules[0]).value] + rest else rest
  }

  lemma {:induction false} NftChainConcat(a: seq<NftRule>, b: seq<NftRule>)
    ensures NftChain(a + b) == NftChain(a) + NftChain(b)
  {
    if a == [] {
      assert a + b == b;
    } else {
      assert (a + b)[1..] == a[1..] + b;
      NftChainConcat(a[1..], b);
    }
  }

  lemma NftTransferMeans(prefix: string, t: FirewallTransfer)
    ensures NftChain(NftTransferRules(prefix, t)) == NftForward(t)
  {
    var r := NftTransferRules(prefix, t);
    assert r[1..][1..] == r[2..] && r[2..][1..] == r[3..] && r[3..][1..] == r[4..] && r[4..][1..] == [];
    assert NftChain(r[4..]) == [];
    assert NftChain(r[3..]) == [NftForward(t)[3]];
    assert NftChain(r[2..]) == [NftForward(t)[2]] + NftChain(r[3..]);
    assert NftChain(r[1..]) == [NftForward(t)[1]] + NftChain(r[2..]);
  }

  /** The forward chain of the built nftables program is, in order, as intended. */
  lemma {:induction false} NftProgramMeans(prefix: string, ts: seq<FirewallTransfer>)
    ensures NftChain(NftTransfersRules(prefix, ts)) == Compiled(ts, true)
  {
    if ts != [] {
      var before, t := ts[..|ts| - 1], ts[|ts| - 1];
      assert ts == before + [t];
      NftProgramMeans(prefix, before);
      NftChainConcat(NftTransfersRules(prefix, before), NftTransferRules(prefix, t));
      NftTransferMeans(prefix, t);
      CompiledMore(before, t, true);
    }
  }

  predicate EndsWithPlus(name: string) {
    name != "" && name[|name| - 1] == '+'
  }

  /** Exact names for iptables, which the claim's validation requires of that back end. */
  ghost predicate ExactNames(ts: seq<FirewallTransfer>) {
    forall t :: t in ts ==> !EndsWithPlus(t.providerName) && !EndsWithPlus(t.hostVeth)
  }

  /** Links are named differently, which the claim's validation requires. */
  ghost predicate LinksDiffer(ts: seq<FirewallTransfer>) {
    forall i, j :: 0 <= i < j < |ts| ==> ts[i].hostVeth != ts[j].hostVeth
  }

  /** No provider is named like a link. */
  ghost predicate NamesApart(ts: seq<FirewallTransfer>) {
    forall i, j :: 0 <= i < |ts| && 0 <= j < |ts| ==> ts[i].providerName != ts[j].hostVeth
  }

  ghost predicate IsLink(ts: seq<FirewallTransfer>, name: string) {
    exists t :: t in ts && t.hostVeth == name
  }

  lemma {:induction false} FirstMatchConcat(a: seq<ForwardRule>, b: seq<ForwardRule>, packet: ForwardedPacket,
                                            covers: (string, nat) -> bool, wildcards: bool)
    ensures FirstMatch(a + b, packet, covers, wildcards)
         == var first := FirstMatch(a, packet, covers, wildcards);
            if first.Some? then first else FirstMatch(b, packet, covers, wildcards)
  {
    if a == [] {
      assert a + b == b;
    } else {
      assert (a + b)[1..] == a[1..] + b;
      FirstMatchConcat(a[1..], b, packet, covers, wildcards);
    }
  }

  /** What one transfer's four rules decide, in either back end. */
  function TransferVerdict(t: FirewallTransfer, packet: ForwardedPacket, covers: (string, nat) -> bool): Option<Verdict> {
    if packet.input == t.hostVeth && packet.output == t.providerName && covers(t.subnet, packet.source) then Some(Accept)
    else if packet.input == t.providerName && packet.output == t.hostVeth && covers(t.subnet, packet.destination)
            && packet.established then Some(Accept)
    else if packet.input == t.hostVeth || packet.output == t.hostVeth then Some(Drop)
    else None
  }

  lemma {:induction false} FourRules(r: seq<ForwardRule>, packet: ForwardedPacket,
                                     covers: (string, nat) -> bool, wildcards: bool)
    requires |r| == 4
    ensures FirstMatch(r, packet, covers, wildcards)
         == if AllHold(r[0].tests, packet, covers, wildcards) then Some(r[0].verdict)
            else if AllHold(r[1].tests, packet, covers, wildcards) then Some(r[1].verdict)
            else if AllHold(r[2].tests, packet, covers, wildcards) then Some(r[2].verdict)
            else if AllHold(r[3].tests, packet, covers, wildcards) then Some(r[3].verdict)
            else None
  {
    assert r[1..][1..] == r[2..];
    assert r[2..][1..] == r[3..];
    assert r[3..][1..] == [];
    assert FirstMatch(r[3..], packet, covers, wildcards)
        == if AllHold(r[3].tests, packet, covers, wildcards) then Some(r[3].verdict) else None;
    assert FirstMatch(r[2..], packet, covers, wildcards)
        == if AllHold(r[2].tests, packet, covers, wildcards) then Some(r[2].verdict)
           else FirstMatch(r[3..], packet, covers, wildcards);
  }

  /** Rules of three, four, one and one test. */
  lemma ForEachTest(r: seq<ForwardRule>, packet: ForwardedPacket, covers: (string, nat) -> bool, wildcards: bool)
    requires |r| == 4 && |r[0].tests| == 3 && |r[1].tests| == 4 && |r[2].tests| == 1 && |r[3].tests| == 1
    ensures AllHold(r[0].tests, packet, covers, wildcards) <==>
              && TestHolds(r[0].tests[0], packet, covers, wildcards) && TestHolds(r[0].tests[1], packet, covers, wildcards)
              && TestHolds(r[0].tests[2], packet, covers, wildcards)
    ensures AllHold(r[1].tests, packet, covers, wildcards) <==>
              && TestHolds(r[1].tests[0], packet, covers, wildcards) && TestHolds(r[1].tests[1], packet, covers, wildcards)
              && TestHolds(r[1].tests[2], packet, covers, wildcards) && TestHolds(r[1].tests[3], packet, covers, wildcards)
    ensures AllHold(r[2].tests, packet, covers, wildcards) <==> TestHolds(r[2].tests[0], packet, covers, wildcards)
    ensures AllHold(r[3].tests, packet, covers, wildcards) <==> TestHolds(r[3].tests[0], packet, covers, wildcards)
  {
  }

  lemma {:induction false} NftTransferVerdict(t: FirewallTransfer, packet: ForwardedPacket, covers: (string, nat) -> bool)
    ensures FirstMatch(NftForward(t), packet, covers, false) == TransferVerdict(t, packet, covers)
  {
    FourRules(NftForward(t), packet, covers, false);
    ForEachTest(NftForward(t), packet, covers, false);
  }

  lemma {:induction false} IptablesTransferVerdict(t: FirewallTransfer, packet: ForwardedPacket,
                                                   covers: (string, nat) -> bool)
    requires !EndsWithPlus(t.providerName) && !EndsWithPlus(t.hostVeth)
    ensures FirstMatch(IptablesForward(t), packet, covers, true) == TransferVerdict(t, packet, covers)
  {
    FourRules(IptablesForward(t), packet, covers, true);
    ForEachTest(IptablesForward(t), packet, covers, true);
  }

  function FirstVerdict(ts: seq<FirewallTransfer>, packet: ForwardedPacket, covers: (string, nat) -> bool): Option<Verdict> {
    if ts == [] then None
    else
      var first := TransferVerdict(ts[0], packet, covers);
      if first.Some? then first else FirstVerdict(ts[1..], packet, covers)
  }

  lemma {:induction false} CompiledDecides(ts: seq<FirewallTransfer>, packet: ForwardedPacket,
                                           covers: (string, nat) -> bool)
    requires ExactNames(ts)
    ensures FirstMatch(Compiled(ts, true), packet, covers, false) == FirstVerdict(ts, packet, covers)
    ensures FirstMatch(Compiled(ts, false), packet, covers, true) == FirstVerdict(ts, packet, covers)
  {
    if ts != [] {
      CompiledDecides(ts[1..], packet, covers);
      NftTransferVerdict(ts[0], packet, covers);
      IptablesTransferVerdict(ts[0], packet, covers);
      FirstMatchConcat(NftForward(ts[0]), Compiled(ts[1..], true), packet, covers, false);
      FirstMatchConcat(IptablesForward(ts[0]), Compiled(ts[1..], false), packet, covers, true);
    }
  }

  /** Packets that touch no claimed link match nothing. */
  lemma {:induction false} StrangersPass(ts: seq<FirewallTransfer>, packet: ForwardedPacket,
                                         covers: (string, nat) -> bool)
    requires !IsLink(ts, packet.input) && !IsLink(ts, packet.output)
    ensures FirstVerdict(ts, packet, covers) == None
  {
    if ts != [] {
      assert ts[0] in ts;
      StrangersPass(ts[1..], packet, covers);
    }
  }

  /** The program built for either back end decides every packet as the claim's transfers in order say. */
  lemma {:induction false} BackEndsAgree(c: FirewallClaim, p: Program, packet: ForwardedPacket,
                                         covers: (string, nat) -> bool)
    requires p == Program(OwnerPrefix(c.run, c.token), TransfersRules(OwnerPrefix(c.run, c.token), c.transfers))
    requires (forall t :: t in c.transfers ==> Plain(t)) && ExactNames(c.transfers) && NoJumpProvider(c.transfers)
    ensures RulesVerdict(RulesOf(p.rules, Filter), packet, covers) == FirstVerdict(c.transfers, packet, covers)
    ensures FirstMatch(NftChain(NftTransfersRules(OwnerPrefix(c.run, c.token), c.transfers)), packet, covers, false)
         == FirstVerdict(c.transfers, packet, covers)
  {
    BuiltProgramMeans(c, p);
    MeansDecides(RulesOf(p.rules, Filter), Compiled(c.transfers, false), packet, covers);
    NftProgramMeans(OwnerPrefix(c.run, c.token), c.transfers);
    CompiledDecides(c.transfers, packet, covers);
  }

  /** What a transfer wants of packets from its link: only to its provider and from its own subnet. */
  function LeavingVerdict(t: FirewallTransfer, packet: ForwardedPacket, covers: (string, nat) -> bool): Option<Verdict> {
    Some(if packet.output == t.providerName && covers(t.subnet, packet.source) then Accept else Drop)
  }

  ghost predicate LeavesIsolated(ts: seq<FirewallTransfer>, i: nat, packet: ForwardedPacket, covers: (string, nat) -> bool)
    requires i < |ts|
  {
    packet.input == ts[i].hostVeth ==> FirstVerdict(ts, packet, covers) == LeavingVerdict(ts[i], packet, covers)
  }

  /** Every packet that leaves any transfer's link gets exactly that transfer's verdict. */
  ghost predicate LeavingIsolated(ts: seq<FirewallTransfer>) {
    forall i: nat, packet, covers :: i < |ts| ==> LeavesIsolated(ts, i, packet, covers)
  }

  /** Transfers that decide nothing may stand in front. */
  lemma {:induction false} DecidedAt(ts: seq<FirewallTransfer>, i: nat, packet: ForwardedPacket,
                                     covers: (string, nat) -> bool)
    requires i < |ts| && TransferVerdict(ts[i], packet, covers).Some?
    requires forall k :: 0 <= k < i ==> TransferVerdict(ts[k], packet, covers) == None
    ensures FirstVerdict(ts, packet, covers) == TransferVerdict(ts[i], packet, covers)
  {
    if i > 0 {
      DecidedAt(ts[1..], i - 1, packet, covers);
    }
  }

  /** When every transfer that decides at all decides the same, that is the verdict. */
  lemma {:induction false} OneVerdict(ts: seq<FirewallTransfer>, i: nat, packet: ForwardedPacket,
                                      covers: (string, nat) -> bool, verdict: Option<Verdict>)
    requires i < |ts| && verdict.Some? && TransferVerdict(ts[i], packet, covers) == verdict
    requires forall k :: 0 <= k < |ts| ==> TransferVerdict(ts[k], packet, covers) in {None, verdict}
    ensures FirstVerdict(ts, packet, covers) == verdict
  {
    if i > 0 && TransferVerdict(ts[0], packet, covers) == None {
      OneVerdict(ts[1..], i - 1, packet, covers, verdict);
    }
  }

  /** With links and providers apart, packets from a link are decided by its transfer alone. */
  lemma {:induction false} LeavingIsIsolated(ts: seq<FirewallTransfer>, i: nat, packet: ForwardedPacket,
                                             covers: (string, nat) -> bool)
    requires LinksDiffer(ts) && NamesApart(ts) && i < |ts| && packet.input == ts[i].hostVeth
    ensures FirstVerdict(ts, packet, covers) == LeavingVerdict(ts[i], packet, covers)
  {
    var verdict := LeavingVerdict(ts[i], packet, covers);
    assert ts[i].providerName != ts[i].hostVeth;
    forall k | 0 <= k < |ts| ensures TransferVerdict(ts[k], packet, covers) in {None, verdict} {
      assert ts[i].providerName != ts[k].hostVeth && ts[k].providerName != ts[i].hostVeth;
      assert k != i ==> ts[k].hostVeth != ts[i].hostVeth;
    }
    OneVerdict(ts, i, packet, covers, verdict);
  }

  /** A provider named like a link: some packet from a link gets another verdict than its transfer's. */
  lemma SharedNameBreaksIsolation(ts: seq<FirewallTransfer>, i: nat, j: nat)
    returns (at: nat, packet: ForwardedPacket, covers: (string, nat) -> bool)
    requires LinksDiffer(ts) && i < |ts| && j < |ts| && ts[i].providerName == ts[j].hostVeth
    ensures at < |ts| && !LeavesIsolated(ts, at, packet, covers)
  {
    if i <= j {
      // return traffic of transfer i is let through although it comes from the link of transfer j
      at, packet := j, ForwardedPacket(ts[j].hostVeth, ts[i].hostVeth, 0, 1, true);
      covers := (prefix, address) => address == 1;
      DecidedAt(ts, i, packet, covers);
    } else {
      // what transfer i sends to its provider is dropped on its way to the link of transfer j
      at, packet := i, ForwardedPacket(ts[i].hostVeth, ts[j].hostVeth, 0, 0, false);
      covers := (prefix, address) => true;
      DecidedAt(ts, j, packet, covers);
    }
  }

  /** The transfers are isolated exactly when no provider is named like a link. */
  lemma IsolatedExactlyWhenApart(ts: seq<FirewallTransfer>)
    requires LinksDiffer(ts)
    ensures LeavingIsolated(ts) <==> NamesApart(ts)
  {
    if NamesApart(ts) {
      forall i: nat, packet, covers | i < |ts| ensures LeavesIsolated(ts, i, packet, covers) {
        if packet.input == ts[i].hostVeth {
          LeavingIsIsolated(ts, i, packet, covers);
        }
      }
    } else {
      var i: nat, j: nat :| i < |ts| && j < |ts| && ts[i].providerName == ts[j].hostVeth;
      var at, packet, covers := SharedNameBreaksIsolation(ts, i, j);
    }
  }

  /** A packet from a transfer's link gets that transfer's verdict from the built rules. */
  ghost predicate BuiltIsolates(p: Program, t: FirewallTransfer, packet: ForwardedPacket, covers: (string, nat) -> bool) {
    packet.input == t.hostVeth ==>
      RulesVerdict(RulesOf(p.rules, Filter), packet, covers) == LeavingVerdict(t, packet, covers)
  }

  /** The built iptables program isolates its transfers exactly when no provider is named like a link. */
  lemma BuiltProgramIsolates(c: FirewallClaim, p: Program)
    requires p == Program(OwnerPrefix(c.run, c.token), TransfersRules(OwnerPrefix(c.run, c.token), c.transfers))
    requires (forall t :: t in c.transfers ==> Plain(t)) && ExactNames(c.transfers) && NoJumpProvider(c.transfers)
    requires LinksDiffer(c.transfers)
    ensures (forall i, packet, covers :: 0 <= i < |c.transfers| ==> BuiltIsolates(p, c.transfers[i], packet, covers))
            <==> NamesApart(c.transfers)
  {
    forall i: nat, packet, covers | i < |c.transfers|
      ensures BuiltIsolates(p, c.transfers[i], packet, covers) <==> LeavesIsolated(c.transfers, i, packet, covers)
    {
      BackEndsAgree(c, p, packet, covers);
    }
    IsolatedExactlyWhenApart(c.transfers);
  }

  /** Packets to a link from no link pass only as established return traffic; nothing but different links is needed. */
  lemma {:induction false} ArrivingIsIsolated(ts: seq<FirewallTransfer>, i: nat, packet: ForwardedPacket,
                                              covers: (string, nat) -> bool)
    requires LinksDiffer(ts) && i < |ts| && packet.output == ts[i].hostVeth && !IsLink(ts, packet.input)
    ensures FirstVerdict(ts, packet, covers)
         == Some(if packet.input == ts[i].providerName && covers(ts[i].subnet, packet.destination) && packet.established
                 then Accept else Drop)
  {
    forall k | 0 <= k < |ts| ensures packet.input != ts[k].hostVeth {
      assert ts[k] in ts;
    }
    DecidedAt(ts, i, packet, covers);
  }
}
