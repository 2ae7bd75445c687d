/** From the rules a user declares to the bytes the kernel runs. */
module EndToEnd {
  import opened Words
  import opened Bpf
  import opened Assembler
  import opened Simulation
  import opened KernelCheck
  import opened SeccompData
  import opened Policy
  import opened LabelNames
  import opened Compiler
  import opened Linking
  import opened Meaning

  /** The filter compiles. */
  ghost predicate Compiles(arch: u32, default: u32, t: Table)
    requires t.Valid()
  {
    var P := Compiled(arch, default, t);
    Assemblable(P.insns, P.labels)
  }

  /** The bytes of the compiled filter. */
  ghost function Program(arch: u32, default: u32, t: Table): seq<u8>
    requires t.Valid() && Compiles(arch, default, t)
  {
    var P := Compiled(arch, default, t);
    PackAll(Image(P.insns, P.labels))
  }

  /** Running packed bytes on the 64-byte record of an event. */
  function RunOn(prog: seq<u8>, e: Event): Outcome {
    RunPacked(prog, Loads(e), 0, 0)
  }

  /** Interpreting the program's bytes on any event gives the policy's decision:
      kill on a foreign ABI, else the first matching rule of the syscall in
      insertion order, else the default. */
  lemma ProgramDecides(arch: u32, default: u32, t: Table, e: Event)
    requires t.Valid() && Compiles(arch, default, t)
    ensures RunOn(Program(arch, default, t), e) == Returned(Decide(arch, default, t.rules, e))
  {
    var P := Compiled(arch, default, t);
    LoadsSees(e);
    CompiledDecides(arch, default, t, Loads(e), e, 0);
    AssemblePreservesMeaning(P.insns, P.labels, Loads(e), 0);
  }

  /** Every program meets the kernel's rules, so it returns on arbitrary data
      after at most as many steps as it has records. */
  lemma ProgramIsAccepted(arch: u32, default: u32, t: Table, load: Loader)
    requires t.Valid() && Compiles(arch, default, t)
    ensures var P := Compiled(arch, default, t);
      var recs := Image(P.insns, P.labels);
      && Program(arch, default, t) == PackAll(recs)
      && Accepted(recs)
      && RunPacked(PackAll(recs), load, 0, 0).Returned?
      && Steps(recs, load, 0, 0) <= |recs|
  {
    var P := Compiled(arch, default, t);
    CompiledIsContained(arch, default, t);
    AssembledIsAccepted(P.insns, P.labels);
    AcceptedReturns(Image(P.insns, P.labels), load, 0, 0);
    PackedRunsAsRecords(Image(P.insns, P.labels), load, 0, 0);
  }

  // ------------------------------------------------------- changing the rules

  /** `_rules.setdefault(nr, []).append(rule)`. */
  function AddRule(t: Table, nr: u32, rule: Rule): Table {
    Table(if nr in t.rules then t.order else t.order + [nr], WithRule(t.rules, nr, rule))
  }

  lemma AddRuleValid(t: Table, nr: u32, rule: Rule)
    requires t.Valid()
    ensures AddRule(t, nr, rule).Valid()
  {
    var t' := AddRule(t, nr, rule);
    forall k | k in t'.rules ensures k in t'.order {
      if k in t.rules { assert k in t.order; } else { assert t'.order[|t.order|] == nr; }
    }
  }

  /** Adding a rule changes what the program returns only on native events for
      that syscall that no earlier rule matches and the new one does. */
  lemma AddChangesOnly(arch: u32, default: u32, t: Table, nr: u32, rule: Rule, e: Event)
    requires t.Valid() && AddRule(t, nr, rule).Valid()
    requires Compiles(arch, default, t) && Compiles(arch, default, AddRule(t, nr, rule))
    ensures RunOn(Program(arch, default, AddRule(t, nr, rule)), e) ==
      if e.arch == arch && NrWord(e) == nr && !SomeMatch(RulesFor(t.rules, nr), e) && AllHold(rule.args, e)
      then Returned(rule.action)
      else RunOn(Program(arch, default, t), e)
  {
    ProgramDecides(arch, default, t, e);
    ProgramDecides(arch, default, AddRule(t, nr, rule), e);
    AddIsLocal(arch, default, t.rules, nr, rule, e);
  }

  /** The table after a sequence of additions. */
  function Build(adds: seq<(u32, Rule)>): Table {
    if adds == [] then Table([], map[])
    else var (nr, rule) := adds[|adds| - 1]; AddRule(Build(adds[..|adds| - 1]), nr, rule)
  }

  /** The additions to one syscall, in order. */
  function AddedTo(adds: seq<(u32, Rule)>, nr: u32): seq<Rule> {
    if adds == [] then []
    else
      var rest := AddedTo(adds[..|adds| - 1], nr);
      if adds[|adds| - 1].0 == nr then rest + [adds[|adds| - 1].1] else rest
  }

  lemma {:induction false} BuildKeepsOrder(adds: seq<(u32, Rule)>, nr: u32)
    ensures Build(adds).Valid()
    ensures nr in Build(adds).rules <==> AddedTo(adds, nr) != []
    ensures nr in Build(adds).rules ==> Build(adds).rules[nr] == AddedTo(adds, nr)
  {
    if adds != [] {
      var init := adds[..|adds| - 1];
      var (nr', rule) := adds[|adds| - 1];
      BuildKeepsOrder(init, nr);
      AddRuleValid(Build(init), nr', rule);
    }
  }

  /** Syscall x was added before syscall y ever was. */
  ghost predicate AddedBefore(adds: seq<(u32, Rule)>, x: u32, y: u32) {
    exists i | 0 <= i < |adds| :: adds[i].0 == x && forall j | 0 <= j <= i :: adds[j].0 != y
  }

  lemma AddedBeforeMore(adds: seq<(u32, Rule)>, add: (u32, Rule), x: u32, y: u32)
    requires AddedBefore(adds, x, y)
    ensures AddedBefore(adds + [add], x, y)
  {
    var i :| 0 <= i < |adds| && adds[i].0 == x && forall j | 0 <= j <= i :: adds[j].0 != y;
    var more := adds + [add];
    assert more[i].0 == x && forall j | 0 <= j <= i :: more[j] == adds[j];
  }

  lemma {:induction false} AddedToMember(adds: seq<(u32, Rule)>, nr: u32)
    ensures AddedTo(adds, nr) != [] <==> exists i | 0 <= i < |adds| :: adds[i].0 == nr
  {
    if adds != [] { AddedToMember(adds[..|adds| - 1], nr); }
  }

  lemma OldBeforeNew(adds: seq<(u32, Rule)>, x: u32, y: u32)
    requires x in Build(adds).order && y !in Build(adds).rules
    ensures AddedBefore(adds, x, y)
  {
    BuildKeepsOrder(adds, x);
    BuildKeepsOrder(adds, y);
    AddedToMember(adds, x);
    AddedToMember(adds, y);
    var i :| 0 <= i < |adds| && adds[i].0 == x;
  }

  /** The table keeps its syscalls in the order each was first added. */
  lemma {:induction false} BuildKeepsInsertionOrder(adds: seq<(u32, Rule)>, a: nat, b: nat)
    requires a < b < |Build(adds).order|
    ensures AddedBefore(adds, Build(adds).order[a], Build(adds).order[b])
  {
    var n := |adds| - 1;
    var init, x, y := adds[..n], Build(adds).order[a], Build(adds).order[b];
    assert adds == init + [adds[n]];
    if b < |Build(init).order| {
      BuildKeepsInsertionOrder(init, a, b);
      AddedBeforeMore(init, adds[n], x, y);
    } else {
      OldBeforeNew(init, x, y);
      AddedBeforeMore(init, adds[n], x, y);
    }
  }

  /** Two builds that add the same rules to each syscall in the same order decide
      alike, however additions to different syscalls are interleaved. */
  lemma InterleavingIrrelevant(arch: u32, default: u32, a: seq<(u32, Rule)>, b: seq<(u32, Rule)>, e: Event)
    requires forall nr: u32 :: AddedTo(a, nr) == AddedTo(b, nr)
    requires Build(a).Valid() && Compiles(arch, default, Build(a))
    requires Build(b).Valid() && Compiles(arch, default, Build(b))
    ensures RunOn(Program(arch, default, Build(a)), e) == RunOn(Program(arch, default, Build(b)), e)
  {
    ProgramDecides(arch, default, Build(a), e);
    ProgramDecides(arch, default, Build(b), e);
    BuildKeepsOrder(a, NrWord(e));
    BuildKeepsOrder(b, NrWord(e));
  }

  // -------------------------------------------------- reordering conditions

  /** The same actions in the same order, with conditions permuted. */
  ghost predicate Permuted(a: seq<Rule>, b: seq<Rule>) {
    |a| == |b| && forall i | 0 <= i < |a| :: a[i].action == b[i].action && multiset(a[i].args) == multiset(b[i].args)
  }

  lemma {:induction false} PermutedMatch(a: seq<Rule>, b: seq<Rule>, e: Event, default: u32)
    requires Permuted(a, b)
    ensures FirstMatch(a, e, default) == FirstMatch(b, e, default)
  {
    if a != [] {
      OrderIrrelevant(a[0].args, b[0].args, e);
      PermutedMatch(a[1..], b[1..], e, default);
    }
  }

  /** The same syscalls in the same order, each with permuted rules. */
  ghost predicate PermutedTables(t: Table, u: Table) {
    && t.order == u.order && t.rules.Keys == u.rules.Keys
    && forall nr | nr in t.rules :: Permuted(t.rules[nr], u.rules[nr])
  }

  /** Adding one rule with its conditions in two orders keeps tables alike. */
  lemma AddKeepsPermuted(t: Table, u: Table, nr: u32, action: u32, a: seq<Cond>, b: seq<Cond>)
    requires PermutedTables(t, u) && multiset(a) == multiset(b)
    ensures PermutedTables(AddRule(t, nr, Rule(action, a)), AddRule(u, nr, Rule(action, b)))
  {
    assert nr in t.rules <==> nr in u.rules;
    assert Permuted(RulesFor(t.rules, nr), RulesFor(u.rules, nr));
    assert Permuted(RulesFor(t.rules, nr) + [Rule(action, a)], RulesFor(u.rules, nr) + [Rule(action, b)]);
  }

  /** Programs whose rules differ only in the order of conditions decide alike. */
  lemma ConditionOrderIrrelevant(arch: u32, default: u32, t: Table, u: Table, e: Event)
    requires t.Valid() && u.Valid() && Compiles(arch, default, t) && Compiles(arch, default, u)
    requires PermutedTables(t, u)
    ensures RunOn(Program(arch, default, t), e) == RunOn(Program(arch, default, u), e)
  {
    ProgramDecides(arch, default, t, e);
    ProgramDecides(arch, default, u, e);
    assert NrWord(e) in t.rules <==> NrWord(e) in u.rules;
    if NrWord(e) in t.rules { PermutedMatch(t.rules[NrWord(e)], u.rules[NrWord(e)], e, default); }
  }

  // ------------------------------------------------------------- dead rules

  lemma EmitRulesStep(l: Listing, nr: u32, rules: seq<Rule>, i: nat, default: u32)
    requires i < |rules| && rules[i].args != []
    ensures EmitRules(l, nr, rules, i, default)
         == EmitRules(EmitRule(l, rules[i], nr, i), nr, rules, i + 1, default)
  {}

  /** Rules behind an unconditional rule emit no code at all. */
  lemma {:induction false} DeadRulesEmitNothing(l: Listing, nr: u32, rules: seq<Rule>, all: seq<Rule>, i: nat, default: u32)
    requires rules <= all && i < |rules| && rules[|rules| - 1].args == []
    ensures EmitRules(l, nr, all, i, default) == EmitRules(l, nr, rules, i, default)
    decreases |rules| - i
  {
    assert all[i] == rules[i];
    if rules[i].args != [] {
      var l' := EmitRule(l, rules[i], nr, i);
      EmitRulesStep(l, nr, rules, i, default);
      EmitRulesStep(l, nr, all, i, default);
      DeadRulesEmitNothing(l', nr, rules, all, i + 1, default);
    }
  }

  /** u's rules for nr are t's, cut right behind some unconditional rule. */
  ghost predicate CutAt(t: Table, u: Table, nr: u32)
    requires nr in t.rules && nr in u.rules
  {
    var a, b := t.rules[nr], u.rules[nr];
    a == b || (b != [] && b[|b| - 1].args == [] && b <= a)
  }

  lemma CutBlock(l: Listing, t: Table, u: Table, nr: u32, default: u32)
    requires nr in t.rules && nr in u.rules && CutAt(t, u, nr)
    ensures EmitBlock(l, nr, t.rules[nr], default) == EmitBlock(l, nr, u.rules[nr], default)
  {
    var full, cut := t.rules[nr], u.rules[nr];
    if full != cut { DeadRulesEmitNothing(Bind(l, Block(nr)), nr, cut, full, 0, default); }
  }

  lemma {:induction false} CutBlocks(l: Listing, t: Table, u: Table, b: nat, default: u32)
    requires t.Valid() && u.Valid() && t.order == u.order && b <= |t.order|
    requires forall k | 0 <= k < |t.order| :: CutAt(t, u, t.order[k])
    ensures EmitBlocks(l, t, b, default) == EmitBlocks(l, u, b, default)
    decreases |t.order| - b
  {
    if b < |t.order| {
      var nr := t.order[b];
      CutBlock(l, t, u, nr, default);
      CutBlocks(EmitBlock(l, nr, t.rules[nr], default), t, u, b + 1, default);
    }
  }

  /** Dropping everything behind unconditional rules gives the very same program. */
  lemma DeadRulesSameProgram(arch: u32, default: u32, t: Table, u: Table)
    requires t.Valid() && u.Valid() && t.order == u.order
    requires forall k | 0 <= k < |t.order| :: CutAt(t, u, t.order[k])
    ensures Compiled(arch, default, t) == Compiled(arch, default, u)
  {
    CutBlocks(Start(arch, default, t), t, u, 0, default);
  }
}
