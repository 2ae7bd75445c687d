/** Labels in compiled programs: every name is bound once, every jump lands
    strictly ahead and inside, so compiling never raises a label error. */
module Linking {
  import opened Words
  import opened Bpf
  import opened KernelCheck
  import opened Policy
  import opened LabelNames
  import opened Compiler

  // ------------------------------------------------------------------ growth

  lemma {:induction false} CondsGrow(l: Listing, conds: seq<Cond>, nr: u32, i: nat, j: nat)
    requires j <= |conds|
    ensures l.insns <= EmitConds(l, conds, nr, i, j).insns
    decreases |conds| - j
  {
    if j < |conds| { CondsGrow(EmitCond(l, conds[j], nr, i, j), conds, nr, i, j + 1); }
  }

  lemma {:induction false} RulesGrow(l: Listing, nr: u32, rules: seq<Rule>, i: nat, default: u32)
    requires i <= |rules|
    ensures l.insns <= EmitRules(l, nr, rules, i, default).insns
    ensures |l.insns| < |EmitRules(l, nr, rules, i, default).insns|
    decreases |rules| - i
  {
    if i < |rules| && rules[i].args != [] {
      CondsGrow(l, rules[i].args, nr, i, 0);
      RulesGrow(EmitRule(l, rules[i], nr, i), nr, rules, i + 1, default);
    }
  }

  lemma {:induction false} BlocksGrow(l: Listing, t: Table, b: nat, default: u32)
    requires t.Valid() && b <= |t.order|
    ensures l.insns <= EmitBlocks(l, t, b, default).insns
    decreases |t.order| - b
  {
    if b < |t.order| {
      RulesGrow(Bind(l, Block(t.order[b])), t.order[b], t.rules[t.order[b]], 0, default);
      BlocksGrow(EmitBlock(l, t.order[b], t.rules[t.order[b]], default), t, b + 1, default);
    }
  }

  // ------------------------------------------- which labels each phase touches

  /** Label s is bound alike in both listings, or in neither. */
  ghost predicate Same(l: Listing, l': Listing, s: Label) {
    (s in l.labels <==> s in l'.labels) && (s in l.labels ==> l.labels[s] == l'.labels[s])
  }

  /** s is the hit label of condition j or later of rule i. */
  ghost predicate HitFrom(s: Label, nr: u32, i: nat, j: nat) {
    var n := NameOf(s);
    n.Some? && n.value.Hit? && n.value.nr == nr && n.value.i == i && n.value.j >= j
  }

  /** s belongs to rule i or later of syscall nr. */
  ghost predicate RuleFrom(s: Label, nr: u32, i: nat) {
    var n := NameOf(s);
    n.Some? && (n.value.Hit? || n.value.Next?) && n.value.nr == nr && n.value.i >= i
  }

  /** s belongs to syscall nr. */
  ghost predicate OfSyscall(s: Label, nr: u32) {
    var n := NameOf(s);
    n.Some? && !n.value.Kill? && n.value.nr == nr
  }

  lemma {:induction false} CondsKeep(l: Listing, conds: seq<Cond>, nr: u32, i: nat, j: nat, s: Label)
    requires j <= |conds| && !HitFrom(s, nr, i, j)
    ensures Same(l, EmitConds(l, conds, nr, i, j), s)
    decreases |conds| - j
  {
    if j < |conds| {
      NameOfRender();
      CondsKeep(EmitCond(l, conds[j], nr, i, j), conds, nr, i, j + 1, s);
    }
  }

  lemma {:induction false} RulesKeep(l: Listing, nr: u32, rules: seq<Rule>, i: nat, default: u32, s: Label)
    requires i <= |rules| && !RuleFrom(s, nr, i)
    ensures Same(l, EmitRules(l, nr, rules, i, default), s)
    decreases |rules| - i
  {
    if i < |rules| && rules[i].args != [] {
      NameOfRender();
      CondsKeep(l, rules[i].args, nr, i, 0, s);
      RulesKeep(EmitRule(l, rules[i], nr, i), nr, rules, i + 1, default, s);
    }
  }

  lemma BlockKeeps(l: Listing, nr: u32, rules: seq<Rule>, default: u32, s: Label)
    requires !OfSyscall(s, nr)
    ensures Same(l, EmitBlock(l, nr, rules, default), s)
  {
    NameOfRender();
    RulesKeep(Bind(l, Block(nr)), nr, rules, 0, default, s);
  }

  lemma {:induction false} BlocksKeep(l: Listing, t: Table, b: nat, default: u32, s: Label)
    requires t.Valid() && b <= |t.order|
    requires forall k | b <= k < |t.order| :: !OfSyscall(s, t.order[k])
    ensures Same(l, EmitBlocks(l, t, b, default), s)
    decreases |t.order| - b
  {
    if b < |t.order| {
      var nr := t.order[b];
      assert !OfSyscall(s, nr);
      BlockKeeps(l, nr, t.rules[nr], default, s);
      BlocksKeep(EmitBlock(l, nr, t.rules[nr], default), t, b + 1, default, s);
    }
  }

  // ------------------------------------------------- each name is bound once

  /** Labels bound by rules i and later: one per condition and one per rule,
      up to the first unconditional rule. */
  ghost function RuleBindings(rules: seq<Rule>, i: nat): nat
    requires i <= |rules|
    decreases |rules| - i
  {
    if i == |rules| || rules[i].args == [] then 0 else |rules[i].args| + 1 + RuleBindings(rules, i + 1)
  }

  /** Labels bound by the blocks from the b-th on. */
  ghost function BlockBindings(t: Table, b: nat): nat
    requires t.Valid() && b <= |t.order|
    decreases |t.order| - b
  {
    if b == |t.order| then 0 else 1 + RuleBindings(t.rules[t.order[b]], 0) + BlockBindings(t, b + 1)
  }

  lemma {:induction false} CondsBindFresh(l: Listing, conds: seq<Cond>, nr: u32, i: nat, j: nat)
    requires j <= |conds| && forall s | s in l.labels :: !HitFrom(s, nr, i, j)
    ensures |EmitConds(l, conds, nr, i, j).labels| == |l.labels| + |conds| - j
    decreases |conds| - j
  {
    if j < |conds| {
      NameOfRender();
      assert HitFrom(Render(Hit(nr, i, j)), nr, i, j);
      CondsBindFresh(EmitCond(l, conds[j], nr, i, j), conds, nr, i, j + 1);
    }
  }

  lemma {:induction false} RulesBindFresh(l: Listing, nr: u32, rules: seq<Rule>, i: nat, default: u32)
    requires i <= |rules| && forall s | s in l.labels :: !RuleFrom(s, nr, i)
    ensures |EmitRules(l, nr, rules, i, default).labels| == |l.labels| + RuleBindings(rules, i)
    decreases |rules| - i
  {
    if i < |rules| && rules[i].args != [] {
      NameOfRender();
      var l1, l2 := EmitConds(l, rules[i].args, nr, i, 0), EmitRule(l, rules[i], nr, i);
      assert forall s | HitFrom(s, nr, i, 0) :: RuleFrom(s, nr, i);
      CondsBindFresh(l, rules[i].args, nr, i, 0);
      assert RuleFrom(Render(Next(nr, i)), nr, i);
      CondsKeep(l, rules[i].args, nr, i, 0, Render(Next(nr, i)));
      forall s | s in l2.labels ensures !RuleFrom(s, nr, i + 1) {
        if RuleFrom(s, nr, i + 1) { CondsKeep(l, rules[i].args, nr, i, 0, s); }
      }
      RulesBindFresh(l2, nr, rules, i + 1, default);
    }
  }

  lemma {:induction false} BlocksBindFresh(l: Listing, t: Table, b: nat, default: u32)
    requires t.Valid() && b <= |t.order|
    requires forall s, k | s in l.labels && b <= k < |t.order| :: !OfSyscall(s, t.order[k])
    ensures |EmitBlocks(l, t, b, default).labels| == |l.labels| + BlockBindings(t, b)
    decreases |t.order| - b
  {
    if b < |t.order| {
      var nr := t.order[b];
      var m := EmitBlock(l, nr, t.rules[nr], default);
      BlockBindsFresh(l, nr, t.rules[nr], default);
      forall s, k | s in m.labels && b + 1 <= k < |t.order| ensures !OfSyscall(s, t.order[k]) {
        if OfSyscall(s, t.order[k]) { BlockKeeps(l, nr, t.rules[nr], default, s); }
      }
      BlocksBindFresh(m, t, b + 1, default);
    }
  }

  lemma BlockBindsFresh(l: Listing, nr: u32, rules: seq<Rule>, default: u32)
    requires forall s | s in l.labels :: !OfSyscall(s, nr)
    ensures |EmitBlock(l, nr, rules, default).labels| == |l.labels| + 1 + RuleBindings(rules, 0)
  {
    NameOfRender();
    assert OfSyscall(Render(Block(nr)), nr);
    forall s | s in Bind(l, Block(nr)).labels ensures !RuleFrom(s, nr, 0) {
      assert s in l.labels ==> !OfSyscall(s, nr);
    }
    RulesBindFresh(Bind(l, Block(nr)), nr, rules, 0, default);
  }

  /** No two bindings of a compilation share a name: the program has exactly as
      many labels as there were binding steps. */
  lemma LabelsBoundOnce(arch: u32, default: u32, t: Table)
    requires t.Valid()
    ensures |Compiled(arch, default, t).labels| == BlockBindings(t, 0) + 1
  {
    NameOfRender();
    BlocksBindFresh(Start(arch, default, t), t, 0, default);
    BlocksKeep(Start(arch, default, t), t, 0, default, Render(Kill));
  }

  // ------------------------------------------------- the finished program P

  /** l is a proper prefix of the finished program. */
  ghost predicate Inside(l: Listing, P: Listing) {
    l.insns <= P.insns && |l.insns| < |P.insns|
  }

  /** The finished program binds s where l does. */
  ghost predicate Agree(l: Listing, P: Listing, s: Label) {
    s in l.labels ==> s in P.labels && P.labels[s] == l.labels[s]
  }

  ghost predicate AgreeHits(l: Listing, P: Listing, nr: u32, i: nat) {
    forall s | HitFrom(s, nr, i, 0) :: Agree(l, P, s)
  }

  ghost predicate AgreeRules(l: Listing, P: Listing, nr: u32) {
    forall s | RuleFrom(s, nr, 0) :: Agree(l, P, s)
  }

  ghost predicate AgreeBlocks(l: Listing, P: Listing) {
    forall s | NameOf(s) != Some(Kill) :: Agree(l, P, s)
  }

  /** Name n is bound to position p in the finished program. */
  ghost predicate BoundAt(P: Listing, n: Name, p: int) {
    Render(n) in P.labels && P.labels[Render(n)] == p
  }

  /** After condition j comes its hit label. */
  lemma CondLinks(P: Listing, l: Listing, conds: seq<Cond>, nr: u32, i: nat, j: nat)
    requires j < |conds| && AgreeHits(EmitConds(l, conds, nr, i, j), P, nr, i)
    requires Inside(EmitConds(l, conds, nr, i, j), P)
    ensures var l1 := EmitCond(l, conds[j], nr, i, j);
      BoundAt(P, Hit(nr, i, j), |l1.insns|) && Inside(l1, P)
  {
    NameOfRender();
    var l1 := EmitCond(l, conds[j], nr, i, j);
    CondsKeep(l1, conds, nr, i, j + 1, Render(Hit(nr, i, j)));
    assert HitFrom(Render(Hit(nr, i, j)), nr, i, 0);
    CondsGrow(l1, conds, nr, i, j + 1);
  }

  /** After conditional rule i come its own labels, untouched by later rules. */
  lemma RuleLinks(P: Listing, l: Listing, nr: u32, rules: seq<Rule>, i: nat, default: u32)
    requires i < |rules| && rules[i].args != []
    requires AgreeRules(EmitRules(l, nr, rules, i, default), P, nr)
    requires Inside(EmitRules(l, nr, rules, i, default), P)
    ensures var l1 := EmitConds(l, rules[i].args, nr, i, 0);
      && AgreeHits(l1, P, nr, i)
      && BoundAt(P, Next(nr, i), |l1.insns| + 1)
      && Inside(l1, P) && Inside(EmitRule(l, rules[i], nr, i), P)
      && P.insns[|l1.insns|] == Ret(rules[i].action)
  {
    NameOfRender();
    var l1, l2 := EmitConds(l, rules[i].args, nr, i, 0), EmitRule(l, rules[i], nr, i);
    RulesGrow(l2, nr, rules, i + 1, default);
    forall s | HitFrom(s, nr, i, 0) ensures Agree(l1, P, s) {
      assert RuleFrom(s, nr, 0);
      RulesKeep(l2, nr, rules, i + 1, default, s);
    }
    assert RuleFrom(Render(Next(nr, i)), nr, 0);
    RulesKeep(l2, nr, rules, i + 1, default, Render(Next(nr, i)));
    assert l2.insns[|l1.insns|] == Ret(rules[i].action);
  }

  lemma BlockKept(P: Listing, l: Listing, t: Table, b: nat, default: u32, s: Label)
    requires t.Valid() && b < |t.order| && OfSyscall(s, t.order[b])
    requires AgreeBlocks(EmitBlocks(l, t, b, default), P)
    ensures Agree(EmitBlock(l, t.order[b], t.rules[t.order[b]], default), P, s)
  {
    var m := EmitBlock(l, t.order[b], t.rules[t.order[b]], default);
    BlocksKeep(m, t, b + 1, default, s);
    assert Agree(EmitBlocks(l, t, b, default), P, s);
  }

  /** After block b come its own labels, untouched by later blocks. */
  lemma BlockLinks(P: Listing, l: Listing, t: Table, b: nat, default: u32)
    requires t.Valid() && b < |t.order|
    requires AgreeBlocks(EmitBlocks(l, t, b, default), P) && Inside(EmitBlocks(l, t, b, default), P)
    ensures var nr := t.order[b];
      var m := EmitBlock(l, nr, t.rules[nr], default);
      AgreeRules(m, P, nr) && BoundAt(P, Block(nr), |l.insns|) && Inside(m, P)
  {
    NameOfRender();
    var nr := t.order[b];
    var l0, m := Bind(l, Block(nr)), EmitBlock(l, nr, t.rules[nr], default);
    BlocksGrow(m, t, b + 1, default);
    forall s | RuleFrom(s, nr, 0) ensures Agree(m, P, s) {
      BlockKept(P, l, t, b, default, s);
    }
    RulesKeep(l0, nr, t.rules[nr], 0, default, Render(Block(nr)));
    BlockKept(P, l, t, b, default, Render(Block(nr)));
  }

  // ---------------------------------------------------- every jump is forward

  /** Positions lo to hi hold legal instructions whose labels lie ahead and inside. */
  ghost predicate RangeOk(P: Listing, lo: nat, hi: nat) {
    && hi <= |P.insns|
    && forall p | lo <= p < hi :: InsnOk(P.insns, P.labels, p)
  }

  lemma RangeJoin(P: Listing, a: nat, b: nat, c: nat)
    requires RangeOk(P, a, b) && RangeOk(P, b, c)
    ensures RangeOk(P, a, c)
  {}

  lemma RangeRet(P: Listing, p: nat)
    requires p < |P.insns| && P.insns[p].Ret?
    ensures RangeOk(P, p, p + 1)
  {}

  /** An instruction that names no labels but fail and passed, and loads legally. */
  predicate Names(insn: Insn, fail: Label, passed: Label) {
    match insn
    case Jump(_, _, jt, jf) =>
      (jt.Some? ==> jt.value in {fail, passed}) && (jf.Some? ==> jf.value in {fail, passed})
    case Ja(_) => false
    case _ => LoadOk(insn)
  }

  lemma CondCodeNames(c: Cond, fail: Label, passed: Label)
    ensures forall d | 0 <= d < |CondCode(c, fail, passed)| :: Names(CondCode(c, fail, passed)[d], fail, passed)
  {
    assert LoOff(c) % 4 == 0 && HiOff(c) % 4 == 0 && HiOff(c) < SECCOMP_DATA_SIZE;
  }

  lemma NamesOk(P: Listing, p: nat, fail: Label, passed: Label)
    requires p < |P.insns| && Names(P.insns[p], fail, passed)
    requires Ahead(Some(fail), P.labels, p, |P.insns| - 1) && Ahead(Some(passed), P.labels, p, |P.insns| - 1)
    ensures InsnOk(P.insns, P.labels, p)
  {}

  lemma CondRange(P: Listing, l: Listing, c: Cond, nr: u32, i: nat, j: nat)
    requires var l1 := EmitCond(l, c, nr, i, j);
      && Inside(l1, P) && BoundAt(P, Hit(nr, i, j), |l1.insns|)
      && Render(Next(nr, i)) in P.labels && |l1.insns| <= P.labels[Render(Next(nr, i))] < |P.insns|
    ensures RangeOk(P, |l.insns|, |EmitCond(l, c, nr, i, j).insns|)
  {
    var fail, passed, l1 := Render(Next(nr, i)), Render(Hit(nr, i, j)), EmitCond(l, c, nr, i, j);
    CondCodeNames(c, fail, passed);
    forall p | |l.insns| <= p < |l1.insns|
      ensures InsnOk(P.insns, P.labels, p)
    {
      assert P.insns[p] == l1.insns[p] == CondCode(c, fail, passed)[p - |l.insns|];
      NamesOk(P, p, fail, passed);
    }
  }

  lemma {:induction false} CondsRange(P: Listing, l: Listing, conds: seq<Cond>, nr: u32, i: nat, j: nat)
    requires j <= |conds|
    requires var l' := EmitConds(l, conds, nr, i, j);
      && Inside(l', P) && AgreeHits(l', P, nr, i)
      && Render(Next(nr, i)) in P.labels && |l'.insns| <= P.labels[Render(Next(nr, i))] < |P.insns|
    ensures RangeOk(P, |l.insns|, |EmitConds(l, conds, nr, i, j).insns|)
    decreases |conds| - j
  {
    if j < |conds| {
      CondLinks(P, l, conds, nr, i, j);
      CondsGrow(EmitCond(l, conds[j], nr, i, j), conds, nr, i, j + 1);
      CondRange(P, l, conds[j], nr, i, j);
      CondsRange(P, EmitCond(l, conds[j], nr, i, j), conds, nr, i, j + 1);
    }
  }

  lemma {:induction false} RulesRange(P: Listing, l: Listing, nr: u32, rules: seq<Rule>, i: nat, default: u32)
    requires i <= |rules|
    requires var f := EmitRules(l, nr, rules, i, default); Inside(f, P) && AgreeRules(f, P, nr)
    ensures RangeOk(P, |l.insns|, |EmitRules(l, nr, rules, i, default).insns|)
    decreases |rules| - i
  {
    var f := EmitRules(l, nr, rules, i, default);
    if i < |rules| && rules[i].args != [] {
      RuleLinks(P, l, nr, rules, i, default);
      var l2 := EmitRule(l, rules[i], nr, i);
      RulesGrow(l2, nr, rules, i + 1, default);
      CondsRange(P, l, rules[i].args, nr, i, 0);
      RangeRet(P, |l2.insns| - 1);
      RangeJoin(P, |l.insns|, |l2.insns| - 1, |l2.insns|);
      RulesRange(P, l2, nr, rules, i + 1, default);
      RangeJoin(P, |l.insns|, |l2.insns|, |f.insns|);
    } else {
      assert P.insns[|l.insns|] == f.insns[|l.insns|];
    }
  }

  lemma {:induction false} BlocksRange(P: Listing, l: Listing, t: Table, b: nat, default: u32)
    requires t.Valid() && b <= |t.order|
    requires var f := EmitBlocks(l, t, b, default); Inside(f, P) && AgreeBlocks(f, P)
    ensures RangeOk(P, |l.insns|, |EmitBlocks(l, t, b, default).insns|)
    decreases |t.order| - b
  {
    if b < |t.order| {
      var nr := t.order[b];
      BlockLinks(P, l, t, b, default);
      RulesRange(P, Bind(l, Block(nr)), nr, t.rules[nr], 0, default);
      BlocksRange(P, EmitBlock(l, nr, t.rules[nr], default), t, b + 1, default);
    }
  }

  /** Every syscall's block label is bound within the blocks. */
  lemma {:induction false} BlockBound(P: Listing, l: Listing, t: Table, b: nat, k: nat, default: u32)
    requires t.Valid() && b <= k < |t.order|
    requires var f := EmitBlocks(l, t, b, default); Inside(f, P) && AgreeBlocks(f, P)
    ensures var s := Render(Block(t.order[k]));
      s in P.labels && |l.insns| <= P.labels[s] < |P.insns|
    decreases |t.order| - b
  {
    var nr := t.order[b];
    BlockLinks(P, l, t, b, default);
    RulesGrow(Bind(l, Block(nr)), nr, t.rules[nr], 0, default);
    if b < k {
      BlockBound(P, EmitBlock(l, nr, t.rules[nr], default), t, b + 1, k, default);
    }
  }

  /** The listing of prologue and blocks, before the kill tail. */
  ghost function Body(arch: u32, default: u32, t: Table): Listing
    requires t.Valid()
  {
    EmitBlocks(Start(arch, default, t), t, 0, default)
  }

  ghost function Start(arch: u32, default: u32, t: Table): Listing {
    Listing(Prologue(arch, t.order, default), map[])
  }

  /** The kill tail is the last instruction and binds only its own label. */
  lemma KillTail(arch: u32, default: u32, t: Table)
    requires t.Valid()
    ensures var P, f := Compiled(arch, default, t), Body(arch, default, t);
      && P.insns == f.insns + [Ret(KILL_PROCESS)]
      && Start(arch, default, t).insns <= P.insns
      && Inside(f, P) && AgreeBlocks(f, P) && BoundAt(P, Kill, |f.insns|)
  {
    NameOfRender();
    BlocksGrow(Start(arch, default, t), t, 0, default);
  }

  lemma PrologueRange(arch: u32, default: u32, t: Table)
    requires t.Valid()
    ensures RangeOk(Compiled(arch, default, t), 0, |Prologue(arch, t.order, default)|)
  {
    var P := Compiled(arch, default, t);
    KillTail(arch, default, t);
    forall p | 0 <= p < |Prologue(arch, t.order, default)|
      ensures InsnOk(P.insns, P.labels, p)
    {
      PrologueInsn(arch, default, t, p);
    }
  }

  lemma PrologueInsn(arch: u32, default: u32, t: Table, p: nat)
    requires t.Valid() && p < |Prologue(arch, t.order, default)|
    ensures var P := Compiled(arch, default, t); p < |P.insns| && InsnOk(P.insns, P.labels, p)
  {
    var P, s := Compiled(arch, default, t), Start(arch, default, t);
    KillTail(arch, default, t);
    BlocksGrow(s, t, 0, default);
    assert P.insns[p] == s.insns[p];
    if 3 <= p < 3 + |t.order| {
      assert s.insns[p] == Dispatch(t.order)[p - 3];
      BlockBound(P, s, t, 0, p - 3, default);
    }
  }

  /** Every compiled program is contained: all labels bound, strictly ahead of
      every jump that names them and inside the program, every load legal, and
      a Ret at the end. So compiling never raises a label error. */
  lemma CompiledIsContained(arch: u32, default: u32, t: Table)
    requires t.Valid()
    ensures var P := Compiled(arch, default, t); Contained(P.insns, P.labels)
  {
    var P, f := Compiled(arch, default, t), Body(arch, default, t);
    KillTail(arch, default, t);
    PrologueRange(arch, default, t);
    BlocksRange(P, Start(arch, default, t), t, 0, default);
    forall p | 0 <= p < |P.insns|
      ensures InsnOk(P.insns, P.labels, p)
    {
      if p == |f.insns| { assert P.insns[p] == Ret(KILL_PROCESS); }
    }
  }
}
