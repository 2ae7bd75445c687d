/** How large a compiled filter can get, whatever jumps are expanded. */
module Sizes {
  import opened Words
  import opened Bpf
  import opened Relaxation
  import opened Assembler
  import opened KernelCheck
  import opened SeccompData
  import opened Policy
  import opened LabelNames
  import opened Compiler
  import opened Linking

  /** The most records an instruction can take. */
  function MaxSize(insn: Insn): nat {
    if insn.Jump? then ExpandedSize(insn) else 1
  }

  function Weight(insns: seq<Insn>): nat {
    if insns == [] then 0 else MaxSize(insns[0]) + Weight(insns[1..])
  }

  lemma {:induction false} WeightConcat(a: seq<Insn>, b: seq<Insn>)
    ensures Weight(a + b) == Weight(a) + Weight(b)
  {
    if a == [] {
      assert a + b == b;
    } else {
      assert (a + b)[1..] == a[1..] + b;
      WeightConcat(a[1..], b);
    }
  }

  /** No allowed choice of sizes exceeds the weight. */
  lemma {:induction false} WeightBounds(insns: seq<Insn>, sizes: seq<nat>, k: nat)
    requires Sized(insns, sizes) && k <= |insns|
    ensures Pos(sizes, k) <= Weight(insns[..k])
  {
    if k > 0 {
      WeightBounds(insns, sizes, k - 1);
      assert insns[..k] == insns[..k - 1] + [insns[k - 1]];
      WeightConcat(insns[..k - 1], [insns[k - 1]]);
      assert SizeAllowed(insns[k - 1], sizes[k - 1]);
    }
  }

  lemma Weight3(a: Insn, b: Insn, c: Insn)
    ensures Weight([a, b, c]) == MaxSize(a) + MaxSize(b) + MaxSize(c)
  {
    assert [a, b, c] == [a] + [b] + [c];
    WeightConcat([a], [b]);
    WeightConcat([a] + [b], [c]);
  }

  lemma Weight4(a: Insn, b: Insn, c: Insn, d: Insn)
    ensures Weight([a, b, c, d]) == MaxSize(a) + MaxSize(b) + MaxSize(c) + MaxSize(d)
  {
    assert [a, b, c, d] == [a, b, c] + [d];
    Weight3(a, b, c);
    WeightConcat([a, b, c], [d]);
  }

  lemma Weight5(a: Insn, b: Insn, c: Insn, d: Insn, e: Insn)
    ensures Weight([a, b, c, d, e]) == MaxSize(a) + MaxSize(b) + MaxSize(c) + MaxSize(d) + MaxSize(e)
  {
    assert [a, b, c, d, e] == [a, b, c, d] + [e];
    Weight4(a, b, c, d);
    WeightConcat([a, b, c, d], [e]);
  }

  /** One condition takes at most nine records. */
  lemma CondWeight(c: Cond, fail: Label, passed: Label)
    ensures Weight(CondCode(c, fail, passed)) <= 9
  {
    var code := CondCode(c, fail, passed);
    match c.op
    case EQ => Weight4(code[0], code[1], code[2], code[3]);
    case NE => Weight4(code[0], code[1], code[2], code[3]);
    case MASKED_EQ =>
      var lo, hi := MaskedWord(LoOff(c), Lo(c.mask), Lo(c.value), fail), MaskedWord(HiOff(c), Hi(c.mask), Hi(c.value), fail);
      MaskedWeight(LoOff(c), Lo(c.mask), Lo(c.value), fail);
      MaskedWeight(HiOff(c), Hi(c.mask), Hi(c.value), fail);
      WeightConcat(lo, hi);
    case _ => Weight5(code[0], code[1], code[2], code[3], code[4]);
  }

  lemma MaskedWeight(off: u32, m: u32, v: u32, fail: Label)
    ensures Weight(MaskedWord(off, m, v, fail)) <= 4
  {
    Weight3(Load(off), And(m), Jump(JEQ, v, None, Some(fail)));
  }

  lemma CondAddsWeight(l: Listing, c: Cond, nr: u32, i: nat, j: nat)
    ensures Weight(EmitCond(l, c, nr, i, j).insns) <= Weight(l.insns) + 9
  {
    var fail, passed := Render(Next(nr, i)), Render(Hit(nr, i, j));
    CondWeight(c, fail, passed);
    WeightConcat(l.insns, CondCode(c, fail, passed));
  }

  lemma {:induction false} CondsWeight(l: Listing, conds: seq<Cond>, nr: u32, i: nat, j: nat)
    requires j <= |conds|
    ensures Weight(EmitConds(l, conds, nr, i, j).insns) <= Weight(l.insns) + 9 * (|conds| - j)
    decreases |conds| - j
  {
    if j < |conds| {
      CondAddsWeight(l, conds[j], nr, i, j);
      CondsWeight(EmitCond(l, conds[j], nr, i, j), conds, nr, i, j + 1);
    }
  }

  /** Conditions in rules i and later. */
  function CondCount(rules: seq<Rule>, i: nat): nat
    requires i <= |rules|
    decreases |rules| - i
  {
    if i == |rules| then 0 else |rules[i].args| + CondCount(rules, i + 1)
  }

  lemma PutWeight(l: Listing, insn: Insn)
    ensures Weight(Put(l, insn).insns) == Weight(l.insns) + MaxSize(insn)
  {
    WeightConcat(l.insns, [insn]);
  }

  lemma {:induction false} RulesWeight(l: Listing, nr: u32, rules: seq<Rule>, i: nat, default: u32)
    requires i <= |rules|
    ensures Weight(EmitRules(l, nr, rules, i, default).insns)
         <= Weight(l.insns) + (|rules| - i) + 9 * CondCount(rules, i) + 1
    decreases |rules| - i
  {
    if i == |rules| {
      PutWeight(l, Ret(default));
    } else if rules[i].args == [] {
      PutWeight(l, Ret(rules[i].action));
    } else {
      var l1 := EmitConds(l, rules[i].args, nr, i, 0);
      CondsWeight(l, rules[i].args, nr, i, 0);
      PutWeight(l1, Ret(rules[i].action));
      RulesWeight(EmitRule(l, rules[i], nr, i), nr, rules, i + 1, default);
    }
  }

  /** Rules, and conditions, of the syscalls from the b-th on. */
  ghost function Rules(t: Table, b: nat): nat
    requires t.Valid() && b <= |t.order|
    decreases |t.order| - b
  {
    if b == |t.order| then 0 else |t.rules[t.order[b]]| + Rules(t, b + 1)
  }

  ghost function Conditions(t: Table, b: nat): nat
    requires t.Valid() && b <= |t.order|
    decreases |t.order| - b
  {
    if b == |t.order| then 0 else CondCount(t.rules[t.order[b]], 0) + Conditions(t, b + 1)
  }

  lemma {:induction false} BlocksWeight(l: Listing, t: Table, b: nat, default: u32)
    requires t.Valid() && b <= |t.order|
    ensures Weight(EmitBlocks(l, t, b, default).insns)
         <= Weight(l.insns) + (|t.order| - b) + Rules(t, b) + 9 * Conditions(t, b)
    decreases |t.order| - b
  {
    if b < |t.order| {
      var nr := t.order[b];
      RulesWeight(Bind(l, Block(nr)), nr, t.rules[nr], 0, default);
      BlocksWeight(EmitBlock(l, nr, t.rules[nr], default), t, b + 1, default);
    }
  }

  lemma {:induction false} DispatchWeight(order: seq<u32>)
    ensures Weight(Dispatch(order)) == 2 * |order|
  {
    if order != [] {
      assert Dispatch(order)[1..] == Dispatch(order[1..]);
      DispatchWeight(order[1..]);
    }
  }

  lemma PrologueWeight(arch: u32, order: seq<u32>, default: u32)
    ensures Weight(Prologue(arch, order, default)) == 5 + 2 * |order|
  {
    var head := [Load(OFF_ARCH), Jump(JEQ, arch, None, Some(Render(Kill))), Load(OFF_NR)];
    Weight3(head[0], head[1], head[2]);
    DispatchWeight(order);
    WeightConcat(head, Dispatch(order));
    WeightConcat(head + Dispatch(order), [Ret(default)]);
  }

  /** 6 + 3S + R + 9C for S syscalls, R rules and C conditions. */
  ghost function RecordBound(t: Table): nat
    requires t.Valid()
  {
    6 + 3 * |t.order| + Rules(t, 0) + 9 * Conditions(t, 0)
  }

  lemma CompiledWeight(arch: u32, default: u32, t: Table)
    requires t.Valid()
    ensures Weight(Compiled(arch, default, t).insns) <= RecordBound(t)
  {
    var s := Start(arch, default, t);
    PrologueWeight(arch, t.order, default);
    BlocksWeight(s, t, 0, default);
    PutWeight(Bind(Body(arch, default, t), Kill), Ret(KILL_PROCESS));
  }

  /** Whatever sizes relaxation picks, the program stays within the bound. */
  lemma LayoutBound(arch: u32, default: u32, t: Table, sizes: seq<nat>)
    requires t.Valid() && Sized(Compiled(arch, default, t).insns, sizes)
    ensures Pos(sizes, |sizes|) <= 6 + 3 * |t.order| + Rules(t, 0) + 9 * Conditions(t, 0) == RecordBound(t)
  {
    var insns := Compiled(arch, default, t).insns;
    CompiledWeight(arch, default, t);
    WeightBounds(insns, sizes, |insns|);
    assert insns[..|insns|] == insns;
  }

  // ------------------------------------------------ exactly when compiling succeeds

  lemma CompiledLabels(arch: u32, default: u32, t: Table)
    requires t.Valid()
    ensures var P := Compiled(arch, default, t);
      Contained(P.insns, P.labels) && WellLabelled(P.insns, P.labels) && LabelsValid(P.insns, P.labels)
  {
    var P := Compiled(arch, default, t);
    CompiledIsContained(arch, default, t);
    ContainedIsWellLabelled(P.insns, P.labels);
    WellLabelledIsValid(P.insns, P.labels);
  }

  /** The length of the compiled program in records. */
  ghost function RecordCount(arch: u32, default: u32, t: Table): nat
    requires t.Valid()
  {
    var P := Compiled(arch, default, t);
    CompiledLabels(arch, default, t);
    Pos(LeastSizes(P.insns, P.labels), |P.insns|)
  }

  /** The architecture check comes second and jumps to the last instruction, over everything else. */
  lemma ArchCheck(arch: u32, default: u32, t: Table)
    requires t.Valid()
    ensures var P := Compiled(arch, default, t);
      && |P.insns| >= 5 && P.insns[0].Load? && P.insns[|P.insns| - 1].Ret?
      && P.insns[1] == Jump(JEQ, arch, None, Some(Render(Kill)))
      && BoundAt(P, Kill, |P.insns| - 1)
  {
    KillTail(arch, default, t);
    var s, P := Start(arch, default, t), Compiled(arch, default, t);
    BlocksGrow(s, t, 0, default);
    assert P.insns[0] == s.insns[0] && P.insns[1] == s.insns[1];
  }

  /** Where everything sits behind the first two instructions and before the last. */
  lemma Spread(arch: u32, default: u32, t: Table, sizes: seq<nat>)
    requires t.Valid() && Sized(Compiled(arch, default, t).insns, sizes)
    ensures var n := |Compiled(arch, default, t).insns|;
      n >= 5 && sizes[0] == 1 && Pos(sizes, 1) == 1 && Pos(sizes, n) == Pos(sizes, n - 1) + 1 && Positive(sizes)
  {
    var P := Compiled(arch, default, t);
    ArchCheck(arch, default, t);
    SizedPositive(P.insns, sizes);
    assert SizeAllowed(P.insns[0], sizes[0]);
    assert SizeAllowed(P.insns[|P.insns| - 1], sizes[|P.insns| - 1]);
    assert Pos(sizes, 1) == Pos(sizes, 0) + sizes[0];
  }

  /** If the architecture check reaches the kill tail, the program is within 2^32 + 3 records. */
  lemma FitsIsSmall(arch: u32, default: u32, t: Table)
    requires t.Valid()
    requires var P := Compiled(arch, default, t); Assemblable(P.insns, P.labels)
    ensures RecordCount(arch, default, t) <= W32 + 3
  {
    var P := Compiled(arch, default, t);
    var sizes := LeastSizes(P.insns, P.labels);
    ArchCheck(arch, default, t);
    Spread(arch, default, t, sizes);
    RelaxationIsLeast(P.insns, P.labels);
    assert Legal(P.insns, P.labels, sizes);
    assert Relaxation.Bound(P.insns[1], P.labels, |P.insns|);
    assert JaFits(P.insns, P.labels, sizes, 1);
    if sizes[1] <= 1 {
      assert SizeAllowed(P.insns[1], sizes[1]);
      assert Near(P.insns, P.labels, sizes, 1);
    }
  }

  /** From the third record on, everything up to 2^32 + 2 is within reach. */
  lemma ReachesFrom(t: Option<Label>, labels: map<Label, int>, sizes: seq<nat>, last: nat, pc: nat)
    requires last <= |sizes| && Pos(sizes, last) <= W32 + 2 && pc >= 2
    requires BoundTarget(t, labels, last)
    ensures Reaches(t, labels, sizes, pc)
  {
    if t.Some? { PosMonotone(sizes, labels[t.value], last); }
  }

  /** Within 2^32 + 3 records every JA record of the program reaches its target. */
  lemma SmallFits(arch: u32, default: u32, t: Table, i: nat)
    requires t.Valid() && RecordCount(arch, default, t) <= W32 + 3
    requires var P := Compiled(arch, default, t); i < |P.insns| && LabelsValid(P.insns, P.labels)
    ensures var P := Compiled(arch, default, t); JaFits(P.insns, P.labels, LeastSizes(P.insns, P.labels), i)
  {
    var P := Compiled(arch, default, t);
    var sizes, last := LeastSizes(P.insns, P.labels), |P.insns| - 1;
    CompiledLabels(arch, default, t);
    ArchCheck(arch, default, t);
    Spread(arch, default, t, sizes);
    assert InsnOk(P.insns, P.labels, i);
    assert Relaxation.Bound(P.insns[i], P.labels, |P.insns|);
    PosAdvances(sizes, 0, i);
    match P.insns[i]
    case Ja(l) => ReachesFrom(Some(l), P.labels, sizes, last, Pos(sizes, i));
    case Jump(_, _, jt, jf) =>
      ReachesFrom(jt, P.labels, sizes, last, Pos(sizes, i) + 1);
      ReachesFrom(jf, P.labels, sizes, last, Pos(sizes, i) + if jt.Some? then 2 else 1);
    case _ =>
  }

  /** A filter compiles exactly when its program has at most 2^32 + 3 records. */
  lemma CompilesExactlyWhen(arch: u32, default: u32, t: Table)
    requires t.Valid()
    ensures RecordCount(arch, default, t) >= 5
    ensures var P := Compiled(arch, default, t);
      && (Assemblable(P.insns, P.labels) <==> RecordCount(arch, default, t) <= W32 + 3)
      && (Assemblable(P.insns, P.labels) ==> |PackAll(Image(P.insns, P.labels))| == 8 * RecordCount(arch, default, t))
  {
    var P := Compiled(arch, default, t);
    CompiledLabels(arch, default, t);
    ArchCheck(arch, default, t);
    PackedLength(P.insns, LeastSizes(P.insns, P.labels), |P.insns|);
    if Assemblable(P.insns, P.labels) {
      FitsIsSmall(arch, default, t);
      ImageLength(P.insns, P.labels);
    }
    if RecordCount(arch, default, t) <= W32 + 3 {
      forall i | 0 <= i < |P.insns|
        ensures JaFits(P.insns, P.labels, LeastSizes(P.insns, P.labels), i)
      {
        SmallFits(arch, default, t, i);
      }
    }
  }

  /** A table whose bound is at most 2^32 + 3 compiles, to no more than the bound. */
  lemma CompileSucceeds(arch: u32, default: u32, t: Table)
    requires t.Valid() && RecordBound(t) <= W32 + 3
    ensures var P := Compiled(arch, default, t);
      && Assemblable(P.insns, P.labels)
      && |PackAll(Image(P.insns, P.labels))| <= 8 * RecordBound(t)
  {
    var P := Compiled(arch, default, t);
    CompiledLabels(arch, default, t);
    LayoutBound(arch, default, t, LeastSizes(P.insns, P.labels));
    CompilesExactlyWhen(arch, default, t);
  }

  // ----------------------------------------------------- a filter that does not compile

  ghost predicate AllConditional(rules: seq<Rule>) {
    forall i | 0 <= i < |rules| :: rules[i].args != []
  }

  /** Each rule that has conditions emits at least its own Ret. */
  lemma {:induction false} RulesLength(l: Listing, nr: u32, rules: seq<Rule>, i: nat, default: u32)
    requires i <= |rules| && AllConditional(rules)
    ensures |EmitRules(l, nr, rules, i, default).insns| > |l.insns| + |rules| - i
    decreases |rules| - i
  {
    if i < |rules| {
      CondsGrow(l, rules[i].args, nr, i, 0);
      RulesLength(EmitRule(l, rules[i], nr, i), nr, rules, i + 1, default);
    }
  }

  lemma {:induction false} BlocksLength(l: Listing, t: Table, b: nat, k: nat, default: u32)
    requires t.Valid() && b <= k < |t.order| && AllConditional(t.rules[t.order[k]])
    ensures |EmitBlocks(l, t, b, default).insns| > |l.insns| + |t.rules[t.order[k]]|
    decreases |t.order| - b
  {
    var nr := t.order[b];
    var m := EmitBlock(l, nr, t.rules[nr], default);
    BlocksGrow(m, t, b + 1, default);
    if b == k {
      RulesLength(Bind(l, Block(nr)), nr, t.rules[nr], 0, default);
    } else {
      RulesGrow(Bind(l, Block(nr)), nr, t.rules[nr], 0, default);
      BlocksLength(m, t, b + 1, k, default);
    }
  }

  /** A filter of more than 2^32 + 3 instructions does not compile; neither does
      one with that many conditional rules on one syscall. */
  lemma TooManyFails(arch: u32, default: u32, t: Table)
    requires t.Valid()
    requires var P := Compiled(arch, default, t);
      || |P.insns| > W32 + 3
      || exists k | 0 <= k < |t.order| :: AllConditional(t.rules[t.order[k]]) && |t.rules[t.order[k]]| > W32 + 3
    ensures var P := Compiled(arch, default, t); !Assemblable(P.insns, P.labels)
  {
    var P := Compiled(arch, default, t);
    KillTail(arch, default, t);
    if k :| 0 <= k < |t.order| && AllConditional(t.rules[t.order[k]]) && |t.rules[t.order[k]]| > W32 + 3 {
      BlocksLength(Start(arch, default, t), t, 0, k, default);
    }
    CompiledLabels(arch, default, t);
    PackedLength(P.insns, LeastSizes(P.insns, P.labels), |P.insns|);
    CompilesExactlyWhen(arch, default, t);
  }

  /** One syscall with 2^32 + 4 rules, each on one argument. */
  ghost function HugeTable(): Table {
    Table([0], map[0 := seq(W32 + 4, _ => Rule(0, [ArgCmp(0, EQ, 0, U64_MAX)]))])
  }

  /** A concrete filter whose compilation raises. */
  lemma HugeTableFails(arch: u32, default: u32)
    ensures HugeTable().Valid()
    ensures var P := Compiled(arch, default, HugeTable()); !Assemblable(P.insns, P.labels)
  {
    var t := HugeTable();
    assert t.order[0] == 0;
    assert AllConditional(t.rules[t.order[0]]);
    TooManyFails(arch, default, t);
  }
}
