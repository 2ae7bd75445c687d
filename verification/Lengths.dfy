/** Exactly how long a filter's listing is, counted from its rules, and that a
    short listing is also the program: no jump needs a trampoline. */
module Lengths {
  import opened Words
  import opened Bpf
  import opened Relaxation
  import opened KernelCheck
  import opened Policy
  import opened LabelNames
  import opened Compiler
  import opened Linking
  import opened Sizes

  /** The offsets a piece of code loads, in order. */
  function LoadedFrom(code: seq<Insn>): seq<int> {
    if code == [] then [] else LoadOf(code[0]) + LoadedFrom(code[1..])
  }

  function LoadOf(insn: Insn): seq<int> {
    if insn.Load? then [insn.k as int] else []
  }

  lemma {:induction false} LoadedConcat(a: seq<Insn>, b: seq<Insn>)
    ensures LoadedFrom(a + b) == LoadedFrom(a) + LoadedFrom(b)
  {
    if a == [] {
      assert a + b == b;
    } else {
      assert (a + b)[1..] == a[1..] + b;
      LoadedConcat(a[1..], b);
      assert LoadedFrom(a + b) == LoadOf(a[0]) + (LoadedFrom(a[1..]) + LoadedFrom(b));
    }
  }

  lemma Loaded4(x: int, a: Insn, y: int, b: Insn)
    requires 0 <= x < W32 && 0 <= y < W32 && !a.Load? && !b.Load?
    ensures LoadedFrom([Load(x), a, Load(y), b]) == [x, y]
  {
    assert [Load(x), a, Load(y), b] == [Load(x), a] + [Load(y), b];
    LoadedConcat([Load(x), a], [Load(y), b]);
    Loaded2(x, a);
    Loaded2(y, b);
  }

  lemma Loaded2(x: int, a: Insn)
    requires 0 <= x < W32 && !a.Load?
    ensures LoadedFrom([Load(x), a]) == [x]
  {
    LoadedConcat([Load(x)], [a]);
    assert [Load(x), a] == [Load(x)] + [a];
  }

  lemma Loaded3(x: int, a: Insn, b: Insn)
    requires 0 <= x < W32 && !a.Load? && !b.Load?
    ensures LoadedFrom([Load(x), a, b]) == [x]
  {
    Loaded2(x, a);
    LoadedConcat([Load(x), a], [b]);
    assert [Load(x), a, b] == [Load(x), a] + [b];
  }

  lemma Loaded5(x: int, a: Insn, b: Insn, y: int, c: Insn)
    requires 0 <= x < W32 && 0 <= y < W32 && !a.Load? && !b.Load? && !c.Load?
    ensures LoadedFrom([Load(x), a, b, Load(y), c]) == [x, y]
  {
    Loaded3(x, a, b);
    Loaded2(y, c);
    LoadedConcat([Load(x), a, b], [Load(y), c]);
    assert [Load(x), a, b, Load(y), c] == [Load(x), a, b] + [Load(y), c];
  }

  /** Instructions testing one condition: 4 for equality, 5 for an order, 3 for
      each word of the mask that is not zero. */
  function CondLength(c: Cond): nat {
    if c.op == EQ || c.op == NE then 4
    else if c.op != MASKED_EQ then 5
    else (if c.mask % 0x1_0000_0000 != 0 then 3 else 0) + if c.mask / 0x1_0000_0000 != 0 then 3 else 0
  }

  /** The words a condition needs, in the order they are tested: equality from the
      low word, an order from the high word, a mask only where it is not zero. */
  function WordsNeeded(c: Cond): seq<int> {
    var lo := 16 + 8 * c.index;
    var hi := lo + 4;
    if c.op == EQ || c.op == NE then [lo, hi]
    else if c.op != MASKED_EQ then [hi, lo]
    else (if c.mask % 0x1_0000_0000 != 0 then [lo] else []) + if c.mask / 0x1_0000_0000 != 0 then [hi] else []
  }

  /** A condition's code has exactly that length and loads exactly those words. */
  lemma CondShape(c: Cond, fail: Label, passed: Label)
    ensures |CondCode(c, fail, passed)| == CondLength(c)
    ensures LoadedFrom(CondCode(c, fail, passed)) == WordsNeeded(c)
  {
    match c.op
    case EQ => EqualityShape(c, fail, passed);
    case NE => EqualityShape(c, fail, passed);
    case MASKED_EQ =>
      MaskedShape(LoOff(c), Lo(c.mask), Lo(c.value), fail);
      MaskedShape(HiOff(c), Hi(c.mask), Hi(c.value), fail);
      LoadedConcat(MaskedWord(LoOff(c), Lo(c.mask), Lo(c.value), fail),
                   MaskedWord(HiOff(c), Hi(c.mask), Hi(c.value), fail));
    case _ => OrderShape(c, fail, passed);
  }

  lemma EqualityShape(c: Cond, fail: Label, passed: Label)
    requires c.op == EQ || c.op == NE
    ensures |CondCode(c, fail, passed)| == 4
    ensures LoadedFrom(CondCode(c, fail, passed)) == [16 + 8 * c.index, 20 + 8 * c.index]
  {
    var code := CondCode(c, fail, passed);
    Loaded4(LoOff(c), code[1], HiOff(c), code[3]);
  }

  lemma OrderShape(c: Cond, fail: Label, passed: Label)
    requires c.op != EQ && c.op != NE && c.op != MASKED_EQ
    ensures |CondCode(c, fail, passed)| == 5
    ensures LoadedFrom(CondCode(c, fail, passed)) == [20 + 8 * c.index, 16 + 8 * c.index]
  {
    var code := CondCode(c, fail, passed);
    Loaded5(HiOff(c), code[1], code[2], LoOff(c), code[4]);
  }

  lemma MaskedShape(off: u32, m: u32, v: u32, fail: Label)
    ensures |MaskedWord(off, m, v, fail)| == if m != 0 then 3 else 0
    ensures LoadedFrom(MaskedWord(off, m, v, fail)) == if m != 0 then [off as int] else []
  {
    Loaded3(off, And(m), Jump(JEQ, v, None, Some(fail)));
  }

  // ------------------------------------------------------------- the listing

  function CondsLength(conds: seq<Cond>, j: nat): nat
    requires j <= |conds|
    decreases |conds| - j
  {
    if j == |conds| then 0 else CondLength(conds[j]) + CondsLength(conds, j + 1)
  }

  /** A block: the rules up to the first without conditions, each with its Ret;
      a Ret for the default only if there is no such rule. */
  function BlockLength(rules: seq<Rule>, i: nat): nat
    requires i <= |rules|
    decreases |rules| - i
  {
    if i == |rules| || rules[i].args == [] then 1
    else CondsLength(rules[i].args, 0) + 1 + BlockLength(rules, i + 1)
  }

  ghost function BlocksLength(t: Table, b: nat): nat
    requires t.Valid() && b <= |t.order|
    decreases |t.order| - b
  {
    if b == |t.order| then 0 else BlockLength(t.rules[t.order[b]], 0) + BlocksLength(t, b + 1)
  }

  lemma {:induction false} CondsAdd(l: Listing, conds: seq<Cond>, nr: u32, i: nat, j: nat)
    requires j <= |conds|
    ensures |EmitConds(l, conds, nr, i, j).insns| == |l.insns| + CondsLength(conds, j)
    decreases |conds| - j
  {
    if j < |conds| {
      CondShape(conds[j], Render(Next(nr, i)), Render(Hit(nr, i, j)));
      CondsAdd(EmitCond(l, conds[j], nr, i, j), conds, nr, i, j + 1);
    }
  }

  lemma {:induction false} BlockAdds(l: Listing, nr: u32, rules: seq<Rule>, i: nat, default: u32)
    requires i <= |rules|
    ensures |EmitRules(l, nr, rules, i, default).insns| == |l.insns| + BlockLength(rules, i)
    decreases |rules| - i
  {
    if i < |rules| && rules[i].args != [] {
      CondsAdd(l, rules[i].args, nr, i, 0);
      BlockAdds(EmitRule(l, rules[i], nr, i), nr, rules, i + 1, default);
    }
  }

  lemma {:induction false} BlocksAdd(l: Listing, t: Table, b: nat, default: u32)
    requires t.Valid() && b <= |t.order|
    ensures |EmitBlocks(l, t, b, default).insns| == |l.insns| + BlocksLength(t, b)
    decreases |t.order| - b
  {
    if b < |t.order| {
      var nr := t.order[b];
      BlockAdds(Bind(l, Block(nr)), nr, t.rules[nr], 0, default);
      BlocksAdd(EmitBlock(l, nr, t.rules[nr], default), t, b + 1, default);
    }
  }

  /** A filter's listing has five instructions, one per syscall, and its blocks. */
  lemma ListingLength(arch: u32, default: u32, t: Table)
    requires t.Valid()
    ensures |Compiled(arch, default, t).insns| == 5 + |t.order| + BlocksLength(t, 0)
  {
    BlocksAdd(Listing(Prologue(arch, t.order, default), map[]), t, 0, default);
  }

  // ------------------------------------------------------- when nothing is expanded

  lemma {:induction false} ShortPos(n: nat, i: nat)
    requires i <= n
    ensures Pos(AllShort(n), i) == i
  {
    if i > 0 { ShortPos(n, i - 1); }
  }

  /** Past the first instruction, an unexpanded jump reaches everything up to
      the last of 258 instructions. */
  lemma ShortNear(insns: seq<Insn>, labels: map<Label, int>, i: nat)
    requires LabelsValid(insns, labels) && |insns| <= 258 && 0 < i < |insns| && insns[i].Jump?
    requires Forward(insns[i], labels, i, |insns| - 1)
    ensures Near(insns, labels, AllShort(|insns|), i)
  {
    assert Relaxation.Bound(insns[i], labels, |insns|);
    ShortPos(|insns|, i);
    var jt, jf := insns[i].jt, insns[i].jf;
    if jt.Some? { ShortPos(|insns|, labels[jt.value]); }
    if jf.Some? { ShortPos(|insns|, labels[jf.value]); }
  }

  lemma ShortIsLegal(arch: u32, default: u32, t: Table)
    requires t.Valid()
    requires var P := Compiled(arch, default, t); |P.insns| <= 258 && LabelsValid(P.insns, P.labels)
    ensures var P := Compiled(arch, default, t); Legal(P.insns, P.labels, AllShort(|P.insns|))
  {
    var P := Compiled(arch, default, t);
    CompiledLabels(arch, default, t);
    ArchCheck(arch, default, t);
    forall i | 0 <= i < |P.insns| && P.insns[i].Jump?
      ensures Near(P.insns, P.labels, AllShort(|P.insns|), i)
    {
      assert InsnOk(P.insns, P.labels, i);
      ShortNear(P.insns, P.labels, i);
    }
  }

  /** Beyond 258 instructions the architecture check itself is expanded. */
  lemma LongIsExpanded(arch: u32, default: u32, t: Table)
    requires t.Valid() && |Compiled(arch, default, t).insns| > 258
    ensures RecordCount(arch, default, t) > |Compiled(arch, default, t).insns|
  {
    var P := Compiled(arch, default, t);
    CompiledLabels(arch, default, t);
    var sizes, n := LeastSizes(P.insns, P.labels), |P.insns|;
    ArchCheck(arch, default, t);
    Spread(arch, default, t, sizes);
    RelaxationIsLeast(P.insns, P.labels);
    assert Relaxation.Bound(P.insns[1], P.labels, n);
    PackedLength(P.insns, sizes, n - 1);
    assert !Near(P.insns, P.labels, sizes, 1);
    assert SizeAllowed(P.insns[1], sizes[1]);
    assert Pos(sizes, 2) == Pos(sizes, 1) + sizes[1];
    PosAdvances(sizes, 2, n);
  }

  /** The program has exactly one record per instruction if, and only if, the
      listing has at most 258; its length is then known from the rules alone. */
  lemma ExactWhenShort(arch: u32, default: u32, t: Table)
    requires t.Valid()
    ensures var n := 5 + |t.order| + BlocksLength(t, 0);
      && RecordCount(arch, default, t) >= n
      && (RecordCount(arch, default, t) == n <==> n <= 258)
  {
    var P := Compiled(arch, default, t);
    var n := |P.insns|;
    ListingLength(arch, default, t);
    CompiledLabels(arch, default, t);
    PackedLength(P.insns, LeastSizes(P.insns, P.labels), n);
    if n <= 258 {
      ShortIsLegal(arch, default, t);
      LeastIsSmallest(P.insns, P.labels, AllShort(n));
      ShortPos(n, n);
    } else {
      LongIsExpanded(arch, default, t);
    }
  }
}
