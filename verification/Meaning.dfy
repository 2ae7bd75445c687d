/** What compiled programs compute: the symbolic program of a filter returns
    exactly the policy's decision on every event. */
module Meaning {
  import opened Words
  import opened Bpf
  import opened KernelCheck
  import opened SeccompData
  import opened Policy
  import opened LabelNames
  import opened Compiler
  import opened Linking

  /** The data holds the words of event e where `seccomp_data` puts them. */
  ghost predicate Sees(load: Loader, e: Event) {
    && load(OFF_NR) == NrWord(e)
    && load(OFF_ARCH) == e.arch
    && forall i | 0 <= i < 6 :: load(OFF_ARG0 + 8 * i) == Lo(e.args[i]) && load(OFF_ARG0 + 8 * i + 4) == Hi(e.args[i])
  }

  lemma SeesArg(load: Loader, e: Event, c: Cond)
    requires Sees(load, e)
    ensures load(LoOff(c)) == Lo(e.args[c.index])
    ensures load(HiOff(c)) == Hi(e.args[c.index])
  {}

  /** The words a filter loads from the 64-byte record of event e. */
  function Loads(e: Event): Loader {
    k => WordAt(Bytes(e), k)
  }

  lemma LoadsSees(e: Event)
    ensures Sees(Loads(e), e)
  {
    HeaderWords(e);
    forall i | 0 <= i < 6
      ensures Loads(e)(OFF_ARG0 + 8 * i) == Lo(e.args[i]) && Loads(e)(OFF_ARG0 + 8 * i + 4) == Hi(e.args[i])
    {
      ArgWords(e, i);
    }
  }

  ghost predicate Runnable(P: Listing) {
    WellLabelled(P.insns, P.labels)
  }

  function Run(P: Listing, load: Loader, pc: nat, acc: u32): Outcome
    requires Runnable(P)
  {
    RunSource(P.insns, P.labels, load, pc, acc)
  }

  /** From pc the program returns x, whatever is in the accumulator. */
  ghost predicate RunsTo(P: Listing, load: Loader, pc: int, x: u32)
    requires Runnable(P)
  {
    pc >= 0 && forall acc: u32 :: Run(P, load, pc, acc) == Returned(x)
  }

  // ------------------------------------------------------------- single steps

  lemma StepLoad(P: Listing, load: Loader, pc: nat, acc: u32)
    requires Runnable(P) && pc < |P.insns| && P.insns[pc].Load?
    ensures Run(P, load, pc, acc) == Run(P, load, pc + 1, load(P.insns[pc].k))
  {}

  lemma StepAnd(P: Listing, load: Loader, pc: nat, acc: u32)
    requires Runnable(P) && pc < |P.insns| && P.insns[pc].And?
    ensures Run(P, load, pc, acc) == Run(P, load, pc + 1, BitAnd(acc, P.insns[pc].k))
  {}

  /** Where a conditional jump at pc goes. */
  function Goes(P: Listing, pc: nat, acc: u32): nat
    requires Runnable(P) && pc < |P.insns| && P.insns[pc].Jump?
  {
    var insn := P.insns[pc];
    assert Forward(insn, P.labels, pc, |P.insns|);
    var t := if insn.op.Test(acc, insn.k) then insn.jt else insn.jf;
    if t.Some? then P.labels[t.value] else pc + 1
  }

  lemma StepJump(P: Listing, load: Loader, pc: nat, acc: u32)
    requires Runnable(P) && pc < |P.insns| && P.insns[pc].Jump?
    ensures Run(P, load, pc, acc) == Run(P, load, Goes(P, pc, acc), acc)
  {
    assert Forward(P.insns[pc], P.labels, pc, |P.insns|);
  }

  lemma StepRet(P: Listing, load: Loader, pc: nat)
    requires Runnable(P) && pc < |P.insns| && P.insns[pc].Ret?
    ensures RunsTo(P, load, pc, P.insns[pc].k)
  {}

  // ------------------------------------------------------------ one condition

  /** The given code sits at s. */
  ghost predicate Sits(P: Listing, s: nat, code: seq<Insn>) {
    s + |code| <= |P.insns| && P.insns[s..s + |code|] == code
  }

  lemma SitsAt(P: Listing, s: nat, code: seq<Insn>, d: nat)
    requires Sits(P, s, code) && d < |code|
    ensures P.insns[s + d] == code[d]
  {
    assert P.insns[s..s + |code|][d] == code[d];
  }

  /** The code of condition c sits at s, its passed label right behind it. */
  ghost predicate CodeAt(P: Listing, c: Cond, s: nat, fail: Label, passed: Label) {
    var code := CondCode(c, fail, passed);
    && Sits(P, s, code)
    && fail in P.labels && passed in P.labels && P.labels[passed] == s + |code|
  }

  /** From s, with acc loaded, control arrives at passed if the condition holds
      and at fail if it does not, with acc' loaded. */
  ghost predicate Lands(P: Listing, load: Loader, e: Event, c: Cond, s: nat, fail: Label, passed: Label,
                        acc: u32, acc': u32)
    requires Runnable(P) && fail in P.labels && passed in P.labels
  {
    var target := P.labels[if Holds(c, e) then passed else fail];
    target >= s && Run(P, load, s, acc) == Run(P, load, target, acc')
  }

  /** 64-bit order is lexicographic on the words. */
  lemma WordOrder(a: u64, b: u64)
    ensures a < b <==> Hi(a) < Hi(b) || (Hi(a) == Hi(b) && Lo(a) < Lo(b))
    ensures a == b <==> Hi(a) == Hi(b) && Lo(a) == Lo(b)
  {}

  /** EQ and NE: both words are compared unless the low words differ. */
  lemma EqualityCode(P: Listing, load: Loader, e: Event, c: Cond, s: nat, fail: Label, passed: Label, acc: u32)
    returns (acc': u32)
    requires Runnable(P) && Sees(load, e) && CodeAt(P, c, s, fail, passed) && (c.op == EQ || c.op == NE)
    ensures Lands(P, load, e, c, s, fail, passed, acc, acc')
  {
    var arg, code := e.args[c.index], CondCode(c, fail, passed);
    SeesArg(load, e, c);
    WordOrder(arg, c.value);
    SitsAt(P, s, code, 0);
    SitsAt(P, s, code, 1);
    SitsAt(P, s, code, 2);
    SitsAt(P, s, code, 3);
    StepLoad(P, load, s, acc);
    StepJump(P, load, s + 1, Lo(arg));
    StepLoad(P, load, s + 2, Lo(arg));
    StepJump(P, load, s + 3, Hi(arg));
    acc' := if Lo(arg) == Lo(c.value) then Hi(arg) else Lo(arg);
  }

  /** LT and LE: the high words decide unless they are equal. */
  lemma BelowCode(P: Listing, load: Loader, e: Event, c: Cond, s: nat, fail: Label, passed: Label, acc: u32)
    returns (acc': u32)
    requires Runnable(P) && Sees(load, e) && CodeAt(P, c, s, fail, passed) && (c.op == LT || c.op == LE)
    ensures Lands(P, load, e, c, s, fail, passed, acc, acc')
  {
    var arg, code := e.args[c.index], CondCode(c, fail, passed);
    SeesArg(load, e, c);
    WordOrder(arg, c.value);
    SitsAt(P, s, code, 0);
    SitsAt(P, s, code, 1);
    SitsAt(P, s, code, 2);
    SitsAt(P, s, code, 3);
    SitsAt(P, s, code, 4);
    StepLoad(P, load, s, acc);
    StepJump(P, load, s + 1, Hi(arg));
    StepJump(P, load, s + 2, Hi(arg));
    StepLoad(P, load, s + 3, Hi(arg));
    StepJump(P, load, s + 4, Lo(arg));
    acc' := if Hi(arg) == Hi(c.value) then Lo(arg) else Hi(arg);
  }

  /** GT and GE, likewise. */
  lemma AboveCode(P: Listing, load: Loader, e: Event, c: Cond, s: nat, fail: Label, passed: Label, acc: u32)
    returns (acc': u32)
    requires Runnable(P) && Sees(load, e) && CodeAt(P, c, s, fail, passed) && (c.op == GT || c.op == GE)
    ensures Lands(P, load, e, c, s, fail, passed, acc, acc')
  {
    var arg, code := e.args[c.index], CondCode(c, fail, passed);
    SeesArg(load, e, c);
    WordOrder(arg, c.value);
    SitsAt(P, s, code, 0);
    SitsAt(P, s, code, 1);
    SitsAt(P, s, code, 2);
    SitsAt(P, s, code, 3);
    SitsAt(P, s, code, 4);
    StepLoad(P, load, s, acc);
    StepJump(P, load, s + 1, Hi(arg));
    StepJump(P, load, s + 2, Hi(arg));
    StepLoad(P, load, s + 3, Hi(arg));
    StepJump(P, load, s + 4, Lo(arg));
    acc' := if Hi(arg) == Hi(c.value) then Lo(arg) else Hi(arg);
  }

  predicate WordMatches(w: u32, m: u32, v: u32) { BitAnd(w, m) == v }

  /** One masked word, skipped when its mask is zero because it then matches. */
  lemma MaskedWordCode(P: Listing, load: Loader, s: nat, off: u32, w: u32, m: u32, v: u32, fail: Label, acc: u32)
    returns (acc': u32)
    requires Runnable(P) && Sits(P, s, MaskedWord(off, m, v, fail)) && fail in P.labels
    requires load(off) == w && (m == 0 ==> WordMatches(w, m, v))
    ensures var target := if WordMatches(w, m, v) then s + |MaskedWord(off, m, v, fail)| else P.labels[fail];
      target >= s && Run(P, load, s, acc) == Run(P, load, target, acc')
  {
    acc' := acc;
    if m != 0 {
      var code := MaskedWord(off, m, v, fail);
      SitsAt(P, s, code, 0);
      SitsAt(P, s, code, 1);
      SitsAt(P, s, code, 2);
      acc' := BitAnd(w, m);
      StepLoad(P, load, s, acc);
      StepAnd(P, load, s + 1, w);
      StepJump(P, load, s + 2, acc');
    }
  }

  /** MASKED_EQ on 64 bits is masked equality of both words, where a word with
      a zero mask always matches. */
  lemma MaskedHolds(e: Event, c: Cond)
    requires c.op.MASKED_EQ?
    ensures var arg := e.args[c.index];
      && (Holds(c, e) <==>
          WordMatches(Lo(arg), Lo(c.mask), Lo(c.value)) && WordMatches(Hi(arg), Hi(c.mask), Hi(c.value)))
      && (Lo(c.mask) == 0 ==> WordMatches(Lo(arg), Lo(c.mask), Lo(c.value)))
      && (Hi(c.mask) == 0 ==> WordMatches(Hi(arg), Hi(c.mask), Hi(c.value)))
  {
    var arg := e.args[c.index];
    AndWords(arg, c.mask);
    InsideMask(c);
    WordOrder(BitAnd(arg, c.mask), c.value);
  }

  /** Two masked words in a row: both must match. */
  lemma MaskedPairCode(P: Listing, load: Loader, s: nat, off: u32, w: u32, m: u32, v: u32,
                       off': u32, w': u32, m': u32, v': u32, fail: Label, acc: u32)
    returns (acc': u32)
    requires Runnable(P) && fail in P.labels
    requires Sits(P, s, MaskedWord(off, m, v, fail) + MaskedWord(off', m', v', fail))
    requires load(off) == w && (m == 0 ==> WordMatches(w, m, v))
    requires load(off') == w' && (m' == 0 ==> WordMatches(w', m', v'))
    ensures var target := if WordMatches(w, m, v) && WordMatches(w', m', v')
                          then s + |MaskedWord(off, m, v, fail) + MaskedWord(off', m', v', fail)|
                          else P.labels[fail];
      target >= s && Run(P, load, s, acc) == Run(P, load, target, acc')
  {
    var lo, hi := MaskedWord(off, m, v, fail), MaskedWord(off', m', v', fail);
    SitsSplit(P, s, lo, hi);
    acc' := MaskedWordCode(P, load, s, off, w, m, v, fail, acc);
    if WordMatches(w, m, v) {
      acc' := MaskedWordCode(P, load, s + |lo|, off', w', m', v', fail, acc');
    }
  }

  lemma SitsSplit(P: Listing, s: nat, a: seq<Insn>, b: seq<Insn>)
    requires Sits(P, s, a + b)
    ensures Sits(P, s, a) && Sits(P, s + |a|, b)
  {
    assert a == (a + b)[..|a|] && b == (a + b)[|a|..];
    assert P.insns[s..s + |a|] == P.insns[s..s + |a + b|][..|a|];
    assert P.insns[s + |a|..s + |a| + |b|] == P.insns[s..s + |a + b|][|a|..];
  }

  lemma MaskedCode(P: Listing, load: Loader, e: Event, c: Cond, s: nat, fail: Label, passed: Label, acc: u32)
    returns (acc': u32)
    requires Runnable(P) && Sees(load, e) && CodeAt(P, c, s, fail, passed) && c.op.MASKED_EQ?
    ensures Lands(P, load, e, c, s, fail, passed, acc, acc')
  {
    var arg := e.args[c.index];
    MaskedHolds(e, c);
    SeesArg(load, e, c);
    acc' := MaskedPairCode(P, load, s, LoOff(c), Lo(arg), Lo(c.mask), Lo(c.value),
                           HiOff(c), Hi(arg), Hi(c.mask), Hi(c.value), fail, acc);
  }

  /** For each of the seven operators, whatever follows, the emitted code
      arrives at passed exactly when the 64-bit relation holds, and at fail
      otherwise. */
  lemma CondCodeLands(P: Listing, load: Loader, e: Event, c: Cond, s: nat, fail: Label, passed: Label, acc: u32)
    returns (acc': u32)
    requires Runnable(P) && Sees(load, e) && CodeAt(P, c, s, fail, passed)
    ensures Lands(P, load, e, c, s, fail, passed, acc, acc')
  {
    if c.op == EQ || c.op == NE {
      acc' := EqualityCode(P, load, e, c, s, fail, passed, acc);
    } else if c.op == LT || c.op == LE {
      acc' := BelowCode(P, load, e, c, s, fail, passed, acc);
    } else if c.op == GT || c.op == GE {
      acc' := AboveCode(P, load, e, c, s, fail, passed, acc);
    } else {
      acc' := MaskedCode(P, load, e, c, s, fail, passed, acc);
    }
  }

  /** So where both labels lead to a fixed result, the condition chooses it. */
  lemma CondCodeDecides(P: Listing, load: Loader, e: Event, c: Cond, s: nat, fail: Label, passed: Label, x: u32, y: u32)
    requires Runnable(P) && Sees(load, e) && CodeAt(P, c, s, fail, passed)
    requires RunsTo(P, load, P.labels[passed], x) && RunsTo(P, load, P.labels[fail], y)
    ensures RunsTo(P, load, s, if Holds(c, e) then x else y)
  {
    forall acc: u32 ensures Run(P, load, s, acc) == Returned(if Holds(c, e) then x else y) {
      var acc' := CondCodeLands(P, load, e, c, s, fail, passed, acc);
    }
  }

  // ------------------------------------------------------- rules and blocks

  /** Conditions j and later: all must hold to reach what follows. */
  lemma {:induction false} CondsDecide(P: Listing, load: Loader, e: Event, l: Listing, conds: seq<Cond>, nr: u32, i: nat, j: nat,
                                       x: u32, y: u32)
    requires Runnable(P) && Sees(load, e) && j <= |conds|
    requires var l' := EmitConds(l, conds, nr, i, j);
      Inside(l', P) && AgreeHits(l', P, nr, i) && RunsTo(P, load, |l'.insns|, x)
    requires Render(Next(nr, i)) in P.labels && RunsTo(P, load, P.labels[Render(Next(nr, i))], y)
    ensures RunsTo(P, load, |l.insns|, if AllHold(conds[j..], e) then x else y)
    decreases |conds| - j
  {
    if j == |conds| {
      assert conds[j..] == [];
    } else {
      var l1, c := EmitCond(l, conds[j], nr, i, j), conds[j];
      var fail, passed := Render(Next(nr, i)), Render(Hit(nr, i, j));
      CondLinks(P, l, conds, nr, i, j);
      CondsDecide(P, load, e, l1, conds, nr, i, j + 1, x, y);
      AllHoldFirst(conds, j, e);
      PlacedCode(P, l, c, nr, i, j);
      CondCodeDecides(P, load, e, c, |l.insns|, fail, passed, if AllHold(conds[j + 1..], e) then x else y, y);
    }
  }

  lemma AllHoldFirst(conds: seq<Cond>, j: nat, e: Event)
    requires j < |conds|
    ensures AllHold(conds[j..], e) == (Holds(conds[j], e) && AllHold(conds[j + 1..], e))
  {
    assert conds[j..] == [conds[j]] + conds[j + 1..];
  }

  lemma PlacedCode(P: Listing, l: Listing, c: Cond, nr: u32, i: nat, j: nat)
    requires var l1 := EmitCond(l, c, nr, i, j); Inside(l1, P) && BoundAt(P, Hit(nr, i, j), |l1.insns|)
    requires Render(Next(nr, i)) in P.labels
    ensures CodeAt(P, c, |l.insns|, Render(Next(nr, i)), Render(Hit(nr, i, j)))
  {
    var l1, code := EmitCond(l, c, nr, i, j), CondCode(c, Render(Next(nr, i)), Render(Hit(nr, i, j)));
    assert l1.insns == l.insns + code && P.insns[..|l1.insns|] == l1.insns;
    assert P.insns[|l.insns|..|l1.insns|] == code;
  }

  /** A rule with conditions returns its action when they all hold; a condition
      that fails, at any depth, lands on the next rule. */
  lemma RuleDecides(P: Listing, load: Loader, e: Event, l: Listing, rule: Rule, nr: u32, i: nat, rest: u32)
    requires Runnable(P) && Sees(load, e)
    requires var l1 := EmitConds(l, rule.args, nr, i, 0);
      && AgreeHits(l1, P, nr, i) && BoundAt(P, Next(nr, i), |l1.insns| + 1) && Inside(l1, P)
      && P.insns[|l1.insns|] == Ret(rule.action)
    requires RunsTo(P, load, |EmitRule(l, rule, nr, i).insns|, rest)
    ensures RunsTo(P, load, |l.insns|, if AllHold(rule.args, e) then rule.action else rest)
  {
    StepRet(P, load, |EmitConds(l, rule.args, nr, i, 0).insns|);
    CondsDecide(P, load, e, l, rule.args, nr, i, 0, rule.action, rest);
    assert rule.args[0..] == rule.args;
  }

  /** The code of rules i and later returns their first match, or the default. */
  lemma {:induction false} RulesDecide(P: Listing, load: Loader, e: Event, l: Listing, nr: u32, rules: seq<Rule>, i: nat, default: u32)
    requires Runnable(P) && Sees(load, e) && i <= |rules|
    requires var f := EmitRules(l, nr, rules, i, default); Inside(f, P) && AgreeRules(f, P, nr)
    ensures RunsTo(P, load, |l.insns|, FirstMatch(rules[i..], e, default))
    decreases |rules| - i
  {
    var f := EmitRules(l, nr, rules, i, default);
    if i == |rules| || rules[i].args == [] {
      assert P.insns[|l.insns|] == f.insns[|l.insns|];
      StepRet(P, load, |l.insns|);
      assert i < |rules| ==> rules[i..][0] == rules[i];
    } else {
      RuleLinks(P, l, nr, rules, i, default);
      RulesDecide(P, load, e, EmitRule(l, rules[i], nr, i), nr, rules, i + 1, default);
      RuleDecides(P, load, e, l, rules[i], nr, i, FirstMatch(rules[i + 1..], e, default));
      assert rules[i..][0] == rules[i] && rules[i..][1..] == rules[i + 1..];
    }
  }

  /** The block of the k-th syscall returns its rules' first match. */
  lemma {:induction false} BlockDecides(P: Listing, load: Loader, e: Event, l: Listing, t: Table, b: nat, k: nat, default: u32)
    requires Runnable(P) && Sees(load, e) && t.Valid() && b <= k < |t.order|
    requires var f := EmitBlocks(l, t, b, default); Inside(f, P) && AgreeBlocks(f, P)
    ensures var nr := t.order[k];
      && Render(Block(nr)) in P.labels
      && RunsTo(P, load, P.labels[Render(Block(nr))], FirstMatch(t.rules[nr], e, default))
    decreases |t.order| - b
  {
    var nr := t.order[b];
    BlockLinks(P, l, t, b, default);
    if b == k {
      RulesDecide(P, load, e, Bind(l, Block(nr)), nr, t.rules[nr], 0, default);
      assert t.rules[nr][0..] == t.rules[nr];
    } else {
      BlockDecides(P, load, e, EmitBlock(l, nr, t.rules[nr], default), t, b + 1, k, default);
    }
  }

  // -------------------------------------------------------- the whole program

  /** Instruction d of the prologue, in the finished program. */
  lemma PrologueAt(arch: u32, default: u32, t: Table, d: nat)
    requires t.Valid() && d < |Prologue(arch, t.order, default)|
    ensures var P := Compiled(arch, default, t);
      d < |P.insns| && P.insns[d] == Prologue(arch, t.order, default)[d]
  {
    KillTail(arch, default, t);
  }

  /** From comparison b on, the dispatch chain finds the syscall's block or
      falls through to the default. */
  lemma {:induction false} DispatchDecides(arch: u32, default: u32, t: Table, load: Loader, e: Event, b: nat)
    requires Sees(load, e) && t.Valid() && b <= |t.order| && Runnable(Compiled(arch, default, t))
    requires NrWord(e) !in t.order[..b]
    ensures Run(Compiled(arch, default, t), load, 3 + b, NrWord(e))
         == Returned(if NrWord(e) in t.rules then FirstMatch(t.rules[NrWord(e)], e, default) else default)
    decreases |t.order| - b
  {
    var P, nr := Compiled(arch, default, t), NrWord(e);
    PrologueAt(arch, default, t, 3 + b);
    if b == |t.order| {
      assert t.order[..b] == t.order;
      StepRet(P, load, 3 + b);
    } else {
      assert P.insns[3 + b] == Dispatch(t.order)[b];
      StepJump(P, load, 3 + b, nr);
      if t.order[b] == nr {
        KillTail(arch, default, t);
        BlockDecides(P, load, e, Start(arch, default, t), t, 0, b, default);
      } else {
        assert t.order[..b + 1] == t.order[..b] + [t.order[b]];
        DispatchDecides(arch, default, t, load, e, b + 1);
      }
    }
  }

  /** The symbolic program of a filter returns the policy's decision on every event. */
  lemma CompiledDecides(arch: u32, default: u32, t: Table, load: Loader, e: Event, acc: u32)
    requires Sees(load, e) && t.Valid()
    ensures Runnable(Compiled(arch, default, t))
    ensures Run(Compiled(arch, default, t), load, 0, acc) == Returned(Decide(arch, default, t.rules, e))
  {
    var P := Compiled(arch, default, t);
    CompiledIsContained(arch, default, t);
    ContainedIsWellLabelled(P.insns, P.labels);
    KillTail(arch, default, t);
    PrologueAt(arch, default, t, 0);
    PrologueAt(arch, default, t, 1);
    PrologueAt(arch, default, t, 2);
    StepLoad(P, load, 0, acc);
    StepJump(P, load, 1, e.arch);
    if e.arch == arch {
      StepLoad(P, load, 2, e.arch);
      DispatchDecides(arch, default, t, load, e, 0);
    } else {
      StepRet(P, load, |P.insns| - 1);
    }
  }
}
