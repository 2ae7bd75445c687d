/** The symbolic program a rule table stands for, as a function. */
module Compiler {
  import opened Words
  import opened Bpf
  import opened SeccompData
  import opened Policy
  import opened LabelNames

  /** Instructions emitted so far and the labels bound so far. */
  datatype Listing = Listing(insns: seq<Insn>, labels: map<Label, int>)

  function LoOff(c: Cond): u32 { OFF_ARG0 + 8 * c.index }
  function HiOff(c: Cond): u32 { LoOff(c) + 4 }

  /** The test of one masked word; nothing when the mask word is zero. */
  function MaskedWord(off: u32, m: u32, v: u32, fail: Label): seq<Insn> {
    if m == 0 then [] else [Load(off), And(m), Jump(JEQ, v, None, Some(fail))]
  }

  /** The instructions that test one condition. */
  function CondCode(c: Cond, fail: Label, passed: Label): seq<Insn> {
    var lo, hi := Lo(c.value), Hi(c.value);
    match c.op
    case EQ =>
      [Load(LoOff(c)), Jump(JEQ, lo, None, Some(fail)), Load(HiOff(c)), Jump(JEQ, hi, None, Some(fail))]
    case NE =>
      [Load(LoOff(c)), Jump(JEQ, lo, None, Some(passed)), Load(HiOff(c)), Jump(JEQ, hi, Some(fail), None)]
    case LT =>
      [Load(HiOff(c)), Jump(JGT, hi, Some(fail), None), Jump(JEQ, hi, None, Some(passed)),
       Load(LoOff(c)), Jump(JGEQ, lo, Some(fail), None)]
    case LE =>
      [Load(HiOff(c)), Jump(JGT, hi, Some(fail), None), Jump(JEQ, hi, None, Some(passed)),
       Load(LoOff(c)), Jump(JGT, lo, Some(fail), None)]
    case GT =>
      [Load(HiOff(c)), Jump(JGT, hi, Some(passed), None), Jump(JEQ, hi, None, Some(fail)),
       Load(LoOff(c)), Jump(JGT, lo, Some(passed), Some(fail))]
    case GE =>
      [Load(HiOff(c)), Jump(JGT, hi, Some(passed), None), Jump(JEQ, hi, None, Some(fail)),
       Load(LoOff(c)), Jump(JGEQ, lo, Some(passed), Some(fail))]
    case MASKED_EQ =>
      MaskedWord(LoOff(c), Lo(c.mask), lo, fail) + MaskedWord(HiOff(c), Hi(c.mask), hi, fail)
  }

  /** Appends an instruction. */
  function Put(l: Listing, insn: Insn): Listing {
    l.(insns := l.insns + [insn])
  }

  /** Binds a label to the next instruction. */
  function Bind(l: Listing, name: Name): Listing {
    l.(labels := l.labels[Render(name) := |l.insns|])
  }

  /** Condition j of rule i for syscall nr. */
  function EmitCond(l: Listing, c: Cond, nr: u32, i: nat, j: nat): Listing {
    Bind(l.(insns := l.insns + CondCode(c, Render(Next(nr, i)), Render(Hit(nr, i, j)))), Hit(nr, i, j))
  }

  /** Conditions j and later of rule i. */
  function EmitConds(l: Listing, conds: seq<Cond>, nr: u32, i: nat, j: nat): Listing
    requires j <= |conds|
    decreases |conds| - j
  {
    if j == |conds| then l else EmitConds(EmitCond(l, conds[j], nr, i, j), conds, nr, i, j + 1)
  }

  /** A rule with conditions: its tests, its action, and the label of the next rule. */
  function EmitRule(l: Listing, rule: Rule, nr: u32, i: nat): Listing {
    Bind(Put(EmitConds(l, rule.args, nr, i, 0), Ret(rule.action)), Next(nr, i))
  }

  /** Rules i and later of syscall nr, up to the first unconditional one. */
  function EmitRules(l: Listing, nr: u32, rules: seq<Rule>, i: nat, default: u32): Listing
    requires i <= |rules|
    decreases |rules| - i
  {
    if i == |rules| then Put(l, Ret(default))
    else if rules[i].args == [] then Put(l, Ret(rules[i].action))
    else EmitRules(EmitRule(l, rules[i], nr, i), nr, rules, i + 1, default)
  }

  function EmitBlock(l: Listing, nr: u32, rules: seq<Rule>, default: u32): Listing {
    EmitRules(Bind(l, Block(nr)), nr, rules, 0, default)
  }

  /** An insertion-ordered rule table: the keys in order, and the rules of each. */
  datatype Table = Table(order: seq<u32>, rules: map<u32, seq<Rule>>) {
    ghost predicate Valid() {
      && (forall a, b | 0 <= a < b < |order| :: order[a] != order[b])
      && (forall a | 0 <= a < |order| :: order[a] in rules)
      && (forall nr | nr in rules :: nr in order)
    }
  }

  /** The blocks of the syscalls from the b-th on. */
  ghost function EmitBlocks(l: Listing, t: Table, b: nat, default: u32): Listing
    requires t.Valid() && b <= |t.order|
    decreases |t.order| - b
  {
    if b == |t.order| then l
    else EmitBlocks(EmitBlock(l, t.order[b], t.rules[t.order[b]], default), t, b + 1, default)
  }

  /** One comparison per syscall, in insertion order. */
  function Dispatch(order: seq<u32>): (s: seq<Insn>)
    ensures |s| == |order|
  {
    seq(|order|, b requires 0 <= b < |order| => Jump(JEQ, order[b], Some(Render(Block(order[b]))), None))
  }

  /** Architecture check, dispatch chain, default. */
  function Prologue(arch: u32, order: seq<u32>, default: u32): seq<Insn> {
    [Load(OFF_ARCH), Jump(JEQ, arch, None, Some(Render(Kill))), Load(OFF_NR)] + Dispatch(order) + [Ret(default)]
  }

  /** The whole symbolic program of a filter. */
  ghost function Compiled(arch: u32, default: u32, t: Table): Listing
    requires t.Valid()
  {
    var blocks := EmitBlocks(Listing(Prologue(arch, t.order, default), map[]), t, 0, default);
    Put(Bind(blocks, Kill), Ret(KILL_PROCESS))
  }
}
