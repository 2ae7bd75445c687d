/** The policy compiler as it runs: a shared instruction list and label
    dictionary grown in nested loops, then assembled. */
module Compilation {
  import opened Words
  import opened Bpf
  import opened Assembler
  import opened SeccompData
  import opened Policy
  import opened LabelNames
  import opened Compiler
  import opened Linking
  import opened Sizes

  /** The shared instruction list and label dictionary that compilation grows. */
  class Builder {
    var insns: seq<Insn>
    var labels: map<Label, int>

    constructor (init: seq<Insn>)
      ensures Listed() == Listing(init, map[])
    {
      insns := init;
      labels := map[];
    }

    ghost function Listed(): Listing
      reads this
    {
      Listing(insns, labels)
    }

    method Append(insn: Insn)
      modifies this`insns
      ensures Listed() == Put(old(Listed()), insn)
    {
      insns := insns + [insn];
    }

    method SetLabel(name: Name)
      modifies this`labels
      ensures Listed() == Bind(old(Listed()), name)
    {
      labels := labels[Render(name) := |insns|];
    }

    /** `_emit_cond`, with fail = next_nr_i and passed = hit_nr_i_j. */
    method AddCond(c: Cond, nr: u32, i: nat, j: nat)
      modifies this
      ensures Listed() == EmitCond(old(Listed()), c, nr, i, j)
    {
      var fail, passed := Render(Next(nr, i)), Render(Hit(nr, i, j));
      AddTests(c, fail, passed);
      SetLabel(Hit(nr, i, j));
    }

    /** The body of `_emit_cond` before it binds `passed`. */
    method AddTests(c: Cond, fail: Label, passed: Label)
      modifies this`insns
      ensures insns == old(insns) + CondCode(c, fail, passed)
    {
      var loOff, hiOff := LoOff(c), HiOff(c);
      var lo, hi := Lo(c.value), Hi(c.value);
      if c.op == EQ {
        insns := insns + [Load(loOff)];
        insns := insns + [Jump(JEQ, lo, None, Some(fail))];
        insns := insns + [Load(hiOff)];
        insns := insns + [Jump(JEQ, hi, None, Some(fail))];
      } else if c.op == NE {
        insns := insns + [Load(loOff)];
        insns := insns + [Jump(JEQ, lo, None, Some(passed))];
        insns := insns + [Load(hiOff)];
        insns := insns + [Jump(JEQ, hi, Some(fail), None)];
      } else if c.op == LT || c.op == LE {
        insns := insns + [Load(hiOff)];
        insns := insns + [Jump(JGT, hi, Some(fail), None)];
        insns := insns + [Jump(JEQ, hi, None, Some(passed))];
        insns := insns + [Load(loOff)];
        var jop := if c.op == LT then JGEQ else JGT;
        insns := insns + [Jump(jop, lo, Some(fail), None)];
      } else if c.op == GT || c.op == GE {
        insns := insns + [Load(hiOff)];
        insns := insns + [Jump(JGT, hi, Some(passed), None)];
        insns := insns + [Jump(JEQ, hi, None, Some(fail))];
        insns := insns + [Load(loOff)];
        var jop := if c.op == GT then JGT else JGEQ;
        insns := insns + [Jump(jop, lo, Some(passed), Some(fail))];
      } else {
        AddMaskedTests([(loOff, Lo(c.mask), lo), (hiOff, Hi(c.mask), hi)], fail);
      }
    }

    /** The loop over (offset, mask, value) words of a masked comparison. */
    method AddMaskedTests(words: seq<(u32, u32, u32)>, fail: Label)
      requires |words| == 2
      modifies this`insns
      ensures insns == old(insns) + (MaskedWord(words[0].0, words[0].1, words[0].2, fail)
                                     + MaskedWord(words[1].0, words[1].1, words[1].2, fail))
    {
      ghost var start := insns;
      for w := 0 to 2
        invariant w == 0 ==> insns == start
        invariant w == 1 ==> insns == start + MaskedWord(words[0].0, words[0].1, words[0].2, fail)
        invariant w == 2 ==> insns == start + (MaskedWord(words[0].0, words[0].1, words[0].2, fail)
                                               + MaskedWord(words[1].0, words[1].1, words[1].2, fail))
      {
        var (off, m, v) := words[w];
        ghost var before := insns;
        if m != 0 {
          insns := insns + [Load(off)];
          insns := insns + [And(m)];
          insns := insns + [Jump(JEQ, v, None, Some(fail))];
        }
        assert insns == before + MaskedWord(off, m, v, fail);
      }
    }

    /** The block of one syscall: rules in order until an unconditional one. */
    method AddBlock(nr: u32, rules: seq<Rule>, default: u32)
      modifies this
      ensures Listed() == EmitBlock(old(Listed()), nr, rules, default)
    {
      ghost var goal := EmitBlock(Listed(), nr, rules, default);
      SetLabel(Block(nr));
      var fallsThrough := true;
      var i := 0;
      while i < |rules|
        invariant 0 <= i <= |rules|
        invariant fallsThrough
        invariant EmitRules(Listed(), nr, rules, i, default) == goal
      {
        var rule := rules[i];
        if rule.args == [] {
          Append(Ret(rule.action));
          fallsThrough := false;
          break;
        }
        ghost var start := Listed();
        for j := 0 to |rule.args|
          invariant EmitConds(Listed(), rule.args, nr, i, j) == EmitConds(start, rule.args, nr, i, 0)
        {
          AddCond(rule.args[j], nr, i, j);
        }
        Append(Ret(rule.action));
        SetLabel(Next(nr, i));
        i := i + 1;
      }
      if fallsThrough {
        Append(Ret(default));
      }
    }
  }

  /** `Filter._compile`: never a label error; it fails, with a JA out of range,
      exactly when the program has more than 2^32 + 3 records. */
  method Compile(arch: u32, default: u32, t: Table) returns (r: Result<seq<u8>>)
    requires t.Valid()
    ensures r.Ok? <==> RecordCount(arch, default, t) <= W32 + 3
    ensures var P := Compiled(arch, default, t);
      && (r.Ok? <==> Assemblable(P.insns, P.labels))
      && (r.Ok? ==> r.value == PackAll(Image(P.insns, P.labels)))
    ensures r.Ok? ==> |r.value| == 8 * RecordCount(arch, default, t)
    ensures r.Err? ==> r.error == JaOutOfRange
    ensures RecordBound(t) <= W32 + 3 ==> r.Ok? && |r.value| <= 8 * RecordBound(t)
  {
    var insns := AddDispatch([Load(OFF_ARCH), Jump(JEQ, arch, None, Some(Render(Kill))), Load(OFF_NR)], t.order);
    insns := insns + [Ret(default)];
    var out := new Builder(insns);
    for b := 0 to |t.order|
      invariant fresh(out)
      invariant EmitBlocks(out.Listed(), t, b, default) == Body(arch, default, t)
    {
      out.AddBlock(t.order[b], t.rules[t.order[b]], default);
    }
    out.SetLabel(Kill);
    out.Append(Ret(KILL_PROCESS));
    r := Assemble(out.insns, out.labels);
    CompiledLabels(arch, default, t);
    CompilesExactlyWhen(arch, default, t);
    if RecordBound(t) <= W32 + 3 { CompileSucceeds(arch, default, t); }
  }

  /** The dispatch comparisons, appended in insertion order. */
  method AddDispatch(init: seq<Insn>, order: seq<u32>) returns (insns: seq<Insn>)
    ensures insns == init + Dispatch(order)
  {
    insns := init;
    for b := 0 to |order|
      invariant insns == init + Dispatch(order)[..b]
    {
      insns := insns + [Jump(JEQ, order[b], Some(Render(Block(order[b]))), None)];
    }
  }
}
