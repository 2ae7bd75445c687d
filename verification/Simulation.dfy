/** Assembling preserves meaning: source index i corresponds to record
    Pos(sizes, i), and trampolines only add steps in between. */
module Simulation {
  import opened Words
  import opened Bpf
  import opened Relaxation
  import opened Assembler

  lemma ExecJump(op: JumpOp, jt: u8, jf: u8, k: u32, load: Loader, pc: nat, acc: u32)
    ensures Exec(Rec(op.Code(), jt, jf, k), load, pc, acc)
         == Goto(pc + 1 + if op.Test(acc, k) then jt else jf, acc)
  {}

  /** Where control goes after conditional jump i. */
  function Next(insn: Insn, labels: map<Label, int>, i: nat, n: nat, acc: u32): (next: nat)
    requires insn.Jump? && Forward(insn, labels, i, n) && i < n
    ensures i < next <= n
  {
    var t := if insn.op.Test(acc, insn.k) then insn.jt else insn.jf;
    if t.Some? then labels[t.value] else i + 1
  }

  /** A jump left short goes in one step to the record of its source target. */
  lemma ShortJumpLands(insn: Insn, labels: map<Label, int>, sizes: seq<nat>, i: nat,
                       recs: seq<Rec>, load: Loader, acc: u32)
    requires insn.Jump? && i < |sizes| && sizes[i] == 1
    requires Forward(insn, labels, i, |sizes|) && Bound(insn, labels, |sizes|)
    requires Emit(insn, labels, PosSeq(sizes), i, 1).Ok?
    requires Placed(recs, Pos(sizes, i), Emit(insn, labels, PosSeq(sizes), i, 1).value)
    ensures RunRecords(recs, load, Pos(sizes, i), acc)
         == RunRecords(recs, load, Pos(sizes, Next(insn, labels, i, |sizes|, acc)), acc)
  {
    var pos, p := PosSeq(sizes), Pos(sizes, i);
    var jt, jf := Offset(insn.jt, labels, pos, i).value, Offset(insn.jf, labels, pos, i).value;
    var piece := Emit(insn, labels, pos, i, 1).value;
    assert recs[p + 0] == piece[0] == Rec(insn.op.Code(), OrZero(jt), OrZero(jf), insn.k);
    ExecJump(insn.op, OrZero(jt), OrZero(jf), insn.k, load, p, acc);
  }

  /** A JA record goes in one step to the record of its target. */
  lemma JaLands(t: Option<Label>, labels: map<Label, int>, sizes: seq<nat>, pc: nat,
                recs: seq<Rec>, load: Loader, acc: u32)
    requires t.Some? && BoundTarget(t, labels, |sizes|)
    requires EmitJa(t, labels, PosSeq(sizes), pc).Ok?
    requires pc < |recs| && recs[pc] == EmitJa(t, labels, PosSeq(sizes), pc).value[0]
    ensures RunRecords(recs, load, pc, acc) == RunRecords(recs, load, Pos(sizes, labels[t.value]), acc)
  {
    var target := Pos(sizes, labels[t.value]);
    assert PosSeq(sizes)[labels[t.value]] == target;
    assert Exec(recs[pc], load, pc, acc) == Goto(target, acc);
  }

  /** An expanded jump reaches the record of its source target in one or two
      steps, in each of the three trampoline shapes. */
  lemma ExpandedJumpLands(insn: Insn, labels: map<Label, int>, sizes: seq<nat>, i: nat,
                          recs: seq<Rec>, load: Loader, acc: u32)
    requires insn.Jump? && i < |sizes| && sizes[i] == ExpandedSize(insn)
    requires Forward(insn, labels, i, |sizes|) && Bound(insn, labels, |sizes|)
    requires EmitExpanded(insn, labels, PosSeq(sizes), i).Ok?
    requires Placed(recs, Pos(sizes, i), EmitExpanded(insn, labels, PosSeq(sizes), i).value)
    ensures RunRecords(recs, load, Pos(sizes, i), acc)
         == RunRecords(recs, load, Pos(sizes, Next(insn, labels, i, |sizes|, acc)), acc)
  {
    var p, piece := Pos(sizes, i), EmitExpanded(insn, labels, PosSeq(sizes), i).value;
    var taken := insn.op.Test(acc, insn.k);
    assert recs[p + 0] == piece[0];
    assert recs[p + 1] == piece[1];
    if insn.jt.None? {
      ExecJump(insn.op, 1, 0, insn.k, load, p, acc);
      assert RunRecords(recs, load, p, acc) == RunRecords(recs, load, if taken then p + 2 else p + 1, acc);
      if !taken { JaLands(insn.jf, labels, sizes, p + 1, recs, load, acc); }
    } else {
      ExecJump(insn.op, 0, 1, insn.k, load, p, acc);
      assert RunRecords(recs, load, p, acc) == RunRecords(recs, load, if taken then p + 1 else p + 2, acc);
      if taken {
        JaLands(insn.jt, labels, sizes, p + 1, recs, load, acc);
      } else if insn.jf.Some? {
        assert recs[p + 2] == piece[2];
        JaLands(insn.jf, labels, sizes, p + 2, recs, load, acc);
      }
    }
  }

  /** Either way, conditional jump i lands on the record of its source target. */
  lemma JumpLands(insns: seq<Insn>, labels: map<Label, int>, i: nat, load: Loader, acc: u32)
    requires Assemblable(insns, labels) && i < |insns| && insns[i].Jump?
    requires Forward(insns[i], labels, i, |insns|)
    ensures var sizes, recs := LeastSizes(insns, labels), Image(insns, labels);
      RunRecords(recs, load, Pos(sizes, i), acc)
      == RunRecords(recs, load, Pos(sizes, Next(insns[i], labels, i, |insns|, acc)), acc)
  {
    var sizes, recs := LeastSizes(insns, labels), Image(insns, labels);
    assert SizeAllowed(insns[i], sizes[i]);
    ImageAt(insns, labels, i);
    if sizes[i] == 1 {
      ShortJumpLands(insns[i], labels, sizes, i, recs, load, acc);
    } else {
      ExpandedJumpLands(insns[i], labels, sizes, i, recs, load, acc);
    }
  }

  /** Where control goes after instruction i, and with which accumulator. */
  function Successor(insn: Insn, labels: map<Label, int>, load: Loader, i: nat, n: nat, acc: u32): (s: (nat, u32))
    requires !insn.Ret? && Forward(insn, labels, i, n) && i < n
    ensures i < s.0 <= n
  {
    match insn
    case Jump(_, _, _, _) => (Next(insn, labels, i, n, acc), acc)
    case Ja(t) => (labels[t] as nat, acc)
    case Load(k) => (i + 1, load(k))
    case And(k) => (i + 1, BitAnd(acc, k) as u32)
  }

  lemma SourceStep(insns: seq<Insn>, labels: map<Label, int>, load: Loader, i: nat, acc: u32)
    requires WellLabelled(insns, labels) && i < |insns| && !insns[i].Ret?
    requires Forward(insns[i], labels, i, |insns|)
    ensures var (next, acc') := Successor(insns[i], labels, load, i, |insns|, acc);
      RunSource(insns, labels, load, i, acc) == RunSource(insns, labels, load, next, acc')
  {}

  /** The single record an instruction other than a conditional jump becomes. */
  ghost predicate IsRecordOf(insn: Insn, labels: map<Label, int>, sizes: seq<nat>, i: nat, recs: seq<Rec>)
    requires i < |sizes| && Forward(insn, labels, i, |sizes|)
  {
    var p := Pos(sizes, i);
    && p < |recs| && Pos(sizes, i + 1) == p + 1
    && match insn
       case Load(k) => recs[p] == Rec(BPF_LD_ABS_W, 0, 0, k)
       case And(k) => recs[p] == Rec(BPF_ALU_AND_K, 0, 0, k)
       case Ret(k) => recs[p] == Rec(BPF_RET_K, 0, 0, k)
       case Ja(t) => recs[p].(k := 0) == Rec(BPF_JA, 0, 0, 0) && p + 1 + recs[p].k == Pos(sizes, labels[t])
       case Jump(_, _, _, _) => false
  }

  lemma OneRecord(insns: seq<Insn>, labels: map<Label, int>, i: nat)
    requires Assemblable(insns, labels) && i < |insns| && !insns[i].Jump?
    requires Forward(insns[i], labels, i, |insns|)
    ensures IsRecordOf(insns[i], labels, LeastSizes(insns, labels), i, Image(insns, labels))
  {
    var sizes, recs, p := LeastSizes(insns, labels), Image(insns, labels), Pos(LeastSizes(insns, labels), i);
    assert SizeAllowed(insns[i], sizes[i]);
    ImageAt(insns, labels, i);
    assert recs[p + 0] == Emit(insns[i], labels, PosSeq(sizes), i, sizes[i]).value[0];
  }

  lemma RecordStep(insn: Insn, labels: map<Label, int>, sizes: seq<nat>, i: nat,
                   recs: seq<Rec>, load: Loader, acc: u32)
    requires i < |sizes| && Forward(insn, labels, i, |sizes|) && !insn.Ret?
    requires IsRecordOf(insn, labels, sizes, i, recs)
    ensures var (next, acc') := Successor(insn, labels, load, i, |sizes|, acc);
      RunRecords(recs, load, Pos(sizes, i), acc) == RunRecords(recs, load, Pos(sizes, next), acc')
  {}

  /** One source step from i matches one or two record steps: the run of the
      records continues at the corresponding place with the same accumulator. */
  lemma StepMatches(insns: seq<Insn>, labels: map<Label, int>, load: Loader, i: nat, acc: u32)
    requires Assemblable(insns, labels) && i < |insns| && !insns[i].Ret?
    requires Forward(insns[i], labels, i, |insns|)
    ensures var sizes, recs := LeastSizes(insns, labels), Image(insns, labels);
      var (next, acc') := Successor(insns[i], labels, load, i, |insns|, acc);
      RunRecords(recs, load, Pos(sizes, i), acc) == RunRecords(recs, load, Pos(sizes, next), acc')
  {
    if insns[i].Jump? {
      JumpLands(insns, labels, i, load, acc);
    } else {
      OneRecord(insns, labels, i);
      RecordStep(insns[i], labels, LeastSizes(insns, labels), i, Image(insns, labels), load, acc);
    }
  }

  /** The simulation: running the records from instruction i's position is
      running the source from i, to the same outcome. */
  lemma {:induction false} Simulates(insns: seq<Insn>, labels: map<Label, int>, load: Loader, i: nat, acc: u32)
    requires Assemblable(insns, labels) && i <= |insns|
    ensures RunRecords(Image(insns, labels), load, Pos(LeastSizes(insns, labels), i), acc)
         == RunSource(insns, labels, load, i, acc)
    decreases |insns| - i
  {
    if i == |insns| {
      ImageLength(insns, labels);
    } else if insns[i].Ret? {
      assert Forward(insns[i], labels, i, |insns|);
      OneRecord(insns, labels, i);
    } else {
      assert Forward(insns[i], labels, i, |insns|);
      var (next, acc') := Successor(insns[i], labels, load, i, |insns|, acc);
      SourceStep(insns, labels, load, i, acc);
      StepMatches(insns, labels, load, i, acc);
      Simulates(insns, labels, load, next, acc');
    }
  }

  /** Running the assembled bytes gives the outcome of running the symbolic
      program, whatever the data, including running past the end. */
  lemma AssemblePreservesMeaning(insns: seq<Insn>, labels: map<Label, int>, load: Loader, acc: u32)
    requires Assemblable(insns, labels)
    ensures RunPacked(PackAll(Image(insns, labels)), load, 0, acc) == RunSource(insns, labels, load, 0, acc)
  {
    PackedRunsAsRecords(Image(insns, labels), load, 0, acc);
    Simulates(insns, labels, load, 0, acc);
  }
}
