/** The kernel's structural rules for a seccomp program, that they guarantee a
    result, and that assembling a contained program meets them. */
module KernelCheck {
  import opened Words
  import opened Bpf
  import opened Relaxation
  import opened Assembler

  const SECCOMP_DATA_SIZE := 64

  predicate IsCondJump(code: u16) {
    code == 0x15 || code == 0x25 || code == 0x35 || code == 0x45
  }

  /** Record r at position p of an n-record program is well formed. */
  predicate RecordOk(r: Rec, p: nat, n: nat) {
    if r.code == 0x20 then r.k % 4 == 0 && r.k < 64
    else if r.code == 0x05 then p + 1 + r.k < n
    else if IsCondJump(r.code) then p + 1 + r.jt < n && p + 1 + r.jf < n
    else r.code == 0x54 || r.code == 0x06
  }

  /** Every jump stays inside, every load is an aligned word of `seccomp_data`,
      every opcode is known, and the last record returns. */
  predicate Accepted(recs: seq<Rec>) {
    && recs != [] && recs[|recs| - 1].code == 0x06
    && forall p | 0 <= p < |recs| :: RecordOk(recs[p], p, |recs|)
  }

  /** Records executed by a run from pc. */
  function Steps(recs: seq<Rec>, load: Loader, pc: nat, acc: u32): nat
    decreases |recs| - pc
  {
    if pc >= |recs| then 0
    else
      match Exec(recs[pc], load, pc, acc)
      case Goto(pc', acc') => 1 + Steps(recs, load, pc', acc')
      case Halt(_) => 1
  }

  /** An accepted program returns on every input, executing each record at most once. */
  lemma {:induction false} AcceptedReturns(recs: seq<Rec>, load: Loader, pc: nat, acc: u32)
    requires Accepted(recs) && pc < |recs|
    ensures RunRecords(recs, load, pc, acc).Returned?
    ensures Steps(recs, load, pc, acc) <= |recs| - pc
    decreases |recs| - pc
  {
    assert RecordOk(recs[pc], pc, |recs|);
    match Exec(recs[pc], load, pc, acc)
    case Goto(pc', acc') =>
      assert pc' < |recs|;
      AcceptedReturns(recs, load, pc', acc');
    case Halt(_) =>
  }

  // ------------------------------------------------- from source to records

  /** Labels name instructions, never the end; loads are legal; a Ret comes last. */
  predicate Contained(insns: seq<Insn>, labels: map<Label, int>) {
    && insns != [] && insns[|insns| - 1].Ret?
    && forall i | 0 <= i < |insns| :: InsnOk(insns, labels, i)
  }

  predicate InsnOk(insns: seq<Insn>, labels: map<Label, int>, i: nat)
    requires i < |insns|
  {
    Forward(insns[i], labels, i, |insns| - 1) && LoadOk(insns[i])
  }

  predicate LoadOk(insn: Insn) {
    insn.Load? ==> insn.k % 4 == 0 && insn.k < SECCOMP_DATA_SIZE
  }

  lemma ContainedIsWellLabelled(insns: seq<Insn>, labels: map<Label, int>)
    requires Contained(insns, labels)
    ensures WellLabelled(insns, labels)
  {
    forall i | 0 <= i < |insns| ensures Forward(insns[i], labels, i, |insns|) {
      assert InsnOk(insns, labels, i);
    }
  }

  /** Every record belongs to some instruction. */
  lemma {:induction false} OwnerOf(sizes: seq<nat>, k: nat, q: nat) returns (i: nat)
    requires k <= |sizes| && q < Pos(sizes, k)
    ensures i < k && Pos(sizes, i) <= q < Pos(sizes, i) + sizes[i]
  {
    if Pos(sizes, k - 1) <= q { i := k - 1; } else { i := OwnerOf(sizes, k - 1, q); }
  }

  lemma TargetInside(t: Option<Label>, labels: map<Label, int>, sizes: seq<nat>, i: nat)
    requires Positive(sizes) && i < |sizes| && Ahead(t, labels, i, |sizes| - 1)
    ensures t.Some? ==> Pos(sizes, i) < Pos(sizes, labels[t.value]) < Pos(sizes, |sizes|)
  {
    if t.Some? {
      PosAdvances(sizes, i, labels[t.value]);
      PosAdvances(sizes, labels[t.value], |sizes|);
    }
  }

  ghost predicate AllOk(piece: seq<Rec>, p: nat, n: nat) {
    forall d | 0 <= d < |piece| :: RecordOk(piece[d], p + d, n)
  }

  /** The record of a short jump that stays inside is well formed. */
  lemma ShortRecordOk(insn: Insn, labels: map<Label, int>, sizes: seq<nat>, i: nat)
    requires Positive(sizes) && i < |sizes| - 1 && insn.Jump? && sizes[i] == 1
    requires Forward(insn, labels, i, |sizes| - 1) && Bound(insn, labels, |sizes|)
    requires Emit(insn, labels, PosSeq(sizes), i, 1).Ok?
    ensures AllOk(Emit(insn, labels, PosSeq(sizes), i, 1).value, Pos(sizes, i), Pos(sizes, |sizes|))
  {
    TargetInside(insn.jt, labels, sizes, i);
    TargetInside(insn.jf, labels, sizes, i);
    PosAdvances(sizes, i + 1, |sizes|);
  }

  /** So are the hop and the trampolines of an expanded one. */
  lemma ExpandedRecordsOk(insn: Insn, labels: map<Label, int>, sizes: seq<nat>, i: nat)
    requires Positive(sizes) && i < |sizes| - 1 && insn.Jump? && sizes[i] == ExpandedSize(insn)
    requires Forward(insn, labels, i, |sizes| - 1) && Bound(insn, labels, |sizes|)
    requires EmitExpanded(insn, labels, PosSeq(sizes), i).Ok?
    ensures AllOk(EmitExpanded(insn, labels, PosSeq(sizes), i).value, Pos(sizes, i), Pos(sizes, |sizes|))
  {
    TargetInside(insn.jt, labels, sizes, i);
    TargetInside(insn.jf, labels, sizes, i);
    PosAdvances(sizes, i + 1, |sizes|);
    assert Pos(sizes, i) + sizes[i] < Pos(sizes, |sizes|);
  }

  /** All records of any instruction are well formed, unless it falls off the end. */
  lemma PieceRecordsOk(insn: Insn, labels: map<Label, int>, sizes: seq<nat>, i: nat)
    requires Positive(sizes) && i < |sizes| && SizeAllowed(insn, sizes[i])
    requires Forward(insn, labels, i, |sizes| - 1) && Bound(insn, labels, |sizes|) && LoadOk(insn)
    requires insn.Ret? || i < |sizes| - 1
    requires Emit(insn, labels, PosSeq(sizes), i, sizes[i]).Ok?
    ensures AllOk(Emit(insn, labels, PosSeq(sizes), i, sizes[i]).value, Pos(sizes, i), Pos(sizes, |sizes|))
  {
    match insn
    case Jump(_, _, _, _) =>
      if sizes[i] == 1 { ShortRecordOk(insn, labels, sizes, i); } else { ExpandedRecordsOk(insn, labels, sizes, i); }
    case Ja(t) => TargetInside(Some(t), labels, sizes, i);
    case _ =>
  }

  /** Assembling a contained program gives one the kernel's rules accept. */
  lemma AssembledIsAccepted(insns: seq<Insn>, labels: map<Label, int>)
    requires Contained(insns, labels) && Assemblable(insns, labels)
    ensures Accepted(Image(insns, labels))
  {
    var sizes, recs, n := LeastSizes(insns, labels), Image(insns, labels), |insns|;
    SizedPositive(insns, sizes);
    ImageLength(insns, labels);
    forall q | 0 <= q < |recs| ensures RecordOk(recs[q], q, |recs|) {
      var i := OwnerOf(sizes, n, q);
      RecordOkAt(insns, labels, i, q);
    }
    assert Bound(insns[n - 1], labels, n);
    assert SizeAllowed(insns[n - 1], sizes[n - 1]);
    ImageAt(insns, labels, n - 1);
    assert recs[Pos(sizes, n - 1) + 0].code == BPF_RET_K;
  }

  lemma RecordOkAt(insns: seq<Insn>, labels: map<Label, int>, i: nat, q: nat)
    requires Contained(insns, labels) && Assemblable(insns, labels) && i < |insns|
    requires var sizes := LeastSizes(insns, labels); Pos(sizes, i) <= q < Pos(sizes, i) + sizes[i]
    ensures q < |Image(insns, labels)|
    ensures RecordOk(Image(insns, labels)[q], q, |Image(insns, labels)|)
  {
    var sizes := LeastSizes(insns, labels);
    assert Bound(insns[i], labels, |insns|);
    ImageLength(insns, labels);
    ImageAt(insns, labels, i);
    SizedPositive(insns, sizes);
    assert SizeAllowed(insns[i], sizes[i]);
    assert InsnOk(insns, labels, i);
    PieceRecordsOk(insns[i], labels, sizes, i);
    PlacedOk(Image(insns, labels), Pos(sizes, i), Emit(insns[i], labels, PosSeq(sizes), i, sizes[i]).value, q);
  }

  lemma PlacedOk(recs: seq<Rec>, p: nat, piece: seq<Rec>, q: nat)
    requires Placed(recs, p, piece) && AllOk(piece, p, |recs|) && p <= q < p + |piece|
    ensures RecordOk(recs[q], q, |recs|)
  {
    assert recs[p + (q - p)] == piece[q - p];
  }
}
