/** The assembled bytes, number by number, for every kind of instruction. */
module Wire {
  import opened Words
  import opened Bpf
  import opened Relaxation
  import opened Assembler
  import opened Simulation

  /** Bytes 8p to 8p+7 are the record with these fields, little-endian. */
  ghost predicate RecordIs(out: seq<u8>, p: int, code: int, jt: int, jf: int, k: int) {
    && 0 <= p && 8 * p + 8 <= |out|
    && out[8 * p] == code % 0x100 && out[8 * p + 1] == code / 0x100
    && out[8 * p + 2] == jt && out[8 * p + 3] == jf
    && out[8 * p + 4] == k % 0x100 && out[8 * p + 5] == (k / 0x100) % 0x100
    && out[8 * p + 6] == (k / 0x1_0000) % 0x100 && out[8 * p + 7] == k / 0x100_0000
  }

  /** The opcode byte of each comparison. */
  function OpByte(op: JumpOp): int {
    match op
    case JEQ => 0x15
    case JGT => 0x25
    case JGEQ => 0x35
    case JSET => 0x45
  }

  /** Instruction i, whose records start at record pos[i], is in the output as:
      ld 0x20, and 0x54, ret 0x06, ja 0x05 with the distance to its target; a
      short jump with both distances, 0 where it falls through; or a hop over
      one or two ja records. */
  ghost predicate Encoded(out: seq<u8>, insn: Insn, labels: map<Label, int>, sizes: seq<nat>, i: nat)
    requires i < |sizes| && Bound(insn, labels, |sizes|)
  {
    var p := Pos(sizes, i);
    match insn
    case Load(k) => RecordIs(out, p, 0x20, 0, 0, k)
    case And(k) => RecordIs(out, p, 0x54, 0, 0, k)
    case Ret(k) => RecordIs(out, p, 0x06, 0, 0, k)
    case Ja(t) => RecordIs(out, p, 0x05, 0, 0, Pos(sizes, labels[t]) - p - 1)
    case Jump(op, k, jt, jf) =>
      if sizes[i] == 1 then
        RecordIs(out, p, OpByte(op),
                 if jt.Some? then Pos(sizes, labels[jt.value]) - p - 1 else 0,
                 if jf.Some? then Pos(sizes, labels[jf.value]) - p - 1 else 0, k)
      else if jt.None? then
        && RecordIs(out, p, OpByte(op), 1, 0, k)
        && jf.Some? && RecordIs(out, p + 1, 0x05, 0, 0, Pos(sizes, labels[jf.value]) - p - 2)
      else
        && RecordIs(out, p, OpByte(op), 0, 1, k)
        && RecordIs(out, p + 1, 0x05, 0, 0, Pos(sizes, labels[jt.value]) - p - 2)
        && (jf.Some? ==> RecordIs(out, p + 2, 0x05, 0, 0, Pos(sizes, labels[jf.value]) - p - 3))
  }

  /** The bytes are these records, one after the other, number by number. */
  ghost predicate Carries(out: seq<u8>, recs: seq<Rec>) {
    && |out| == 8 * |recs|
    && forall p | 0 <= p < |recs| :: RecordIs(out, p, recs[p].code, recs[p].jt, recs[p].jf, recs[p].k)
  }

  lemma PackedCarries(recs: seq<Rec>)
    ensures Carries(PackAll(recs), recs)
  {
    forall p | 0 <= p < |recs| ensures RecordIs(PackAll(recs), p, recs[p].code, recs[p].jt, recs[p].jf, recs[p].k) {
      PackAllAt(recs, p);
      PackLayout(recs[p]);
      SliceCarries(PackAll(recs), p, recs[p]);
    }
  }

  lemma SliceCarries(out: seq<u8>, p: nat, r: Rec)
    requires 8 * p + 8 <= |out| && out[8 * p..8 * p + 8] == Pack(r)
    requires Pack(r) == [r.code % 0x100, r.code / 0x100, r.jt, r.jf,
                         r.k % 0x100, (r.k / 0x100) % 0x100, (r.k / 0x1_0000) % 0x100, r.k / 0x100_0000]
    ensures RecordIs(out, p, r.code, r.jt, r.jf, r.k)
  {
    var b := out[8 * p..8 * p + 8];
    assert b[0] == out[8 * p] && b[1] == out[8 * p + 1] && b[2] == out[8 * p + 2] && b[3] == out[8 * p + 3];
    assert b[4] == out[8 * p + 4] && b[5] == out[8 * p + 5] && b[6] == out[8 * p + 6] && b[7] == out[8 * p + 7];
  }

  predicate Is(r: Rec, code: int, jt: int, jf: int, k: int) {
    r.code == code && r.jt == jt && r.jf == jf && r.k == k
  }

  lemma CarriedAs(out: seq<u8>, recs: seq<Rec>, p: nat, code: int, jt: int, jf: int, k: int)
    requires Carries(out, recs) && p < |recs| && Is(recs[p], code, jt, jf, k)
    ensures RecordIs(out, p, code, jt, jf, k)
  {}

  lemma CarriedFrom(out: seq<u8>, recs: seq<Rec>, p: nat, piece: seq<Rec>, q: nat, code: int, jt: int, jf: int, k: int)
    requires Carries(out, recs) && Placed(recs, p, piece) && q < |piece| && Is(piece[q], code, jt, jf, k)
    ensures RecordIs(out, p + q, code, jt, jf, k)
  {
    assert recs[p + q] == piece[q];
    CarriedAs(out, recs, p + q, code, jt, jf, k);
  }

  /** A short jump's record. */
  lemma ShortRecord(insn: Insn, labels: map<Label, int>, sizes: seq<nat>, i: nat)
    requires insn.Jump? && i < |sizes| && Bound(insn, labels, |sizes|)
    requires Emit(insn, labels, PosSeq(sizes), i, 1).Ok?
    ensures var p, piece := Pos(sizes, i), Emit(insn, labels, PosSeq(sizes), i, 1).value;
      |piece| == 1 &&
      Is(piece[0], OpByte(insn.op),
         if insn.jt.Some? then Pos(sizes, labels[insn.jt.value]) - p - 1 else 0,
         if insn.jf.Some? then Pos(sizes, labels[insn.jf.value]) - p - 1 else 0, insn.k)
  {}

  /** A trampoline's record. */
  lemma JaRecord(t: Option<Label>, labels: map<Label, int>, sizes: seq<nat>, pc: nat)
    requires t.Some? && BoundTarget(t, labels, |sizes|)
    requires EmitJa(t, labels, PosSeq(sizes), pc).Ok?
    ensures var piece := EmitJa(t, labels, PosSeq(sizes), pc).value;
      |piece| == 1 && Is(piece[0], 0x05, 0, 0, Pos(sizes, labels[t.value]) - pc - 1)
  {}

  /** The records of an expanded jump, in each of the three shapes. */
  lemma ExpandedRecords(insn: Insn, labels: map<Label, int>, sizes: seq<nat>, i: nat)
    requires insn.Jump? && i < |sizes| && Bound(insn, labels, |sizes|)
    requires EmitExpanded(insn, labels, PosSeq(sizes), i).Ok?
    ensures var p, piece := Pos(sizes, i), EmitExpanded(insn, labels, PosSeq(sizes), i).value;
      if insn.jt.None? then
        && |piece| == 2 && Is(piece[0], OpByte(insn.op), 1, 0, insn.k)
        && insn.jf.Some? && Is(piece[1], 0x05, 0, 0, Pos(sizes, labels[insn.jf.value]) - p - 2)
      else
        && |piece| >= 2 && Is(piece[0], OpByte(insn.op), 0, 1, insn.k)
        && Is(piece[1], 0x05, 0, 0, Pos(sizes, labels[insn.jt.value]) - p - 2)
        && (insn.jf.Some? ==> |piece| == 3 && Is(piece[2], 0x05, 0, 0, Pos(sizes, labels[insn.jf.value]) - p - 3))
  {
    var p := Pos(sizes, i);
    if insn.jt.None? {
      JaRecord(insn.jf, labels, sizes, p + 1);
    } else {
      JaRecord(insn.jt, labels, sizes, p + 1);
      if insn.jf.Some? { JaRecord(insn.jf, labels, sizes, p + 2); }
    }
  }

  lemma ShortEncoded(insn: Insn, labels: map<Label, int>, sizes: seq<nat>, i: nat, recs: seq<Rec>, out: seq<u8>)
    requires Carries(out, recs)
    requires insn.Jump? && i < |sizes| && sizes[i] == 1 && Bound(insn, labels, |sizes|)
    requires Emit(insn, labels, PosSeq(sizes), i, 1).Ok?
    requires Placed(recs, Pos(sizes, i), Emit(insn, labels, PosSeq(sizes), i, 1).value)
    ensures Encoded(out, insn, labels, sizes, i)
  {
    var p := Pos(sizes, i);
    ShortRecord(insn, labels, sizes, i);
    CarriedFrom(out, recs, p, Emit(insn, labels, PosSeq(sizes), i, 1).value, 0, OpByte(insn.op),
                if insn.jt.Some? then Pos(sizes, labels[insn.jt.value]) - p - 1 else 0,
                if insn.jf.Some? then Pos(sizes, labels[insn.jf.value]) - p - 1 else 0, insn.k);
  }

  lemma ExpandedEncoded(insn: Insn, labels: map<Label, int>, sizes: seq<nat>, i: nat, recs: seq<Rec>, out: seq<u8>)
    requires Carries(out, recs)
    requires insn.Jump? && i < |sizes| && sizes[i] == ExpandedSize(insn) && Bound(insn, labels, |sizes|)
    requires EmitExpanded(insn, labels, PosSeq(sizes), i).Ok?
    requires Placed(recs, Pos(sizes, i), EmitExpanded(insn, labels, PosSeq(sizes), i).value)
    ensures Encoded(out, insn, labels, sizes, i)
  {
    var p, piece := Pos(sizes, i), EmitExpanded(insn, labels, PosSeq(sizes), i).value;
    ExpandedRecords(insn, labels, sizes, i);
    if insn.jt.None? {
      CarriedFrom(out, recs, p, piece, 0, OpByte(insn.op), 1, 0, insn.k);
      CarriedFrom(out, recs, p, piece, 1, 0x05, 0, 0, Pos(sizes, labels[insn.jf.value]) - p - 2);
    } else {
      CarriedFrom(out, recs, p, piece, 0, OpByte(insn.op), 0, 1, insn.k);
      CarriedFrom(out, recs, p, piece, 1, 0x05, 0, 0, Pos(sizes, labels[insn.jt.value]) - p - 2);
      if insn.jf.Some? {
        CarriedFrom(out, recs, p, piece, 2, 0x05, 0, 0, Pos(sizes, labels[insn.jf.value]) - p - 3);
      }
    }
  }

  /** Every instruction of an accepted program is encoded so, and the output has
      no bytes but those. */
  lemma AssembledBytes(insns: seq<Insn>, labels: map<Label, int>, i: nat)
    requires Assemblable(insns, labels) && i < |insns| && Bound(insns[i], labels, |insns|)
    ensures var sizes, out := LeastSizes(insns, labels), PackAll(Image(insns, labels));
      && Encoded(out, insns[i], labels, sizes, i)
      && |out| == 8 * Pos(sizes, |insns|)
  {
    var sizes, recs := LeastSizes(insns, labels), Image(insns, labels);
    var out := PackAll(recs);
    PackedCarries(recs);
    ImageLength(insns, labels);
    ImageAt(insns, labels, i);
    assert SizeAllowed(insns[i], sizes[i]);
    assert Forward(insns[i], labels, i, |insns|);
    if insns[i].Jump? && sizes[i] == 1 {
      ShortEncoded(insns[i], labels, sizes, i, recs, out);
    } else if insns[i].Jump? {
      ExpandedEncoded(insns[i], labels, sizes, i, recs, out);
    } else {
      OneRecord(insns, labels, i);
      PlainEncoded(insns[i], labels, sizes, i, recs, out);
    }
  }

  lemma PlainEncoded(insn: Insn, labels: map<Label, int>, sizes: seq<nat>, i: nat, recs: seq<Rec>, out: seq<u8>)
    requires Carries(out, recs)
    requires i < |sizes| && Forward(insn, labels, i, |sizes|) && Bound(insn, labels, |sizes|)
    requires IsRecordOf(insn, labels, sizes, i, recs)
    ensures Encoded(out, insn, labels, sizes, i)
  {
    var p := Pos(sizes, i);
    CarriedAs(out, recs, p, recs[p].code, 0, 0, recs[p].k);
  }
}
