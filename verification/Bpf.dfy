/** Classic BPF: symbolic instructions, packed `sock_filter` records, and the
    two interpreters that give them meaning. */
module Bpf {
  import opened Words

  /** Why assembling fails. */
  datatype AsmError =
    | UndefinedLabel
    | LabelOutOfRange
    | BackwardJump
    | JaOutOfRange
    | CondOutOfRange
    | NoJaTarget
    | NoConvergence

  datatype Result<+T> = Ok(value: T) | Err(error: AsmError)

  const BPF_LD_ABS_W: u16 := 0x20
  const BPF_ALU_AND_K: u16 := 0x54
  const BPF_RET_K: u16 := 0x06
  const BPF_JA: u16 := 0x05
  const BPF_JEQ: u16 := 0x15
  const BPF_JGT: u16 := 0x25
  const BPF_JGEQ: u16 := 0x35
  const BPF_JSET: u16 := 0x45

  const MAX_COND_JUMP := 255

  type Label = string

  datatype JumpOp = JEQ | JGT | JGEQ | JSET {
    function Code(): u16 {
      match this
      case JEQ => BPF_JEQ
      case JGT => BPF_JGT
      case JGEQ => BPF_JGEQ
      case JSET => BPF_JSET
    }

    /** The comparison of the accumulator with the operand. */
    predicate Test(acc: u32, k: u32) {
      match this
      case JEQ => acc == k
      case JGT => acc > k
      case JGEQ => acc >= k
      case JSET => BitAnd(acc, k) != 0
    }
  }

  /** A symbolic instruction; a label of None falls through. */
  datatype Insn =
    | Load(k: u32)
    | And(k: u32)
    | Jump(op: JumpOp, k: u32, jt: Option<Label>, jf: Option<Label>)
    | Ja(target: Label)
    | Ret(k: u32)

  /** The labels an instruction names. */
  function Targets(insn: Insn): seq<Label> {
    match insn
    case Jump(_, _, jt, jf) =>
      (if jt.Some? then [jt.value] else []) + (if jf.Some? then [jf.value] else [])
    case Ja(t) => [t]
    case _ => []
  }

  /** A label, if there is one, is bound strictly after i and at most at n. */
  predicate Ahead(t: Option<Label>, labels: map<Label, int>, i: nat, n: nat) {
    t.Some? ==> t.value in labels && i < labels[t.value] <= n
  }

  /** Every label instruction i names is bound, inside the program or just
      past its end, and strictly after i. */
  predicate Forward(insn: Insn, labels: map<Label, int>, i: nat, n: nat) {
    match insn
    case Jump(_, _, jt, jf) => Ahead(jt, labels, i, n) && Ahead(jf, labels, i, n)
    case Ja(t) => Ahead(Some(t), labels, i, n)
    case _ => true
  }

  predicate WellLabelled(insns: seq<Insn>, labels: map<Label, int>) {
    forall i | 0 <= i < |insns| :: Forward(insns[i], labels, i, |insns|)
  }

  // ------------------------------------------------------------ interpreters

  /** How a run ends: with a result, or past the end of the program, or on a
      record with an unknown opcode. */
  datatype Outcome = Returned(result: u32) | PastEnd | BadOpcode

  /** The packet data, as the word loaded at each byte offset. */
  type Loader = nat -> u32

  /** Runs the symbolic program from instruction pc. */
  function RunSource(insns: seq<Insn>, labels: map<Label, int>, load: Loader, pc: nat, acc: u32): Outcome
    requires WellLabelled(insns, labels)
    decreases |insns| - pc
  {
    if pc >= |insns| then PastEnd
    else
      assert Forward(insns[pc], labels, pc, |insns|);
      match insns[pc]
      case Load(k) => RunSource(insns, labels, load, pc + 1, load(k))
      case And(k) => RunSource(insns, labels, load, pc + 1, BitAnd(acc, k))
      case Jump(op, k, jt, jf) =>
        var target := if op.Test(acc, k) then jt else jf;
        if target.Some? then
          RunSource(insns, labels, load, labels[target.value], acc)
        else
          RunSource(insns, labels, load, pc + 1, acc)
      case Ja(t) => RunSource(insns, labels, load, labels[t], acc)
      case Ret(k) => Returned(k)
  }

  /** One `struct sock_filter` record. */
  datatype Rec = Rec(code: u16, jt: u8, jf: u8, k: u32)

  datatype Step = Goto(pc: nat, acc: u32) | Halt(outcome: Outcome)

  /** Executes one record at position pc, by the opcode numbers of classic BPF:
      ld, and, ja, jeq, jgt, jge, jset, ret. */
  function Exec(r: Rec, load: Loader, pc: nat, acc: u32): (s: Step)
    ensures s.Goto? ==> s.pc > pc
  {
    if r.code == 0x20 then Goto(pc + 1, load(r.k))
    else if r.code == 0x54 then Goto(pc + 1, BitAnd(acc, r.k))
    else if r.code == 0x05 then Goto(pc + 1 + r.k, acc)
    else if r.code == 0x15 then Goto(pc + 1 + (if acc == r.k then r.jt else r.jf), acc)
    else if r.code == 0x25 then Goto(pc + 1 + (if acc > r.k then r.jt else r.jf), acc)
    else if r.code == 0x35 then Goto(pc + 1 + (if acc >= r.k then r.jt else r.jf), acc)
    else if r.code == 0x45 then Goto(pc + 1 + (if BitAnd(acc, r.k) != 0 then r.jt else r.jf), acc)
    else if r.code == 0x06 then Halt(Returned(r.k))
    else Halt(BadOpcode)
  }

  /** Runs a list of records from position pc. */
  function RunRecords(recs: seq<Rec>, load: Loader, pc: nat, acc: u32): Outcome
    decreases |recs| - pc
  {
    if pc >= |recs| then PastEnd
    else
      match Exec(recs[pc], load, pc, acc)
      case Goto(pc', acc') => RunRecords(recs, load, pc', acc')
      case Halt(o) => o
  }

  /** Runs packed bytes from record pc. */
  function RunPacked(prog: seq<u8>, load: Loader, pc: nat, acc: u32): Outcome
    decreases |prog| - 8 * pc
  {
    if 8 * pc + 8 > |prog| then PastEnd
    else
      match Exec(Unpack(prog[8 * pc..8 * pc + 8]), load, pc, acc)
      case Goto(pc', acc') => RunPacked(prog, load, pc', acc')
      case Halt(o) => o
  }

  // ---------------------------------------------------------- record codec

  /** `struct.pack("<HBBI", code, jt, jf, k)`. */
  function Pack(r: Rec): (b: seq<u8>)
    ensures |b| == 8
  {
    ToLE(r.code, 2) + [r.jt, r.jf] + ToLE(r.k, 4)
  }

  /** `struct.unpack("<HBBI", b)`. */
  function Unpack(b: seq<u8>): Rec
    requires |b| == 8
  {
    LEInverse(b[..2]);
    LEInverse(b[4..]);
    Pow256Values();
    Rec(FromLE(b[..2]), b[2], b[3], FromLE(b[4..]))
  }

  /** Byte by byte: a little-endian code, jt, jf, and a little-endian k. */
  lemma PackLayout(r: Rec)
    ensures Pack(r) == [r.code % 0x100, r.code / 0x100, r.jt, r.jf,
                        r.k % 0x100, (r.k / 0x100) % 0x100, (r.k / 0x1_0000) % 0x100, r.k / 0x100_0000]
  {
    LEBytes2(r.code);
    LEBytes4(r.k);
  }

  function PackAll(recs: seq<Rec>): (b: seq<u8>)
    ensures |b| == 8 * |recs|
  {
    if recs == [] then [] else PackAll(recs[..|recs| - 1]) + Pack(recs[|recs| - 1])
  }

  /** A packed record unpacks to itself, and any 8 bytes are some packed record. */
  lemma PackUnpack(r: Rec, b: seq<u8>)
    requires |b| == 8
    ensures Unpack(Pack(r)) == r
    ensures Pack(Unpack(b)) == b
  {
    Pow256Values();
    LERoundTrip(r.code, 2);
    LERoundTrip(r.k, 4);
    assert Pack(r)[..2] == ToLE(r.code, 2);
    assert Pack(r)[4..] == ToLE(r.k, 4);
    LEInverse(b[..2]);
    LEInverse(b[4..]);
    assert b == b[..2] + [b[2], b[3]] + b[4..];
  }

  lemma {:induction false} PackAllConcat(a: seq<Rec>, b: seq<Rec>)
    ensures PackAll(a + b) == PackAll(a) + PackAll(b)
  {
    if b == [] {
      assert a + b == a;
    } else {
      var b', last := b[..|b| - 1], b[|b| - 1];
      assert (a + b)[..|a + b| - 1] == a + b' && (a + b)[|a + b| - 1] == last;
      PackAllConcat(a, b');
      assert PackAll(a) + PackAll(b') + Pack(last) == PackAll(a) + (PackAll(b') + Pack(last));
    }
  }

  /** Bytes 8p to 8p+7 of a packed program are exactly record p. */
  lemma {:induction false} PackAllAt(recs: seq<Rec>, p: nat)
    requires p < |recs|
    ensures PackAll(recs)[8 * p..8 * p + 8] == Pack(recs[p])
    ensures Unpack(PackAll(recs)[8 * p..8 * p + 8]) == recs[p]
  {
    PackUnpack(recs[p], Pack(recs[p]));
    var last := |recs| - 1;
    if p < last {
      PackAllAt(recs[..last], p);
      assert PackAll(recs)[8 * p..8 * p + 8] == PackAll(recs[..last])[8 * p..8 * p + 8];
    } else {
      assert PackAll(recs) == PackAll(recs[..last]) + Pack(recs[last]);
    }
  }

  /** Running the packed bytes is running the records. */
  lemma {:induction false} PackedRunsAsRecords(recs: seq<Rec>, load: Loader, pc: nat, acc: u32)
    ensures RunPacked(PackAll(recs), load, pc, acc) == RunRecords(recs, load, pc, acc)
    decreases |recs| - pc
  {
    if pc < |recs| {
      PackAllAt(recs, pc);
      match Exec(recs[pc], load, pc, acc)
      case Goto(pc', acc') => PackedRunsAsRecords(recs, load, pc', acc');
      case Halt(_) =>
    }
  }
}
