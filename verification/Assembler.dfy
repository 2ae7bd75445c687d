/** The assembler: label validation, encoding, and exactly when it succeeds. */
module Assembler {
  import opened Words
  import opened Bpf
  import opened Relaxation

  // --------------------------------------------------------------- encoding

  /** `_ja_bytes`: an unconditional jump at record pc. */
  function EmitJa(target: Option<Label>, labels: map<Label, int>, pos: seq<nat>, pc: nat): Result<seq<Rec>>
    requires target.Some? ==> target.value in labels && 0 <= labels[target.value] < |pos|
  {
    if target.None? then Err(NoJaTarget)
    else
      var off: int := pos[labels[target.value]] as int - pc as int - 1;
      if off < 0 || off > U32_MAX then Err(JaOutOfRange)
      else Ok([Rec(BPF_JA, 0, 0, off)])
  }

  /** `_emit_expanded`: a hop over one or two trampolines. */
  function EmitExpanded(jump: Insn, labels: map<Label, int>, pos: seq<nat>, i: nat): Result<seq<Rec>>
    requires jump.Jump? && i < |pos| && Bound(jump, labels, |pos| - 1)
  {
    if jump.jt.None? then
      var ja := EmitJa(jump.jf, labels, pos, pos[i] + 1);
      if ja.Err? then ja else Ok([Rec(jump.op.Code(), 1, 0, jump.k)] + ja.value)
    else
      var hop := Rec(jump.op.Code(), 0, 1, jump.k);
      var jt := EmitJa(jump.jt, labels, pos, pos[i] + 1);
      if jt.Err? then jt
      else if jump.jf.None? then Ok([hop] + jt.value)
      else
        var jf := EmitJa(jump.jf, labels, pos, pos[i] + 2);
        if jf.Err? then jf else Ok([hop] + jt.value + jf.value)
  }

  /** `_emit`: the records of instruction i, given its size. */
  function Emit(insn: Insn, labels: map<Label, int>, pos: seq<nat>, i: nat, size: nat): Result<seq<Rec>>
    requires i < |pos| && Bound(insn, labels, |pos| - 1)
  {
    match insn
    case Load(k) => Ok([Rec(BPF_LD_ABS_W, 0, 0, k)])
    case And(k) => Ok([Rec(BPF_ALU_AND_K, 0, 0, k)])
    case Ret(k) => Ok([Rec(BPF_RET_K, 0, 0, k)])
    case Ja(t) =>
      var off := Offset(Some(t), labels, pos, i);
      if off.Err? then Err(off.error)
      else if off.value.None? || off.value.value > U32_MAX then Err(JaOutOfRange)
      else Ok([Rec(BPF_JA, 0, 0, off.value.value)])
    case Jump(op, k, jt, jf) =>
      var t := Offset(jt, labels, pos, i);
      if t.Err? then Err(t.error) else
      var f := Offset(jf, labels, pos, i);
      if f.Err? then Err(f.error)
      else if size == 1 then
        if TooFar(t.value) || TooFar(f.value) then Err(CondOutOfRange)
        else Ok([Rec(op.Code(), OrZero(t.value), OrZero(f.value), k)])
      else EmitExpanded(insn, labels, pos, i)
  }

  predicate TooFar(off: Option<nat>) { off.Some? && off.value > MAX_COND_JUMP }

  function OrZero(off: Option<nat>): nat { if off.Some? then off.value else 0 }

  // ------------------------------------------------- when encoding succeeds

  /** The JA record for label t at record pc reaches its target in 32 bits. */
  predicate Reaches(t: Option<Label>, labels: map<Label, int>, sizes: seq<nat>, pc: nat)
    requires BoundTarget(t, labels, |sizes|)
  {
    t.Some? ==> Pos(sizes, labels[t.value]) - pc - 1 <= U32_MAX
  }

  /** Every JA record of instruction i, trampolines included, fits 32 bits. */
  predicate JaFits(insns: seq<Insn>, labels: map<Label, int>, sizes: seq<nat>, i: nat)
    requires LabelsValid(insns, labels) && |sizes| == |insns| && i < |insns|
  {
    assert Bound(insns[i], labels, |insns|);
    match insns[i]
    case Ja(t) => Reaches(Some(t), labels, sizes, Pos(sizes, i))
    case Jump(_, _, jt, jf) =>
      sizes[i] > 1 ==>
        && Reaches(jt, labels, sizes, Pos(sizes, i) + 1)
        && Reaches(jf, labels, sizes, Pos(sizes, i) + if jt.Some? then 2 else 1)
    case _ => true
  }

  /** The programs `assemble` accepts. That labels are valid follows from their
      lying ahead; it is listed because the layout is defined only then. */
  predicate Assemblable(insns: seq<Insn>, labels: map<Label, int>) {
    && WellLabelled(insns, labels)
    && LabelsValid(insns, labels)
    && forall i | 0 <= i < |insns| :: JaFits(insns, labels, LeastSizes(insns, labels), i)
  }

  lemma WellLabelledIsValid(insns: seq<Insn>, labels: map<Label, int>)
    requires WellLabelled(insns, labels)
    ensures LabelsValid(insns, labels)
  {
    forall i | 0 <= i < |insns| ensures Bound(insns[i], labels, |insns|) {
      assert Forward(insns[i], labels, i, |insns|);
    }
  }

  /** A program that packs into at most 2^32 records has no JA problem, so it is
      accepted exactly when its labels all lie ahead. */
  lemma SmallIsAssemblable(insns: seq<Insn>, labels: map<Label, int>)
    requires LabelsValid(insns, labels)
    requires Pos(LeastSizes(insns, labels), |insns|) <= W32
    ensures Assemblable(insns, labels) <==> WellLabelled(insns, labels)
  {
    var sizes := LeastSizes(insns, labels);
    forall i | 0 <= i < |insns|
      ensures JaFits(insns, labels, sizes, i)
    {
      assert Bound(insns[i], labels, |insns|);
      SmallReaches(insns, labels, sizes, i);
    }
  }

  /** In particular one of at most 2^32 / 3 instructions. */
  lemma ShortIsAssemblable(insns: seq<Insn>, labels: map<Label, int>)
    requires 3 * |insns| <= W32
    ensures Assemblable(insns, labels) <==> WellLabelled(insns, labels)
  {
    if WellLabelled(insns, labels) {
      WellLabelledIsValid(insns, labels);
      PackedLength(insns, LeastSizes(insns, labels), |insns|);
      SmallIsAssemblable(insns, labels);
    }
  }

  lemma SmallReaches(insns: seq<Insn>, labels: map<Label, int>, sizes: seq<nat>, i: nat)
    requires LabelsValid(insns, labels) && |sizes| == |insns| && i < |insns|
    requires Bound(insns[i], labels, |insns|) && Pos(sizes, |insns|) <= W32
    ensures JaFits(insns, labels, sizes, i)
  {
    match insns[i]
    case Ja(t) => PosMonotone(sizes, labels[t], |insns|);
    case Jump(_, _, jt, jf) =>
      if jt.Some? { PosMonotone(sizes, labels[jt.value], |insns|); }
      if jf.Some? { PosMonotone(sizes, labels[jf.value], |insns|); }
    case _ =>
  }

  ghost predicate EmitSucceeds(insns: seq<Insn>, labels: map<Label, int>, sizes: seq<nat>, i: nat)
    requires LabelsValid(insns, labels) && |sizes| == |insns| && i < |insns|
  {
    Forward(insns[i], labels, i, |insns|) && JaFits(insns, labels, sizes, i)
  }

  /** A target is ahead in records exactly when it is ahead in instructions. */
  lemma AheadInRecords(t: Option<Label>, labels: map<Label, int>, sizes: seq<nat>, i: nat)
    requires Positive(sizes) && i < |sizes| && BoundTarget(t, labels, |sizes|)
    ensures t.Some? && i < labels[t.value] ==> Pos(sizes, labels[t.value]) >= Pos(sizes, i) + sizes[i]
    ensures t.Some? && labels[t.value] <= i ==> Pos(sizes, labels[t.value]) <= Pos(sizes, i)
  {
    if t.Some? {
      if i < labels[t.value] { PosMonotone(sizes, i + 1, labels[t.value]); }
      else { PosMonotone(sizes, labels[t.value], i); }
    }
  }

  ghost predicate HasTarget(insn: Insn) {
    insn.Jump? && (insn.jt.Some? || insn.jf.Some?)
  }

  /** The offset of the JA record at record pc for label t, if there is one, is not negative. */
  predicate NotBehind(t: Option<Label>, labels: map<Label, int>, sizes: seq<nat>, pc: nat)
    requires BoundTarget(t, labels, |sizes|)
  {
    t.Some? ==> Pos(sizes, labels[t.value]) - pc - 1 >= 0
  }

  /** If i is an expanded forward jump, none of its trampolines points backwards. */
  predicate TrampolinesAhead(insn: Insn, labels: map<Label, int>, sizes: seq<nat>, i: nat)
    requires i < |sizes| && Bound(insn, labels, |sizes|)
  {
    insn.Jump? && sizes[i] > 1 && Forward(insn, labels, i, |sizes|) ==>
      && NotBehind(insn.jt, labels, sizes, Pos(sizes, i) + 1)
      && NotBehind(insn.jf, labels, sizes, Pos(sizes, i) + if insn.jt.Some? then 2 else 1)
  }

  lemma ForwardTrampolines(insns: seq<Insn>, labels: map<Label, int>, sizes: seq<nat>, i: nat)
    requires Sized(insns, sizes) && i < |insns| && Bound(insns[i], labels, |insns|)
    ensures TrampolinesAhead(insns[i], labels, sizes, i)
  {
    assert SizeAllowed(insns[i], sizes[i]);
    SizedPositive(insns, sizes);
    if insns[i].Jump? {
      AheadInRecords(insns[i].jt, labels, sizes, i);
      AheadInRecords(insns[i].jf, labels, sizes, i);
    }
  }

  /** Encoding one instruction of a legal layout succeeds exactly when its
      labels are ahead and its JA records fit. A short jump is never out of
      range, no trampoline lacks a target, and those of a forward jump never
      have a negative offset, so a JA is out of range only by overflowing. */
  lemma EmitOutcome(insns: seq<Insn>, labels: map<Label, int>, sizes: seq<nat>, pos: seq<nat>, i: nat)
    requires LabelsValid(insns, labels) && Sized(insns, sizes) && ArePositions(pos, sizes)
    requires i < |insns| && Bound(insns[i], labels, |insns|)
    requires sizes[i] > 1 ==> HasTarget(insns[i])
    requires Far(insns, labels, sizes, i) ==> sizes[i] > 1
    ensures var r := Emit(insns[i], labels, pos, i, sizes[i]);
      && (r.Ok? <==> EmitSucceeds(insns, labels, sizes, i))
      && (r.Ok? ==> |r.value| == sizes[i])
      && (r.Err? ==> r.error == JaOutOfRange || r.error == BackwardJump)
      && (r.Err? && r.error == BackwardJump ==> !Forward(insns[i], labels, i, |insns|))
      && (r.Err? && r.error == JaOutOfRange ==>
            Forward(insns[i], labels, i, |insns|) && !JaFits(insns, labels, sizes, i))
    ensures TrampolinesAhead(insns[i], labels, sizes, i)
  {
    ForwardTrampolines(insns, labels, sizes, i);
    assert SizeAllowed(insns[i], sizes[i]);
    SizedPositive(insns, sizes);
    match insns[i]
    case Jump(op, k, jt, jf) =>
      AheadInRecords(jt, labels, sizes, i);
      AheadInRecords(jf, labels, sizes, i);
    case Ja(t) => AheadInRecords(Some(t), labels, sizes, i);
    case _ =>
  }

  // ------------------------------------------------------ the packed program

  function PosSeq(sizes: seq<nat>): (pos: seq<nat>)
    ensures ArePositions(pos, sizes)
  {
    seq(|sizes| + 1, i requires 0 <= i <= |sizes| => Pos(sizes, i))
  }

  /** The records of instruction i, or none where it cannot be encoded. */
  ghost function Piece(insns: seq<Insn>, labels: map<Label, int>, sizes: seq<nat>, i: nat): seq<Rec>
    requires LabelsValid(insns, labels) && |sizes| == |insns| && i < |insns|
  {
    assert Bound(insns[i], labels, |insns|);
    var r := Emit(insns[i], labels, PosSeq(sizes), i, sizes[i]);
    if r.Ok? then r.value else []
  }

  ghost function Pieces(insns: seq<Insn>, labels: map<Label, int>, sizes: seq<nat>): (p: seq<seq<Rec>>)
    requires LabelsValid(insns, labels) && |sizes| == |insns|
    ensures |p| == |insns| && forall i | 0 <= i < |p| :: p[i] == Piece(insns, labels, sizes, i)
  {
    seq(|insns|, i requires 0 <= i < |insns| => Piece(insns, labels, sizes, i))
  }

  /** The first k pieces, one after the other. */
  ghost function Concat(pieces: seq<seq<Rec>>, k: nat): seq<Rec>
    requires k <= |pieces|
  {
    if k == 0 then [] else Concat(pieces, k - 1) + pieces[k - 1]
  }

  ghost predicate Fills(pieces: seq<seq<Rec>>, sizes: seq<nat>) {
    |pieces| == |sizes| && forall i | 0 <= i < |sizes| :: |pieces[i]| == sizes[i]
  }

  lemma {:induction false} ConcatLength(pieces: seq<seq<Rec>>, sizes: seq<nat>, k: nat)
    requires Fills(pieces, sizes) && k <= |sizes|
    ensures |Concat(pieces, k)| == Pos(sizes, k)
  {
    if k > 0 { ConcatLength(pieces, sizes, k - 1); }
  }

  /** The records of a piece sit at position p of recs. */
  ghost predicate Placed(recs: seq<Rec>, p: nat, piece: seq<Rec>) {
    p + |piece| <= |recs| && forall d | 0 <= d < |piece| :: recs[p + d] == piece[d]
  }

  /** Piece i starts at record Pos(sizes, i). */
  lemma {:induction false} ConcatAt(pieces: seq<seq<Rec>>, sizes: seq<nat>, i: nat, k: nat)
    requires Fills(pieces, sizes) && i < k <= |sizes|
    ensures Placed(Concat(pieces, k), Pos(sizes, i), pieces[i])
  {
    if i < k - 1 {
      ConcatAt(pieces, sizes, i, k - 1);
    } else {
      ConcatLength(pieces, sizes, i);
    }
  }

  /** Packing piece after piece packs the concatenation. */
  lemma ConcatPacks(pieces: seq<seq<Rec>>, k: nat)
    requires k < |pieces|
    ensures PackAll(Concat(pieces, k + 1)) == PackAll(Concat(pieces, k)) + PackAll(pieces[k])
  {
    PackAllConcat(Concat(pieces, k), pieces[k]);
  }

  /** The assembled program as records. */
  ghost function Image(insns: seq<Insn>, labels: map<Label, int>): seq<Rec>
    requires LabelsValid(insns, labels)
  {
    Concat(Pieces(insns, labels, LeastSizes(insns, labels)), |insns|)
  }

  /** In an accepted program instruction i is encoded successfully, starts at
      record Pos(sizes, i) and occupies exactly its sizes[i] records. */
  lemma ImageAt(insns: seq<Insn>, labels: map<Label, int>, i: nat)
    requires Assemblable(insns, labels) && i < |insns| && Bound(insns[i], labels, |insns|)
    ensures var sizes := LeastSizes(insns, labels);
      var r := Emit(insns[i], labels, PosSeq(sizes), i, sizes[i]);
      r.Ok? && |r.value| == sizes[i] && Placed(Image(insns, labels), Pos(sizes, i), r.value)
  {
    var sizes := LeastSizes(insns, labels);
    PiecesFill(insns, labels);
    PieceOk(insns, labels, i);
    ConcatAt(Pieces(insns, labels, sizes), sizes, i, |insns|);
  }

  lemma PieceOk(insns: seq<Insn>, labels: map<Label, int>, i: nat)
    requires Assemblable(insns, labels) && i < |insns| && Bound(insns[i], labels, |insns|)
    ensures var sizes := LeastSizes(insns, labels);
      var r := Emit(insns[i], labels, PosSeq(sizes), i, sizes[i]);
      r.Ok? && |r.value| == sizes[i]
  {
    var sizes := LeastSizes(insns, labels);
    RelaxationIsLeast(insns, labels);
    assert Legal(insns, labels, sizes);
    LegalExpandsFar(insns, labels, sizes, i);
    ExpandedHasTarget(insns, labels, i);
    assert JaFits(insns, labels, sizes, i);
    assert Forward(insns[i], labels, i, |insns|);
    EmitOutcome(insns, labels, sizes, PosSeq(sizes), i);
  }

  lemma PiecesFill(insns: seq<Insn>, labels: map<Label, int>)
    requires Assemblable(insns, labels)
    ensures Fills(Pieces(insns, labels, LeastSizes(insns, labels)), LeastSizes(insns, labels))
  {
    var sizes := LeastSizes(insns, labels);
    forall i | 0 <= i < |insns|
      ensures |Pieces(insns, labels, sizes)[i]| == sizes[i]
    {
      assert Bound(insns[i], labels, |insns|);
      PieceOk(insns, labels, i);
    }
  }

  /** The packed length: the least layout's, between n and 3n records. */
  lemma ImageLength(insns: seq<Insn>, labels: map<Label, int>)
    requires Assemblable(insns, labels)
    ensures |Image(insns, labels)| == Pos(LeastSizes(insns, labels), |insns|)
    ensures |insns| <= |Image(insns, labels)| <= 3 * |insns|
  {
    var sizes := LeastSizes(insns, labels);
    PiecesFill(insns, labels);
    ConcatLength(Pieces(insns, labels, sizes), sizes, |insns|);
    PackedLength(insns, sizes, |insns|);
  }

  /** Only jumps that name a label are ever expanded. */
  lemma ExpandedHasTarget(insns: seq<Insn>, labels: map<Label, int>, i: nat)
    requires LabelsValid(insns, labels) && i < |insns|
    ensures LeastSizes(insns, labels)[i] > 1 ==> HasTarget(insns[i])
  {
    if !HasTarget(insns[i]) { RelaxKeepsTargetless(insns, labels, AllShort(|insns|), i); }
  }

  lemma {:induction false} RelaxKeepsTargetless(insns: seq<Insn>, labels: map<Label, int>, sizes: seq<nat>, i: nat)
    requires LabelsValid(insns, labels) && Sized(insns, sizes) && i < |insns|
    requires !HasTarget(insns[i]) && sizes[i] == 1
    ensures Relax(insns, labels, sizes)[i] == 1
    decreases Shorts(sizes)
  {
    var next := Pass(insns, labels, sizes);
    PassProgress(insns, labels, sizes);
    if next != sizes { RelaxKeepsTargetless(insns, labels, next, i); }
  }

  // ------------------------------------------------------------ the algorithm

  /** `_validate_labels`. */
  method ValidateLabels(insns: seq<Insn>, labels: map<Label, int>) returns (r: Result<()>)
    ensures r.Ok? <==> LabelsValid(insns, labels)
    ensures r.Err? ==> r.error == UndefinedLabel || r.error == LabelOutOfRange
  {
    for i := 0 to |insns|
      invariant forall k | 0 <= k < i :: Bound(insns[k], labels, |insns|)
    {
      var targets := Targets(insns[i]);
      for j := 0 to |targets|
        invariant forall k | 0 <= k < j :: BoundTarget(Some(targets[k]), labels, |insns|)
      {
        BoundIsAllTargets(insns[i], labels, |insns|);
        if targets[j] !in labels {
          return Err(UndefinedLabel);
        }
        if !(0 <= labels[targets[j]] <= |insns|) {
          return Err(LabelOutOfRange);
        }
      }
      BoundIsAllTargets(insns[i], labels, |insns|);
    }
    r := Ok(());
  }

  lemma BoundIsAllTargets(insn: Insn, labels: map<Label, int>, n: nat)
    ensures Bound(insn, labels, n) <==>
            forall j | 0 <= j < |Targets(insn)| :: BoundTarget(Some(Targets(insn)[j]), labels, n)
  {
    if insn.Jump? && insn.jt.Some? { assert Targets(insn)[0] == insn.jt.value; }
    if insn.Jump? && insn.jf.Some? { assert Targets(insn)[|Targets(insn)| - 1] == insn.jf.value; }
    if insn.Ja? { assert Targets(insn)[0] == insn.target; }
  }

  /** `assemble`: succeeds exactly on the assemblable programs, and then returns
      the packed image. */
  method Assemble(insns: seq<Insn>, labels: map<Label, int>) returns (r: Result<seq<u8>>)
    ensures r.Ok? <==> Assemblable(insns, labels)
    ensures r.Ok? ==> r.value == PackAll(Image(insns, labels))
    ensures 3 * |insns| <= W32 ==> (r.Ok? <==> WellLabelled(insns, labels))
    ensures r.Err? ==> r.error in {UndefinedLabel, LabelOutOfRange, BackwardJump, JaOutOfRange}
    ensures r.Err? && r.error == BackwardJump ==> !WellLabelled(insns, labels)
    ensures r.Err? && r.error in {UndefinedLabel, LabelOutOfRange} <==> !LabelsValid(insns, labels)
    ensures r.Err? && r.error == JaOutOfRange ==>
      (LabelsValid(insns, labels) && exists i | 0 <= i < |insns| :: !JaFits(insns, labels, LeastSizes(insns, labels), i))
  {
    if 3 * |insns| <= W32 { ShortIsAssemblable(insns, labels); }
    var valid := ValidateLabels(insns, labels);
    if valid.Err? {
      return Err(valid.error);
    }
    var resolved := ResolveSizes(insns, labels);
    if resolved.Err? {
      return Err(resolved.error);
    }
    LeastEncodesExactlyWhen(insns, labels);
    r := EmitAll(insns, labels, resolved.value);
  }

  /** All instructions can be encoded in this layout. */
  ghost predicate AllEmit(insns: seq<Insn>, labels: map<Label, int>, sizes: seq<nat>, k: nat)
    requires LabelsValid(insns, labels) && |sizes| == |insns| && k <= |insns|
  {
    forall i | 0 <= i < k :: EmitSucceeds(insns, labels, sizes, i)
  }

  /** A legal layout in which every expanded jump names a label. */
  ghost predicate Tight(insns: seq<Insn>, labels: map<Label, int>, sizes: seq<nat>)
    requires LabelsValid(insns, labels)
  {
    && Legal(insns, labels, sizes)
    && forall i | 0 <= i < |insns| :: sizes[i] > 1 ==> HasTarget(insns[i])
  }

  lemma LeastEncodesExactlyWhen(insns: seq<Insn>, labels: map<Label, int>)
    requires LabelsValid(insns, labels)
    ensures var sizes := LeastSizes(insns, labels);
      Tight(insns, labels, sizes) && (AllEmit(insns, labels, sizes, |insns|) <==> Assemblable(insns, labels))
  {
    var sizes := LeastSizes(insns, labels);
    RelaxationIsLeast(insns, labels);
    forall i | 0 <= i < |insns| ensures sizes[i] > 1 ==> HasTarget(insns[i]) {
      ExpandedHasTarget(insns, labels, i);
    }
    forall i | 0 <= i < |insns|
      ensures EmitSucceeds(insns, labels, sizes, i) <==>
              Forward(insns[i], labels, i, |insns|) && JaFits(insns, labels, sizes, i)
    {}
  }

  /** The emission loop of `assemble`. */
  method EmitAll(insns: seq<Insn>, labels: map<Label, int>, sizes: seq<nat>) returns (r: Result<seq<u8>>)
    requires LabelsValid(insns, labels) && Tight(insns, labels, sizes)
    ensures r.Ok? <==> AllEmit(insns, labels, sizes, |insns|)
    ensures r.Ok? ==> r.value == PackAll(Concat(Pieces(insns, labels, sizes), |insns|))
    ensures r.Err? ==> r.error in {BackwardJump, JaOutOfRange}
    ensures r.Err? && r.error == BackwardJump ==> !WellLabelled(insns, labels)
    ensures r.Err? && r.error == JaOutOfRange ==> exists i | 0 <= i < |insns| :: !JaFits(insns, labels, sizes, i)
  {
    var pos := Positions(sizes);
    ghost var pieces := Pieces(insns, labels, sizes);
    var out := [];
    for i := 0 to |insns|
      invariant AllEmit(insns, labels, sizes, i)
      invariant out == PackAll(Concat(pieces, i))
    {
      var recs := EmitOne(insns, labels, sizes, pos, i);
      if recs.Err? {
        return Err(recs.error);
      }
      ConcatPacks(pieces, i);
      out := out + PackAll(recs.value);
    }
    r := Ok(out);
  }

  /** One iteration of that loop. */
  method EmitOne(insns: seq<Insn>, labels: map<Label, int>, sizes: seq<nat>, pos: seq<nat>, i: nat)
    returns (r: Result<seq<Rec>>)
    requires LabelsValid(insns, labels) && Tight(insns, labels, sizes) && ArePositions(pos, sizes)
    requires i < |insns|
    ensures r.Ok? <==> EmitSucceeds(insns, labels, sizes, i)
    ensures r.Ok? ==> r.value == Pieces(insns, labels, sizes)[i]
    ensures r.Err? ==> r.error == JaOutOfRange || r.error == BackwardJump
    ensures r.Err? && r.error == BackwardJump ==> !WellLabelled(insns, labels)
    ensures r.Err? && r.error == JaOutOfRange ==> !JaFits(insns, labels, sizes, i)
  {
    assert Bound(insns[i], labels, |insns|);
    assert pos == PosSeq(sizes);
    LegalExpandsFar(insns, labels, sizes, i);
    EmitOutcome(insns, labels, sizes, pos, i);
    r := Emit(insns[i], labels, pos, i, sizes[i]);
    assert Pieces(insns, labels, sizes)[i] == Piece(insns, labels, sizes, i);
  }
}
