/** Branch relaxation: choosing which conditional jumps stay short and which
    become a hop plus JA trampolines. */
module Relaxation {
  import opened Words
  import opened Bpf

  // -------------------------------------------------------------- positions

  /** The packed position of instruction i when instruction j takes sizes[j] records. */
  function Pos(sizes: seq<nat>, i: nat): nat
    requires i <= |sizes|
  {
    if i == 0 then 0 else Pos(sizes, i - 1) + sizes[i - 1]
  }

  /** `_positions`: all start positions, and the position past the end. */
  method Positions(sizes: seq<nat>) returns (positions: seq<nat>)
    ensures |positions| == |sizes| + 1
    ensures forall i {:trigger positions[i]} | 0 <= i <= |sizes| :: positions[i] == Pos(sizes, i)
  {
    var pos := new nat[|sizes| + 1](_ => 0);
    for i := 1 to |sizes| + 1
      invariant forall k {:trigger pos[k]} | 0 <= k < i :: pos[k] == Pos(sizes, k)
    {
      pos[i] := pos[i - 1] + sizes[i - 1];
    }
    positions := pos[..];
  }

  ghost predicate Positive(sizes: seq<nat>) {
    forall i | 0 <= i < |sizes| :: sizes[i] >= 1
  }

  ghost predicate Below(a: seq<nat>, b: seq<nat>) {
    |a| == |b| && forall i | 0 <= i < |a| :: a[i] <= b[i]
  }

  lemma {:induction false} PosMonotone(sizes: seq<nat>, i: nat, j: nat)
    requires i <= j <= |sizes|
    ensures Pos(sizes, i) <= Pos(sizes, j)
    decreases j
  {
    if i < j { PosMonotone(sizes, i, j - 1); }
  }

  /** Later instructions lie at least as many records later. */
  lemma {:induction false} PosAdvances(sizes: seq<nat>, i: nat, j: nat)
    requires Positive(sizes) && i <= j <= |sizes|
    ensures Pos(sizes, j) - Pos(sizes, i) >= j - i
    decreases j
  {
    if i < j { PosAdvances(sizes, i, j - 1); }
  }

  /** Growing instructions never brings two positions closer together. */
  lemma {:induction false} GapMonotone(a: seq<nat>, b: seq<nat>, i: nat, j: nat)
    requires Below(a, b) && i <= j <= |a|
    ensures Pos(a, j) - Pos(a, i) <= Pos(b, j) - Pos(b, i)
    decreases j
  {
    if i < j { GapMonotone(a, b, i, j - 1); }
  }

  // ---------------------------------------------------------------- layouts

  /** Every named label is bound to an instruction index or the end. */
  predicate LabelsValid(insns: seq<Insn>, labels: map<Label, int>) {
    forall i | 0 <= i < |insns| :: Bound(insns[i], labels, |insns|)
  }

  predicate Bound(insn: Insn, labels: map<Label, int>, n: nat) {
    match insn
    case Jump(_, _, jt, jf) => BoundTarget(jt, labels, n) && BoundTarget(jf, labels, n)
    case Ja(t) => BoundTarget(Some(t), labels, n)
    case _ => true
  }

  predicate BoundTarget(t: Option<Label>, labels: map<Label, int>, n: nat) {
    t.Some? ==> t.value in labels && 0 <= labels[t.value] <= n
  }

  /** Number of records skipped by a jump from instruction i to label t. */
  function Distance(labels: map<Label, int>, sizes: seq<nat>, t: Label, i: nat): int
    requires t in labels && 0 <= labels[t] <= |sizes| && i <= |sizes|
  {
    Pos(sizes, labels[t]) - Pos(sizes, i) - 1
  }

  /** Some target of conditional jump i is beyond an 8-bit offset. */
  predicate Far(insns: seq<Insn>, labels: map<Label, int>, sizes: seq<nat>, i: nat)
    requires LabelsValid(insns, labels) && |sizes| == |insns| && i < |insns|
  {
    insns[i].Jump? &&
    assert Bound(insns[i], labels, |insns|);
    FarTarget(insns[i].jt, labels, sizes, i) || FarTarget(insns[i].jf, labels, sizes, i)
  }

  predicate FarTarget(t: Option<Label>, labels: map<Label, int>, sizes: seq<nat>, i: nat)
    requires BoundTarget(t, labels, |sizes|) && i <= |sizes|
  {
    t.Some? && Distance(labels, sizes, t.value, i) > MAX_COND_JUMP
  }

  /** `_expanded_size`. */
  function ExpandedSize(insn: Insn): nat {
    if insn.Jump? && insn.jt.Some? && insn.jf.Some? then 3 else 2
  }

  /** A size an instruction may be given at all. */
  predicate SizeAllowed(insn: Insn, size: nat) {
    size == 1 || (insn.Jump? && size == ExpandedSize(insn))
  }

  predicate Sized(insns: seq<Insn>, sizes: seq<nat>) {
    |sizes| == |insns| && forall i | 0 <= i < |insns| :: SizeAllowed(insns[i], sizes[i])
  }

  /** The offset to t, if there is one, is within the 8 bits of a record's jt or jf. */
  predicate InByte(t: Option<Label>, labels: map<Label, int>, sizes: seq<nat>, i: nat)
    requires BoundTarget(t, labels, |sizes|) && i <= |sizes|
  {
    t.Some? ==> Pos(sizes, labels[t.value]) - Pos(sizes, i) - 1 < 0x100
  }

  /** Jump i needs no trampoline: both its offsets are within 8 bits. */
  predicate Near(insns: seq<Insn>, labels: map<Label, int>, sizes: seq<nat>, i: nat)
    requires LabelsValid(insns, labels) && |sizes| == |insns| && i < |insns| && insns[i].Jump?
  {
    assert Bound(insns[i], labels, |insns|);
    InByte(insns[i].jt, labels, sizes, i) && InByte(insns[i].jf, labels, sizes, i)
  }

  /** A layout the encoding can express: every jump left short reaches its targets. */
  ghost predicate Legal(insns: seq<Insn>, labels: map<Label, int>, sizes: seq<nat>)
    requires LabelsValid(insns, labels)
  {
    && Sized(insns, sizes)
    && forall i | 0 <= i < |insns| :: insns[i].Jump? && sizes[i] == 1 ==> Near(insns, labels, sizes, i)
  }

  /** Beyond 255 is exactly not within 8 bits. */
  lemma FarIsNotNear(insns: seq<Insn>, labels: map<Label, int>, sizes: seq<nat>, i: nat)
    requires LabelsValid(insns, labels) && |sizes| == |insns| && i < |insns|
    ensures Far(insns, labels, sizes, i) <==> insns[i].Jump? && !Near(insns, labels, sizes, i)
  {}

  /** In a legal layout every far jump is expanded. */
  lemma LegalExpandsFar(insns: seq<Insn>, labels: map<Label, int>, sizes: seq<nat>, i: nat)
    requires LabelsValid(insns, labels) && Legal(insns, labels, sizes) && i < |insns|
    ensures Far(insns, labels, sizes, i) ==> sizes[i] > 1
  {
    FarIsNotNear(insns, labels, sizes, i);
    assert SizeAllowed(insns[i], sizes[i]);
  }

  /** The least legal layout, pointwise. */
  ghost predicate IsLeast(insns: seq<Insn>, labels: map<Label, int>, sizes: seq<nat>)
    requires LabelsValid(insns, labels)
  {
    && Legal(insns, labels, sizes)
    && forall s | Legal(insns, labels, s) :: Below(sizes, s)
  }

  // ----------------------------------------------------- relaxation as a function

  function Grow(insns: seq<Insn>, labels: map<Label, int>, sizes: seq<nat>, i: nat): nat
    requires LabelsValid(insns, labels) && |sizes| == |insns| && i < |insns|
  {
    if sizes[i] <= 1 && Far(insns, labels, sizes, i) then ExpandedSize(insns[i]) else sizes[i]
  }

  /** One pass over all instructions, all judged by the positions before it. */
  function Pass(insns: seq<Insn>, labels: map<Label, int>, sizes: seq<nat>): (s: seq<nat>)
    requires LabelsValid(insns, labels) && |sizes| == |insns|
    ensures |s| == |insns| && forall i | 0 <= i < |s| :: s[i] == Grow(insns, labels, sizes, i)
  {
    seq(|insns|, i requires 0 <= i < |insns| => Grow(insns, labels, sizes, i))
  }

  /** How many instructions still have one record. */
  function Shorts(sizes: seq<nat>): (c: nat)
    ensures c <= |sizes|
  {
    if sizes == [] then 0
    else Shorts(sizes[1..]) + if sizes[0] <= 1 then 1 else 0
  }

  lemma {:induction false} ShortsShrink(a: seq<nat>, b: seq<nat>)
    requires Below(a, b)
    ensures Shorts(b) <= Shorts(a)
    ensures (exists i | 0 <= i < |a| :: a[i] <= 1 < b[i]) ==> Shorts(b) < Shorts(a)
  {
    if a != [] {
      assert Below(a[1..], b[1..]);
      ShortsShrink(a[1..], b[1..]);
      if i :| 0 <= i < |a| && a[i] <= 1 < b[i] && i > 0 {
        assert a[1..][i - 1] <= 1 < b[1..][i - 1];
      }
    }
  }

  /** A pass that changes anything expands some short instruction. */
  lemma PassProgress(insns: seq<Insn>, labels: map<Label, int>, sizes: seq<nat>)
    requires LabelsValid(insns, labels) && Sized(insns, sizes)
    ensures var next := Pass(insns, labels, sizes);
      Sized(insns, next) && Below(sizes, next) && (next != sizes ==> Shorts(next) < Shorts(sizes))
  {
    var next := Pass(insns, labels, sizes);
    ShortsShrink(sizes, next);
    if next != sizes {
      var i :| 0 <= i < |sizes| && sizes[i] != next[i];
      assert sizes[i] <= 1 < next[i];
    }
  }

  /** Passes until nothing changes. */
  function Relax(insns: seq<Insn>, labels: map<Label, int>, sizes: seq<nat>): (s: seq<nat>)
    requires LabelsValid(insns, labels) && Sized(insns, sizes)
    ensures Sized(insns, s)
    decreases Shorts(sizes)
  {
    var next := Pass(insns, labels, sizes);
    PassProgress(insns, labels, sizes);
    if next == sizes then sizes else Relax(insns, labels, next)
  }

  function AllShort(n: nat): (s: seq<nat>)
    ensures |s| == n && forall i | 0 <= i < n :: s[i] == 1
  {
    seq(n, _ => 1)
  }

  /** The sizes the assembler uses. */
  function LeastSizes(insns: seq<Insn>, labels: map<Label, int>): (s: seq<nat>)
    requires LabelsValid(insns, labels)
    ensures Sized(insns, s)
  {
    Relax(insns, labels, AllShort(|insns|))
  }

  // ---------------------------------------------------------- it is the least

  /** A jump that is far stays far in every larger layout. */
  lemma FarMonotone(insns: seq<Insn>, labels: map<Label, int>, a: seq<nat>, b: seq<nat>, i: nat)
    requires LabelsValid(insns, labels) && Below(a, b) && |a| == |insns| && i < |insns|
    requires Far(insns, labels, a, i)
    ensures Far(insns, labels, b, i)
  {
    assert Bound(insns[i], labels, |insns|);
    var t := if FarTarget(insns[i].jt, labels, a, i) then insns[i].jt.value else insns[i].jf.value;
    var l := labels[t];
    assert i < l by {
      if l <= i { PosMonotone(a, l, i); }
    }
    GapMonotone(a, b, i, l);
  }

  /** A pass never overshoots a legal layout, even though it judges every jump
      by positions that were computed before the pass began. */
  lemma PassStaysBelow(insns: seq<Insn>, labels: map<Label, int>, sizes: seq<nat>, s: seq<nat>)
    requires LabelsValid(insns, labels) && Sized(insns, sizes)
    requires Legal(insns, labels, s) && Below(sizes, s)
    ensures Below(Pass(insns, labels, sizes), s)
  {
    var next := Pass(insns, labels, sizes);
    forall i | 0 <= i < |insns|
      ensures next[i] <= s[i]
    {
      assert SizeAllowed(insns[i], s[i]);
      if next[i] != sizes[i] {
        FarMonotone(insns, labels, sizes, s, i);
        LegalExpandsFar(insns, labels, s, i);
      }
    }
  }

  lemma {:induction false} RelaxStaysBelow(insns: seq<Insn>, labels: map<Label, int>, sizes: seq<nat>, s: seq<nat>)
    requires LabelsValid(insns, labels) && Sized(insns, sizes)
    requires Legal(insns, labels, s) && Below(sizes, s)
    ensures Below(Relax(insns, labels, sizes), s)
    decreases Shorts(sizes)
  {
    var next := Pass(insns, labels, sizes);
    PassProgress(insns, labels, sizes);
    PassStaysBelow(insns, labels, sizes, s);
    if next != sizes { RelaxStaysBelow(insns, labels, next, s); }
  }

  lemma {:induction false} RelaxIsLegal(insns: seq<Insn>, labels: map<Label, int>, sizes: seq<nat>)
    requires LabelsValid(insns, labels) && Sized(insns, sizes)
    ensures Legal(insns, labels, Relax(insns, labels, sizes))
    decreases Shorts(sizes)
  {
    var next := Pass(insns, labels, sizes);
    PassProgress(insns, labels, sizes);
    if next != sizes {
      RelaxIsLegal(insns, labels, next);
    } else {
      forall i | 0 <= i < |insns| && insns[i].Jump? && sizes[i] == 1
        ensures Near(insns, labels, sizes, i)
      {
        assert next[i] == Grow(insns, labels, sizes, i);
        FarIsNotNear(insns, labels, sizes, i);
      }
    }
  }

  /** Relaxation returns the least legal layout, and there is only one. */
  lemma RelaxationIsLeast(insns: seq<Insn>, labels: map<Label, int>)
    requires LabelsValid(insns, labels)
    ensures IsLeast(insns, labels, LeastSizes(insns, labels))
    ensures forall s | IsLeast(insns, labels, s) :: s == LeastSizes(insns, labels)
  {
    var least := LeastSizes(insns, labels);
    RelaxIsLegal(insns, labels, AllShort(|insns|));
    forall s | Legal(insns, labels, s)
      ensures Below(least, s)
    {
      assert forall i | 0 <= i < |insns| :: SizeAllowed(insns[i], s[i]);
      assert Below(AllShort(|insns|), s);
      RelaxStaysBelow(insns, labels, AllShort(|insns|), s);
    }
    forall s | IsLeast(insns, labels, s)
      ensures s == least
    {
      assert Below(least, s) && Below(s, least);
    }
  }

  /** One record with these jt and jf fields takes jump i to its targets. */
  ghost predicate Hops(insn: Insn, labels: map<Label, int>, sizes: seq<nat>, i: nat, jt: u8, jf: u8)
    requires insn.Jump? && i <= |sizes| && Bound(insn, labels, |sizes|)
  {
    && (insn.jt.Some? ==> Pos(sizes, i) + 1 + jt == Pos(sizes, labels[insn.jt.value]))
    && (insn.jf.Some? ==> Pos(sizes, i) + 1 + jf == Pos(sizes, labels[insn.jf.value]))
  }

  /** Every jump that has one record in this layout can be encoded in one record. */
  ghost predicate OneRecordSuffices(insns: seq<Insn>, labels: map<Label, int>, sizes: seq<nat>)
    requires LabelsValid(insns, labels) && |sizes| == |insns|
  {
    forall i | 0 <= i < |insns| && insns[i].Jump? && sizes[i] == 1 ::
      Bound(insns[i], labels, |insns|) && exists jt: u8, jf: u8 :: Hops(insns[i], labels, sizes, i, jt, jf)
  }

  function ByteOffset(t: Option<Label>, labels: map<Label, int>, sizes: seq<nat>, i: nat): int
    requires BoundTarget(t, labels, |sizes|) && i <= |sizes|
  {
    if t.Some? then Distance(labels, sizes, t.value, i) else 0
  }

  /** For jumps ahead, legal layouts are exactly those: a short jump's offsets
      fit the two 8-bit fields of a record that lands on its targets. */
  lemma LegalIsEncodable(insns: seq<Insn>, labels: map<Label, int>, sizes: seq<nat>)
    requires WellLabelled(insns, labels) && LabelsValid(insns, labels) && Sized(insns, sizes)
    ensures Legal(insns, labels, sizes) <==> OneRecordSuffices(insns, labels, sizes)
  {
    SizedPositive(insns, sizes);
    forall i | 0 <= i < |insns| && insns[i].Jump? && sizes[i] == 1
      ensures Bound(insns[i], labels, |insns|)
      ensures Near(insns, labels, sizes, i) <==> exists jt: u8, jf: u8 :: Hops(insns[i], labels, sizes, i, jt, jf)
    {
      assert Bound(insns[i], labels, |insns|);
      assert Forward(insns[i], labels, i, |insns|);
      NearIsHop(insns, labels, sizes, i);
    }
  }

  lemma NearIsHop(insns: seq<Insn>, labels: map<Label, int>, sizes: seq<nat>, i: nat)
    requires LabelsValid(insns, labels) && |sizes| == |insns| && i < |insns| && insns[i].Jump? && Positive(sizes)
    requires Forward(insns[i], labels, i, |insns|) && Bound(insns[i], labels, |insns|)
    ensures Near(insns, labels, sizes, i) <==> exists jt: u8, jf: u8 :: Hops(insns[i], labels, sizes, i, jt, jf)
  {
    var insn := insns[i];
    if insn.jt.Some? { PosAdvances(sizes, i, labels[insn.jt.value]); }
    if insn.jf.Some? { PosAdvances(sizes, i, labels[insn.jf.value]); }
    if Near(insns, labels, sizes, i) {
      var jt, jf := ByteOffset(insn.jt, labels, sizes, i), ByteOffset(insn.jf, labels, sizes, i);
      assert Hops(insn, labels, sizes, i, jt, jf);
    }
  }

  /** Among all layouts in which every jump left at one record can be encoded in
      one record, relaxation returns the pointwise least. */
  lemma LeastEncodable(insns: seq<Insn>, labels: map<Label, int>, s: seq<nat>)
    requires WellLabelled(insns, labels) && LabelsValid(insns, labels)
    requires Sized(insns, s) && OneRecordSuffices(insns, labels, s)
    ensures OneRecordSuffices(insns, labels, LeastSizes(insns, labels))
    ensures Below(LeastSizes(insns, labels), s)
  {
    RelaxationIsLeast(insns, labels);
    LegalIsEncodable(insns, labels, s);
    LegalIsEncodable(insns, labels, LeastSizes(insns, labels));
  }

  /** Hence no legal layout needs fewer records in total. */
  lemma LeastIsSmallest(insns: seq<Insn>, labels: map<Label, int>, s: seq<nat>)
    requires LabelsValid(insns, labels) && Legal(insns, labels, s)
    ensures Pos(LeastSizes(insns, labels), |insns|) <= Pos(s, |insns|)
  {
    RelaxationIsLeast(insns, labels);
    GapMonotone(LeastSizes(insns, labels), s, 0, |insns|);
  }

  /** The packed length is between one and three records per instruction. */
  lemma {:induction false} PackedLength(insns: seq<Insn>, sizes: seq<nat>, i: nat)
    requires Sized(insns, sizes) && i <= |insns|
    ensures i <= Pos(sizes, i) <= 3 * i
  {
    if i > 0 {
      PackedLength(insns, sizes, i - 1);
      assert SizeAllowed(insns[i - 1], sizes[i - 1]);
    }
  }

  // ------------------------------------------------------------ the algorithm

  /** `_offset`: the encoded offset of a jump from i, None without a target. */
  function Offset(target: Option<Label>, labels: map<Label, int>, pos: seq<nat>, i: nat): Result<Option<nat>>
    requires i < |pos|
    requires target.Some? ==> target.value in labels && 0 <= labels[target.value] < |pos|
  {
    if target.None? then Ok(None)
    else
      var off: int := pos[labels[target.value]] as int - pos[i] as int - 1;
      if off < 0 then Err(BackwardJump) else Ok(Some(off))
  }

  /** `_needs_expansion`: returns early on the first far target. */
  function NeedsExpansion(jump: Insn, labels: map<Label, int>, pos: seq<nat>, i: nat): Result<bool>
    requires jump.Jump? && i < |pos| && Bound(jump, labels, |pos| - 1)
  {
    var t := Offset(jump.jt, labels, pos, i);
    if t.Err? then Err(t.error)
    else if t.value.Some? && t.value.value > MAX_COND_JUMP then Ok(true)
    else
      var f := Offset(jump.jf, labels, pos, i);
      if f.Err? then Err(f.error)
      else Ok(f.value.Some? && f.value.value > MAX_COND_JUMP)
  }

  ghost predicate ArePositions(pos: seq<nat>, sizes: seq<nat>) {
    |pos| == |sizes| + 1 && forall i {:trigger pos[i]} | 0 <= i <= |sizes| :: pos[i] == Pos(sizes, i)
  }

  /** The test decides `Far`, and raises only on a label that is not ahead. */
  lemma NeedsExpansionDecidesFar(insns: seq<Insn>, labels: map<Label, int>, sizes: seq<nat>, pos: seq<nat>, i: nat)
    requires LabelsValid(insns, labels) && Sized(insns, sizes) && ArePositions(pos, sizes)
    requires i < |insns| && insns[i].Jump?
    requires Bound(insns[i], labels, |insns|)
    ensures var r := NeedsExpansion(insns[i], labels, pos, i);
      && (r.Ok? ==> r.value == Far(insns, labels, sizes, i))
      && (r.Ok? ==> r.value == !Near(insns, labels, sizes, i))
      && (r.Err? ==> r.error == BackwardJump && !Forward(insns[i], labels, i, |insns|))
  {
    var Jump(_, _, jt, jf) := insns[i];
    FarIsNotNear(insns, labels, sizes, i);
    SizedPositive(insns, sizes);
    if jt.Some? && i < labels[jt.value] { PosAdvances(sizes, i, labels[jt.value]); }
    if jf.Some? && i < labels[jf.value] { PosAdvances(sizes, i, labels[jf.value]); }
  }

  lemma SizedPositive(insns: seq<Insn>, sizes: seq<nat>)
    requires Sized(insns, sizes)
    ensures Positive(sizes)
  {
    forall i | 0 <= i < |sizes| ensures sizes[i] >= 1 { assert SizeAllowed(insns[i], sizes[i]); }
  }

  /** The inner loop of `_resolve_sizes`: one pass, expanding in place while
      judging every jump by the positions from before the pass. */
  method RunPass(insns: seq<Insn>, labels: map<Label, int>, sizes: array<nat>) returns (changed: Result<bool>)
    requires LabelsValid(insns, labels) && Sized(insns, sizes[..])
    modifies sizes
    ensures changed.Ok? ==> sizes[..] == Pass(insns, labels, old(sizes[..]))
    ensures changed.Ok? ==> changed.value == (sizes[..] != old(sizes[..]))
    ensures changed.Err? ==> changed.error == BackwardJump && !WellLabelled(insns, labels)
  {
    ghost var before := sizes[..];
    var pos := Positions(sizes[..]);
    var any := false;
    for i := 0 to |insns|
      invariant forall k | 0 <= k < i :: sizes[k] == Grow(insns, labels, before, k)
      invariant forall k | i <= k < |insns| :: sizes[k] == before[k]
      invariant any == exists k | 0 <= k < i :: Grow(insns, labels, before, k) != before[k]
    {
      if insns[i].Jump? && sizes[i] <= 1 {
        assert Bound(insns[i], labels, |insns|);
        NeedsExpansionDecidesFar(insns, labels, before, pos, i);
        var needs := NeedsExpansion(insns[i], labels, pos, i);
        if needs.Err? {
          return Err(needs.error);
        }
        if needs.value {
          sizes[i] := ExpandedSize(insns[i]);
          any := true;
        }
      }
    }
    assert sizes[..] == Pass(insns, labels, before);
    changed := Ok(any);
  }

  /** `_resolve_sizes`: at most |insns| + 1 passes always suffice, so the only
      error is a label that does not lie ahead of the jump naming it. */
  method ResolveSizes(insns: seq<Insn>, labels: map<Label, int>) returns (r: Result<seq<nat>>)
    requires LabelsValid(insns, labels)
    ensures r.Ok? ==> r.value == LeastSizes(insns, labels)
    ensures r.Err? ==> r.error == BackwardJump && !WellLabelled(insns, labels)
  {
    var n := |insns|;
    var sizes := new nat[n](_ => 1);
    assert sizes[..] == AllShort(n);
    for pass := 0 to n + 1
      invariant Sized(insns, sizes[..])
      invariant Relax(insns, labels, sizes[..]) == LeastSizes(insns, labels)
      invariant Shorts(sizes[..]) + pass <= n
    {
      PassProgress(insns, labels, sizes[..]);
      var changed := RunPass(insns, labels, sizes);
      if changed.Err? {
        return Err(changed.error);
      }
      if !changed.value {
        return Ok(sizes[..]);
      }
    }
    return Err(NoConvergence);
  }
}
