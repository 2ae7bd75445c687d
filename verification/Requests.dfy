/** What a call that adds a rule asks for, read off its literal arguments: which
    calls are acceptable, which syscall they name and which events they match.
    Nothing here coerces, sorts or stores anything. */
module Requests {
  import opened Words
  import opened SeccompData
  import opened Policy

  /** The running ABI: its AUDIT_ARCH value and its syscall names. */
  datatype Platform = Platform(auditArch: u32, names: map<string, u32>)

  datatype Syscall = Named(name: string) | Number(nr: int)

  /** `syscall_nr`; None where it raises. */
  function SyscallNr(p: Platform, s: Syscall): Option<u32> {
    match s
    case Number(nr) => if 0 <= nr <= U32_MAX then Some(nr) else None
    case Named(name) => if name in p.names then Some(p.names[name]) else None
  }

  /** The name is known, or the number fits 32 bits. */
  predicate Known(p: Platform, s: Syscall) {
    (s.Number? ==> 0 <= s.nr < 0x1_0000_0000) && (s.Named? ==> s.name in p.names)
  }

  /** The syscall named is number n. */
  predicate Asks(p: Platform, s: Syscall, n: int) {
    (s.Number? ==> s.nr == n) && (s.Named? ==> s.name in p.names && p.names[s.name] == n)
  }

  lemma SyscallExactly(p: Platform, s: Syscall, n: u32)
    ensures SyscallNr(p, s).Some? <==> Known(p, s)
    ensures SyscallNr(p, s) == Some(n) <==> Asks(p, s, n)
  {}

  /** The relation operator number op states; for 6, that arg and value agree on
      every bit of the mask. */
  ghost predicate Relation(op: int, arg: nat, value: nat, mask: nat) {
    || (op == 0 && arg == value)
    || (op == 1 && arg != value)
    || (op == 2 && arg < value)
    || (op == 3 && arg <= value)
    || (op == 4 && arg > value)
    || (op == 5 && arg >= value)
    || (op == 6 && forall i: nat :: Bit(mask, i) == 1 ==> Bit(arg, i) == Bit(value, i))
  }

  /** An entry's argument index, operator number, value and mask. */
  function Fields(c: ArgCond): (int, int, int, int) {
    match c
    case Ready(cond) => (cond.index, OpNumber(cond.op), cond.value, cond.mask)
    case Triple(index, op, value) => (index, op, value, 0xFFFF_FFFF_FFFF_FFFF)
    case Quad(index, op, value, mask) => (index, op, value, mask)
  }

  ghost predicate EntryOk(c: ArgCond) {
    var (index, op, value, mask) := Fields(c);
    && 0 <= index < 6 && 0 <= op < 7
    && 0 <= value <= 0xFFFF_FFFF_FFFF_FFFF && 0 <= mask <= 0xFFFF_FFFF_FFFF_FFFF
    && (op == 6 ==> BitsInside(value, mask))
    && (op != 6 ==> mask == 0xFFFF_FFFF_FFFF_FFFF)
  }

  ghost predicate EntryHolds(c: ArgCond, e: Event) {
    var (index, op, value, mask) := Fields(c);
    EntryOk(c) && Relation(op, e.args[index], value, mask)
  }

  lemma HoldsExactly(c: Cond, e: Event)
    ensures Holds(c, e) <==> Relation(OpNumber(c.op), e.args[c.index], c.value, c.mask)
  {
    if c.op.MASKED_EQ? {
      InsideExactly(c.value, c.mask);
      MaskedExactly(e.args[c.index], c.mask, c.value);
    }
  }

  lemma MadeExactly(index: int, op: int, value: int, mask: int)
    ensures MakeCond(index, op, value, mask).Some? <==> EntryOk(Quad(index, op, value, mask))
    ensures MakeCond(index, op, value, mask).Some? ==>
      OpNumber(MakeCond(index, op, value, mask).value.op) == op
  {
    if 0 <= value <= U64_MAX && 0 <= mask <= U64_MAX { InsideExactly(value, mask); }
  }

  /** An entry is accepted exactly by the literal ranges and the mask's bits, and
      then states the literal relation on the full 64-bit argument. */
  lemma EntryExactly(c: ArgCond, e: Event)
    ensures Coerce(c).Some? <==> EntryOk(c)
    ensures Coerce(c).Some? ==> (Holds(Coerce(c).value, e) <==> EntryHolds(c, e))
  {
    match c
    case Ready(cond) =>
      InsideExactly(cond.value, cond.mask);
      HoldsExactly(cond, e);
    case Triple(index, op, value) =>
      MadeExactly(index, op, value, U64_MAX);
      if Coerce(c).Some? { HoldsExactly(Coerce(c).value, e); }
    case Quad(index, op, value, mask) =>
      MadeExactly(index, op, value, mask);
      if Coerce(c).Some? { HoldsExactly(Coerce(c).value, e); }
  }

  /** No conditions are always acceptable. */
  ghost predicate ArgsOk(args: Args) {
    match args
    case NoArgs => true
    case Mapping(items) =>
      forall i | 0 <= i < |items| :: 0 <= items[i].0 < 6 && 0 <= items[i].1 <= 0xFFFF_FFFF_FFFF_FFFF
    case Conds(conds) => forall i | 0 <= i < |conds| :: EntryOk(conds[i])
  }

  /** No conditions always hold. */
  ghost predicate ArgsHold(args: Args, e: Event)
    requires ArgsOk(args)
  {
    match args
    case NoArgs => true
    case Mapping(items) => forall i | 0 <= i < |items| :: e.args[items[i].0] == items[i].1
    case Conds(conds) => forall i | 0 <= i < |conds| :: EntryHolds(conds[i], e)
  }

  /** The conditions of a rule are accepted exactly when every entry is acceptable,
      and hold on exactly the events on which every entry does. */
  lemma ArgsExactly(args: Args, e: Event)
    ensures RuleConds(args).Some? <==> ArgsOk(args)
    ensures ArgsOk(args) ==> (AllHold(RuleConds(args).value, e) <==> ArgsHold(args, e))
  {
    match args
    case NoArgs => Unconditional(args, e);
    case Mapping(items) => MappingMeansEqualities(items, e);
    case Conds(conds) =>
      forall i | 0 <= i < |conds|
        ensures Coerce(conds[i]).Some? <==> EntryOk(conds[i])
        ensures Coerce(conds[i]).Some? ==> (Holds(Coerce(conds[i]).value, e) <==> EntryHolds(conds[i], e))
      {
        EntryExactly(conds[i], e);
      }
      CondsMeanConjunction(conds, e);
  }

  /** Absent, an empty mapping and an empty list all give a rule without conditions,
      which matches every event. */
  lemma Unconditional(args: Args, e: Event)
    requires args == NoArgs || args == Mapping([]) || args == Conds([])
    ensures RuleConds(args) == Some([]) && AllHold(RuleConds(args).value, e)
    ensures ArgsOk(args) && ArgsHold(args, e)
  {
    assert Entries(args) == [];
  }
}
