/** What a filter means, with no mention of BPF: conditions on 64-bit
    arguments, rules in insertion order, and the decision for one syscall. */
module Policy {
  import opened Words
  import opened SeccompData

  const KILL_PROCESS: u32 := 0x8000_0000

  datatype CmpOp = EQ | NE | LT | LE | GT | GE | MASKED_EQ

  /** `CmpOp(n)`; None where the enum has no such member. */
  function CmpOpOf(n: int): Option<CmpOp> {
    if 0 <= n < 7 then Some([EQ, NE, LT, LE, GT, GE, MASKED_EQ][n]) else None
  }

  datatype ArgCmp = ArgCmp(index: int, op: CmpOp, value: int, mask: int) {
    /** What `ArgCmp.__post_init__` accepts. */
    predicate Valid() {
      && 0 <= index <= 5
      && 0 <= value <= U64_MAX
      && 0 <= mask <= U64_MAX
      && (if op.MASKED_EQ? then AndNot(value, mask) == 0 else mask == U64_MAX)
    }
  }

  /** A condition that was accepted. */
  type Cond = c: ArgCmp | c.Valid() witness ArgCmp(0, EQ, 0, U64_MAX)

  /** `ArgCmp(index, op, value, mask)`, None where it raises. */
  function MakeCond(index: int, op: int, value: int, mask: int): (c: Option<Cond>) {
    var o := CmpOpOf(op);
    if o.Some? && ArgCmp(index, o.value, value, mask).Valid()
    then Some(ArgCmp(index, o.value, value, mask)) else None
  }

  /** The mask check is exactly "the value lies inside the mask". */
  lemma InsideMask(c: Cond)
    requires c.op.MASKED_EQ?
    ensures BitAnd(c.value, c.mask) == c.value
    ensures BitAnd(Lo(c.value), Lo(c.mask)) == Lo(c.value)
    ensures BitAnd(Hi(c.value), Hi(c.mask)) == Hi(c.value)
  {
    AndPartition(c.value, c.mask);
    AndWords(c.value, c.mask);
  }

  /** The relation a condition states on the full 64-bit argument. */
  predicate Holds(c: Cond, e: Event) {
    var arg := e.args[c.index];
    match c.op
    case EQ => arg == c.value
    case NE => arg != c.value
    case LT => arg < c.value
    case LE => arg <= c.value
    case GT => arg > c.value
    case GE => arg >= c.value
    case MASKED_EQ => BitAnd(arg, c.mask) == c.value
  }

  predicate AllHold(conds: seq<Cond>, e: Event) {
    forall c | c in conds :: Holds(c, e)
  }

  datatype Rule = Rule(action: u32, args: seq<Cond>)

  /** The action of the first rule whose conditions all hold. */
  function FirstMatch(rules: seq<Rule>, e: Event, default: u32): u32 {
    if rules == [] then default
    else if AllHold(rules[0].args, e) then rules[0].action
    else FirstMatch(rules[1..], e, default)
  }

  /** The decision: foreign ABIs are killed, then the syscall's rules, then the default. */
  function Decide(arch: u32, default: u32, rules: map<u32, seq<Rule>>, e: Event): u32 {
    if e.arch != arch then KILL_PROCESS
    else if NrWord(e) in rules then FirstMatch(rules[NrWord(e)], e, default)
    else default
  }

  predicate SomeMatch(rules: seq<Rule>, e: Event) {
    exists i | 0 <= i < |rules| :: AllHold(rules[i].args, e)
  }

  /** Rule k is the first that matches. */
  ghost predicate IsFirst(rules: seq<Rule>, e: Event, k: int) {
    && 0 <= k < |rules| && AllHold(rules[k].args, e)
    && forall i | 0 <= i < k :: !AllHold(rules[i].args, e)
  }

  /** FirstMatch is the first match, or the default when nothing matches. */
  lemma {:induction false} FirstMatchIsFirst(rules: seq<Rule>, e: Event, default: u32)
    ensures forall k | IsFirst(rules, e, k) :: FirstMatch(rules, e, default) == rules[k].action
    ensures !SomeMatch(rules, e) ==> FirstMatch(rules, e, default) == default
    ensures SomeMatch(rules, e) ==> exists k :: IsFirst(rules, e, k)
  {
    if rules != [] {
      var rest := rules[1..];
      FirstMatchIsFirst(rest, e, default);
      if AllHold(rules[0].args, e) {
        assert IsFirst(rules, e, 0);
      } else {
        forall k | IsFirst(rules, e, k) ensures FirstMatch(rules, e, default) == rules[k].action {
          assert forall i | 0 <= i < k - 1 :: rest[i] == rules[i + 1];
          assert IsFirst(rest, e, k - 1);
        }
        if SomeMatch(rules, e) {
          var i :| 0 <= i < |rules| && AllHold(rules[i].args, e);
          assert AllHold(rest[i - 1].args, e);
          var k :| IsFirst(rest, e, k);
          assert forall j | 0 < j < k + 1 :: rules[j] == rest[j - 1];
          assert IsFirst(rules, e, k + 1);
        } else {
          assert forall i | 0 <= i < |rest| :: rest[i] == rules[i + 1];
        }
      }
    }
  }

  /** A later rule matters only where no earlier rule matches. */
  lemma {:induction false} FirstMatchAppend(rules: seq<Rule>, more: seq<Rule>, e: Event, default: u32)
    ensures FirstMatch(rules + more, e, default)
         == if SomeMatch(rules, e) then FirstMatch(rules, e, default) else FirstMatch(more, e, default)
  {
    if rules == [] {
      assert rules + more == more;
    } else {
      var rest := rules[1..];
      FirstMatchAppend(rest, more, e, default);
      assert (rules + more)[1..] == rest + more;
      if !AllHold(rules[0].args, e) {
        if SomeMatch(rules, e) {
          var i :| 0 <= i < |rules| && AllHold(rules[i].args, e);
          assert AllHold(rest[i - 1].args, e);
        }
        assert forall i | 0 <= i < |rest| :: rest[i] == rules[i + 1];
      }
    }
  }

  /** Rules after an unconditional rule never decide anything. */
  lemma DeadRules(rules: seq<Rule>, more: seq<Rule>, e: Event, default: u32)
    requires rules != [] && rules[|rules| - 1].args == []
    ensures FirstMatch(rules + more, e, default) == FirstMatch(rules, e, default)
  {
    assert AllHold(rules[|rules| - 1].args, e);
    FirstMatchAppend(rules, more, e, default);
  }

  // --------------------------------------------------------- building rules

  /** The rules of a syscall, none if it has no entry. */
  function RulesFor(rules: map<u32, seq<Rule>>, nr: u32): seq<Rule> {
    if nr in rules then rules[nr] else []
  }

  /** `setdefault(nr, []).append(rule)` on the rule table. */
  function WithRule(rules: map<u32, seq<Rule>>, nr: u32, rule: Rule): map<u32, seq<Rule>> {
    rules[nr := RulesFor(rules, nr) + [rule]]
  }

  /** Adding a rule changes the decision only for native events on its syscall
      that no earlier rule matched and the new rule does, and there it becomes
      the new rule's action. */
  lemma AddIsLocal(arch: u32, default: u32, rules: map<u32, seq<Rule>>, nr: u32, rule: Rule, e: Event)
    ensures Decide(arch, default, WithRule(rules, nr, rule), e) ==
      if e.arch == arch && NrWord(e) == nr && !SomeMatch(RulesFor(rules, nr), e) && AllHold(rule.args, e)
      then rule.action
      else Decide(arch, default, rules, e)
  {
    FirstMatchAppend(RulesFor(rules, nr), [rule], e, default);
    FirstMatchIsFirst(RulesFor(rules, nr), e, default);
  }

  // ------------------------------------------------------ argument conditions

  /** One entry of an `args` iterable: an ArgCmp, or a tuple of 3 or 4 integers. */
  datatype ArgCond =
    | Ready(cond: Cond)
    | Triple(index: int, op: int, value: int)
    | Quad(index: int, op: int, value: int, mask: int)

  /** The `args` parameter: absent, an index-to-value mapping, or conditions. */
  datatype Args =
    | NoArgs
    | Mapping(items: seq<(int, int)>)
    | Conds(conds: seq<ArgCond>)

  /** `_coerce_cond`. */
  function Coerce(c: ArgCond): Option<Cond> {
    match c
    case Ready(cond) => Some(cond)
    case Triple(index, op, value) => MakeCond(index, op, value, U64_MAX)
    case Quad(index, op, value, mask) => MakeCond(index, op, value, mask)
  }

  function CoerceAll(conds: seq<ArgCond>): Option<seq<Cond>> {
    if conds == [] then Some([])
    else
      var first, rest := Coerce(conds[0]), CoerceAll(conds[1..]);
      if first.Some? && rest.Some? then Some([first.value] + rest.value) else None
  }

  /** A mapping is the list of its equalities. */
  function AsTriples(items: seq<(int, int)>): seq<ArgCond> {
    seq(|items|, i requires 0 <= i < |items| => Triple(items[i].0, 0, items[i].1))
  }

  /** The entries of an `args` value, a mapping being its equalities. */
  function Entries(args: Args): seq<ArgCond> {
    match args
    case NoArgs => []
    case Mapping(items) => AsTriples(items)
    case Conds(conds) => conds
  }

  /** The conditions a rule gets, in the order they are compiled; None where `_add` raises. */
  function RuleConds(args: Args): Option<seq<Cond>> {
    var raw := CoerceAll(Entries(args));
    if raw.Some? then Some(SortByIndex(raw.value)) else None
  }

  /** `sorted(conds, key=index)`: stable, so c goes after its equals. */
  function SortByIndex(conds: seq<Cond>): seq<Cond> {
    if conds == [] then []
    else Insert(SortByIndex(conds[..|conds| - 1]), conds[|conds| - 1])
  }

  function Insert(sorted: seq<Cond>, c: Cond): seq<Cond> {
    if sorted == [] || sorted[|sorted| - 1].index <= c.index then sorted + [c]
    else Insert(sorted[..|sorted| - 1], c) + [sorted[|sorted| - 1]]
  }

  ghost predicate Ordered(s: seq<Cond>) {
    forall i, j | 0 <= i < j < |s| :: s[i].index <= s[j].index
  }

  /** The conditions on argument x, in order. */
  ghost function OnArg(s: seq<Cond>, x: int): seq<Cond> {
    if s == [] then []
    else
      var rest, last := OnArg(s[..|s| - 1], x), s[|s| - 1];
      if last.index == x then rest + [last] else rest
  }

  ghost predicate UpTo(s: seq<Cond>, bound: int) {
    forall i | 0 <= i < |s| :: s[i].index <= bound
  }

  lemma {:induction false} InsertOrders(s: seq<Cond>, c: Cond, bound: int)
    requires Ordered(s) && UpTo(s, bound) && c.index <= bound
    ensures Ordered(Insert(s, c)) && UpTo(Insert(s, c), bound)
  {
    if !(s == [] || s[|s| - 1].index <= c.index) {
      var last := s[|s| - 1];
      InsertOrders(s[..|s| - 1], c, last.index);
    }
  }

  lemma {:induction false} InsertKeeps(s: seq<Cond>, c: Cond)
    ensures multiset(Insert(s, c)) == multiset(s) + multiset{c}
  {
    if !(s == [] || s[|s| - 1].index <= c.index) {
      var init, last := s[..|s| - 1], s[|s| - 1];
      InsertKeeps(init, c);
      assert s == init + [last];
    }
  }

  lemma OnArgPush(s: seq<Cond>, c: Cond, x: int)
    ensures OnArg(s + [c], x) == if c.index == x then OnArg(s, x) + [c] else OnArg(s, x)
  {
    assert (s + [c])[..|s|] == s;
  }

  lemma {:induction false} InsertIsStable(s: seq<Cond>, c: Cond, x: int)
    ensures OnArg(Insert(s, c), x) == OnArg(s + [c], x)
  {
    if !(s == [] || s[|s| - 1].index <= c.index) {
      var init, last := s[..|s| - 1], s[|s| - 1];
      InsertIsStable(init, c, x);
      assert s == init + [last];
      OnArgPush(s, c, x);
      OnArgPush(init, last, x);
      OnArgPush(init, c, x);
      OnArgPush(Insert(init, c), last, x);
    }
  }

  lemma {:induction false} SortOrders(conds: seq<Cond>)
    ensures Ordered(SortByIndex(conds)) && UpTo(SortByIndex(conds), 5)
  {
    if conds != [] {
      SortOrders(conds[..|conds| - 1]);
      InsertOrders(SortByIndex(conds[..|conds| - 1]), conds[|conds| - 1], 5);
    }
  }

  lemma {:induction false} SortKeeps(conds: seq<Cond>)
    ensures multiset(SortByIndex(conds)) == multiset(conds)
  {
    if conds != [] {
      var init, last := conds[..|conds| - 1], conds[|conds| - 1];
      SortKeeps(init);
      InsertKeeps(SortByIndex(init), last);
      assert conds == init + [last];
    }
  }

  lemma {:induction false} SortKeepsOnArg(conds: seq<Cond>, x: int)
    ensures OnArg(SortByIndex(conds), x) == OnArg(conds, x)
  {
    if conds != [] {
      var init, last := conds[..|conds| - 1], conds[|conds| - 1];
      SortKeepsOnArg(init, x);
      InsertIsStable(SortByIndex(init), last, x);
      OnArgPush(SortByIndex(init), last, x);
      OnArgPush(init, last, x);
      assert conds == init + [last];
    }
  }

  /** Sorting permutes the conditions, orders them by argument, and keeps those
      on the same argument in the order given; no other arrangement does. */
  lemma SortIsStable(conds: seq<Cond>)
    ensures multiset(SortByIndex(conds)) == multiset(conds)
    ensures forall s | Ordered(s) && SameOnArgs(s, conds) :: s == SortByIndex(conds)
    ensures Ordered(SortByIndex(conds)) && SameOnArgs(SortByIndex(conds), conds)
  {
    SortOrders(conds);
    SortKeeps(conds);
    forall x ensures OnArg(SortByIndex(conds), x) == OnArg(conds, x) { SortKeepsOnArg(conds, x); }
    forall s | Ordered(s) && SameOnArgs(s, conds) ensures s == SortByIndex(conds) {
      SameTransitive(s, conds, SortByIndex(conds));
      StableSortIsUnique(s, SortByIndex(conds));
    }
  }

  lemma SameTransitive(a: seq<Cond>, b: seq<Cond>, c: seq<Cond>)
    requires SameOnArgs(a, b) && SameOnArgs(c, b)
    ensures SameOnArgs(a, c)
  {}

  ghost predicate SameOnArgs(a: seq<Cond>, b: seq<Cond>) {
    forall x :: OnArg(a, x) == OnArg(b, x)
  }

  lemma LastAgree(a: seq<Cond>, la: Cond, b: seq<Cond>, lb: Cond)
    requires Ordered(a + [la]) && Ordered(b + [lb]) && SameOnArgs(a + [la], b + [lb])
    ensures la == lb
  {
    OnArgMember(a + [la], la.index);
    OnArgMember(b + [lb], la.index);
    OnArgMember(a + [la], lb.index);
    OnArgMember(b + [lb], lb.index);
    assert (a + [la])[|a|] == la && (b + [lb])[|b|] == lb;
    assert la.index == lb.index;
    OnArgPush(a, la, la.index);
    OnArgPush(b, lb, la.index);
    var s := OnArg(a + [la], la.index);
    assert s[|s| - 1] == la && s[|s| - 1] == lb;
  }

  lemma PopAgrees(a: seq<Cond>, b: seq<Cond>, l: Cond)
    requires SameOnArgs(a + [l], b + [l])
    ensures SameOnArgs(a, b)
  {
    forall x ensures OnArg(a, x) == OnArg(b, x) {
      OnArgPush(a, l, x);
      OnArgPush(b, l, x);
      var s, t := OnArg(a, x), OnArg(b, x);
      if l.index == x { assert s == (s + [l])[..|s + [l]| - 1] == (t + [l])[..|t + [l]| - 1] == t; }
    }
  }

  /** Those properties leave no choice: any ordered, order-keeping arrangement
      of the conditions is the one `sorted` returns. */
  lemma {:induction false} StableSortIsUnique(a: seq<Cond>, b: seq<Cond>)
    requires Ordered(a) && Ordered(b) && SameOnArgs(a, b)
    ensures a == b
  {
    if a == [] || b == [] {
      EmptyAgree(a, b);
    } else {
      var a', b', la, lb := a[..|a| - 1], b[..|b| - 1], a[|a| - 1], b[|b| - 1];
      SplitLast(a);
      SplitLast(b);
      LastAgree(a', la, b', lb);
      PopAgrees(a', b', la);
      StableSortIsUnique(a', b');
    }
  }

  lemma SplitLast(s: seq<Cond>)
    requires s != []
    ensures s == s[..|s| - 1] + [s[|s| - 1]]
    ensures Ordered(s) ==> Ordered(s[..|s| - 1])
  {}

  lemma EmptyAgree(a: seq<Cond>, b: seq<Cond>)
    requires SameOnArgs(a, b) && (a == [] || b == [])
    ensures a == b
  {
    if a != [] { OnArgMember(a, a[|a| - 1].index); }
    if b != [] { OnArgMember(b, b[|b| - 1].index); }
  }

  lemma {:induction false} OnArgMember(s: seq<Cond>, x: int)
    ensures OnArg(s, x) != [] <==> exists i | 0 <= i < |s| :: s[i].index == x
  {
    if s != [] { OnArgMember(s[..|s| - 1], x); }
  }

  /** A rule matches the same events whatever order its conditions come in. */
  lemma OrderIrrelevant(a: seq<Cond>, b: seq<Cond>, e: Event)
    requires multiset(a) == multiset(b)
    ensures AllHold(a, e) == AllHold(b, e)
    ensures AllHold(SortByIndex(a), e) == AllHold(b, e)
  {
    SortKeeps(a);
    assert forall c :: c in a <==> c in multiset(a);
    assert forall c :: c in b <==> c in multiset(b);
    assert forall c :: c in SortByIndex(a) <==> c in multiset(SortByIndex(a));
  }

  /** The number of an operator. */
  function OpNumber(op: CmpOp): int {
    match op
    case EQ => 0
    case NE => 1
    case LT => 2
    case LE => 3
    case GT => 4
    case GE => 5
    case MASKED_EQ => 6
  }

  /** A 4-tuple is accepted exactly as the condition with those four fields, a
      3-tuple is the 4-tuple with a full mask, and an ArgCmp is itself. */
  lemma CoerceIsExact(index: int, op: int, value: int, mask: int, c: Cond)
    ensures Coerce(Quad(index, op, value, mask)) == Some(c) <==>
            c.index == index && OpNumber(c.op) == op && c.value == value && c.mask == mask
    ensures Coerce(Triple(index, op, value)) == Coerce(Quad(index, op, value, U64_MAX))
    ensures Coerce(Quad(c.index, OpNumber(c.op), c.value, c.mask)) == Coerce(Ready(c)) == Some(c)
  {
    if OpNumber(c.op) == op { assert CmpOpOf(op) == Some(c.op); }
  }

  ghost predicate AllCoerce(conds: seq<ArgCond>) {
    forall i | 0 <= i < |conds| :: Coerce(conds[i]).Some?
  }

  lemma {:induction false} CoerceAllPointwise(conds: seq<ArgCond>)
    ensures CoerceAll(conds).Some? <==> AllCoerce(conds)
    ensures CoerceAll(conds).Some? ==> |CoerceAll(conds).value| == |conds|
    ensures CoerceAll(conds).Some? ==>
            forall i | 0 <= i < |conds| :: CoerceAll(conds).value[i] == Coerce(conds[i]).value
  {
    if conds != [] {
      CoerceAllPointwise(conds[1..]);
      assert forall i | 0 < i < |conds| :: conds[i] == conds[1..][i - 1];
      assert AllCoerce(conds) <==> Coerce(conds[0]).Some? && AllCoerce(conds[1..]);
    }
  }

  /** A list of conditions is accepted exactly when each is, and then means their conjunction. */
  lemma CondsMeanConjunction(conds: seq<ArgCond>, e: Event)
    ensures RuleConds(Conds(conds)).Some? <==> AllCoerce(conds)
    ensures AllCoerce(conds) ==>
            (AllHold(RuleConds(Conds(conds)).value, e) <==>
             forall i | 0 <= i < |conds| :: Holds(Coerce(conds[i]).value, e))
  {
    CoerceAllPointwise(conds);
    var raw := CoerceAll(conds);
    if raw.Some? {
      OrderIrrelevant(raw.value, raw.value, e);
      assert forall i | 0 <= i < |conds| :: raw.value[i] in raw.value;
    }
  }

  /** A rule keeps the accepted conditions ordered by argument, those on the same
      argument in the order given: no other arrangement of them qualifies. */
  lemma RuleCondsAreSorted(conds: seq<ArgCond>, raw: seq<Cond>)
    requires |raw| == |conds| && forall i | 0 <= i < |conds| :: Coerce(conds[i]) == Some(raw[i])
    ensures RuleConds(Conds(conds)).Some?
    ensures var r := RuleConds(Conds(conds)).value;
      Ordered(r) && SameOnArgs(r, raw) && multiset(r) == multiset(raw)
  {
    CoerceAllPointwise(conds);
    assert CoerceAll(conds).value == raw;
    SortIsStable(raw);
  }

  /** A mapping means exactly its list of equalities, for every event. */
  lemma MappingMeansEqualities(items: seq<(int, int)>, e: Event)
    ensures RuleConds(Mapping(items)) == RuleConds(Conds(AsTriples(items)))
    ensures RuleConds(Mapping(items)).Some? <==>
            forall i | 0 <= i < |items| :: 0 <= items[i].0 <= 5 && 0 <= items[i].1 <= U64_MAX
    ensures RuleConds(Mapping(items)).Some? ==>
            (AllHold(RuleConds(Mapping(items)).value, e) <==>
             forall i | 0 <= i < |items| :: e.args[items[i].0] == items[i].1)
  {
    var conds := AsTriples(items);
    CondsMeanConjunction(conds, e);
    assert forall i | 0 <= i < |items| :: Coerce(conds[i]) == MakeCond(items[i].0, 0, items[i].1, U64_MAX);
  }

  // ------------------------------------------- the order conditions are given in

  lemma {:induction false} CoerceAllConcat(a: seq<ArgCond>, b: seq<ArgCond>)
    ensures CoerceAll(a + b).Some? <==> CoerceAll(a).Some? && CoerceAll(b).Some?
    ensures CoerceAll(a + b).Some? ==> CoerceAll(a + b).value == CoerceAll(a).value + CoerceAll(b).value
  {
    if a == [] {
      assert a + b == b;
    } else {
      assert (a + b)[1..] == a[1..] + b;
      CoerceAllConcat(a[1..], b);
    }
  }

  /** Coerced conditions, accepted or not, depend only on which entries there are. */
  ghost predicate CoerceAlike(a: seq<ArgCond>, b: seq<ArgCond>) {
    && (CoerceAll(a).Some? <==> CoerceAll(b).Some?)
    && (CoerceAll(a).Some? ==> multiset(CoerceAll(a).value) == multiset(CoerceAll(b).value))
  }

  /** Taking an entry out of the middle instead of the front changes neither. */
  lemma CoerceMiddle(x: ArgCond, b1: seq<ArgCond>, b2: seq<ArgCond>)
    ensures CoerceAlike([x] + (b1 + b2), b1 + ([x] + b2))
  {
    CoerceAllConcat([x], b1 + b2);
    CoerceAllConcat(b1, b2);
    CoerceAllConcat(b1, [x] + b2);
    CoerceAllConcat([x], b2);
  }

  lemma CoerceSameHead(x: ArgCond, a: seq<ArgCond>, b: seq<ArgCond>)
    requires CoerceAlike(a, b)
    ensures CoerceAlike([x] + a, [x] + b)
  {
    CoerceAllConcat([x], a);
    CoerceAllConcat([x], b);
  }

  /** The first entry of a is somewhere in b, and the rests hold the same entries. */
  lemma TakeOut(a: seq<ArgCond>, b: seq<ArgCond>) returns (k: nat)
    requires a != [] && multiset(a) == multiset(b)
    ensures k < |b| && b == b[..k] + ([a[0]] + b[k + 1..])
    ensures multiset(a[1..]) == multiset(b[..k] + b[k + 1..])
  {
    var x := a[0];
    assert x in multiset(b);
    k :| 0 <= k < |b| && b[k] == x;
    assert a == [] + ([x] + a[1..]);
    assert b == b[..k] + ([x] + b[k + 1..]);
    assert a[1..] == [] + a[1..];
    MultisetMiddle(x, [], a[1..]);
    MultisetMiddle(x, b[..k], b[k + 1..]);
    MultisetCancel(x, multiset(a[1..]), multiset(b[..k] + b[k + 1..]));
  }

  lemma MultisetMiddle(x: ArgCond, p: seq<ArgCond>, q: seq<ArgCond>)
    ensures multiset(p + ([x] + q)) == multiset{x} + multiset(p + q)
  {
    assert multiset(p + ([x] + q)) == multiset(p) + (multiset{x} + multiset(q));
  }

  lemma MultisetCancel(x: ArgCond, m: multiset<ArgCond>, n: multiset<ArgCond>)
    requires multiset{x} + m == multiset{x} + n
    ensures m == n
  {
    assert m == (multiset{x} + m) - multiset{x} && n == (multiset{x} + n) - multiset{x};
  }

  lemma {:induction false} CoercePermuted(a: seq<ArgCond>, b: seq<ArgCond>)
    requires multiset(a) == multiset(b)
    ensures CoerceAlike(a, b)
  {
    if a == [] {
      assert |multiset(b)| == |b| == 0;
    } else {
      var k := TakeOut(a, b);
      var b1, b2 := b[..k], b[k + 1..];
      CoercePermuted(a[1..], b1 + b2);
      CoerceSameHead(a[0], a[1..], b1 + b2);
      CoerceMiddle(a[0], b1, b2);
      assert a == [a[0]] + a[1..];
    }
  }

  /** The same entries in any order, or as a mapping instead of a list. */
  ghost predicate SameArgs(a: Args, b: Args) {
    multiset(Entries(a)) == multiset(Entries(b))
  }

  /** They are accepted or rejected together, and give the same conditions up to order. */
  lemma SameArgsSameConds(a: Args, b: Args)
    requires SameArgs(a, b)
    ensures RuleConds(a).Some? <==> RuleConds(b).Some?
    ensures RuleConds(a).Some? ==> multiset(RuleConds(a).value) == multiset(RuleConds(b).value)
  {
    CoercePermuted(Entries(a), Entries(b));
    if RuleConds(a).Some? {
      SortKeeps(CoerceAll(Entries(a)).value);
      SortKeeps(CoerceAll(Entries(b)).value);
    }
  }
}
