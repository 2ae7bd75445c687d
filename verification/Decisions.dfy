/** What the kernel runs, in terms of the calls a program made: the first accepted
    call whose syscall and conditions the event meets decides it. */
module Decisions {
  import opened Words
  import Bpf
  import opened SeccompData
  import opened Policy
  import opened Requests
  import opened Compiler
  import opened EndToEnd
  import opened Filters

  /** An add that a filter under construction accepts. */
  ghost predicate Acceptable(p: Platform, op: Op) {
    op.AddOp? && Known(p, op.syscall) && ArgsOk(op.args)
  }

  /** It is for the event's syscall and all its conditions hold. */
  ghost predicate Applies(p: Platform, op: Op, e: Event) {
    Acceptable(p, op) && Asks(p, op.syscall, e.nr % 0x1_0000_0000) && ArgsHold(op.args, e)
  }

  /** Operation k is the first that applies. */
  ghost predicate AppliesFirst(p: Platform, ops: seq<Op>, e: Event, k: int) {
    && 0 <= k < |ops| && Applies(p, ops[k], e)
    && forall i | 0 <= i < k :: !Applies(p, ops[i], e)
  }

  ghost predicate NoneApplies(p: Platform, ops: seq<Op>, e: Event) {
    forall i | 0 <= i < |ops| :: !Applies(p, ops[i], e)
  }

  /** The decision the calls ask for: foreign ABIs are killed, then the action of
      the first call that applies, then the default. */
  ghost predicate AskedFor(p: Platform, default: u32, ops: seq<Op>, e: Event, r: u32) {
    && (e.arch != p.auditArch ==> r == 0x8000_0000)
    && (e.arch == p.auditArch && NoneApplies(p, ops, e) ==> r == default)
    && (e.arch == p.auditArch ==> forall k | AppliesFirst(p, ops, e, k) :: r == ops[k].action)
  }

  // ------------------------------------------------------------- one add

  /** The rule an acceptable add stands for, with the number of its syscall. */
  function Entry(p: Platform, op: Op): (u32, Rule)
    requires op.AddOp? && SyscallNr(p, op.syscall).Some? && RuleConds(op.args).Some?
  {
    (SyscallNr(p, op.syscall).value, Rule(op.action, RuleConds(op.args).value))
  }

  lemma EntryExists(p: Platform, op: Op)
    requires Acceptable(p, op)
    ensures SyscallNr(p, op.syscall).Some? && RuleConds(op.args).Some?
  {
    SyscallExactly(p, op.syscall, 0);
    ArgsExactly(op.args, RawEvent(0, 0, 0, [0, 0, 0, 0, 0, 0]));
  }

  lemma EntryApplies(p: Platform, op: Op, e: Event)
    requires Acceptable(p, op)
    ensures SyscallNr(p, op.syscall).Some? && RuleConds(op.args).Some?
    ensures Applies(p, op, e) <==> Entry(p, op).0 == NrWord(e) && AllHold(Entry(p, op).1.args, e)
  {
    HeaderWords(e);
    SyscallExactly(p, op.syscall, NrWord(e));
    ArgsExactly(op.args, e);
  }

  /** An accepted add changes what the program returns only on native events with
      the number or name it gives, on which every condition given holds and no
      earlier rule of that syscall matches; there it returns the action given. */
  lemma AddDecides(p: Platform, s: State, syscall: Syscall, action: u32, args: Args, e: Event)
    requires s.table.Valid() && AddError(p, s, syscall, args).None?
    requires var s' := Added(p, s, syscall, action, args);
      s'.table.Valid() && CanCompile(p, s) && CanCompile(p, s')
    ensures RunOn(Fresh(p, Added(p, s, syscall, action, args)), e) ==
      if && e.arch == p.auditArch
         && Asks(p, syscall, e.nr % 0x1_0000_0000)
         && ArgsOk(args) && ArgsHold(args, e)
         && !SomeMatch(RulesFor(s.table.rules, NrWord(e)), e)
      then Bpf.Returned(action)
      else RunOn(Fresh(p, s), e)
  {
    AddErrorExactly(p, s, syscall, args);
    var op := AddOp(syscall, action, args);
    EntryApplies(p, op, e);
    var (nr, rule) := Entry(p, op);
    AddChangesOnly(p.auditArch, s.default, s.table, nr, rule, e);
  }

  /** An add without conditions catches every native event of its syscall that no
      earlier rule does. */
  lemma UnconditionalDecides(p: Platform, s: State, syscall: Syscall, action: u32, args: Args, e: Event)
    requires args == NoArgs || args == Mapping([]) || args == Conds([])
    requires s.table.Valid() && !s.loaded && Known(p, syscall)
    requires var s' := Added(p, s, syscall, action, args);
      s'.table.Valid() && CanCompile(p, s) && CanCompile(p, s')
    requires e.arch == p.auditArch && Asks(p, syscall, e.nr % 0x1_0000_0000)
    requires !SomeMatch(RulesFor(s.table.rules, NrWord(e)), e)
    ensures RunOn(Fresh(p, Added(p, s, syscall, action, args)), e) == Bpf.Returned(action)
  {
    Unconditional(args, e);
    AddErrorExactly(p, s, syscall, args);
    AddDecides(p, s, syscall, action, args, e);
  }

  // ----------------------------------------------------------- whole histories

  /** The acceptable adds among ops, each as the rule it stands for, in order. */
  ghost function AcceptedAdds(p: Platform, ops: seq<Op>): seq<(u32, Rule)> {
    if ops == [] then []
    else
      var rest, last := AcceptedAdds(p, ops[..|ops| - 1]), ops[|ops| - 1];
      if Acceptable(p, last) then EntryExists(p, last); rest + [Entry(p, last)] else rest
  }

  /** A filter still under construction holds exactly the accepted adds' rules,
      in the order the adds were made. */
  lemma {:induction false} HistoryBuilds(p: Platform, default: u32, flags: u32, ops: seq<Op>)
    requires !Exec(p, Initial(default, flags), ops).loaded
    ensures Exec(p, Initial(default, flags), ops).table == Build(AcceptedAdds(p, ops))
  {
    if ops != [] {
      var init, last := ops[..|ops| - 1], ops[|ops| - 1];
      var s := Exec(p, Initial(default, flags), init);
      StaysLoaded(p, s, last);
      HistoryBuilds(p, default, flags, init);
      if last.AddOp? { AddErrorExactly(p, s, last.syscall, last.args); }
      if Acceptable(p, last) {
        EntryExists(p, last);
        BuildPush(AcceptedAdds(p, init), Entry(p, last));
      }
    }
  }

  lemma StaysLoaded(p: Platform, s: State, op: Op)
    requires s.table.Valid()
    ensures s.loaded ==> Apply(p, s, op).loaded
  {}

  lemma BuildPush(adds: seq<(u32, Rule)>, add: (u32, Rule))
    ensures Build(adds + [add]) == AddRule(Build(adds), add.0, add.1)
  {
    assert (adds + [add])[..|adds|] == adds;
  }

  /** The action of the first call that applies, if one does. */
  ghost function Verdict(p: Platform, ops: seq<Op>, e: Event): Option<u32> {
    if ops == [] then None
    else
      var earlier, last := Verdict(p, ops[..|ops| - 1], e), ops[|ops| - 1];
      if earlier.Some? then earlier else if Applies(p, last, e) then Some(last.action) else None
  }

  lemma {:induction false} VerdictIsFirst(p: Platform, ops: seq<Op>, e: Event)
    ensures Verdict(p, ops, e).None? ==> NoneApplies(p, ops, e)
    ensures Verdict(p, ops, e).Some? ==>
      exists k :: AppliesFirst(p, ops, e, k) && Verdict(p, ops, e).value == ops[k].action
  {
    if ops != [] {
      var n := |ops| - 1;
      VerdictIsFirst(p, ops[..n], e);
      if Verdict(p, ops[..n], e).Some? {
        var k :| AppliesFirst(p, ops[..n], e, k) && Verdict(p, ops[..n], e).value == ops[..n][k].action;
        assert AppliesFirst(p, ops, e, k);
      } else if Applies(p, ops[n], e) {
        assert forall i | 0 <= i < n :: ops[i] == ops[..n][i];
        assert AppliesFirst(p, ops, e, n);
      }
    }
  }

  /** The calls ask for exactly one decision. */
  lemma AskedForOne(p: Platform, default: u32, ops: seq<Op>, e: Event, r: u32, r': u32)
    requires AskedFor(p, default, ops, e, r) && AskedFor(p, default, ops, e, r')
    ensures r == r'
  {
    VerdictIsFirst(p, ops, e);
  }

  lemma VerdictIsAskedFor(p: Platform, default: u32, ops: seq<Op>, e: Event)
    ensures AskedFor(p, default, ops, e,
      if e.arch != p.auditArch then 0x8000_0000
      else if Verdict(p, ops, e).Some? then Verdict(p, ops, e).value
      else default)
  {
    VerdictIsFirst(p, ops, e);
    forall j, k | AppliesFirst(p, ops, e, j) && AppliesFirst(p, ops, e, k) ensures j == k {}
  }

  /** The rules stored for the event's syscall decide as the calls do. */
  ghost predicate Follows(rules: seq<Rule>, v: Option<u32>, e: Event, default: u32) {
    && (SomeMatch(rules, e) <==> v.Some?)
    && FirstMatch(rules, e, default) == if v.Some? then v.value else default
  }

  lemma FollowsPush(rules: seq<Rule>, v: Option<u32>, rule: Rule, e: Event, default: u32)
    requires Follows(rules, v, e, default)
    ensures Follows(rules + [rule],
      if v.Some? then v else if AllHold(rule.args, e) then Some(rule.action) else None, e, default)
  {
    FirstMatchAppend(rules, [rule], e, default);
    var more := rules + [rule];
    assert more[|rules|] == rule;
    assert forall i | 0 <= i < |rules| :: more[i] == rules[i];
    if SomeMatch(rules, e) {
      var i :| 0 <= i < |rules| && AllHold(rules[i].args, e);
      assert AllHold(more[i].args, e);
    }
  }

  lemma {:induction false} EntriesFollow(p: Platform, ops: seq<Op>, e: Event, default: u32)
    ensures Follows(AddedTo(AcceptedAdds(p, ops), NrWord(e)), Verdict(p, ops, e), e, default)
  {
    if ops != [] {
      var init, last := ops[..|ops| - 1], ops[|ops| - 1];
      EntriesFollow(p, init, e, default);
      if Acceptable(p, last) {
        EntryApplies(p, last, e);
        AddedToPush(AcceptedAdds(p, init), Entry(p, last), NrWord(e));
        FollowsPush(AddedTo(AcceptedAdds(p, init), NrWord(e)), Verdict(p, init, e), Entry(p, last).1, e, default);
      }
    }
  }

  lemma AddedToPush(adds: seq<(u32, Rule)>, add: (u32, Rule), nr: u32)
    ensures AddedTo(adds + [add], nr) == AddedTo(adds, nr) + if add.0 == nr then [add.1] else []
  {
    assert (adds + [add])[..|adds|] == adds;
  }

  /** After any history that has not loaded the filter, the bytes it would load
      decide every event as the calls ask: the first accepted call that applies,
      whatever reads, rejected adds and failed loads lie between. */
  lemma HistoryDecides(p: Platform, default: u32, flags: u32, ops: seq<Op>, e: Event)
    requires var s := Exec(p, Initial(default, flags), ops); !s.loaded && CanCompile(p, s)
    ensures var outcome := RunOn(Fresh(p, Exec(p, Initial(default, flags), ops)), e);
      outcome.Returned? && AskedFor(p, default, ops, e, outcome.result)
  {
    var s := Exec(p, Initial(default, flags), ops);
    HistoryBuilds(p, default, flags, ops);
    HistoryKeepsFlags(p, default, flags, ops);
    ProgramDecides(p.auditArch, default, s.table, e);
    BuildKeepsOrder(AcceptedAdds(p, ops), NrWord(e));
    EntriesFollow(p, ops, e, default);
    VerdictIsAskedFor(p, default, ops, e);
    assert AskedFor(p, default, ops, e, Decide(p.auditArch, default, s.table.rules, e));
  }

  /** A load that succeeds installs, as its last kernel call and for good, bytes
      that decide every event as the calls made before it ask. */
  lemma LoadEnforces(p: Platform, default: u32, flags: u32, ops: seq<Op>, fd: nat, later: seq<Op>, e: Event)
    requires var s := Exec(p, Initial(default, flags), ops);
      !s.loaded && Loaded(p, s, true, Some(fd)).loaded
    ensures var s := Exec(p, Loaded(p, Exec(p, Initial(default, flags), ops), true, Some(fd)), later);
      && s.loaded && s.calls != []
      && var install := s.calls[|s.calls| - 1];
      && install.Install? && install.flags == flags && install.ok
      && RunOn(install.program, e).Returned?
      && AskedFor(p, default, ops, e, RunOn(install.program, e).result)
  {
    var s := Exec(p, Initial(default, flags), ops);
    var s' := Loaded(p, s, true, Some(fd));
    HistoryKeepsInv(p, default, flags, ops);
    HistoryKeepsFlags(p, default, flags, ops);
    LoadKeepsInv(p, s, true, Some(fd));
    LoadedIsFrozen(p, s', later);
    HistoryDecides(p, default, flags, ops, e);
    assert s'.calls[|s'.calls| - 1] == Install(Fresh(p, s), flags, true);
  }
}
