/** The Filter object: adding rules, the cached program, and loading. */
module Filters {
  import opened Words
  import opened Bpf
  import opened SeccompData
  import opened Policy
  import opened Requests
  import opened Compiler
  import opened Compilation
  import opened Sizes
  import opened EndToEnd

  /** A call into the kernel, with whether it succeeded. */
  datatype KernelCall = NoNewPrivs(ok: bool) | Install(program: seq<u8>, flags: u32, ok: bool)

  datatype Error = AlreadyLoaded | BadSyscall | BadArgs | NotCompilable | BadLength | KernelRefused

  const NEW_LISTENER: u32 := 8
  const MAX_RECORDS := 4096

  /** The length check of `set_mode_filter`. */
  predicate LengthOk(program: seq<u8>) {
    |program| % 8 == 0 && program != [] && |program| / 8 <= MAX_RECORDS
  }

  // ------------------------------------------------------------ as values

  /** A filter's state, with the kernel calls it has made. */
  datatype State = State(default: u32, flags: u32, table: Table, cache: Option<seq<u8>>, loaded: bool,
                         calls: seq<KernelCall>)

  function Initial(default: u32, flags: u32): State {
    State(default, flags, Table([], map[]), None, false, [])
  }

  ghost predicate CanCompile(p: Platform, s: State)
    requires s.table.Valid()
  {
    Compiles(p.auditArch, s.default, s.table)
  }

  ghost function Fresh(p: Platform, s: State): seq<u8>
    requires s.table.Valid() && CanCompile(p, s)
  {
    Program(p.auditArch, s.default, s.table)
  }

  /** The cache, if filled, holds what compiling now would give. */
  ghost predicate Coherent(p: Platform, s: State) {
    && s.table.Valid()
    && (s.cache.Some? ==> CanCompile(p, s) && s.cache.value == Fresh(p, s))
  }

  /** What `_add` rejects. */
  function AddError(p: Platform, s: State, syscall: Syscall, args: Args): Option<Error> {
    if s.loaded then Some(AlreadyLoaded)
    else if SyscallNr(p, syscall).None? then Some(BadSyscall)
    else if RuleConds(args).None? then Some(BadArgs)
    else None
  }

  function Added(p: Platform, s: State, syscall: Syscall, action: u32, args: Args): State {
    if AddError(p, s, syscall, args).Some? then s
    else
      s.(table := AddRule(s.table, SyscallNr(p, syscall).value, Rule(action, RuleConds(args).value)), cache := None)
  }

  /** A loaded filter refuses first, then an unknown name or a number outside 32
      bits, then an entry outside its ranges; every other add is accepted. */
  lemma AddErrorExactly(p: Platform, s: State, syscall: Syscall, args: Args)
    ensures AddError(p, s, syscall, args) ==
      if s.loaded then Some(AlreadyLoaded)
      else if !Known(p, syscall) then Some(BadSyscall)
      else if !ArgsOk(args) then Some(BadArgs)
      else None
  {
    SyscallExactly(p, syscall, 0);
    ArgsExactly(args, RawEvent(0, 0, 0, [0, 0, 0, 0, 0, 0]));
  }

  lemma AddedCoherent(p: Platform, s: State, syscall: Syscall, action: u32, args: Args)
    requires Coherent(p, s)
    ensures Coherent(p, Added(p, s, syscall, action, args))
  {
    if AddError(p, s, syscall, args).None? {
      AddRuleValid(s.table, SyscallNr(p, syscall).value, Rule(action, RuleConds(args).value));
    }
  }

  ghost function Read(p: Platform, s: State): State
    requires s.table.Valid()
  {
    if s.cache.None? && CanCompile(p, s) then s.(cache := Some(Fresh(p, s))) else s
  }

  /** `load`, given how the kernel answers: whether no_new_privs is granted, and
      the value the install returns, if it does. */
  ghost function Loaded(p: Platform, s: State, nnp: bool, answer: Option<nat>): State
    requires s.table.Valid()
  {
    if s.loaded then s
    else
      var s1 := s.(calls := s.calls + [NoNewPrivs(nnp)]);
      if !nnp then s1
      else Installed(p, s1, answer)
  }

  /** The second half of `load`, behind a granted no_new_privs. */
  ghost function Installed(p: Platform, s: State, answer: Option<nat>): State
    requires s.table.Valid()
  {
    var s' := Read(p, s);
    if s'.cache.None? || !LengthOk(s'.cache.value) then s'
    else s'.(calls := s'.calls + [Install(s'.cache.value, s'.flags, answer.Some?)], loaded := answer.Some?)
  }

  /** The error `load` ends with, stage by stage. */
  ghost function LoadError(p: Platform, s: State, nnp: bool, answer: Option<nat>): Option<Error>
    requires s.table.Valid()
  {
    if s.loaded then Some(AlreadyLoaded)
    else if !nnp then Some(KernelRefused)
    else if !CanCompile(p, s) then Some(NotCompilable)
    else if !LengthOk(Fresh(p, s)) then Some(BadLength)
    else if answer.None? then Some(KernelRefused)
    else None
  }

  // ------------------------------------------------------------ the object

  class Filter {
    const platform: Platform
    const default: u32
    const flags: u32
    var order: seq<u32>
    var rules: map<u32, seq<Rule>>
    var program: Option<seq<u8>>
    var loaded: bool
    ghost var calls: seq<KernelCall>

    ghost function Now(): State
      reads this
    {
      State(default, flags, Table(order, rules), program, loaded, calls)
    }

    ghost predicate Valid()
      reads this
    {
      Coherent(platform, Now())
    }

    constructor (platform: Platform, default: u32, flags: u32)
      ensures Valid() && this.platform == platform
      ensures Now() == Initial(default, flags)
    {
      this.platform, this.default, this.flags := platform, default, flags;
      order, rules, program, loaded, calls := [], map[], None, false, [];
    }

    /** `Filter(default, flags)`: raises, here returns None, unless both fit a u32. */
    static method Create(platform: Platform, default: int, flags: int) returns (f: Option<Filter>)
      ensures f.Some? <==> 0 <= default < 0x1_0000_0000 && 0 <= flags < 0x1_0000_0000
      ensures f.Some? ==>
        fresh(f.value) && f.value.Valid() && f.value.platform == platform && f.value.Now() == Initial(default, flags)
    {
      if !(0 <= default <= U32_MAX) {
        return None;
      }
      if !(0 <= flags <= U32_MAX) {
        return None;
      }
      var filter := new Filter(platform, default, flags);
      f := Some(filter);
    }

    /** `_add`: either rejects and changes nothing, or appends the rule and drops the cache. */
    method Add(syscall: Syscall, action: u32, args: Args) returns (error: Option<Error>)
      requires Valid()
      modifies this
      ensures Valid()
      ensures error == old(AddError(platform, Now(), syscall, args))
      ensures error.None? <==> !old(loaded) && Known(platform, syscall) && ArgsOk(args)
      ensures Now() == old(Added(platform, Now(), syscall, action, args))
      ensures error.Some? ==> Now() == old(Now())
    {
      AddErrorExactly(platform, Now(), syscall, args);
      if loaded {
        return Some(AlreadyLoaded);
      }
      var resolved := SyscallNr(platform, syscall);
      if resolved.None? {
        return Some(BadSyscall);
      }
      var conds := RuleConds(args);
      if conds.None? {
        return Some(BadArgs);
      }
      var nr := resolved.value;
      ghost var after := Added(platform, Now(), syscall, action, args);
      AddedCoherent(platform, Now(), syscall, action, args);
      Append(nr, Rule(action, conds.value));
      program := None;
      assert Now() == after;
      error := None;
    }

    /** `_rules.setdefault(nr, []).append(rule)`. */
    method Append(nr: u32, rule: Rule)
      modifies this`order, this`rules
      ensures Table(order, rules) == old(AddRule(Table(order, rules), nr, rule))
    {
      if nr !in rules {
        order := order + [nr];
        rules := rules[nr := []];
      }
      rules := rules[nr := rules[nr] + [rule]];
    }

    /** The `program` property: the cached bytes, or a compilation that fills the cache. */
    method GetProgram() returns (r: Option<seq<u8>>)
      requires Valid()
      modifies this`program
      ensures Valid()
      ensures Now() == old(Read(platform, Now()))
      ensures r == program
      ensures r.Some? <==> CanCompile(platform, Now())
      ensures r.Some? ==> r.value == Fresh(platform, Now())
    {
      if program.None? {
        var compiled := Compile(platform.auditArch, default, Table(order, rules));
        if compiled.Ok? {
          program := Some(compiled.value);
        }
      }
      r := program;
    }

    /** `set_mode_filter`: the length check, then the kernel's answer. */
    method SetModeFilter(bytes: seq<u8>, answer: Option<nat>) returns (error: Option<Error>)
      modifies this`calls
      ensures LengthOk(bytes) <==> |bytes| % 8 == 0 && 8 <= |bytes| <= 8 * 4096
      ensures !LengthOk(bytes) ==> error == Some(BadLength) && calls == old(calls)
      ensures LengthOk(bytes) ==> calls == old(calls) + [Install(bytes, flags, answer.Some?)]
      ensures LengthOk(bytes) ==> error == if answer.None? then Some(KernelRefused) else None
    {
      if |bytes| % 8 != 0 || bytes == [] {
        return Some(BadLength);
      }
      if |bytes| / 8 > MAX_RECORDS {
        return Some(BadLength);
      }
      calls := calls + [Install(bytes, flags, answer.Some?)];
      error := if answer.None? then Some(KernelRefused) else None;
    }

    /** `load`, with the kernel's two answers as inputs; returns the listener's
        descriptor when the filter asked for one. */
    method Load(nnp: bool, answer: Option<nat>) returns (error: Option<Error>, listener: Option<nat>)
      requires Valid()
      modifies this
      ensures Valid()
      ensures Now() == old(Loaded(platform, Now(), nnp, answer))
      ensures error == old(LoadError(platform, Now(), nnp, answer))
      ensures error.None? <==> !old(loaded) && loaded
      ensures listener.Some? <==> error.None? && (flags / 8) % 2 == 1
      ensures listener.Some? ==> listener == answer
    {
      listener := None;
      ListenerBit(flags);
      if loaded {
        return Some(AlreadyLoaded), None;
      }
      calls := calls + [NoNewPrivs(nnp)];
      if !nnp {
        return Some(KernelRefused), None;
      }
      error := InstallProgram(answer);
      if error.None? && BitAnd(flags, NEW_LISTENER) != 0 {
        listener := answer;
      }
    }

    /** The rest of `load`: the program, the install, and the mark that it is loaded. */
    method InstallProgram(answer: Option<nat>) returns (error: Option<Error>)
      requires Valid() && !loaded
      modifies this`program, this`calls, this`loaded
      ensures Valid()
      ensures Now() == old(Installed(platform, Now(), answer))
      ensures error == old(LoadError(platform, Now(), true, answer))
      ensures error.None? <==> loaded
      ensures error.None? ==> answer.Some?
    {
      var bytes := GetProgram();
      if bytes.None? {
        return Some(NotCompilable);
      }
      error := SetModeFilter(bytes.value, answer);
      if error.None? {
        loaded := true;
      }
    }
  }

  /** The listener is asked for by bit 3 of the flags. */
  lemma ListenerBit(flags: nat)
    ensures BitAnd(flags, NEW_LISTENER) != 0 <==> (flags / 8) % 2 == 1
  {
    var half, quarter := flags / 2, flags / 4;
    AndUnfold(flags, 8);
    AndUnfold(half, 4);
    AndUnfold(quarter, 2);
    AndUnfold(flags / 8, 1);
  }

  // ------------------------------------------------------------- histories

  datatype Op =
    | AddOp(syscall: Syscall, action: u32, args: Args)
    | ReadOp
    | LoadOp(nnp: bool, answer: Option<nat>)

  ghost function Apply(p: Platform, s: State, op: Op): State
    requires s.table.Valid()
  {
    match op
    case AddOp(syscall, action, args) => Added(p, s, syscall, action, args)
    case ReadOp => Read(p, s)
    case LoadOp(nnp, answer) => Loaded(p, s, nnp, answer)
  }

  /** The state after a whole history. */
  ghost function Exec(p: Platform, s: State, ops: seq<Op>): (s': State)
    requires s.table.Valid()
    ensures s'.table.Valid()
  {
    if ops == [] then s
    else
      var before := Exec(p, s, ops[..|ops| - 1]);
      ApplyKeepsTable(p, before, ops[|ops| - 1]);
      Apply(p, before, ops[|ops| - 1])
  }

  lemma ApplyKeepsTable(p: Platform, s: State, op: Op)
    requires s.table.Valid()
    ensures Apply(p, s, op).table.Valid()
  {
    if op.AddOp? && AddError(p, s, op.syscall, op.args).None? {
      AddRuleValid(s.table, SyscallNr(p, op.syscall).value, Rule(op.action, RuleConds(op.args).value));
    }
  }

  /** Successful installs so far. */
  function Installs(calls: seq<KernelCall>): nat {
    if calls == [] then 0
    else
      var last := calls[|calls| - 1];
      Installs(calls[..|calls| - 1]) + if last.Install? && last.ok then 1 else 0
  }

  /** Every install attempt directly follows a granted no_new_privs. */
  ghost predicate PrivsFirst(calls: seq<KernelCall>) {
    forall i | 0 <= i < |calls| && calls[i].Install? :: i > 0 && calls[i - 1] == NoNewPrivs(true)
  }

  /** Installed programs are the current rules' program. */
  ghost predicate InstalledIsCurrent(p: Platform, s: State) {
    forall i | 0 <= i < |s.calls| && s.calls[i].Install? && s.calls[i].ok ::
      s.loaded && s.cache == Some(s.calls[i].program)
  }

  /** What every history keeps. */
  ghost predicate Inv(p: Platform, s: State) {
    && Coherent(p, s)
    && Installs(s.calls) == (if s.loaded then 1 else 0)
    && PrivsFirst(s.calls)
    && InstalledIsCurrent(p, s)
    && (s.loaded ==> s.cache.Some? && LengthOk(s.cache.value))
  }

  lemma InstallsPush(calls: seq<KernelCall>, c: KernelCall)
    ensures Installs(calls + [c]) == Installs(calls) + if c.Install? && c.ok then 1 else 0
  {
    assert (calls + [c])[..|calls|] == calls;
  }

  lemma ReadKeepsInv(p: Platform, s: State)
    requires Inv(p, s)
    ensures Inv(p, Read(p, s))
  {}

  lemma PrivsKeepInv(p: Platform, s: State, nnp: bool)
    requires Inv(p, s)
    ensures Inv(p, s.(calls := s.calls + [NoNewPrivs(nnp)]))
  {
    InstallsPush(s.calls, NoNewPrivs(nnp));
    PrivsFirstPush(s.calls, NoNewPrivs(nnp));
  }

  lemma PrivsFirstPush(calls: seq<KernelCall>, c: KernelCall)
    requires PrivsFirst(calls)
    requires c.Install? ==> calls != [] && calls[|calls| - 1] == NoNewPrivs(true)
    ensures PrivsFirst(calls + [c])
  {}

  lemma InstallKeepsInv(p: Platform, s: State, ok: bool)
    requires Inv(p, s) && !s.loaded && s.cache.Some? && LengthOk(s.cache.value)
    requires s.calls != [] && s.calls[|s.calls| - 1] == NoNewPrivs(true)
    ensures Inv(p, s.(calls := s.calls + [Install(s.cache.value, s.flags, ok)], loaded := ok))
  {
    InstallsPush(s.calls, Install(s.cache.value, s.flags, ok));
    PrivsFirstPush(s.calls, Install(s.cache.value, s.flags, ok));
  }

  lemma LoadKeepsInv(p: Platform, s: State, nnp: bool, answer: Option<nat>)
    requires Inv(p, s)
    ensures Inv(p, Loaded(p, s, nnp, answer))
  {
    if !s.loaded {
      PrivsKeepInv(p, s, nnp);
      if nnp {
        var s1 := s.(calls := s.calls + [NoNewPrivs(nnp)]);
        ReadKeepsInv(p, s1);
        var s2 := Read(p, s1);
        if s2.cache.Some? && LengthOk(s2.cache.value) { InstallKeepsInv(p, s2, answer.Some?); }
      }
    }
  }

  lemma ApplyKeepsInv(p: Platform, s: State, op: Op)
    requires Inv(p, s)
    ensures Inv(p, Apply(p, s, op))
  {
    ApplyKeepsTable(p, s, op);
    match op
    case AddOp(_, _, _) =>
    case ReadOp => ReadKeepsInv(p, s);
    case LoadOp(nnp, answer) => LoadKeepsInv(p, s, nnp, answer);
  }

  /** After any sequence of adds, reads and loads, whatever the kernel answered:
      the cache is what a fresh compile gives, at most one install succeeded and
      the filter is loaded exactly if one did, every install attempt followed a
      granted no_new_privs, and the installed bytes are the current rules'. */
  lemma {:induction false} HistoryKeepsInv(p: Platform, default: u32, flags: u32, ops: seq<Op>)
    ensures Inv(p, Exec(p, Initial(default, flags), ops))
  {
    if ops != [] {
      HistoryKeepsInv(p, default, flags, ops[..|ops| - 1]);
      ApplyKeepsInv(p, Exec(p, Initial(default, flags), ops[..|ops| - 1]), ops[|ops| - 1]);
    }
  }

  /** Loading is final: nothing that happens afterwards changes the filter. */
  lemma {:induction false} LoadedIsFrozen(p: Platform, s: State, ops: seq<Op>)
    requires Inv(p, s) && s.loaded
    ensures Exec(p, s, ops) == s
  {
    if ops != [] { LoadedIsFrozen(p, s, ops[..|ops| - 1]); }
  }

  /** Every program ever installed enforces the filter's policy on every event,
      and keeps being the policy through whatever is tried later. */
  lemma InstalledEnforces(p: Platform, default: u32, flags: u32, ops: seq<Op>, i: nat, later: seq<Op>, e: Event)
    requires var s := Exec(p, Initial(default, flags), ops);
      i < |s.calls| && s.calls[i].Install? && s.calls[i].ok
    ensures var s := Exec(p, Initial(default, flags), ops);
      var s' := Exec(p, s, later);
      && s' == s
      && s.calls[i].flags == s.flags
      && RunOn(s.calls[i].program, e) == Returned(Decide(p.auditArch, s'.default, s'.table.rules, e))
  {
    var s := Exec(p, Initial(default, flags), ops);
    HistoryKeepsInv(p, default, flags, ops);
    assert s.loaded && s.cache == Some(s.calls[i].program);
    LoadedIsFrozen(p, s, later);
    ProgramDecides(p.auditArch, s.default, s.table, e);
    HistoryKeepsFlags(p, default, flags, ops);
  }

  /** Every install attempt passes the filter's own flags. */
  ghost predicate FlagsPassed(s: State) {
    forall i | 0 <= i < |s.calls| && s.calls[i].Install? :: s.calls[i].flags == s.flags
  }

  lemma ApplyKeepsFlags(p: Platform, s: State, op: Op)
    requires s.table.Valid() && FlagsPassed(s)
    ensures var s' := Apply(p, s, op);
      s'.flags == s.flags && s'.default == s.default && FlagsPassed(s')
  {}

  lemma {:induction false} HistoryKeepsFlags(p: Platform, default: u32, flags: u32, ops: seq<Op>)
    ensures var s := Exec(p, Initial(default, flags), ops);
      s.flags == flags && s.default == default && FlagsPassed(s)
  {
    if ops != [] {
      HistoryKeepsFlags(p, default, flags, ops[..|ops| - 1]);
      ApplyKeepsFlags(p, Exec(p, Initial(default, flags), ops[..|ops| - 1]), ops[|ops| - 1]);
    }
  }

  lemma ProgramLength(p: Platform, s: State)
    requires s.table.Valid()
    ensures CanCompile(p, s) <==> RecordCount(p.auditArch, s.default, s.table) <= 0x1_0000_0003
    ensures CanCompile(p, s) ==>
      (LengthOk(Fresh(p, s)) <==> RecordCount(p.auditArch, s.default, s.table) <= 4096)
  {
    CompilesExactlyWhen(p.auditArch, s.default, s.table);
  }

  /** When the kernel agrees, a filter loads exactly if its program has at most 4096 records. */
  lemma LoadsExactlyWhen(p: Platform, s: State, fd: nat)
    requires Coherent(p, s) && !s.loaded
    ensures Loaded(p, s, true, Some(fd)).loaded <==> RecordCount(p.auditArch, s.default, s.table) <= 4096
  {
    ProgramLength(p, s);
  }

  /** Each stage of a load fails on its own condition: the filter is loaded, the
      kernel refuses no_new_privs, the program passes 2^32 + 3 records, it passes
      4096, or the kernel refuses the install. */
  lemma LoadErrorExactly(p: Platform, s: State, nnp: bool, answer: Option<nat>)
    requires s.table.Valid()
    ensures LoadError(p, s, nnp, answer) ==
      var n := RecordCount(p.auditArch, s.default, s.table);
      if s.loaded then Some(AlreadyLoaded)
      else if !nnp then Some(KernelRefused)
      else if n > 0x1_0000_0003 then Some(NotCompilable)
      else if n > 4096 then Some(BadLength)
      else if answer.None? then Some(KernelRefused)
      else None
  {
    ProgramLength(p, s);
  }

  /** In particular if its size bound is within 4096. */
  lemma SmallFilterInstalls(p: Platform, s: State, fd: nat)
    requires Coherent(p, s) && !s.loaded && RecordBound(s.table) <= 4096
    ensures Loaded(p, s, true, Some(fd)).loaded
  {
    CompileSucceeds(p.auditArch, s.default, s.table);
    CompilesExactlyWhen(p.auditArch, s.default, s.table);
    LoadsExactlyWhen(p, s, fd);
  }

  // ------------------------------------------------- which operation makes which calls

  /** The kernel calls one operation makes: a load asks for no_new_privs itself,
      and only a load that was granted it goes on to install. */
  ghost function CallsBy(p: Platform, s: State, op: Op): seq<KernelCall>
    requires s.table.Valid()
  {
    if !op.LoadOp? || s.loaded then []
    else if op.nnp && CanCompile(p, s) && LengthOk(Fresh(p, s)) then
      [NoNewPrivs(true), Install(Fresh(p, s), s.flags, op.answer.Some?)]
    else [NoNewPrivs(op.nnp)]
  }

  ghost function AllCalls(p: Platform, s: State, ops: seq<Op>): seq<KernelCall>
    requires s.table.Valid()
  {
    if ops == [] then []
    else
      var init := ops[..|ops| - 1];
      AllCalls(p, s, init) + CallsBy(p, Exec(p, s, init), ops[|ops| - 1])
  }

  lemma OpCalls(p: Platform, s: State, op: Op)
    requires Coherent(p, s)
    ensures Apply(p, s, op).calls == s.calls + CallsBy(p, s, op)
  {
    if CanCompile(p, s) && op.LoadOp? {
      var install := Install(Fresh(p, s), s.flags, op.answer.Some?);
      assert s.calls + [NoNewPrivs(true)] + [install] == s.calls + [NoNewPrivs(true), install];
    }
  }

  /** The call log of any history is exactly its operations' calls one after the
      other: every install attempt follows the no_new_privs of the same load. */
  lemma {:induction false} HistoryCalls(p: Platform, default: u32, flags: u32, ops: seq<Op>)
    ensures Exec(p, Initial(default, flags), ops).calls == AllCalls(p, Initial(default, flags), ops)
  {
    if ops != [] {
      var init := ops[..|ops| - 1];
      HistoryCalls(p, default, flags, init);
      HistoryKeepsInv(p, default, flags, init);
      OpCalls(p, Exec(p, Initial(default, flags), init), ops[|ops| - 1]);
    }
  }

  // --------------------------------------------- the order conditions are given in

  /** The same operation, up to how the conditions of an add are given. */
  ghost predicate SameOp(a: Op, b: Op) {
    a == b || (a.AddOp? && b.AddOp? && a.syscall == b.syscall && a.action == b.action && SameArgs(a.args, b.args))
  }

  ghost predicate SameOps(a: seq<Op>, b: seq<Op>) {
    |a| == |b| && forall i | 0 <= i < |a| :: SameOp(a[i], b[i])
  }

  /** The two histories are loaded after the same operations. */
  ghost predicate LoadTogether(p: Platform, s: State, a: seq<Op>, b: seq<Op>)
    requires s.table.Valid() && |a| == |b|
  {
    forall k | 0 <= k <= |a| :: Exec(p, s, a[..k]).loaded == Exec(p, s, b[..k]).loaded
  }

  /** Same operations on alike filters are accepted or rejected alike and keep them alike. */
  lemma SameOpKeepsAlike(p: Platform, s: State, u: State, a: Op, b: Op)
    requires s.table.Valid() && u.table.Valid() && PermutedTables(s.table, u.table)
    requires SameOp(a, b) && s.loaded == u.loaded
    ensures PermutedTables(Apply(p, s, a).table, Apply(p, u, b).table)
    ensures a.AddOp? ==> AddError(p, s, a.syscall, a.args) == AddError(p, u, b.syscall, b.args)
  {
    if a.AddOp? {
      SameArgsSameConds(a.args, b.args);
      if AddError(p, s, a.syscall, a.args).None? {
        AddKeepsPermuted(s.table, u.table, SyscallNr(p, a.syscall).value, a.action,
                         RuleConds(a.args).value, RuleConds(b.args).value);
      }
    }
  }

  lemma LoadTogetherBefore(p: Platform, s: State, a: seq<Op>, b: seq<Op>, n: nat)
    requires s.table.Valid() && n <= |a| == |b| && LoadTogether(p, s, a, b)
    ensures LoadTogether(p, s, a[..n], b[..n])
    ensures Exec(p, s, a[..n]).loaded == Exec(p, s, b[..n]).loaded
  {
    forall k | 0 <= k <= n
      ensures Exec(p, s, a[..n][..k]).loaded == Exec(p, s, b[..n][..k]).loaded
    {
      assert a[..n][..k] == a[..k] && b[..n][..k] == b[..k];
    }
  }

  lemma {:induction false} SameOpsAlike(p: Platform, s: State, a: seq<Op>, b: seq<Op>)
    requires s.table.Valid() && SameOps(a, b) && LoadTogether(p, s, a, b)
    ensures PermutedTables(Exec(p, s, a).table, Exec(p, s, b).table)
  {
    if a != [] {
      var n := |a| - 1;
      LoadTogetherBefore(p, s, a, b, n);
      SameOpsAlike(p, s, a[..n], b[..n]);
      assert SameOp(a[n], b[n]);
      SameOpKeepsAlike(p, Exec(p, s, a[..n]), Exec(p, s, b[..n]), a[n], b[n]);
    }
  }

  /** Giving the conditions of the adds in any other order, or as mappings instead
      of lists, changes no decision of the compiled bytes on any event. */
  lemma GivenOrderIrrelevant(p: Platform, default: u32, flags: u32, a: seq<Op>, b: seq<Op>, e: Event)
    requires SameOps(a, b) && LoadTogether(p, Initial(default, flags), a, b)
    requires CanCompile(p, Exec(p, Initial(default, flags), a)) && CanCompile(p, Exec(p, Initial(default, flags), b))
    ensures RunOn(Fresh(p, Exec(p, Initial(default, flags), a)), e)
         == RunOn(Fresh(p, Exec(p, Initial(default, flags), b)), e)
  {
    var s, u := Exec(p, Initial(default, flags), a), Exec(p, Initial(default, flags), b);
    SameOpsAlike(p, Initial(default, flags), a, b);
    HistoryKeepsFlags(p, default, flags, a);
    HistoryKeepsFlags(p, default, flags, b);
    ConditionOrderIrrelevant(p.auditArch, default, s.table, u.table, e);
  }

  /** Histories without a load always qualify. */
  lemma {:induction false} NoLoads(p: Platform, s: State, ops: seq<Op>)
    requires s.table.Valid() && forall i | 0 <= i < |ops| :: !ops[i].LoadOp?
    ensures Exec(p, s, ops).loaded == s.loaded
  {
    if ops != [] { NoLoads(p, s, ops[..|ops| - 1]); }
  }

  lemma AddsLoadTogether(p: Platform, s: State, a: seq<Op>, b: seq<Op>)
    requires s.table.Valid() && SameOps(a, b) && forall i | 0 <= i < |a| :: !a[i].LoadOp?
    ensures LoadTogether(p, s, a, b)
  {
    forall k | 0 <= k <= |a| ensures Exec(p, s, a[..k]).loaded == Exec(p, s, b[..k]).loaded {
      assert forall i | 0 <= i < k :: SameOp(a[i], b[i]);
      NoLoads(p, s, a[..k]);
      NoLoads(p, s, b[..k]);
    }
  }
}
