# seccompy: a verified model of the filter compiler and assembler

seccompy turns a default action and per-syscall rules into the bytes of a
classic BPF program that the kernel runs on every syscall. This project models
that whole path in Dafny 4.11 and proves it correct, from the rules a user
declares down to the packed `sock_filter` records:

1. a policy has a meaning of its own, with no BPF in it (`Policy.dfy`);
2. `Filter._compile` and `_emit_cond` turn it into a symbolic program
   (`Compiler.dfy` as functions, `Compilation.dfy` as the loops that grow the
   instruction list and the label dictionary);
3. `assemble` lays the program out by branch relaxation and encodes it
   (`Relaxation.dfy`, `Assembler.dfy`);
4. `Filter` caches the bytes and loads them once (`Filters.dfy`);
5. what a caller asked for is read off the literal arguments of the calls
   (`Requests.dfy`), and that is what the installed bytes do (`Decisions.dfy`).

The main results, each for all inputs:

- **From the calls to the kernel** (`Decisions.HistoryDecides`,
  `Decisions.LoadEnforces`): after any history of adds, reads and failed loads,
  the bytes that are compiled, and those a load then installs for good, kill
  foreign ABIs with 0x80000000 and otherwise return the action of the first
  accepted call whose literal number or name is the event's syscall and whose
  conditions, by operator number and by bits of the mask, hold on it; else the
  default. No coercion, sorting, rule table or program appears in that statement.
- **End to end** (`EndToEnd.ProgramDecides`): interpreting the program's bytes
  on the 64-byte `seccomp_data` record of any event returns KILL_PROCESS on a
  foreign ABI, else the action of the first rule of the syscall whose
  conditions all hold on the 64-bit arguments, else the default.
- **The assembler preserves meaning** (`Simulation.AssemblePreservesMeaning`):
  packed bytes and symbolic program have the same outcome on any data, through
  short jumps and all three trampoline shapes, including running past the end.
- **Relaxation finds the least layout** (`Relaxation.RelaxationIsLeast`,
  `Relaxation.ResolveSizes`): although each pass works with stale positions, the
  result is pointwise below every legal layout, and |insns| + 1 passes suffice;
  legal means exactly that every jump left in one record has a record that lands
  on its targets (`Relaxation.LeastEncodable`).
- **The bytes** (`Wire.AssembledBytes`): each instruction's records, byte by
  byte, with literal opcodes and offsets, and nothing else in the output.
- **Exactly when assembling succeeds** (`Assembler.Assemble`), and exactly when
  compiling does (`Compilation.Compile`, `Sizes.CompilesExactlyWhen`): up to
  2^32 + 3 records, and never with a label error.
- **Comparison lowering** (`Meaning.CondCodeLands`): for each of the seven
  operators the 32-bit code reaches `passed` or `fail` by the 64-bit relation.
- **The order conditions are given in is irrelevant**
  (`Filters.GivenOrderIrrelevant`), from the caller's arguments to the bytes.
- **Histories** (`Filters.HistoryKeepsInv`, `Filters.InstalledEnforces`): over
  every sequence of adds, reads and loads, under arbitrary kernel answers, the
  cache is coherent, at most one install succeeds, and what was installed
  enforces the policy from then on.

Files, bottom up: `Words` (fixed widths, bitwise AND, little-endian bytes),
`Bpf` (instructions, records, interpreters), `Relaxation`, `Assembler`,
`Simulation`, `KernelCheck`, `Wire` (the bytes), `SeccompData`, `Policy`,
`Requests` (what a call asks for), `LabelNames`, `Compiler`, `Linking` (labels
of compiled programs), `Meaning` (what they compute), `Sizes`, `Lengths`,
`Compilation`, `EndToEnd`, `Filters`, `Decisions`.

Modelling choices:

- Integers are mathematical; widths are subset types (`u8`, `u16`, `u32`, `u64`,
  `i32`). `&` on non-negative integers is `Words.BitAnd` and `x & ~y` is
  `Words.AndNot`, both characterised by every bit `(v / 2^i) % 2`. `nr & 0xFFFFFFFF` is the identity on a syscall
  number that passed `syscall_nr`, which is a `u32` here.
- The two interpreters are those of `tests/test_bpf.py`. Running past the end is
  an explicit outcome, and opcodes are written there as literal numbers. Data is any function from offset to word; `seccomp_data`
  is one instance.
- The rule dictionary is its key order plus a map. `sorted` is a stable
  insertion sort, shown to be the only ordered arrangement that keeps the order
  of conditions on the same argument.
- Exceptions are results. "`_compile` never raises" is false for programs of
  more than 2^32 + 3 records, where a JA offset overflows: that is the exact
  condition (`Sizes.CompilesExactlyWhen`), with a concrete filter that fails
  (`Sizes.HugeTableFails`).
- The kernel is an oracle: `load` takes its two answers as inputs and records
  the calls it made.

## Model

| member | source | states |
|---|---|---|
| Words.AndPartition | src/seccompy/filter.py:125-127 | the bits of a value inside a mask and those outside add up to the value, so `value & ~mask == 0` says exactly that masking keeps the value |
| Words.AndBits | src/seccompy/filter.py:391-399 | bit i of `x & y` is 1 exactly when bit i of both is, for every i |
| Words.AndNotBits | src/seccompy/filter.py:126-126 | bit i of `x & ~y` is 1 exactly when bit i of x is 1 and bit i of y is 0 |
| Words.InsideExactly | src/seccompy/filter.py:125-127 | the mask check passes exactly when every bit of the value is a bit of the mask |
| Words.MaskedExactly | src/seccompy/filter.py:88-90 | for a value inside the mask, `arg & mask == value` says exactly that arg and value agree on every bit of the mask |
| Words.MeetsExactly | src/seccompy/filter.py:329-329 | `x & y` is not zero exactly when some bit is set in both |
| Words.AndWords | src/seccompy/filter.py:391-399 | a 64-bit AND, characterised bit by bit, is the AND of the high words and the AND of the low words |
| Words.LERoundTrip | src/seccompy/bpf.py:12-13 | decoding the n little-endian bytes of a value that fits gives the value |
| Words.LEInverse | src/seccompy/bpf.py:12-13 | re-encoding the value of any byte string gives the same bytes |
| Bpf.PackUnpack | src/seccompy/bpf.py:229-248 | a packed record unpacks to itself and any 8 bytes are the packing of what they unpack to, in the byte order that PackLayout spells out |
| Bpf.PackLayout | src/seccompy/bpf.py:229-248 | the 8 bytes of a record are the low and high byte of its code, jt, jf, and the four bytes of k, least significant first |
| Bpf.PackAllAt | src/seccompy/bpf.py:162-165 | bytes 8p to 8p+7 of a packed program are record p, and decode to exactly its code, jt, jf and k |
| Bpf.PackedRunsAsRecords | tests/test_bpf.py:22-47 | interpreting packed bytes is interpreting the records |
| Relaxation.Positions | src/seccompy/bpf.py:137-142 | the in-place loop computes every prefix sum of the sizes |
| Relaxation.GapMonotone | src/seccompy/bpf.py:178-181 | growing instructions never brings two positions closer |
| Relaxation.PassProgress | src/seccompy/bpf.py:186-193 | a pass that changes anything turns some short jump into an expanded one and shrinks nothing |
| Relaxation.PassStaysBelow | src/seccompy/bpf.py:184-191 | a pass that starts below a legal layout ends below it, stale positions notwithstanding |
| Relaxation.RelaxationIsLeast | src/seccompy/bpf.py:178-194 | relaxation returns a legal layout (every short jump's offsets are below 0x100) that is pointwise below every legal layout, and it is the only such layout |
| Relaxation.LegalIsEncodable | src/seccompy/bpf.py:243-248 | among forward programs a layout is legal exactly when every jump left in one record has some record, with 8-bit jt and jf, that lands on its targets |
| Relaxation.LeastEncodable | src/seccompy/bpf.py:178-223 | hence the result is pointwise below every layout in which one record suffices for each short jump, and is itself such a layout |
| Relaxation.LeastIsSmallest | src/seccompy/bpf.py:178-194 | no legal layout has fewer records in total |
| Relaxation.PackedLength | src/seccompy/bpf.py:137-148 | the first i instructions take between i and 3i records |
| Relaxation.NeedsExpansionDecidesFar | src/seccompy/bpf.py:205-223 | the early-returning test decides whether some target's offset does not fit 8 bits, and raises only for a label that is not ahead |
| Relaxation.RunPass | src/seccompy/bpf.py:184-191 | the in-place inner loop performs exactly one pass and reports whether it changed anything |
| Relaxation.ResolveSizes | src/seccompy/bpf.py:178-194 | within len(insns)+1 passes it returns the least layout; "did not converge" is unreachable and the only error is a label not ahead |
| Assembler.ValidateLabels | src/seccompy/bpf.py:168-175 | succeeds exactly when every named label is defined and between 0 and len(insns) |
| Assembler.EmitOutcome | src/seccompy/bpf.py:226-280 | in a legal layout encoding an instruction succeeds exactly when its labels are ahead and its JA records fit 32 bits, and yields exactly its size in records; a short jump is never out of range, a JA never lacks a target, trampolines of a forward jump never have a negative offset, and "JA target out of range" arises only for a forward instruction whose JA overflows 32 bits |
| Assembler.ForwardTrampolines | src/seccompy/bpf.py:277-279 | every trampoline offset of an expanded forward jump is at least zero |
| Assembler.ExpandedHasTarget | src/seccompy/bpf.py:275-276 | a jump without labels is never expanded, so a JA always has a target |
| Assembler.SmallIsAssemblable | src/seccompy/bpf.py:151-158 | with valid labels and at most 2^32 records, a program is accepted exactly when every label is strictly ahead |
| Assembler.ShortIsAssemblable | src/seccompy/bpf.py:151-158 | a program of at most 2^32/3 instructions is accepted exactly when every named label is defined, at most len(insns) and strictly after the instruction naming it; the early return in the expansion test lets nothing else through |
| Assembler.ImageAt | src/seccompy/bpf.py:161-165 | instruction i starts at record pos[i] and occupies exactly its own records |
| Assembler.ImageLength | src/seccompy/bpf.py:137-165 | the output has pos[n] records, between n and 3n |
| Assembler.EmitAll | src/seccompy/bpf.py:161-165 | the emission loop succeeds exactly when every instruction encodes, and then concatenates their records; it reports a JA out of range only if some JA of the layout overflows |
| Assembler.Assemble | src/seccompy/bpf.py:151-165 | succeeds exactly on well-labelled programs whose JA records fit, and returns the packed least layout; fails only with an undefined or out-of-range label (exactly when some label is), a backward jump (only if some label is not ahead) or a JA out of range (only if one overflows 32 bits in the least layout) |
| Wire.ExpandedRecords | src/seccompy/bpf.py:253-269 | an expanded jump's records in each of the three shapes: hop 1/0 and a JA to jf, or hop 0/1, a JA to jt and a JA to jf if there is one, each with the exact distance |
| Wire.AssembledBytes | src/seccompy/bpf.py:226-280 | every instruction of the assembled output, byte by byte: opcode 0x20, 0x54, 0x06, 0x05, 0x15, 0x25, 0x35 or 0x45, jt and jf as distances in records or 0, the operand little-endian, trampolines included; the output has 8 bytes per record and no others |
| Simulation.ShortJumpLands | src/seccompy/bpf.py:243-248 | a short jump goes in one step to the record of its source target |
| Simulation.ExpandedJumpLands | src/seccompy/bpf.py:253-269 | an expanded jump reaches the record of its source target in each of the three shapes |
| Simulation.Simulates | tests/test_bpf.py:222-230 | from corresponding positions the records and the source run to the same outcome |
| Simulation.AssemblePreservesMeaning | src/seccompy/bpf.py:151-165 | running the assembled bytes equals running the symbolic program on any data, running past the end included |
| KernelCheck.AcceptedReturns | tests/test_bpf.py:22-47 | a program whose jumps stay inside, whose loads are legal and which ends in RET returns on all data, executing each record at most once |
| KernelCheck.AssembledIsAccepted | src/seccompy/bpf.py:226-280 | assembling a program whose labels are ahead and inside, with legal loads and a final Ret, gives such records |
| SeccompData.HeaderWords | src/seccompy/_syscall.py:51-59 | the record has 64 bytes, with the number modulo 2^32 at offset 0 and the ABI at offset 4 |
| SeccompData.ArgWords | src/seccompy/filter.py:362-363 | argument i has its low word at 16+8i and its high word 4 later |
| SeccompData.WordIs | tests/test_bpf.py:22-47 | a loaded word is its four bytes, least significant first |
| Policy.InsideMask | src/seccompy/filter.py:117-129 | an accepted masked condition has its value inside its mask, word by word |
| Policy.FirstMatchIsFirst | src/seccompy/filter.py:159-163 | the decision is the action of the first rule that matches, or the default when none does |
| Policy.AddIsLocal | src/seccompy/filter.py:194-213 | a new rule changes the policy exactly on native events for its syscall that it matches and no earlier rule does |
| Policy.DeadRules | src/seccompy/filter.py:298-302 | rules after an unconditional one decide nothing |
| Policy.SortIsStable | src/seccompy/filter.py:211-211 | sorting by argument permutes the conditions, orders them, keeps those on one argument in order, and is the only arrangement that does |
| Policy.OrderIrrelevant | src/seccompy/filter.py:203-212 | any order of the same conditions matches the same events |
| Policy.CoerceIsExact | src/seccompy/filter.py:140-147 | a 4-tuple gives exactly the condition with its four fields or nothing, a 3-tuple is the 4-tuple with a full mask, an ArgCmp is itself |
| Policy.CondsMeanConjunction | src/seccompy/filter.py:209-212 | a list of conditions is accepted exactly when each one is, and matches exactly when all hold |
| Policy.RuleCondsAreSorted | src/seccompy/filter.py:209-212 | the rule stores the coerced entries ordered by argument, those on one argument in the order given |
| Policy.SameArgsSameConds | src/seccompy/filter.py:203-212 | the same entries in any order, or a mapping and its equalities, are accepted or rejected together and give the same conditions up to order |
| Policy.MappingMeansEqualities | src/seccompy/filter.py:204-208 | a mapping gives the conditions of its list of equalities, is accepted exactly when all indices and values are in range, and matches exactly when all those arguments are equal |
| Requests.SyscallExactly | src/seccompy/syscalls.py:807-821 | a number is accepted exactly from 0 to 2^32 - 1 and stands for itself, a name exactly when it is in the table and stands for its entry |
| Requests.EntryExactly | src/seccompy/filter.py:117-147 | an entry is accepted exactly when index is 0 to 5, the operator number 0 to 6, value and mask fit 64 bits, and the value's bits lie inside the mask (6) or the mask is full (0 to 5); it then holds exactly by ==, !=, <, <=, >, >= or agreement on the mask's bits |
| Requests.ArgsExactly | src/seccompy/filter.py:202-212 | the conditions of a rule are accepted exactly when every entry is acceptable, and all hold exactly when every entry does |
| Requests.Unconditional | src/seccompy/filter.py:202-203 | no args, an empty mapping and an empty list give a rule without conditions, which matches every event |
| LabelNames.RenderInjective | src/seccompy/filter.py:290-305 | distinct kill, block, next and hit labels have distinct strings |
| Linking.LabelsBoundOnce | src/seccompy/filter.py:295-311 | a compiled program has as many labels as binding steps, so no name is bound twice |
| Linking.RuleLinks | src/seccompy/filter.py:303-307 | in the finished program the label of the next rule is right behind this rule's Ret, untouched by later rules |
| Linking.CompiledIsContained | src/seccompy/filter.py:282-313 | in every compiled program each named label is bound strictly ahead of the jump and inside the program, loads are aligned and below 64, and the last instruction is a Ret |
| Meaning.EqualityCode | src/seccompy/filter.py:367-376 | EQ and NE code arrives at passed exactly when the 64-bit values are equal, or differ, and at fail otherwise |
| Meaning.BelowCode | src/seccompy/filter.py:377-383 | LT and LE code arrives at passed exactly when the unsigned 64-bit relation holds, and at fail otherwise |
| Meaning.AboveCode | src/seccompy/filter.py:384-390 | GT and GE code arrives at passed exactly when the unsigned 64-bit relation holds, and at fail otherwise |
| Meaning.MaskedHolds | src/seccompy/filter.py:391-396 | masked equality on 64 bits is masked equality of both words, and a word with a zero mask always matches because the value is inside the mask |
| Meaning.MaskedCode | src/seccompy/filter.py:391-399 | MASKED_EQ code, with zero mask words skipped, arrives at passed exactly when the masked argument equals the value, and at fail otherwise |
| Meaning.CondCodeLands | src/seccompy/filter.py:347-400 | for each operator, argument, value, mask and accumulator, and whatever follows, the code's run continues at passed exactly when the condition holds and at fail otherwise |
| Meaning.CondCodeDecides | src/seccompy/filter.py:347-400 | so where both labels lead to fixed results, the condition chooses between them |
| Meaning.RuleDecides | src/seccompy/filter.py:303-307 | a rule returns its action when all conditions hold, and a condition that fails at any depth lands on the next rule |
| Meaning.RulesDecide | src/seccompy/filter.py:297-309 | the code of a rule list of any length returns its first match or the default |
| Meaning.DispatchDecides | src/seccompy/filter.py:286-293 | the dispatch chain reaches the block of the event's syscall, or the default |
| Meaning.CompiledDecides | src/seccompy/filter.py:282-313 | the symbolic program returns the policy's decision for any data that holds the event |
| Sizes.CondWeight | src/seccompy/filter.py:367-399 | one condition takes at most nine records |
| Sizes.LayoutBound | src/seccompy/filter.py:282-313 | whatever jumps expand, S syscalls, R rules and C conditions take at most 6+3S+R+9C records |
| Sizes.CompilesExactlyWhen | src/seccompy/filter.py:282-313 | a filter compiles exactly when its program has at most 2^32 + 3 records, because the architecture check spans all the rest; the output has exactly that many records |
| Sizes.TooManyFails | src/seccompy/bpf.py:277-279 | more than 2^32 + 3 instructions, or that many conditional rules on one syscall, make compiling raise |
| Sizes.HugeTableFails | src/seccompy/bpf.py:277-279 | one syscall with 2^32 + 4 one-condition rules is a concrete filter that does not compile |
| Sizes.CompileSucceeds | src/seccompy/bpf.py:145-165 | a filter whose bound 6+3S+R+9C is at most 2^32 + 3 compiles, to no more records than the bound |
| Lengths.CondShape | src/seccompy/filter.py:362-399 | one condition's code has 4 instructions for equality, 5 for an order and 3 per mask word that is not zero, and loads exactly the words it needs: low then high, high then low, and no word whose mask is zero |
| Lengths.ListingLength | src/seccompy/filter.py:282-313 | the listing has five instructions, one per syscall, and per block the rules up to the first unconditional one |
| Lengths.ExactWhenShort | src/seccompy/filter.py:282-313 | the program has one record per instruction if and only if the listing has at most 258; beyond that the architecture check itself needs a trampoline |
| Compilation.Builder.AddTests | src/seccompy/filter.py:362-399 | the appends of one condition add exactly its specified code |
| Compilation.Builder.AddCond | src/seccompy/filter.py:347-400 | one condition's code is appended and its passed label bound right behind it |
| Compilation.Builder.AddBlock | src/seccompy/filter.py:295-309 | the rule loop, with its break and its fall-through default, emits exactly the block of one syscall |
| Compilation.Compile | src/seccompy/filter.py:282-313 | the loops produce the specified program; compiling never meets a label error and fails, with a JA out of range, exactly when the program has more than 2^32 + 3 records |
| EndToEnd.ProgramDecides | src/seccompy/filter.py:282-313 | interpreting the program's bytes on any event gives the policy's decision |
| EndToEnd.ProgramIsAccepted | src/seccompy/filter.py:282-313 | every program meets the kernel's structural rules and returns on all data within its record count |
| EndToEnd.AddChangesOnly | src/seccompy/filter.py:194-213 | adding a rule changes what the compiled bytes return only on native events for its syscall that it matches and no earlier rule does |
| EndToEnd.BuildKeepsInsertionOrder | src/seccompy/filter.py:212-212 | the table lists its syscalls in the order each was first added |
| EndToEnd.InterleavingIrrelevant | src/seccompy/filter.py:212-212 | builds that add the same rules per syscall in the same order decide alike under any interleaving |
| EndToEnd.ConditionOrderIrrelevant | src/seccompy/filter.py:304-306 | programs of tables whose rules differ only in the order of conditions decide alike |
| EndToEnd.DeadRulesSameProgram | src/seccompy/filter.py:298-302 | dropping everything behind unconditional rules gives the identical program |
| Filters.Filter.Create | src/seccompy/filter.py:174-188 | construction is rejected exactly when the default or the flags do not fit a u32; otherwise the filter has no rules, no cached program and is not loaded |
| Filters.Filter.constructor | src/seccompy/filter.py:182-188 | a new filter has no rules, no cached program and is not loaded |
| Filters.Filter.Append | src/seccompy/filter.py:212-212 | a new key goes to the end of the order, an old key keeps its place, and the rule goes to the end of its list |
| Filters.Filter.Add | src/seccompy/filter.py:194-213 | rejects, changing nothing, exactly when loaded, on an unknown name or a number outside 32 bits, or when some entry is not acceptable; otherwise appends the rule and drops the cache |
| Filters.AddErrorExactly | src/seccompy/filter.py:200-211 | which of the three rejections it is, from the literal arguments alone, in that order |
| Decisions.AddDecides | src/seccompy/filter.py:194-213 | an accepted add changes the bytes' result exactly on native events with the literal number, or the name's number, on which every condition given holds and no earlier rule of that syscall matches; there the result is the action given |
| Decisions.UnconditionalDecides | src/seccompy/filter.py:202-212 | an add without conditions makes the bytes return its action on every native event of its syscall that no earlier rule matches |
| Decisions.HistoryBuilds | src/seccompy/filter.py:194-213 | the table of a filter still under construction is exactly the accepted adds' rules, in the order they were made |
| Decisions.HistoryDecides | src/seccompy/filter.py:157-163 | after any history that has not loaded the filter, its bytes return 0x80000000 on a foreign ABI, else the action of the first accepted call whose syscall and conditions the event meets, else the default |
| Decisions.AskedForOne | src/seccompy/filter.py:157-163 | that condition determines the result uniquely |
| Decisions.LoadEnforces | src/seccompy/filter.py:315-331 | the last kernel call of a load that succeeds is an install, with the filter's flags, of bytes that decide so by the calls made before the load; the filter stays loaded and that stays its last call whatever is tried later |
| Filters.Filter.GetProgram | src/seccompy/filter.py:275-280 | returns what compiling the current rules gives, cached or not, and changes only the cache |
| Filters.Filter.SetModeFilter | src/seccompy/_syscall.py:200-209 | a program that is empty, not a multiple of 8 bytes or over 4096 records is rejected without a kernel call; otherwise the install is attempted |
| Filters.Filter.Load | src/seccompy/filter.py:315-331 | makes the no_new_privs call, then compiles, checks the length and installs, and returns the error of exactly the first stage that fails; loaded becomes true exactly when the install succeeds, and the descriptor is returned exactly when bit 3 of the flags is set |
| Filters.Filter.InstallProgram | src/seccompy/filter.py:327-328 | behind a granted no_new_privs: compiles or uses the cache, installs, and marks the filter loaded exactly when that succeeds |
| Filters.HistoryKeepsInv | src/seccompy/filter.py:190-331 | after any history the cache is coherent, at most one install succeeded and loaded says whether, each install attempt follows a granted no_new_privs, and installed bytes are the current program |
| Filters.LoadedIsFrozen | src/seccompy/filter.py:190-213 | once loaded, no add, read or load changes rules, program or anything else |
| Filters.HistoryCalls | src/seccompy/filter.py:324-328 | the call log of any history is its operations' calls one after the other: none for an add, a read or a load of a loaded filter, else that load's own no_new_privs, followed by an install of the current program exactly when it was granted and the program compiles and fits |
| Filters.InstalledEnforces | src/seccompy/filter.py:315-331 | every program ever installed decides every event by the filter's policy, and still does after anything tried later |
| Filters.LoadsExactlyWhen | src/seccompy/_syscall.py:200-209 | when the kernel agrees, an unloaded filter loads exactly if its program has at most 4096 records |
| Filters.LoadErrorExactly | src/seccompy/filter.py:324-328 | which stage of a load fails, by literal limits on the record count: 2^32 + 3 for compiling, 4096 for the length check |
| Filters.ListenerBit | src/seccompy/filter.py:329-331 | the listener test is bit 3 of the flags |
| Filters.SmallFilterInstalls | src/seccompy/_syscall.py:200-209 | a filter with 6+3S+R+9C at most 4096 never meets the length check: when the kernel agrees, it loads |
| Filters.SameOpKeepsAlike | src/seccompy/filter.py:194-213 | an add with its conditions in another order, or as a mapping instead of a list, is accepted or rejected alike and leaves the tables alike |
| Filters.GivenOrderIrrelevant | src/seccompy/filter.py:203-212 | two histories that differ only in the order or form in which the caller gives conditions, and load at the same operations, compile to bytes that decide every event alike |
| Filters.AddsLoadTogether | src/seccompy/filter.py:194-213 | histories without a load always meet that condition |

## Left out

- `notify.py`: thin ioctl wrappers; the notification protocol lives in the kernel. `load` returns the descriptor rather than a Listener, whose constructor may raise after the filter is loaded.
- `_syscall.py` bindings, errno values and EINTR retries: foreign calls; only the length check and the record layout are used.
- `syscalls.py` tables and platform lookup: constants; the native ABI value and the name table are parameters.
- The eight public rule methods (`allow`, `errno`, ...): each forms one action word and calls `_add`, which is modelled for every u32 action.
- `isinstance` checks and the operand range checks of instruction objects: the types carry them.
- Which label a failed assembly names, error texts, `__repr__`, copy guards: surface details.
- Caller-supplied iterables with side effects: `args` is a finite sequence.
