# nsjail in Dafny

A model of the parts of nsjail where most can go wrong, with proofs about it. Three groups of modules:

**The seccomp-BPF assembler** (`Words`, `Bpf`, `Macros`, `Labels`, `Resolver`, `Sandbox`). `Bpf` is the classic BPF
machine with the accumulator, the scratch slots and loads from `seccomp_data`; jumps count from the next instruction
and running past the end is an outcome. `Macros` has the instruction groups of bpf-helper.h with their offsets as
written. `Resolver` gives labelled programs a meaning of their own (a JUMP goes on at its LABEL, a LABEL does nothing)
and proves that the backward in-place pass keeps it; `Sandbox` takes initialisers with label names, in any evaluation
order, down to what the shipped policy answers for every system call.

**The supervisor** (`Protocol`, `Safety`, `Runs`, `Courses`, `SupervisorCode`). `Protocol` is a transition system:
each event is one call of the parent with one of its answers, or a move of a child, the clock or a signal, and events
interleave freely. A run is any sequence of events that are possible where they happen. `Safety` has the invariants,
one lemma per invariant and kind of move; `Runs` carries them over whole runs; `Courses` has runs in which the supervisor does
not do what its documentation says. `SupervisorCode.Supervisor` is the code of subproc.c and of the loops of nsjail.c
as methods on fields; between its calls it lets the others move any number of times, and a ghost log ties its fields
to a run, so everything proved of runs holds of the code.

**Supporting loops** (`Transfer`, `CloseOnExec`, `MapCommand`, `MakePath`, `Options`): partial reads and writes, the
close-on-exec sweep with its fallback, the bounded command line, the recursive mkdir, and the option fold, where
arguments are cut in place and all tmpfs mounts share one buffer.

What the kernel is taken to promise: new descriptors and pids are unused ones (a pid stays in use until it is waited
for), a terminated child has either exited or been signalled, a read finds the end of the stream once the peer is
closed everywhere, the end of a process closes all it had open, and /proc/self/fd lists exactly the open descriptors
unless reading it fails. Answers of calls and contents of the network are free choices. The clock does not go back.

Where code and documentation differ, the model follows the code:

- subproc.h promises the code of the first failing child, subprocReap returns that of the last child reaped
  (`Runs.ReapReturnsLast`, `Runs.HeaderPromiseIff`, a run in `Courses.FailureForgotten`).
- `--max_conns_per_ip` is described as a limit per address, netLimitConns compares one byte of it
  (`Runs.RejectionExactIff`, runs in `Courses.NeighbourRejected`).
- JLT64 and JNE64 do not decide the relations they are named after (`Macros.Taken64Exact`, `Macros.MisnamedGroups`).
- utilWriteToFd returns a truth value, its caller in subproc.c compares it with a length (`Transfer.SizeTestIff`).
- The resolver takes any number of instructions, its index has eight bits (`Resolver.PreservedIffShort`).
- The comment above the sandbox policy says ptrace, the policy stops uselib (`Sandbox.DemoRuns`).
- The help text gives 600 seconds as default time limit, cmdline.c sets 0; the limit is a parameter here.

## Model

| member | source | states |
|---|---|---|
| Words.MeetsByHalves | seccomp/bpf-helper.h:182-188 | two 64-bit words share a set bit exactly when their high halves or their low halves do, which is what JA64's two 32-bit tests rely on |
| Words.MeetsIff | seccomp/bpf-helper.h:178-180 | the bit test behind JA32 and JA64 is that some bit position is set in both words |
| Bpf.Layout | seccomp/bpf-helper.h:68-98 | where nr, arch and the halves of each argument stand in seccomp_data, in byte offsets, on either byte order, and that other loads are refused |
| Macros.Encodings | seccomp/bpf-helper.h:44-51 | the instruction words of the loads, returns, stores and jumps in numbers |
| Macros.Taken64Exact | seccomp/bpf-helper.h:170-215 | the condition each 64-bit group decides is the relation in its name, except exactly JLT64 at equality and JNE64 when one half agrees and the other does not |
| Macros.MisnamedGroups | seccomp/bpf-helper.h:170-215 | concrete arguments on which JLT64 and JNE64 miss their relations |
| Macros.Group32Runs | seccomp/bpf-helper.h:153-223 | anywhere in a program, from any state, a 32-bit group reaches its target exactly when the unsigned relation holds and the instruction after it otherwise |
| Macros.Group64Runs | seccomp/bpf-helper.h:162-242 | the same for every 64-bit group with the condition it decides, and on both exits A, M[0] and M[1] are as they were |
| Macros.Arg64Runs | seccomp/bpf-helper.h:147-151 | on either byte order the four loads leave A == M[1] == high half, M[0] == low half, other slots alone |
| Macros.FirstTaken | seccomp/bpf-helper.h:162-242 | the first case of a chain whose condition holds: it holds there and at no earlier case |
| Macros.TargetStands | seccomp/bpf-helper.h:162-242 | the computed target place of each case of a chain holds that case's target instruction |
| Macros.ChainRuns | seccomp/bpf-helper.h:162-242 | a chain of any length, entered at any group, goes on at the target of the first condition that holds, or past the chain, with the machine state kept |
| Macros.ArgChainRuns | seccomp/bpf-helper.h:147-242 | ARG_64 and any chain, from any state: which target instruction runs, with A == M[1] == high and M[0] == low when it does or when the chain falls through |
| Macros.Verdict | sandbox.c:51-56 | the meaning of a rule list: the action of the first rule with the number, the default only if no rule has it |
| Macros.RulesRun | seccomp/bpf-helper.h:153-155 | a compiled rule list of any length returns the verdict on the accumulator |
| Macros.NrRulesRun | seccomp/bpf-helper.h:244-246 | after LOAD_SYSCALL_NR it is the verdict on the call number: first match wins |
| Labels.InternAllTable | seccomp/bpf-helper.c:61-85 | lookups in any order leave a table without repetitions holding exactly the names asked for, and it only grows at its end, so numbers stay valid |
| Labels.GivesUpIff | seccomp/bpf-helper.c:66-69 | a sequence of lookups ends the program exactly when 256 different names came before its last one |
| Labels.FewLookupsSucceed | seccomp/bpf-helper.c:66-69 | up to 256 lookups never end it |
| Labels.NextLookup | seccomp/bpf-helper.c:77-84 | the number a lookup hands out is the name's number in the final table |
| Labels.BpfLabels.Find | seccomp/bpf-helper.c:61-85 | the in-place lookup returns the name's index in the table after it, adds an unplaced entry only if the name is new, and gives up on a full table leaving it as it was |
| Resolver.Seek | seccomp/bpf-helper.c:33-56 | the first LABEL of an id from an index on, with none of it before |
| Resolver.MarkEncodings | seccomp/bpf-helper.h:39-58 | the words of JUMP and LABEL marks in numbers, and that neither is taken for the other |
| Resolver.Visited | seccomp/bpf-helper.c:21-30 | how far the eight-bit index gets: 1 to 256 instructions, all of them up to 256, else the remainder modulo 256 |
| Resolver.OffsetsExact | seccomp/bpf-helper.c:40-53 | in a well-labelled program each rewritten offset leads strictly forward and inside the program to the one label of the jump's id; no mark is left; other instructions are untouched |
| Resolver.ResolutionPreservesMeaning | seccomp/bpf-helper.c:18-58 | for every program of any length, input and state: if the visited part is well labelled and no mark lies beyond it, the rewritten program has the outcome of the labelled one, falling off the end included |
| Resolver.ShortProgramsPreserved | seccomp/bpf-helper.c:18-58 | for 1 to 256 instructions being well labelled is all that is needed |
| Resolver.LeftoverMarks | seccomp/bpf-helper.c:21-30 | marks survive exactly where the eight-bit index never went |
| Resolver.LongProgramLosesItsJumps | seccomp/bpf-helper.c:21-30 | for every length above 256, a well-labelled program that the pass accepts and whose result, run from its start, changes |
| Resolver.PreservedIffShort | seccomp/bpf-helper.c:21-30 | all well-labelled, accepted programs of a length keep their meaning exactly when the length is at most 256 |
| Resolver.FixOne | seccomp/bpf-helper.c:30-56 | one turn of the walk extends the settled part by one instruction, or refuses because the program is not well labelled and changes nothing |
| Resolver.ResolveJumps | seccomp/bpf-helper.c:18-58 | the in-place pass returns 0 exactly when the visited part has every label at most once and every jump's label after it; then the array is the rewritten program; -1 exactly for an empty program; on 1 everything up to the refused mark is as it was; nothing past the count is touched |
| Sandbox.WellNamedIff | seccomp/bpf-helper.h:53-64 | a program is well labelled under a table exactly when its names are, for every table |
| Sandbox.ResolvedByName | seccomp/bpf-helper.h:53-64 | a resolved jump leads to the label of the jump's name |
| Sandbox.TableIrrelevant | seccomp/bpf-helper.c:61-85 | any two numberings of the names resolve to the same program |
| Sandbox.TableOf | seccomp/bpf-helper.c:61-85 | for every evaluation order of an initialiser the lookups all succeed and give a table without repetitions with all its names |
| Sandbox.OrderIrrelevant | sandbox.c:43-66 | whatever order an initialiser's label calls are evaluated in (C leaves it open), the same drafts are accepted and they resolve to the same program |
| Sandbox.Build | sandbox.c:43-66 | evaluating an initialiser in any order fills the array with the assembled program and the table with its names |
| Sandbox.BuildAndResolve | sandbox.c:43-75 | initialiser and resolver together accept exactly the well-named drafts; then the array holds the resolved program, and on every input and from every state it has the outcome of the labelled one |
| Sandbox.DemoWellNamed | sandbox.c:44-66 | the shipped filter has each label once, after its jump |
| Sandbox.DemoResolves | sandbox.c:44-72 | under every label numbering it resolves to one and the same list of 19 instructions, given word for word |
| Sandbox.DemoRuns | sandbox.c:44-66 | that program returns 0x00050002 for call 103, 0 for 134 on architecture 0xc000003e and for 86 on every other one, and 0x7fff0000 otherwise |
| Sandbox.PrepareAndCommit | sandbox.c:40-89 | the resolver never refuses the policy; it is committed exactly when both prctl calls succeed, and what is committed is those 19 words, with that verdict for all calls of all architectures |
| Safety.TableRun | subproc.c:292-354 | each call of subprocRunChild, whatever its answer, keeps the table equal to the unreaped children, up to the one just made |
| Safety.TableReap | subproc.c:202-238 | each call of the reap loop keeps it, up to the one just waited for |
| Safety.HandshakeInit | subproc.c:270-290 | each answer in subprocInitParent keeps: the done byte is only sent after all three initialisations, and only such a child is contained |
| Safety.FdsRun | subproc.c:321-350 | each call of subprocRunChild, failures included, keeps every descriptor with exactly one holder or closed |
| Safety.FdsReap | subproc.c:123-137 | so does each call of the reap loop, where an entry's probe is closed as it leaves |
| Safety.CgroupsReap | cgroup.c:88-102 | reaping keeps every cgroup directory owned by a listed child unless its removal failed |
| Safety.SignalsSweep | subproc.c:240-258 | each call of the time-limit loop keeps: what was sent since it began is what is owed to the entries passed |
| Runs.SafeStep | subproc.c:105-354 | every event of parent, children, clock or signals keeps all invariants together |
| Runs.EveryRunSafe | subproc.c:105-354 | every world that any run reaches, in any mode and interleaving, satisfies them |
| Runs.BetweenCalls | subproc.c:105-137 | in every run, back in the loop, the table's pids are distinct and are exactly the unreaped children; the open descriptors are exactly the initial ones, the listening socket and the probes that opened; every cgroup directory belongs to a listed child or is one whose removal failed |
| Runs.NoEarlyAndNoStuckChild | subproc.c:60-80 | at every point of every run a child that is contained had net, cgroup and user initialisation succeed; a child in the handshake read can go on, with the byte or the end of the stream, whenever the parent no longer holds its socket, which is so once subprocRunChild is over or the supervisor is gone |
| Runs.SignalsHitOwnChildren | subproc.c:240-268 | every signal of a sweep or of subprocKillAll goes to a child not yet waited for |
| Runs.DueExact | subproc.c:240-258 | of what a sweep owes, an entry has SIGCONT directly followed by SIGKILL if there is a limit and its age has reached it, and nothing if there is none or it is younger |
| Runs.SweepIsExact | subproc.c:240-258 | in every run, after subprocReap each remaining entry was signalled by it, in that way, exactly if tlimit is not 0 and the sweep's time minus its start is at least tlimit |
| Runs.SweepTimeIs | subproc.c:240-240 | in every run the sweep's time is the clock as it begins |
| Runs.EntryMade | subproc.c:105-121 | in every run each entry has the pid just cloned, the address read and the clock at its own insertion |
| Runs.FatalExitKillsAll | nsjail.c:118-124 | a run ended by a fatal signal has sent SIGKILL to every child not waited for |
| Runs.OnceReports | nsjail.c:138-150 | in every standalone-once run that returns, the result is 0 if no child was made, else the exit code itself below 100, its remainder modulo 100 above (1 for a multiple), and 100 plus the signal |
| Runs.HeaderPromiseIff | subproc.h:32-33 | the header's promise holds of the code's result for all outcomes of up to n children exactly when n is at most 1 |
| Runs.ReapReturnsLast | subproc.c:202-259 | in every run a call of subprocReap returns 0 if it waited for no child, else what the status of the last one gives in that sense, and outside listen mode that is what the header promises |
| Courses.FailureForgotten | subproc.c:202-259 | in every listen configuration there is a run where one call waits for a child that exited 1 and then one that exited 0, and returns 0 |
| Runs.LimitAlways | net.c:197-225 | in every run whose peers keep their address between admission and insertion, no class of addresses as the code compares them exceeds the limit |
| Runs.ClassCount | net.c:210-216 | what is counted is at least the number of entries of the one address, and equal exactly when the class has no other address |
| Runs.RejectionExactIff | net.c:208-222 | the decision is right about the one address under every limit exactly when no entry shares the compared byte without the address |
| Runs.RejectIff | net.c:197-225 | a connection can be rejected exactly when a limit is set and at least that many entries agree with it in the first address byte, and admitted otherwise; with no limit it is always admitted |
| Courses.NeighbourRejected | net.c:208-222 | whatever the limit, there is a run that rejects an address which has no connection |
| Runs.ConnectionLimit | net.c:197-225 | in such runs no address ever has more entries than the limit |
| SupervisorCode.Supervisor.LimitConns | net.c:197-225 | lets every connection pass when the limit is 0, else exactly when fewer entries than the limit agree with it in the first address byte |
| SupervisorCode.Supervisor.Count | subproc.c:139-147 | the number of entries |
| SupervisorCode.Supervisor.Add | subproc.c:105-121 | exactly one entry is put in front, for this pid, with the clock's time, the address read and a descriptor exactly if the probe opened; the others stay |
| SupervisorCode.Supervisor.InitCgroup | cgroup.c:39-86 | succeeds exactly if limits are off or its calls do; adds exactly the child's directory when limits are on, nothing when they are off |
| SupervisorCode.AwaitDone | subproc.c:70-77 | the child's side: the first answer that is no interruption decides, and it goes on exactly if that brings the done byte; an error, the end of the stream or another byte ends it |
| SupervisorCode.Supervisor.SignalChild | subproc.c:283-287 | the write of the done byte, judged by comparing its result with the size, is taken as successful exactly when the byte is in the child's socket |
| SupervisorCode.Supervisor.InitParent | subproc.c:270-290 | unless the supervisor is gone, the result is true exactly when the done byte is in the child's socket, and then net, cgroup and user initialisation have all succeeded; it is false only if one of the calls failed or the child has ended; the supervisor goes only on a failing cgroup initialisation or SIGPIPE |
| SupervisorCode.Supervisor.RunChild | subproc.c:292-354 | one new entry exactly if the limit lets the connection pass and socketpair and clone succeed, with the address read again and a time during the call; on return the table is exactly the children, and no child's socket is still held open by the parent |
| SupervisorCode.Supervisor.FinishCgroup | cgroup.c:88-102 | with limits on, the child's own directory goes unless it is one that cannot be removed; nothing else changes |
| SupervisorCode.Supervisor.Remove | subproc.c:123-137 | the entry with the pid goes and the others keep their order; a missing pid changes nothing |
| SupervisorCode.Supervisor.ReapAll | subproc.c:202-238 | ends although children may die meanwhile, with no terminated child left, one entry less per child reaped and the result that the last status gives |
| SupervisorCode.Supervisor.DoReap | subproc.c:202-260 | besides, with at most one entry to begin with the result is the header's; and of the entries left, those whose age at a time during the call has reached a nonzero tlimit get SIGCONT and SIGKILL, the others nothing |
| SupervisorCode.Supervisor.KillAll | subproc.c:262-268 | exactly one SIGKILL per entry, in table order |
| SupervisorCode.Supervisor.Shutdown | nsjail.c:119-124 | the table is unchanged, the listening socket closed, every child not waited for has been sent SIGKILL |
| SupervisorCode.Supervisor.ServeOne | nsjail.c:129-134 | a turn makes a child exactly if a connection comes in that passes the limit and whose socketpair and clone succeed, and ends with one call of subprocReap |
| SupervisorCode.Supervisor.ListenMode | nsjail.c:112-136 | after any number of turns it has made every one of them, each ended by a call of subprocReap, and is serving with the table, the descriptors and the cgroup directories as they must be; or before that a fatal signal ended it with every child killed, or the supervisor is gone |
| SupervisorCode.Supervisor.StandaloneMode | nsjail.c:138-164 | never more than one entry; it is undecided only after making all the turns; run once, the result tells how the child ended, in the sense of OnceReports; on a fatal signal -1 and every child killed |
| SupervisorCode.Supervisor.AfterReap | nsjail.c:144-161 | with the table empty, run once is over and rerun makes a new child exactly if socketpair and clone succeed; otherwise none is made |
| Transfer.WriteToFd | util.c:75-91 | 1 exactly when the counts of the calls before the first error add up to the length, 0 exactly when an error comes first, interruptions making no difference; what went out is the beginning of the buffer of exactly that many bytes |
| Transfer.SizeTestIff | subproc.c:283-287 | comparing the result with the length tells success from failure, for every course of the calls, exactly for messages of one byte |
| Transfer.ReadFromFd | util.c:44-60 | what it got is exactly the bytes delivered before the first error or end of the stream, up to the length asked for, and the result is their number; interruptions make no difference |
| Transfer.OneByteRead | subproc.c:70-73 | a read of one byte returns 1 exactly if the first answer that is no interruption has bytes, and gets the first of them; 0 exactly if it is an error or the end of the stream |
| CloseOnExec.PassFdIsMember | contain.c:200-209 | the search finds exactly the members of the list |
| CloseOnExec.Process.MakeFdsCoeNaive | contain.c:211-235 | fails exactly if setting a flag fails on an open descriptor below 1024; on success each of those has its wanted flag; on any way out each has its old or its wanted one, and those from 1024 on the old |
| CloseOnExec.Process.MakeFdsCoeProc | contain.c:237-291 | fails exactly if the directory does not open, reading it fails or an fcntl fails; on success every open descriptor has its wanted flag, whatever order they are listed in; a failure at any point leaves each with its old or its wanted one |
| CloseOnExec.Process.MakeFdsCoe | contain.c:293-303 | succeeds exactly if no call of one of the two passes fails; by /proc: exactly the passed ones survive; by the fallback: the same below 1024, whatever the failed pass had done, and above old or wanted |
| CloseOnExec.SameOnStdio | contain.c:316-328 | one descriptor for all three must be open, and then 0, 1 and 2 are on its file and the ones above as they were |
| CloseOnExec.DifferentOnStdio | contain.c:316-328 | three different descriptors end up on their own files exactly when none is overwritten before its turn with another file |
| CloseOnExec.Process.SetupFd | contain.c:305-330 | for any three descriptors: succeeds exactly if each is open at its turn and no dup2 fails (or, silent, /dev/null opens), with the slots those calls leave; outside listen mode and not silent it succeeds and changes nothing |
| CloseOnExec.ConnectionProcess | contain.c:305-330 | succeeds exactly if the connection is open, no dup2 fails and one of the two passes works; with the list cmdline.c starts from, a working /proc pass leaves exactly 0, 1 and 2 on the connection and the other passed descriptors that were open, each on its file |
| MapCommand.Snprintf | user.c:108-109 | writes inside the given bytes only: the text if it fits with its NUL, else as much as fits; nothing for no room |
| MapCommand.Build | user.c:89-118 | for every list of parts, refused exactly above 1024 bytes, complete up to 1023, one byte short at 1024 |
| MapCommand.MapExternal | user.c:128-157 | the same for the uid and gid commands with every list of mappings; and a complete command, taken apart at its spaces, is the tool, the three numbers, 1, then inside id, outside id and count of each mapping in order |
| Common.DecimalReadsBack | user.c:95-98 | the text of a number has only digits, no leading zero, and reads back in base 10 |
| MakePath.SlashedIs | util.c:132-141 | for any names and any runs of slashes between them, the components walked are exactly those names; what follows the last slash is not one |
| MakePath.PassableIff | util.c:143-154 | a walk is not stopped exactly when no component is blocked: openat failing, something else than a directory there, or mkdirat failing where nothing is |
| MakePath.PlainWalk | util.c:131-158 | without dot components a walk passes through exactly the nonempty component prefixes |
| MakePath.DotsStepBack | util.c:143-149 | a dot component stays; a name followed by two dots ends where it began, and two dots at the root stay there |
| MakePath.WalkDown | util.c:130-158 | the loop over the path buffer, which it cuts with NULs: it succeeds exactly if no component is blocked; success adds exactly the directories walked through, failure a part of them; either way no handle of the walk stays open |
| MakePath.CreateDirRecursively | util.c:115-159 | success leaves the old directories and those of every component that a slash follows, for any runs of slashes (without dot components and shorter than PATH_MAX: exactly the nonempty prefixes of those); refused exactly for a relative path, if the root does not open or if a component is blocked; no descriptor stays open on any way out |
| Options.Rejoins | cmdline.c:182-199 | the two halves of a spec rejoin to its text, and coincide with it if there is no colon |
| Options.SplitStrByColon | cmdline.c:182-199 | what the pointer showed is now the two halves at the two pointers, and only the colon's byte changed |
| Options.SplitMapping | cmdline.c:572-586 | two cuts of one argument leave its three parts readable at the three pointers, the second cut not disturbing the first |
| Options.AllShown | cmdline.c:587-619 | pointers kept earlier still read as the mounts asked for, all tmpfs ones with the size the shared buffer holds now |
| Options.MountListAsGiven | cmdline.c:587-706 | that list option by option, by the place of each option among those of its kind |
| Options.Conf.SetTmpfsSize | cmdline.c:557-561 | the shared buffer reads as the size text |
| Options.Conf.Parse | cmdline.c:426-706 | for every option sequence, refused exactly for a mode letter other than l, o, r and e, an unknown option or one that asks for the usage text; else the list reads "/" first, read-only unless --rw, from the last --chroot or a tmpfs; then "/proc" unless disabled; then for each -R, -B and -T option, in their order, its mount, -R read-only and -B not, every -T with the last size wherever it was given; and for each -U and -G option, in order, a mapping that reads as its three parts |

## Left out

- mount.c, pid.c, uts.c and the capability, rlimit and personality calls of contain.c: kernel calls in a row, part of what a contained child does.
- Netlink, /sbin/ip and interface setup in net.c: taken as answers that succeed or fail.
- log.c, help and parameter output, subprocDisplay and subprocSeccompViolation: output only.
- getopt, strtoull, passwd lookups, cmdlineParseUid and cmdlineParseGid: the options are given as a sequence; options that do not touch the mount list, the mappings or the mode are one case that is always accepted.
- MODE_STANDALONE_EXECVE: the supervisor turns into the jailed program, so there is no table.
- BPF opcodes that the helper macros do not use, the X register and seccomp_bpf_print: such instructions end a run with an outcome of their own.
- The failure of netGetRecvSocket: listen mode returns at once.
- The result of system() and the endless loop after a failing newgidmap: the command is modelled up to the call.
- Children of system() and /sbin/ip: they begin and end inside the call that makes them.
- Calls taken as one event: waitid with its wait4; the last waitid with the time() after it; reading the time and the address, opening the probe and the insertion in subprocAdd.
- utilWriteBufToFile, the writes into a cgroup directory one by one: one answer, which may come with or without the directory made.
- Symbolic links, and directories removed by others during the recursive mkdir.
- ResolutionPreservesMeaning: for one program beyond 256 instructions the condition is sufficient, not necessary, because a leftover mark can be unreachable or happen to jump right; by length it is exact.
- ConnectionLimit: for runs in which the address read at insertion is the one read at admission, because the code reads it twice.
- ListenMode: a list of turns, any, stands for the endless loop; in each the answers of the calls are given.
- StandaloneMode: likewise.
- WriteToFd: the answers of the calls are a finite list; while they do not decide, the result is None.
- ReadFromFd: likewise.
- Parse: the descriptors --pass_fd names, and every other option besides those for mounts, mappings and the mode; the exits for a bad rlimit value, an unknown user or group and a missing command.
