/** Programs written with label names, and the policy that sandbox.c builds from them. */
module Sandbox {
  import opened Common
  import opened Words
  import opened Bpf
  import opened Macros
  import opened Labels
  import opened Resolver

  /** One element of a filter initialiser; a mark calls the label lookup with its name. */
  datatype Item = Plain(insn: Insn) | Jump(name: string) | Label(name: string)

  type Draft = np: seq<Item> | forall i :: 0 <= i < |np| && np[i].Plain? ==> !IsMark(np[i].insn)

  predicate NamesIn(np: Draft, t: seq<string>) {
    forall i :: 0 <= i < |np| && !np[i].Plain? ==> np[i].name in t
  }

  function Emit(x: Item, t: seq<string>): Insn
    requires |t| <= BPF_LABELS_MAX && (!x.Plain? ==> x.name in t)
  {
    match x
    case Plain(i) => i
    case Jump(name) => JumpTo(IndexOf(t, name))
    case Label(name) => LabelHere(IndexOf(t, name))
  }

  function Assemble(np: Draft, t: seq<string>): (p: seq<Insn>)
    requires |t| <= BPF_LABELS_MAX && NamesIn(np, t)
    ensures |p| == |np| && forall i :: 0 <= i < |np| ==> p[i] == Emit(np[i], t)
  {
    seq(|np|, i requires 0 <= i < |np| => Emit(np[i], t))
  }

  /** An order in which the marks of an initialiser may be evaluated: C leaves it open. */
  predicate IsOrder(np: Draft, order: seq<nat>) {
    && (forall j :: 0 <= j < |order| ==> order[j] < |np| && !np[order[j]].Plain?)
    && (forall i, j :: 0 <= i < j < |order| ==> order[i] != order[j])
    && (forall i :: 0 <= i < |np| && !np[i].Plain? ==> i in order)
  }

  function Calls(np: Draft, order: seq<nat>): (c: seq<string>)
    requires IsOrder(np, order)
    ensures |c| == |order| && forall j :: 0 <= j < |c| ==> c[j] == np[order[j]].name
  {
    seq(|order|, j requires 0 <= j < |order| => np[order[j]].name)
  }

  /** The same condition as WellLabelled, said of names. */
  predicate WellNamed(np: Draft) {
    && (forall i, j :: 0 <= i < j < |np| && np[i].Label? && np[j].Label? ==> np[i].name != np[j].name)
    && (forall i :: 0 <= i < |np| && np[i].Jump? ==>
          exists j :: i < j < |np| && np[j].Label? && np[j].name == np[i].name)
  }

  lemma WellNamedIff(np: Draft, t: seq<string>)
    requires |t| <= BPF_LABELS_MAX && NamesIn(np, t)
    ensures WellLabelled(Assemble(np, t)) <==> WellNamed(np)
  {
    var p := Assemble(np, t);
    forall i | 0 <= i < |np| && np[i].Jump?
      ensures DefinedAfter(p, i, p[i].k) <==> exists j :: i < j < |np| && np[j].Label? && np[j].name == np[i].name
    {
      if j :| i < j < |np| && np[j].Label? && np[j].name == np[i].name {
        assert IsLabel(p[j]);
      }
    }
    if WellLabelled(p) {
      forall i, j | 0 <= i < j < |np| && np[i].Label? && np[j].Label?
        ensures np[i].name != np[j].name
      {
        assert IsLabel(p[i]) && IsLabel(p[j]);
      }
      forall i | 0 <= i < |np| && np[i].Jump?
        ensures exists j :: i < j < |np| && np[j].Label? && np[j].name == np[i].name
      {
        assert IsJump(p[i]);
      }
    }
  }

  predicate MeansByName(np: Draft, i: nat, q: Insn)
    requires i < |np|
  {
    match np[i]
    case Plain(x) => q == x
    case Label(_) => q == Stmt(JMP_JA, 0)
    case Jump(name) =>
      var j := i + 1 + q.k;
      q == Stmt(JMP_JA, q.k) && j < |np| && np[j].Label? && np[j].name == name
  }

  /** The resolved program in terms of names: a jump's offset leads to the label of its name. */
  lemma ResolvedByName(np: Draft, t: seq<string>, i: nat)
    requires i < |np| <= INSNS_MAX && |t| <= BPF_LABELS_MAX && NamesIn(np, t) && WellNamed(np)
    ensures MeansByName(np, i, Resolved(Assemble(np, t))[i])
  {
    var p := Assemble(np, t);
    WellNamedIff(np, t);
    OffsetsExact(p, i);
    assert p[i] == Emit(np[i], t);
    if np[i].Jump? {
      var j := i + 1 + Resolved(p)[i].k;
      assert p[j] == Emit(np[j], t);
      assert Resolved(p)[i] == Fixed(p, i);
    }
  }

  /** The numbers given to the names do not matter: any two tables lead to the same program. */
  lemma TableIrrelevant(np: Draft, t: seq<string>, u: seq<string>)
    requires |np| <= INSNS_MAX && |t| <= BPF_LABELS_MAX && |u| <= BPF_LABELS_MAX
    requires NamesIn(np, t) && NamesIn(np, u) && WellNamed(np)
    ensures Resolved(Assemble(np, t)) == Resolved(Assemble(np, u))
  {
    forall i | 0 <= i < |np|
      ensures Resolved(Assemble(np, t))[i] == Resolved(Assemble(np, u))[i]
    {
      ResolvedByName(np, t, i);
      ResolvedByName(np, u, i);
    }
  }

  lemma {:induction false} Pigeonhole(order: seq<nat>, n: nat)
    requires forall i, j :: 0 <= i < j < |order| ==> order[i] != order[j]
    requires forall j :: 0 <= j < |order| ==> order[j] < n
    ensures |order| <= n
  {
    if order != [] {
      assert order[0] < n;
      if j :| 0 <= j < |order| && order[j] == n - 1 {
        var rest := order[..j] + order[j + 1..];
        assert forall i :: 0 <= i < |rest| ==> rest[i] == order[if i < j then i else i + 1];
        Pigeonhole(rest, n - 1);
      } else {
        Pigeonhole(order, n - 1);
      }
    }
  }

  /** The table after evaluating the marks in this order: the lookups never give up. */
  function TableOf(np: Draft, order: seq<nat>): (t: seq<string>)
    requires |np| <= INSNS_MAX && IsOrder(np, order)
    ensures InternAll([], Calls(np, order)) == Some(t)
    ensures |t| <= BPF_LABELS_MAX && NoDups(t) && NamesIn(np, t)
  {
    var calls := Calls(np, order);
    Pigeonhole(order, |np|);
    FewLookupsSucceed(calls);
    InternAllTable(calls);
    var t := InternAll([], calls).value;
    AllNamed(np, order, t);
    t
  }

  lemma AllNamed(np: Draft, order: seq<nat>, t: seq<string>)
    requires IsOrder(np, order) && NameSet(t) == NameSet(Calls(np, order))
    ensures NamesIn(np, t)
  {
    forall i | 0 <= i < |np| && !np[i].Plain?
      ensures np[i].name in t
    {
      var j :| 0 <= j < |order| && order[j] == i;
      assert Calls(np, order)[j] in NameSet(t);
    }
  }

  /** Whatever order the initialiser's lookups are evaluated in, the same drafts are accepted and they
      resolve to the same program. */
  lemma OrderIrrelevant(np: Draft, o1: seq<nat>, o2: seq<nat>)
    requires |np| <= INSNS_MAX && IsOrder(np, o1) && IsOrder(np, o2)
    ensures WellLabelled(Assemble(np, TableOf(np, o1))) <==> WellNamed(np)
    ensures WellLabelled(Assemble(np, TableOf(np, o2))) <==> WellNamed(np)
    ensures WellNamed(np) ==> Resolved(Assemble(np, TableOf(np, o1))) == Resolved(Assemble(np, TableOf(np, o2)))
  {
    var t, u := TableOf(np, o1), TableOf(np, o2);
    WellNamedIff(np, t);
    WellNamedIff(np, u);
    if WellNamed(np) {
      TableIrrelevant(np, t, u);
    }
  }

  lemma AllFilled(np: Draft, order: seq<nat>, t: seq<string>, f: seq<Insn>)
    requires |t| <= BPF_LABELS_MAX && NamesIn(np, t) && IsOrder(np, order) && |f| == |np|
    requires forall i :: 0 <= i < |np| && np[i].Plain? ==> f[i] == np[i].insn
    requires forall a :: 0 <= a < |order| ==> f[order[a]] == Emit(np[order[a]], t)
    ensures f == Assemble(np, t)
  {
    forall i | 0 <= i < |np|
      ensures f[i] == Emit(np[i], t)
    {
      if !np[i].Plain? {
        assert i in order;
      }
    }
  }

  // Evaluates one mark of an initialiser: its label lookup, and the instruction with the number.
  method LookUp(labels: BpfLabels, x: Item, ghost calls: seq<string>, ghost j: nat) returns (mark: Insn)
    requires labels.Valid() && labels.Unplaced() && j < |calls| && !x.Plain? && calls[j] == x.name
    requires InternAll([], calls).Some? && InternAll([], calls[..j]) == Some(labels.Names())
    modifies labels, labels.entries
    ensures labels.Valid() && labels.Unplaced() && InternAll([], calls[..j + 1]) == Some(labels.Names())
    ensures var t := InternAll([], calls).value;
            |t| <= BPF_LABELS_MAX && x.name in t && mark == Emit(x, t)
  {
    NextLookup(calls, j, labels.Names());
    InternAllTable(calls);
    var r := labels.Find(x.name);
    mark := if x.Jump? then JumpTo(r.value) else LabelHere(r.value);
  }

  // Evaluates it in its place.
  method FillOne(labels: BpfLabels, filter: array<Insn>, x: Item, i: nat, ghost calls: seq<string>, ghost j: nat)
    requires labels.Valid() && labels.Unplaced() && j < |calls| && !x.Plain? && calls[j] == x.name && i < filter.Length
    requires InternAll([], calls).Some? && InternAll([], calls[..j]) == Some(labels.Names())
    modifies labels, labels.entries, filter
    ensures labels.Valid() && labels.Unplaced() && InternAll([], calls[..j + 1]) == Some(labels.Names())
    ensures var t := InternAll([], calls).value;
            |t| <= BPF_LABELS_MAX && x.name in t && filter[..] == old(filter[..])[i := Emit(x, t)]
  {
    var mark := LookUp(labels, x, calls, j);
    filter[i] := mark;
  }

  /** Builds a filter array, looking its labels up in the given order. */
  method Build(np: Draft, order: seq<nat>) returns (labels: BpfLabels, filter: array<Insn>)
    requires |np| <= INSNS_MAX && IsOrder(np, order)
    ensures fresh(labels) && fresh(labels.entries) && fresh(filter)
    ensures labels.Valid() && labels.Unplaced() && labels.Names() == TableOf(np, order)
    ensures filter[..] == Assemble(np, TableOf(np, order))
  {
    labels := new BpfLabels();
    filter := new Insn[|np|](i requires 0 <= i < |np| => if np[i].Plain? then np[i].insn else ALLOW);
    FillMarks(labels, filter, np, order, TableOf(np, order));
    AllFilled(np, order, TableOf(np, order), filter[..]);
  }

  // The first `j` marks of the order are in place, and the plain elements as they were.
  predicate FilledTo(np: Draft, order: seq<nat>, was: seq<Insn>, f: seq<Insn>, t: seq<string>, j: nat)
    requires |f| == |was| == |np| && IsOrder(np, order) && |t| <= BPF_LABELS_MAX && NamesIn(np, t) && j <= |order|
  {
    && (forall i :: 0 <= i < |np| && np[i].Plain? ==> f[i] == was[i])
    && (forall a :: 0 <= a < j ==> f[order[a]] == Emit(np[order[a]], t))
  }

  lemma FilledNext(np: Draft, order: seq<nat>, was: seq<Insn>, f: seq<Insn>, t: seq<string>, j: nat)
    requires |f| == |was| == |np| && IsOrder(np, order) && |t| <= BPF_LABELS_MAX && NamesIn(np, t) && j < |order|
    requires FilledTo(np, order, was, f, t, j)
    ensures FilledTo(np, order, was, f[order[j] := Emit(np[order[j]], t)], t, j + 1)
  {
  }

  method FillMarks(labels: BpfLabels, filter: array<Insn>, np: Draft, order: seq<nat>, ghost t: seq<string>)
    requires labels.Valid() && labels.Unplaced() && labels.Names() == [] && filter.Length == |np|
    requires IsOrder(np, order) && |t| <= BPF_LABELS_MAX && NamesIn(np, t)
    requires InternAll([], Calls(np, order)) == Some(t)
    modifies labels, labels.entries, filter
    ensures labels.Valid() && labels.Unplaced() && labels.Names() == t
    ensures FilledTo(np, order, old(filter[..]), filter[..], t, |order|)
  {
    ghost var calls := Calls(np, order);
    var j := 0;
    while j < |order|
      invariant 0 <= j <= |order| && labels.Valid() && labels.Unplaced()
      invariant InternAll([], calls[..j]) == Some(labels.Names())
      invariant FilledTo(np, order, old(filter[..]), filter[..], t, j)
    {
      FilledNext(np, order, old(filter[..]), filter[..], t, j);
      FillOne(labels, filter, np[order[j]], order[j], calls, j);
      j := j + 1;
    }
    assert calls[..j] == calls;
  }

  /** An initialiser followed by the resolver's call: accepted exactly when it is well named. */
  method BuildAndResolve(np: Draft, order: seq<nat>) returns (r: int, filter: array<Insn>)
    requires 1 <= |np| <= INSNS_MAX && IsOrder(np, order)
    ensures fresh(filter)
    ensures r == 0 <==> WellNamed(np)
    ensures r == 0 ==> filter[..] == Resolved(Assemble(np, TableOf(np, order)))
    ensures r == 0 ==> forall d: SeccompData, s: State ::
              Run(filter[..], d, s) == RunLabelled(Assemble(np, TableOf(np, order)), d, s)
  {
    var labels;
    labels, filter := Build(np, order);
    ghost var p := filter[..];
    assert p == filter[..filter.Length] == filter[..Visited(filter.Length)];
    WellNamedIff(np, TableOf(np, order));
    r := ResolveJumps(labels, filter, filter.Length);
    assert filter[..] == filter[..filter.Length];
    assert p[..|p|] == p && Resolved(p) + p[|p|..] == Resolved(p);
    if r == 0 {
      forall d: SeccompData, s: State
        ensures Run(Resolved(p), d, s) == RunLabelled(p, d, s)
      {
        ShortProgramsPreserved(p, d, s);
      }
    }
  }

  const AUDIT_ARCH_I386: u32 := 0x4000_0003
  const AUDIT_ARCH_X86_64: u32 := 0xc000_003e
  const ENOENT := 2
  const NR_SYSLOG: u32 := 103
  const NR_USELIB_32: u32 := 86
  const NR_USELIB_64: u32 := 134

  /** The filter initialiser of sandboxPrepareAndCommit. */
  function DemoPolicy(): Draft {
    [ Plain(LOAD_ARCH),
      Plain(JumpInsn(JMP_JEQ_K, AUDIT_ARCH_I386, 0, 1)), Jump("label_i386"),
      Plain(JumpInsn(JMP_JEQ_K, AUDIT_ARCH_X86_64, 0, 1)), Jump("label_x86_64"),
      Label("label_i386"),
      Plain(LOAD_SYSCALL_NR),
      Plain(JumpInsn(JMP_JEQ_K, NR_SYSLOG, 0, 1)), Plain(Errno(ENOENT)),
      Plain(JumpInsn(JMP_JEQ_K, NR_USELIB_32, 0, 1)), Plain(KILL),
      Plain(ALLOW),
      Label("label_x86_64"),
      Plain(LOAD_SYSCALL_NR),
      Plain(JumpInsn(JMP_JEQ_K, NR_SYSLOG, 0, 1)), Plain(Errno(ENOENT)),
      Plain(JumpInsn(JMP_JEQ_K, NR_USELIB_64, 0, 1)), Plain(KILL),
      Plain(ALLOW) ]
  }

  /** What the policy is for: syslog fails with ENOENT, uselib kills, under either numbering. */
  function DemoVerdict(arch: u32, nr: u32): u32 {
    if nr == 103 then 0x0005_0002
    else if nr == (if arch == 0xc000_003e then 134 else 86) then 0
    else 0x7fff_0000
  }

  /** The policy with its jumps resolved, word for word. */
  function DemoFilter(): seq<Insn> {
    [ Insn(0x20, 0, 0, 4),
      Insn(0x15, 0, 1, 0x4000_0003), Insn(0x05, 0, 0, 2),
      Insn(0x15, 0, 1, 0xc000_003e), Insn(0x05, 0, 0, 7),
      Insn(0x05, 0, 0, 0),
      Insn(0x20, 0, 0, 0),
      Insn(0x15, 0, 1, 103), Insn(0x06, 0, 0, 0x0005_0002),
      Insn(0x15, 0, 1, 86), Insn(0x06, 0, 0, 0),
      Insn(0x06, 0, 0, 0x7fff_0000),
      Insn(0x05, 0, 0, 0),
      Insn(0x20, 0, 0, 0),
      Insn(0x15, 0, 1, 103), Insn(0x06, 0, 0, 0x0005_0002),
      Insn(0x15, 0, 1, 134), Insn(0x06, 0, 0, 0),
      Insn(0x06, 0, 0, 0x7fff_0000) ]
  }

  // The same, by the macros' names.
  predicate IsDemoProgram(q: seq<Insn>) {
    && |q| == 19
    && q[0] == LOAD_ARCH
    && q[1] == JumpInsn(JMP_JEQ_K, AUDIT_ARCH_I386, 0, 1) && q[2] == Stmt(JMP_JA, 2)
    && q[3] == JumpInsn(JMP_JEQ_K, AUDIT_ARCH_X86_64, 0, 1) && q[4] == Stmt(JMP_JA, 7)
    && q[5] == Stmt(JMP_JA, 0) && IsDemoTail(q, 6, NR_USELIB_32)
    && q[12] == Stmt(JMP_JA, 0) && IsDemoTail(q, 13, NR_USELIB_64)
  }

  predicate IsDemoTail(q: seq<Insn>, i: nat, nr: u32) {
    && i + 6 <= |q|
    && q[i] == LOAD_SYSCALL_NR
    && q[i + 1] == JumpInsn(JMP_JEQ_K, NR_SYSLOG, 0, 1) && q[i + 2] == Errno(ENOENT)
    && q[i + 3] == JumpInsn(JMP_JEQ_K, nr, 0, 1) && q[i + 4] == KILL
    && q[i + 5] == ALLOW
  }

  lemma DemoNumbers(q: seq<Insn>)
    requires IsDemoProgram(q)
    ensures q == DemoFilter()
  {
  }

  lemma DemoWellNamed()
    ensures WellNamed(DemoPolicy())
  {
    var np := DemoPolicy();
    assert np[5].name[6] != np[12].name[6];
    assert np[5].Label? && np[12].Label?;
  }

  lemma DemoResolves(t: seq<string>)
    requires |t| <= BPF_LABELS_MAX && NamesIn(DemoPolicy(), t)
    ensures IsDemoProgram(Resolved(Assemble(DemoPolicy(), t)))
    ensures Resolved(Assemble(DemoPolicy(), t)) == DemoFilter()
  {
    var np := DemoPolicy();
    var q := Resolved(Assemble(np, t));
    DemoWellNamed();
    forall i | 0 <= i < 19
      ensures MeansByName(np, i, q[i])
    {
      ResolvedByName(np, t, i);
    }
    DemoByName(np, q);
    DemoNumbers(q);
  }

  lemma DemoByName(np: Draft, q: seq<Insn>)
    requires np == DemoPolicy() && |q| == 19 && forall i :: 0 <= i < 19 ==> MeansByName(np, i, q[i])
    ensures IsDemoProgram(q)
  {
    assert np[5].name[6] != np[12].name[6];
    assert MeansByName(np, 2, q[2]) && MeansByName(np, 4, q[4]);
    assert MeansByName(np, 0, q[0]) && MeansByName(np, 1, q[1]) && MeansByName(np, 3, q[3]);
    assert MeansByName(np, 6, q[6]) && MeansByName(np, 7, q[7]) && MeansByName(np, 8, q[8]);
    assert MeansByName(np, 13, q[13]) && MeansByName(np, 14, q[14]) && MeansByName(np, 15, q[15]);
  }

  lemma DemoTailRuns(q: seq<Insn>, i: nat, nr: u32, d: SeccompData, s: State)
    requires IsDemoTail(q, i, nr) && s.pc == i
    ensures var rules := [Rule(NR_SYSLOG, Errno(ENOENT).k), Rule(nr, SECCOMP_RET_KILL)];
            Run(q, d, s) == Ret(Verdict(rules, SECCOMP_RET_ALLOW, d.nr))
  {
    var r1, r2 := Rule(NR_SYSLOG, Errno(ENOENT).k), Rule(nr, SECCOMP_RET_KILL);
    var default := SECCOMP_RET_ALLOW;
    assert [r1, r2][1..] == [r2] && [r2][1..] == [];
    assert Rules([r2], default) == Group32(Eq, nr, KILL) + [ALLOW];
    assert Rules([r1, r2], default) == Group32(Eq, NR_SYSLOG, Errno(ENOENT)) + Rules([r2], default);
    NrRulesRun(q, i, [r1, r2], default, d, s);
  }

  lemma DemoRuns(q: seq<Insn>, d: SeccompData, s: State)
    requires IsDemoProgram(q) && s.pc == 0
    ensures Run(q, d, s) == Ret(DemoVerdict(d.arch, d.nr))
  {
    var u := Step(q, d, s);
    u := Step(q, d, u);
    u := Step(q, d, u);
    u := Step(q, d, u);
    if d.arch == AUDIT_ARCH_X86_64 {
      u := Step(q, d, u);
      DemoTailRuns(q, 13, NR_USELIB_64, d, u);
    } else {
      DemoTailRuns(q, 6, NR_USELIB_32, d, u);
    }
  }

  /** sandboxPrepareAndCommit, with the answers of its two prctl calls: the resolver never refuses the
      policy, whatever the order of its label lookups, and what is handed to the kernel gives the
      policy's verdict on every call of every architecture. */
  method PrepareAndCommit(order: seq<nat>, noNewPrivsOk: bool, seccompOk: bool)
    returns (ok: bool, committed: Option<seq<Insn>>)
    requires IsOrder(DemoPolicy(), order)
    ensures ok <==> noNewPrivsOk && seccompOk
    ensures committed.Some? <==> ok
    ensures ok ==> forall d: SeccompData, s: State :: s.pc == 0 ==>
              Run(committed.value, d, s) == Ret(DemoVerdict(d.arch, d.nr))
    ensures ok ==> committed.value == DemoFilter()
  {
    DemoWellNamed();
    var r, filter := BuildAndResolve(DemoPolicy(), order);
    if r != 0 {
      return false, None;
    }
    if !noNewPrivsOk {
      return false, None;
    }
    if !seccompOk {
      return false, None;
    }
    DemoResolves(TableOf(DemoPolicy(), order));
    ghost var q := filter[..];
    forall d: SeccompData, s: State | s.pc == 0
      ensures Run(q, d, s) == Ret(DemoVerdict(d.arch, d.nr))
    {
      DemoRuns(q, d, s);
    }
    return true, Some(filter[..]);
  }
}
