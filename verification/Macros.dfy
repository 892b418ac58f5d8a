/** The instruction groups that the macros of bpf-helper.h expand to, and what they compute. */
module Macros {
  import opened Words
  import opened Bpf

  const SECCOMP_RET_KILL: u32 := 0x0000_0000
  const SECCOMP_RET_ERRNO: u32 := 0x0005_0000
  const SECCOMP_RET_ALLOW: u32 := 0x7fff_0000

  const ALLOW: Insn := Stmt(RET_K, SECCOMP_RET_ALLOW)
  const KILL: Insn := Stmt(RET_K, SECCOMP_RET_KILL)
  function Errno(val: nat): Insn { Stmt(RET_K, SECCOMP_RET_ERRNO + val % 0x1_0000) }

  const LOAD_SYSCALL_NR: Insn := Stmt(LD_W_ABS, 0)
  const LOAD_ARCH: Insn := Stmt(LD_W_ABS, 4)

  /** The instruction words as they are in memory. */
  lemma Encodings(k: u32)
    ensures LOAD_SYSCALL_NR == Insn(0x20, 0, 0, 0) && LOAD_ARCH == Insn(0x20, 0, 0, 4)
    ensures ALLOW == Insn(0x06, 0, 0, 0x7fff_0000) && KILL == Insn(0x06, 0, 0, 0)
    ensures Errno(2) == Insn(0x06, 0, 0, 0x0005_0002)
    ensures Stmt(ST, k) == Insn(0x02, 0, 0, k) && Stmt(LD_MEM, k) == Insn(0x60, 0, 0, k)
    ensures JumpInsn(JMP_JEQ_K, k, 1, 2) == Insn(0x15, 1, 2, k) && JumpInsn(JMP_JGT_K, k, 1, 2) == Insn(0x25, 1, 2, k)
    ensures JumpInsn(JMP_JGE_K, k, 1, 2) == Insn(0x35, 1, 2, k) && JumpInsn(JMP_JSET_K, k, 1, 2) == Insn(0x45, 1, 2, k)
  {
  }

  // offsetof(struct seccomp_data, args[idx]), low and high half, by byte order
  function LoArg(idx: nat, bigEndian: bool): nat { 16 + 8 * idx + if bigEndian then 4 else 0 }
  function HiArg(idx: nat, bigEndian: bool): nat { 16 + 8 * idx + if bigEndian then 0 else 4 }

  function Arg64(idx: nat, bigEndian: bool): seq<Insn>
    requires idx < 6
  {
    [ Stmt(LD_W_ABS, LoArg(idx, bigEndian)),
      Stmt(ST, 0),
      Stmt(LD_W_ABS, HiArg(idx, bigEndian)),
      Stmt(ST, 1) ]
  }

  datatype Op = Eq | Ne | Gt | Lt | Ge | Le | Set

  /** JEQ32, JNE32, JGT32, JLT32, JGE32, JLE32 and JA32. */
  function Group32(op: Op, v: u32, jt: Insn): seq<Insn> {
    match op
    case Eq  => [JumpInsn(JMP_JEQ_K, v, 0, 1), jt]
    case Ne  => [JumpInsn(JMP_JEQ_K, v, 1, 0), jt]
    case Gt  => [JumpInsn(JMP_JGT_K, v, 0, 1), jt]
    case Lt  => [JumpInsn(JMP_JGE_K, v, 1, 0), jt]
    case Ge  => [JumpInsn(JMP_JGE_K, v, 0, 1), jt]
    case Le  => [JumpInsn(JMP_JGT_K, v, 1, 0), jt]
    case Set => [JumpInsn(JMP_JSET_K, v, 0, 1), jt]
  }

  // Every 64-bit group ends by putting the high half back and, just before that, the target.
  function Tail64(jt: Insn): seq<Insn> {
    [Stmt(LD_MEM, 1), jt, Stmt(LD_MEM, 1)]
  }

  /** JEQ64, JNE64, JGT64, JLT64, JGE64, JLE64 and JA64, with their offsets as the header has them. */
  function Group64(op: Op, x: u64, jt: Insn): seq<Insn> {
    var lo, hi := Lo(x), Hi(x);
    match op
    case Eq => [ JumpInsn(JMP_JEQ_K, hi, 0, 5),
                 Stmt(LD_MEM, 0),
                 JumpInsn(JMP_JEQ_K, lo, 0, 2) ] + Tail64(jt)
    case Ne => [ JumpInsn(JMP_JEQ_K, hi, 5, 0),
                 Stmt(LD_MEM, 0),
                 JumpInsn(JMP_JEQ_K, lo, 2, 0) ] + Tail64(jt)
    case Set => [ JumpInsn(JMP_JSET_K, hi, 3, 0),
                  Stmt(LD_MEM, 0),
                  JumpInsn(JMP_JSET_K, lo, 0, 2) ] + Tail64(jt)
    case Ge => [ JumpInsn(JMP_JGT_K, hi, 4, 0),
                 JumpInsn(JMP_JEQ_K, hi, 0, 5),
                 Stmt(LD_MEM, 0),
                 JumpInsn(JMP_JGE_K, lo, 0, 2) ] + Tail64(jt)
    case Lt => [ JumpInsn(JMP_JGE_K, hi, 0, 4),
                 JumpInsn(JMP_JEQ_K, hi, 0, 5),
                 Stmt(LD_MEM, 0),
                 JumpInsn(JMP_JGT_K, lo, 2, 0) ] + Tail64(jt)
    case Gt => [ JumpInsn(JMP_JGT_K, hi, 4, 0),
                 JumpInsn(JMP_JEQ_K, hi, 0, 5),
                 Stmt(LD_MEM, 0),
                 JumpInsn(JMP_JGT_K, lo, 0, 2) ] + Tail64(jt)
    case Le => [ JumpInsn(JMP_JGT_K, hi, 6, 0),
                 JumpInsn(JMP_JEQ_K, hi, 0, 3),
                 Stmt(LD_MEM, 0),
                 JumpInsn(JMP_JGT_K, lo, 2, 0) ] + Tail64(jt)
  }

  function GroupSize(op: Op): nat { if op.Eq? || op.Ne? || op.Set? then 6 else 7 }

  /** The unsigned relation that each macro is named after. */
  predicate Relation(op: Op, arg: nat, x: nat) {
    match op
    case Eq => arg == x
    case Ne => arg != x
    case Gt => arg > x
    case Lt => arg < x
    case Ge => arg >= x
    case Le => arg <= x
    case Set => Meets(arg, x)
  }

  /** The relation each 64-bit group decides as it is written. */
  predicate Taken64(op: Op, arg: u64, x: u64) {
    match op
    case Lt => arg <= x
    case Ne => Hi(arg) != Hi(x) && Lo(arg) != Lo(x)
    case _ => Relation(op, arg, x)
  }

  /** JLT64 misses its relation exactly at equality, JNE64 exactly when one half of the words agrees. */
  lemma Taken64Exact(op: Op, arg: u64, x: u64)
    ensures (Taken64(op, arg, x) <==> Relation(op, arg, x)) <==>
            !(op == Lt && arg == x) && !(op == Ne && (Hi(arg) == Hi(x)) != (Lo(arg) == Lo(x)))
  {
    assert arg == Hi(arg) * TWO32 + Lo(arg) && x == Hi(x) * TWO32 + Lo(x);
  }

  /** An argument equal to the constant is taken as less, and one that differs in one half as equal. */
  lemma MisnamedGroups()
    ensures Taken64(Lt, 7, 7) && !Relation(Lt, 7, 7)
    ensures !Taken64(Ne, 7, 8) && Relation(Ne, 7, 8)
  {
  }

  /** What ARG_64 establishes and every 64-bit group keeps: A == M[1] == hi, M[0] == lo. */
  predicate Holds64(s: State, arg: u64) {
    s.a == Hi(arg) == s.m[1] && s.m[0] == Lo(arg)
  }

  lemma Step(p: seq<Insn>, d: SeccompData, s: State) returns (t: State)
    requires s.pc < |p| && Exec(p[s.pc], d, s).Goto?
    ensures t == Exec(p[s.pc], d, s).s && Run(p, d, s) == Run(p, d, t)
  {
    t := Exec(p[s.pc], d, s).s;
  }

  lemma Group32Runs(p: seq<Insn>, i: nat, op: Op, v: u32, jt: Insn, d: SeccompData, s: State)
    requires At(p, i, Group32(op, v, jt)) && s.pc == i
    ensures Run(p, d, s) == Run(p, d, s.(pc := if Relation(op, s.a, v) then i + 1 else i + 2))
  {
    assert p[i + 0] == Group32(op, v, jt)[0];
    var _ := Step(p, d, s);
  }

  /** From its first test, a 64-bit group reaches its target exactly when Taken64 holds and the
      instruction after the group otherwise, with A and the scratch slots as they were. */
  lemma Group64Runs(p: seq<Insn>, i: nat, op: Op, x: u64, jt: Insn, d: SeccompData, s: State, arg: u64)
    requires At(p, i, Group64(op, x, jt)) && s.pc == i && Holds64(s, arg)
    ensures Run(p, d, s)
         == Run(p, d, s.(pc := i + GroupSize(op) - if Taken64(op, arg, x) then 2 else 0))
  {
    if op.Eq? || op.Ne? || op.Set? {
      ShortGroupRuns(p, i, op, x, jt, d, s, arg);
    } else {
      LongGroupRuns(p, i, op, x, jt, d, s, arg);
    }
  }

  // The last test looks at the low half; whichever way it goes, the high half comes back.
  lemma LowTestRuns(p: seq<Insn>, i: nat, low: Insn, jt: Insn, d: SeccompData, s: State, arg: u64)
    requires At(p, i, [Stmt(LD_MEM, 0), low] + Tail64(jt)) && s.pc == i && Holds64(s, arg)
    requires IsTest(low.code) && {low.jt, low.jf} == {0, 2}
    ensures Run(p, d, s)
         == Run(p, d, s.(pc := i + if (if Test(low.code, Lo(arg), low.k) then low.jt else low.jf) == 0 then 3 else 5))
  {
    var b := [Stmt(LD_MEM, 0), low] + Tail64(jt);
    assert p[i + 0] == b[0] && p[i + 1] == b[1] && p[i + 2] == b[2] && p[i + 4] == b[4];
    assert low.jt in {0, 2} && low.jf in {0, 2};
    var s1 := Step(p, d, s);
    var s2 := Step(p, d, s1);
    var s3 := Step(p, d, s2);
  }

  lemma SubBlock(p: seq<Insn>, i: nat, b: seq<Insn>, from: nat)
    requires At(p, i, b) && from <= |b|
    ensures At(p, i + from, b[from..])
  {
    forall j | 0 <= j < |b[from..]|
      ensures p[i + from + j] == b[from..][j]
    {
      assert p[i + (from + j)] == b[from + j];
    }
  }

  lemma ShortGroupRuns(p: seq<Insn>, i: nat, op: Op, x: u64, jt: Insn, d: SeccompData, s: State, arg: u64)
    requires op.Eq? || op.Ne? || op.Set?
    requires At(p, i, Group64(op, x, jt)) && s.pc == i && Holds64(s, arg)
    ensures Run(p, d, s) == Run(p, d, s.(pc := i + if Taken64(op, arg, x) then 4 else 6))
  {
    var g := Group64(op, x, jt);
    assert p[i + 0] == g[0];
    MeetsByHalves(arg, x);
    assert arg == Hi(arg) * TWO32 + Lo(arg) && x == Hi(x) * TWO32 + Lo(x);
    var s1 := Step(p, d, s);
    if s1.pc == i + 1 {
      SubBlock(p, i, g, 1);
      assert g[1..] == [Stmt(LD_MEM, 0), g[2]] + Tail64(jt);
      LowTestRuns(p, i + 1, g[2], jt, d, s1, arg);
    }
  }

  lemma LongGroupRuns(p: seq<Insn>, i: nat, op: Op, x: u64, jt: Insn, d: SeccompData, s: State, arg: u64)
    requires op.Ge? || op.Gt? || op.Le? || op.Lt?
    requires At(p, i, Group64(op, x, jt)) && s.pc == i && Holds64(s, arg)
    ensures Run(p, d, s) == Run(p, d, s.(pc := i + if Taken64(op, arg, x) then 5 else 7))
  {
    var g := Group64(op, x, jt);
    assert p[i + 0] == g[0] && p[i + 1] == g[1];
    assert arg == Hi(arg) * TWO32 + Lo(arg) && x == Hi(x) * TWO32 + Lo(x);
    var s1 := Step(p, d, s);
    if s1.pc == i + 1 {
      var s2 := Step(p, d, s1);
      if s2.pc == i + 2 {
        SubBlock(p, i, g, 2);
        assert g[2..] == [Stmt(LD_MEM, 0), g[3]] + Tail64(jt);
        LowTestRuns(p, i + 2, g[3], jt, d, s2, arg);
      }
    }
  }

  /** ARG_64 loads both halves of the argument, on either byte order. */
  lemma Arg64Runs(p: seq<Insn>, i: nat, idx: nat, d: SeccompData, s: State) returns (t: State)
    requires idx < 6 && At(p, i, Arg64(idx, d.bigEndian)) && s.pc == i
    ensures t.pc == i + 4 && Holds64(t, d.args[idx]) && Run(p, d, s) == Run(p, d, t)
    ensures forall j :: 2 <= j < SLOTS ==> t.m[j] == s.m[j]
  {
    var b := Arg64(idx, d.bigEndian);
    assert p[i + 0] == b[0] && p[i + 1] == b[1] && p[i + 2] == b[2] && p[i + 3] == b[3];
    t := Step(p, d, s);
    t := Step(p, d, t);
    t := Step(p, d, t);
    t := Step(p, d, t);
  }

  // A chain of tests: each compares with `x` and runs `jt` when its relation holds.
  datatype Case = Case(op: Op, x: u64, jt: Insn)

  function Group(c: Case): seq<Insn> { Group64(c.op, c.x, c.jt) }

  function Chain(cs: seq<Case>): seq<Insn> {
    if cs == [] then [] else Chain(cs[..|cs| - 1]) + Group(cs[|cs| - 1])
  }

  /** Where group `n` of the chain starts. */
  function Offset(cs: seq<Case>, n: nat): nat
    requires n <= |cs|
  {
    if n == 0 then 0 else Offset(cs, n - 1) + GroupSize(cs[n - 1].op)
  }

  /** Where the target of case `n` stands within the chain; past the chain for n == |cs|. */
  function TargetAt(cs: seq<Case>, n: nat): nat
    requires n <= |cs|
  {
    Offset(cs, n) + if n == |cs| then 0 else GroupSize(cs[n].op) - 2
  }

  /** The first case, from case `from` on, whose test is taken; |cs| if none is. */
  function FirstTaken(cs: seq<Case>, arg: u64, from: nat): (n: nat)
    requires from <= |cs|
    ensures from <= n <= |cs| && (n < |cs| ==> Taken64(cs[n].op, arg, cs[n].x))
    ensures forall j :: from <= j < n ==> !Taken64(cs[j].op, arg, cs[j].x)
    decreases |cs| - from
  {
    if from == |cs| || Taken64(cs[from].op, arg, cs[from].x) then from else FirstTaken(cs, arg, from + 1)
  }

  lemma AtSplit(p: seq<Insn>, i: nat, a: seq<Insn>, b: seq<Insn>)
    requires At(p, i, a + b)
    ensures At(p, i, a) && At(p, i + |a|, b)
  {
    forall j | 0 <= j < |a|
      ensures p[i + j] == a[j]
    {
      assert (a + b)[j] == a[j];
    }
    forall j | 0 <= j < |b|
      ensures p[i + |a| + j] == b[j]
    {
      assert p[i + (|a| + j)] == (a + b)[|a| + j];
    }
  }

  lemma {:induction false} OffsetOfPrefix(cs: seq<Case>, m: nat, n: nat)
    requires n <= m <= |cs|
    ensures Offset(cs[..m], n) == Offset(cs, n)
  {
    if n > 0 {
      OffsetOfPrefix(cs, m, n - 1);
    }
  }

  lemma {:induction false} GroupAt(p: seq<Insn>, i: nat, cs: seq<Case>, n: nat)
    requires At(p, i, Chain(cs))
    ensures |Chain(cs)| == Offset(cs, |cs|)
    ensures n < |cs| ==> At(p, i + Offset(cs, n), Group(cs[n]))
    decreases |cs|
  {
    if cs != [] {
      var m := |cs| - 1;
      AtSplit(p, i, Chain(cs[..m]), Group(cs[m]));
      GroupAt(p, i, cs[..m], n);
      OffsetOfPrefix(cs, m, m);
      if n < m {
        OffsetOfPrefix(cs, m, n);
      }
    }
  }

  lemma GroupOfChainRuns(p: seq<Insn>, i: nat, cs: seq<Case>, n: nat, d: SeccompData, s: State, arg: u64)
    requires At(p, i, Chain(cs)) && n < |cs| && s.pc == i + Offset(cs, n) && Holds64(s, arg)
    ensures Run(p, d, s) == Run(p, d, s.(pc := if Taken64(cs[n].op, arg, cs[n].x) then i + TargetAt(cs, n)
                                                 else i + Offset(cs, n + 1)))
  {
    GroupAt(p, i, cs, n);
    Group64Runs(p, s.pc, cs[n].op, cs[n].x, cs[n].jt, d, s, arg);
  }

  lemma GroupTarget(p: seq<Insn>, i: nat, c: Case)
    requires At(p, i, Group(c))
    ensures i + GroupSize(c.op) <= |p| && p[i + (GroupSize(c.op) - 2)] == c.jt
  {
    assert p[i + (GroupSize(c.op) - 2)] == Group(c)[GroupSize(c.op) - 2];
  }

  lemma {:induction false} TargetStands(p: seq<Insn>, i: nat, cs: seq<Case>, n: nat)
    requires At(p, i, Chain(cs)) && n < |cs|
    ensures i + TargetAt(cs, n) < |p| && p[i + TargetAt(cs, n)] == cs[n].jt
  {
    GroupAt(p, i, cs, n);
    GroupTarget(p, i + Offset(cs, n), cs[n]);
  }

  /** From any group of a chain standing anywhere in a program, control goes on to the target of the
      first case that is taken, or past the chain, with A and the scratch slots unchanged. */
  lemma {:induction false} ChainRuns(p: seq<Insn>, i: nat, cs: seq<Case>, from: nat, d: SeccompData, s: State, arg: u64)
    requires At(p, i, Chain(cs)) && from <= |cs| && s.pc == i + Offset(cs, from) && Holds64(s, arg)
    ensures Run(p, d, s) == Run(p, d, s.(pc := i + TargetAt(cs, FirstTaken(cs, arg, from))))
    decreases |cs| - from
  {
    if from < |cs| {
      GroupOfChainRuns(p, i, cs, from, d, s, arg);
      if !Taken64(cs[from].op, arg, cs[from].x) {
        ChainRuns(p, i, cs, from + 1, d, s.(pc := i + Offset(cs, from + 1)), arg);
      }
    }
  }

  /** ARG_64 followed by any chain, from any state: the first test that holds decides which target
      instruction runs, and A == M[1] == hi, M[0] == lo hold when it does. */
  lemma ArgChainRuns(p: seq<Insn>, i: nat, idx: nat, cs: seq<Case>, d: SeccompData, s: State) returns (t: State)
    requires idx < 6 && At(p, i, Arg64(idx, d.bigEndian) + Chain(cs)) && s.pc == i
    ensures Run(p, d, s) == Run(p, d, t) && Holds64(t, d.args[idx])
    ensures var n := FirstTaken(cs, d.args[idx], 0);
            && t.pc == i + 4 + TargetAt(cs, n)
            && (n == |cs| ==> t.pc == i + 4 + |Chain(cs)|)
            && (n < |cs| ==> t.pc < |p| && p[t.pc] == cs[n].jt)
  {
    var n := FirstTaken(cs, d.args[idx], 0);
    AtSplit(p, i, Arg64(idx, d.bigEndian), Chain(cs));
    var u := Arg64Runs(p, i, idx, d, s);
    ChainRuns(p, i + 4, cs, 0, d, u, d.args[idx]);
    t := u.(pc := i + 4 + TargetAt(cs, n));
    if n < |cs| {
      TargetStands(p, i + 4, cs, n);
    } else {
      GroupAt(p, i + 4, cs, n);
    }
  }

  // A 32-bit rule list: JEQ32(nr, action) for each rule, then a default action.
  datatype Rule = Rule(nr: u32, action: u32)

  function Rules(rs: seq<Rule>, default: u32): seq<Insn> {
    if rs == [] then [Stmt(RET_K, default)]
    else Group32(Eq, rs[0].nr, Stmt(RET_K, rs[0].action)) + Rules(rs[1..], default)
  }

  /** First match wins. */
  function Verdict(rs: seq<Rule>, default: u32, nr: u32): (v: u32)
    ensures (forall r :: r in rs ==> r.nr != nr) ==> v == default
    ensures forall i :: 0 <= i < |rs| && rs[i].nr == nr && (forall j :: 0 <= j < i ==> rs[j].nr != nr) ==>
              v == rs[i].action
  {
    if rs == [] then default else if rs[0].nr == nr then rs[0].action else Verdict(rs[1..], default, nr)
  }

  lemma {:induction false} RulesRun(p: seq<Insn>, i: nat, rs: seq<Rule>, default: u32, d: SeccompData, s: State)
    requires At(p, i, Rules(rs, default)) && s.pc == i
    ensures Run(p, d, s) == Ret(Verdict(rs, default, s.a))
    decreases |rs|
  {
    if rs == [] {
      assert p[i + 0] == Rules(rs, default)[0];
    } else {
      var g := Group32(Eq, rs[0].nr, Stmt(RET_K, rs[0].action));
      AtSplit(p, i, g, Rules(rs[1..], default));
      Group32Runs(p, i, Eq, rs[0].nr, Stmt(RET_K, rs[0].action), d, s);
      assert p[i + 1] == g[1];
      if rs[0].nr != s.a {
        RulesRun(p, i + 2, rs[1..], default, d, s.(pc := i + 2));
      }
    }
  }

  /** LOAD_SYSCALL_NR and a rule list, standing anywhere in a program: the verdict on the call number. */
  lemma NrRulesRun(p: seq<Insn>, i: nat, rs: seq<Rule>, default: u32, d: SeccompData, s: State)
    requires At(p, i, [LOAD_SYSCALL_NR] + Rules(rs, default)) && s.pc == i
    ensures Run(p, d, s) == Ret(Verdict(rs, default, d.nr))
  {
    AtSplit(p, i, [LOAD_SYSCALL_NR], Rules(rs, default));
    assert p[i + 0] == [LOAD_SYSCALL_NR][0];
    var t := Step(p, d, s);
    RulesRun(p, i + 1, rs, default, d, t);
  }
}
