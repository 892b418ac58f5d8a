/** Runs of listen mode in which the supervisor does not do what its documentation says. */
module Courses {
  import opened Common
  import opened Protocol
  import opened Safety
  import opened Runs

  /** A run, with where it leads. */
  datatype Course = Course(log: seq<Event>, w: World)

  predicate IsRun(c: Config, start: int, r: Course) { After(c, start, r.log) == Some(r.w) }

  lemma Happen(c: Config, start: int, r: Course, e: Event) returns (r': Course)
    requires IsRun(c, start, r) && Enabled(c, r.w, e)
    ensures IsRun(c, start, r') && r'.w == Apply(c, r.w, e)
    ensures ReapedNow(c, start, r'.log) == Collect(ReapedNow(c, start, r.log), r.w, e)
  {
    r' := Course(r.log + [e], Apply(c, r.w, e));
    assert r'.log[..|r'.log| - 1] == r.log;
  }

  /** Nothing has moved but the parent: the children are as they were made. */
  predicate Quiet(c: Config, w: World) {
    && c.mode.ListenTcp? && !w.fatal
    && (forall pid :: pid in w.kids ==> w.kids[pid].stage.Fresh?)
  }

  lemma Begin(c: Config, start: int) returns (r: Course)
    requires c.mode.ListenTcp?
    ensures IsRun(c, start, r) && Quiet(c, r.w) && r.w.pc.Idle? && r.w.table == [] && r.w.kids == map[]
  {
    r := Course([], Init(c, start));
    UnusedExists(r.w.fds);
    var fd: Fd :| fd !in r.w.fds;
    r := Happen(c, start, r, Loop(OpenListen(fd)));
  }

  lemma Arrive(c: Config, start: int, r: Course, addr: Addr) returns (r': Course)
    requires IsRun(c, start, r) && Quiet(c, r.w) && r.w.pc.Idle?
    ensures IsRun(c, start, r') && r'.w.pc.Admitting? && r'.w.peer == addr && Quiet(c, r'.w)
    ensures r'.w.table == r.w.table && r'.w.kids == r.w.kids
  {
    UnusedExists(r.w.fds);
    var fd: Fd :| fd !in r.w.fds;
    r' := Happen(c, start, r, Loop(Accept(fd, addr)));
  }

  lemma Admitted(c: Config, start: int, r: Course) returns (r': Course)
    requires IsRun(c, start, r) && Quiet(c, r.w) && r.w.pc.Admitting? && !Limited(c, r.w.table, r.w.peer)
    ensures IsRun(c, start, r') && r'.w.pc.Cloning? && r'.w.peer == r.w.peer && Quiet(c, r'.w)
    ensures r'.w.table == r.w.table && r'.w.kids == r.w.kids && r'.w.now == r.w.now
  {
    r' := Happen(c, start, r, Run(Admit));
    UnusedExists(r.w.fds);
    var cfd: Fd :| cfd !in r.w.fds;
    UnusedExists(r.w.fds + {cfd});
    var pfd: Fd :| pfd !in r.w.fds + {cfd};
    r' := Happen(c, start, r', Run(Pair(cfd, pfd)));
  }

  lemma Spawn(c: Config, start: int, r: Course, pid: Pid) returns (r': Course)
    requires IsRun(c, start, r) && Quiet(c, r.w) && r.w.pc.Cloning? && pid !in r.w.kids
    ensures IsRun(c, start, r') && r'.w.pc.NetInit? && r'.w.pid == pid && Quiet(c, r'.w)
    ensures r'.w.table == [Entry(pid, r.w.now, r.w.peer, None)] + r.w.table && r'.w.kids == r.w.kids[pid := NEWBORN]
  {
    r' := Happen(c, start, r, Run(Clone(pid)));
    r' := Happen(c, start, r', Run(CloseChildEnd));
    r' := Happen(c, start, r', Run(Add(None, r.w.peer)));
  }

  lemma Prepare(c: Config, start: int, r: Course) returns (r': Course)
    requires IsRun(c, start, r) && Quiet(c, r.w) && r.w.pc.NetInit? && r.w.pid in r.w.kids
    ensures IsRun(c, start, r') && r'.w.pc.Closing? && Quiet(c, r'.w)
    ensures r'.w.table == r.w.table && r'.w.kids.Keys == r.w.kids.Keys
  {
    r' := Happen(c, start, r, Setup(NetOk));
    r' := Happen(c, start, r', Setup(CgroupOk));
    r' := Happen(c, start, r', Setup(UserOk));
    r' := Happen(c, start, r', Setup(SendDone));
  }

  lemma Leave(c: Config, start: int, r: Course) returns (r': Course)
    requires IsRun(c, start, r) && Quiet(c, r.w) && r.w.pc.Closing?
    ensures IsRun(c, start, r') && r'.w.pc.Reaping? && r'.w.rv == 0 && Quiet(c, r'.w)
    ensures r'.w.table == r.w.table && r'.w.kids.Keys == r.w.kids.Keys && ReapedNow(c, start, r'.log) == []
  {
    r' := Happen(c, start, r, Run(CloseParentEnd));
    r' := Happen(c, start, r', Run(Return));
  }

  /** A connection is served, up to the reap after it. */
  lemma Connect(c: Config, start: int, r: Course, addr: Addr, pid: Pid) returns (r': Course)
    requires IsRun(c, start, r) && Quiet(c, r.w) && r.w.pc.Idle? && pid !in r.w.kids && !Limited(c, r.w.table, addr)
    ensures IsRun(c, start, r') && r'.w.pc.Reaping? && r'.w.rv == 0 && Quiet(c, r'.w)
    ensures ReapedNow(c, start, r'.log) == []
    ensures exists e: Entry :: e.pid == pid && e.addr == addr && r'.w.table == [e] + r.w.table
    ensures r'.w.kids.Keys == r.w.kids.Keys + {pid}
  {
    r' := Arrive(c, start, r, addr);
    r' := Admitted(c, start, r');
    r' := Spawn(c, start, r', pid);
    ghost var e := r'.w.table[0];
    r' := Prepare(c, start, r');
    r' := Leave(c, start, r');
    assert e.pid == pid && e.addr == addr && r'.w.table == [e] + r.w.table;
  }

  // One entry of the time-limit loop.
  lemma PassOver(c: Config, start: int, r: Course) returns (r': Course)
    requires IsRun(c, start, r) && r.w.pc.Sweeping? && r.w.i < |r.w.table|
    ensures IsRun(c, start, r') && r'.w == r.w.(i := r.w.i + 1, signals := r'.w.signals)
    ensures ReapedNow(c, start, r'.log) == ReapedNow(c, start, r.log)
  {
    if Over(c, r.w.table[r.w.i], r.w.at) {
      r' := Happen(c, start, r, Sweep(SendSigcont));
      r' := Happen(c, start, r', Sweep(SendSigkill));
    } else {
      r' := Happen(c, start, r, Sweep(Skip));
    }
  }

  /** The reap finds no child to wait for. */
  lemma Settle(c: Config, start: int, r: Course) returns (r': Course)
    requires IsRun(c, start, r) && Quiet(c, r.w) && r.w.pc.Reaping?
    ensures IsRun(c, start, r') && r'.w.pc.Idle? && Quiet(c, r'.w) && r'.w.rv == r.w.rv
    ensures r'.w.table == r.w.table && r'.w.kids == r.w.kids
    ensures ReapedNow(c, start, r'.log) == ReapedNow(c, start, r.log)
  {
    r' := Happen(c, start, r, Reap(WaitNone));
    var w := r'.w;
    while r'.w.i < |r.w.table|
      invariant IsRun(c, start, r') && r'.w == w.(i := r'.w.i, signals := r'.w.signals)
      invariant r'.w.i <= |r.w.table| && ReapedNow(c, start, r'.log) == ReapedNow(c, start, r.log)
    {
      r' := PassOver(c, start, r');
    }
    r' := Happen(c, start, r', Sweep(SweepEnd));
  }

  lemma Full(c: Config, start: int, n: nat, b: Addr) returns (r: Course)
    requires c.mode.ListenTcp? && n <= c.maxConnsPerIp
    ensures IsRun(c, start, r) && Quiet(c, r.w) && r.w.pc.Idle? && |r.w.table| == n == Conns(r.w.table, b[0])
    ensures forall i :: 0 <= i < |r.w.table| ==> r.w.table[i].addr == b
  {
    if n == 0 {
      r := Begin(c, start);
    } else {
      var before := Full(c, start, n - 1, b);
      UnusedExists(before.w.kids.Keys);
      var pid: Pid :| pid !in before.w.kids.Keys;
      r := Connect(c, start, before, b, pid);
      assert r.w.table[1..] == before.w.table;
      r := Settle(c, start, r);
    }
  }

  lemma NoneFrom(t: seq<Entry>, a: Addr)
    requires forall i :: 0 <= i < |t| ==> t[i].addr != a
    ensures FromAddr(t, a) == 0
  {
  }

  /** Whatever the limit, there is a run in which an address without any connection is rejected. */
  lemma NeighbourRejected(c: Config, start: int) returns (log: seq<Event>, w: World)
    requires c.mode.ListenTcp? && c.maxConnsPerIp != 0
    ensures After(c, start, log) == Some(w) && Enabled(c, w, Run(Reject)) && FromAddr(w.table, w.peer) == 0
  {
    var a: Addr := seq(16, _ => 32);
    var b: Addr := a[15 := 1];
    assert b[15] != a[15];
    var r := Full(c, start, c.maxConnsPerIp, b);
    r := Arrive(c, start, r, a);
    NoneFrom(r.w.table, a);
    log, w := r.log, r.w;
  }

  /** The reap loop waits for the child of entry `k`. */
  lemma WaitFor(c: Config, start: int, r: Course, k: nat) returns (r': Course)
    requires IsRun(c, start, r) && r.w.pc.Reaping? && k < |r.w.table| && PidsDistinct(r.w.table)
    requires var pid := r.w.table[k].pid; pid in r.w.kids && r.w.kids[pid].stage.Zombie?
    ensures IsRun(c, start, r') && r'.w.pc.Reaping? && r'.w.table == Drop(r.w.table, k)
    ensures var pid := r.w.table[k].pid;
            && r'.w.kids == r.w.kids - {pid} && r'.w.rv == Encode(r.w.kids[pid].stage.status)
            && ReapedNow(c, start, r'.log) == ReapedNow(c, start, r.log) + [r.w.kids[pid].stage.status]
  {
    r' := Happen(c, start, r, Reap(Wait(r.w.table[k].pid)));
    r' := Happen(c, start, r', Reap(CgroupFinish(true)));
    r' := Happen(c, start, r', Reap(Remove(k)));
  }

  lemma Die(c: Config, start: int, r: Course, pid: Pid, s: Status) returns (r': Course)
    requires IsRun(c, start, r) && Alive(r.w.kids, pid)
    ensures IsRun(c, start, r') && r'.w == r.w.(kids := SetStage(r.w.kids, pid, Zombie(s)))
    ensures ReapedNow(c, start, r'.log) == ReapedNow(c, start, r.log)
  {
    r' := Happen(c, start, r, Env(ChildEnds(pid, s)));
  }

  lemma EndReap(c: Config, start: int, r: Course) returns (r': Course)
    requires IsRun(c, start, r) && r.w.pc.Reaping? && r.w.table == [] && r.w.kids.Keys == {}
    ensures IsRun(c, start, r') && r'.w.pc.Idle? && r'.w.rv == r.w.rv
    ensures ReapedNow(c, start, r'.log) == ReapedNow(c, start, r.log)
  {
    r' := Happen(c, start, r, Reap(WaitNone));
    r' := Happen(c, start, r', Sweep(SweepEnd));
  }

  /** Two connections are being served, from addresses that the limit tells apart. */
  lemma TwoServed(c: Config, start: int) returns (r: Course)
    requires c.mode.ListenTcp?
    ensures IsRun(c, start, r) && r.w.pc.Reaping? && Quiet(c, r.w) && ReapedNow(c, start, r.log) == []
    ensures |r.w.table| == 2 && r.w.table[0].pid == 2 && r.w.table[1].pid == 1 && r.w.kids.Keys == {1, 2}
  {
    var a: Addr, b: Addr := seq(16, _ => 1), seq(16, _ => 2);
    r := Begin(c, start);
    r := Connect(c, start, r, a, 1);
    r := Settle(c, start, r);
    assert r.w.table[1..] == [];
    r := Connect(c, start, r, b, 2);
  }

  /** Both end, the first one badly. */
  lemma BothEnded(c: Config, start: int) returns (r: Course)
    requires c.mode.ListenTcp?
    ensures IsRun(c, start, r) && r.w.pc.Reaping? && ReapedNow(c, start, r.log) == []
    ensures |r.w.table| == 2 && r.w.table[0].pid == 2 && r.w.table[1].pid == 1 && r.w.kids.Keys == {1, 2}
    ensures r.w.kids[1].stage == Zombie(Exited(1)) && r.w.kids[2].stage == Zombie(Exited(0))
  {
    r := TwoServed(c, start);
    r := Die(c, start, r, 1, Exited(1));
    r := Die(c, start, r, 2, Exited(0));
  }

  lemma BothReaped(c: Config, start: int, r: Course) returns (r': Course)
    requires IsRun(c, start, r) && r.w.pc.Reaping?
    requires |r.w.table| == 2 && r.w.table[0].pid == 2 && r.w.table[1].pid == 1 && r.w.kids.Keys == {1, 2}
    requires r.w.kids[1].stage.Zombie? && r.w.kids[2].stage.Zombie?
    ensures IsRun(c, start, r') && r'.w.pc.Reaping? && r'.w.table == [] && r'.w.kids.Keys == {}
    ensures r'.w.rv == Encode(r.w.kids[2].stage.status)
    ensures ReapedNow(c, start, r'.log)
         == ReapedNow(c, start, r.log) + [r.w.kids[1].stage.status] + [r.w.kids[2].stage.status]
  {
    var e := r.w.table[0];
    r' := WaitFor(c, start, r, 1);
    assert r'.w.table == [e] && 2 in r'.w.kids;
    r' := WaitFor(c, start, r', 0);
  }

  /** There is a run in which one call of subprocReap waits for a child that failed and then for one that
      did not, and returns 0 where its header promises the first one's code. */
  lemma FailureForgotten(c: Config, start: int) returns (log: seq<Event>, w: World)
    requires c.mode.ListenTcp?
    ensures After(c, start, log) == Some(w) && w.pc.Idle? && ReapedNow(c, start, log) == [Exited(1), Exited(0)]
    ensures w.rv == 0 && FirstFailure(ReapedNow(c, start, log)) == 1
  {
    var r := BothEnded(c, start);
    r := BothReaped(c, start, r);
    r := EndReap(c, start, r);
    assert [] + [Exited(1)] + [Exited(0)] == [Exited(1), Exited(0)];
    assert [Exited(1), Exited(0)][0] == Exited(1);
    log, w := r.log, r.w;
  }
}
