/** Whole runs: every reachable world is safe, and what that means at the points that matter. */
module Runs {
  import opened Common
  import opened Protocol
  import opened Safety

  // ---- Standalone modes ------------------------------------------------------------------------

  predicate Unborn(pc: Pc) { pc.Boot? || pc.Admitting? || pc.Pairing? || pc.Cloning? }

  /** Outside listen mode a child is only made when the table is empty. */
  predicate AtMostOne(c: Config, w: World) {
    !c.mode.ListenTcp? ==> |w.table| <= 1 && (Unborn(w.pc) || w.pc.Cloned? || w.pc.Adding? ==> w.table == [])
  }

  /** Run once: the only child is pending, being removed, or accounted for in the result. */
  predicate OnceResult(c: Config, w: World) {
    c.mode.StandaloneOnce? ==>
    && (Unborn(w.pc) ==> w.born == 0 && w.last.None?)
    && (w.pc.Finished? ==> w.table == [])
    && (w.last.None? ==> w.rv == 0 && !w.unremoved && (w.born > 0 <==> w.unlisted || w.table != []))
    && (w.last.Some? ==>
          w.born > 0 &&
          if w.unremoved then w.status == w.last.value
          else w.table == [] && w.rv == Encode(w.last.value) &&
               (w.pc.Reaping? || w.pc.Sweeping? || w.pc.Idle? || w.pc.Finished?))
  }

  lemma OnceEnv(c: Config, w: World, m: EnvMove)
    requires AtMostOne(c, w) && OnceResult(c, w) && EnvEnabled(w, m)
    ensures AtMostOne(c, EnvApply(w, m)) && OnceResult(c, EnvApply(w, m))
  {
  }

  lemma OnceLoop(c: Config, w: World, m: LoopMove)
    requires AtMostOne(c, w) && OnceResult(c, w) && Shape(w) && LoopEnabled(c, w, m)
    ensures AtMostOne(c, LoopApply(c, w, m)) && OnceResult(c, LoopApply(c, w, m))
  {
  }

  lemma OnceRun(c: Config, w: World, m: RunMove)
    requires AtMostOne(c, w) && OnceResult(c, w) && Shape(w) && RunEnabled(c, w, m)
    ensures AtMostOne(c, RunApply(c, w, m)) && OnceResult(c, RunApply(c, w, m))
  {
  }

  lemma OnceInit(c: Config, w: World, m: InitMove)
    requires AtMostOne(c, w) && OnceResult(c, w) && InitEnabled(c, w, m)
    ensures AtMostOne(c, InitApply(c, w, m)) && OnceResult(c, InitApply(c, w, m))
  {
  }

  lemma OnceReap(c: Config, w: World, m: ReapMove)
    requires AtMostOne(c, w) && OnceResult(c, w) && Shape(w) && TableAgrees(w) && ReapEnabled(w, m)
    ensures AtMostOne(c, ReapApply(c, w, m)) && OnceResult(c, ReapApply(c, w, m))
  {
    assert w.unremoved ==> Lists(w.table, w.pid);
    assert forall pid :: pid in w.kids ==> w.unlisted || pid in Pids(w.table);
  }

  lemma OnceSweep(c: Config, w: World, m: SweepMove)
    requires AtMostOne(c, w) && OnceResult(c, w) && SweepEnabled(c, w, m)
    ensures AtMostOne(c, SweepApply(c, w, m)) && OnceResult(c, SweepApply(c, w, m))
  {
  }

  // ---- Every run is safe -----------------------------------------------------------------------

  ghost predicate Safe(c: Config, w: World) {
    && Shape(w)
    && TableAgrees(w)
    && HandshakeSafe(w)
    && FdsConserved(c, w)
    && CgroupsOwned(c, w)
    && SignalsExact(c, w)
    && AtMostOne(c, w)
    && OnceResult(c, w)
  }

  lemma SafeEnv(c: Config, w: World, m: EnvMove)
    requires Safe(c, w) && EnvEnabled(w, m)
    ensures Safe(c, EnvApply(w, m))
  {
    ShapeEnv(w, m);
    TableEnv(w, m);
    HandshakeEnv(w, m);
    CgroupsEnv(c, w, m);
    SignalsEnv(c, w, m);
    OnceEnv(c, w, m);
    forall f: Fd
      ensures FdConserved(c, EnvApply(w, m), f)
    {
      assert FdConserved(c, w, f);
    }
  }

  lemma SafeLoop(c: Config, w: World, m: LoopMove)
    requires Safe(c, w) && LoopEnabled(c, w, m)
    ensures Safe(c, LoopApply(c, w, m))
  {
    ShapeLoop(c, w, m);
    TableLoop(c, w, m);
    HandshakeLoop(c, w, m);
    CgroupsLoop(c, w, m);
    SignalsLoop(c, w, m);
    OnceLoop(c, w, m);
    forall f: Fd
      ensures FdConserved(c, LoopApply(c, w, m), f)
    {
      FdsLoop(c, w, m, f);
    }
  }

  lemma SafeRun(c: Config, w: World, m: RunMove)
    requires Safe(c, w) && RunEnabled(c, w, m)
    ensures Safe(c, RunApply(c, w, m))
  {
    ShapeRun(c, w, m);
    TableRun(c, w, m);
    HandshakeRun(c, w, m);
    CgroupsRun(c, w, m);
    SignalsRun(c, w, m);
    OnceRun(c, w, m);
    forall f: Fd
      ensures FdConserved(c, RunApply(c, w, m), f)
    {
      FdsRun(c, w, m, f);
    }
  }

  lemma SafeInitMove(c: Config, w: World, m: InitMove)
    requires Safe(c, w) && InitEnabled(c, w, m)
    ensures Safe(c, InitApply(c, w, m))
  {
    ShapeInit(c, w, m);
    TableInit(c, w, m);
    HandshakeInit(c, w, m);
    CgroupsInit(c, w, m);
    SignalsInit(c, w, m);
    OnceInit(c, w, m);
    forall f: Fd
      ensures FdConserved(c, InitApply(c, w, m), f)
    {
      FdsInit(c, w, m, f);
    }
  }

  lemma SafeReap(c: Config, w: World, m: ReapMove)
    requires Safe(c, w) && ReapEnabled(w, m)
    ensures Safe(c, ReapApply(c, w, m))
  {
    ShapeReap(c, w, m);
    TableReap(c, w, m);
    HandshakeReap(c, w, m);
    CgroupsReap(c, w, m);
    SignalsReap(c, w, m);
    OnceReap(c, w, m);
    forall f: Fd
      ensures FdConserved(c, ReapApply(c, w, m), f)
    {
      FdsReap(c, w, m, f);
    }
  }

  lemma SafeSweep(c: Config, w: World, m: SweepMove)
    requires Safe(c, w) && SweepEnabled(c, w, m)
    ensures Safe(c, SweepApply(c, w, m))
  {
    ShapeSweep(c, w, m);
    TableSweep(c, w, m);
    HandshakeSweep(c, w, m);
    CgroupsSweep(c, w, m);
    SignalsSweep(c, w, m);
    OnceSweep(c, w, m);
    forall f: Fd
      ensures FdConserved(c, SweepApply(c, w, m), f)
    {
      assert FdConserved(c, w, f);
    }
  }

  lemma SafeStep(c: Config, w: World, e: Event)
    requires Safe(c, w) && Enabled(c, w, e)
    ensures Safe(c, Apply(c, w, e))
  {
    match e
    case Env(m) => SafeEnv(c, w, m);
    case Loop(m) => SafeLoop(c, w, m);
    case Run(m) => SafeRun(c, w, m);
    case Setup(m) => SafeInitMove(c, w, m);
    case Reap(m) => SafeReap(c, w, m);
    case Sweep(m) => SafeSweep(c, w, m);
  }

  lemma SafeInit(c: Config, start: int)
    ensures Safe(c, Init(c, start))
  {
    assert Pids([]) == {};
  }

  /** Safety over whole runs: every world that any run reaches, in any mode, is safe. */
  lemma {:induction false} EveryRunSafe(c: Config, start: int, log: seq<Event>)
    requires After(c, start, log).Some?
    ensures Safe(c, After(c, start, log).value)
  {
    if log == [] {
      SafeInit(c, start);
    } else {
      var m := |log| - 1;
      EveryRunSafe(c, start, log[..m]);
      SafeStep(c, After(c, start, log[..m]).value, log[m]);
    }
  }

  // ---- What that says --------------------------------------------------------------------------

  /** Between calls the table holds exactly the unreaped children, once each; the open descriptors are
      the initial ones, the listening socket and the entries' probes; cgroup directories belong to listed
      children, except those whose removal failed. This holds however the initialisations ended. */
  lemma BetweenCalls(c: Config, start: int, log: seq<Event>, w: World)
    requires After(c, start, log) == Some(w) && w.pc.Idle?
    ensures PidsDistinct(w.table) && Pids(w.table) == w.kids.Keys
    ensures forall f: Fd :: f in w.fds <==> f in c.base || w.listen == Some(f) || TableHas(w.table, f) > 0
    ensures w.cgroups <= Pids(w.table) + w.leaked
  {
    EveryRunSafe(c, start, log);
    forall f: Fd
      ensures f in w.fds <==> f in c.base || w.listen == Some(f) || TableHas(w.table, f) > 0
    {
      assert FdConserved(c, w, f);
    }
  }

  /** At every point of every run, a child that went on to contain itself was cleared by all three
      parent-side initialisations; and a child blocked in the handshake can always go on once the
      parent no longer holds its socket, be it closed or the parent gone: it reads the done byte or the
      end of the stream. */
  lemma NoEarlyAndNoStuckChild(c: Config, start: int, log: seq<Event>, w: World, pid: Pid)
    requires After(c, start, log) == Some(w) && pid in w.kids
    ensures w.kids[pid].stage.Contained? ==> Cleared(w.kids[pid])
    ensures w.kids[pid].stage.Reading? && !(w.held && w.pid == pid) ==>
              if w.kids[pid].sent then EnvEnabled(w, ChildReadsDone(pid)) else EnvEnabled(w, ChildReadsEof(pid))
    ensures w.pc.Idle? || w.pc.Returned? || w.pc.Reaping? || w.pc.Dead? ==> !(w.held && w.pid == pid)
  {
    EveryRunSafe(c, start, log);
  }

  predicate SendsSignal(e: Event) {
    (e.Loop? && e.loop.KillOne?) || (e.Sweep? && (e.sweep.SendSigcont? || e.sweep.SendSigkill?))
  }

  /** Signals only ever go to children that have not been waited for. */
  lemma SignalsHitOwnChildren(c: Config, start: int, log: seq<Event>, w: World, e: Event)
    requires After(c, start, log) == Some(w) && SendsSignal(e) && Enabled(c, w, e)
    ensures var w' := Apply(c, w, e);
            |w'.signals| == |w.signals| + 1 && w'.signals[|w.signals|].pid in w.kids
  {
    EveryRunSafe(c, start, log);
    assert w.table[w.i].pid in Pids(w.table);
  }

  predicate ContThenKill(sent: seq<Sent>, pid: Pid) {
    exists j :: 0 <= j < |sent| - 1 && sent[j] == Sent(pid, SIGCONT) && sent[j + 1] == Sent(pid, SIGKILL)
  }

  predicate Untouched(sent: seq<Sent>, pid: Pid) {
    forall j :: 0 <= j < |sent| ==> sent[j].pid != pid
  }

  lemma LaterSignals(a: seq<Sent>, b: seq<Sent>, pid: Pid)
    ensures ContThenKill(a, pid) ==> ContThenKill(a + b, pid)
    ensures Untouched(a, pid) && Untouched(b, pid) ==> Untouched(a + b, pid)
  {
    if ContThenKill(a, pid) {
      var j :| 0 <= j < |a| - 1 && a[j] == Sent(pid, SIGCONT) && a[j + 1] == Sent(pid, SIGKILL);
      assert (a + b)[j] == a[j] && (a + b)[j + 1] == a[j + 1];
    }
  }

  lemma {:induction false} DueUntouched(c: Config, t: seq<Entry>, at: int, pid: Pid)
    requires forall i :: 0 <= i < |t| ==> t[i].pid != pid
    ensures Untouched(Due(c, t, at), pid)
  {
    if t != [] {
      DueUntouched(c, t[..|t| - 1], at, pid);
    }
  }

  /** A sweep signals each entry over the limit, SIGCONT then SIGKILL, and no other. */
  lemma {:induction false} DueExact(c: Config, t: seq<Entry>, at: int, n: nat)
    requires PidsDistinct(t) && n < |t|
    ensures c.tlimit != 0 && at - t[n].start >= c.tlimit ==> ContThenKill(Due(c, t, at), t[n].pid)
    ensures c.tlimit == 0 || at - t[n].start < c.tlimit ==> Untouched(Due(c, t, at), t[n].pid)
  {
    var m := |t| - 1;
    var before, pid := Due(c, t[..m], at), t[n].pid;
    var last := if Over(c, t[m], at) then [Sent(t[m].pid, SIGCONT), Sent(t[m].pid, SIGKILL)] else [];
    assert Due(c, t, at) == before + last;
    if n < m {
      DueExact(c, t[..m], at, n);
      assert Untouched(last, pid);
      LaterSignals(before, last, pid);
    } else {
      DueUntouched(c, t[..m], at, pid);
      LaterSignals(before, last, pid);
      if Over(c, t[m], at) {
        assert (before + last)[|before|] == Sent(pid, SIGCONT) && (before + last)[|before| + 1] == Sent(pid, SIGKILL);
      }
    }
  }

  /** Whenever the loop is back at its top, each entry left was signalled by the latest sweep, SIGCONT and
      then SIGKILL, exactly if there is a limit and its age then had reached it. */
  lemma SweepIsExact(c: Config, start: int, log: seq<Event>, w: World, n: nat)
    requires After(c, start, log) == Some(w) && w.pc.Idle? && n < |w.table|
    ensures w.mark <= |w.signals|
    ensures c.tlimit != 0 && w.at - w.table[n].start >= c.tlimit ==> ContThenKill(w.signals[w.mark..], w.table[n].pid)
    ensures c.tlimit == 0 || w.at - w.table[n].start < c.tlimit ==> Untouched(w.signals[w.mark..], w.table[n].pid)
  {
    EveryRunSafe(c, start, log);
    DueExact(c, w.table, w.at, n);
  }

  lemma {:induction false} KillsAll(t: seq<Entry>, n: nat)
    requires n < |t|
    ensures |Kills(t)| == |t| && Kills(t)[n] == Sent(t[n].pid, SIGKILL)
  {
    var m := |t| - 1;
    if n < m {
      KillsAll(t[..m], n);
    } else if m > 0 {
      KillsAll(t[..m], m - 1);
    }
  }

  /** A fatal signal's exit has sent SIGKILL to every child not waited for. */
  lemma FatalExitKillsAll(c: Config, start: int, log: seq<Event>, w: World, pid: Pid)
    requires After(c, start, log) == Some(w) && w.pc.Stopped? && pid in w.kids
    ensures w.mark <= |w.signals| && Sent(pid, SIGKILL) in w.signals[w.mark..]
  {
    EveryRunSafe(c, start, log);
    var n :| 0 <= n < |w.table| && w.table[n].pid == pid;
    KillsAll(w.table, n);
  }

  /** What a result code tells of a child: exit codes below 100 as they are, larger ones modulo 100 with 1
      for 0, and signals from 100 on. */
  predicate Tells(rv: int, s: Status) {
    match s
    case Exited(code) =>
      if code < 100 then rv == code
      else if code % 100 == 0 then rv == 1
      else 0 < rv < 100 && (code - rv) % 100 == 0
    case Signalled(sig) => rv == 100 + sig
  }

  /** Standalone-once: if a child was made and no fatal signal ended the loop, the result tells how that
      child ended. */
  lemma OnceReports(c: Config, start: int, log: seq<Event>, w: World)
    requires After(c, start, log) == Some(w) && c.mode.StandaloneOnce? && w.pc.Finished?
    ensures w.born == 0 ==> w.rv == 0
    ensures w.born > 0 ==> w.last.Some? && Tells(w.rv, w.last.value)
  {
    EveryRunSafe(c, start, log);
  }

  // ---- subprocReap's result --------------------------------------------------------------------

  /** What a reap call returns when it reaps children with these statuses, in this order. */
  function ReapResult(ss: seq<Status>): int {
    if ss == [] then 0 else Encode(ss[|ss| - 1])
  }

  /** What its header promises: the code of the first that failed, 0 if none did. */
  function FirstFailure(ss: seq<Status>): int {
    if ss == [] then 0 else if Encode(ss[0]) != 0 then Encode(ss[0]) else FirstFailure(ss[1..])
  }

  lemma {:induction false} FirstFailureIs(ss: seq<Status>, i: nat)
    requires i <= |ss| && forall j :: 0 <= j < i ==> ss[j] == Exited(0)
    ensures FirstFailure(ss) == if i == |ss| then 0 else FirstFailure(ss[i..])
    ensures i < |ss| && Encode(ss[i]) != 0 ==> FirstFailure(ss) == Encode(ss[i])
  {
    if i > 0 {
      FirstFailureIs(ss[1..], i - 1);
      assert i < |ss| ==> ss[1..][i - 1] == ss[i] && ss[1..][i - 1..] == ss[i..];
    } else {
      assert ss[0..] == ss;
    }
  }

  /** The promise is kept for every outcome of up to `n` children exactly when n is at most one. */
  lemma HeaderPromiseIff(n: nat)
    ensures (forall ss: seq<Status> :: |ss| <= n ==> ReapResult(ss) == FirstFailure(ss)) <==> n <= 1
  {
    if n <= 1 {
      forall ss: seq<Status> | |ss| <= n
        ensures ReapResult(ss) == FirstFailure(ss)
      {
        assert ss == [] || ss[1..] == [];
      }
    } else {
      var ss := [Exited(1), Exited(0)];
      assert |ss| <= n && ReapResult(ss) == 0 && FirstFailure(ss) == 1;
    }
  }

  // An event that begins a call of subprocReap.
  predicate BeginsReap(e: Event) {
    (e.Loop? && (e.loop.AcceptFails? || e.loop.Pause?)) || (e.Run? && e.run.Return?)
  }

  function Collect(ss: seq<Status>, w: World, e: Event): seq<Status> {
    if BeginsReap(e) then []
    else if e.Reap? && e.reap.Wait? && e.reap.pid in w.kids && w.kids[e.reap.pid].stage.Zombie?
    then ss + [w.kids[e.reap.pid].stage.status]
    else ss
  }

  /** The statuses that the current or latest call of subprocReap has waited for, in order. */
  function ReapedNow(c: Config, start: int, log: seq<Event>): seq<Status> {
    if log == [] then []
    else
      match After(c, start, log[..|log| - 1])
      case None => []
      case Some(w) => Collect(ReapedNow(c, start, log[..|log| - 1]), w, log[|log| - 1])
  }

  predicate InReap(pc: Pc) {
    pc.Reaping? || pc.Reaped? || pc.Removing? || pc.Sweeping? || pc.SweepKill? || pc.Idle? || pc.Finished?
  }

  /** The result so far is that of the last one; outside listen mode there is at most one. */
  predicate ResultSoFar(c: Config, w: World, ss: seq<Status>) {
    && (if w.unremoved then ss != [] && w.status == ss[|ss| - 1] else w.rv == ReapResult(ss))
    && (!c.mode.ListenTcp? && InReap(w.pc) ==> |ss| + |w.table| <= if w.unremoved then 2 else 1)
  }

  lemma ResultReap(c: Config, w: World, m: ReapMove, ss: seq<Status>)
    requires Shape(w) && TableAgrees(w) && ResultSoFar(c, w, ss) && ReapEnabled(w, m)
    ensures ResultSoFar(c, ReapApply(c, w, m), Collect(ss, w, Reap(m)))
  {
    assert w.unremoved ==> Lists(w.table, w.pid);
  }

  lemma ResultRun(c: Config, w: World, m: RunMove, ss: seq<Status>)
    requires Shape(w) && AtMostOne(c, w) && ResultSoFar(c, w, ss) && RunEnabled(c, w, m)
    ensures ResultSoFar(c, RunApply(c, w, m), Collect(ss, w, Run(m)))
  {
  }

  lemma ResultLoop(c: Config, w: World, m: LoopMove, ss: seq<Status>)
    requires Shape(w) && AtMostOne(c, w) && ResultSoFar(c, w, ss) && LoopEnabled(c, w, m)
    ensures ResultSoFar(c, LoopApply(c, w, m), Collect(ss, w, Loop(m)))
  {
  }

  lemma ResultEnv(c: Config, w: World, m: EnvMove, ss: seq<Status>)
    requires ResultSoFar(c, w, ss) && EnvEnabled(w, m)
    ensures ResultSoFar(c, EnvApply(w, m), Collect(ss, w, Env(m)))
  {
  }

  lemma ResultInit(c: Config, w: World, m: InitMove, ss: seq<Status>)
    requires ResultSoFar(c, w, ss) && InitEnabled(c, w, m)
    ensures ResultSoFar(c, InitApply(c, w, m), Collect(ss, w, Setup(m)))
  {
  }

  lemma ResultSweep(c: Config, w: World, m: SweepMove, ss: seq<Status>)
    requires ResultSoFar(c, w, ss) && SweepEnabled(c, w, m)
    ensures ResultSoFar(c, SweepApply(c, w, m), Collect(ss, w, Sweep(m)))
  {
  }

  lemma ResultStep(c: Config, w: World, e: Event, ss: seq<Status>)
    requires Shape(w) && TableAgrees(w) && AtMostOne(c, w) && ResultSoFar(c, w, ss) && Enabled(c, w, e)
    ensures ResultSoFar(c, Apply(c, w, e), Collect(ss, w, e))
  {
    match e
    case Env(m) => ResultEnv(c, w, m, ss);
    case Loop(m) => ResultLoop(c, w, m, ss);
    case Run(m) => ResultRun(c, w, m, ss);
    case Setup(m) => ResultInit(c, w, m, ss);
    case Reap(m) => ResultReap(c, w, m, ss);
    case Sweep(m) => ResultSweep(c, w, m, ss);
  }

  lemma {:induction false} ResultAlways(c: Config, start: int, log: seq<Event>)
    requires After(c, start, log).Some?
    ensures ResultSoFar(c, After(c, start, log).value, ReapedNow(c, start, log))
  {
    if log != [] {
      var m := |log| - 1;
      EveryRunSafe(c, start, log[..m]);
      ResultAlways(c, start, log[..m]);
      ResultStep(c, After(c, start, log[..m]).value, log[m], ReapedNow(c, start, log[..m]));
    }
  }

  lemma ResultTells(ss: seq<Status>)
    ensures if ss == [] then ReapResult(ss) == 0 else Tells(ReapResult(ss), ss[|ss| - 1])
  {
  }

  lemma ShapeAlways(c: Config, start: int, log: seq<Event>)
    requires After(c, start, log).Some?
    ensures Shape(After(c, start, log).value)
  {
    EveryRunSafe(c, start, log);
  }

  lemma ResultSays(c: Config, w: World, ss: seq<Status>)
    requires Shape(w) && ResultSoFar(c, w, ss) && w.pc.Idle?
    ensures w.rv == ReapResult(ss) && (if ss == [] then w.rv == 0 else Tells(w.rv, ss[|ss| - 1]))
    ensures !c.mode.ListenTcp? ==> w.rv == FirstFailure(ss)
  {
    HeaderPromiseIff(1);
  }

  /** In every run, what a call of subprocReap returns is the code of the last child it waited for; outside
      listen mode that is what its header promises. */
  lemma ReapReturnsLast(c: Config, start: int, log: seq<Event>, w: World)
    requires After(c, start, log) == Some(w) && w.pc.Idle?
    ensures w.rv == ReapResult(ReapedNow(c, start, log))
    ensures var ss := ReapedNow(c, start, log); if ss == [] then w.rv == 0 else Tells(w.rv, ss[|ss| - 1])
    ensures !c.mode.ListenTcp? ==> w.rv == FirstFailure(ReapedNow(c, start, log))
  {
    ShapeAlways(c, start, log);
    ResultAlways(c, start, log);
    ResultSays(c, w, ReapedNow(c, start, log));
  }

  /** How many calls of subprocReap a log has seen return. */
  function Returns(log: seq<Event>): nat {
    if log == [] then 0 else Returns(log[..|log| - 1]) + if log[|log| - 1] == Sweep(SweepEnd) then 1 else 0
  }

  lemma ReapsOther(c: Config, w: World, e: Event)
    requires Enabled(c, w, e) && (e.Run? || e.Setup? || e.Reap?)
    ensures Apply(c, w, e).reaps == w.reaps
  {
    match e
    case Run(m) => assert RunApply(c, w, m).reaps == w.reaps;
    case Setup(m) => assert InitApply(c, w, m).reaps == w.reaps;
    case Reap(m) => assert ReapApply(c, w, m).reaps == w.reaps;
  }

  lemma ReapsStep(c: Config, w: World, e: Event)
    requires Enabled(c, w, e)
    ensures Apply(c, w, e).reaps == w.reaps + if e == Sweep(SweepEnd) then 1 else 0
  {
    if e.Run? || e.Setup? || e.Reap? {
      ReapsOther(c, w, e);
    }
  }

  lemma {:induction false} ReapsCounted(c: Config, start: int, log: seq<Event>)
    requires After(c, start, log).Some?
    ensures After(c, start, log).value.reaps == Returns(log)
  {
    if log != [] {
      var m := |log| - 1;
      ReapsCounted(c, start, log[..m]);
      ReapsStep(c, After(c, start, log[..m]).value, log[m]);
    }
  }

  // ---- Times -----------------------------------------------------------------------------------

  /** The clock when the latest sweep began. */
  function SweepTime(c: Config, start: int, log: seq<Event>): int {
    if log == [] then 0
    else
      match After(c, start, log[..|log| - 1])
      case None => 0
      case Some(w) => if log[|log| - 1] == Reap(WaitNone) then w.now else SweepTime(c, start, log[..|log| - 1])
  }

  predicate SameTimes(w: World, w': World) { w'.at == w.at && w'.table == w.table }

  lemma TimesLoop(c: Config, w: World, m: LoopMove)
    requires LoopEnabled(c, w, m)
    ensures SameTimes(w, LoopApply(c, w, m))
  {
  }

  lemma TimesInit(c: Config, w: World, m: InitMove)
    requires InitEnabled(c, w, m)
    ensures SameTimes(w, InitApply(c, w, m))
  {
  }

  lemma TimesSweep(c: Config, w: World, m: SweepMove)
    requires SweepEnabled(c, w, m)
    ensures SameTimes(w, SweepApply(c, w, m))
  {
  }

  lemma TimesRun(c: Config, w: World, m: RunMove)
    requires RunEnabled(c, w, m)
    ensures RunApply(c, w, m).at == w.at
    ensures RunApply(c, w, m).table == (if m.Add? then [Entry(w.pid, w.now, m.addr, m.probe)] else []) + w.table
  {
  }

  lemma TimesReap(c: Config, w: World, m: ReapMove)
    requires ReapEnabled(w, m)
    ensures ReapApply(c, w, m).at == if m.WaitNone? then w.now else w.at
    ensures forall x :: x in ReapApply(c, w, m).table ==> x in w.table
  {
  }

  lemma TimesStep(c: Config, w: World, e: Event)
    requires Enabled(c, w, e)
    ensures Apply(c, w, e).at == if e == Reap(WaitNone) then w.now else w.at
    ensures forall x :: x in Apply(c, w, e).table ==>
              x in w.table || (e.Run? && e.run.Add? && x == Entry(w.pid, w.now, e.run.addr, e.run.probe))
  {
    match e
    case Env(m) =>
    case Loop(m) => TimesLoop(c, w, m);
    case Run(m) => TimesRun(c, w, m);
    case Setup(m) => TimesInit(c, w, m);
    case Reap(m) => TimesReap(c, w, m);
    case Sweep(m) => TimesSweep(c, w, m);
  }

  /** In every run the sweep takes its time from the clock as it begins. */
  lemma {:induction false} SweepTimeIs(c: Config, start: int, log: seq<Event>)
    requires After(c, start, log).Some?
    ensures After(c, start, log).value.at == SweepTime(c, start, log)
  {
    if log != [] {
      var m := |log| - 1;
      SweepTimeIs(c, start, log[..m]);
      TimesStep(c, After(c, start, log[..m]).value, log[m]);
    }
  }

  /** Insertion `i` of the log made this entry, for the child just cloned and with the time of that moment. */
  predicate MadeBy(c: Config, start: int, log: seq<Event>, x: Entry, i: nat) {
    && i < |log| && log[i] == Run(Add(x.fd, x.addr))
    && After(c, start, log[..i]).Some?
    && var v := After(c, start, log[..i]).value; v.pid == x.pid && v.now == x.start
  }

  /** In every run each entry has the pid, the address and the time it was inserted with. */
  lemma {:induction false} EntryMade(c: Config, start: int, log: seq<Event>, x: Entry) returns (i: nat)
    requires After(c, start, log).Some? && x in After(c, start, log).value.table
    ensures MadeBy(c, start, log, x, i)
  {
    var m := |log| - 1;
    var w := After(c, start, log[..m]).value;
    TimesStep(c, w, log[m]);
    if x in w.table {
      i := EntryMade(c, start, log[..m], x);
      assert log[..m][..i] == log[..i];
    } else {
      i := m;
    }
  }

  // ---- The connection limit --------------------------------------------------------------------

  /** The peer address read at insertion is the one read at admission. */
  ghost predicate PeersSteady(c: Config, start: int, log: seq<Event>) {
    forall i :: 0 <= i < |log| && log[i].Run? && log[i].run.Add? ==>
      var w := After(c, start, log[..i]);
      w.Some? ==> log[i].run.addr == w.value.peer
  }

  ghost predicate WithinLimit(c: Config, w: World) {
    c.maxConnsPerIp != 0 ==>
    && (forall b: nat :: Conns(w.table, b) <= c.maxConnsPerIp)
    && (w.pc.Pairing? || w.pc.Cloning? || w.pc.Cloned? || w.pc.Adding? ==> Conns(w.table, w.peer[0]) < c.maxConnsPerIp)
  }

  lemma {:induction false} DropConns(t: seq<Entry>, k: nat, b: nat)
    requires k < |t|
    ensures Conns(Drop(t, k), b) <= Conns(t, b)
  {
    if k > 0 {
      DropConns(t[1..], k - 1, b);
      assert Drop(t, k) == [t[0]] + Drop(t[1..], k - 1);
    } else {
      assert Drop(t, k) == t[1..];
    }
  }

  lemma LimitEnv(c: Config, w: World, m: EnvMove)
    requires WithinLimit(c, w) && EnvEnabled(w, m)
    ensures WithinLimit(c, EnvApply(w, m))
  {
  }

  lemma LimitLoop(c: Config, w: World, m: LoopMove)
    requires WithinLimit(c, w) && LoopEnabled(c, w, m)
    ensures WithinLimit(c, LoopApply(c, w, m))
  {
  }

  lemma LimitSweep(c: Config, w: World, m: SweepMove)
    requires WithinLimit(c, w) && SweepEnabled(c, w, m)
    ensures WithinLimit(c, SweepApply(c, w, m))
  {
  }

  lemma LimitRun(c: Config, w: World, m: RunMove)
    requires WithinLimit(c, w) && RunEnabled(c, w, m)
    requires m.Add? ==> m.addr == w.peer
    ensures WithinLimit(c, RunApply(c, w, m))
  {
    if m.Add? {
      var t := RunApply(c, w, m).table;
      assert t[1..] == w.table;
      assert forall b: nat :: Conns(t, b) == (if w.peer[0] == b then 1 else 0) + Conns(w.table, b);
    }
  }

  lemma LimitInit(c: Config, w: World, m: InitMove)
    requires WithinLimit(c, w) && InitEnabled(c, w, m)
    ensures WithinLimit(c, InitApply(c, w, m))
  {
  }

  lemma LimitReap(c: Config, w: World, m: ReapMove)
    requires WithinLimit(c, w) && ReapEnabled(w, m)
    ensures WithinLimit(c, ReapApply(c, w, m))
  {
    if m.Remove? {
      forall b: nat
        ensures Conns(Drop(w.table, m.k), b) <= Conns(w.table, b)
      {
        DropConns(w.table, m.k, b);
      }
    }
  }

  lemma LimitStep(c: Config, w: World, e: Event)
    requires WithinLimit(c, w) && Enabled(c, w, e)
    requires e.Run? && e.run.Add? ==> e.run.addr == w.peer
    ensures WithinLimit(c, Apply(c, w, e))
  {
    match e
    case Run(m) => LimitRun(c, w, m);
    case Setup(m) => LimitInit(c, w, m);
    case Reap(m) => LimitReap(c, w, m);
    case Env(m) => LimitEnv(c, w, m);
    case Loop(m) => LimitLoop(c, w, m);
    case Sweep(m) => LimitSweep(c, w, m);
  }

  lemma {:induction false} LimitAlways(c: Config, start: int, log: seq<Event>)
    requires After(c, start, log).Some? && PeersSteady(c, start, log)
    ensures WithinLimit(c, After(c, start, log).value)
  {
    if log != [] {
      var m := |log| - 1;
      assert forall i :: 0 <= i < m ==> log[..m][..i] == log[..i];
      LimitAlways(c, start, log[..m]);
      LimitStep(c, After(c, start, log[..m]).value, log[m]);
    }
  }

  /** The count is that of the entries whose address agrees in its first byte. */
  lemma {:induction false} ConnsFrom(t: seq<Entry>, b: nat, from: nat)
    requires from <= |t|
    ensures Conns(t[from..], b) == |set i | from <= i < |t| && t[i].addr[0] == b|
    decreases |t| - from
  {
    var s := set i | from <= i < |t| && t[i].addr[0] == b;
    if from < |t| {
      ConnsFrom(t, b, from + 1);
      var s' := set i | from + 1 <= i < |t| && t[i].addr[0] == b;
      assert t[from..][1..] == t[from + 1..];
      assert s == s' + if t[from].addr[0] == b then {from} else {};
    } else {
      assert s == {};
    }
  }

  /** In every run a connection is rejected exactly when a limit is set and that many entries agree with its
      address in the first byte; never with the limit off. */
  lemma RejectIff(c: Config, w: World)
    requires w.pc.Admitting?
    ensures Enabled(c, w, Run(Reject)) <==>
            c.maxConnsPerIp != 0 &&
            |set i | 0 <= i < |w.table| && w.table[i].addr[0] == w.peer[0]| >= c.maxConnsPerIp
    ensures Enabled(c, w, Run(Admit)) <==> !Enabled(c, w, Run(Reject))
  {
    ConnsFrom(w.table, w.peer[0], 0);
    assert w.table[0..] == w.table;
  }

  function FromAddr(t: seq<Entry>, a: Addr): nat {
    if t == [] then 0 else (if t[0].addr == a then 1 else 0) + FromAddr(t[1..], a)
  }

  /** The limit counts a coarser class than one address; the two agree exactly when every entry of the
      class has the whole address. */
  lemma {:induction false} ClassCount(t: seq<Entry>, a: Addr)
    ensures FromAddr(t, a) <= Conns(t, a[0])
    ensures FromAddr(t, a) == Conns(t, a[0]) <==> forall i :: 0 <= i < |t| && t[i].addr[0] == a[0] ==> t[i].addr == a
  {
    if t != [] {
      ClassCount(t[1..], a);
      assert forall i :: 1 <= i < |t| ==> t[i] == t[1..][i - 1];
      if forall i :: 0 <= i < |t[1..]| && t[1..][i].addr[0] == a[0] ==> t[1..][i].addr == a {
      } else {
        var i :| 0 <= i < |t[1..]| && t[1..][i].addr[0] == a[0] && t[1..][i].addr != a;
        assert t[i + 1].addr[0] == a[0] && t[i + 1].addr != a;
      }
    }
  }

  /** A rejection is right about the one address, for every limit, exactly when no entry shares the
      compared byte with it without sharing the address. */
  lemma RejectionExactIff(t: seq<Entry>, a: Addr)
    ensures (forall c: Config :: c.maxConnsPerIp != 0 ==>
               (Limited(c, t, a) <==> FromAddr(t, a) >= c.maxConnsPerIp)) <==>
            forall i :: 0 <= i < |t| && t[i].addr[0] == a[0] ==> t[i].addr == a
  {
    ClassCount(t, a);
    if FromAddr(t, a) < Conns(t, a[0]) {
      var c := Config(ListenTcp, Conns(t, a[0]), 0, 0, {});
      assert Limited(c, t, a);
    }
  }

  /** No run of the supervisor ever holds more connections from one address than the limit. */
  lemma ConnectionLimit(c: Config, start: int, log: seq<Event>, w: World, a: Addr)
    requires After(c, start, log) == Some(w) && PeersSteady(c, start, log) && c.maxConnsPerIp != 0
    ensures FromAddr(w.table, a) <= c.maxConnsPerIp
  {
    LimitAlways(c, start, log);
    ClassCount(w.table, a);
    assert Conns(w.table, a[0]) <= c.maxConnsPerIp;
  }
}
