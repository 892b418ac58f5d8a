/** subproc.c and the loops of nsjail.c as code over the kernel's state. Each call is followed by any
    moves of the children, the clock and signals; the ghost log records the run, and every method keeps
    it a run of the protocol. */
module SupervisorCode {
  import opened Common
  import opened Protocol
  import opened Safety
  import opened Runs
  import Transfer

  const DONE_CHAR := 'D' as int

  /** The done byte is in the child's socket. */
  predicate HasByte(kids: map<Pid, Child>, pid: Pid) { pid in kids && kids[pid].sent }

  /** What other moves leave alone: everything of the parent's, which children there are, and what is in
      the current one's socket. */
  predicate OnlyEnv(w: World, w': World) {
    && w' == w.(kids := w'.kids, now := w'.now, fatal := w'.fatal)
    && w'.kids.Keys == w.kids.Keys
    && (HasByte(w'.kids, w.pid) <==> HasByte(w.kids, w.pid))
    && (!Alive(w.kids, w.pid) ==> !Alive(w'.kids, w.pid))
    && w.now <= w'.now && (w.fatal ==> w'.fatal)
  }

  lemma OnlyEnvStep(w: World, m: EnvMove)
    requires EnvEnabled(w, m)
    ensures OnlyEnv(w, EnvApply(w, m))
  {
  }

  lemma OnlyEnvTrans(u: World, v: World, w: World)
    requires OnlyEnv(u, v) && OnlyEnv(v, w)
    ensures OnlyEnv(u, w)
  {
  }

  /** subprocNewProc up to containContain, with the answers of its read calls: the first one that is no
      interruption decides. The child goes on exactly if that brings the done byte, and exits at anything
      else, the end of the stream included; None while there is no such answer. */
  method AwaitDone(answers: seq<Transfer.Answer<seq<nat>>>) returns (goesOn: Option<bool>)
    ensures forall i: nat :: Transfer.Decides(answers, i) ==>
              goesOn == Some(answers[i].Moved? && answers[i].what != [] && answers[i].what[0] == 'D' as int)
    ensures (forall i :: 0 <= i < |answers| ==> answers[i].Interrupted?) ==> goesOn.None?
  {
    var r, got := Transfer.ReadFromFd(1, answers);
    forall i: nat | Transfer.Decides(answers, i)
      ensures r == Some(if Transfer.Stops(answers[i]) then 0 else 1)
      ensures got == if Transfer.Stops(answers[i]) then [] else answers[i].what[..1]
    {
      Transfer.OneByteRead(answers, i);
    }
    if forall i :: 0 <= i < |answers| ==> answers[i].Interrupted? {
      Transfer.NothingYet(answers);
    }
    if r.None? {
      return None;
    }
    if r.value != 1 {
      return Some(false);
    }
    goesOn := Some(got[0] == DONE_CHAR);
  }

  /** What the calls that make and end one child answer: socketpair, clone, the open of the probe, the address
      read again, the three initialisations and whether a failing cgroup one has made its directory, and
      whether SIGPIPE is ignored and the write of the done byte fails. */
  datatype Answers = Answers(pairs: bool, clones: bool, probe: bool, addr: Addr,
                             net: bool, cgroup: bool, made: bool, user: bool, ignored: bool, writeFails: bool)

  /** A call of subprocRunChild: the peer's address as read at admission, and the answers after that. */
  datatype Attempt = Attempt(peer: Addr, run: Answers)

  /** Whether it makes a child. */
  predicate Makes(c: Config, t: seq<Entry>, a: Attempt) {
    !Limited(c, t, a.peer) && a.run.pairs && a.run.clones
  }

  predicate Steady(w: World, w': World) {
    w'.reaps == w.reaps && w'.leaked == w.leaked && w'.born == w.born && w.now <= w'.now
  }

  /** Moves inside one call of subprocRunChild that leave the connection, the table and the set of
      children as they are. */
  predicate Within(w: World, w': World) {
    && w'.listen == w.listen && w'.conn == w.conn && w'.peer == w.peer && w'.table == w.table
    && w'.kids.Keys == w.kids.Keys && Steady(w, w')
  }

  predicate SameHold(w: World, w': World) { w'.pfd == w.pfd && w'.pid == w.pid && w'.held == w.held }

  predicate SameReap(w: World, w': World) {
    && w'.listen == w.listen && w'.conn == w.conn && w'.signals == w.signals
    && w'.reaps == w.reaps && w'.born == w.born && w.now <= w'.now
  }

  predicate SameSweep(w: World, w': World) {
    && w'.listen == w.listen && w'.table == w.table && w'.rv == w.rv && w'.at == w.at && w'.mark == w.mark
    && w'.fds == w.fds && w.signals <= w'.signals && Steady(w, w')
  }

  class Supervisor {
    const conf: Config
    ghost const boot: int
    // nsjconf->pids
    var table: seq<Entry>
    // the kernel's side
    var kids: map<Pid, Child>
    var fds: set<Fd>
    var cgroups: set<Pid>
    var now: int
    var fatal: bool
    var signals: seq<Sent>
    ghost var log: seq<Event>

    constructor (conf: Config, now: int)
      ensures this.conf == conf && Valid() && W() == Init(conf, now) && log == []
    {
      this.conf, this.boot, this.now := conf, now, now;
      table, kids, fds, cgroups, fatal, signals, log := [], map[], conf.base, {}, false, [], [];
    }

    ghost predicate Running()
      reads this
    {
      After(conf, boot, log).Some?
    }

    ghost function W(): World
      requires Running()
      reads this
    {
      After(conf, boot, log).value
    }

    ghost predicate Matches(w: World)
      reads this
    {
      && w.table == table && w.kids == kids && w.fds == fds && w.cgroups == cgroups
      && w.now == now && w.fatal == fatal && w.signals == signals
    }

    /** The log is a run of the protocol and leads to the present state. */
    ghost predicate Valid()
      reads this
    {
      Running() && Matches(W())
    }

    ghost method Log(e: Event)
      requires Running() && Enabled(conf, W(), e)
      modifies this`log
      ensures log == old(log) + [e] && Running() && W() == Apply(conf, old(W()), e)
    {
      log := log + [e];
      assert log[..|log| - 1] == old(log);
    }

    lemma ValidIsSafe()
      requires Running()
      ensures Safe(conf, W())
    {
      EveryRunSafe(conf, boot, log);
    }

    // One move of the others, if it is possible.
    method Move(m: EnvMove)
      requires Valid()
      modifies this
      ensures Valid() && OnlyEnv(old(W()), W())
      ensures old(log) <= log
    {
      if CanMove(kids, m) {
        OnlyEnvStep(W(), m);
        Log(Env(m));
        kids := Moved(kids, m);
        now := now + if m.Tick? then m.d else 0;
        fatal := fatal || m.FatalSignal?;
      }
    }

    lemma ShapeHolds()
      requires Running()
      ensures Shape(W())
    {
      EveryRunSafe(conf, boot, log);
    }

    /** Any number of moves of the others. */
    method Interleave()
      requires Valid()
      modifies this
      ensures Valid() && OnlyEnv(old(W()), W())
      ensures old(log) <= log
    {
      var n: nat := *;
      while n > 0
        invariant Valid() && OnlyEnv(old(W()), W())
        invariant old(log) <= log
      {
        ghost var w := W();
        var m: EnvMove := *;
        Move(m);
        OnlyEnvTrans(old(W()), w, W());
        n := n - 1;
      }
    }

    // The entries among the first `j` whose address agrees in its first byte.
    function Alike(addr: Addr, j: nat): set<nat>
      requires j <= |table|
      reads this
    {
      set i: nat | i < j && table[i].addr[0] == addr[0]
    }

    lemma AlikeCounts(addr: Addr)
      ensures |Alike(addr, |table|)| == Conns(table, addr[0])
    {
      ConnsFrom(table, addr[0], 0);
      assert table[0..] == table;
      assert Alike(addr, |table|) == set i | 0 <= i < |table| && table[i].addr[0] == addr[0];
    }

    /** netLimitConns: a connection may go on if there is no limit, or fewer entries than that whose address
        agrees with its own in the first byte. */
    method LimitConns(addr: Addr) returns (ok: bool)
      ensures conf.maxConnsPerIp == 0 ==> ok
      ensures conf.maxConnsPerIp != 0 ==> (ok <==> |Alike(addr, |table|)| < conf.maxConnsPerIp)
      ensures ok <==> !Limited(conf, table, addr)
    {
      if conf.maxConnsPerIp == 0 {
        return true;
      }
      var cnt := 0;
      for j := 0 to |table|
        invariant cnt == |Alike(addr, j)|
      {
        assert Alike(addr, j + 1) == Alike(addr, j) + if addr[0] == table[j].addr[0] then {j} else {};
        if addr[0] == table[j].addr[0] {
          cnt := cnt + 1;
        }
      }
      AlikeCounts(addr);
      return cnt < conf.maxConnsPerIp;
    }

    /** subprocCount */
    method Count() returns (n: nat)
      ensures n == |table|
    {
      n := 0;
      for j := 0 to |table|
        invariant n == j
      {
        n := n + 1;
      }
    }

    // ---- subprocRunChild -----------------------------------------------------------------------

    method Socketpair(works: bool) returns (ends: Option<(Fd, Fd)>)
      requires Valid() && W().pc.Pairing?
      modifies this
      ensures Valid() && old(log) <= log && Within(old(W()), W())
      ensures ends.Some? == works && (ends.None? ==> W().pc.Returned?)
      ensures ends.Some? ==> W().pc.Cloning? && W().cfd == Some(ends.value.0) && W().pfd == Some(ends.value.1)
    {
      if !works {
        Log(Run(PairFails));
        ends := None;
      } else {
        UnusedExists(fds);
        var cfd: Fd :| cfd !in fds;
        UnusedExists(fds + {cfd});
        var pfd: Fd :| pfd !in fds + {cfd};
        Log(Run(Pair(cfd, pfd)));
        fds := fds + {cfd, pfd};
        ends := Some((cfd, pfd));
      }
      Interleave();
    }

    method CloneChild(works: bool) returns (pid: Option<Pid>)
      requires Valid() && W().pc.Cloning?
      modifies this
      ensures Valid() && old(log) <= log && Within(old(W()).(kids := W().kids, born := W().born), W())
      ensures pid.Some? == works && W().born == old(W().born) + if works then 1 else 0
      ensures W().pc.Cloned? && W().cfd == old(W().cfd) && W().pfd == old(W().pfd)
      ensures pid.None? ==> !W().unlisted && !W().held && kids.Keys == old(kids).Keys
      ensures pid.Some? ==> W().unlisted && W().held && W().pid == pid.value && pid.value !in old(kids) &&
                            kids.Keys == old(kids).Keys + {pid.value}
    {
      ShapeHolds();
      if !works {
        Log(Run(CloneFails));
        pid := None;
      } else {
        UnusedExists(kids.Keys);
        var p: Pid :| p !in kids.Keys;
        Log(Run(Clone(p)));
        kids := kids[p := NEWBORN];
        pid := Some(p);
      }
      Interleave();
    }

    method CloseChildFd(cfd: Fd)
      requires Valid() && W().pc.Cloned? && W().cfd == Some(cfd)
      modifies this
      ensures Valid() && old(log) <= log && Within(old(W()), W())
      ensures W().pc == (if old(W().unlisted) then Adding else Closing) && W().pfd == old(W().pfd)
      ensures W().pid == old(W().pid) && W().held == old(W().held)
    {
      Log(Run(CloseChildEnd));
      fds := fds - {cfd};
      Interleave();
    }

    /** subprocAdd: the probe may fail to open, and the address is read from the socket again; the entry has
        the time of this moment. */
    method Add(pid: Pid, addr: Addr, opens: bool)
      requires Valid() && W().pc.Adding? && W().pid == pid
      modifies this
      ensures Valid() && old(log) <= log && Within(old(W()).(table := W().table), W())
      ensures W().pc.NetInit? && W().pfd == old(W().pfd) && W().pid == pid && W().held == old(W().held)
      ensures |table| == |old(table)| + 1 && table[1..] == old(table)
      ensures table[0].pid == pid && table[0].start == old(now) && table[0].addr == addr && table[0].fd.Some? == opens
    {
      var probe: Option<Fd> := None;
      if opens {
        UnusedExists(fds);
        var f: Fd :| f !in fds;
        probe := Some(f);
      }
      Log(Run(RunMove.Add(probe, addr)));
      table := [Entry(pid, now, addr, probe)] + table;
      fds := fds + if probe.Some? then {probe.value} else {};
      Interleave();
    }

    /** Closing the parent's end closes the peer of the child's socket, if there is a child. */
    method CloseParentFd(pfd: Fd, child: Option<Pid>)
      requires Valid() && W().pc.Closing? && W().pfd == Some(pfd)
      requires W().held == child.Some? && (child.Some? ==> W().pid == child.value)
      modifies this
      ensures Valid() && old(log) <= log && Within(old(W()), W())
      ensures W().pc.Returned?
    {
      Log(Run(CloseParentEnd));
      fds := fds - {pfd};
      if child.Some? {
        kids := Released(kids, child.value);
      }
      Interleave();
    }

    // ---- subprocInitParent ---------------------------------------------------------------------

    method InitNet(pid: Pid, works: bool) returns (ok: bool)
      requires Valid() && W().pc.NetInit? && W().pid == pid
      modifies this
      ensures Valid() && old(log) <= log && Within(old(W()), W()) && SameHold(old(W()), W())
      ensures ok == works && W().pc == if ok then CgroupInit else Closing
      ensures HasByte(kids, pid) == old(HasByte(kids, pid))
    {
      ok := works;
      if ok {
        Log(Setup(NetOk));
        kids := Note(kids, pid, (k: Child) => k.(net := true));
      } else {
        Log(Setup(NetFails));
      }
      Interleave();
    }

    /** cgroupInitNsFromParent: without a memory limit nothing is done; a failure, whether of the
        directory or of a write below it, ends the supervisor. */
    method InitCgroup(pid: Pid, works: bool, made: bool) returns (ok: bool)
      requires Valid() && W().pc.CgroupInit? && W().pid == pid
      modifies this
      ensures Valid() && old(log) <= log && Within(old(W()), W()) && (ok ==> SameHold(old(W()), W()))
      ensures W().pc == if ok then UserInit else Dead
      ensures HasByte(kids, pid) == old(HasByte(kids, pid))
      ensures ok == (works || conf.cgroupMemMax == 0)
      ensures ok ==> cgroups == old(cgroups) + if conf.cgroupMemMax == 0 then {} else {pid}
      ensures !ok ==> cgroups == old(cgroups) + if made then {pid} else {}
    {
      ok := works || conf.cgroupMemMax == 0;
      if ok {
        MakeCgroup(pid);
      } else {
        Log(Setup(CgroupFails(made)));
        fds, kids := {}, Released(kids, pid);
        if made {
          cgroups := cgroups + {pid};
        }
      }
    }

    method MakeCgroup(pid: Pid)
      requires Valid() && W().pc.CgroupInit? && W().pid == pid
      modifies this
      ensures Valid() && old(log) <= log && Within(old(W()), W()) && SameHold(old(W()), W())
      ensures W().pc.UserInit? && HasByte(kids, pid) == old(HasByte(kids, pid))
      ensures cgroups == old(cgroups) + if conf.cgroupMemMax == 0 then {} else {pid}
    {
      Log(Setup(CgroupOk));
      kids := Note(kids, pid, (k: Child) => k.(cgroup := true));
      if conf.cgroupMemMax != 0 {
        cgroups := cgroups + {pid};
      }
      Interleave();
    }

    method InitUser(pid: Pid, works: bool) returns (ok: bool)
      requires Valid() && W().pc.UserInit? && W().pid == pid
      modifies this
      ensures Valid() && old(log) <= log && Within(old(W()), W()) && SameHold(old(W()), W())
      ensures ok == works && W().pc == if ok then Signalling else Closing
      ensures HasByte(kids, pid) == old(HasByte(kids, pid))
    {
      ok := works;
      if ok {
        Log(Setup(UserOk));
        kids := Note(kids, pid, (k: Child) => k.(user := true));
      } else {
        Log(Setup(UserFails));
      }
      Interleave();
    }

    /** What the write calls for one byte may answer: any number of interruptions, then that the byte went out,
        or an error. */
    method SocketAnswers(out: bool) returns (answers: seq<Transfer.Answer<nat>>)
      ensures Transfer.WriteResult(1, answers) == Some(if out then 1 else 0)
    {
      Transfer.OneByte(out);
      answers :| Transfer.WriteResult(1, answers) == Some(if out then 1 else 0);
    }

    // With the child gone the first write raises SIGPIPE, unless that is ignored.
    method Perish(pid: Pid)
      requires Valid() && W().pc.Signalling? && W().pid == pid && !Alive(kids, pid)
      modifies this
      ensures Valid() && old(log) <= log && Within(old(W()), W()) && W().pc.Dead?
    {
      Log(Setup(SendKills));
      fds, kids := {}, Released(kids, pid);
    }

    /** The done byte: it counts as sent if the write's result is the size of the byte. The write fails if the
        other end is closed, and may fail otherwise. */
    method SignalChild(pid: Pid, fails: bool) returns (ok: bool)
      requires Valid() && W().pc.Signalling? && W().pid == pid
      modifies this
      ensures Valid() && old(log) <= log && Within(old(W()), W()) && SameHold(old(W()), W())
      ensures W().pc.Closing? && (pid in kids && !old(HasByte(kids, pid)) ==> (ok <==> HasByte(kids, pid)))
      ensures (ok ==> !fails) && (!ok && !fails ==> !Alive(kids, pid))
    {
      var answers := SocketAnswers(Alive(kids, pid) && !fails);
      var r, _ := Transfer.WriteToFd([DONE_CHAR], answers);
      ok := r == Some(|[DONE_CHAR]|);
      Deliver(pid, ok);
    }

    method Deliver(pid: Pid, ok: bool)
      requires Valid() && W().pc.Signalling? && W().pid == pid && (ok ==> Alive(kids, pid))
      modifies this
      ensures Valid() && old(log) <= log && Within(old(W()), W()) && SameHold(old(W()), W())
      ensures W().pc.Closing? && (pid in kids && !old(HasByte(kids, pid)) ==> (ok <==> HasByte(kids, pid)))
      ensures !old(Alive(kids, pid)) ==> !Alive(kids, pid)
    {
      Log(Setup(if ok then SendDone else SendFails));
      if ok {
        kids := Note(kids, pid, (k: Child) => k.(sent := true));
      }
      Interleave();
    }

    lemma InitSettled(pid: Pid)
      requires Valid() && Initialising(W().pc) && W().pid == pid
      ensures pid in kids && !HasByte(kids, pid)
    {
      ValidIsSafe();
    }

    lemma ByteMeansCleared(pid: Pid)
      requires Valid() && HasByte(kids, pid)
      ensures Cleared(kids[pid])
    {
      ValidIsSafe();
    }

    /** subprocInitParent: not alive where the supervisor itself is gone; otherwise true exactly when the
        done byte is in the child's socket, and then all three initialisations have succeeded. It is false
        only where the network or user initialisation failed, or the write, or the child has ended. */
    method InitParent(pid: Pid, a: Answers) returns (alive: bool, ok: bool)
      requires Valid() && W().pc.NetInit? && W().pid == pid
      modifies this
      ensures Valid() && old(log) <= log && Within(old(W()), W()) && (alive ==> SameHold(old(W()), W()))
      ensures W().pc == if alive then Closing else Dead
      ensures alive ==> pid in kids && (ok <==> kids[pid].sent) && (ok ==> Cleared(kids[pid]))
      ensures alive && ok ==> a.net && a.user && !a.writeFails
      ensures alive && !ok ==> !a.net || !a.user || a.writeFails || !Alive(kids, pid)
      ensures alive <== !a.net || ((a.cgroup || conf.cgroupMemMax == 0) && (!a.user || a.ignored))
      ensures a.net && !a.cgroup && conf.cgroupMemMax != 0 ==> !alive
    {
      InitSettled(pid);
      ok := InitNet(pid, a.net);
      if !ok {
        return true, false;
      }
      ok := InitCgroup(pid, a.cgroup, a.made);
      if !ok {
        return false, false;
      }
      ok := InitUser(pid, a.user);
      if !ok {
        return true, false;
      }
      alive, ok := Announce(pid, a);
    }

    // The write of the done byte, or the end of the supervisor in it.
    method Announce(pid: Pid, a: Answers) returns (alive: bool, ok: bool)
      requires Valid() && W().pc.Signalling? && W().pid == pid
      modifies this
      ensures Valid() && old(log) <= log && Within(old(W()), W()) && (alive ==> SameHold(old(W()), W()))
      ensures W().pc == (if alive then Closing else Dead) && (a.ignored ==> alive)
      ensures alive ==> pid in kids && (ok <==> kids[pid].sent) && (ok ==> Cleared(kids[pid]))
      ensures alive && ok ==> !a.writeFails
      ensures alive && !ok ==> a.writeFails || !Alive(kids, pid)
    {
      InitSettled(pid);
      if !a.ignored && !Alive(kids, pid) {
        Perish(pid);
        return false, false;
      }
      ok := SignalChild(pid, a.writeFails);
      if ok {
        ByteMeansCleared(pid);
      }
      alive := true;
    }

    method Admission(peer: Addr) returns (ok: bool)
      requires Valid() && W().pc.Admitting? && W().peer == peer
      modifies this
      ensures Valid() && old(log) <= log && Within(old(W()), W())
      ensures ok <==> !Limited(conf, old(table), peer)
      ensures W().pc == if ok then Pairing else Returned
    {
      ok := LimitConns(peer);
      if ok {
        Log(Run(Admit));
      } else {
        Log(Run(Reject));
      }
      Interleave();
    }

    // The limit, then the two sockets.
    method Reserve(a: Attempt) returns (ends: Option<(Fd, Fd)>)
      requires Valid() && W().pc.Admitting? && W().peer == a.peer
      modifies this
      ensures Valid() && old(log) <= log && Within(old(W()), W())
      ensures ends.Some? == (!Limited(conf, old(table), a.peer) && a.run.pairs)
      ensures ends.None? ==> W().pc.Returned?
      ensures ends.Some? ==> W().pc.Cloning? && W().cfd == Some(ends.value.0) && W().pfd == Some(ends.value.1)
    {
      var ok := Admission(a.peer);
      if !ok {
        return None;
      }
      ends := Socketpair(a.run.pairs);
    }

    // From the limit to the listed child; None where the call ends without one.
    method Launch(a: Attempt) returns (made: Option<(Pid, Fd)>)
      requires Valid() && W().pc.Admitting? && W().peer == a.peer
      modifies this
      ensures Valid() && old(log) <= log
      ensures W().conn == old(W().conn) && W().listen == old(W().listen)
      ensures made.Some? == Makes(conf, old(table), a)
      ensures Steady(old(W()).(born := W().born), W()) && W().born == old(W().born) + if made.Some? then 1 else 0
      ensures made.None? ==> W().pc.Returned? && table == old(table)
      ensures made.Some? ==>
                && W().pc.NetInit? && W().pid == made.value.0 && W().pfd == Some(made.value.1) && W().held
                && |table| == |old(table)| + 1 && table[1..] == old(table)
                && table[0].pid == made.value.0 && made.value.0 !in old(kids)
                && table[0].addr == a.run.addr && table[0].fd.Some? == a.run.probe && old(now) <= table[0].start <= now
    {
      var ends := Reserve(a);
      if ends.None? {
        return None;
      }
      var (cfd, pfd) := ends.value;
      var pid := CloneChild(a.run.clones);
      CloseChildFd(cfd);
      if pid.None? {
        CloseParentFd(pfd, None);
        return None;
      }
      Add(pid.value, a.run.addr, a.run.probe);
      made := Some((pid.value, pfd));
    }

    /** subprocRunChild: a child is made and listed exactly if the limit lets the connection pass and
        socketpair and clone succeed, with the address read then and the time of its insertion; on return the
        table lists exactly the children there are, each of which can finish its handshake. */
    method RunChild(a: Attempt) returns (alive: bool)
      requires Valid() && W().pc.Admitting? && W().peer == a.peer
      modifies this
      ensures Valid() && old(log) <= log
      ensures W().pc == if alive then Returned else Dead
      ensures W().conn == old(W().conn) && W().listen == old(W().listen)
      ensures var made := Makes(conf, old(table), a);
              && Steady(old(W()).(born := W().born), W()) && W().born == old(W().born) + (if made then 1 else 0)
              && (!made ==> alive && table == old(table))
              && (made ==>
                    && |table| == |old(table)| + 1 && table[1..] == old(table) && table[0].pid !in old(kids)
                    && table[0].addr == a.run.addr && table[0].fd.Some? == a.run.probe
                    && old(now) <= table[0].start <= now)
      ensures alive ==> kids.Keys == Pids(table) && forall pid :: pid in kids ==> !kids[pid].peerOpen
    {
      alive := true;
      var made := Launch(a);
      if made.Some? {
        var (pid, pfd) := made.value;
        var ok;
        alive, ok := InitParent(pid, a.run);
        if alive {
          CloseParentFd(pfd, Some(pid));
        }
      }
      if alive {
        ReturnedSettled();
      }
    }

    lemma ReturnedSettled()
      requires Valid() && W().pc.Returned?
      ensures kids.Keys == Pids(table) && forall pid :: pid in kids ==> !kids[pid].peerOpen
    {
      ValidIsSafe();
    }

    // ---- subprocReap ---------------------------------------------------------------------------

    /** waitid and wait4: some terminated child, if there is one, is waited for. */
    method WaitAny() returns (r: Option<(Pid, Status)>)
      requires Valid() && W().pc.Reaping?
      modifies this
      ensures Valid() && old(log) <= log && SameReap(old(W()), W()) && table == old(table)
      ensures W().leaked == old(W().leaked)
      ensures r.None? ==> W() == old(W()) && forall pid :: pid in kids ==> !kids[pid].stage.Zombie?
      ensures r.Some? ==> W().pc.Reaped? && W().pid == r.value.0 && W().status == r.value.1 &&
                          W().pid in old(kids).Keys && kids.Keys == old(kids).Keys - {W().pid}
    {
      if pid :| pid in kids && kids[pid].stage.Zombie? {
        var status := kids[pid].stage.status;
        Log(Reap(Wait(pid)));
        kids := kids - {pid};
        r := Some((pid, status));
      } else {
        r := None;
      }
    }

    /** cgroupFinishFromParent: with limits on the directory goes, unless it is one that cannot be removed. */
    method FinishCgroup(pid: Pid, stuck: set<Pid>)
      requires Valid() && W().pc.Reaped? && W().pid == pid
      modifies this
      ensures Valid() && old(log) <= log && SameReap(old(W()), W()) && table == old(table)
      ensures W().pc.Removing? && W().pid == pid && W().status == old(W().status) && kids.Keys == old(kids).Keys
      ensures cgroups == old(cgroups) - if conf.cgroupMemMax != 0 && pid !in stuck then {pid} else {}
      ensures W().leaked <= old(W().leaked) + stuck
    {
      var gone := conf.cgroupMemMax != 0 && pid in cgroups && pid !in stuck;
      Log(Reap(CgroupFinish(gone)));
      cgroups := if gone then cgroups - {pid} else cgroups;
    }

    // The first entry with this pid, or the table's length.
    method FindEntry(pid: Pid) returns (k: nat)
      ensures k <= |table| && !Lists(table[..k], pid) && (k < |table| ==> table[k].pid == pid)
    {
      k := 0;
      while k < |table| && table[k].pid != pid
        invariant k <= |table| && !Lists(table[..k], pid)
      {
        assert table[..k + 1] == table[..k] + [table[k]];
        k := k + 1;
      }
    }

    /** subprocRemove: the first entry with this pid, and its descriptor, go; the others stay in order. */
    method Remove(pid: Pid)
      requires Valid() && W().pc.Removing? && W().pid == pid
      modifies this
      ensures Valid() && old(log) <= log && SameReap(old(W()), W())
      ensures W().pc.Reaping? && W().rv == Encode(old(W().status)) && kids == old(kids) && W().leaked == old(W().leaked)
      ensures if Lists(old(table), pid)
              then exists k :: 0 <= k < |old(table)| && old(table)[k].pid == pid && table == Drop(old(table), k)
              else table == old(table)
    {
      var k := FindEntry(pid);
      if k < |table| {
        Log(Reap(ReapMove.Remove(k)));
        fds := fds - Fds(table[k].fd);
        table := table[..k] + table[k + 1..];
      } else {
        assert table[..k] == table;
        Log(Reap(RemoveMissing));
      }
    }

    lemma ListedWhenRemoving()
      requires Valid() && W().pc.Removing?
      ensures Lists(table, W().pid)
    {
      ValidIsSafe();
    }

    // One turn of the reap loop.
    method ReapOne(stuck: set<Pid>) returns (r: Option<Status>)
      requires Valid() && W().pc.Reaping?
      modifies this
      ensures Valid() && old(log) <= log && SameReap(old(W()), W()) && W().leaked <= old(W().leaked) + stuck
      ensures W().pc.Reaping?
      ensures r.None? ==> table == old(table) && kids.Keys == old(kids).Keys && W().rv == old(W().rv) &&
                          forall pid :: pid in kids ==> !kids[pid].stage.Zombie?
      ensures r.Some? ==> W().rv == Encode(r.value) && |kids| == |old(kids)| - 1 &&
                          |table| == |old(table)| - 1 && forall e :: e in table ==> e in old(table)
    {
      Interleave();
      var z := WaitAny();
      if z.None? {
        return None;
      }
      assert |kids.Keys| == |old(kids).Keys| - 1;
      ClearUp(z.value.0, stuck);
      r := Some(z.value.1);
    }

    // After wait4: the cgroup directory and the table entry of the child go.
    method ClearUp(pid: Pid, stuck: set<Pid>)
      requires Valid() && W().pc.Reaped? && W().pid == pid
      modifies this
      ensures Valid() && old(log) <= log && SameReap(old(W()), W()) && W().leaked <= old(W().leaked) + stuck
      ensures W().pc.Reaping? && W().rv == Encode(old(W().status)) && kids.Keys == old(kids).Keys
      ensures |table| == |old(table)| - 1 && forall e :: e in table ==> e in old(table)
    {
      Interleave();
      FinishCgroup(pid, stuck);
      Interleave();
      ListedWhenRemoving();
      Remove(pid);
      Interleave();
    }

    // The reap loop; it ends because each turn leaves one child less to wait for.
    method ReapAll(stuck: set<Pid>) returns (rv: int, ghost ss: seq<Status>)
      requires Valid() && W().pc.Reaping? && W().rv == 0
      modifies this
      ensures Valid() && old(log) <= log && SameReap(old(W()), W()) && W().leaked <= old(W().leaked) + stuck
      ensures W().pc.Reaping? && W().rv == rv == ReapResult(ss)
      ensures if ss == [] then rv == 0 else Tells(rv, ss[|ss| - 1])
      ensures |table| == |old(table)| - |ss| && forall e :: e in table ==> e in old(table)
      ensures forall pid :: pid in kids ==> !kids[pid].stage.Zombie?
    {
      rv, ss := 0, [];
      while true
        invariant Valid() && old(log) <= log && SameReap(old(W()), W()) && W().leaked <= old(W().leaked) + stuck
        invariant W().pc.Reaping? && W().rv == rv == ReapResult(ss)
        invariant |table| == |old(table)| - |ss| && forall e :: e in table ==> e in old(table)
        decreases |kids|
      {
        var r := ReapOne(stuck);
        if r.None? {
          ResultTells(ss);
          return;
        }
        rv := Encode(r.value);
        ss := ss + [r.value];
      }
    }

    // One entry of the time-limit loop.
    method SweepEntry(at: int, i: nat)
      requires Valid() && W().pc.Sweeping? && W().at == at && W().i == i < |table|
      modifies this
      ensures Valid() && old(log) <= log && SameSweep(old(W()), W())
      ensures W().pc.Sweeping? && W().i == i + 1
    {
      if conf.tlimit != 0 && at - table[i].start >= conf.tlimit {
        SendCont(i);
        SendKill(i);
      } else {
        Log(Sweep(Skip));
      }
    }

    method SendCont(i: nat)
      requires Valid() && W().pc.Sweeping? && W().i == i < |table| && Over(conf, table[i], W().at)
      modifies this
      ensures Valid() && old(log) <= log && SameSweep(old(W()), W()) && W().pc.SweepKill? && W().i == i
    {
      Log(Sweep(SendSigcont));
      signals := signals + [Sent(table[i].pid, SIGCONT)];
      Interleave();
    }

    method SendKill(i: nat)
      requires Valid() && W().pc.SweepKill? && W().i == i < |table|
      modifies this
      ensures Valid() && old(log) <= log && SameSweep(old(W()), W()) && W().pc.Sweeping? && W().i == i + 1
    {
      Log(Sweep(SendSigkill));
      signals := signals + [Sent(table[i].pid, SIGKILL)];
      Interleave();
    }

    method SweepOver()
      requires Valid() && W().pc.Reaping?
      requires forall pid :: pid in kids ==> !kids[pid].stage.Zombie?
      modifies this
      ensures Valid() && old(log) <= log
      ensures W().pc.Idle? && W().rv == old(W().rv) && table == old(table) && W().listen == old(W().listen)
      ensures W().at == old(now) && W().mark == |old(signals)| && old(signals) <= signals
      ensures Steady(old(W()).(reaps := W().reaps), W()) && W().reaps == old(W().reaps) + 1
    {
      Log(Reap(WaitNone));
      var at := now;
      var i := 0;
      ghost var w := W();
      while i < |table|
        invariant Valid() && old(log) <= log && SameSweep(w, W())
        invariant W().pc.Sweeping? && W().i == i <= |table|
      {
        SweepEntry(at, i);
        i := i + 1;
      }
      Log(Sweep(SweepEnd));
    }

    /** subprocReap: every terminated child is waited for and unlisted, in whatever order they are found
        and however many end meanwhile; the result tells of the last of them; then each entry left whose age,
        at a time during the call, has reached the limit gets SIGCONT and SIGKILL, and no other. */
    method DoReap(stuck: set<Pid>) returns (rv: int, ghost ss: seq<Status>)
      requires Valid() && W().pc.Reaping? && W().rv == 0
      modifies this
      ensures Valid() && old(log) <= log
      ensures W().pc.Idle? && W().listen == old(W().listen) && W().reaps == old(W().reaps) + 1
      ensures W().born == old(W().born) && W().leaked <= old(W().leaked) + stuck
      ensures W().rv == rv == ReapResult(ss) && (if ss == [] then rv == 0 else Tells(rv, ss[|ss| - 1]))
      ensures |old(table)| <= 1 ==> rv == FirstFailure(ss)
      ensures |table| == |old(table)| - |ss| && forall e :: e in table ==> e in old(table)
      ensures kids.Keys == Pids(table)
      ensures old(now) <= W().at <= now && old(signals) <= signals
      ensures signals == old(signals) + Due(conf, table, W().at)
      ensures forall n :: 0 <= n < |table| && conf.tlimit != 0 && W().at - table[n].start >= conf.tlimit ==>
                ContThenKill(signals[|old(signals)|..], table[n].pid)
      ensures forall n :: 0 <= n < |table| && (conf.tlimit == 0 || W().at - table[n].start < conf.tlimit) ==>
                Untouched(signals[|old(signals)|..], table[n].pid)
    {
      rv, ss := ReapAll(stuck);
      HeaderPromiseIff(1);
      SweepOver();
      IdleSettled();
      assert signals == signals[..|old(signals)|] + signals[|old(signals)|..];
      SweptExactly();
    }

    lemma SweptExactly()
      requires Valid() && W().pc.Idle?
      ensures W().mark <= |signals|
      ensures forall n :: 0 <= n < |table| && conf.tlimit != 0 && W().at - table[n].start >= conf.tlimit ==>
                ContThenKill(signals[W().mark..], table[n].pid)
      ensures forall n :: 0 <= n < |table| && (conf.tlimit == 0 || W().at - table[n].start < conf.tlimit) ==>
                Untouched(signals[W().mark..], table[n].pid)
    {
      ValidIsSafe();
      forall n | 0 <= n < |table|
        ensures conf.tlimit != 0 && W().at - table[n].start >= conf.tlimit ==>
                  ContThenKill(signals[W().mark..], table[n].pid)
        ensures conf.tlimit == 0 || W().at - table[n].start < conf.tlimit ==>
                  Untouched(signals[W().mark..], table[n].pid)
      {
        SweepIsExact(conf, boot, log, W(), n);
      }
    }

    lemma IdleSettled()
      requires Valid() && W().pc.Idle?
      ensures kids.Keys == Pids(table)
      ensures W().mark <= |signals| && signals[W().mark..] == Due(conf, table, W().at)
    {
      ValidIsSafe();
    }

    /** subprocKillAll: SIGKILL to every entry, in table order. */
    method KillAll()
      requires Valid() && W().pc.Killing? && W().i == 0
      modifies this
      ensures Valid() && old(log) <= log && SameSweep(old(W()), W())
      ensures W().pc.Killing? && W().i == |table|
      ensures signals == old(signals) + Kills(table)
    {
      var i := 0;
      assert table[..0] == [];
      while i < |table|
        invariant Valid() && old(log) <= log && SameSweep(old(W()), W())
        invariant W().pc.Killing? && W().i == i <= |table|
        invariant signals == old(signals) + Kills(table[..i])
      {
        assert table[..i + 1][..i] == table[..i];
        KillEntry(i);
        i := i + 1;
      }
      assert table[..i] == table;
    }

    method KillEntry(i: nat)
      requires Valid() && W().pc.Killing? && W().i == i < |table|
      modifies this
      ensures Valid() && old(log) <= log && SameSweep(old(W()), W()) && W().pc.Killing? && W().i == i + 1
      ensures signals == old(signals) + [Sent(table[i].pid, SIGKILL)]
    {
      Log(Loop(KillOne));
      signals := signals + [Sent(table[i].pid, SIGKILL)];
      Interleave();
    }

    // ---- The event loops of nsjail.c -----------------------------------------------------------

    /** The way out on a fatal signal: every child not waited for has been sent SIGKILL. */
    method Shutdown(listenfd: Option<Fd>)
      requires Valid() && W().pc.Idle? && fatal && (conf.mode.ListenTcp? || table != []) && W().listen == listenfd
      modifies this
      ensures Valid() && old(log) <= log
      ensures W().pc.Stopped? && W().listen.None? && table == old(table) && fds == old(fds) - Fds(listenfd)
      ensures Steady(old(W()), W())
      ensures signals == old(signals) + Kills(table)
      ensures forall pid :: pid in kids ==> Sent(pid, SIGKILL) in signals
    {
      BeginKill();
      KillAll();
      CloseListen(listenfd);
      StoppedKilled();
    }

    lemma StoppedKilled()
      requires Valid() && W().pc.Stopped?
      ensures forall pid :: pid in kids ==> Sent(pid, SIGKILL) in signals
    {
      forall pid | pid in kids
        ensures Sent(pid, SIGKILL) in signals
      {
        FatalExitKillsAll(conf, boot, log, W(), pid);
      }
    }

    method BeginKill()
      requires Valid() && W().pc.Idle? && fatal && (conf.mode.ListenTcp? || table != [])
      modifies this
      ensures Valid() && old(log) <= log && W() == old(W()).(pc := Killing, i := 0, mark := |signals|)
    {
      Log(Loop(KillBegin));
    }

    method CloseListen(listenfd: Option<Fd>)
      requires Valid() && W().pc.Killing? && W().i == |table| && W().listen == listenfd
      modifies this
      ensures Valid() && old(log) <= log
      ensures W().pc.Stopped? && W().listen.None? && table == old(table) && signals == old(signals)
      ensures fds == old(fds) - Fds(listenfd) && Steady(old(W()), W())
    {
      Log(Loop(KillEnd));
      fds := fds - Fds(listenfd);
    }

    method AcceptConn(incoming: Option<Addr>) returns (conn: Option<(Fd, Addr)>)
      requires Valid() && W().pc.Idle? && conf.mode.ListenTcp? && !fatal
      modifies this
      ensures Valid() && old(log) <= log && table == old(table) && W().listen == old(W().listen)
      ensures Steady(old(W()), W()) && kids.Keys == old(kids).Keys
      ensures conn.None? == incoming.None? && (conn.Some? ==> conn.value.1 == incoming.value)
      ensures conn.None? ==> W().pc.Reaping? && W().rv == 0
      ensures conn.Some? ==> W().pc.Admitting? && W().conn == Some(conn.value.0) && W().peer == conn.value.1
    {
      if incoming.None? {
        Log(Loop(AcceptFails));
        conn := None;
      } else {
        UnusedExists(fds);
        var f: Fd :| f !in fds;
        Log(Loop(Accept(f, incoming.value)));
        fds := fds + {f};
        conn := Some((f, incoming.value));
      }
      Interleave();
    }

    // Back in the loop after subprocRunChild: the connection, if any, is closed.
    method CloseConn(conn: Option<Fd>)
      requires Valid() && W().pc.Returned? && W().conn == conn
      modifies this
      ensures Valid() && old(log) <= log && table == old(table) && W().listen == old(W().listen)
      ensures W().pc.Reaping? && W().rv == 0 && Steady(old(W()), W())
    {
      Log(Run(Return));
      fds := fds - Fds(conn);
      Interleave();
    }

    method OpenListenSocket() returns (listenfd: Fd)
      requires Valid() && W().pc.Boot? && conf.mode.ListenTcp?
      modifies this
      ensures Valid() && old(log) <= log && W().pc.Idle? && W().listen == Some(listenfd)
      ensures Steady(old(W()), W())
    {
      UnusedExists(fds);
      listenfd :| listenfd !in fds;
      Log(Loop(OpenListen(listenfd)));
      fds := fds + {listenfd};
      Interleave();
    }

    /** nsjailListenMode, for any number of turns: it has made them all, each with its call of subprocReap,
        and is still serving, with the table agreeing with the children and nothing left open but the
        listening socket and the probes; or a fatal signal has ended it, with every remaining child killed;
        or the supervisor itself is gone. */
    method ListenMode(turns: seq<Option<Attempt>>, stuck: set<Pid>) returns (fate: Pc)
      requires Valid() && W().pc.Boot? && conf.mode.ListenTcp?
      modifies this
      ensures Valid() && W().pc == fate
      ensures fate.Idle? || fate.Stopped? || fate.Dead?
      ensures var made := Returns(log) - old(Returns(log)); if fate.Idle? then made == |turns| else made < |turns|
      ensures fate.Idle? ==> PidsDistinct(table) && Pids(table) == kids.Keys
      ensures fate.Idle? ==>
                forall f: Fd :: f in fds <==> f in conf.base || W().listen == Some(f) || TableHas(table, f) > 0
      ensures fate.Idle? ==> cgroups <= Pids(table) + old(W().leaked) + stuck
      ensures fate.Stopped? ==> forall pid :: pid in kids ==> Sent(pid, SIGKILL) in signals
    {
      ghost var before := Returns(log);
      ReapsCounted(conf, boot, log);
      var listenfd := OpenListenSocket();
      for turn := 0 to |turns|
        invariant Valid() && W().pc.Idle? && W().listen == Some(listenfd) && W().reaps == before + turn
        invariant W().leaked <= old(W().leaked) + stuck
      {
        Interleave();
        if fatal {
          Shutdown(Some(listenfd));
          ReapsCounted(conf, boot, log);
          return Stopped;
        }
        var alive := ServeOne(turns[turn], stuck);
        if !alive {
          ReapsCounted(conf, boot, log);
          return Dead;
        }
      }
      ReapsCounted(conf, boot, log);
      BetweenCalls(conf, boot, log, W());
      return Idle;
    }

    /** One turn of the listen loop: an incoming connection makes a child exactly if it passes the limit and
        the calls succeed; without one, or after it, the children that have ended are reaped. */
    method ServeOne(turn: Option<Attempt>, stuck: set<Pid>) returns (alive: bool)
      requires Valid() && W().pc.Idle? && conf.mode.ListenTcp? && !fatal
      modifies this
      ensures Valid() && old(log) <= log && W().listen == old(W().listen)
      ensures W().pc == (if alive then Idle else Dead) && (turn.None? ==> alive)
      ensures W().reaps == old(W().reaps) + if alive then 1 else 0
      ensures W().born == old(W().born) + if turn.Some? && Makes(conf, old(table), turn.value) then 1 else 0
      ensures W().leaked <= old(W().leaked) + stuck
    {
      var conn := AcceptConn(if turn.Some? then Some(turn.value.peer) else None);
      if conn.Some? {
        alive := RunChild(turn.value);
        if !alive {
          return;
        }
        CloseConn(Some(conn.value.0));
      }
      var _, _ := DoReap(stuck);
      alive := true;
    }

    // A child on the console: standalone modes pass descriptors that are not sockets.
    method RunOnConsole(a: Attempt) returns (alive: bool)
      requires Valid() && !conf.mode.ListenTcp?
      requires W().pc.Boot? || (W().pc.Idle? && table == [] && conf.mode.StandaloneRerun?)
      requires W().conn.None?
      modifies this
      ensures Valid() && old(log) <= log
      ensures if alive then W().pc.Reaping? && W().rv == 0 else W().pc.Dead?
      ensures W().listen == old(W().listen) && Steady(old(W()).(born := W().born), W())
      ensures W().born == old(W().born) + if Makes(conf, old(table), a) then 1 else 0
    {
      BeginConsole(a.peer);
      alive := RunChild(a);
      if alive {
        CloseConn(None);
      }
    }

    method BeginConsole(addr: Addr)
      requires Valid() && !conf.mode.ListenTcp?
      requires W().pc.Boot? || (W().pc.Idle? && table == [] && conf.mode.StandaloneRerun?)
      modifies this
      ensures Valid() && old(log) <= log && W() == old(W()).(pc := Admitting, peer := addr)
    {
      Log(Loop(Start(addr)));
    }

    /** nsjailStandaloneMode, for any number of turns, each with its call of subprocReap. Run once, its
        result tells how its only child ended. */
    method StandaloneMode(first: Attempt, turns: seq<Attempt>, stuck: set<Pid>) returns (fate: Pc, rv: int)
      requires Valid() && W().pc.Boot? && !conf.mode.ListenTcp?
      modifies this
      ensures Valid() && |table| <= 1
      ensures var made := Returns(log) - old(Returns(log)); if fate.Reaping? then made == |turns| else made <= |turns|
      ensures fate == W().pc && (fate.Reaping? || fate.Finished? || fate.Stopped? || fate.Dead?)
      ensures fate.Finished? ==> conf.mode.StandaloneOnce? && (W().born == 0 ==> rv == 0)
      ensures fate.Finished? && W().born > 0 ==> W().last.Some? && Tells(rv, W().last.value)
      ensures fate.Stopped? ==> rv == -1 && forall pid :: pid in kids ==> Sent(pid, SIGKILL) in signals
    {
      ghost var before := Returns(log);
      ReapsCounted(conf, boot, log);
      rv := 0;
      ShapeHolds();
      var alive := RunOnConsole(first);
      if !alive {
        AtMostOneListed();
        ReapsCounted(conf, boot, log);
        return Dead, 0;
      }
      for turn := 0 to |turns|
        invariant Valid() && W().pc.Reaping? && W().rv == 0 && W().listen.None? && W().reaps == before + turn
      {
        ghost var ss;
        rv, ss := DoReap(stuck);
        fate := AfterReap(rv, turns[turn]);
        if !fate.Reaping? {
          AtMostOneListed();
          ReapsCounted(conf, boot, log);
          if fate.Finished? {
            OnceReports(conf, boot, log, W());
          }
          return fate, if fate.Stopped? then -1 else rv;
        }
      }
      AtMostOneListed();
      ReapsCounted(conf, boot, log);
      return Reaping, 0;
    }

    // What the standalone loop does once subprocReap has returned `rv`.
    method AfterReap(rv: int, again: Attempt) returns (fate: Pc)
      requires Valid() && W().pc.Idle? && !conf.mode.ListenTcp? && W().rv == rv && W().listen.None?
      modifies this
      ensures Valid() && old(log) <= log && fate == W().pc && W().listen.None?
      ensures fate.Reaping? || fate.Finished? || fate.Stopped? || fate.Dead?
      ensures W().reaps == old(W().reaps) && (fate.Reaping? ==> W().rv == 0)
      ensures old(table) == [] && conf.mode.StandaloneOnce? ==> fate.Finished?
      ensures W().born == old(W().born) +
                if old(table) == [] && !conf.mode.StandaloneOnce? && Makes(conf, [], again) then 1 else 0
      ensures fate.Finished? ==> conf.mode.StandaloneOnce? && W().rv == rv
      ensures fate.Stopped? ==> forall pid :: pid in kids ==> Sent(pid, SIGKILL) in signals
    {
      ShapeHolds();
      var n := Count();
      if n == 0 {
        if conf.mode.StandaloneOnce? {
          Conclude();
          return Finished;
        }
        var alive := RunOnConsole(again);
        return if alive then Reaping else Dead;
      }
      Interleave();
      if fatal {
        Shutdown(None);
        return Stopped;
      }
      Sleep();
      return Reaping;
    }

    method Conclude()
      requires Valid() && W().pc.Idle? && conf.mode.StandaloneOnce? && table == []
      modifies this
      ensures Valid() && old(log) <= log && W() == old(W()).(pc := Finished)
    {
      Log(Loop(Finish));
    }

    // pause(): the next turn begins after any signal.
    method Sleep()
      requires Valid() && W().pc.Idle? && !conf.mode.ListenTcp? && table != [] && !fatal
      modifies this
      ensures Valid() && old(log) <= log && W() == old(W()).(pc := Reaping, rv := 0)
    {
      Log(Loop(Pause));
    }

    lemma AtMostOneListed()
      requires Valid() && !conf.mode.ListenTcp?
      ensures |table| <= 1
    {
      ValidIsSafe();
    }
  }
}
