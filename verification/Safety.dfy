/** What holds in every reachable world of the supervisor, whatever the interleaving. */
module Safety {
  import opened Common
  import opened Protocol

  // Stretches of subprocRunChild: the sockets made, the child listed and being initialised.
  predicate Calling(pc: Pc) { pc.Admitting? || pc.Pairing? || Paired(pc) || pc.Returned? }
  predicate Paired(pc: Pc) { pc.Cloning? || pc.Cloned? || pc.Adding? || Initialising(pc) || pc.Closing? }
  predicate Initialising(pc: Pc) { pc.NetInit? || pc.CgroupInit? || pc.UserInit? || pc.Signalling? }

  /** How the parent's variables go with where it is; once it is dead nothing is open. */
  predicate Shape(w: World) {
    if w.pc.Dead? then !w.held && w.fds == {} else
    && (w.listen.Some? ==> !w.pc.Boot?)
    && (w.conn.Some? ==> Calling(w.pc))
    && (w.cfd.Some? <==> w.pc.Cloning? || w.pc.Cloned?)
    && (w.pfd.Some? <==> Paired(w.pc))
    && (w.unlisted ==> w.held && (w.pc.Cloned? || w.pc.Adding?))
    && (w.held ==> Paired(w.pc) && !w.pc.Cloning?)
    && (w.pc.Adding? || (w.pc.Cloned? && w.held) ==> w.unlisted)
    && (Initialising(w.pc) ==> w.held)
    && (w.unremoved <==> w.pc.Reaped? || w.pc.Removing?)
  }

  lemma ShapeEnv(w: World, m: EnvMove)
    requires Shape(w) && EnvEnabled(w, m)
    ensures Shape(EnvApply(w, m))
  {
  }

  lemma ShapeLoop(c: Config, w: World, m: LoopMove)
    requires Shape(w) && LoopEnabled(c, w, m)
    ensures Shape(LoopApply(c, w, m))
  {
  }

  lemma ShapeRun(c: Config, w: World, m: RunMove)
    requires Shape(w) && RunEnabled(c, w, m)
    ensures Shape(RunApply(c, w, m))
  {
  }

  lemma ShapeInit(c: Config, w: World, m: InitMove)
    requires Shape(w) && InitEnabled(c, w, m)
    ensures Shape(InitApply(c, w, m))
  {
  }

  lemma ShapeReap(c: Config, w: World, m: ReapMove)
    requires Shape(w) && ReapEnabled(w, m)
    ensures Shape(ReapApply(c, w, m))
  {
  }

  lemma ShapeSweep(c: Config, w: World, m: SweepMove)
    requires Shape(w) && SweepEnabled(c, w, m)
    ensures Shape(SweepApply(c, w, m))
  {
  }

  // ---- The table -------------------------------------------------------------------------------

  function Pids(t: seq<Entry>): set<Pid> { set e | e in t :: e.pid }

  predicate PidsDistinct(t: seq<Entry>) {
    forall i, j :: 0 <= i < j < |t| ==> t[i].pid != t[j].pid
  }

  function Only(b: bool, pid: Pid): set<Pid> { if b then {pid} else {} }

  /** The table lists exactly the children not waited for, once each: all but the one just made, and
      besides them the one just waited for. */
  predicate TableAgrees(w: World) {
    && PidsDistinct(w.table)
    && (w.unlisted ==> w.pid !in Pids(w.table))
    && (w.unremoved ==> w.pid in Pids(w.table))
    && w.kids.Keys == (Pids(w.table) - Only(w.unremoved, w.pid)) + Only(w.unlisted, w.pid)
  }

  lemma DropPids(t: seq<Entry>, k: nat)
    requires k < |t| && PidsDistinct(t)
    ensures PidsDistinct(Drop(t, k)) && Pids(Drop(t, k)) == Pids(t) - {t[k].pid}
  {
    var u := Drop(t, k);
    assert forall j :: 0 <= j < |u| ==> u[j] == t[if j < k then j else j + 1];
    forall pid | pid in Pids(t) - {t[k].pid}
      ensures pid in Pids(u)
    {
      var j :| 0 <= j < |t| && t[j].pid == pid;
      assert u[if j < k then j else j - 1] == t[j];
    }
  }

  lemma ConsPids(e: Entry, t: seq<Entry>)
    ensures Pids([e] + t) == Pids(t) + {e.pid}
  {
    var u := [e] + t;
    assert u[0] == e && u[1..] == t;
  }

  lemma TableEnv(w: World, m: EnvMove)
    requires TableAgrees(w) && EnvEnabled(w, m)
    ensures TableAgrees(EnvApply(w, m))
  {
  }

  lemma TableLoop(c: Config, w: World, m: LoopMove)
    requires TableAgrees(w) && LoopEnabled(c, w, m)
    ensures TableAgrees(LoopApply(c, w, m))
  {
  }

  lemma TableRun(c: Config, w: World, m: RunMove)
    requires Shape(w) && TableAgrees(w) && RunEnabled(c, w, m)
    ensures TableAgrees(RunApply(c, w, m))
  {
    if m.Add? {
      ConsPids(Entry(w.pid, w.now, m.addr, m.probe), w.table);
    }
  }

  lemma TableInit(c: Config, w: World, m: InitMove)
    requires TableAgrees(w) && InitEnabled(c, w, m)
    ensures TableAgrees(InitApply(c, w, m))
  {
  }

  lemma TableReap(c: Config, w: World, m: ReapMove)
    requires Shape(w) && TableAgrees(w) && ReapEnabled(w, m)
    ensures TableAgrees(ReapApply(c, w, m))
  {
    if m.Remove? {
      DropPids(w.table, m.k);
    }
  }

  lemma TableSweep(c: Config, w: World, m: SweepMove)
    requires TableAgrees(w) && SweepEnabled(c, w, m)
    ensures TableAgrees(SweepApply(c, w, m))
  {
  }

  // ---- The handshake ---------------------------------------------------------------------------

  predicate Cleared(k: Child) { k.net && k.cgroup && k.user }

  /** A child goes on to contain itself only with the done byte, which is only sent after all three
      parent-side initialisations; and the parent keeps no socket end but the current child's. */
  predicate HandshakeSafe(w: World) {
    && (forall pid :: pid in w.kids ==>
          var k := w.kids[pid];
          && (k.stage.Contained? ==> k.sent)
          && (k.sent ==> Cleared(k))
          && (k.peerOpen ==> w.held && w.pid == pid))
    && (w.held ==>
          && w.pid in w.kids
          && (!w.pc.Closing? ==> !w.kids[w.pid].sent)
          && (w.pc.CgroupInit? ==> w.kids[w.pid].net)
          && (w.pc.UserInit? ==> w.kids[w.pid].net && w.kids[w.pid].cgroup)
          && (w.pc.Signalling? ==> Cleared(w.kids[w.pid])))
  }

  lemma HandshakeEnv(w: World, m: EnvMove)
    requires HandshakeSafe(w) && EnvEnabled(w, m)
    ensures HandshakeSafe(EnvApply(w, m))
  {
  }

  lemma HandshakeLoop(c: Config, w: World, m: LoopMove)
    requires Shape(w) && HandshakeSafe(w) && LoopEnabled(c, w, m)
    ensures HandshakeSafe(LoopApply(c, w, m))
  {
  }

  lemma HandshakeRun(c: Config, w: World, m: RunMove)
    requires Shape(w) && HandshakeSafe(w) && RunEnabled(c, w, m)
    ensures HandshakeSafe(RunApply(c, w, m))
  {
  }

  lemma HandshakeInit(c: Config, w: World, m: InitMove)
    requires Shape(w) && HandshakeSafe(w) && InitEnabled(c, w, m)
    ensures HandshakeSafe(InitApply(c, w, m))
  {
  }

  lemma HandshakeReap(c: Config, w: World, m: ReapMove)
    requires Shape(w) && HandshakeSafe(w) && ReapEnabled(w, m)
    ensures HandshakeSafe(ReapApply(c, w, m))
  {
  }

  lemma HandshakeSweep(c: Config, w: World, m: SweepMove)
    requires Shape(w) && HandshakeSafe(w) && SweepEnabled(c, w, m)
    ensures HandshakeSafe(SweepApply(c, w, m))
  {
  }

  // ---- Descriptors -----------------------------------------------------------------------------

  function Has(o: Option<Fd>, f: Fd): nat { if o == Some(f) then 1 else 0 }

  function TableHas(t: seq<Entry>, f: Fd): nat {
    if t == [] then 0 else Has(t[0].fd, f) + TableHas(t[1..], f)
  }

  /** How many holders a descriptor has: the initial ones, the listening socket, the table's entries
      whose probe opened, and the current call. */
  function Holders(c: Config, w: World, f: Fd): nat {
    (if f in c.base then 1 else 0) + Has(w.listen, f) + TableHas(w.table, f)
    + Has(w.conn, f) + Has(w.cfd, f) + Has(w.pfd, f)
  }

  predicate FdConserved(c: Config, w: World, f: Fd) {
    if w.pc.Dead? then f !in w.fds else Holders(c, w, f) == if f in w.fds then 1 else 0
  }

  /** Descriptors are conserved: each open one has exactly one holder, each closed one none; the end of
      the supervisor closes all. */
  ghost predicate FdsConserved(c: Config, w: World) {
    forall f: Fd :: FdConserved(c, w, f)
  }

  lemma {:induction false} DropHas(t: seq<Entry>, k: nat, f: Fd)
    requires k < |t|
    ensures TableHas(t, f) == TableHas(Drop(t, k), f) + Has(t[k].fd, f)
  {
    if k > 0 {
      DropHas(t[1..], k - 1, f);
      assert Drop(t, k) == [t[0]] + Drop(t[1..], k - 1);
    } else {
      assert Drop(t, k) == t[1..];
    }
  }

  lemma FdsLoop(c: Config, w: World, m: LoopMove, f: Fd)
    requires Shape(w) && FdConserved(c, w, f) && LoopEnabled(c, w, m)
    ensures FdConserved(c, LoopApply(c, w, m), f)
  {
  }

  lemma FdsRun(c: Config, w: World, m: RunMove, f: Fd)
    requires Shape(w) && FdConserved(c, w, f) && RunEnabled(c, w, m)
    ensures FdConserved(c, RunApply(c, w, m), f)
  {
    assert m.Add? ==> RunApply(c, w, m).table[1..] == w.table;
  }

  lemma FdsInit(c: Config, w: World, m: InitMove, f: Fd)
    requires FdConserved(c, w, f) && InitEnabled(c, w, m)
    ensures FdConserved(c, InitApply(c, w, m), f)
  {
  }

  lemma FdsReap(c: Config, w: World, m: ReapMove, f: Fd)
    requires FdConserved(c, w, f) && ReapEnabled(w, m)
    ensures FdConserved(c, ReapApply(c, w, m), f)
  {
    if m.Remove? {
      DropHas(w.table, m.k, f);
    }
  }

  // ---- Cgroup directories ----------------------------------------------------------------------

  /** A cgroup directory belongs to a listed child, unless its removal failed. */
  predicate CgroupsOwned(c: Config, w: World) {
    && (c.cgroupMemMax == 0 ==> w.cgroups == {})
    && w.cgroups <= Pids(w.table) + w.leaked
    && (w.pc.Removing? && w.pid in w.cgroups ==> w.pid in w.leaked)
    && (w.pc.NetInit? || w.pc.CgroupInit? ==> w.pid in Pids(w.table))
  }

  lemma CgroupsEnv(c: Config, w: World, m: EnvMove)
    requires CgroupsOwned(c, w) && EnvEnabled(w, m)
    ensures CgroupsOwned(c, EnvApply(w, m))
  {
  }

  lemma CgroupsLoop(c: Config, w: World, m: LoopMove)
    requires CgroupsOwned(c, w) && LoopEnabled(c, w, m)
    ensures CgroupsOwned(c, LoopApply(c, w, m))
  {
  }

  lemma CgroupsRun(c: Config, w: World, m: RunMove)
    requires CgroupsOwned(c, w) && RunEnabled(c, w, m)
    ensures CgroupsOwned(c, RunApply(c, w, m))
  {
    if m.Add? {
      ConsPids(Entry(w.pid, w.now, m.addr, m.probe), w.table);
    }
  }

  lemma CgroupsInit(c: Config, w: World, m: InitMove)
    requires CgroupsOwned(c, w) && InitEnabled(c, w, m)
    ensures CgroupsOwned(c, InitApply(c, w, m))
  {
  }

  lemma CgroupsReap(c: Config, w: World, m: ReapMove)
    requires CgroupsOwned(c, w) && PidsDistinct(w.table) && ReapEnabled(w, m)
    ensures CgroupsOwned(c, ReapApply(c, w, m))
  {
    if m.Remove? {
      DropPids(w.table, m.k);
    }
  }

  lemma CgroupsSweep(c: Config, w: World, m: SweepMove)
    requires CgroupsOwned(c, w) && SweepEnabled(c, w, m)
    ensures CgroupsOwned(c, SweepApply(c, w, m))
  {
  }

  // ---- Signals ---------------------------------------------------------------------------------

  /** What a time-limit sweep owes: SIGCONT then SIGKILL to each entry over the limit, in table order. */
  function Due(c: Config, t: seq<Entry>, at: int): seq<Sent> {
    if t == [] then []
    else
      var e := t[|t| - 1];
      Due(c, t[..|t| - 1], at) + if Over(c, e, at) then [Sent(e.pid, SIGCONT), Sent(e.pid, SIGKILL)] else []
  }

  function Kills(t: seq<Entry>): seq<Sent> {
    if t == [] then [] else Kills(t[..|t| - 1]) + [Sent(t[|t| - 1].pid, SIGKILL)]
  }

  /** The signals sent since the current or latest sweep began are exactly those it owes so far. */
  predicate SignalsExact(c: Config, w: World) {
    && w.mark <= |w.signals|
    && var sent := w.signals[w.mark..];
    && (w.pc.Idle? ==> sent == Due(c, w.table, w.at))
    && (w.pc.Sweeping? ==> w.i <= |w.table| && sent == Due(c, w.table[..w.i], w.at))
    && (w.pc.SweepKill? ==> w.i < |w.table| && Over(c, w.table[w.i], w.at) &&
                            sent == Due(c, w.table[..w.i], w.at) + [Sent(w.table[w.i].pid, SIGCONT)])
    && (w.pc.Killing? ==> w.i <= |w.table| && sent == Kills(w.table[..w.i]))
    && (w.pc.Stopped? ==> sent == Kills(w.table))
    && (w.pc.Boot? ==> sent == [] && w.table == [])
  }

  lemma SignalsEnv(c: Config, w: World, m: EnvMove)
    requires SignalsExact(c, w) && EnvEnabled(w, m)
    ensures SignalsExact(c, EnvApply(w, m))
  {
  }

  lemma SignalsLoop(c: Config, w: World, m: LoopMove)
    requires SignalsExact(c, w) && LoopEnabled(c, w, m)
    ensures SignalsExact(c, LoopApply(c, w, m))
  {
    if m.KillOne? {
      assert w.table[..w.i + 1][..w.i] == w.table[..w.i];
    } else if m.KillEnd? {
      assert w.table[..w.i] == w.table;
    }
  }

  lemma SignalsRun(c: Config, w: World, m: RunMove)
    requires SignalsExact(c, w) && RunEnabled(c, w, m)
    ensures SignalsExact(c, RunApply(c, w, m))
  {
  }

  lemma SignalsInit(c: Config, w: World, m: InitMove)
    requires SignalsExact(c, w) && InitEnabled(c, w, m)
    ensures SignalsExact(c, InitApply(c, w, m))
  {
  }

  lemma SignalsReap(c: Config, w: World, m: ReapMove)
    requires SignalsExact(c, w) && ReapEnabled(w, m)
    ensures SignalsExact(c, ReapApply(c, w, m))
  {
  }

  lemma DueNext(c: Config, t: seq<Entry>, i: nat, at: int)
    requires i < |t|
    ensures Due(c, t[..i + 1], at)
         == Due(c, t[..i], at) + if Over(c, t[i], at) then [Sent(t[i].pid, SIGCONT), Sent(t[i].pid, SIGKILL)] else []
  {
    assert t[..i + 1][..i] == t[..i];
  }

  lemma Appended(s: seq<Sent>, x: Sent, mark: nat)
    requires mark <= |s|
    ensures (s + [x])[mark..] == s[mark..] + [x]
  {
  }

  lemma SignalsSweep(c: Config, w: World, m: SweepMove)
    requires SignalsExact(c, w) && SweepEnabled(c, w, m)
    ensures SignalsExact(c, SweepApply(c, w, m))
  {
    match m
    case SweepEnd =>
      assert w.table[..w.i] == w.table;
    case Skip =>
      DueNext(c, w.table, w.i, w.at);
    case SendSigcont =>
      Appended(w.signals, Sent(w.table[w.i].pid, SIGCONT), w.mark);
    case SendSigkill =>
      var x, y := Sent(w.table[w.i].pid, SIGCONT), Sent(w.table[w.i].pid, SIGKILL);
      DueNext(c, w.table, w.i, w.at);
      Appended(w.signals, y, w.mark);
      assert Due(c, w.table[..w.i], w.at) + [x] + [y] == Due(c, w.table[..w.i], w.at) + [x, y];
  }
}
