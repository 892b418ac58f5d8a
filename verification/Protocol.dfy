/** The supervisor as a transition system: one event per system call of the parent, interleaved with
    whatever its children, the clock and signals do. */
module Protocol {
  import opened Common

  type Pid = nat
  type Fd = nat
  type Addr = a: seq<nat> | |a| == 16 witness seq(16, _ => 0)  // an IPv6 address, byte by byte

  datatype Mode = ListenTcp | StandaloneOnce | StandaloneRerun
  datatype Config = Config(mode: Mode, maxConnsPerIp: nat, tlimit: int, cgroupMemMax: nat, base: set<Fd>)

  // What wait4 reports of a terminated child: exactly one of the two.
  datatype Status = Exited(code: nat) | Signalled(sig: nat)

  datatype Stage =
    | Fresh                  // cloned; still holds its own copy of the parent's socket end
    | Reading                // blocked in the read that ends the handshake
    | Contained              // went on to containContain
    | Zombie(status: Status)

  /** A child: where it is, whether the done byte is in its socket, whether the parent's end is open,
      and which parent-side initialisations have succeeded for it. */
  datatype Child = Child(stage: Stage, sent: bool, peerOpen: bool, net: bool, cgroup: bool, user: bool)

  const NEWBORN := Child(Fresh, false, true, false, false, false)

  // struct pids_t
  datatype Entry = Entry(pid: Pid, start: int, addr: Addr, fd: Option<Fd>)

  datatype Sig = SIGCONT | SIGKILL
  datatype Sent = Sent(pid: Pid, sig: Sig)

  /** Where the parent is. */
  datatype Pc =
    | Boot | Idle
    // subprocRunChild
    | Admitting | Pairing | Cloning | Cloned | Adding
    | NetInit | CgroupInit | UserInit | Signalling | Closing | Returned
    // subprocReap
    | Reaping | Reaped | Removing | Sweeping | SweepKill
    // subprocKillAll
    | Killing
    | Stopped     // after a fatal signal
    | Finished    // standalone-once has returned
    | Dead        // exit(1) or SIGPIPE

  datatype World = World(
    pc: Pc,
    table: seq<Entry>,           // nsjconf->pids
    // the kernel
    kids: map<Pid, Child>,       // children not yet waited for
    fds: set<Fd>,                // the supervisor's open descriptors
    cgroups: set<Pid>,           // per-child cgroup directories that exist
    now: int,
    fatal: bool,                 // nsjailSigFatal > 0
    // the parent's variables
    listen: Option<Fd>,          // the listening socket
    conn: Option<Fd>,            // the accepted connection
    peer: Addr,                  // its address as read at admission
    cfd: Option<Fd>,             // the child's and the parent's socket end, while open here
    pfd: Option<Fd>,
    pid: Pid,                    // the child being made, or being reaped
    unlisted: bool,              // that child exists but is not in the table yet
    held: bool,                  // the parent holds its end of that child's socket
    unremoved: bool,             // that child is waited for but still in the table
    status: Status,
    rv: int,                     // subprocReap's result
    at: int, i: nat,             // a sweep's time and position
    // history
    mark: nat,                   // signals sent before the current sweep
    signals: seq<Sent>,          // every signal sent, in order
    leaked: set<Pid>,            // cgroup directories whose removal failed
    born: nat,                   // children ever created
    reaps: nat,                  // calls of subprocReap that have returned
    last: Option<Status>)        // the status reaped last

  /** Moves of the children, the clock and signals. */
  datatype EnvMove =
    | Tick(d: nat)
    | FatalSignal
    | ChildReady(pid: Pid)
    | ChildReadsDone(pid: Pid)
    | ChildReadsEof(pid: Pid)
    | ChildEnds(pid: Pid, status: Status)

  /** Moves of the event loops of nsjail.c. */
  datatype LoopMove =
    | OpenListen(fd: Fd)
    | Accept(fd: Fd, addr: Addr)
    | AcceptFails
    | Start(addr: Addr)
    | Pause
    | Finish
    | KillBegin
    | KillOne
    | KillEnd

  /** Moves of subprocRunChild: its calls, with their answers. */
  datatype RunMove =
    | Reject
    | Admit
    | PairFails
    | Pair(cfd: Fd, pfd: Fd)
    | CloneFails
    | Clone(pid: Pid)
    | CloseChildEnd
    | Add(probe: Option<Fd>, addr: Addr)
    | CloseParentEnd
    | Return

  /** Moves of subprocInitParent. */
  datatype InitMove =
    | NetOk | NetFails
    | CgroupOk | CgroupFails(made: bool)
    | UserOk | UserFails
    | SendDone | SendFails | SendKills

  /** Moves of the reap loop of subprocReap. */
  datatype ReapMove =
    | WaitNone
    | Wait(pid: Pid)
    | CgroupFinish(ok: bool)
    | Remove(k: nat)
    | RemoveMissing

  /** Moves of the time-limit loop at the end of subprocReap. */
  datatype SweepMove = Skip | SendSigcont | SendSigkill | SweepEnd

  datatype Event =
    | Env(env: EnvMove) | Loop(loop: LoopMove) | Run(run: RunMove) | Setup(setup: InitMove)
    | Reap(reap: ReapMove) | Sweep(sweep: SweepMove)

  predicate Over(c: Config, e: Entry, at: int) {
    c.tlimit != 0 && at - e.start >= c.tlimit
  }

  /** The entries that netLimitConns counts: it compares one byte of the address. */
  function Conns(t: seq<Entry>, b: nat): (n: nat)
    ensures n <= |t|
  {
    if t == [] then 0 else (if t[0].addr[0] == b then 1 else 0) + Conns(t[1..], b)
  }

  predicate Limited(c: Config, t: seq<Entry>, peer: Addr) {
    c.maxConnsPerIp != 0 && Conns(t, peer[0]) >= c.maxConnsPerIp
  }

  /** The result code subprocReap makes of a status. */
  function Encode(s: Status): (r: int)
    ensures s.Exited? && s.code < 100 ==> r == s.code
    ensures s.Exited? && s.code >= 100 && s.code % 100 != 0 ==> 0 < r < 100 && (s.code - r) % 100 == 0
    ensures s.Exited? && s.code >= 100 && s.code % 100 == 0 ==> r == 1
  {
    match s
    case Exited(code) => if code % 100 == 0 && code != 0 then 1 else code % 100
    case Signalled(sig) => 100 + sig
  }

  function Fds(f: Option<Fd>): set<Fd> {
    if f.None? then {} else {f.value}
  }

  predicate Lists(t: seq<Entry>, pid: Pid) { exists e :: e in t && e.pid == pid }

  function Drop(t: seq<Entry>, i: nat): seq<Entry>
    requires i < |t|
  {
    t[..i] + t[i + 1..]
  }

  predicate Alive(kids: map<Pid, Child>, pid: Pid) { pid in kids && !kids[pid].stage.Zombie? }

  predicate InStage(kids: map<Pid, Child>, pid: Pid, s: Stage) { pid in kids && kids[pid].stage == s }

  function Init(c: Config, now: int): World {
    World(Boot, [], map[], c.base, {}, now, false,
          None, None, seq(16, _ => 0), None, None, 0, false, false, false, Exited(0), 0, 0, 0,
          0, [], {}, 0, 0, None)
  }

  predicate CanMove(kids: map<Pid, Child>, e: EnvMove) {
    match e
    case Tick(_) => true
    case FatalSignal => true
    case ChildReady(pid) => InStage(kids, pid, Fresh)
    case ChildReadsDone(pid) => InStage(kids, pid, Reading) && kids[pid].sent
    case ChildReadsEof(pid) => InStage(kids, pid, Reading) && !kids[pid].sent && !kids[pid].peerOpen
    case ChildEnds(pid, _) => Alive(kids, pid)
  }

  predicate EnvEnabled(w: World, e: EnvMove) { CanMove(w.kids, e) }

  predicate LoopEnabled(c: Config, w: World, e: LoopMove) {
    match e
    case OpenListen(fd) => w.pc == Boot && c.mode.ListenTcp? && fd !in w.fds
    case Accept(fd, _) => w.pc == Idle && c.mode.ListenTcp? && !w.fatal && fd !in w.fds
    case AcceptFails => w.pc == Idle && c.mode.ListenTcp? && !w.fatal
    case Start(_) => !c.mode.ListenTcp? && (w.pc == Boot || (w.pc == Idle && w.table == [] && c.mode.StandaloneRerun?))
    case Pause => !c.mode.ListenTcp? && w.pc == Idle && w.table != [] && !w.fatal
    case Finish => c.mode.StandaloneOnce? && w.pc == Idle && w.table == []
    case KillBegin => w.pc == Idle && w.fatal && (c.mode.ListenTcp? || w.table != [])
    case KillOne => w.pc == Killing && w.i < |w.table|
    case KillEnd => w.pc == Killing && w.i == |w.table|
  }

  predicate RunEnabled(c: Config, w: World, e: RunMove) {
    match e
    case Reject => w.pc == Admitting && Limited(c, w.table, w.peer)
    case Admit => w.pc == Admitting && !Limited(c, w.table, w.peer)
    case PairFails => w.pc == Pairing
    case Pair(cfd, pfd) => w.pc == Pairing && cfd != pfd && cfd !in w.fds && pfd !in w.fds
    case CloneFails => w.pc == Cloning
    case Clone(pid) => w.pc == Cloning && pid !in w.kids
    case CloseChildEnd => w.pc == Cloned
    case Add(probe, _) => w.pc == Adding && (probe.Some? ==> probe.value !in w.fds)
    case CloseParentEnd => w.pc == Closing
    case Return => w.pc == Returned
  }

  predicate InitEnabled(c: Config, w: World, e: InitMove) {
    match e
    case NetOk => w.pc == NetInit
    case NetFails => w.pc == NetInit
    case CgroupOk => w.pc == CgroupInit
    case CgroupFails(_) => w.pc == CgroupInit && c.cgroupMemMax != 0
    case UserOk => w.pc == UserInit
    case UserFails => w.pc == UserInit
    case SendDone => w.pc == Signalling && Alive(w.kids, w.pid)
    case SendFails => w.pc == Signalling
    case SendKills => w.pc == Signalling && !Alive(w.kids, w.pid)
  }

  predicate ReapEnabled(w: World, e: ReapMove) {
    match e
    case WaitNone => w.pc == Reaping && forall pid :: pid in w.kids ==> !w.kids[pid].stage.Zombie?
    case Wait(pid) => w.pc == Reaping && pid in w.kids && w.kids[pid].stage.Zombie?
    case CgroupFinish(_) => w.pc == Reaped
    case Remove(k) => w.pc == Removing && k < |w.table| && w.table[k].pid == w.pid && !Lists(w.table[..k], w.pid)
    case RemoveMissing => w.pc == Removing && !Lists(w.table, w.pid)
  }

  predicate SweepEnabled(c: Config, w: World, e: SweepMove) {
    match e
    case Skip => w.pc == Sweeping && w.i < |w.table| && !Over(c, w.table[w.i], w.at)
    case SendSigcont => w.pc == Sweeping && w.i < |w.table| && Over(c, w.table[w.i], w.at)
    case SendSigkill => w.pc == SweepKill && w.i < |w.table|
    case SweepEnd => w.pc == Sweeping && w.i == |w.table|
  }

  /** Which events can happen: the parent's next call with any of its answers, or any move around it.
      Kernel contracts: new descriptors and pids are unused, a zombie stays until it is waited for, and
      a read finds the end of the stream once the peer is closed. */
  predicate Enabled(c: Config, w: World, e: Event) {
    match e
    case Env(m) => EnvEnabled(w, m)
    case Loop(m) => LoopEnabled(c, w, m)
    case Run(m) => RunEnabled(c, w, m)
    case Setup(m) => InitEnabled(c, w, m)
    case Reap(m) => ReapEnabled(w, m)
    case Sweep(m) => SweepEnabled(c, w, m)
  }

  function SetStage(kids: map<Pid, Child>, pid: Pid, s: Stage): map<Pid, Child>
    requires pid in kids
  {
    kids[pid := kids[pid].(stage := s)]
  }

  function Moved(kids: map<Pid, Child>, e: EnvMove): map<Pid, Child>
    requires CanMove(kids, e)
  {
    match e
    case Tick(_) => kids
    case FatalSignal => kids
    case ChildReady(pid) => SetStage(kids, pid, Reading)
    case ChildReadsDone(pid) => SetStage(kids, pid, Contained)
    case ChildReadsEof(pid) => SetStage(kids, pid, Zombie(Exited(1)))
    case ChildEnds(pid, s) => SetStage(kids, pid, Zombie(s))
  }

  function Note(kids: map<Pid, Child>, pid: Pid, change: Child -> Child): map<Pid, Child> {
    if pid in kids then kids[pid := change(kids[pid])] else kids
  }

  function EnvApply(w: World, e: EnvMove): World
    requires EnvEnabled(w, e)
  {
    w.(kids := Moved(w.kids, e), now := w.now + (if e.Tick? then e.d else 0), fatal := w.fatal || e.FatalSignal?)
  }

  function Kill(w: World, sig: Sig): seq<Sent>
    requires w.i < |w.table|
  {
    w.signals + [Sent(w.table[w.i].pid, sig)]
  }

  function LoopApply(c: Config, w: World, e: LoopMove): World
    requires LoopEnabled(c, w, e)
  {
    match e
    case OpenListen(fd) => w.(pc := Idle, fds := w.fds + {fd}, listen := Some(fd))
    case Accept(fd, addr) => w.(pc := Admitting, fds := w.fds + {fd}, conn := Some(fd), peer := addr)
    case AcceptFails => w.(pc := Reaping, rv := 0)
    case Start(addr) => w.(pc := Admitting, peer := addr)
    case Pause => w.(pc := Reaping, rv := 0)
    case Finish => w.(pc := Finished)
    case KillBegin => w.(pc := Killing, i := 0, mark := |w.signals|)
    case KillOne => w.(i := w.i + 1, signals := Kill(w, SIGKILL))
    case KillEnd => w.(pc := Stopped, fds := w.fds - Fds(w.listen), listen := None)
  }

  function RunApply(c: Config, w: World, e: RunMove): World
    requires RunEnabled(c, w, e)
  {
    match e
    case Reject => w.(pc := Returned)
    case Admit => w.(pc := Pairing)
    case PairFails => w.(pc := Returned)
    case Pair(cfd, pfd) => w.(pc := Cloning, cfd := Some(cfd), pfd := Some(pfd), fds := w.fds + {cfd, pfd})
    case CloneFails => w.(pc := Cloned)
    case Clone(pid) => w.(pc := Cloned, pid := pid, unlisted := true, held := true,
                          kids := w.kids[pid := NEWBORN], born := w.born + 1)
    case CloseChildEnd => w.(pc := if w.unlisted then Adding else Closing, cfd := None, fds := w.fds - Fds(w.cfd))
    case Add(probe, addr) => w.(pc := NetInit, unlisted := false, fds := w.fds + Fds(probe),
                                table := [Entry(w.pid, w.now, addr, probe)] + w.table)
    case CloseParentEnd =>
      w.(pc := Returned, pfd := None, fds := w.fds - Fds(w.pfd), held := false,
         kids := if w.held then Released(w.kids, w.pid) else w.kids)
    case Return => w.(pc := Reaping, rv := 0, conn := None, fds := w.fds - Fds(w.conn))
  }

  function Released(kids: map<Pid, Child>, pid: Pid): map<Pid, Child> {
    Note(kids, pid, (k: Child) => k.(peerOpen := false))
  }

  /** The supervisor's own end: the kernel closes what it had open, its socket ends included. */
  function Ended(w: World): World {
    w.(pc := Dead, fds := {}, held := false, kids := Released(w.kids, w.pid))
  }

  function InitApply(c: Config, w: World, e: InitMove): World
    requires InitEnabled(c, w, e)
  {
    match e
    case NetOk => w.(pc := CgroupInit, kids := Note(w.kids, w.pid, (k: Child) => k.(net := true)))
    case NetFails => w.(pc := Closing)
    case CgroupOk => w.(pc := UserInit, kids := Note(w.kids, w.pid, (k: Child) => k.(cgroup := true)),
                        cgroups := if c.cgroupMemMax == 0 then w.cgroups else w.cgroups + {w.pid})
    case CgroupFails(made) => Ended(w).(cgroups := if made then w.cgroups + {w.pid} else w.cgroups)
    case UserOk => w.(pc := Signalling, kids := Note(w.kids, w.pid, (k: Child) => k.(user := true)))
    case UserFails => w.(pc := Closing)
    case SendDone => w.(pc := Closing, kids := Note(w.kids, w.pid, (k: Child) => k.(sent := true)))
    case SendFails => w.(pc := Closing)
    case SendKills => Ended(w)
  }

  function ReapApply(c: Config, w: World, e: ReapMove): World
    requires ReapEnabled(w, e)
  {
    match e
    case WaitNone => w.(pc := Sweeping, at := w.now, i := 0, mark := |w.signals|)
    case Wait(pid) =>
      var s := w.kids[pid].stage.status;
      w.(pc := Reaped, pid := pid, unremoved := true, status := s, kids := w.kids - {pid}, last := Some(s))
    case CgroupFinish(ok) =>
      if c.cgroupMemMax == 0 || w.pid !in w.cgroups then w.(pc := Removing)
      else if ok then w.(pc := Removing, cgroups := w.cgroups - {w.pid}, leaked := w.leaked - {w.pid})
      else w.(pc := Removing, leaked := w.leaked + {w.pid})
    case Remove(k) => w.(pc := Reaping, unremoved := false, rv := Encode(w.status),
                         table := Drop(w.table, k), fds := w.fds - Fds(w.table[k].fd))
    case RemoveMissing => w.(pc := Reaping, unremoved := false, rv := Encode(w.status))
  }

  function SweepApply(c: Config, w: World, e: SweepMove): World
    requires SweepEnabled(c, w, e)
  {
    match e
    case Skip => w.(i := w.i + 1)
    case SendSigcont => w.(pc := SweepKill, signals := Kill(w, SIGCONT))
    case SendSigkill => w.(pc := Sweeping, i := w.i + 1, signals := Kill(w, SIGKILL))
    case SweepEnd => w.(pc := Idle, reaps := w.reaps + 1)
  }

  function Apply(c: Config, w: World, e: Event): World
    requires Enabled(c, w, e)
  {
    match e
    case Env(m) => EnvApply(w, m)
    case Loop(m) => LoopApply(c, w, m)
    case Run(m) => RunApply(c, w, m)
    case Setup(m) => InitApply(c, w, m)
    case Reap(m) => ReapApply(c, w, m)
    case Sweep(m) => SweepApply(c, w, m)
  }

  /** A run is a sequence of events, each possible where it happens: where it leads from the initial
      world, or None if it is not a run. */
  function After(c: Config, start: int, log: seq<Event>): Option<World> {
    if log == [] then Some(Init(c, start))
    else
      match After(c, start, log[..|log| - 1])
      case None => None
      case Some(w) => if Enabled(c, w, log[|log| - 1]) then Some(Apply(c, w, log[|log| - 1])) else None
  }
}
