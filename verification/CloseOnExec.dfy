/** contain.c: which descriptors of the new process survive its execve. */
module CloseOnExec {
  import opened Common

  // What a descriptor refers to, and its FD_CLOEXEC flag.
  datatype Slot = Slot(file: nat, cloexec: bool)

  /** containPassFd */
  predicate PassFd(openFds: seq<nat>, fd: nat) {
    openFds != [] && (openFds[0] == fd || PassFd(openFds[1..], fd))
  }

  lemma {:induction false} PassFdIsMember(openFds: seq<nat>, fd: nat)
    ensures PassFd(openFds, fd) <==> fd in openFds
  {
    if openFds != [] {
      PassFdIsMember(openFds[1..], fd);
    }
  }

  /** The slot as the sweep wants it. */
  function Wanted(openFds: seq<nat>, fd: nat, s: Slot): Slot { Slot(s.file, !PassFd(openFds, fd)) }

  /** What execve leaves open. */
  function Survivors(slots: map<nat, Slot>): map<nat, nat> {
    map fd | fd in slots && !slots[fd].cloexec :: slots[fd].file
  }

  /** Every descriptor is as it was or as wanted. */
  predicate Partly(openFds: seq<nat>, was: map<nat, Slot>, got: map<nat, Slot>) {
    && got.Keys == was.Keys
    && forall fd :: fd in got ==> got[fd] == was[fd] || got[fd] == Wanted(openFds, fd, was[fd])
  }

  /** What readdir answers on /proc/self/fd: an error, a name that is no number, or a descriptor. */
  datatype Dirent = ReadError | OtherName | ListedFd(fd: nat)

  /** The answers that the /proc pass gets: whether the directory opens and as which descriptor, what is
      listed in it, and for which descriptors F_GETFD and F_SETFD fail. */
  datatype ProcAnswers = ProcAnswers(opens: bool, dir: nat, file: nat, listing: seq<Dirent>,
                                     getFails: set<nat>, setFails: set<nat>)

  /** The kernel's part: the directory gets an unused descriptor, and the open descriptors are listed, its own
      among them, in any order; all of them, unless there is an error. */
  predicate Truthful(a: ProcAnswers, open: set<nat>) {
    a.opens ==>
    && a.dir !in open
    && (forall i :: 0 <= i < |a.listing| && a.listing[i].ListedFd? ==> a.listing[i].fd in open + {a.dir})
    && (ReadError in a.listing || forall fd :: fd in open + {a.dir} ==> ListedFd(fd) in a.listing)
  }

  predicate EntryFails(a: ProcAnswers, e: Dirent) {
    e.ReadError? || (e.ListedFd? && (e.fd in a.getFails || e.fd in a.setFails))
  }

  /** No call of the /proc pass fails. */
  predicate ProcWorks(a: ProcAnswers) {
    a.opens && forall i :: 0 <= i < |a.listing| ==> !EntryFails(a, a.listing[i])
  }

  /** No F_SETFD of the naive pass fails; it tries the open descriptors below 1024. */
  predicate NaiveWorks(open: set<nat>, setFails: set<nat>) {
    forall fd :: fd in open && fd < 1024 ==> fd !in setFails
  }

  /** dup2: the copy never carries FD_CLOEXEC; on itself it changes nothing. */
  function Duped(slots: map<nat, Slot>, from: nat, to: nat): map<nat, Slot>
    requires from in slots
  {
    if from == to then slots else slots[to := Slot(slots[from].file, false)]
  }

  predicate Redirected(was: map<nat, Slot>, got: map<nat, Slot>, file: nat) {
    && got.Keys == was.Keys + {0, 1, 2}
    && got[0].file == file && got[1].file == file && got[2].file == file
    && forall fd :: fd in was && fd > 2 ==> got[fd] == was[fd]
  }

  /** Three descriptors put on 0, 1 and 2, one after the other; None where one of them is not open then. */
  function OnStdio(was: map<nat, Slot>, fdIn: nat, fdOut: nat, fdErr: nat): Option<map<nat, Slot>> {
    if fdIn !in was then None
    else
      var one := Duped(was, fdIn, 0);
      if fdOut !in one then None
      else
        var two := Duped(one, fdOut, 1);
        if fdErr !in two then None else Some(Duped(two, fdErr, 2))
  }

  /** One descriptor for all three, as listen mode and /dev/null have it, is all that matters: it must be
      open, and then 0, 1 and 2 are on its file and the others as they were. */
  lemma SameOnStdio(was: map<nat, Slot>, fd: nat)
    ensures var r := OnStdio(was, fd, fd, fd);
            if fd in was then r.Some? && Redirected(was, r.value, was[fd].file) else r.None?
  {
  }

  /** Three different ones end up on their own files exactly when none of them is overwritten before its
      turn with something else. */
  lemma DifferentOnStdio(was: map<nat, Slot>, fdIn: nat, fdOut: nat, fdErr: nat)
    requires fdIn in was && fdOut in was && fdErr in was
    ensures var r := OnStdio(was, fdIn, fdOut, fdErr);
            && r.Some? && r.value[0].file == was[fdIn].file
            && (r.value[1].file == was[fdOut].file <==> fdOut != 0 || was[0].file == was[fdIn].file)
            && (r.value[2].file == was[fdErr].file <==>
                  && (fdErr == 0 ==> was[0].file == was[fdIn].file)
                  && (fdErr == 1 ==> was[1].file == was[if fdOut == 0 then fdIn else fdOut].file))
  {
  }

  class Process {
    var slots: map<nat, Slot>
    const openFds: seq<nat>

    constructor (slots: map<nat, Slot>, openFds: seq<nat>)
      ensures this.slots == slots && this.openFds == openFds
    {
      this.slots, this.openFds := slots, openFds;
    }

    /** containMakeFdsCOENaive: descriptors below 1024; it fails exactly if setting a flag does. */
    method MakeFdsCoeNaive(setFails: set<nat>) returns (ok: bool)
      modifies this
      ensures ok <==> NaiveWorks(old(slots).Keys, setFails)
      ensures Partly(openFds, old(slots), slots)
      ensures forall fd :: fd in slots && fd >= 1024 ==> slots[fd] == old(slots)[fd]
      ensures ok ==> forall fd :: fd in slots && fd < 1024 ==> slots[fd] == Wanted(openFds, fd, old(slots)[fd])
    {
      for fd := 0 to 1024
        invariant slots.Keys == old(slots).Keys
        invariant forall f :: f in slots && f < fd ==> f !in setFails && slots[f] == Wanted(openFds, f, old(slots)[f])
        invariant forall f :: f in slots && f >= fd ==> slots[f] == old(slots)[f]
      {
        // F_GETFD fails exactly on a descriptor that is not open
        if fd in slots {
          if fd in setFails {
            return false;
          }
          slots := slots[fd := Slot(slots[fd].file, !PassFd(openFds, fd))];
        }
      }
      return true;
    }

    /** containMakeFdsCOEProc: what /proc/self/fd lists, in any order and with other names mixed in; it fails
        exactly if one of its calls does. The directory's own descriptor is listed too, and is closed at the
        end. */
    method MakeFdsCoeProc(a: ProcAnswers) returns (ok: bool)
      requires Truthful(a, slots.Keys)
      modifies this
      ensures ok <==> ProcWorks(a)
      ensures Partly(openFds, old(slots), slots)
      ensures ok ==> forall fd :: fd in slots ==> slots[fd] == Wanted(openFds, fd, old(slots)[fd])
    {
      if !a.opens {
        return false;
      }
      slots := slots[a.dir := Slot(a.file, true)];
      ok := Sweep(a);
      slots := slots - {a.dir};
    }

    // The readdir loop.
    method Sweep(a: ProcAnswers) returns (ok: bool)
      requires forall i :: 0 <= i < |a.listing| && a.listing[i].ListedFd? ==> a.listing[i].fd in slots
      requires ReadError in a.listing || forall fd :: fd in slots ==> ListedFd(fd) in a.listing
      modifies this
      ensures ok <==> forall i :: 0 <= i < |a.listing| ==> !EntryFails(a, a.listing[i])
      ensures Partly(openFds, old(slots), slots)
      ensures ok ==> forall fd :: fd in slots ==> slots[fd] == Wanted(openFds, fd, old(slots)[fd])
    {
      var k := 0;
      while k < |a.listing|
        invariant 0 <= k <= |a.listing| && Partly(openFds, old(slots), slots)
        invariant forall i :: 0 <= i < k ==> !EntryFails(a, a.listing[i])
        invariant forall i :: 0 <= i < k && a.listing[i].ListedFd? ==>
                    var fd := a.listing[i].fd; slots[fd] == Wanted(openFds, fd, old(slots)[fd])
      {
        var e := a.listing[k];
        if EntryFails(a, e) {
          return false;
        }
        if e.ListedFd? {
          slots := slots[e.fd := Slot(slots[e.fd].file, !PassFd(openFds, e.fd))];
        }
        k := k + 1;
      }
      AllListed(a, slots.Keys);
      return true;
    }

    /** containMakeFdsCOE: if the /proc pass works, exactly the passed descriptors survive; if it fails at
        any point and the naive pass works, the same holds below 1024, and above each descriptor has its
        old or its wanted flag. It fails exactly if a call of either pass does. */
    method MakeFdsCoe(a: ProcAnswers, setFails: set<nat>) returns (ok: bool, byProc: bool)
      requires Truthful(a, slots.Keys)
      modifies this
      ensures byProc == ProcWorks(a) && ok == (byProc || NaiveWorks(old(slots).Keys, setFails))
      ensures slots.Keys == old(slots).Keys
      ensures byProc ==> forall fd :: fd in slots ==> slots[fd] == Wanted(openFds, fd, old(slots)[fd])
      ensures ok ==> forall fd :: fd in slots && fd < 1024 ==> slots[fd] == Wanted(openFds, fd, old(slots)[fd])
      ensures Partly(openFds, old(slots), slots)
    {
      byProc := MakeFdsCoeProc(a);
      ok := byProc;
      if !byProc {
        ok := MakeFdsCoeNaive(setFails);
      }
    }

    method Dup2(from: nat, to: nat, fails: bool) returns (ok: bool)
      modifies this
      ensures ok <==> !fails && from in old(slots)
      ensures slots == if ok then Duped(old(slots), from, to) else old(slots)
    {
      if fails || from !in slots {
        return false;
      }
      if from != to {
        slots := slots[to := Slot(slots[from].file, false)];
      }
      return true;
    }

    /** containSetupFD, with the descriptor /dev/null opens as, if it does, and the dup2 targets for which
        the call fails: outside listen mode nothing changes unless the child is to be silent; otherwise the
        given descriptors, or /dev/null, go on 0, 1 and 2, in this order. */
    method SetupFd(listen: bool, silent: bool, fdIn: nat, fdOut: nat, fdErr: nat,
                   devNull: nat, nullFd: Option<nat>, dupFails: set<nat>) returns (ok: bool)
      requires nullFd.Some? ==> nullFd.value !in slots
      modifies this
      ensures !listen && !silent ==> ok && slots == old(slots)
      ensures listen ==> OnStdioOrFails(old(slots), slots, fdIn, fdOut, fdErr, dupFails, ok)
      ensures !listen && silent && nullFd.None? ==> !ok && slots == old(slots)
      ensures !listen && silent && nullFd.Some? ==>
                var f := nullFd.value;
                OnStdioOrFails(old(slots)[f := Slot(devNull, false)], slots, f, f, f, dupFails, ok)
    {
      var in0, out0, err0 := fdIn, fdOut, fdErr;
      if !listen {
        if !silent {
          return true;
        }
        if nullFd.None? {
          return false;
        }
        in0, out0, err0 := nullFd.value, nullFd.value, nullFd.value;
        slots := slots[in0 := Slot(devNull, false)];
      }
      ok := Redirect(in0, out0, err0, dupFails);
    }

    method Redirect(fdIn: nat, fdOut: nat, fdErr: nat, dupFails: set<nat>) returns (ok: bool)
      modifies this
      ensures OnStdioOrFails(old(slots), slots, fdIn, fdOut, fdErr, dupFails, ok)
    {
      ok := Dup2(fdIn, 0, 0 in dupFails);
      if !ok {
        return;
      }
      ok := Dup2(fdOut, 1, 1 in dupFails);
      if !ok {
        return;
      }
      ok := Dup2(fdErr, 2, 2 in dupFails);
    }
  }

  lemma AllListed(a: ProcAnswers, open: set<nat>)
    requires ReadError in a.listing || forall fd :: fd in open ==> ListedFd(fd) in a.listing
    requires forall i :: 0 <= i < |a.listing| ==> !EntryFails(a, a.listing[i])
    ensures forall fd :: fd in open ==> exists i :: 0 <= i < |a.listing| && a.listing[i] == ListedFd(fd)
  {
  }

  /** The redirection succeeds exactly if each descriptor is open at its turn and no dup2 fails. */
  predicate OnStdioOrFails(was: map<nat, Slot>, got: map<nat, Slot>, fdIn: nat, fdOut: nat, fdErr: nat,
                           dupFails: set<nat>, ok: bool) {
    var r := OnStdio(was, fdIn, fdOut, fdErr);
    && (ok <==> r.Some? && 0 !in dupFails && 1 !in dupFails && 2 !in dupFails)
    && (ok ==> got == r.value)
  }

  /** The new process of a connection succeeds exactly if the connection is open, no dup2 fails and one of the
      two passes works; with 0, 1 and 2 among the passed descriptors and the /proc pass working, what survives
      execve is 0, 1 and 2 on the connection, and the other passed ones. */
  method ConnectionProcess(p: Process, conn: nat, dupFails: set<nat>, a: ProcAnswers, setFails: set<nat>)
    returns (ok: bool, byProc: bool)
    requires {0, 1, 2} <= set fd | fd in p.openFds
    requires Truthful(a, p.slots.Keys + {0, 1, 2})
    modifies p
    ensures var setUp := conn in old(p.slots) && 0 !in dupFails && 1 !in dupFails && 2 !in dupFails;
            && byProc == (setUp && ProcWorks(a))
            && ok == (byProc || (setUp && NaiveWorks(old(p.slots).Keys + {0, 1, 2}, setFails)))
    ensures byProc ==>
              var left, was := Survivors(p.slots), old(p.slots);
              && left.Keys == set fd | fd in p.openFds && (fd in was || fd <= 2)
              && forall fd :: fd in left ==>
                   if fd <= 2 then left[fd] == was[conn].file else fd in was && left[fd] == was[fd].file
  {
    SameOnStdio(p.slots, conn);
    byProc := false;
    ok := p.SetupFd(true, false, conn, conn, conn, 0, None, dupFails);
    if !ok {
      return;
    }
    ok, byProc := p.MakeFdsCoe(a, setFails);
    forall fd: nat
      ensures PassFd(p.openFds, fd) <==> fd in p.openFds
    {
      PassFdIsMember(p.openFds, fd);
    }
    assert 0 in {0, 1, 2} && 1 in {0, 1, 2} && 2 in {0, 1, 2};
  }
}
