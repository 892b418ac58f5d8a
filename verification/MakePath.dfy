/** util.c: creating every directory on the way to a path, one component at a time. */
module MakePath {
  import opened Common

  const PATH_MAX := 4096

  type Dir = seq<string>  // the components from the root down

  /** Where a component leads from a directory. */
  function Enter(d: Dir, name: string): Dir {
    if name == "." then d
    else if name == ".." then (if d == [] then [] else d[..|d| - 1])
    else d + [name]
  }

  /** The directories passed through on a walk. */
  function Walk(d: Dir, names: seq<string>): (ds: set<Dir>) {
    if names == [] then {} else Walk(d, names[..|names| - 1]) + {End(d, names)}
  }

  function End(d: Dir, names: seq<string>): Dir {
    if names == [] then d else Enter(End(d, names[..|names| - 1]), names[|names| - 1])
  }

  function Prefixes(names: seq<string>): set<Dir> {
    set i | 1 <= i <= |names| :: names[..i]
  }

  /** Dot components: "." stays, ".." takes the last step back, and stays at the root. */
  lemma DotsStepBack(d: Dir, names: seq<string>, name: string)
    requires !Dotted(name)
    ensures End(d, names + ["."]) == End(d, names)
    ensures End(d, names + [name, ".."]) == End(d, names)
    ensures End([], [".."]) == []
  {
    assert (names + ["."])[..|names|] == names;
    assert (names + [name, ".."])[..|names| + 1] == names + [name] && (names + [name])[..|names|] == names;
    assert [".."][..0] == [];
    EnterPlain(End(d, names), name);
    assert "."[0] == ".."[0] && |"."| != |".."|;
  }

  predicate Dotted(name: string) { name == "." || name == ".." }

  predicate NoDots(names: seq<string>) { forall i :: 0 <= i < |names| ==> !Dotted(names[i]) }

  lemma EnterPlain(d: Dir, name: string)
    requires !Dotted(name)
    ensures Enter(d, name) == d + [name]
  {
  }

  /** Without dot components a walk from the root passes through exactly the nonempty prefixes. */
  lemma {:induction false} PlainWalk(names: seq<string>)
    requires NoDots(names)
    ensures End([], names) == names && Walk([], names) == Prefixes(names)
  {
    if names != [] {
      var m := |names| - 1;
      PlainWalk(names[..m]);
      EnterPlain(names[..m], names[m]);
      PrefixesNext(names);
    }
  }

  lemma PrefixesNext(names: seq<string>)
    requires names != []
    ensures var m := |names| - 1;
            names[..m] + [names[m]] == names && Prefixes(names) == Prefixes(names[..m]) + {names}
  {
    var m := |names| - 1;
    assert names[..m + 1] == names;
    assert forall i :: 0 <= i <= m ==> names[..m][..i] == names[..i];
  }

  // Reading a path left to right: the components closed by a slash so far, and the open one.
  datatype Scan = Scan(closed: seq<string>, current: string)

  function Read(s: string): Scan {
    if s == [] then Scan([], [])
    else
      var before, c := Read(s[..|s| - 1]), s[|s| - 1];
      if c != '/' then Scan(before.closed, before.current + [c])
      else if before.current == [] then before
      else Scan(before.closed + [before.current], [])
  }

  /** The nonempty components that are followed by a slash. */
  function Slashed(s: string): seq<string> { Read(s).closed }

  /** What fits the path buffer. */
  function Cut(s: string): (t: string)
    ensures t <= s && |t| <= 4095 && (|t| < 4095 ==> t == s)
  {
    if |s| < PATH_MAX then s else s[..PATH_MAX - 1]
  }

  lemma {:induction false} ReadRun(s: string, from: nat, to: nat)
    requires from <= to <= |s| && Read(s[..from]).current == []
    requires forall j :: from <= j < to ==> s[j] != '/'
    ensures Read(s[..to]) == Scan(Read(s[..from]).closed, s[from..to])
  {
    if from < to {
      ReadRun(s, from, to - 1);
      assert s[..to][..to - 1] == s[..to - 1];
      assert s[from..to] == s[from..to - 1] + [s[to - 1]];
    }
  }

  lemma ReadSlash(s: string, at: nat)
    requires at < |s| && s[at] == '/'
    ensures var before := Read(s[..at]);
            Read(s[..at + 1]) == if before.current == [] then before else Scan(before.closed + [before.current], [])
  {
    assert s[..at + 1][..at] == s[..at];
  }

  predicate NoSlash(s: string) { forall j :: 0 <= j < |s| ==> s[j] != '/' }

  function Slashes(n: nat): (s: string)
    ensures |s| == n && forall j :: 0 <= j < n ==> s[j] == '/'
  {
    seq(n, _ => '/')
  }

  /** A run of slashes, then each name followed by a run of slashes. */
  function PathOf(lead: nat, names: seq<string>, gaps: seq<nat>): string
    requires |names| == |gaps|
  {
    if names == [] then Slashes(lead)
    else
      var m := |names| - 1;
      PathOf(lead, names[..m], gaps[..m]) + names[m] + Slashes(gaps[m])
  }

  lemma {:induction false} ReadSlashes(s: string, from: nat, to: nat)
    requires from <= to <= |s| && Read(s[..from]).current == [] && forall j :: from <= j < to ==> s[j] == '/'
    ensures Read(s[..to]) == Read(s[..from])
  {
    if from < to {
      ReadSlashes(s, from, to - 1);
      ReadSlash(s, to - 1);
    }
  }

  // The name, then its slashes.
  lemma ReadName(base: string, name: string)
    requires NoSlash(name) && Read(base).current == []
    ensures Read(base + name) == Scan(Read(base).closed, name)
  {
    var s := base + name;
    assert s[..|base|] == base && s[|base|..] == name && s[..|s|] == s;
    assert forall j :: |base| <= j < |s| ==> s[j] == name[j - |base|];
    ReadRun(s, |base|, |s|);
  }

  lemma ReadGap(base: string, gap: nat)
    requires gap > 0 && Read(base).current != []
    ensures Read(base + Slashes(gap)) == Scan(Read(base).closed + [Read(base).current], [])
  {
    var s := base + Slashes(gap);
    assert s[..|base|] == base && s[..|s|] == s;
    assert forall j :: |base| <= j < |s| ==> s[j] == Slashes(gap)[j - |base|];
    ReadSlash(s, |base|);
    ReadSlashes(s, |base| + 1, |s|);
  }

  lemma {:induction false} ReadPath(lead: nat, names: seq<string>, gaps: seq<nat>)
    requires |names| == |gaps| && forall i :: 0 <= i < |names| ==> names[i] != [] && NoSlash(names[i]) && gaps[i] > 0
    ensures Read(PathOf(lead, names, gaps)) == Scan(names, [])
  {
    if names == [] {
      var s := Slashes(lead);
      assert s[..0] == [] && s[..lead] == s;
      ReadSlashes(s, 0, lead);
    } else {
      var m := |names| - 1;
      ReadPath(lead, names[..m], gaps[..m]);
      ReadName(PathOf(lead, names[..m], gaps[..m]), names[m]);
      ReadGap(PathOf(lead, names[..m], gaps[..m]) + names[m], gaps[m]);
    }
  }

  /** The components that the walk makes are the names between slashes, however long the runs of slashes;
      what follows the last slash is not one of them. */
  lemma SlashedIs(lead: nat, names: seq<string>, gaps: seq<nat>, last: string)
    requires |names| == |gaps| && forall i :: 0 <= i < |names| ==> names[i] != [] && NoSlash(names[i]) && gaps[i] > 0
    requires NoSlash(last)
    ensures Slashed(PathOf(lead, names, gaps) + last) == names
  {
    ReadPath(lead, names, gaps);
    ReadName(PathOf(lead, names, gaps), last);
  }

  class FileSystem {
    var dirs: set<Dir>
    var files: set<Dir>              // what is not a directory
    var handles: map<nat, Dir>       // open directory descriptors

    constructor ()
      ensures Valid() && dirs == {[]} && files == {} && handles == map[]
    {
      dirs, files, handles := {[]}, {}, map[];
    }

    ghost predicate Valid()
      reads this
    {
      && [] in dirs && dirs !! files
      && (forall d :: d in dirs && d != [] ==> d[..|d| - 1] in dirs)
      && (forall h :: h in handles ==> handles[h] in dirs)
    }

    // mkdirat: false with an error other than EEXIST
    method MkdirAt(h: nat, name: string, fails: bool) returns (ok: bool)
      requires Valid() && h in handles && name != []
      modifies this`dirs
      ensures Valid() && ok == (!fails || Enter(handles[h], name) in old(dirs) + files)
      ensures var d := Enter(handles[h], name); dirs == old(dirs) + if ok && d !in files then {d} else {}
    {
      var d := Enter(handles[h], name);
      if d in dirs || d in files {
        return true;
      }
      if fails {
        return false;
      }
      dirs := dirs + {d};
      return true;
    }

    // openat with O_DIRECTORY
    method OpenDir(d: Dir, fails: bool) returns (r: (bool, nat))
      requires Valid()
      modifies this`handles
      ensures Valid() && r.0 == (!fails && d in dirs)
      ensures r.0 ==> r.1 !in old(handles) && handles == old(handles)[r.1 := d]
      ensures !r.0 ==> handles == old(handles)
    {
      if fails || d !in dirs {
        return (false, 0);
      }
      UnusedExists(handles.Keys);
      var h: nat :| h !in handles.Keys;
      handles := handles[h := d];
      return (true, h);
    }

    method Close(h: nat)
      requires Valid() && h in handles
      modifies this`handles
      ensures Valid() && handles == old(handles) - {h}
    {
      handles := handles - {h};
    }
  }

  /** The first slash from `from` on, or the final NUL. */
  method Strchr(path: array<char>, from: nat, ghost end: nat) returns (at: nat)
    requires from <= end < path.Length && path[end] == NUL
    requires forall j :: from <= j < end ==> path[j] != NUL
    ensures from <= at <= end && (at < end ==> path[at] == '/')
    ensures path[at] == NUL <==> at == end
    ensures forall j :: from <= j < at ==> path[j] != '/'
  {
    at := from;
    while path[at] != '/' && path[at] != NUL
      invariant from <= at <= end
      invariant forall j :: from <= j < at ==> path[j] != '/'
      decreases end - at
    {
      at := at + 1;
    }
  }

  /** Which calls fail, for a reason of their own: opening the root, and mkdirat and openat for the n-th
      component. */
  datatype Faults = Faults(root: bool, mkdirs: set<nat>, opens: set<nat>)

  /** The last of these components cannot be entered: its openat fails, or something else than a directory
      is there, or it is not there yet and its mkdirat fails. */
  predicate Blocked(dirs: set<Dir>, files: set<Dir>, names: seq<string>, f: Faults)
    requires names != []
  {
    var m := |names| - 1;
    var d := End([], names);
    m in f.opens || d in files || (m in f.mkdirs && d !in dirs + Walk([], names[..m]))
  }

  /** None of them is blocked. */
  predicate Passable(dirs: set<Dir>, files: set<Dir>, names: seq<string>, f: Faults) {
    names != [] ==> Passable(dirs, files, names[..|names| - 1], f) && !Blocked(dirs, files, names, f)
  }

  lemma {:induction false} PassablePrefix(dirs: set<Dir>, files: set<Dir>, names: seq<string>, all: seq<string>,
                                          f: Faults)
    requires names <= all && Passable(dirs, files, all, f)
    ensures Passable(dirs, files, names, f)
    decreases |all|
  {
    if |names| < |all| {
      PassablePrefix(dirs, files, names, all[..|all| - 1], f);
    } else {
      assert names == all;
    }
  }

  /** A path is passable exactly when no prefix of it ends in a blocked component. */
  lemma {:induction false} PassableIff(dirs: set<Dir>, files: set<Dir>, names: seq<string>, f: Faults)
    ensures Passable(dirs, files, names, f) <==>
            forall n :: 1 <= n <= |names| ==> !Blocked(dirs, files, names[..n], f)
  {
    if names != [] {
      var m := |names| - 1;
      PassableIff(dirs, files, names[..m], f);
      assert names[..m + 1] == names;
      assert forall n :: 1 <= n <= m ==> names[..m][..n] == names[..n];
    }
  }

  lemma PassableNext(dirs: set<Dir>, files: set<Dir>, names: seq<string>, name: string, f: Faults)
    requires Passable(dirs, files, names, f)
    ensures var d := Enter(End([], names), name);
            Passable(dirs, files, names + [name], f) <==>
            |names| !in f.opens && d !in files && (|names| in f.mkdirs ==> d in dirs + Walk([], names))
  {
    WalkNext([], names, name);
    assert (names + [name])[..|names|] == names;
  }

  // One component: make it, open it, and let go of its parent. False with the parent's handle closed.
  method Descend(fs: FileSystem, h: nat, name: string, mkdirFails: bool, openFails: bool) returns (r: (bool, nat))
    requires fs.Valid() && h in fs.handles && name != []
    modifies fs
    ensures fs.Valid() && fs.files == old(fs.files)
    ensures var d := Enter(old(fs.handles)[h], name);
            && old(fs.dirs) <= fs.dirs <= old(fs.dirs) + {d}
            && (r.0 <==> !openFails && d !in fs.files && (mkdirFails ==> d in old(fs.dirs)))
            && (r.0 ==> d in fs.dirs && r.1 !in old(fs.handles) && fs.handles == (old(fs.handles) - {h})[r.1 := d])
            && (!r.0 ==> fs.handles == old(fs.handles) - {h})
  {
    var ok := fs.MkdirAt(h, name, mkdirFails);
    if !ok {
      fs.Close(h);
      return (false, 0);
    }
    r := fs.OpenDir(Enter(fs.handles[h], name), openFails);
    fs.Close(h);
  }

  lemma {:induction false} ReadPrefix(s: string, i: nat)
    requires i <= |s|
    ensures Read(s[..i]).closed <= Slashed(s)
  {
    if i < |s| {
      var m := |s| - 1;
      ReadPrefix(s[..m], i);
      assert s[..m][..i] == s[..i];
    } else {
      assert s[..i] == s;
    }
  }

  lemma {:induction false} WalkPrefix(d: Dir, names: seq<string>, all: seq<string>)
    requires names <= all
    ensures Walk(d, names) <= Walk(d, all)
    decreases |all|
  {
    if |names| < |all| {
      WalkPrefix(d, names, all[..|all| - 1]);
    } else {
      assert names == all;
    }
  }

  // Past a run of slashes; they close nothing.
  method SkipSlashes(path: array<char>, from: nat, ghost s: string) returns (at: nat)
    requires from <= |s| < path.Length && path[|s|] == NUL && Read(s[..from]).current == []
    requires forall j :: from <= j < |s| ==> path[j] == s[j]
    ensures from <= at <= |s| && path[at] != '/' && Read(s[..at]) == Read(s[..from])
  {
    at := from;
    while path[at] == '/'
      invariant from <= at <= |s| && Read(s[..at]) == Read(s[..from])
      decreases |s| - at
    {
      ReadSlash(s, at);
      at := at + 1;
    }
  }

  // The next component that a slash follows, cut off by a NUL in the path; none if there is no slash.
  method NextComponent(path: array<char>, from: nat, ghost s: string) returns (found: bool, name: string, next: nat)
    requires from <= |s| < path.Length && path[|s|] == NUL && NUL !in s && Read(s[..from]).current == []
    requires forall j :: from <= j < |s| ==> path[j] == s[j]
    modifies path
    ensures !found ==> Read(s[..from]).closed == Slashed(s)
    ensures found ==> from < next <= |s| && name != [] && Read(s[..next]) == Scan(Read(s[..from]).closed + [name], [])
    ensures found ==> path[|s|] == NUL && forall j :: next <= j < |s| ==> path[j] == s[j]
  {
    var curr := SkipSlashes(path, from, s);
    var at := Strchr(path, curr, |s|);
    ReadRun(s, curr, at);
    if path[at] == NUL {
      assert s[..at] == s;
      return false, [], 0;
    }
    assert path[curr..at] == s[curr..at];
    found, name, next := true, path[curr..at], at + 1;
    ReadSlash(s, at);
    path[at] := NUL;
  }

  lemma WithinWalk(s: string, i: nat)
    requires i <= |s|
    ensures Walk([], Read(s[..i]).closed) <= Walk([], Slashed(s))
  {
    ReadPrefix(s, i);
    WalkPrefix([], Read(s[..i]).closed, Slashed(s));
  }

  lemma WalkNext(d: Dir, names: seq<string>, name: string)
    ensures End(d, names + [name]) == Enter(End(d, names), name)
    ensures Walk(d, names + [name]) == Walk(d, names) + {Enter(End(d, names), name)}
  {
    assert (names + [name])[..|names|] == names;
  }

  lemma Released(others: map<nat, Dir>, h: nat, d: Dir)
    requires h !in others
    ensures others[h := d] - {h} == others
  {
  }

  // A component that the walk stops at.
  lemma Impassable(dirs: set<Dir>, files: set<Dir>, s: string, next: nat, names: seq<string>, f: Faults)
    requires next <= |s| && Read(s[..next]).closed == names && !Passable(dirs, files, names, f)
    ensures !Passable(dirs, files, Slashed(s), f)
  {
    ReadPrefix(s, next);
    if Passable(dirs, files, Slashed(s), f) {
      PassablePrefix(dirs, files, names, Slashed(s), f);
    }
  }

  // What the next component does to the walk.
  lemma Component(dirs: set<Dir>, files: set<Dir>, s: string, next: nat, names: seq<string>, name: string, f: Faults)
    requires next <= |s| && Read(s[..next]).closed == names + [name] && Passable(dirs, files, names, f)
    ensures End([], names + [name]) == Enter(End([], names), name)
    ensures Walk([], names + [name]) == Walk([], names) + {Enter(End([], names), name)} <= Walk([], Slashed(s))
    ensures var d := Enter(End([], names), name);
            if |names| !in f.opens && d !in files && (|names| in f.mkdirs ==> d in dirs + Walk([], names))
            then Passable(dirs, files, names + [name], f) else !Passable(dirs, files, Slashed(s), f)
  {
    WalkNext([], names, name);
    WithinWalk(s, next);
    PassableNext(dirs, files, names, name, f);
    if !Passable(dirs, files, names + [name], f) {
      Impassable(dirs, files, s, next, names + [name], f);
    }
  }

  // The walk itself, with the root directory open as `root`.
  method WalkDown(fs: FileSystem, path: array<char>, ghost s: string, root: nat, f: Faults) returns (ok: bool)
    requires fs.Valid() && root in fs.handles && fs.handles[root] == []
    requires |s| < path.Length && path[..|s|] == s && path[|s|] == NUL && NUL !in s
    modifies fs, path
    ensures fs.Valid() && fs.files == old(fs.files) && fs.handles == old(fs.handles) - {root}
    ensures ok <==> Passable(old(fs.dirs), fs.files, Slashed(s), f)
    ensures ok ==> fs.dirs == old(fs.dirs) + Walk([], Slashed(s))
    ensures old(fs.dirs) <= fs.dirs <= old(fs.dirs) + Walk([], Slashed(s))
  {
    ghost var others, names := fs.handles - {root}, [];
    var curr, h, n := 0, root, 0;
    assert s[..0] == [];
    while true
      invariant curr <= |s| && Read(s[..curr]) == Scan(names, []) && n == |names|
      invariant Passable(old(fs.dirs), fs.files, names, f)
      invariant forall j :: curr <= j < |s| ==> path[j] == s[j]
      invariant path[|s|] == NUL
      invariant fs.Valid() && fs.files == old(fs.files)
      invariant h !in others && fs.handles == others[h := End([], names)]
      invariant fs.dirs == old(fs.dirs) + Walk([], names)
      decreases |s| - curr
    {
      Released(others, h, End([], names));
      var found, name, next := NextComponent(path, curr, s);
      if !found {
        fs.Close(h);
        return true;
      }
      Component(old(fs.dirs), fs.files, s, next, names, name, f);
      var r := Descend(fs, h, name, n in f.mkdirs, n in f.opens);
      if !r.0 {
        return false;
      }
      h, names, curr, n := r.1, names + [name], next, n + 1;
    }
  }

  // snprintf of the path into its buffer
  method PathBuffer(dir: string) returns (path: array<char>)
    ensures fresh(path) && path.Length == PATH_MAX && path[..|Cut(dir)|] == Cut(dir) && path[|Cut(dir)|] == NUL
  {
    path := new char[PATH_MAX];
    var s := Cut(dir);
    forall j | 0 <= j < |s| { path[j] := s[j]; }
    path[|s|] := NUL;
  }

  method WalkFromRoot(fs: FileSystem, dir: string, f: Faults) returns (ok: bool)
    requires fs.Valid() && NUL !in dir
    modifies fs
    ensures fs.Valid() && fs.files == old(fs.files) && fs.handles == old(fs.handles)
    ensures ok <==> !f.root && Passable(old(fs.dirs), fs.files, Slashed(Cut(dir)), f)
    ensures ok ==> fs.dirs == old(fs.dirs) + Walk([], Slashed(Cut(dir)))
    ensures old(fs.dirs) <= fs.dirs <= old(fs.dirs) + Walk([], Slashed(Cut(dir)))
  {
    var root := fs.OpenDir([], f.root);
    if !root.0 {
      return false;
    }
    var path := PathBuffer(dir);
    Released(old(fs.handles), root.1, []);
    ok := WalkDown(fs, path, Cut(dir), root.1, f);
  }

  /** utilCreateDirRecursively: on success the directories are those there were and every directory that
      a walk over the components followed by a slash passes through: for a path that fits and has no dot
      components, every nonempty prefix of those. An absolute path is refused only if a call fails or
      something else than a directory is in the way, and that leaves some of them. No descriptor stays
      open on any way out. */
  method CreateDirRecursively(fs: FileSystem, dir: string, f: Faults) returns (ok: bool)
    requires fs.Valid() && NUL !in dir
    modifies fs
    ensures fs.Valid() && fs.files == old(fs.files) && fs.handles == old(fs.handles)
    ensures ok <==> dir != [] && dir[0] == '/' && !f.root && Passable(old(fs.dirs), fs.files, Slashed(Cut(dir)), f)
    ensures ok ==> fs.dirs == old(fs.dirs) + Walk([], Slashed(Cut(dir)))
    ensures ok && |dir| < PATH_MAX && NoDots(Slashed(dir)) ==> fs.dirs == old(fs.dirs) + Prefixes(Slashed(dir))
    ensures old(fs.dirs) <= fs.dirs <= old(fs.dirs) + Walk([], Slashed(Cut(dir)))
    ensures dir == [] || dir[0] != '/' ==> fs.dirs == old(fs.dirs)
  {
    if dir == [] || dir[0] != '/' {
      return false;
    }
    ok := WalkFromRoot(fs, dir, f);
    if NoDots(Slashed(Cut(dir))) {
      PlainWalk(Slashed(Cut(dir)));
    }
  }
}
