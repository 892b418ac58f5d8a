/** cmdline.c: the options that build the mount list and the id mappings. Arguments are C strings that
    the parser cuts in place and keeps pointers into; all tmpfs mounts share one options buffer. */
module Options {
  import opened Common

  const PATH_MAX := 4096

  /** A `const char *`: a literal, or a place in a buffer. */
  datatype CText = Lit(text: string) | Ptr(buf: array<char>, at: nat)

  /** Reading a C string from index `at` on gives `s`. */
  predicate Spells(b: seq<char>, at: nat, s: string)
    decreases |s|
  {
    && at < |b|
    && if s == [] then b[at] == NUL else s[0] != NUL && b[at] == s[0] && Spells(b, at + 1, s[1..])
  }

  // The same, at once.
  predicate Matches(b: seq<char>, at: nat, s: string) {
    at + |s| < |b| && b[at..at + |s|] == s && b[at + |s|] == NUL && NUL !in s
  }

  lemma {:induction false} SpellsIff(b: seq<char>, at: nat, s: string)
    ensures Spells(b, at, s) <==> Matches(b, at, s)
    decreases |s|
  {
    if s != [] {
      SpellsIff(b, at + 1, s[1..]);
      assert s == [s[0]] + s[1..];
      if at + |s| < |b| {
        assert b[at..at + |s|] == [b[at]] + b[at + 1..at + |s|];
      }
    }
  }

  lemma {:induction false} StillSpells(b: seq<char>, b': seq<char>, at: nat, s: string)
    requires Spells(b, at, s) && |b| == |b'|
    requires forall j :: at <= j <= at + |s| && j < |b| ==> b'[j] == b[j]
    ensures Spells(b', at, s)
    decreases |s|
  {
    if s != [] {
      StillSpells(b, b', at + 1, s[1..]);
    }
  }

  /** The C string that a pointer shows at present. */
  ghost predicate Reads(p: CText, s: string)
    reads match p case Ptr(b, _) => {b} case Lit(_) => {}
  {
    match p
    case Lit(t) => t == s
    case Ptr(b, at) => Spells(b[..], at, s)
  }

  // The first colon, or the length.
  function Colon(s: string): (i: nat)
    ensures i <= |s| && (i < |s| ==> s[i] == ':') && ':' !in s[..i]
  {
    if s == [] || s[0] == ':' then 0 else 1 + Colon(s[1..])
  }

  /** The two halves of a spec; without a colon each is the whole. */
  function Before(s: string): string { s[..Colon(s)] }
  function Behind(s: string): string { if Colon(s) < |s| then s[Colon(s) + 1..] else s }
  function Second(s: string): nat { if Colon(s) < |s| then Colon(s) + 1 else 0 }

  /** A spec rejoins to its text. */
  lemma Rejoins(s: string)
    ensures if ':' in s then Before(s) + ":" + Behind(s) == s && ':' !in Before(s) else Before(s) == s == Behind(s)
  {
    var i := Colon(s);
    if i == |s| {
      assert s[..i] == s;
    }
  }

  // The search loop: a colon or the end, whichever comes first.
  method SeekColon(buf: array<char>, at: nat, ghost s: string) returns (dest: nat)
    requires Reads(Ptr(buf, at), s)
    ensures dest == at + Colon(s) < buf.Length && buf[dest] == if Colon(s) < |s| then ':' else NUL
  {
    SpellsIff(buf[..], at, s);
    assert forall j :: 0 <= j < |s| ==> s[j] == buf[..][at..at + |s|][j] == buf[at + j];
    assert forall j :: 0 <= j < Colon(s) ==> s[j] == s[..Colon(s)][j];
    dest := at;
    while buf[dest] != ':' && buf[dest] != NUL
      invariant at <= dest <= at + Colon(s)
      decreases at + |s| - dest
    {
      dest := dest + 1;
    }
    assert buf[dest] == if dest - at < |s| then s[dest - at] else NUL;
  }

  lemma CutSpells(b: seq<char>, b': seq<char>, at: nat, s: string, i: nat)
    requires Spells(b, at, s) && i < |s| && at + i < |b| && b' == b[at + i := NUL]
    ensures Spells(b', at, s[..i]) && Spells(b', at + i + 1, s[i + 1..])
  {
    SpellsIff(b, at, s);
    SpellsIff(b', at, s[..i]);
    SpellsIff(b', at + i + 1, s[i + 1..]);
    assert b'[at..at + i] == s[..i] && b'[at + i + 1..at + |s|] == s[i + 1..];
  }

  /** cmdlineSplitStrByColon: cuts the string at its first colon; what the pointer showed is now two
      strings, and only that one byte has changed. */
  method SplitStrByColon(buf: array<char>, at: nat, ghost s: string) returns (second: nat)
    requires Reads(Ptr(buf, at), s)
    modifies buf
    ensures second == at + Second(s)
    ensures Reads(Ptr(buf, at), Before(s)) && Reads(Ptr(buf, second), Behind(s))
    ensures forall j :: 0 <= j < buf.Length && (j != at + Colon(s) || Colon(s) == |s|) ==> buf[j] == old(buf[j])
  {
    ghost var b := buf[..];
    var dest := SeekColon(buf, at, s);
    if buf[dest] == ':' {
      buf[dest] := NUL;
      second := dest + 1;
      CutSpells(b, buf[..], at, s, Colon(s));
    } else {
      assert s[..Colon(s)] == s;
      second := at;
    }
  }

  datatype Flag = MsBind | MsRec | MsRdonly

  // struct mounts_t and struct mapping_t
  datatype Mount = Mount(src: Option<CText>, dst: CText, fsType: string, options: CText, flags: set<Flag>)
  datatype Mapping = Mapping(insideId: CText, outsideId: CText, count: CText)

  datatype Opt =
    | Chroot(arg: array<char>)
    | Rw
    | BindRo(arg: array<char>)
    | Bind(arg: array<char>)
    | Tmpfs(arg: array<char>)
    | TmpfsSize(size: nat)
    | DisableProc
    | UidMapping(arg: array<char>)
    | GidMapping(arg: array<char>)
    | Mode(letter: char)
    | Usage       // -h, -?, and what is not an option
    | Other

  predicate HasArg(o: Opt) { o.Chroot? || o.BindRo? || o.Bind? || o.Tmpfs? || o.UidMapping? || o.GidMapping? }
  predicate IsBind(o: Opt) { o.BindRo? || o.Bind? }
  predicate IsMapping(o: Opt) { o.UidMapping? || o.GidMapping? }

  /** The option does not end the program with its usage text. */
  predicate Accepted(o: Opt) { !o.Usage? && (o.Mode? ==> o.letter in {'l', 'o', 'e', 'r'}) }

  // An option together with the text its argument had.
  datatype Given = Given(opt: Opt, text: string)

  /** What a mount amounts to, in texts. */
  datatype MountSpec = MountSpec(src: Option<string>, dst: string, fsType: string, options: string, flags: set<Flag>)

  function BindFlags(o: Opt): set<Flag> { {MsBind, MsRec} + if o.BindRo? then {MsRdonly} else {} }

  /** What snprintf with "size=%zu" leaves in the shared buffer. */
  function SizeText(n: nat): (s: string)
    ensures |s| < PATH_MAX && NUL !in s && s <= "size=" + Decimal(n)
    ensures |Decimal(n)| < 4091 ==> s == "size=" + Decimal(n)
  {
    var full := "size=" + Decimal(n);
    if |full| < PATH_MAX then full else full[..PATH_MAX - 1]
  }

  function LastSize(gs: seq<Given>): nat {
    if gs == [] then 4194304
    else if gs[|gs| - 1].opt.TmpfsSize? then gs[|gs| - 1].opt.size
    else LastSize(gs[..|gs| - 1])
  }

  /** The mounts the options ask for, in their order, all tmpfs ones with the given size. */
  function Asked(gs: seq<Given>, size: nat): seq<MountSpec> {
    if gs == [] then []
    else
      Asked(gs[..|gs| - 1], size) + AskedOne(gs[|gs| - 1], size)
  }

  function AskedOne(g: Given, size: nat): seq<MountSpec> {
    if IsBind(g.opt) then [MountSpec(Some(Before(g.text)), Behind(g.text), "", "", BindFlags(g.opt))]
    else if g.opt.Tmpfs? then [MountSpec(None, g.text, "tmpfs", SizeText(size), {})]
    else []
  }

  function BindMount(g: Given): Mount
    requires IsBind(g.opt)
  {
    Mount(Some(Ptr(g.opt.arg, 0)), Ptr(g.opt.arg, Second(g.text)), "", Lit(""), BindFlags(g.opt))
  }

  function MappingOf(g: Given): Mapping
    requires IsMapping(g.opt)
  {
    var second := Second(g.text);
    Mapping(Ptr(g.opt.arg, 0), Ptr(g.opt.arg, second), Ptr(g.opt.arg, second + Second(Behind(g.text))))
  }

  // The list elements themselves: pointers into the arguments and the shared buffer.
  function Linked(gs: seq<Given>, shared: array<char>): seq<Mount> {
    if gs == [] then []
    else
      var g := gs[|gs| - 1];
      Linked(gs[..|gs| - 1], shared) +
      if IsBind(g.opt) then [BindMount(g)]
      else if g.opt.Tmpfs? then [Mount(None, Ptr(g.opt.arg, 0), "tmpfs", Ptr(shared, 0), {})]
      else []
  }

  ghost predicate Shows(m: Mount, spec: MountSpec)
    reads Bufs(m)
  {
    && m.fsType == spec.fsType && m.flags == spec.flags
    && (m.src.Some? <==> spec.src.Some?) && (m.src.Some? ==> Reads(m.src.value, spec.src.value))
    && Reads(m.dst, spec.dst) && Reads(m.options, spec.options)
  }

  /** A mount list reads as a list of specs. */
  ghost predicate AllShow(ms: seq<Mount>, specs: seq<MountSpec>)
    reads set m, b | m in ms && b in Bufs(m) :: b
  {
    |ms| == |specs| && forall j :: 0 <= j < |ms| ==> Shows(ms[j], specs[j])
  }

  lemma ConsShows(m: Mount, spec: MountSpec, ms: seq<Mount>, specs: seq<MountSpec>)
    requires Shows(m, spec) && AllShow(ms, specs)
    ensures AllShow([m] + ms, [spec] + specs)
  {
  }

  ghost function TextBuf(p: CText): set<array<char>> { match p case Ptr(b, _) => {b} case Lit(_) => {} }

  ghost function Bufs(m: Mount): set<array<char>> {
    TextBuf(m.dst) + TextBuf(m.options) + if m.src.Some? then TextBuf(m.src.value) else {}
  }

  // What an argument's memory holds after its option has been handled.
  predicate CutText(g: Given, b: seq<char>) {
    && (IsBind(g.opt) ==> Spells(b, 0, Before(g.text)) && Spells(b, Second(g.text), Behind(g.text)))
    && (g.opt.Tmpfs? || g.opt.Chroot? ==> Spells(b, 0, g.text))
    && (IsMapping(g.opt) ==>
          && Spells(b, 0, Before(g.text))
          && Spells(b, Second(g.text), Before(Behind(g.text)))
          && Spells(b, Second(g.text) + Second(Behind(g.text)), Behind(Behind(g.text))))
  }

  ghost predicate Cut(g: Given)
    reads if HasArg(g.opt) then {g.opt.arg} else {}
  {
    HasArg(g.opt) ==> CutText(g, g.opt.arg[..])
  }

  lemma {:induction false} AllShown(gs: seq<Given>, shared: array<char>, size: nat)
    requires forall i :: 0 <= i < |gs| ==> Cut(gs[i])
    requires Reads(Ptr(shared, 0), SizeText(size))
    ensures AllShow(Linked(gs, shared), Asked(gs, size))
  {
    if gs != [] {
      AllShown(gs[..|gs| - 1], shared, size);
      assert Cut(gs[|gs| - 1]);
    }
  }

  // -U and -G: two cuts of the same argument.
  method SplitMapping(arg: array<char>, ghost t: string) returns (m: Mapping)
    requires Reads(Ptr(arg, 0), t)
    modifies arg
    ensures m == Mapping(Ptr(arg, 0), Ptr(arg, Second(t)), Ptr(arg, Second(t) + Second(Behind(t))))
    ensures Reads(m.insideId, Before(t)) && Reads(m.outsideId, Before(Behind(t))) && Reads(m.count, Behind(Behind(t)))
  {
    var second := SplitStrByColon(arg, 0, t);
    ghost var b := arg[..];
    var third := SplitStrByColon(arg, second, Behind(t));
    m := Mapping(Ptr(arg, 0), Ptr(arg, second), Ptr(arg, third));
    KeepsReading(b, arg[..], t, Behind(t));
  }

  lemma KeepsReading(b: seq<char>, b': seq<char>, t: string, rest: string)
    requires |b| == |b'| && Spells(b, 0, Before(t)) && rest == Behind(t)
    requires forall j :: 0 <= j < |b| && (j != Second(t) + Colon(rest) || Colon(rest) == |rest|) ==> b'[j] == b[j]
    ensures Spells(b', 0, Before(t))
  {
    StillSpells(b, b', 0, Before(t));
  }

  /** All the arguments are different memory, none of it the shared buffer. */
  ghost predicate Separate(gs: seq<Given>, shared: array<char>) {
    && (forall i :: 0 <= i < |gs| && HasArg(gs[i].opt) ==> gs[i].opt.arg != shared)
    && (forall i, j :: 0 <= i < j < |gs| && HasArg(gs[i].opt) && HasArg(gs[j].opt) ==> gs[i].opt.arg != gs[j].opt.arg)
  }

  ghost function Args(gs: seq<Given>): set<array<char>> {
    set i | 0 <= i < |gs| && HasArg(gs[i].opt) :: gs[i].opt.arg
  }

  ghost predicate Fresh(g: Given)
    reads if HasArg(g.opt) then {g.opt.arg} else {}
  {
    HasArg(g.opt) ==> Spells(g.opt.arg[..], 0, g.text)
  }

  function LastChroot(gs: seq<Given>): (r: Option<Given>)
    ensures r.Some? ==> r.value.opt.Chroot? && r.value in gs
  {
    if gs == [] then None
    else if gs[|gs| - 1].opt.Chroot? then Some(gs[|gs| - 1])
    else LastChroot(gs[..|gs| - 1])
  }

  predicate Asks(gs: seq<Given>, o: Opt) { exists g :: g in gs && g.opt == o }

  function Mappings(gs: seq<Given>, uid: bool): seq<Mapping> {
    if gs == [] then []
    else
      var g := gs[|gs| - 1];
      Mappings(gs[..|gs| - 1], uid) +
      if (uid && g.opt.UidMapping?) || (!uid && g.opt.GidMapping?)
      then [MappingOf(g)]
      else []
  }

  function RootSpec(gs: seq<Given>): MountSpec {
    var ro := if Asks(gs, Rw) then {} else {MsRdonly};
    match LastChroot(gs)
    case Some(g) => MountSpec(Some(g.text), "/", "", "", {MsBind, MsRec} + ro)
    case None => MountSpec(None, "/", "tmpfs", "", ro)
  }

  /** The whole mount list: the root first, then /proc unless disabled, then what was asked for, with the
      last tmpfs size wherever it was given. */
  function MountList(gs: seq<Given>): seq<MountSpec> {
    var asked := Asked(gs, LastSize(gs));
    [RootSpec(gs)] + if Asks(gs, DisableProc) then asked else [MountSpec(None, "/proc", "proc", "", {})] + asked
  }

  // ---- What the list is, option by option ------------------------------------------------------

  datatype Kind = AMount | AUidMapping | AGidMapping

  predicate OfKind(o: Opt, kind: Kind) {
    match kind
    case AMount => o.BindRo? || o.Bind? || o.Tmpfs?
    case AUidMapping => o.UidMapping?
    case AGidMapping => o.GidMapping?
  }

  /** How many of the first `n` options are of a kind. */
  function Rank(gs: seq<Given>, kind: Kind, n: nat): nat
    requires n <= |gs|
  {
    if n == 0 then 0 else Rank(gs, kind, n - 1) + if OfKind(gs[n - 1].opt, kind) then 1 else 0
  }

  function Positions(gs: seq<Given>, kind: Kind, n: nat): set<nat>
    requires n <= |gs|
  {
    set j: nat | j < n && OfKind(gs[j].opt, kind)
  }

  lemma PositionsNext(gs: seq<Given>, kind: Kind, n: nat)
    requires n < |gs|
    ensures n !in Positions(gs, kind, n)
    ensures Positions(gs, kind, n + 1) == Positions(gs, kind, n) + if OfKind(gs[n].opt, kind) then {n} else {}
  {
  }

  lemma {:induction false} RankCounts(gs: seq<Given>, kind: Kind, n: nat)
    requires n <= |gs|
    ensures Rank(gs, kind, n) == |Positions(gs, kind, n)|
  {
    if n > 0 {
      RankCounts(gs, kind, n - 1);
      PositionsNext(gs, kind, n - 1);
    }
  }

  lemma {:induction false} RankOfPrefix(gs: seq<Given>, kind: Kind, m: nat, n: nat)
    requires n <= m <= |gs|
    ensures Rank(gs[..m], kind, n) == Rank(gs, kind, n)
  {
    if n > 0 {
      RankOfPrefix(gs, kind, m, n - 1);
    }
  }

  /** The mount that one option asks for: -R read-only, -B not, both from the first half of the argument onto
      the second; -T an empty tmpfs of the given size. */
  predicate AskedBy(spec: MountSpec, g: Given, size: nat) {
    match g.opt
    case BindRo(_) => spec == MountSpec(Some(Before(g.text)), Behind(g.text), "", "", {MsBind, MsRec, MsRdonly})
    case Bind(_) => spec == MountSpec(Some(Before(g.text)), Behind(g.text), "", "", {MsBind, MsRec})
    case Tmpfs(_) => spec == MountSpec(None, g.text, "tmpfs", SizeText(size), {})
    case _ => false
  }

  lemma AskedOneIs(g: Given, size: nat)
    ensures |AskedOne(g, size)| == if OfKind(g.opt, AMount) then 1 else 0
    ensures OfKind(g.opt, AMount) ==> AskedBy(AskedOne(g, size)[0], g, size)
  {
  }

  lemma {:induction false} AskedAt(gs: seq<Given>, size: nat, i: nat)
    requires i < |gs| && OfKind(gs[i].opt, AMount)
    ensures Rank(gs, AMount, i) < |Asked(gs, size)| && AskedBy(Asked(gs, size)[Rank(gs, AMount, i)], gs[i], size)
  {
    var m := |gs| - 1;
    RankOfPrefix(gs, AMount, m, i);
    if i < m {
      AskedAt(gs[..m], size, i);
    } else {
      AskedCount(gs[..m], size);
      AskedOneIs(gs[m], size);
    }
  }

  lemma {:induction false} AskedCount(gs: seq<Given>, size: nat)
    ensures |Asked(gs, size)| == Rank(gs, AMount, |gs|)
  {
    if gs != [] {
      var m := |gs| - 1;
      AskedCount(gs[..m], size);
      AskedOneIs(gs[m], size);
      RankOfPrefix(gs, AMount, m, m);
    }
  }

  // Option `i` is the last --tmpfs_size, or the last --chroot.
  predicate LastSizeAt(gs: seq<Given>, i: nat) {
    i < |gs| && gs[i].opt.TmpfsSize? && forall j :: i < j < |gs| ==> !gs[j].opt.TmpfsSize?
  }

  predicate LastChrootAt(gs: seq<Given>, i: nat) {
    i < |gs| && gs[i].opt.Chroot? && forall j :: i < j < |gs| ==> !gs[j].opt.Chroot?
  }

  /** The size is the last one given, 4194304 if none is. */
  lemma {:induction false} LastSizeIs(gs: seq<Given>, i: nat)
    requires i <= |gs| && forall j :: i <= j < |gs| ==> !gs[j].opt.TmpfsSize?
    ensures LastSize(gs) == if i == 0 then 4194304
                            else if gs[i - 1].opt.TmpfsSize? then gs[i - 1].opt.size else LastSize(gs[..i])
  {
    if i < |gs| {
      var m := |gs| - 1;
      LastSizeIs(gs[..m], i);
      assert gs[..m][..i] == gs[..i];
    } else {
      assert gs[..i] == gs;
    }
  }

  lemma {:induction false} LastChrootIs(gs: seq<Given>, i: nat)
    requires i <= |gs| && forall j :: i <= j < |gs| ==> !gs[j].opt.Chroot?
    ensures LastChroot(gs) == if i == 0 then None
                              else if gs[i - 1].opt.Chroot? then Some(gs[i - 1]) else LastChroot(gs[..i])
  {
    if i < |gs| {
      var m := |gs| - 1;
      LastChrootIs(gs[..m], i);
      assert gs[..m][..i] == gs[..i];
    } else {
      assert gs[..i] == gs;
    }
  }

  ghost predicate SizeGiven(gs: seq<Given>, size: nat) {
    && ((forall i :: 0 <= i < |gs| ==> !gs[i].opt.TmpfsSize?) ==> size == 4194304)
    && forall i: nat :: LastSizeAt(gs, i) ==> size == gs[i].opt.size
  }

  lemma LastSizeGiven(gs: seq<Given>)
    ensures SizeGiven(gs, LastSize(gs))
  {
    if forall i :: 0 <= i < |gs| ==> !gs[i].opt.TmpfsSize? {
      LastSizeIs(gs, 0);
    }
    forall i: nat | LastSizeAt(gs, i)
      ensures LastSize(gs) == gs[i].opt.size
    {
      LastSizeIs(gs, i + 1);
    }
  }

  predicate Plainly(gs: seq<Given>) { forall i :: 0 <= i < |gs| ==> !gs[i].opt.Chroot? }

  predicate WasGiven(gs: seq<Given>, o: Opt) { exists i :: 0 <= i < |gs| && gs[i].opt == o }

  /** The root: read-only unless --rw was given; a bind of the last --chroot, or a tmpfs without one. */
  ghost predicate RootAsked(spec: MountSpec, gs: seq<Given>) {
    && spec.dst == "/" && spec.options == ""
    && (MsRdonly in spec.flags <==> !WasGiven(gs, Rw))
    && (Plainly(gs) ==> spec.src.None? && spec.fsType == "tmpfs" && MsBind !in spec.flags && MsRec !in spec.flags)
    && forall i: nat :: LastChrootAt(gs, i) ==>
         spec.src == Some(gs[i].text) && spec.fsType == "" && MsBind in spec.flags && MsRec in spec.flags
  }

  lemma AsksIff(gs: seq<Given>, o: Opt)
    ensures Asks(gs, o) <==> WasGiven(gs, o)
  {
    if i :| 0 <= i < |gs| && gs[i].opt == o {
      assert gs[i] in gs;
    }
  }

  lemma RootIsAsked(gs: seq<Given>)
    ensures RootAsked(RootSpec(gs), gs)
  {
    AsksIff(gs, Rw);
    if Plainly(gs) {
      LastChrootIs(gs, 0);
    }
    forall i: nat | LastChrootAt(gs, i)
      ensures LastChroot(gs) == Some(gs[i])
    {
      LastChrootIs(gs, i + 1);
    }
  }

  /** For each -R, -B and -T option its mount, behind the fixed ones and those of the options before it. */
  predicate EachAsked(specs: seq<MountSpec>, fixed: nat, gs: seq<Given>, size: nat) {
    && |specs| == fixed + Rank(gs, AMount, |gs|)
    && forall i :: 0 <= i < |gs| && OfKind(gs[i].opt, AMount) ==>
         var p := fixed + Rank(gs, AMount, i);
         p < |specs| && AskedBy(specs[p], gs[i], size)
  }

  lemma AllAsked(gs: seq<Given>, size: nat)
    ensures EachAsked(Asked(gs, size), 0, gs, size)
  {
    AskedCount(gs, size);
    forall i | 0 <= i < |gs| && OfKind(gs[i].opt, AMount)
      ensures Rank(gs, AMount, i) < |Asked(gs, size)|
      ensures AskedBy(Asked(gs, size)[Rank(gs, AMount, i)], gs[i], size)
    {
      AskedAt(gs, size, i);
    }
  }

  lemma AskedBehind(front: MountSpec, specs: seq<MountSpec>, fixed: nat, gs: seq<Given>, size: nat)
    requires EachAsked(specs, fixed, gs, size)
    ensures EachAsked([front] + specs, fixed + 1, gs, size)
  {
    assert forall p :: 0 <= p < |specs| ==> ([front] + specs)[p + 1] == specs[p];
  }

  /** The list option by option: the root, /proc unless disabled, and the mounts asked for. */
  ghost predicate AsGiven(specs: seq<MountSpec>, gs: seq<Given>, size: nat) {
    var fixed := if WasGiven(gs, DisableProc) then 1 else 2;
    && SizeGiven(gs, size) && EachAsked(specs, fixed, gs, size)
    && RootAsked(specs[0], gs)
    && (fixed == 2 ==> specs[1] == MountSpec(None, "/proc", "proc", "", {}))
  }

  lemma MountListAsGiven(gs: seq<Given>)
    ensures AsGiven(MountList(gs), gs, LastSize(gs))
  {
    var size := LastSize(gs);
    var asked, proc := Asked(gs, size), MountSpec(None, "/proc", "proc", "", {});
    RootIsAsked(gs);
    LastSizeGiven(gs);
    AsksIff(gs, DisableProc);
    AllAsked(gs, size);
    if Asks(gs, DisableProc) {
      AskedBehind(RootSpec(gs), asked, 0, gs, size);
    } else {
      AskedBehind(proc, asked, 0, gs, size);
      AskedBehind(RootSpec(gs), [proc] + asked, 1, gs, size);
    }
  }

  function MappingKind(uid: bool): Kind { if uid then AUidMapping else AGidMapping }

  /** A mapping reads as the three parts of its argument. */
  ghost predicate ReadsMapping(m: Mapping, t: string)
    reads TextBuf(m.insideId), TextBuf(m.outsideId), TextBuf(m.count)
  {
    Reads(m.insideId, Before(t)) && Reads(m.outsideId, Before(Behind(t))) && Reads(m.count, Behind(Behind(t)))
  }

  lemma {:induction false} MappingsCount(gs: seq<Given>, uid: bool)
    ensures |Mappings(gs, uid)| == Rank(gs, MappingKind(uid), |gs|)
  {
    if gs != [] {
      var m := |gs| - 1;
      MappingsCount(gs[..m], uid);
      RankOfPrefix(gs, MappingKind(uid), m, m);
    }
  }

  /** The mapping of each -U or -G option stands behind those of the ones before it. */
  lemma MappingAt(gs: seq<Given>, uid: bool, i: nat)
    requires i < |gs| && OfKind(gs[i].opt, MappingKind(uid)) && Cut(gs[i])
    ensures Rank(gs, MappingKind(uid), i) < |Mappings(gs, uid)|
    ensures ReadsMapping(Mappings(gs, uid)[Rank(gs, MappingKind(uid), i)], gs[i].text)
  {
    MappingPlace(gs, uid, i);
  }

  lemma {:induction false} MappingPlace(gs: seq<Given>, uid: bool, i: nat)
    requires i < |gs| && OfKind(gs[i].opt, MappingKind(uid))
    ensures Rank(gs, MappingKind(uid), i) < |Mappings(gs, uid)|
    ensures Mappings(gs, uid)[Rank(gs, MappingKind(uid), i)] == MappingOf(gs[i])
  {
    var m := |gs| - 1;
    RankOfPrefix(gs, MappingKind(uid), m, i);
    if i < m {
      MappingPlace(gs[..m], uid, i);
    } else {
      MappingsCount(gs[..m], uid);
    }
  }

  lemma Extend(gs: seq<Given>, g: Given, shared: array<char>)
    ensures Linked(gs + [g], shared) == Linked(gs, shared) +
              if IsBind(g.opt) then [BindMount(g)]
              else if g.opt.Tmpfs? then [Mount(None, Ptr(g.opt.arg, 0), "tmpfs", Ptr(shared, 0), {})]
              else []
    ensures forall uid :: Mappings(gs + [g], uid) == Mappings(gs, uid) +
              if (uid && g.opt.UidMapping?) || (!uid && g.opt.GidMapping?)
              then [MappingOf(g)]
              else []
    ensures LastSize(gs + [g]) == if g.opt.TmpfsSize? then g.opt.size else LastSize(gs)
    ensures LastChroot(gs + [g]) == if g.opt.Chroot? then Some(g) else LastChroot(gs)
    ensures forall o :: Asks(gs + [g], o) <==> Asks(gs, o) || g.opt == o
  {
    assert (gs + [g])[..|gs|] == gs;
    forall o
      ensures Asks(gs + [g], o) <==> Asks(gs, o) || g.opt == o
    {
      if g.opt == o {
        assert g in gs + [g];
      }
    }
  }

  lemma Snoc(gs: seq<Given>, n: nat)
    requires n < |gs|
    ensures gs[..n + 1] == gs[..n] + [gs[n]]
  {
  }

  lemma Apart(gs: seq<Given>, n: nat, shared: array<char>)
    requires n < |gs| && Separate(gs, shared)
    ensures HasArg(gs[n].opt) ==> gs[n].opt.arg in Args(gs) && gs[n].opt.arg != shared
    ensures forall i :: 0 <= i < |gs| && i != n && HasArg(gs[i].opt) ==>
              gs[i].opt.arg != shared && (HasArg(gs[n].opt) ==> gs[i].opt.arg != gs[n].opt.arg)
  {
  }

  method CutBind(g: Given) returns (second: nat)
    requires Fresh(g) && IsBind(g.opt)
    modifies g.opt.arg
    ensures second == Second(g.text) && Cut(g)
  {
    second := SplitStrByColon(g.opt.arg, 0, g.text);
  }

  method CutMapping(g: Given) returns (m: Mapping)
    requires Fresh(g) && IsMapping(g.opt)
    modifies g.opt.arg
    ensures m == MappingOf(g)
    ensures Cut(g)
  {
    m := SplitMapping(g.opt.arg, g.text);
  }

  class Conf {
    var mountpts: seq<Mount>
    var uidMappings: seq<Mapping>
    var gidMappings: seq<Mapping>
    var chroot: Option<CText>
    var isRootRw: bool
    var mountProc: bool
    const tmpfsSz: array<char>

    constructor ()
      ensures mountpts == [] && uidMappings == [] && gidMappings == [] && chroot.None? && !isRootRw && mountProc
      ensures fresh(tmpfsSz) && tmpfsSz.Length == PATH_MAX && Reads(Ptr(tmpfsSz, 0), SizeText(LastSize([])))
    {
      mountpts, uidMappings, gidMappings, chroot, isRootRw, mountProc := [], [], [], None, false, true;
      tmpfsSz := new char[PATH_MAX];
      new;
      SetTmpfsSize(4194304);
    }

    method SetTmpfsSize(n: nat)
      requires tmpfsSz.Length == PATH_MAX
      modifies tmpfsSz
      ensures Reads(Ptr(tmpfsSz, 0), SizeText(n))
    {
      var t := SizeText(n);
      forall j | 0 <= j < |t| { tmpfsSz[j] := t[j]; }
      tmpfsSz[|t|] := NUL;
      SpellsIff(tmpfsSz[..], 0, t);
    }

    /** The lists and switches after handling some options. */
    ghost predicate Built(gs: seq<Given>)
      reads this
    {
      && tmpfsSz.Length == PATH_MAX
      && mountpts == Linked(gs, tmpfsSz)
      && uidMappings == Mappings(gs, true) && gidMappings == Mappings(gs, false)
      && isRootRw == Asks(gs, Rw) && mountProc == !Asks(gs, DisableProc)
      && chroot == (match LastChroot(gs) case Some(g) => Some(Ptr(g.opt.arg, 0)) case None => None)
    }

    // The options whose argument is cut, those whose argument is kept, and those without one.
    method HandleBind(g: Given, ghost gs: seq<Given>)
      requires Built(gs) && Fresh(g) && IsBind(g.opt)
      modifies this, g.opt.arg
      ensures Built(gs + [g]) && Cut(g)
    {
      var second := CutBind(g);
      AddBind(g, gs, second);
    }

    method AddBind(g: Given, ghost gs: seq<Given>, second: nat)
      requires Built(gs) && IsBind(g.opt) && second == Second(g.text)
      modifies this
      ensures Built(gs + [g])
    {
      Extend(gs, g, tmpfsSz);
      var flags := if g.opt.BindRo? then {MsBind, MsRec, MsRdonly} else {MsBind, MsRec};
      mountpts := mountpts + [Mount(Some(Ptr(g.opt.arg, 0)), Ptr(g.opt.arg, second), "", Lit(""), flags)];
      assert BindFlags(g.opt) == flags;
    }

    method HandleMapping(g: Given, ghost gs: seq<Given>)
      requires Built(gs) && Fresh(g) && IsMapping(g.opt)
      modifies this, g.opt.arg
      ensures Built(gs + [g]) && Cut(g)
    {
      var m := CutMapping(g);
      AddMapping(g, gs, m);
    }

    method AddMapping(g: Given, ghost gs: seq<Given>, m: Mapping)
      requires Built(gs) && IsMapping(g.opt)
      requires m == MappingOf(g)
      modifies this
      ensures Built(gs + [g])
    {
      Extend(gs, g, tmpfsSz);
      if g.opt.UidMapping? {
        uidMappings := uidMappings + [m];
      } else {
        gidMappings := gidMappings + [m];
      }
    }

    method HandleKept(g: Given, ghost gs: seq<Given>)
      requires Built(gs) && Fresh(g) && (g.opt.Tmpfs? || g.opt.Chroot?)
      modifies this
      ensures Built(gs + [g]) && Cut(g)
    {
      Extend(gs, g, tmpfsSz);
      if g.opt.Tmpfs? {
        mountpts := mountpts + [Mount(None, Ptr(g.opt.arg, 0), "tmpfs", Ptr(tmpfsSz, 0), {})];
      } else {
        chroot := Some(Ptr(g.opt.arg, 0));
      }
    }

    method HandlePlain(g: Given, ghost gs: seq<Given>)
      requires Built(gs) && !HasArg(g.opt) && Reads(Ptr(tmpfsSz, 0), SizeText(LastSize(gs)))
      modifies this, tmpfsSz
      ensures Built(gs + [g]) && Reads(Ptr(tmpfsSz, 0), SizeText(LastSize(gs + [g])))
    {
      Extend(gs, g, tmpfsSz);
      if g.opt.TmpfsSize? {
        SetTmpfsSize(g.opt.size);
      } else if g.opt.Rw? {
        isRootRw := true;
      } else if g.opt.DisableProc? {
        mountProc := false;
      }
    }

    // One turn of the option loop's switch; false where the usage text ends the program.
    method Handle(g: Given, ghost gs: seq<Given>) returns (ok: bool)
      requires Built(gs) && Fresh(g) && (HasArg(g.opt) ==> g.opt.arg != tmpfsSz)
      requires Reads(Ptr(tmpfsSz, 0), SizeText(LastSize(gs)))
      modifies this, tmpfsSz, if HasArg(g.opt) then {g.opt.arg} else {}
      ensures ok <==> Accepted(g.opt)
      ensures ok ==> Built(gs + [g]) && Cut(g) && Reads(Ptr(tmpfsSz, 0), SizeText(LastSize(gs + [g])))
    {
      Extend(gs, g, tmpfsSz);
      if IsBind(g.opt) {
        HandleBind(g, gs);
      } else if IsMapping(g.opt) {
        HandleMapping(g, gs);
      } else if HasArg(g.opt) {
        HandleKept(g, gs);
      } else if g.opt.Usage? || (g.opt.Mode? && g.opt.letter !in {'l', 'o', 'e', 'r'}) {
        return false;
      } else {
        HandlePlain(g, gs);
      }
      ok := true;
    }

    /** The first `n` options are handled, the others untouched. */
    ghost predicate Handled(gs: seq<Given>, n: nat)
      requires n <= |gs|
      reads this, tmpfsSz, Args(gs)
    {
      && Built(gs[..n]) && Reads(Ptr(tmpfsSz, 0), SizeText(LastSize(gs[..n])))
      && (forall i :: 0 <= i < n ==> Cut(gs[i]))
      && (forall i :: n <= i < |gs| ==> Fresh(gs[i]))
    }

    // Option `n`; no other argument is touched.
    method HandleAt(gs: seq<Given>, n: nat) returns (ok: bool)
      requires n < |gs| && Built(gs[..n]) && Fresh(gs[n]) && Separate(gs, tmpfsSz)
      requires Reads(Ptr(tmpfsSz, 0), SizeText(LastSize(gs[..n])))
      modifies this, tmpfsSz, Args(gs)
      ensures ok <==> Accepted(gs[n].opt)
      ensures ok ==> Built(gs[..n + 1]) && Cut(gs[n]) && Reads(Ptr(tmpfsSz, 0), SizeText(LastSize(gs[..n + 1])))
      ensures forall i :: 0 <= i < |gs| && i != n && HasArg(gs[i].opt) ==> gs[i].opt.arg[..] == old(gs[i].opt.arg[..])
    {
      Snoc(gs, n);
      Apart(gs, n, tmpfsSz);
      ok := Handle(gs[n], gs[..n]);
    }

    method HandleNth(gs: seq<Given>, n: nat) returns (ok: bool)
      requires n < |gs| && Handled(gs, n) && Separate(gs, tmpfsSz)
      modifies this, tmpfsSz, Args(gs)
      ensures ok <==> Accepted(gs[n].opt)
      ensures ok ==> Handled(gs, n + 1)
    {
      ok := HandleAt(gs, n);
    }

    // The option loop.
    method HandleAll(gs: seq<Given>) returns (ok: bool)
      requires Handled(gs, 0) && Separate(gs, tmpfsSz)
      modifies this, tmpfsSz, Args(gs)
      ensures ok <==> forall i :: 0 <= i < |gs| ==> Accepted(gs[i].opt)
      ensures ok ==> Handled(gs, |gs|)
    {
      var n := 0;
      while n < |gs|
        invariant n <= |gs| && Handled(gs, n)
        invariant forall i :: 0 <= i < n ==> Accepted(gs[i].opt)
      {
        ok := HandleNth(gs, n);
        if !ok {
          return;
        }
        n := n + 1;
      }
      ok := true;
    }

    /** The parser's mounts for every accepted option sequence: the root first, then /proc unless disabled,
        then the -R, -B and -T mounts in the order given; what each points to reads as it should, and all
        tmpfs mounts read the last size, wherever it was given. Refused are only unknown mode letters and
        options, and the ones that ask for the usage text. */
    method Parse(gs: seq<Given>) returns (ok: bool)
      requires Handled(gs, 0) && Separate(gs, tmpfsSz)
      modifies this, tmpfsSz, Args(gs)
      ensures ok <==> forall i :: 0 <= i < |gs| ==>
                !gs[i].opt.Usage? && (gs[i].opt.Mode? ==> gs[i].opt.letter in ['l', 'o', 'r', 'e'])
      ensures ok ==> AllShow(mountpts, MountList(gs)) && AsGiven(MountList(gs), gs, LastSize(gs))
      ensures ok ==> uidMappings == Mappings(gs, true) && gidMappings == Mappings(gs, false)
      ensures ok ==> |uidMappings| == Rank(gs, AUidMapping, |gs|) && |gidMappings| == Rank(gs, AGidMapping, |gs|)
      ensures ok ==> forall i :: 0 <= i < |gs| && gs[i].opt.UidMapping? ==>
                var p := Rank(gs, AUidMapping, i); p < |uidMappings| && ReadsMapping(uidMappings[p], gs[i].text)
      ensures ok ==> forall i :: 0 <= i < |gs| && gs[i].opt.GidMapping? ==>
                var p := Rank(gs, AGidMapping, i); p < |gidMappings| && ReadsMapping(gidMappings[p], gs[i].text)
      ensures ok ==> forall i :: 0 <= i < |gs| ==> Cut(gs[i])
    {
      ok := HandleAll(gs);
      if !ok {
        return;
      }
      Finish(gs);
      MountListAsGiven(gs);
      MappingsCount(gs, true);
      MappingsCount(gs, false);
      forall i | 0 <= i < |gs| && gs[i].opt.UidMapping?
        ensures var p := Rank(gs, AUidMapping, i); p < |uidMappings| && ReadsMapping(uidMappings[p], gs[i].text)
      {
        MappingAt(gs, true, i);
      }
      forall i | 0 <= i < |gs| && gs[i].opt.GidMapping?
        ensures var p := Rank(gs, AGidMapping, i); p < |gidMappings| && ReadsMapping(gidMappings[p], gs[i].text)
      {
        MappingAt(gs, false, i);
      }
    }

    method Finish(ghost gs: seq<Given>)
      requires Handled(gs, |gs|)
      modifies this`mountpts
      ensures AllShow(mountpts, MountList(gs))
      ensures uidMappings == Mappings(gs, true) && gidMappings == Mappings(gs, false)
      ensures forall i :: 0 <= i < |gs| ==> Cut(gs[i])
    {
      assert gs[..|gs|] == gs;
      AllShown(gs, tmpfsSz, LastSize(gs));
      AddFixedMounts(gs);
    }

    // The /proc mount and then the root, each at the head of the list.
    method AddFixedMounts(ghost gs: seq<Given>)
      requires Built(gs) && forall i :: 0 <= i < |gs| ==> Cut(gs[i])
      requires AllShow(mountpts, Asked(gs, LastSize(gs)))
      modifies this`mountpts
      ensures AllShow(mountpts, MountList(gs))
    {
      RootShows(gs);
      ghost var specs := Asked(gs, LastSize(gs));
      if mountProc {
        AddMount(Mount(None, Lit("/proc"), "proc", Lit(""), {}), MountSpec(None, "/proc", "proc", "", {}), specs);
        specs := [MountSpec(None, "/proc", "proc", "", {})] + specs;
      }
      AddMount(RootMount(), RootSpec(gs), specs);
    }

    method AddMount(m: Mount, ghost spec: MountSpec, ghost specs: seq<MountSpec>)
      requires Shows(m, spec) && AllShow(mountpts, specs)
      modifies this`mountpts
      ensures AllShow(mountpts, [spec] + specs)
    {
      ConsShows(m, spec, mountpts, specs);
      mountpts := [m] + mountpts;
    }

    lemma RootShows(gs: seq<Given>)
      requires Built(gs) && forall i :: 0 <= i < |gs| ==> Cut(gs[i])
      ensures Shows(RootMount(), RootSpec(gs))
    {
      if LastChroot(gs).Some? {
        var i :| 0 <= i < |gs| && gs[i] == LastChroot(gs).value;
        assert Cut(gs[i]);
      }
    }

    function RootMount(): Mount
      reads this`chroot, this`isRootRw
    {
      var ro := if isRootRw then {} else {MsRdonly};
      if chroot.Some? then Mount(chroot, Lit("/"), "", Lit(""), {MsBind, MsRec} + ro)
      else Mount(None, Lit("/"), "tmpfs", Lit(""), ro)
    }
  }
}
