/** Labelled programs: their meaning, which of them can be resolved, and the in-place resolver. */
module Resolver {
  import opened Common
  import opened Words
  import opened Bpf
  import opened Labels

  const JUMP_MARK: u8 := 0xff
  const LABEL_MARK: u8 := 0xfe

  // How many instructions an eight-bit index tells apart.
  const INSNS_MAX: nat := 256

  function JumpTo(id: u32): Insn { JumpInsn(JMP_JA, id, JUMP_MARK, JUMP_MARK) }
  function LabelHere(id: u32): Insn { JumpInsn(JMP_JA, id, LABEL_MARK, LABEL_MARK) }

  /** The marks as they are in memory. */
  lemma MarkEncodings(id: u32)
    ensures JumpTo(id) == Insn(0x05, 0xff, 0xff, id) && LabelHere(id) == Insn(0x05, 0xfe, 0xfe, id)
    ensures IsJump(JumpTo(id)) && IsLabel(LabelHere(id)) && !IsLabel(JumpTo(id)) && !IsJump(LabelHere(id))
  {
  }

  predicate IsJump(i: Insn) { i.code == JMP_JA && i.jt == JUMP_MARK && i.jf == JUMP_MARK }
  predicate IsLabel(i: Insn) { i.code == JMP_JA && i.jt == LABEL_MARK && i.jf == LABEL_MARK }
  predicate IsMark(i: Insn) { IsJump(i) || IsLabel(i) }

  /** Index of the first LABEL with this id, from `from` on. */
  function Seek(p: seq<Insn>, id: u32, from: nat): (r: Option<nat>)
    ensures r.Some? ==> from <= r.value < |p| && IsLabel(p[r.value]) && p[r.value].k == id
    ensures forall j :: from <= j < (if r.Some? then r.value else |p|) ==> !(IsLabel(p[j]) && p[j].k == id)
    decreases |p| - from
  {
    if from >= |p| then None
    else if IsLabel(p[from]) && p[from].k == id then Some(from)
    else Seek(p, id, from + 1)
  }

  /** Symbolic meaning: a LABEL does nothing, a JUMP continues at its LABEL. A jump without a label
      after it has no meaning (BPF has no backward jumps). */
  function RunLabelled(p: seq<Insn>, d: SeccompData, s: State): Outcome
    decreases |p| - s.pc
  {
    if s.pc >= |p| then FellOff
    else if IsLabel(p[s.pc]) then RunLabelled(p, d, s.(pc := s.pc + 1))
    else if IsJump(p[s.pc]) then
      match Seek(p, p[s.pc].k, 0)
      case Some(j) => if j > s.pc then RunLabelled(p, d, s.(pc := j)) else Dangling
      case None => Dangling
    else
      match Exec(p[s.pc], d, s)
      case Halt(o) => o
      case Goto(t) => RunLabelled(p, d, t)
  }

  predicate DefinedAfter(p: seq<Insn>, i: nat, id: u32) {
    exists j :: i < j < |p| && IsLabel(p[j]) && p[j].k == id
  }

  predicate LabelsDistinct(p: seq<Insn>, from: nat) {
    forall i, j :: from <= i < j < |p| && IsLabel(p[i]) && IsLabel(p[j]) ==> p[i].k != p[j].k
  }

  predicate JumpsForward(p: seq<Insn>, from: nat) {
    forall i :: from <= i < |p| && IsJump(p[i]) ==> DefinedAfter(p, i, p[i].k)
  }

  /** Every label is defined at most once, and every jump's label at a larger index. */
  predicate WellLabelled(p: seq<Insn>) {
    LabelsDistinct(p, 0) && JumpsForward(p, 0)
  }

  /** What instruction `i` becomes: a relative jump to the label after it, a no-op, or itself. */
  function Fixed(p: seq<Insn>, i: nat): Insn
    requires i < |p| <= INSNS_MAX
  {
    if IsLabel(p[i]) then Stmt(JMP_JA, 0)
    else if IsJump(p[i]) then
      match Seek(p, p[i].k, i + 1)
      case Some(j) => Stmt(JMP_JA, j - (i + 1))
      case None => p[i]
    else p[i]
  }

  function Resolved(p: seq<Insn>): (q: seq<Insn>)
    requires |p| <= INSNS_MAX
    ensures |q| == |p| && forall i :: 0 <= i < |p| ==> q[i] == Fixed(p, i)
  {
    seq(|p|, i requires 0 <= i < |p| => Fixed(p, i))
  }

  predicate NoMarks(p: seq<Insn>) { forall i :: 0 <= i < |p| ==> !IsMark(p[i]) }

  /** How many instructions the resolver looks at: its index is eight bits wide. */
  function Visited(count: nat): (n: nat)
    requires count > 0
    ensures 1 <= n <= 256 && n <= count && (count <= 256 ==> n == count) && (count - n) % 256 == 0
  {
    (count - 1) % INSNS_MAX + 1
  }

  /** The program after a successful run of the resolver, for any instruction count. */
  function Rewritten(p: seq<Insn>): (q: seq<Insn>)
    requires |p| > 0
    ensures |q| == |p|
  {
    var n := Visited(|p|);
    Resolved(p[..n]) + p[n..]
  }

  /** In a well-labelled program each rewritten offset leads to its label, strictly forward and inside
      the program; nothing marked is left and unmarked instructions are untouched. */
  lemma OffsetsExact(p: seq<Insn>, i: nat)
    requires |p| <= INSNS_MAX && WellLabelled(p) && i < |p|
    ensures !IsMark(Resolved(p)[i])
    ensures !IsMark(p[i]) ==> Resolved(p)[i] == p[i]
    ensures IsJump(p[i]) ==>
              var target := i + 1 + Resolved(p)[i].k;
              i < target < |p| && IsLabel(p[target]) && p[target].k == p[i].k && Seek(p, p[i].k, 0) == Some(target)
  {
    if IsJump(p[i]) {
      assert DefinedAfter(p, i, p[i].k);
      var j := Seek(p, p[i].k, i + 1).value;
      var first := Seek(p, p[i].k, 0).value;
      assert first == j;
    }
  }

  lemma SeekInPrefix(a: seq<Insn>, b: seq<Insn>, id: u32)
    requires NoMarks(b)
    ensures Seek(a + b, id, 0) == Seek(a, id, 0)
  {
    var whole, part := Seek(a + b, id, 0), Seek(a, id, 0);
    if part.Some? {
      assert IsLabel((a + b)[part.value]);
    }
  }

  lemma RewrittenAt(a: seq<Insn>, b: seq<Insn>, i: nat)
    requires |a| <= INSNS_MAX && WellLabelled(a) && NoMarks(b) && i < |a| + |b|
    ensures var p, q := (a + b)[i], (Resolved(a) + b)[i];
            if IsLabel(p) then q == Stmt(JMP_JA, 0)
            else if IsJump(p) then q.code == JMP_JA && Seek(a + b, p.k, 0) == Some(i + 1 + q.k)
            else q == p
  {
    if i < |a| {
      OffsetsExact(a, i);
      SeekInPrefix(a, b, a[i].k);
    }
  }

  lemma {:induction false} RunsAlike(a: seq<Insn>, b: seq<Insn>, d: SeccompData, s: State)
    requires |a| <= INSNS_MAX && WellLabelled(a) && NoMarks(b)
    ensures Run(Resolved(a) + b, d, s) == RunLabelled(a + b, d, s)
    decreases |a| + |b| - s.pc
  {
    if s.pc < |a| + |b| {
      RewrittenAt(a, b, s.pc);
      var i, q := (a + b)[s.pc], (Resolved(a) + b)[s.pc];
      if IsLabel(i) {
        RunsAlike(a, b, d, s.(pc := s.pc + 1));
      } else if IsJump(i) {
        RunsAlike(a, b, d, s.(pc := s.pc + 1 + q.k));
      } else if Exec(i, d, s).Goto? {
        RunsAlike(a, b, d, Exec(i, d, s).s);
      }
    }
  }

  /** Resolution preserves meaning: on every input and from every state, the rewritten program has
      the outcome of the labelled one, falling off the end included. */
  lemma ResolutionPreservesMeaning(p: seq<Insn>, d: SeccompData, s: State)
    requires |p| > 0
    requires WellLabelled(p[..Visited(|p|)]) && NoMarks(p[Visited(|p|)..])
    ensures Run(Rewritten(p), d, s) == RunLabelled(p, d, s)
  {
    var n := Visited(|p|);
    RunsAlike(p[..n], p[n..], d, s);
    assert p[..n] + p[n..] == p;
  }

  /** The marks that survive are exactly those beyond the visited instructions. */
  lemma LeftoverMarks(p: seq<Insn>)
    requires |p| > 0 && WellLabelled(p[..Visited(|p|)])
    ensures NoMarks(Rewritten(p)) <==> NoMarks(p[Visited(|p|)..])
    ensures |p| <= 256 ==> NoMarks(Rewritten(p))
  {
    var n := Visited(|p|);
    var a, b := p[..n], p[n..];
    forall i | 0 <= i < n
      ensures !IsMark(Rewritten(p)[i])
    {
      OffsetsExact(a, i);
    }
    forall i | n <= i < |p|
      ensures Rewritten(p)[i] == b[i - n]
    {
    }
    if NoMarks(Rewritten(p)) {
      assert forall i :: 0 <= i < |b| ==> b[i] == Rewritten(p)[n + i];
    }
  }

  /** Up to 256 instructions, being well labelled is all that is needed. */
  lemma ShortProgramsPreserved(p: seq<Insn>, d: SeccompData, s: State)
    requires 1 <= |p| <= 256 && WellLabelled(p)
    ensures Rewritten(p) == Resolved(p)
    ensures Run(Resolved(p), d, s) == RunLabelled(p, d, s)
  {
    assert p[..Visited(|p|)] == p;
    ResolutionPreservesMeaning(p, d, s);
  }

  // Its first instruction leads past the visited ones, to a jump that skips `RET 1`.
  function LongProgram(n: nat): (p: seq<Insn>)
    requires n > INSNS_MAX
    ensures |p| == n
  {
    var v := Visited(n);
    [Stmt(JMP_JA, v - 1)] + seq(v - 1, _ => Stmt(RET_K, 0)) + [JumpTo(0), Stmt(RET_K, 1), LabelHere(0)] +
    seq(n - v - 3, _ => Stmt(RET_K, 2))
  }

  lemma LongProgramIs(n: nat, p: seq<Insn>)
    requires n > INSNS_MAX && p == LongProgram(n)
    ensures var v := Visited(n);
            && v + 4 <= n && p[0] == Stmt(JMP_JA, v - 1)
            && p[v] == JumpTo(0) && p[v + 1] == Stmt(RET_K, 1) && p[v + 2] == LabelHere(0) && p[v + 3] == Stmt(RET_K, 2)
            && forall i :: 0 <= i < n && i != v && i != v + 2 ==> !IsMark(p[i])
  {
  }

  lemma LongProgramLabelled(n: nat, p: seq<Insn>)
    requires n > INSNS_MAX && p == LongProgram(n)
    ensures WellLabelled(p) && WellLabelled(p[..Visited(n)]) && Seek(p, 0, 0) == Some(Visited(n) + 2)
  {
    LongProgramIs(n, p);
    var v := Visited(n);
    assert IsLabel(p[v + 2]) && IsJump(p[v]);
    assert DefinedAfter(p, v, 0);
  }

  /** Whatever the length beyond 256, there is a well-labelled program that the resolver accepts and whose
      result changes: a jump out of the index's reach stays an unconditional jump by its label id. */
  lemma LongProgramLosesItsJumps(n: nat, d: SeccompData, s: State)
    requires n > INSNS_MAX && s.pc == 0
    ensures var p := LongProgram(n);
            && WellLabelled(p) && WellLabelled(p[..Visited(n)])
            && RunLabelled(p, d, s) == Ret(2) && Run(Rewritten(p), d, s) == Ret(1)
  {
    var p, v := LongProgram(n), Visited(n);
    LongProgramIs(n, p);
    LongProgramLabelled(n, p);
    LongProgramMeans(n, p, d, s);
    var q := Rewritten(p);
    assert p[..v][0] == p[0];
    assert q[0] == p[0] && q[v] == p[v] && q[v + 1] == p[v + 1];
    assert Run(q, d, s.(pc := v + 1)) == Ret(1);
    assert Run(q, d, s.(pc := v)) == Ret(1);
  }

  lemma LongProgramMeans(n: nat, p: seq<Insn>, d: SeccompData, s: State)
    requires n > INSNS_MAX && p == LongProgram(n) && s.pc == 0
    ensures RunLabelled(p, d, s) == Ret(2)
  {
    LongProgramIs(n, p);
    LongProgramLabelled(n, p);
    var v := Visited(n);
    assert RunLabelled(p, d, s.(pc := v + 3)) == Ret(2);
    assert RunLabelled(p, d, s.(pc := v + 2)) == Ret(2);
    assert RunLabelled(p, d, s.(pc := v)) == Ret(2);
  }

  ghost predicate AlwaysPreserved(n: nat)
    requires n > 0
  {
    forall p: seq<Insn>, d: SeccompData, s: State ::
      |p| == n && WellLabelled(p) && WellLabelled(p[..Visited(n)]) && s.pc == 0 ==>
        Run(Rewritten(p), d, s) == RunLabelled(p, d, s)
  }

  /** The well-labelled programs of a length that are accepted all keep their meaning exactly up to 256. */
  lemma PreservedIffShort(n: nat)
    requires n > 0
    ensures AlwaysPreserved(n) <==> n <= 256
  {
    if n <= INSNS_MAX {
      forall p: seq<Insn>, d: SeccompData, s: State | |p| == n && WellLabelled(p) && s.pc == 0
        ensures Run(Rewritten(p), d, s) == RunLabelled(p, d, s)
      {
        ShortProgramsPreserved(p, d, s);
      }
    } else {
      var d: SeccompData, s := Data(0, 0, 0, [0, 0, 0, 0, 0, 0], false), State(0, 0, seq(SLOTS, _ => 0));
      LongProgramLosesItsJumps(n, d, s);
    }
  }

  /** The location table knows exactly the labels of `p` at index `from` and above. */
  ghost predicate Knows(labels: BpfLabels, p: seq<Insn>, from: nat)
    requires labels.Valid()
    reads labels, labels.entries
  {
    forall id: u32 :: id < labels.count ==>
      var at := labels.entries[id].location;
      if at == UNRESOLVED then forall j :: from <= j < |p| && IsLabel(p[j]) ==> p[j].k != id
      else from <= at < |p| && IsLabel(p[at]) && p[at].k == id
  }

  lemma ExtendFixed(p: seq<Insn>, i: nat, at: nat)
    requires i < at < |p| <= INSNS_MAX && LabelsDistinct(p, i + 1)
    requires IsJump(p[i]) && IsLabel(p[at]) && p[at].k == p[i].k
    ensures Fixed(p, i) == Stmt(JMP_JA, at - (i + 1)) && DefinedAfter(p, i, p[i].k)
  {
    var j := Seek(p, p[i].k, i + 1).value;
    assert j == at;
  }

  /** The backward walk has dealt with the instructions of `p` from index `from` on. */
  ghost predicate Settled(labels: BpfLabels, filter: array<Insn>, p: seq<Insn>, from: nat)
    requires labels.Valid()
    reads labels, labels.entries, filter
  {
    && from <= |p| <= filter.Length && |p| <= INSNS_MAX
    && filter[..from] == p[..from]
    && (forall j :: from <= j < |p| ==> filter[j] == Fixed(p, j))
    && LabelsDistinct(p, from) && JumpsForward(p, from)
    && Knows(labels, p, from)
  }

  // One turn of the walk; false when the instruction is refused.
  method FixOne(labels: BpfLabels, filter: array<Insn>, insn: u8, ghost p: seq<Insn>) returns (ok: bool)
    requires labels.Valid() && insn < |p| && Settled(labels, filter, p, insn + 1)
    requires IsMark(p[insn]) ==> p[insn].k < labels.count
    modifies filter, labels.entries
    ensures filter[|p|..] == old(filter[|p|..])
    ensures ok ==> Settled(labels, filter, p, insn)
    ensures !ok ==> !WellLabelled(p) && IsMark(p[insn]) && filter[..] == old(filter[..])
  {
    var f := filter[insn];
    assert f == filter[..insn + 1][insn] == p[insn];
    ok := true;
    if f.code == JMP_JA && f.jt == JUMP_MARK && f.jf == JUMP_MARK {
      if labels.entries[f.k].location == UNRESOLVED {
        assert !DefinedAfter(p, insn, f.k);
        return false;
      }
      ExtendFixed(p, insn, labels.entries[f.k].location);
      filter[insn] := Insn(f.code, 0, 0, (labels.entries[f.k].location - (insn + 1)) % TWO32);
    } else if f.code == JMP_JA && f.jt == LABEL_MARK && f.jf == LABEL_MARK {
      if labels.entries[f.k].location != UNRESOLVED {
        assert !LabelsDistinct(p, 0);
        return false;
      }
      labels.entries[f.k] := labels.entries[f.k].(location := insn);
      filter[insn] := Insn(f.code, 0, 0, 0);
    }
    assert filter[..insn] == p[..insn];
  }

  // The walk from the last instruction visited down to the first.
  method WalkBack(labels: BpfLabels, filter: array<Insn>, last: u8, ghost p: seq<Insn>) returns (ok: bool)
    requires labels.Valid() && labels.Unplaced() && |p| == last + 1 <= filter.Length && filter[..|p|] == p
    requires forall i :: 0 <= i < |p| && IsMark(p[i]) ==> p[i].k < labels.count
    modifies filter, labels.entries
    ensures ok <==> WellLabelled(p)
    ensures filter[|p|..] == old(filter[|p|..])
    ensures ok ==> forall i :: 0 <= i < |p| ==> filter[i] == Fixed(p, i)
    ensures !ok ==> exists bad :: 0 <= bad < |p| && IsMark(p[bad]) && filter[..bad + 1] == old(filter[..bad + 1])
  {
    var insn, at: int := last, last;
    while at >= 0
      invariant -1 <= at < |p| && (at >= 0 ==> insn == at)
      invariant labels.Valid() && Settled(labels, filter, p, at + 1)
      invariant filter[|p|..] == old(filter[|p|..])
    {
      ok := FixOne(labels, filter, insn, p);
      if !ok {
        assert filter[..insn + 1] == p[..insn + 1] == old(filter[..insn + 1]);
        return;
      }
      insn := (insn - 1) % INSNS_MAX;
      at := at - 1;
    }
    ok := true;
  }

  lemma RewrittenIs(now: seq<Insn>, was: seq<Insn>, count: nat)
    requires 1 <= count <= |was| == |now|
    requires var n := Visited(count);
             now[n..] == was[n..] && forall i :: 0 <= i < n ==> now[i] == Fixed(was[..n], i)
    ensures now[..count] == Rewritten(was[..count])
  {
    var n := Visited(count);
    assert now[..n] == Resolved(was[..n]);
    assert was[..count][..n] == was[..n];
    assert now[..count] == now[..n] + now[n..][..count - n];
  }

  /** bpf_resolve_jumps: 0 exactly when the visited instructions are well labelled, and then the
      filter holds the rewritten program; on a refusal everything up to the refused one is as it was. */
  method ResolveJumps(labels: BpfLabels, filter: array<Insn>, count: nat) returns (r: int)
    requires labels.Valid() && labels.Unplaced() && count <= filter.Length
    requires count > 0 ==> forall i :: 0 <= i < Visited(count) && IsMark(filter[i]) ==> filter[i].k < labels.count
    modifies filter, labels.entries
    ensures r in {-1, 0, 1} && (r == -1 <==> count < 1)
    ensures r == 0 <==> count >= 1 && WellLabelled(old(filter[..Visited(count)]))
    ensures r == 0 ==> filter[..count] == Rewritten(old(filter[..count]))
    ensures r == -1 ==> filter[..] == old(filter[..])
    ensures r == 1 ==> exists bad :: 0 <= bad < Visited(count) && IsMark(old(filter[bad])) &&
                         filter[..bad + 1] == old(filter[..bad + 1])
    ensures filter[count..] == old(filter[count..])
  {
    if count < 1 {
      return -1;
    }
    var insn: u8 := (count - 1) % INSNS_MAX;
    ghost var p := filter[..insn + 1];
    assert p == filter[..count][..Visited(count)];
    var ok := WalkBack(labels, filter, insn, p);
    if !ok {
      return 1;
    }
    RewrittenIs(filter[..], old(filter[..]), count);
    return 0;
  }
}
