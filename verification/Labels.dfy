/** The label table of struct bpf_labels: names are interned as small numbers. */
module Labels {
  import opened Common
  import opened Words

  const UNRESOLVED: u32 := 0xffff_ffff
  const BPF_LABELS_MAX: nat := 256

  predicate NoDups(t: seq<string>) {
    forall i, j :: 0 <= i < j < |t| ==> t[i] != t[j]
  }

  function IndexOf(t: seq<string>, name: string): (i: nat)
    requires name in t
    ensures i < |t| && t[i] == name
    ensures forall j :: 0 <= j < i ==> t[j] != name
  {
    if t[0] == name then 0 else 1 + IndexOf(t[1..], name)
  }

  /** The table after one lookup; None where the program gives up, which a full table always does. */
  function Intern(t: seq<string>, name: string): Option<seq<string>> {
    if |t| == BPF_LABELS_MAX then None
    else if name in t then Some(t)
    else Some(t + [name])
  }

  function InternAll(t: seq<string>, calls: seq<string>): Option<seq<string>> {
    if calls == [] then Some(t)
    else
      match InternAll(t, calls[..|calls| - 1])
      case None => None
      case Some(u) => Intern(u, calls[|calls| - 1])
  }

  function NameSet(names: seq<string>): set<string> { set x | x in names }

  lemma NoDupsCount(t: seq<string>)
    requires NoDups(t)
    ensures |NameSet(t)| == |t|
  {
    if t != [] {
      var m := |t| - 1;
      NoDupsCount(t[..m]);
      assert NameSet(t) == NameSet(t[..m]) + {t[m]};
    }
  }

  /** Lookups in any order leave a table without repetitions that holds exactly the names asked for,
      and numbers given out stay valid: the table only grows at its end. */
  lemma {:induction false} InternAllTable(calls: seq<string>)
    ensures var r := InternAll([], calls);
            r.Some? ==> NoDups(r.value) && NameSet(r.value) == NameSet(calls) && |r.value| <= BPF_LABELS_MAX
    ensures forall i :: 0 <= i <= |calls| ==>
              (InternAll([], calls).Some? ==>
                 InternAll([], calls[..i]).Some? && InternAll([], calls[..i]).value <= InternAll([], calls).value)
  {
    if calls == [] {
      assert forall i :: 0 <= i <= |calls| ==> calls[..i] == calls;
    } else {
      var m := |calls| - 1;
      InternAllTable(calls[..m]);
      assert NameSet(calls) == NameSet(calls[..m]) + {calls[m]};
      var r := InternAll([], calls);
      if r.Some? {
        var u := InternAll([], calls[..m]).value;
        assert r.value == u || r.value == u + [calls[m]];
        assert NameSet(u + [calls[m]]) == NameSet(u) + {calls[m]};
        forall i | 0 <= i <= |calls|
          ensures InternAll([], calls[..i]).Some? && InternAll([], calls[..i]).value <= r.value
        {
          if i == |calls| {
            assert calls[..i] == calls;
          } else {
            assert calls[..i] == calls[..m][..i];
          }
        }
      }
    }
  }

  /** The program gives up exactly when the names before the last lookup fill the table. */
  lemma {:induction false} GivesUpIff(calls: seq<string>)
    ensures InternAll([], calls).None? <==> calls != [] && |NameSet(calls[..|calls| - 1])| >= 256
  {
    if calls != [] {
      var m := |calls| - 1;
      GivesUpIff(calls[..m]);
      InternAllTable(calls[..m]);
      var r := InternAll([], calls[..m]);
      if r.Some? {
        NoDupsCount(r.value);
      } else {
        assert NameSet(calls[..m][..m - 1]) <= NameSet(calls[..m]);
        SubsetCount(NameSet(calls[..m][..m - 1]), NameSet(calls[..m]));
      }
    }
  }

  lemma SubsetCount(a: set<string>, b: set<string>)
    requires a <= b
    ensures |a| <= |b|
  {
    assert b == a + (b - a);
  }

  lemma {:induction false} NameSetSize(names: seq<string>)
    ensures |NameSet(names)| <= |names|
  {
    if names != [] {
      var m := |names| - 1;
      NameSetSize(names[..m]);
      assert NameSet(names) == NameSet(names[..m]) + {names[m]};
    }
  }

  /** Up to 256 lookups never make it give up, whatever their order. */
  lemma FewLookupsSucceed(calls: seq<string>)
    requires |calls| <= 256
    ensures InternAll([], calls).Some?
  {
    GivesUpIff(calls);
    if calls != [] {
      NameSetSize(calls[..|calls| - 1]);
    }
  }

  /** A number handed out by a lookup is the name's number in the final table. */
  lemma NextLookup(calls: seq<string>, j: nat, names: seq<string>)
    requires j < |calls| && InternAll([], calls).Some? && InternAll([], calls[..j]) == Some(names)
    ensures InternAll([], calls[..j + 1]) == Intern(names, calls[j]) && Intern(names, calls[j]).Some?
    ensures var now, final := Intern(names, calls[j]).value, InternAll([], calls).value;
            calls[j] in now && calls[j] in final && IndexOf(now, calls[j]) == IndexOf(final, calls[j])
  {
    InternAllTable(calls);
    assert calls[..j + 1][..j] == calls[..j];
    assert InternAll([], calls[..j + 1]).Some?;
    var now, final := Intern(names, calls[j]).value, InternAll([], calls).value;
    assert now <= final;
    assert calls[j] in now;
  }

  datatype LabelEntry = LabelEntry(name: string, location: u32)

  /** struct bpf_labels: the first `count` entries are in use. */
  class BpfLabels {
    var count: nat
    const entries: array<LabelEntry>

    constructor ()
      ensures Valid() && count == 0 && Unplaced() && Names() == [] && fresh(entries)
    {
      count := 0;
      entries := new LabelEntry[BPF_LABELS_MAX](_ => LabelEntry("", 0));
    }

    ghost predicate Valid()
      reads this
    {
      entries.Length == BPF_LABELS_MAX && count <= BPF_LABELS_MAX
    }

    ghost predicate Unplaced()
      requires Valid()
      reads this, entries
    {
      forall id :: 0 <= id < count ==> entries[id].location == UNRESOLVED
    }

    ghost function Names(): (t: seq<string>)
      requires Valid()
      reads this, entries
      ensures |t| == count && forall i :: 0 <= i < count ==> t[i] == entries[i].name
    {
      var used := entries[..count];
      seq(|used|, i requires 0 <= i < |used| => used[i].name)
    }

    /** seccomp_bpf_label: the index of the name in the table, which gains it if it was not there;
        None for the exit on a full table. */
    method Find(name: string) returns (r: Option<u32>)
      requires Valid() && Unplaced()
      modifies this, entries
      ensures Valid() && Unplaced()
      ensures r.None? <==> Intern(old(Names()), name).None?
      ensures r.None? ==> Names() == old(Names())
      ensures r.Some? ==> Intern(old(Names()), name) == Some(Names())
      ensures r.Some? ==> name in Names() && r.value == IndexOf(Names(), name)
    {
      if count == BPF_LABELS_MAX {
        return None;
      }
      ghost var before := Names();
      var id := 0;
      while id < count
        invariant 0 <= id <= count && count == old(count) && Valid() && Unplaced()
        invariant Names() == before && forall j :: 0 <= j < id ==> before[j] != name
      {
        if entries[id].name == name {
          return Some(id);
        }
        id := id + 1;
      }
      entries[count] := LabelEntry(name, UNRESOLVED);
      count := count + 1;
      assert Names() == before + [name];
      return Some(id);
    }
  }
}
