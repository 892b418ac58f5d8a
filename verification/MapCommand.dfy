/** user.c: the newuidmap and newgidmap command lines, assembled in a buffer of 1024 bytes. */
module MapCommand {
  import opened Common

  const BUF_SIZE := 1024

  /** The C string at the start of a buffer. */
  function CString(s: seq<char>): string {
    if s == [] || s[0] == NUL then [] else [s[0]] + CString(s[1..])
  }

  lemma {:induction false} CStringIs(s: seq<char>, t: string)
    requires |t| < |s| && s[..|t|] == t && s[|t|] == NUL && NUL !in t
    ensures CString(s) == t
  {
    if t != [] {
      assert s[0] == t[0];
      assert s[1..][..|t| - 1] == t[1..] by { assert s[..|t|][1..] == t[1..]; }
      CStringIs(s[1..], t[1..]);
    }
  }

  function Joined(parts: seq<string>): string {
    if parts == [] then [] else Joined(parts[..|parts| - 1]) + parts[|parts| - 1]
  }

  lemma {:induction false} JoinedNoNul(parts: seq<string>)
    requires forall p :: p in parts ==> NUL !in p
    ensures NUL !in Joined(parts)
  {
    if parts != [] {
      JoinedNoNul(parts[..|parts| - 1]);
    }
  }

  lemma {:induction false} JoinedGrows(parts: seq<string>, i: nat)
    requires i <= |parts|
    ensures |Joined(parts[..i])| <= |Joined(parts)|
  {
    if i < |parts| {
      var m := |parts| - 1;
      JoinedGrows(parts[..m], i);
      assert parts[..m][..i] == parts[..i];
    } else {
      assert parts[..i] == parts;
    }
  }

  /** snprintf of a text into the `len` bytes from `at` on: it writes no more than fits with a final NUL,
      nothing at all for len == 0, and tells the full length. */
  method Snprintf(buf: array<char>, at: nat, len: nat, text: string) returns (n: int)
    requires at + len <= buf.Length
    modifies buf
    ensures n == |text|
    ensures buf[..at] == old(buf[..at]) && buf[at + len..] == old(buf[at + len..])
    ensures len > 0 ==>
              var w := if |text| < len then |text| else len - 1;
              buf[at..at + w] == text[..w] && buf[at + w] == NUL
  {
    n := |text|;
    if len == 0 {
      return;
    }
    var j := 0;
    while j < |text| && j < len - 1
      invariant 0 <= j <= |text| && j <= len - 1
      invariant buf[..at] == old(buf[..at]) && buf[at + len..] == old(buf[at + len..])
      invariant buf[at..at + j] == text[..j]
    {
      buf[at + j] := text[j];
      j := j + 1;
    }
    buf[at + j] := NUL;
  }

  // The buffer after some parts: their text, cut at 1023 bytes, and a NUL.
  predicate Holds(s: seq<char>, done: string) {
    && |s| == BUF_SIZE && |done| <= BUF_SIZE
    && var w := if |done| < BUF_SIZE then |done| else BUF_SIZE - 1;
    && s[..w] == done[..w] && s[w] == NUL
  }

  // One snprintf of the builder and its check; false when the text does not fit.
  method Append(buf: array<char>, at: nat, len: nat, text: string, ghost done: string) returns (ok: bool)
    requires buf.Length == BUF_SIZE && at + len == BUF_SIZE && at == |done| && |text| > 0
    requires at > 0 ==> Holds(buf[..], done)
    modifies buf
    ensures ok <==> |done| + |text| <= BUF_SIZE
    ensures ok ==> Holds(buf[..], done + text)
  {
    var n := Snprintf(buf, at, len, text);
    if n <= 0 || n > len {
      return false;
    }
    var w := if |text| < len then |text| else len - 1;
    assert buf[..at] == done;
    assert buf[..at + w] == buf[..at] + buf[at..at + w];
    assert (done + text)[..at + w] == done + text[..w];
    return true;
  }

  /** userGidMapExternal and userUidMapExternal up to the call of system(): the command it would run.
      All bytes written are inside the buffer. A command of up to 1023 bytes is complete, one of 1024
      loses its last byte, and a longer one is refused. */
  method Build(parts: seq<string>) returns (r: Option<string>)
    requires parts != [] && forall p :: p in parts ==> |p| > 0 && NUL !in p
    ensures r.None? <==> |Joined(parts)| > 1024
    ensures r.Some? ==> r.value == if |Joined(parts)| < 1024 then Joined(parts) else Joined(parts)[..1023]
  {
    var buf := new char[BUF_SIZE];
    var at, len := 0, BUF_SIZE;
    var i := 0;
    while i < |parts|
      invariant 0 <= i <= |parts| && at + len == BUF_SIZE && at == |Joined(parts[..i])|
      invariant i > 0 ==> Holds(buf[..], Joined(parts[..i])) && at > 0
    {
      assert parts[..i + 1][..i] == parts[..i];
      var ok := Append(buf, at, len, parts[i], Joined(parts[..i]));
      if !ok {
        JoinedGrows(parts, i + 1);
        return None;
      }
      at, len := at + |parts[i]|, len - |parts[i]|;
      i := i + 1;
    }
    assert parts[..i] == parts;
    JoinedNoNul(parts);
    var w := if at < BUF_SIZE then at else BUF_SIZE - 1;
    assert NUL !in Joined(parts)[..w];
    CStringIs(buf[..], Joined(parts)[..w]);
    return Some(CString(buf[..]));
  }

  datatype Mapping = Mapping(insideId: string, outsideId: string, count: string)

  function MappingText(m: Mapping): string { " " + m.insideId + " " + m.outsideId + " " + m.count }

  function Parts(tool: string, pid: nat, inside: nat, outside: nat, ms: seq<Mapping>): (parts: seq<string>)
    ensures |parts| == |ms| + 1
    ensures forall i :: 0 <= i < |ms| ==> parts[i + 1] == MappingText(ms[i])
  {
    [Head(tool, pid, inside, outside)] +
    seq(|ms|, i requires 0 <= i < |ms| => MappingText(ms[i]))
  }

  predicate NoSpace(s: string) { forall j :: 0 <= j < |s| ==> s[j] != ' ' }

  // The last field grows.
  function AddTo(fs: seq<string>, t: string): (r: seq<string>)
    requires |fs| > 0
    ensures |r| == |fs|
  {
    fs[..|fs| - 1] + [fs[|fs| - 1] + t]
  }

  /** A text taken apart at its spaces. */
  function Fields(s: string): (fs: seq<string>)
    ensures |fs| > 0 && forall i :: 0 <= i < |fs| ==> NoSpace(fs[i])
  {
    if s == [] then [[]]
    else
      var fs, c := Fields(s[..|s| - 1]), s[|s| - 1];
      if c == ' ' then fs + [[]] else AddTo(fs, [c])
  }

  lemma AddToTwice(fs: seq<string>, t: string, u: string)
    requires |fs| > 0
    ensures AddTo(fs, []) == fs && AddTo(AddTo(fs, t), u) == AddTo(fs, t + u)
  {
    var last := fs[|fs| - 1];
    assert last + [] == last && last + t + u == last + (t + u);
  }

  lemma {:induction false} FieldsGrow(s: string, t: string)
    requires NoSpace(t)
    ensures Fields(s + t) == AddTo(Fields(s), t)
  {
    if t == [] {
      AddToTwice(Fields(s), [], []);
      assert s + t == s;
    } else {
      var m := |t| - 1;
      FieldsGrow(s, t[..m]);
      assert (s + t)[..|s + t| - 1] == s + t[..m] && (s + t)[|s + t| - 1] == t[m];
      AddToTwice(Fields(s), t[..m], [t[m]]);
      assert t[..m] + [t[m]] == t;
    }
  }

  lemma NextField(s: string, t: string)
    requires NoSpace(t)
    ensures Fields(s + " " + t) == Fields(s) + [t]
  {
    assert (s + " ")[..|s|] == s;
    assert Fields(s + " ") == Fields(s) + [[]];
    FieldsGrow(s + " ", t);
    assert [] + t == t;
  }

  /** A text with more fields after it. */
  function Spaced(s: string, ts: seq<string>): string {
    if ts == [] then s else Spaced(s, ts[..|ts| - 1]) + " " + ts[|ts| - 1]
  }

  lemma {:induction false} FieldsOf(s: string, ts: seq<string>)
    requires forall i :: 0 <= i < |ts| ==> NoSpace(ts[i])
    ensures Fields(Spaced(s, ts)) == Fields(s) + ts
  {
    if ts != [] {
      var m := |ts| - 1;
      FieldsOf(s, ts[..m]);
      NextField(Spaced(s, ts[..m]), ts[m]);
      assert ts[..m] + [ts[m]] == ts;
    }
  }

  predicate Plain(m: Mapping) { NoSpace(m.insideId) && NoSpace(m.outsideId) && NoSpace(m.count) }

  lemma SpacedThree(s: string, a: string, b: string, c: string)
    ensures Spaced(s, [a, b, c]) == s + " " + a + " " + b + " " + c
  {
    assert [a, b, c][..2] == [a, b] && [a, b][..1] == [a] && [a][..0] == [];
    assert Spaced(s, [a]) == s + " " + a;
    assert Spaced(s, [a, b]) == s + " " + a + " " + b;
  }

  lemma MappingSpaced(s: string, m: Mapping)
    ensures s + " " + m.insideId + " " + m.outsideId + " " + m.count == s + MappingText(m)
  {
  }

  lemma OneSpaced(s: string)
    ensures s + " " + "1" == s + " 1"
  {
  }

  lemma NextMapping(s: string, m: Mapping)
    requires Plain(m)
    ensures Fields(s + MappingText(m)) == Fields(s) + [m.insideId, m.outsideId, m.count]
  {
    var ts := [m.insideId, m.outsideId, m.count];
    assert forall i :: 0 <= i < |ts| ==> NoSpace(ts[i]);
    SpacedThree(s, m.insideId, m.outsideId, m.count);
    MappingSpaced(s, m);
    FieldsOf(s, ts);
  }

  function Head(tool: string, pid: nat, inside: nat, outside: nat): string {
    tool + " " + Decimal(pid) + " " + Decimal(inside) + " " + Decimal(outside) + " 1"
  }

  lemma FirstField(s: string)
    requires NoSpace(s)
    ensures Fields(s) == [s]
  {
    FieldsGrow([], s);
    assert [] + s == s;
  }

  lemma FiveFields(t: string, p: string, i: string, o: string)
    requires NoSpace(t) && NoSpace(p) && NoSpace(i) && NoSpace(o)
    ensures Fields(t + " " + p + " " + i + " " + o + " 1") == [t, p, i, o, "1"]
  {
    FirstField(t);
    var ts := [p, i, o];
    FieldsOf(t, ts);
    SpacedThree(t, p, i, o);
    NextField(Spaced(t, ts), "1");
    OneSpaced(Spaced(t, ts));
  }

  lemma DecimalNoSpace(n: nat)
    ensures NoSpace(Decimal(n))
  {
    DecimalReadsBack(n);
  }

  lemma HeadFields(tool: string, pid: nat, inside: nat, outside: nat)
    requires NoSpace(tool)
    ensures Fields(Head(tool, pid, inside, outside)) == [tool, Decimal(pid), Decimal(inside), Decimal(outside), "1"]
  {
    DecimalNoSpace(pid);
    DecimalNoSpace(inside);
    DecimalNoSpace(outside);
    FiveFields(tool, Decimal(pid), Decimal(inside), Decimal(outside));
  }

  /** The command read back: the tool, the three numbers in base 10 and a 1, then inside id, outside id and
      count of each mapping, in order. */
  ghost predicate ReadsBack(cmd: string, tool: string, pid: nat, inside: nat, outside: nat, ms: seq<Mapping>) {
    var fs := Fields(cmd);
    && |fs| == 5 + 3 * |ms|
    && fs[0] == tool && fs[1] == Decimal(pid) && fs[2] == Decimal(inside) && fs[3] == Decimal(outside) && fs[4] == "1"
    && forall i :: 0 <= i < |ms| ==>
         fs[5 + 3 * i] == ms[i].insideId && fs[6 + 3 * i] == ms[i].outsideId && fs[7 + 3 * i] == ms[i].count
  }

  lemma MoreReadsBack(cmd: string, tool: string, pid: nat, inside: nat, outside: nat, ms: seq<Mapping>)
    requires ms != [] && Plain(ms[|ms| - 1]) && ReadsBack(cmd, tool, pid, inside, outside, ms[..|ms| - 1])
    ensures ReadsBack(cmd + MappingText(ms[|ms| - 1]), tool, pid, inside, outside, ms)
  {
    var m := |ms| - 1;
    var fs, more := Fields(cmd), [ms[m].insideId, ms[m].outsideId, ms[m].count];
    NextMapping(cmd, ms[m]);
    forall i | 0 <= i < m
      ensures (fs + more)[5 + 3 * i] == ms[i].insideId
      ensures (fs + more)[6 + 3 * i] == ms[i].outsideId && (fs + more)[7 + 3 * i] == ms[i].count
    {
      assert ms[..m][i] == ms[i];
    }
  }

  lemma PartsPrefix(tool: string, pid: nat, inside: nat, outside: nat, ms: seq<Mapping>)
    requires ms != []
    ensures var parts, m := Parts(tool, pid, inside, outside, ms), |ms| - 1;
            parts[..m + 1] == Parts(tool, pid, inside, outside, ms[..m]) && parts[m + 1] == MappingText(ms[m])
  {
  }

  lemma {:induction false} CommandReadsBack(tool: string, pid: nat, inside: nat, outside: nat, ms: seq<Mapping>)
    requires NoSpace(tool) && forall i :: 0 <= i < |ms| ==> Plain(ms[i])
    ensures ReadsBack(Joined(Parts(tool, pid, inside, outside, ms)), tool, pid, inside, outside, ms)
    decreases |ms|
  {
    if ms == [] {
      var head := Head(tool, pid, inside, outside);
      HeadFields(tool, pid, inside, outside);
      assert Parts(tool, pid, inside, outside, ms) == [head];
      assert [head][..0] == [] && Joined([]) + head == head;
    } else {
      CommandReadsBack(tool, pid, inside, outside, ms[..|ms| - 1]);
      PartsPrefix(tool, pid, inside, outside, ms);
      MoreReadsBack(Joined(Parts(tool, pid, inside, outside, ms[..|ms| - 1])), tool, pid, inside, outside, ms);
    }
  }

  /** The external mapping command for a child, for any list of mappings. */
  method MapExternal(tool: string, pid: nat, inside: nat, outside: nat, ms: seq<Mapping>) returns (r: Option<string>)
    requires NUL !in tool && forall m :: m in ms ==> NUL !in m.insideId && NUL !in m.outsideId && NUL !in m.count
    ensures var full := Joined(Parts(tool, pid, inside, outside, ms));
            && (r.None? <==> |full| > 1024)
            && (|full| < 1024 ==> r == Some(full))
            && (|full| == 1024 ==> r == Some(full[..1023]))
            && (|full| < 1024 && NoSpace(tool) && (forall i :: 0 <= i < |ms| ==> Plain(ms[i])) ==>
                  ReadsBack(r.value, tool, pid, inside, outside, ms))
  {
    if NoSpace(tool) && forall i :: 0 <= i < |ms| ==> Plain(ms[i]) {
      CommandReadsBack(tool, pid, inside, outside, ms);
    }
    var parts := Parts(tool, pid, inside, outside, ms);
    forall p | p in parts
      ensures |p| > 0 && NUL !in p
    {
      var i :| 0 <= i < |parts| && parts[i] == p;
      if i > 0 {
        assert ms[i - 1] in ms;
      }
    }
    r := Build(parts);
  }
}
