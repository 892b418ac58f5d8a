/** util.c: reading and writing a whole buffer through calls that may move only part of it. */
module Transfer {
  import opened Common

  /** What one call answers. A write moves a count of bytes, cut to what it was asked for; a read has some
      bytes, none at the end of the stream, and takes no more of them than it was asked for. */
  datatype Answer<T> = Interrupted | Failed | Moved(what: T)

  function Min(a: nat, b: nat): nat { if a < b then a else b }

  // ---- utilWriteToFd ---------------------------------------------------------------------------

  /** The answers before the first error. */
  function Clean(answers: seq<Answer<nat>>): (r: seq<Answer<nat>>)
    ensures r <= answers && (forall i :: 0 <= i < |r| ==> !r[i].Failed?) && (|r| < |answers| ==> answers[|r|].Failed?)
  {
    if answers == [] || answers[0].Failed? then [] else [answers[0]] + Clean(answers[1..])
  }

  function Count(a: Answer<nat>): nat { if a.Moved? then a.what else 0 }

  function Total(answers: seq<Answer<nat>>): nat {
    if answers == [] then 0 else Total(answers[..|answers| - 1]) + Count(answers[|answers| - 1])
  }

  /** How a write of `len` bytes ends: 1 if the counts before the first error reach `len`, 0 if an error
      comes before that, None while the answers so far do neither. */
  function WriteResult(len: nat, answers: seq<Answer<nat>>): Option<int> {
    if Total(Clean(answers)) >= len then Some(1) else if |Clean(answers)| < |answers| then Some(0) else None
  }

  lemma {:induction false} TotalGrows(answers: seq<Answer<nat>>, k: nat)
    requires k <= |answers|
    ensures Total(answers[..k]) <= Total(answers)
  {
    if k < |answers| {
      var m := |answers| - 1;
      TotalGrows(answers[..m], k);
      assert answers[..m][..k] == answers[..k];
    } else {
      assert answers[..k] == answers;
    }
  }

  // An answer that is no error, after others that are none.
  lemma WriteGoesOn(answers: seq<Answer<nat>>, k: nat)
    requires k < |answers| && k <= |Clean(answers)| && !answers[k].Failed?
    ensures k < |Clean(answers)| && Total(Clean(answers)[..k + 1]) == Total(Clean(answers)[..k]) + Count(answers[k])
  {
    assert Clean(answers)[..k + 1][..k] == Clean(answers)[..k];
  }

  lemma WriteStep(answers: seq<Answer<nat>>, k: nat, buf: seq<nat>, written: nat)
    requires k < |answers| && k <= |Clean(answers)| && !answers[k].Failed?
    requires written == Min(Total(Clean(answers)[..k]), |buf|) < |buf|
    ensures k < |Clean(answers)|
    ensures var m := Min(Count(answers[k]), |buf| - written);
            && Min(Total(Clean(answers)[..k + 1]), |buf|) == written + m
            && buf[..written] + buf[written..written + m] == buf[..written + m]
  {
    WriteGoesOn(answers, k);
  }

  lemma WriteEnds(answers: seq<Answer<nat>>, k: nat)
    requires k <= |Clean(answers)| && (k < |answers| ==> answers[k].Failed?)
    ensures Clean(answers)[..k] == Clean(answers) && (k < |answers| <==> |Clean(answers)| < |answers|)
  {
  }

  /** utilWriteToFd, with the answers of its write calls: interrupted calls are repeated, partial ones
      added up. What has gone out is the beginning of the buffer, as far as the calls moved it. */
  method WriteToFd(buf: seq<nat>, answers: seq<Answer<nat>>) returns (r: Option<int>, sent: seq<nat>)
    ensures r == WriteResult(|buf|, answers)
    ensures sent == buf[..Min(Total(Clean(answers)), |buf|)]
  {
    var written, k := 0, 0;
    sent := [];
    while written < |buf|
      invariant k <= |Clean(answers)|
      invariant written == Min(Total(Clean(answers)[..k]), |buf|) && sent == buf[..written]
      decreases |answers| - k
    {
      if k == |answers| {
        WriteEnds(answers, k);
        return None, sent;
      }
      var a := answers[k];
      if a.Failed? {
        WriteEnds(answers, k);
        return Some(0), sent;
      }
      WriteStep(answers, k, buf, written);
      k := k + 1;
      if a.Interrupted? {
        continue;
      }
      var m := Min(a.what, |buf| - written);
      sent := sent + buf[written..written + m];
      written := written + m;
    }
    TotalGrows(Clean(answers), k);
    return Some(1), sent;
  }

  /** Comparing the result with the length, as the handshake does, tells success from failure for every
      course of the calls exactly when the message is one byte long. */
  lemma SizeTestIff(len: nat)
    ensures (forall answers :: WriteResult(len, answers).Some? ==>
               (WriteResult(len, answers).value == len <==> Total(Clean(answers)) >= len)) <==> len == 1
  {
    var once := [Moved(len)];
    assert Clean(once) == once && once[..0] == [];
    assert WriteResult(len, once) == Some(1);
  }

  // One byte can go out, and it can fail.
  lemma OneByte(out: bool)
    ensures exists answers :: WriteResult(1, answers) == Some(if out then 1 else 0)
  {
    var answers := [if out then Moved(1) else Failed];
    assert Clean(answers) == if out then answers else [];
    assert WriteResult(1, answers) == Some(if out then 1 else 0);
  }

  // ---- utilReadFromFd --------------------------------------------------------------------------

  predicate Stops(a: Answer<seq<nat>>) { a.Failed? || (a.Moved? && a.what == []) }

  /** The answers before the first error or end of the stream. */
  function Going(answers: seq<Answer<seq<nat>>>): (r: seq<Answer<seq<nat>>>)
    ensures r <= answers && (forall i :: 0 <= i < |r| ==> !Stops(r[i])) && (|r| < |answers| ==> Stops(answers[|r|]))
  {
    if answers == [] || Stops(answers[0]) then [] else [answers[0]] + Going(answers[1..])
  }

  function Bytes(a: Answer<seq<nat>>): seq<nat> { if a.Moved? then a.what else [] }

  function Stream(answers: seq<Answer<seq<nat>>>): seq<nat> {
    if answers == [] then [] else Stream(answers[..|answers| - 1]) + Bytes(answers[|answers| - 1])
  }

  function Upto(s: seq<nat>, len: nat): seq<nat> { s[..Min(|s|, len)] }

  /** How a read of `len` bytes ends: with what came before the first error or end of the stream, up to
      `len`; None while the answers so far do not decide. */
  function ReadResult(len: nat, answers: seq<Answer<seq<nat>>>): Option<nat> {
    var came := |Stream(Going(answers))|;
    if came >= len then Some(len) else if |Going(answers)| < |answers| then Some(came) else None
  }

  lemma {:induction false} StreamGrows(answers: seq<Answer<seq<nat>>>, k: nat)
    requires k <= |answers|
    ensures Stream(answers[..k]) <= Stream(answers)
  {
    if k < |answers| {
      var m := |answers| - 1;
      StreamGrows(answers[..m], k);
      assert answers[..m][..k] == answers[..k];
    } else {
      assert answers[..k] == answers;
    }
  }

  lemma ReadGoesOn(answers: seq<Answer<seq<nat>>>, k: nat)
    requires k < |answers| && k <= |Going(answers)| && !Stops(answers[k])
    ensures k < |Going(answers)| && Stream(Going(answers)[..k + 1]) == Stream(Going(answers)[..k]) + Bytes(answers[k])
  {
    assert Going(answers)[..k + 1][..k] == Going(answers)[..k];
  }

  lemma ReadEnds(answers: seq<Answer<seq<nat>>>, k: nat)
    requires k <= |Going(answers)| && (k < |answers| ==> Stops(answers[k]))
    ensures Going(answers)[..k] == Going(answers) && (k < |answers| <==> |Going(answers)| < |answers|)
  {
  }

  lemma UptoMore(s: seq<nat>, t: seq<nat>, len: nat)
    requires |s| < len
    ensures Upto(s, len) == s && Upto(s + t, len) == s + Upto(t, len - |s|)
  {
  }

  // After `k` answers, none of which stops it, a read of `len` bytes has got these.
  predicate ReadSoFar(answers: seq<Answer<seq<nat>>>, k: nat, len: nat, got: seq<nat>) {
    k <= |Going(answers)| && got == Upto(Stream(Going(answers)[..k]), len)
  }

  lemma ReadStep(answers: seq<Answer<seq<nat>>>, k: nat, len: nat, got: seq<nat>)
    requires k < |answers| && !Stops(answers[k]) && ReadSoFar(answers, k, len, got) && |got| < len
    ensures ReadSoFar(answers, k + 1, len, got + Upto(Bytes(answers[k]), len - |got|))
    ensures answers[k].Interrupted? ==> ReadSoFar(answers, k + 1, len, got)
  {
    ReadGoesOn(answers, k);
    UptoMore(Stream(Going(answers)[..k]), Bytes(answers[k]), len);
  }

  lemma ReadStopped(answers: seq<Answer<seq<nat>>>, k: nat, len: nat, got: seq<nat>)
    requires ReadSoFar(answers, k, len, got) && |got| < len && (k < |answers| ==> Stops(answers[k]))
    ensures got == Upto(Stream(Going(answers)), len)
    ensures ReadResult(len, answers) == if k < |answers| then Some(|got|) else None
  {
    ReadEnds(answers, k);
  }

  lemma ReadFull(answers: seq<Answer<seq<nat>>>, k: nat, len: nat, got: seq<nat>)
    requires ReadSoFar(answers, k, len, got) && |got| >= len
    ensures got == Upto(Stream(Going(answers)), len) && |got| == len && ReadResult(len, answers) == Some(len)
  {
    StreamGrows(Going(answers), k);
    UptoSame(Stream(Going(answers)[..k]), Stream(Going(answers)), len);
  }

  lemma UptoSame(s: seq<nat>, t: seq<nat>, len: nat)
    requires s <= t && len <= |s|
    ensures Upto(s, len) == Upto(t, len)
  {
  }

  // The first answer that is no interruption.
  predicate Decides(answers: seq<Answer<seq<nat>>>, i: nat) {
    i < |answers| && !answers[i].Interrupted? && forall j :: 0 <= j < i ==> answers[j].Interrupted?
  }

  lemma {:induction false} NothingYet(answers: seq<Answer<seq<nat>>>)
    requires forall j :: 0 <= j < |answers| ==> answers[j].Interrupted?
    ensures Going(answers) == answers && Stream(answers) == []
  {
    if answers != [] {
      NothingYet(answers[..|answers| - 1]);
      assert |Going(answers)| == |answers|;
    }
  }

  /** A read of one byte, as the child does: the first answer that is no interruption decides. It returns 1
      exactly if that has bytes, of which it gets the first, and 0 exactly if that is an error or the end of
      the stream. */
  lemma OneByteRead(answers: seq<Answer<seq<nat>>>, i: nat)
    requires Decides(answers, i)
    ensures ReadResult(1, answers) == Some(if Stops(answers[i]) then 0 else 1)
    ensures Upto(Stream(Going(answers)), 1) == if Stops(answers[i]) then [] else answers[i].what[..1]
  {
    var g := Going(answers);
    assert |g| >= i && g[..i] == answers[..i];
    NothingYet(answers[..i]);
    if !Stops(answers[i]) {
      assert |g| > i && g[..i + 1][..i] == answers[..i];
      assert Stream(g[..i + 1]) == answers[i].what;
      StreamGrows(g, i + 1);
    } else {
      assert g == answers[..i];
    }
  }

  /** utilReadFromFd, with the answers of its read calls: interrupted calls are repeated, and it stops at
      `len` bytes, at the first error or at the end of the stream. */
  method ReadFromFd(len: nat, answers: seq<Answer<seq<nat>>>) returns (r: Option<nat>, got: seq<nat>)
    ensures r == ReadResult(len, answers)
    ensures got == Upto(Stream(Going(answers)), len)
  {
    var readSz, k := 0, 0;
    got := [];
    while readSz < len
      invariant ReadSoFar(answers, k, len, got) && readSz == |got|
      decreases |answers| - k
    {
      if k == |answers| {
        ReadStopped(answers, k, len, got);
        return None, got;
      }
      var a := answers[k];
      if a.Failed? || (a.Moved? && a.what == []) {
        ReadStopped(answers, k, len, got);
        return Some(readSz), got;
      }
      ReadStep(answers, k, len, got);
      k := k + 1;
      if a.Interrupted? {
        continue;
      }
      var taken := Upto(a.what, len - readSz);
      got := got + taken;
      readSz := readSz + |taken|;
    }
    ReadFull(answers, k, len, got);
    return Some(readSz), got;
  }
}
