/** Classic BPF as seccomp runs it: instructions, the `seccomp_data` input and the machine. */
module Bpf {
  import opened Common
  import opened Words

  // Opcodes of linux/filter.h, as the sums the helper macros write.
  const LD_W_ABS: u16 := 0x20
  const LD_MEM: u16 := 0x60
  const ST: u16 := 0x02
  const JMP_JA: u16 := 0x05
  const JMP_JEQ_K: u16 := 0x15
  const JMP_JGT_K: u16 := 0x25
  const JMP_JGE_K: u16 := 0x35
  const JMP_JSET_K: u16 := 0x45
  const RET_K: u16 := 0x06

  // struct sock_filter
  datatype Insn = Insn(code: u16, jt: u8, jf: u8, k: u32)

  function Stmt(code: u16, k: u32): Insn { Insn(code, 0, 0, k) }
  function JumpInsn(code: u16, k: u32, jt: u8, jf: u8): Insn { Insn(code, jt, jf, k) }

  // struct seccomp_data, together with the byte order it is laid out in.
  datatype DataFields = Data(nr: u32, arch: u32, ip: u64, args: seq<u64>, bigEndian: bool)
  type SeccompData = d: DataFields | |d.args| == 6 witness Data(0, 0, 0, [0, 0, 0, 0, 0, 0], false)

  /** The 32-bit word at byte offset `off` of the structure. */
  function LoadWord(d: SeccompData, off: nat): Option<u32> {
    if off % 4 != 0 || off >= 64 then None
    else if off == 0 then Some(d.nr)
    else if off == 4 then Some(d.arch)
    else
      var v := if off < 16 then d.ip else d.args[(off - 16) / 8];
      Some(if (off % 8 == 0) == d.bigEndian then Hi(v) else Lo(v))
  }

  /** The layout of seccomp_data: number, architecture, then instruction pointer and arguments as 64-bit
      words in the byte order of the machine. */
  lemma Layout(d: SeccompData, i: nat)
    requires i < 6
    ensures LoadWord(d, 0) == Some(d.nr) && LoadWord(d, 4) == Some(d.arch)
    ensures var first, second := LoadWord(d, 16 + 8 * i), LoadWord(d, 20 + 8 * i);
            && first.Some? && second.Some?
            && d.args[i] == if d.bigEndian then first.value * 0x1_0000_0000 + second.value
                            else first.value + second.value * 0x1_0000_0000
    ensures forall off :: off % 4 != 0 || off >= 64 ==> LoadWord(d, off).None?
  {
    assert (16 + 8 * i) % 8 == 0 && (20 + 8 * i) % 8 == 4;
  }

  const SLOTS := 16
  type Scratch = m: seq<u32> | |m| == SLOTS witness seq(SLOTS, _ => 0)
  datatype State = State(pc: nat, a: u32, m: Scratch)

  datatype Outcome = Ret(value: u32) | FellOff | Refused | Dangling
  datatype Next = Goto(s: State) | Halt(o: Outcome)

  predicate Test(code: u16, a: u32, k: u32) {
    if code == JMP_JEQ_K then a == k
    else if code == JMP_JGT_K then a > k
    else if code == JMP_JGE_K then a >= k
    else Meets(a, k)
  }

  predicate IsTest(code: u16) {
    code == JMP_JEQ_K || code == JMP_JGT_K || code == JMP_JGE_K || code == JMP_JSET_K
  }

  /** One instruction. Jump offsets count from the following instruction and never go backward. */
  function Exec(i: Insn, d: SeccompData, s: State): (n: Next)
    ensures n.Goto? ==> n.s.pc > s.pc
  {
    if i.code == RET_K then Halt(Ret(i.k))
    else if i.code == JMP_JA then Goto(s.(pc := s.pc + 1 + i.k))
    else if IsTest(i.code) then Goto(s.(pc := s.pc + 1 + if Test(i.code, s.a, i.k) then i.jt else i.jf))
    else if i.code == LD_W_ABS then
      match LoadWord(d, i.k)
      case None => Halt(Refused)
      case Some(w) => Goto(State(s.pc + 1, w, s.m))
    else if i.code == LD_MEM && i.k < SLOTS then Goto(State(s.pc + 1, s.m[i.k], s.m))
    else if i.code == ST && i.k < SLOTS then Goto(State(s.pc + 1, s.a, s.m[i.k := s.a]))
    else Halt(Refused)
  }

  /** Runs a program from a state; running past the last instruction is an outcome of its own. */
  function Run(p: seq<Insn>, d: SeccompData, s: State): Outcome
    decreases |p| - s.pc
  {
    if s.pc >= |p| then FellOff
    else
      match Exec(p[s.pc], d, s)
      case Halt(o) => o
      case Goto(t) => Run(p, d, t)
  }

  /** The instructions of `b` stand in `p` from index `i` on. */
  predicate At(p: seq<Insn>, i: nat, b: seq<Insn>) {
    i + |b| <= |p| && forall j :: 0 <= j < |b| ==> p[i + j] == b[j]
  }
}
