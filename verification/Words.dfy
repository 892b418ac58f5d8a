/** Fixed-width unsigned words, and the bit test behind BPF_JSET. */
module Words {

  const TWO32: int := 0x1_0000_0000
  const TWO64: int := 0x1_0000_0000_0000_0000

  type u8 = x: int | 0 <= x < 0x100
  type u16 = x: int | 0 <= x < 0x1_0000
  type u32 = x: int | 0 <= x < TWO32
  type u64 = x: int | 0 <= x < TWO64

  /** The `hi32` and `lo32` members of `union arg64`. */
  function Hi(x: u64): u32 { x / TWO32 }
  function Lo(x: u64): u32 { x % TWO32 }

  /** `a & b != 0`: some bit is set in both numbers. */
  predicate Meets(a: nat, b: nat) {
    a != 0 && b != 0 && ((a % 2 == 1 && b % 2 == 1) || Meets(a / 2, b / 2))
  }

  predicate Bit(a: nat, n: nat) { if n == 0 then a % 2 == 1 else Bit(a / 2, n - 1) }

  lemma {:induction false} BitMeets(a: nat, b: nat, n: nat)
    requires Bit(a, n) && Bit(b, n)
    ensures Meets(a, b)
    decreases n
  {
    if n > 0 {
      BitMeets(a / 2, b / 2, n - 1);
    }
  }

  lemma {:induction false} MeetsBit(a: nat, b: nat) returns (n: nat)
    requires Meets(a, b)
    ensures Bit(a, n) && Bit(b, n)
    decreases a
  {
    if a % 2 == 1 && b % 2 == 1 {
      n := 0;
    } else {
      n := MeetsBit(a / 2, b / 2);
      n := n + 1;
    }
  }

  // Bit `n` is set in both.
  predicate Share(a: nat, b: nat, n: nat) { Bit(a, n) && Bit(b, n) }

  /** They do exactly when some bit position is set in both. */
  lemma MeetsIff(a: nat, b: nat)
    ensures Meets(a, b) <==> exists n: nat :: Share(a, b, n)
  {
    if Meets(a, b) {
      var n := MeetsBit(a, b);
      assert Share(a, b, n);
    } else if n: nat :| Share(a, b, n) {
      BitMeets(a, b, n);
    }
  }

  function Pow2(n: nat): (p: nat)
    ensures p > 0
  {
    if n == 0 then 1 else 2 * Pow2(n - 1)
  }

  lemma {:induction false} Pow2Sum(m: nat, n: nat)
    ensures Pow2(m + n) == Pow2(m) * Pow2(n)
  {
    if m > 0 {
      Pow2Sum(m - 1, n);
    }
  }

  lemma HalveShifted(n: nat, h: nat, l: nat)
    requires n > 0
    ensures (h * Pow2(n) + l) % 2 == l % 2
    ensures (h * Pow2(n) + l) / 2 == h * Pow2(n - 1) + l / 2
  {
    assert h * Pow2(n) == 2 * (h * Pow2(n - 1));
  }

  lemma ShiftedZero(n: nat, h: nat, l: nat)
    ensures h * Pow2(n) + l == 0 <==> h == 0 && l == 0
  {
    if h > 0 {
      assert h * Pow2(n) >= 1 * Pow2(n) by { MulMono(1, h, Pow2(n)); }
    }
  }

  lemma MulMono(a: nat, b: nat, c: nat)
    requires a <= b
    ensures a * c <= b * c
  {
  }

  lemma {:induction false} MeetsShifted(n: nat, h1: nat, l1: nat, h2: nat, l2: nat)
    requires l1 < Pow2(n) && l2 < Pow2(n)
    ensures Meets(h1 * Pow2(n) + l1, h2 * Pow2(n) + l2) <==> Meets(h1, h2) || Meets(l1, l2)
  {
    if n > 0 {
      HalveShifted(n, h1, l1);
      HalveShifted(n, h2, l2);
      ShiftedZero(n, h1, l1);
      ShiftedZero(n, h2, l2);
      MeetsShifted(n - 1, h1, l1 / 2, h2, l2 / 2);
    }
  }

  lemma Pow2At32()
    ensures Pow2(32) == TWO32
  {
    Pow2Sum(16, 16);
    Pow2Sum(8, 8);
    assert Pow2(8) == 0x100;
  }

  /** Two 64-bit words share a set bit exactly when their high halves or their low halves do. */
  lemma MeetsByHalves(a: u64, b: u64)
    ensures Meets(a, b) <==> Meets(Hi(a), Hi(b)) || Meets(Lo(a), Lo(b))
  {
    var n := 32;
    Pow2At32();
    assert a == Hi(a) * Pow2(n) + Lo(a) && b == Hi(b) * Pow2(n) + Lo(b);
    MeetsShifted(n, Hi(a), Lo(a), Hi(b), Lo(b));
  }
}
