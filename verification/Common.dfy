/** What several parts share. */
module Common {

  datatype Option<+T> = None | Some(value: T)

  const NUL: char := '\0'

  /** Unsigned decimal text, as printf writes it. */
  function Decimal(n: nat): (s: string)
    ensures |s| > 0 && NUL !in s
  {
    if n < 10 then [('0' as int + n) as char] else Decimal(n / 10) + Decimal(n % 10)
  }

  predicate IsDigit(c: char) { '0' <= c <= '9' }

  /** The number a text of digits stands for. */
  function Value(s: string): nat
    requires forall i :: 0 <= i < |s| ==> IsDigit(s[i])
  {
    if s == [] then 0
    else
      var c := s[|s| - 1];
      assert IsDigit(c);
      10 * Value(s[..|s| - 1]) + (c as int - '0' as int)
  }

  /** Reading the text of a number in base 10 gives it back; it has only digits and no leading zero. */
  lemma {:induction false} DecimalReadsBack(n: nat)
    ensures forall i :: 0 <= i < |Decimal(n)| ==> IsDigit(Decimal(n)[i])
    ensures Value(Decimal(n)) == n && (Decimal(n)[0] == '0' ==> n == 0)
  {
    if n >= 10 {
      var s, m := Decimal(n), |Decimal(n)| - 1;
      DecimalReadsBack(n / 10);
      assert s[..m] == Decimal(n / 10) && s[m] == ('0' as int + n % 10) as char;
    } else {
      assert Decimal(n)[..0] == [];
    }
  }

  lemma Bound(s: set<nat>) returns (b: nat)
    ensures forall x :: x in s ==> x < b
  {
    if s == {} {
      b := 0;
    } else {
      var x :| x in s;
      var rest := Bound(s - {x});
      assert forall y :: y in s ==> y == x || y in s - {x};
      b := if x < rest then rest else x + 1;
    }
  }

  /** There is always a number not in use, for the kernel to hand out. */
  lemma UnusedExists(s: set<nat>)
    ensures exists x: nat :: x !in s
  {
    var b := Bound(s);
    assert b !in s;
  }
}
