/** The executor's int64_t: two's-complement wrap-around and C's truncating division. */
module Int64 {
  import opened Prelude

  const MIN: int := -0x8000_0000_0000_0000
  const MAX: int := 0x7fff_ffff_ffff_ffff
  const SPAN: int := 0x1_0000_0000_0000_0000

  type int64 = x: int | MIN <= x <= MAX

  /** The 64-bit value that the hardware keeps of an exact result. */
  function Wrap(x: int): int64
  {
    var r := x % SPAN;
    if r > MAX then r - SPAN else r
  }

  /** C's division: the quotient is truncated toward zero. */
  function Quotient(a: int, b: int): int
    requires b != 0
  {
    if a >= 0 then
      if b > 0 then a / b else -(a / -b)
    else
      if b > 0 then -((-a) / b) else (-a) / (-b)
  }

  /** A 64-bit division traps on a zero divisor and on MIN / -1. */
  predicate CanDivide(a: int64, b: int64)
  {
    b != 0 && !(a == MIN && b == -1)
  }

  /** The uint64_t code word that carries an int64_t, and back. */
  function ToWord(i: int64): (w: nat)
    ensures w < SPAN && FromWord(w) == i
  {
    if i < 0 then i + SPAN else i
  }

  function FromWord(w: nat): int64
  {
    Wrap(w)
  }

  function BitAndNat(x: nat, y: nat): nat
    decreases x
  {
    if x == 0 then 0 else (x % 2) * (y % 2) + 2 * BitAndNat(x / 2, y / 2)
  }

  /** C's `&` on two int64_t operands. */
  function BitAnd(a: int64, b: int64): int64
  {
    Wrap(BitAndNat(ToWord(a), ToWord(b)))
  }

  /** C's `&&` on two int64_t operands. */
  function LogicalAnd(a: int64, b: int64): int64
  {
    if a != 0 && b != 0 then 1 else 0
  }

  // ----- what the operations compute -----

  /** The wrapped value is the only 64-bit one that differs from the exact one by a multiple of the span. */
  lemma WrapIff(x: int, y: int64)
    ensures y == Wrap(x) <==> (x - y) % SPAN == 0
  {
  }

  function Abs(x: int): nat
  {
    if x < 0 then -x else x
  }

  /** The quotient's magnitude is that of the magnitudes, rounded down; its sign is the operands'. */
  predicate Truncates(a: int, b: int, q: int)
  {
    Abs(q) * Abs(b) <= Abs(a) < (Abs(q) + 1) * Abs(b) && (q > 0 ==> (a > 0 <==> b > 0)) && (q < 0 ==> (a > 0 <==> b < 0))
  }

  lemma QuotientIff(a: int, b: int, q: int)
    requires b != 0
    ensures q == Quotient(a, b) <==> Truncates(a, b, q)
  {
    hide Quotient;
    QuotientParts(a, b);
    Floor(Abs(a), Abs(b));
    if Truncates(a, b, q) {
      SameQuotient(Abs(a), Abs(b), Abs(a) / Abs(b), Abs(q));
    }
  }

  lemma QuotientParts(a: int, b: int)
    requires b != 0
    ensures Abs(Quotient(a, b)) == Abs(a) / Abs(b)
    ensures var q := Quotient(a, b); (q > 0 ==> (a > 0 <==> b > 0)) && (q < 0 ==> (a > 0 <==> b < 0))
  {
    var d := Abs(a) / Abs(b);
    NatQuotient(Abs(a), Abs(b));
    if a >= 0 {
      if b > 0 {
        assert Quotient(a, b) == d;
      } else {
        assert Quotient(a, b) == -d;
      }
    } else if b > 0 {
      assert Quotient(a, b) == -d;
    } else {
      assert Quotient(a, b) == d;
    }
  }

  lemma NatQuotient(m: nat, n: nat)
    requires n > 0
    ensures m / n >= 0 && (m == 0 ==> m / n == 0)
  {
  }

  lemma Floor(m: nat, n: nat)
    requires n > 0
    ensures m / n * n <= m < (m / n + 1) * n
  {
  }

  lemma Grows(p: nat, q: nat, n: nat)
    ensures p <= q ==> p * n <= q * n
  {
  }

  lemma SameQuotient(m: nat, n: nat, p: nat, q: nat)
    requires n > 0 && p * n <= m < (p + 1) * n && q * n <= m < (q + 1) * n
    ensures p == q
  {
    Grows(p + 1, q, n);
    Grows(q + 1, p, n);
  }

  // ----- bits -----

  function Pow2(k: nat): (p: nat)
    ensures p > 0
  {
    if k == 0 then 1 else 2 * Pow2(k - 1)
  }

  /** A number shifted right: halved k times. */
  function Shifted(w: nat, k: nat): nat
    decreases k
  {
    if k == 0 then w else Shifted(w / 2, k - 1)
  }

  /** Bit k of a number. */
  predicate HasBit(w: nat, k: nat)
  {
    Shifted(w, k) % 2 == 1
  }

  /** Shifting divides by the power of two, rounding down. */
  lemma {:induction false} ShiftedIff(w: nat, k: nat, q: nat)
    ensures q == Shifted(w, k) <==> q * Pow2(k) <= w < (q + 1) * Pow2(k)
    decreases k
  {
    if k > 0 {
      var p := Pow2(k - 1);
      ShiftedIff(w / 2, k - 1, q);
      TimesTwice(q, p);
      TimesTwice(q + 1, p);
      HalfBetween(w, q * p, (q + 1) * p);
    }
  }

  lemma TimesTwice(q: nat, p: nat)
    ensures q * (2 * p) == 2 * (q * p)
  {
  }

  lemma HalfBetween(w: nat, a: nat, b: nat)
    ensures a <= w / 2 < b <==> 2 * a <= w < 2 * b
  {
  }

  lemma {:induction false} BitAndNatBits(x: nat, y: nat, k: nat)
    ensures HasBit(BitAndNat(x, y), k) <==> HasBit(x, k) && HasBit(y, k)
    decreases k
  {
    hide BitAndNat;
    LastBit(x, y);
    if k > 0 {
      BitAndNatBits(x / 2, y / 2, k - 1);
    }
  }

  lemma LastBit(x: nat, y: nat)
    ensures BitAndNat(x, y) / 2 == BitAndNat(x / 2, y / 2)
    ensures BitAndNat(x, y) % 2 == 1 <==> x % 2 == 1 && y % 2 == 1
  {
    if x > 0 {
      BitTimesBit(x % 2, y % 2);
      var last, more := if x % 2 == 1 && y % 2 == 1 then 1 else 0, BitAndNat(x / 2, y / 2);
      assert BitAndNat(x, y) == last + 2 * more;
    }
  }

  lemma BitTimesBit(a: nat, b: nat)
    requires a < 2 && b < 2
    ensures a * b == if a == 1 && b == 1 then 1 else 0
  {
    if a == 1 {
      assert a * b == b;
    }
  }

  lemma {:induction false} BitAndNatBelow(x: nat, y: nat)
    ensures BitAndNat(x, y) <= x
    decreases x
  {
    if x > 0 {
      BitTimesBit(x % 2, y % 2);
      BitAndNatBelow(x / 2, y / 2);
      assert BitAndNat(x, y) <= x % 2 + 2 * (x / 2);
    }
  }

  lemma WordOf(w: nat)
    requires w < SPAN
    ensures ToWord(Wrap(w)) == w
  {
  }

  /** A bit is set in `a & b` if and only if it is set in both. */
  lemma BitAndBits(a: int64, b: int64, k: nat)
    ensures HasBit(ToWord(BitAnd(a, b)), k) <==> HasBit(ToWord(a), k) && HasBit(ToWord(b), k)
  {
    BitAndNatBelow(ToWord(a), ToWord(b));
    WordOf(BitAndNat(ToWord(a), ToWord(b)));
    BitAndNatBits(ToWord(a), ToWord(b), k);
  }

  /** A number of n bits is determined by them. */
  lemma {:induction false} BitsDetermine(x: nat, y: nat, n: nat)
    requires x < Pow2(n) && y < Pow2(n) && forall k :: 0 <= k < n ==> (HasBit(x, k) <==> HasBit(y, k))
    ensures x == y
    decreases n
  {
    if n > 0 {
      assert HasBit(x, 0) <==> HasBit(y, 0);
      forall k: nat | k < n - 1 ensures HasBit(x / 2, k) <==> HasBit(y / 2, k) {
        assert HasBit(x, k + 1) <==> HasBit(y, k + 1);
      }
      BitsDetermine(x / 2, y / 2, n - 1);
    }
  }

  /** Bit 0 is set in both, and no other bit is. */
  predicate ShareBit0Alone(a: int64, b: int64)
  {
    HasBit(ToWord(a), 0) && HasBit(ToWord(b), 0) &&
    forall k :: 1 <= k < 64 ==> !(HasBit(ToWord(a), k) && HasBit(ToWord(b), k))
  }

  lemma {:induction false} OneBits(k: nat)
    ensures !HasBit(0, k) && (HasBit(1, k) <==> k == 0)
    decreases k
  {
    if k > 0 {
      OneBits(k - 1);
    }
  }

  lemma {:induction false} PowSum(m: nat, n: nat)
    ensures Pow2(m + n) == Pow2(m) * Pow2(n)
    decreases n
  {
    if n > 0 {
      PowSum(m, n - 1);
    }
  }

  lemma PowSpan()
    ensures Pow2(64) == SPAN
  {
    assert Pow2(4) == 2 * Pow2(3) == 16;
    PowSum(4, 4);
    PowSum(8, 8);
    PowSum(16, 16);
    PowSum(32, 32);
  }

  lemma BitAndOne(a: int64, b: int64)
    ensures BitAnd(a, b) == 1 <==> ShareBit0Alone(a, b)
  {
    hide BitAnd, HasBit;
    var w := ToWord(BitAnd(a, b));
    forall k: nat ensures HasBit(w, k) <==> HasBit(ToWord(a), k) && HasBit(ToWord(b), k) {
      BitAndBits(a, b, k);
    }
    forall k: nat ensures HasBit(1, k) <==> k == 0 {
      OneBits(k);
    }
    if ShareBit0Alone(a, b) {
      PowSpan();
      BitsDetermine(w, 1, 64);
      assert FromWord(w) == BitAnd(a, b);
    }
  }
}
