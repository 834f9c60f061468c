/** The bit operations of C++ on unsigned numbers, binary digit by binary digit. */
module Bits {

  function Pow2(n: nat): (p: nat)
    ensures p > 0
  {
    if n == 0 then 1 else 2 * Pow2(n - 1)
  }

  /** `a & b` */
  function And(a: nat, b: nat): nat
    decreases a
  {
    if a == 0 then 0 else 2 * And(a / 2, b / 2) + (if a % 2 == 1 && b % 2 == 1 then 1 else 0)
  }

  /** `a | b` */
  function Or(a: nat, b: nat): nat
    decreases a
  {
    if a == 0 then b else 2 * Or(a / 2, b / 2) + (if a % 2 == 1 || b % 2 == 1 then 1 else 0)
  }

  /** `a >> k` */
  function Shr(a: nat, k: nat): nat
    decreases k
  {
    if k == 0 then a else Shr(a / 2, k - 1)
  }

  /** Half of a number of which the upper part is even. */
  lemma Halves(q: nat, p: nat, r: nat)
    ensures (q * (2 * p) + r) / 2 == q * p + r / 2 && (q * (2 * p) + r) % 2 == r % 2
  {
    var m := q * p;
    assert q * (2 * p) == 2 * m;
  }

  /** Shifting drops the lowest bits. */
  lemma {:induction false} ShrDrops(q: nat, r: nat, k: nat)
    requires r < Pow2(k)
    ensures Shr(q * Pow2(k) + r, k) == q
    decreases k
  {
    if k > 0 {
      Halves(q, Pow2(k - 1), r);
      ShrDrops(q, r / 2, k - 1);
    }
  }

  /** A mask of ones keeps the lowest bits. */
  lemma {:induction false} AndKeeps(q: nat, r: nat, k: nat)
    requires r < Pow2(k)
    ensures And(q * Pow2(k) + r, Pow2(k) - 1) == r
    decreases k
  {
    var a := q * Pow2(k) + r;
    if k == 0 {
      AndZero(a);
    } else {
      var p := Pow2(k - 1);
      Halves(q, p, r);
      assert (2 * p - 1) / 2 == p - 1 && (2 * p - 1) % 2 == 1;
      AndKeeps(q, r / 2, k - 1);
      assert a == 0 ==> r == 0;
    }
  }

  lemma {:induction false} AndZero(a: nat)
    ensures And(a, 0) == 0
  {
    if a > 0 {
      AndZero(a / 2);
    }
  }

  lemma {:induction false} OrZero(a: nat)
    ensures Or(a, 0) == a
  {
    if a > 0 {
      OrZero(a / 2);
    }
  }

  /** Where the bits of two numbers do not meet, the operation adds. */
  lemma {:induction false} OrAdds(q: nat, r: nat, k: nat)
    requires r < Pow2(k)
    ensures Or(q * Pow2(k), r) == q * Pow2(k) + r
    decreases k
  {
    if k == 0 {
      OrZero(q);
    } else {
      Halves(q, Pow2(k - 1), 0);
      OrAdds(q, r / 2, k - 1);
    }
  }
}
