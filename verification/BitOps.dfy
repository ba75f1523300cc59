/** The bitwise operations of C on non-negative numbers, one bit at a time. */
module BitOps {
  /** a | b */
  function Or(a: nat, b: nat): nat {
    if a == 0 && b == 0 then 0 else 2 * Or(a / 2, b / 2) + (if a % 2 == 1 || b % 2 == 1 then 1 else 0)
  }

  function Pow2(k: nat): nat { if k == 0 then 1 else 2 * Pow2(k - 1) }

  lemma {:induction false} OrZero(a: nat)
    ensures Or(a, 0) == a && Or(0, a) == a
  {
    if a > 0 { OrZero(a / 2); }
  }

  /** The lowest bit of a sum of a multiple of 2 ^ (k + 1) and a smaller number, and what is left without it. */
  lemma Halve(x: nat, y: nat, p: nat)
    ensures (x * (2 * p) + y) / 2 == x * p + y / 2 && (x * (2 * p) + y) % 2 == y % 2
  {
    assert x * (2 * p) == 2 * (x * p);
  }

  lemma OrStep(a: nat, b: nat)
    ensures Or(a, b) == 2 * Or(a / 2, b / 2) + (if a % 2 == 1 || b % 2 == 1 then 1 else 0)
  {
  }

  /** Twice a product, regrouped. */
  lemma Double(w: nat, p: nat, r: nat, bit: nat)
    ensures 2 * (w * p + r) + bit == w * (2 * p) + (2 * r + bit)
  {
    assert w * (2 * p) == 2 * (w * p);
  }

  /** Numbers are combined part by part. */
  lemma {:induction false} OrParts(x: nat, y: nat, u: nat, v: nat, k: nat)
    requires y < Pow2(k) && v < Pow2(k)
    ensures Or(x * Pow2(k) + y, u * Pow2(k) + v) == Or(x, u) * Pow2(k) + Or(y, v)
    decreases k
  {
    if k == 0 {
      assert y == 0 && v == 0 && Or(0, 0) == 0;
    } else {
      var p := Pow2(k - 1);
      assert Pow2(k) == 2 * p && y / 2 < p && v / 2 < p;
      hide Or, Pow2;
      Halve(x, y, p);
      Halve(u, v, p);
      OrStep(x * (2 * p) + y, u * (2 * p) + v);
      OrStep(y, v);
      OrParts(x, y / 2, u, v / 2, k - 1);
      Double(Or(x, u), p, Or(y / 2, v / 2), if y % 2 == 1 || v % 2 == 1 then 1 else 0);
    }
  }

  /** Setting bits below those of a multiple adds them. */
  lemma OrLow(x: nat, v: nat, k: nat)
    requires v < Pow2(k)
    ensures Or(x * Pow2(k), v) == x * Pow2(k) + v && Or(v, x * Pow2(k)) == x * Pow2(k) + v
  {
    hide Or, Pow2;
    OrParts(x, 0, 0, v, k);
    OrParts(0, v, x, 0, k);
    OrZero(x);
    OrZero(v);
    assert 0 * Pow2(k) == 0;
  }

  /** Setting bits in a gap adds them. */
  lemma OrGap(x: nat, y: nat, m: nat, j: nat, k: nat)
    requires m < Pow2(j) && y < Pow2(k)
    ensures Or(x * Pow2(j) * Pow2(k) + y, m * Pow2(k)) == (x * Pow2(j) + m) * Pow2(k) + y
  {
    hide Or, Pow2;
    OrParts(x * Pow2(j), y, m, 0, k);
    OrLow(x, m, j);
    OrZero(y);
  }

  lemma Powers()
    ensures Pow2(0) == 1 && Pow2(1) == 2 && Pow2(2) == 4 && Pow2(3) == 8 && Pow2(4) == 16 && Pow2(5) == 32
    ensures Pow2(6) == 64 && Pow2(7) == 128 && Pow2(8) == 256 && Pow2(16) == 0x1_0000
  {
    assert Pow2(8) == 256;
    PowerAdds(8, 8);
  }

  lemma {:induction false} PowerAdds(j: nat, k: nat)
    ensures Pow2(j + k) == Pow2(j) * Pow2(k)
  {
    if k > 0 {
      PowerAdds(j, k - 1);
      var (a, b) := (Pow2(j), Pow2(k - 1));
      assert a * (2 * b) == 2 * (a * b);
    }
  }
}
