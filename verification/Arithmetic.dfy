/** Multiplication and division facts for fields packed into words. */
module Arithmetic {
  lemma MulMono(a: nat, b: nat, c: nat)
    requires b <= c
    ensures a * b <= a * c
  {
  }

  lemma MulNext(a: nat, b: nat)
    ensures a * (b + 1) == a * b + a
  {
  }

  lemma {:induction false} QuotientAndRest(d: nat, s: nat, r: nat)
    requires d < s
    ensures (d + s * r) / s == r && (d + s * r) % s == d
  {
    var n := d + s * r;
    var q, m := n / s, n % s;
    assert n == s * q + m;
    if q < r {
      MulMono(s, q + 1, r);
      MulNext(s, q);
    } else if q > r {
      MulMono(s, r + 1, q);
      MulNext(s, r);
    }
  }

  lemma {:induction false} Recompose(a: nat, b: nat, high: nat, mid: nat, low: nat)
    requires mid < b && low < a
    ensures a * (b * high + mid) + low == (a * mid + low) + (a * b) * high
    ensures a * mid + low < a * b
  {
    Distribute(a, b * high, mid);
    Associate(a, b, high);
    MulMono(a, mid + 1, b);
    MulNext(a, mid);
  }

  lemma {:induction false} NestedQuotient(w: nat, a: nat, b: nat)
    requires a > 0 && b > 0
    ensures a * b > 0 && w / (a * b) == (w / a) / b
  {
    MulMono(a, 1, b);
    var q, low := DivMod(w, a);
    var high, mid := DivMod(q, b);
    NestedParts(a, b, high, mid, low, q, w);
  }

  lemma DivMod(w: nat, a: nat) returns (q: nat, m: nat)
    requires a > 0
    ensures q == w / a && m < a && w == a * q + m
  {
    q, m := w / a, w % a;
  }

  lemma {:induction false} NestedParts(a: nat, b: nat, high: nat, mid: nat, low: nat, q: nat, w: nat)
    requires mid < b && low < a && q == b * high + mid && w == a * q + low && a * b > 0
    ensures w / (a * b) == high
  {
    Recompose(a, b, high, mid, low);
    QuotientAndRest(a * mid + low, a * b, high);
  }

  lemma Distribute(a: nat, b: nat, c: nat)
    ensures a * (b + c) == a * b + a * c
  {
  }

  lemma Associate(a: nat, b: nat, c: nat)
    ensures a * (b * c) == (a * b) * c
  {
  }

  lemma {:induction false} ComposeStep(d: nat, s: nat, r: nat, p: nat)
    requires d < s && r < p
    ensures d + s * r < s * p
  {
    MulMono(s, r + 1, p);
    MulNext(s, r);
  }

  // ---------- Bitwise or ----------

  function Or(a: nat, b: nat): nat
    decreases a + b
  {
    if a == 0 && b == 0 then 0 else (if a % 2 == 1 then 1 else b % 2) + 2 * Or(a / 2, b / 2)
  }

  function Pow2(k: nat): (n: nat)
    ensures n > 0
  {
    if k == 0 then 1 else 2 * Pow2(k - 1)
  }

  lemma OrBits(d: nat, s: nat, d': nat, s': nat)
    requires d < 2 && d' < 2
    ensures Or(d + 2 * s, d' + 2 * s') == (if d == 1 then 1 else d') + 2 * Or(s, s')
  {
    var a, b := d + 2 * s, d' + 2 * s';
    assert a % 2 == d && b % 2 == d' && a / 2 == s && b / 2 == s';
    if a == 0 && b == 0 { assert Or(0, 0) == 0; }
  }

  /** The bits below a power of two and the rest of two numbers are ored apart. */
  lemma {:induction false} OrCompose(k: nat, p: nat, r: nat, q: nat, r': nat, q': nat)
    requires p == Pow2(k) && r < p && r' < p
    ensures Or(r, r') < p
    ensures forall a: nat, b: nat | a == r + p * q && b == r' + p * q' :: Or(a, b) == Or(r, r') + p * Or(q, q')
    decreases k, 0
  {
    hide Or;
    if k == 0 {
      OrZero(0);
    } else {
      OrStep(k - 1, Pow2(k - 1), r % 2, r / 2, q, r' % 2, r' / 2, q');
    }
  }

  lemma {:induction false} OrStep(k: nat, p: nat, d: nat, s: nat, q: nat, d': nat, s': nat, q': nat)
    requires p == Pow2(k) && s < p && s' < p && d < 2 && d' < 2
    ensures var r, r' := d + 2 * s, d' + 2 * s';
      Or(r, r') < 2 * p && Or(r + 2 * p * q, r' + 2 * p * q') == Or(r, r') + 2 * p * Or(q, q')
    decreases k, 1
  {
    hide Or, Pow2;
    OrCompose(k, p, s, q, s', q');
    OrBits(d, s, d', s');
    OrBits(d, s + p * q, d', s' + p * q');
    Associate(2, p, q);
    Associate(2, p, q');
    Associate(2, p, Or(q, q'));
  }

  lemma {:induction false} OrZero(a: nat)
    ensures Or(a, 0) == a && Or(0, a) == a
    decreases a
  {
    if a > 0 { OrZero(a / 2); }
  }

  lemma Pow2Values()
    ensures Pow2(1) == 2 && Pow2(2) == 4 && Pow2(3) == 8 && Pow2(4) == 16 && Pow2(7) == 0x80
    ensures Pow2(8) == 0x100 && Pow2(9) == 0x200 && Pow2(12) == 0x1000 && Pow2(18) == 0x4_0000
    ensures Pow2(21) == 0x20_0000 && Pow2(23) == 0x80_0000 && Pow2(32) == 0x1_0000_0000
  {
    assert Pow2(5) == 32;
    assert Pow2(10) == 0x400;
    assert Pow2(15) == 0x8000;
    assert Pow2(26) == 0x400_0000;
  }
}
