/** Words as rows of bits, and the operators C has for them. */
module Bits {

  function Pow2(n: nat): (p: nat)
    ensures p > 0
  {
    if n == 0 then 1 else 2 * Pow2(n - 1)
  }

  function BitOf(b: bool): nat { if b then 1 else 0 }

  /** Bit j of a word, the least significant one first. */
  predicate Bit(w: nat, j: nat) { (w / Pow2(j)) % 2 == 1 }

  function And(n: nat, x: nat, y: nat): (r: nat)
    ensures r < Pow2(n)
  {
    if n == 0 then 0 else BitOf(x % 2 == 1 && y % 2 == 1) + 2 * And(n - 1, x / 2, y / 2)
  }

  function Or(n: nat, x: nat, y: nat): (r: nat)
    ensures r < Pow2(n)
  {
    if n == 0 then 0 else BitOf(x % 2 == 1 || y % 2 == 1) + 2 * Or(n - 1, x / 2, y / 2)
  }

  function Xor(n: nat, x: nat, y: nat): (r: nat)
    ensures r < Pow2(n)
  {
    if n == 0 then 0 else BitOf((x % 2 == 1) != (y % 2 == 1)) + 2 * Xor(n - 1, x / 2, y / 2)
  }

  function Not(n: nat, x: nat): (r: nat)
    ensures r < Pow2(n)
  {
    if n == 0 then 0 else BitOf(x % 2 == 0) + 2 * Not(n - 1, x / 2)
  }

  function Quotient(x: nat, d: nat): nat
    requires d > 0
  {
    x / d
  }

  function Shl(n: nat, x: nat, s: nat): nat { (x * Pow2(s)) % Pow2(n) }

  function Shr(x: nat, s: nat): nat {
    Quotient(x, Pow2(s))
  }

  lemma {:induction false} Pow2Sum(a: nat, b: nat)
    ensures Pow2(a + b) == Pow2(a) * Pow2(b)
  {
    if a > 0 {
      Pow2Sum(a - 1, b);
      Twice(Pow2(a - 1), Pow2(b));
    }
  }

  lemma Twice(x: nat, y: nat)
    ensures 2 * (x * y) == (2 * x) * y
  {}

  lemma HalfOf(b: bool, h: nat)
    ensures (BitOf(b) + 2 * h) / 2 == h && ((BitOf(b) + 2 * h) % 2 == 1) == b
  {}

  lemma SameHalves(x: nat, y: nat)
    requires x / 2 == y / 2 && (x % 2 == 1 <==> y % 2 == 1)
    ensures x == y
  {}

  lemma Halves(n: nat, x: nat, y: nat)
    requires n > 0
    ensures And(n, x, y) % 2 == 1 <==> x % 2 == 1 && y % 2 == 1
    ensures Or(n, x, y) % 2 == 1 <==> x % 2 == 1 || y % 2 == 1
    ensures Xor(n, x, y) % 2 == 1 <==> (x % 2 == 1) != (y % 2 == 1)
    ensures Not(n, x) % 2 == 1 <==> x % 2 == 0
    ensures And(n, x, y) / 2 == And(n - 1, x / 2, y / 2) && Or(n, x, y) / 2 == Or(n - 1, x / 2, y / 2)
    ensures Xor(n, x, y) / 2 == Xor(n - 1, x / 2, y / 2) && Not(n, x) / 2 == Not(n - 1, x / 2)
  {
    HalfOf(x % 2 == 1 && y % 2 == 1, And(n - 1, x / 2, y / 2));
    HalfOf(x % 2 == 1 || y % 2 == 1, Or(n - 1, x / 2, y / 2));
    HalfOf((x % 2 == 1) != (y % 2 == 1), Xor(n - 1, x / 2, y / 2));
    HalfOf(x % 2 == 0, Not(n - 1, x / 2));
  }

  lemma NextBit(w: nat, j: nat)
    ensures Bit(w, j + 1) == Bit(w / 2, j) && Bit(w, 0) == (w % 2 == 1)
  {
    var p := Pow2(j);
    DivTwice(w, p);
  }

  lemma DivTwice(w: nat, p: nat)
    requires p > 0
    ensures w / (2 * p) == (w / 2) / p
  {
    var q, r := (w / 2) / p, (w / 2) % p;
    assert w / 2 == q * p + r;
    var s := 2 * r + w % 2;
    assert w == q * (2 * p) + s by { assert w == 2 * (w / 2) + w % 2; assert q * (2 * p) == 2 * (q * p); }
    assert 0 <= s < 2 * p;
    QuotientIs(w, 2 * p, q, s);
  }

  lemma QuotientIs(w: nat, d: nat, q: nat, r: nat)
    requires d > 0 && w == q * d + r && r < d
    ensures w / d == q && w % d == r
  {
    if w / d < q { Scaled(w / d + 1, q, d); } else if w / d > q { Scaled(q + 1, w / d, d); }
  }

  lemma Scaled(a: int, b: int, d: nat)
    requires a <= b
    ensures a * d <= b * d
  {}

  /** Every bit of a result comes from the bits in its place. */
  lemma {:induction false} BitsAre(n: nat, x: nat, y: nat, j: nat)
    requires j < n
    ensures Bit(And(n, x, y), j) == (Bit(x, j) && Bit(y, j))
    ensures Bit(Or(n, x, y), j) == (Bit(x, j) || Bit(y, j))
    ensures Bit(Xor(n, x, y), j) == (Bit(x, j) != Bit(y, j))
    ensures Bit(Not(n, x), j) == !Bit(x, j)
  {
    hide Bit;
    var i := if j == 0 then 0 else j - 1;
    Halves(n, x, y);
    NextBit(x, i);
    NextBit(y, i);
    NextBit(And(n, x, y), i);
    NextBit(Or(n, x, y), i);
    NextBit(Xor(n, x, y), i);
    NextBit(Not(n, x), i);
    if j > 0 { BitsAre(n - 1, x / 2, y / 2, j - 1); }
  }

  /** The bits a shift to the left leaves free are those a shift to the right by the rest fills: together they are the
      sum. */
  lemma {:induction false} OrOfDisjoint(n: nat, s: nat, a: nat, b: nat)
    requires s <= n && b < Pow2(s) && a < Pow2(n - s)
    ensures Or(n, a * Pow2(s), b) == a * Pow2(s) + b
    decreases n
  {
    if n == 0 {
    } else if s == 0 {
      OrZero(n, a);
    } else {
      var p := Pow2(s - 1);
      assert a * Pow2(s) == 2 * (a * p);
      assert (a * Pow2(s)) / 2 == a * p && (a * Pow2(s)) % 2 == 0;
      OrOfDisjoint(n - 1, s - 1, a, b / 2);
    }
  }

  lemma {:induction false} OrZero(n: nat, a: nat)
    requires a < Pow2(n)
    ensures Or(n, a, 0) == a
  {
    if n > 0 { OrZero(n - 1, a / 2); }
  }

  lemma LowPart(x: nat, p: nat, q: nat)
    requires p > 0 && q > 0 && x < q * p
    ensures (x * p) % (q * p) == (x % q) * p && x / q < p
  {
    var a, b := x % q, x / q;
    DivMod(x, q);
    Distribute(b, q, a, p);
    BelowProduct(a, q, p);
    QuotientIs(x * p, q * p, b, a * p);
    if b >= p { Scaled(p, b, q); }
  }

  lemma DivMod(x: nat, q: nat)
    requires q > 0
    ensures x == (x / q) * q + x % q && x % q < q
  {}

  lemma Distribute(b: nat, q: nat, a: nat, p: nat)
    ensures (b * q + a) * p == b * (q * p) + a * p
  {}

  lemma BelowProduct(a: nat, q: nat, p: nat)
    requires a < q && p > 0
    ensures a * p < q * p
  {}

  lemma RotateIs(n: nat, x: nat, s: nat)
    requires s <= n && x < Pow2(n)
    ensures Or(n, Shl(n, x, s), Shr(x, n - s)) == (x * Pow2(s)) % Pow2(n) + x / Pow2(n - s)
  {
    hide Or, Pow2;
    Pow2Sum(n - s, s);
    LowPart(x, Pow2(s), Pow2(n - s));
    OrOfDisjoint(n, s, x % Pow2(n - s), x / Pow2(n - s));
  }
}
