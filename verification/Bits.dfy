/**
 The bit tricks shared by the hash map and the buffers, on 64-bit words: rounding up to a power of
 two by smearing bits, and reducing an index with a mask.
 */
module Bits {
  const WORD: nat := 0x1_0000_0000_0000_0000

  function Pow2(n: nat): (r: nat)
    ensures r >= 1
  {
    if n == 0 then 1 else 2 * Pow2(n - 1)
  }

  ghost predicate IsPow2(x: nat) {
    exists n: nat :: x == Pow2(n)
  }

  ghost predicate IsLeastPow2(size: nat, n: nat) {
    IsPow2(n) && size <= n && forall k: nat :: size <= Pow2(k) ==> n <= Pow2(k)
  }

  /** Bitwise `|` and `&` on naturals. */
  function Or(x: nat, y: nat): nat {
    if x == 0 && y == 0 then 0
    else 2 * Or(x / 2, y / 2) + (if x % 2 == 1 || y % 2 == 1 then 1 else 0)
  }

  function And(x: nat, y: nat): nat {
    if x == 0 || y == 0 then 0
    else 2 * And(x / 2, y / 2) + (if x % 2 == 1 && y % 2 == 1 then 1 else 0)
  }

  /** `x >> n`. */
  function Shr(x: nat, n: nat): nat {
    if n == 0 then x else Shr(x / 2, n - 1)
  }

  lemma {:induction false} ShrIsQuotient(x: nat, n: nat)
    ensures Shr(x, n) * Pow2(n) <= x < Shr(x, n) * Pow2(n) + Pow2(n)
    ensures Shr(x, n) <= x
  {
    if n > 0 {
      ShrIsQuotient(x / 2, n - 1);
      var q, p := Shr(x, n), Pow2(n - 1);
      assert q * Pow2(n) == 2 * (q * p);
    }
  }

  lemma {:induction false} Pow2Add(m: nat, n: nat)
    ensures Pow2(m + n) == Pow2(m) * Pow2(n)
    ensures Pow2(m) >= 1
  {
    if m > 0 {
      Pow2Add(m - 1, n);
      assert Pow2(m + n) == 2 * (Pow2(m - 1) * Pow2(n)) == Pow2(m) * Pow2(n);
    } else {
      assert Pow2(n) == 1 * Pow2(n);
    }
  }

  lemma {:induction false} Pow2Monotone(m: nat, n: nat)
    requires m <= n
    ensures 1 <= Pow2(m) <= Pow2(n)
    ensures m < n ==> 2 * Pow2(m) <= Pow2(n)
    decreases n
  {
    if m < n {
      Pow2Monotone(m, n - 1);
    } else if 0 < n {
      Pow2Monotone(m - 1, n - 1);
    }
  }

  lemma Pow2Word()
    ensures Pow2(63) == WORD / 2 && Pow2(64) == WORD
  {
    assert Pow2(8) == 256 by { assert Pow2(4) == 16; }
    Pow2Add(8, 8);
    Pow2Add(16, 16);
    Pow2Add(32, 32);
  }

  lemma {:induction false} OrBounds(x: nat, y: nat)
    ensures x <= Or(x, y) && y <= Or(x, y)
  {
    if !(x == 0 && y == 0) {
      OrBounds(x / 2, y / 2);
    }
  }

  lemma {:induction false} OrBelow(x: nat, y: nat, k: nat)
    requires x < Pow2(k) && y < Pow2(k)
    ensures Or(x, y) < Pow2(k)
  {
    if !(x == 0 && y == 0) {
      OrBelow(x / 2, y / 2, k - 1);
    }
  }

  /** `|` does not touch the bits above both a low part and the other operand. */
  lemma {:induction false} OrHigh(a: nat, r: nat, b: nat, k: nat)
    requires r < Pow2(k) && b < Pow2(k)
    ensures Or(a * Pow2(k) + r, b) == a * Pow2(k) + Or(r, b)
  {
    var x := a * Pow2(k) + r;
    if k == 0 {
      OrZero(x);
    } else {
      var h := a * Pow2(k - 1);
      assert a * Pow2(k) == 2 * h;
      assert x / 2 == h + r / 2 && x % 2 == r % 2;
      OrHigh(a, r / 2, b / 2, k - 1);
      if x == 0 && b == 0 {
        assert Or(r, b) == 0;
      } else if r == 0 && b == 0 {
        OrZero(x);
      }
    }
  }

  lemma {:induction false} OrZero(x: nat)
    ensures Or(x, 0) == x
  {
    if x != 0 {
      OrZero(x / 2);
    }
  }

  /** The top `w` of `n` bits of `y` are ones. */
  predicate Smeared(y: nat, n: nat, w: nat) {
    w <= n && Pow2(n) - Pow2(n - w) <= y < Pow2(n)
  }

  lemma ProductMonotone(a: nat, b: nat, d: nat)
    requires a <= b
    ensures a * d <= b * d
  {
  }

  lemma LessByProduct(a: nat, b: nat, d: nat)
    requires a * d < b * d
    ensures a < b
  {
    if b <= a { ProductMonotone(b, a, d); }
  }

  /** If `y` lies in the top `1/W` of `[0, W*K)`, its quotient lies in the top of `[0, K)`. */
  lemma ShiftTop(y: nat, q: nat, W: nat, K: nat, J: nat)
    requires q * W <= y < q * W + W
    requires W * K - K <= y < W * K
    requires K == J * W || (J == 1 && K <= W)
    ensures K - J <= q < K
  {
    LessByProduct(q, K, W) by { assert K * W == W * K; }
    assert (q + 1 + J) * W == q * W + W + J * W;
    LessByProduct(K, q + 1 + J, W) by { assert K * W == W * K; }
  }

  lemma OrTop(y: nat, b: nat, n: nat, k: nat)
    requires k <= n && Pow2(n) - Pow2(k) <= y < Pow2(n) && b < Pow2(k)
    ensures Pow2(n) - Pow2(k) + b <= Or(y, b) < Pow2(n)
  {
    hide Or, Pow2;
    Pow2Add(n - k, k);
    var a := Pow2(n - k) - 1;
    var r := y - (Pow2(n) - Pow2(k));
    assert a * Pow2(k) == Pow2(n) - Pow2(k);
    OrHigh(a, r, b, k);
    OrBounds(r, b);
    OrBelow(r, b, k);
  }

  /** Shifting by `w` and or-ing doubles the run of ones at the top. */
  lemma SmearStep(y: nat, n: nat, w: nat)
    requires Smeared(y, n, w)
    ensures Smeared(Or(y, Shr(y, w)), n, if 2 * w <= n then 2 * w else n)
  {
    hide Or, Shr, Pow2;
    var k := n - w;
    ShrIsQuotient(y, w);
    Pow2Add(w, k);
    if w <= k {
      Pow2Add(k - w, w);
      ShiftTop(y, Shr(y, w), Pow2(w), Pow2(k), Pow2(k - w));
    } else {
      Pow2Monotone(k, w);
      ShiftTop(y, Shr(y, w), Pow2(w), Pow2(k), 1);
      Pow2Zero();
    }
    OrTop(y, Shr(y, w), n, k);
  }

  lemma Pow2Zero()
    ensures Pow2(0) == 1
  {
  }

  lemma SmearDone(y: nat, n: nat, t: nat)
    requires Smeared(y, n, n)
    ensures Smeared(Or(y, Shr(y, t)), n, n)
  {
    hide Or, Shr, Pow2;
    ShrIsQuotient(y, t);
    OrBounds(y, Shr(y, t));
    OrBelow(y, Shr(y, t), n);
  }

  lemma SmearRound(y: nat, n: nat, t: nat)
    requires Smeared(y, n, if t <= n then t else n)
    ensures Smeared(Or(y, Shr(y, t)), n, if 2 * t <= n then 2 * t else n)
  {
    hide *;
    if t <= n { SmearStep(y, n, t); } else { SmearDone(y, n, t); }
  }

  lemma BitLength(x: nat) returns (n: nat)
    requires 0 < x < WORD
    ensures 1 <= n <= 64 && Pow2(n - 1) <= x < Pow2(n)
  {
    Pow2Word();
    n := 1;
    while Pow2(n) <= x
      invariant 1 <= n <= 64 && Pow2(n - 1) <= x
      decreases 64 - n
    {
      if n == 64 { assert false; }
      n := n + 1;
    }
  }

  /** `map_roundup` and `buffer_roundup`: six shift-and-or steps on a 64-bit word, with the
      decrement and the increment wrapping. For 1 <= s <= 2^63 this is the least power of two not
      below `s`; for every other word it is 0. */
  method RoundUp(s: nat) returns (r: nat)
    requires s < WORD
    ensures 1 <= s <= WORD / 2 ==> IsPow2(r) && s <= r <= WORD / 2 && forall n: nat :: s <= Pow2(n) ==> r <= Pow2(n)
    ensures !(1 <= s <= WORD / 2) ==> r == 0
  {
    hide Pow2, Or, Shr;
    Pow2Zero();
    ghost var n := 0;
    r := (s + WORD - 1) % WORD;
    ghost var top := r;
    if r != 0 {
      n := BitLength(r);
    }
    StartSmear(r, n);
    SmearRound(r, n, 1);
    r := Or(r, Shr(r, 1));
    SmearRound(r, n, 2);
    r := Or(r, Shr(r, 2));
    SmearRound(r, n, 4);
    r := Or(r, Shr(r, 4));
    SmearRound(r, n, 8);
    r := Or(r, Shr(r, 8));
    SmearRound(r, n, 16);
    r := Or(r, Shr(r, 16));
    SmearRound(r, n, 32);
    r := Or(r, Shr(r, 32));
    assert r == Pow2(n) - 1;
    r := (r + 1) % WORD;
    RoundUpExact(s, top, n);
  }

  lemma StartSmear(top: nat, n: nat)
    requires if n == 0 then top == 0 else Pow2(n - 1) <= top < Pow2(n)
    ensures Smeared(top, n, if 1 <= n then 1 else n)
  {
  }

  lemma RoundUpExact(s: nat, top: nat, n: nat)
    requires s < WORD && top == (s + WORD - 1) % WORD
    requires n <= 64 && top < Pow2(n) && (n > 0 ==> Pow2(n - 1) <= top)
    ensures Pow2(n) <= WORD
    ensures 1 <= s <= WORD / 2 ==>
              Pow2(n) <= WORD / 2 && s <= Pow2(n) && forall m: nat :: s <= Pow2(m) ==> Pow2(n) <= Pow2(m)
    ensures !(1 <= s <= WORD / 2) ==> Pow2(n) == WORD
  {
    Pow2Word();
    Pow2Monotone(n, 64);
    if 1 <= s <= WORD / 2 {
      assert top == s - 1;
      if n == 64 { assert false; }
      Pow2Monotone(n, 63);
      forall m: nat | s <= Pow2(m)
        ensures Pow2(n) <= Pow2(m)
      {
        if m < n { Pow2Monotone(m, n - 1); }
        if n <= m { Pow2Monotone(n, m); }
      }
    } else {
      if s == 0 { assert top == WORD - 1; }
      if n < 64 { assert false; }
    }
  }

  /** Masking with a power of two minus one is reduction modulo that power. */
  lemma {:induction false} AndMask(x: nat, k: nat)
    ensures And(x, Pow2(k) - 1) == x % Pow2(k)
  {
    hide Pow2, And;
    Pow2Zero();
    if k > 0 {
      AndMask(x / 2, k - 1);
      HalveMod(x, Pow2(k - 1));
      Pow2Double(k);
      AndOdd(x, Pow2(k) - 1);
    } else {
      AndNothing(x);
    }
  }

  lemma Pow2Double(k: nat)
    requires k > 0
    ensures Pow2(k) == 2 * Pow2(k - 1) && (Pow2(k) - 1) % 2 == 1 && (Pow2(k) - 1) / 2 == Pow2(k - 1) - 1
  {
    HalfOdd(Pow2(k - 1));
  }

  lemma HalfOdd(p: nat)
    requires p >= 1
    ensures (2 * p - 1) % 2 == 1 && (2 * p - 1) / 2 == p - 1
  {
  }

  lemma AndNothing(x: nat)
    ensures And(x, 0) == 0 == x % 1
  {
  }

  lemma AndOdd(x: nat, m: nat)
    requires m % 2 == 1
    ensures And(x, m) == 2 * And(x / 2, m / 2) + x % 2
  {
  }

  lemma HalveMod(x: nat, p: nat)
    requires p >= 1
    ensures x % (2 * p) == 2 * (x / 2 % p) + x % 2
  {
    var q, r := x / 2 / p, x / 2 % p;
    assert x / 2 == q * p + r;
    assert q * (2 * p) == 2 * (q * p);
    RemainderUnique(x, q, 2 * r + x % 2, 2 * p);
  }

  lemma RemainderUnique(x: nat, q: nat, r: nat, d: nat)
    requires r < d && x == q * d + r
    ensures x % d == r
  {
    var e, f := x / d, x % d;
    assert x == e * d + f;
    LessByProduct(e, q + 1, d) by { assert (q + 1) * d == q * d + d; }
    LessByProduct(q, e + 1, d) by { assert (e + 1) * d == e * d + d; }
  }
}
