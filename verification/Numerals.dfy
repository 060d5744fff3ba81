/**
 Positional notation: digit strings, most significant digit first, in any base.
 */
module Numerals {

  function Pow(b: nat, n: nat): nat {
    if n == 0 then 1 else b * Pow(b, n - 1)
  }

  lemma {:induction false} PowPositive(b: nat, n: nat)
    requires b > 0
    ensures Pow(b, n) > 0
  {
    if n > 0 {
      PowPositive(b, n - 1);
    }
  }

  lemma {:induction false} PowAdd(b: nat, m: nat, n: nat)
    ensures Pow(b, m + n) == Pow(b, m) * Pow(b, n)
  {
    if m > 0 {
      PowAdd(b, m - 1, n);
      Assoc(b, Pow(b, m - 1), Pow(b, n));
    }
  }

  lemma Assoc(a: int, b: int, c: int)
    ensures a * (b * c) == (a * b) * c
  {
  }

  lemma {:induction false} PowPow(b: nat, m: nat, n: nat)
    ensures Pow(b, m * n) == Pow(Pow(b, m), n)
  {
    if n > 0 {
      PowPow(b, m, n - 1);
      assert m * n == m + m * (n - 1);
      PowAdd(b, m, m * (n - 1));
    } else {
      assert m * n == 0;
    }
  }

  lemma MulLess(a: nat, b: nat, c: nat, d: nat)
    requires a < b && c <= d && 0 < d
    ensures a * c < b * d
  {
    MulMonotone(a, c, d);
    MulStrict(d, a, b);
  }

  lemma MulMonotone(a: nat, c: nat, d: nat)
    requires c <= d
    ensures a * c <= a * d
  {
    var e := d - c;
    assert a * d == a * c + a * e;
  }

  lemma MulStrict(d: nat, a: nat, b: nat)
    requires a < b && 0 < d
    ensures a * d < b * d
  {
    var e := b - a;
    assert b * d == a * d + e * d;
    assert e * d >= 1 by {
      MulMonotone(e, 1, d);
    }
  }

  lemma {:induction false} PowMonotoneBase(a: nat, b: nat, n: nat)
    requires a < b && n > 0
    ensures Pow(a, n) < Pow(b, n)
  {
    if n > 1 {
      PowMonotoneBase(a, b, n - 1);
      PowPositive(b, n - 1);
      MulLess(a, b, Pow(a, n - 1), Pow(b, n - 1));
    }
  }

  lemma PowMonotone(b: nat, m: nat, n: nat)
    requires b > 0 && m <= n
    ensures Pow(b, m) <= Pow(b, n)
  {
    PowAdd(b, m, n - m);
    PowPositive(b, n - m);
    MulMonotone(Pow(b, m), 1, Pow(b, n - m));
  }

  /**
   From one comparison of powers, a^q <= b^p, a buffer bound for all sizes: m digits of
   base a fit into k digits of base b whenever q * k >= p * m.
   */
  lemma Capacity(a: nat, b: nat, p: nat, q: nat, m: nat, k: nat)
    requires a > 0 && b > 0 && q > 0 && Pow(a, q) <= Pow(b, p) && p * m <= q * k
    ensures Pow(a, m) <= Pow(b, k)
  {
    CapacityLow(a, b, p, q, m);
    CapacityHigh(b, p, m, q, k);
    PowRoot(Pow(a, m), Pow(b, k), q);
  }

  lemma PowRoot(x: nat, y: nat, q: nat)
    requires q > 0 && Pow(x, q) <= Pow(y, q)
    ensures x <= y
  {
    if y < x {
      PowMonotoneBase(y, x, q);
    }
  }

  lemma CapacityLow(a: nat, b: nat, p: nat, q: nat, m: nat)
    requires Pow(a, q) <= Pow(b, p)
    ensures Pow(Pow(a, m), q) <= Pow(b, p * m)
  {
    PowSwap(a, m, q);
    PowWeak(Pow(a, q), Pow(b, p), m);
    PowPow(b, p, m);
  }

  lemma CapacityHigh(b: nat, p: nat, m: nat, q: nat, k: nat)
    requires b > 0 && p * m <= q * k
    ensures Pow(b, p * m) <= Pow(Pow(b, k), q)
  {
    PowMonotone(b, p * m, q * k);
    PowPow(b, q, k);
    PowSwap(b, k, q);
  }

  lemma PowSwap(b: nat, m: nat, n: nat)
    ensures Pow(Pow(b, m), n) == Pow(Pow(b, n), m)
  {
    PowPow(b, m, n);
    PowPow(b, n, m);
    assert m * n == n * m;
  }

  lemma PowWeak(a: nat, b: nat, n: nat)
    requires a <= b
    ensures Pow(a, n) <= Pow(b, n)
  {
    if a < b && n > 0 {
      PowMonotoneBase(a, b, n);
    }
  }

  // --------------------------------------------------------------------- digits

  ghost predicate DigitsIn(ds: seq<nat>, base: nat) {
    forall i :: 0 <= i < |ds| ==> ds[i] < base
  }

  /** The number a digit string denotes. */
  function Value(ds: seq<nat>, base: nat): nat {
    if ds == [] then 0 else Value(ds[..|ds| - 1], base) * base + ds[|ds| - 1]
  }

  /** The shortest digit string of a number; none for zero. */
  function Digits(n: nat, base: nat): (ds: seq<nat>)
    requires base >= 2
  {
    if n == 0 then [] else Digits(n / base, base) + [n % base]
  }

  lemma DivMod(n: nat, base: nat)
    requires base >= 2
    ensures n == (n / base) * base + n % base && 0 <= n % base < base
    ensures n > 0 ==> n / base < n
  {
  }

  lemma {:induction false} ValueOfDigits(n: nat, base: nat)
    requires base >= 2
    ensures Value(Digits(n, base), base) == n
    ensures DigitsIn(Digits(n, base), base)
    ensures n > 0 ==> Digits(n, base) != [] && Digits(n, base)[0] > 0
  {
    if n > 0 {
      var q, r := n / base, n % base;
      DivMod(n, base);
      ValueOfDigits(q, base);
      assert q == 0 ==> Digits(q, base) == [];
      ValueOfSnoc(Digits(q, base), q, r, n, base);
    }
  }

  lemma ValueOfSnoc(ds: seq<nat>, q: nat, r: nat, n: nat, base: nat)
    requires Value(ds, base) == q && DigitsIn(ds, base) && r < base && n == q * base + r > 0
    requires if q > 0 then ds != [] && ds[0] > 0 else ds == []
    ensures Value(ds + [r], base) == n && DigitsIn(ds + [r], base) && (ds + [r])[0] > 0
  {
    ValueSnoc(ds, r, base);
  }

  lemma ValueSnoc(ds: seq<nat>, d: nat, base: nat)
    ensures Value(ds + [d], base) == Value(ds, base) * base + d
  {
    assert (ds + [d])[..|ds|] == ds;
  }

  lemma DivStep(v: nat, base: nat, d: nat)
    requires base >= 2 && d < base
    ensures (v * base + d) / base == v && (v * base + d) % base == d
  {
    var n := v * base + d;
    var q := n / base;
    DivMod(n, base);
    Spread(q, v, base);
    Spread(v, q, base);
  }

  lemma Spread(a: nat, b: nat, w: nat)
    ensures a < b ==> a * w + w <= b * w
  {
    if a < b {
      var d := b - a - 1;
      assert b * w == a * w + w + d * w;
    }
  }

  /** A digit string without leading zero is the shortest one of its number. */
  lemma {:induction false} DigitsOfValue(ds: seq<nat>, base: nat)
    requires base >= 2 && DigitsIn(ds, base) && (ds != [] ==> ds[0] > 0)
    ensures Digits(Value(ds, base), base) == ds
    ensures ds != [] ==> Value(ds, base) > 0
  {
    if ds != [] {
      var n := |ds| - 1;
      DigitsOfValue(ds[..n], base);
      var v := Value(ds[..n], base);
      DivStep(v, base, ds[n]);
      assert v > 0 ==> v * base >= v by {
        MulMonotone(v, 1, base);
      }
      assert ds == ds[..n] + [ds[n]];
    }
  }

  lemma {:induction false} ValueBound(ds: seq<nat>, base: nat)
    requires base > 0 && DigitsIn(ds, base)
    ensures Value(ds, base) < Pow(base, |ds|)
  {
    if ds != [] {
      var n := |ds| - 1;
      ValueBound(ds[..n], base);
      var v := Value(ds[..n], base);
      MulMonotone(base, v + 1, Pow(base, n));
      assert (v + 1) * base == v * base + base;
    }
  }

  lemma {:induction false} ValueConcat(a: seq<nat>, b: seq<nat>, base: nat)
    ensures Value(a + b, base) == Value(a, base) * Pow(base, |b|) + Value(b, base)
  {
    if b == [] {
      assert a + b == a;
    } else {
      var n := |b| - 1;
      assert (a + b)[..|a + b| - 1] == a + b[..n];
      ValueConcat(a, b[..n], base);
      ShiftStep(Value(a, base), Pow(base, n), Value(b[..n], base), base);
    }
  }

  lemma ShiftStep(x: nat, p: nat, y: nat, base: nat)
    ensures (x * p + y) * base == x * (base * p) + y * base
  {
    assert (x * p) * base == x * (base * p);
  }

  lemma {:induction false} ValueZeros(n: nat, base: nat)
    ensures Value(seq(n, _ => 0), base) == 0
  {
    if n > 0 {
      assert seq(n, _ => 0)[..n - 1] == seq(n - 1, _ => 0);
      ValueZeros(n - 1, base);
    }
  }

  lemma ZerosAreZero(ds: seq<nat>, base: nat)
    requires forall i :: 0 <= i < |ds| ==> ds[i] == 0
    ensures Value(ds, base) == 0
  {
    assert ds == seq(|ds|, _ => 0);
    ValueZeros(|ds|, base);
  }
}
