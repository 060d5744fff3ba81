/**
 Bit strings, most significant bit first, and the numbers they denote.

 Ids are 256-bit strings and k-bucket prefixes are their leading parts.  A prefix
 stands for the interval of all numbers whose bits start with it, and this module
 ties the two readings (leading part, interval) together.
 */
module Bits {
  import Numerals

  function Pow2(n: nat): (r: nat)
    ensures r > 0
  {
    if n == 0 then 1 else 2 * Pow2(n - 1)
  }

  function Digit(b: bool): (d: nat)
    ensures d <= 1
  {
    if b then 1 else 0
  }

  /** The number a bit string denotes. */
  function Val(b: seq<bool>): nat {
    if b == [] then 0 else 2 * Val(b[..|b| - 1]) + Digit(b[|b| - 1])
  }

  /** Smallest number of `width` bits that starts with p. */
  function Low(p: seq<bool>, width: nat): nat
    requires |p| <= width
  {
    Val(p) * Pow2(width - |p|)
  }

  /** One past the largest number of `width` bits that starts with p. */
  function High(p: seq<bool>, width: nat): nat
    requires |p| <= width
  {
    (Val(p) + 1) * Pow2(width - |p|)
  }

  lemma {:induction false} ValConcat(p: seq<bool>, s: seq<bool>)
    ensures Val(p + s) == Val(p) * Pow2(|s|) + Val(s)
  {
    if s == [] {
      assert p + s == p;
    } else {
      var s' := s[..|s| - 1];
      assert (p + s)[..|p + s| - 1] == p + s';
      ValConcat(p, s');
      Doubling(Val(p), Pow2(|s'|));
    }
  }

  lemma Doubling(a: nat, b: nat)
    ensures a * (2 * b) == 2 * (a * b)
  {
  }

  lemma {:induction false} ValBound(b: seq<bool>)
    ensures Val(b) < Pow2(|b|)
  {
    if b != [] {
      ValBound(b[..|b| - 1]);
    }
  }

  lemma {:induction false} ValInjective(a: seq<bool>, b: seq<bool>)
    requires |a| == |b| && Val(a) == Val(b)
    ensures a == b
  {
    if a != [] {
      var n := |a| - 1;
      ValInjective(a[..n], b[..n]);
      assert a == a[..n] + [a[n]] && b == b[..n] + [b[n]];
    }
  }

  /** Two numbers of equal width compare as their bits do at the first difference. */
  lemma {:induction false} FirstDifferenceDecides(a: seq<bool>, b: seq<bool>, k: nat)
    requires |a| == |b| && k < |a|
    requires a[..k] == b[..k] && !a[k] && b[k]
    ensures Val(a) < Val(b)
    decreases |a|
  {
    var n := |a| - 1;
    if k < n {
      assert a[..n][..k] == a[..k] && b[..n][..k] == b[..k];
      FirstDifferenceDecides(a[..n], b[..n], k);
    }
  }

  /** Starting with p is the same as lying in p's interval. */
  lemma PrefixIsInterval(p: seq<bool>, x: seq<bool>)
    requires |p| <= |x|
    ensures p <= x <==> Low(p, |x|) <= Val(x) < High(p, |x|)
  {
    var q, s := x[..|p|], x[|p|..];
    assert x == q + s;
    ValConcat(q, s);
    ValBound(s);
    Bracket(Val(p), Val(q), Pow2(|s|), Val(s));
    if Val(p) == Val(q) {
      ValInjective(p, q);
    }
    assert p <= x <==> p == q;
  }

  /** A number lies in a block of width w exactly when its quotient is the block's. */
  lemma Bracket(a: nat, b: nat, w: nat, r: nat)
    requires r < w
    ensures a * w <= b * w + r < (a + 1) * w <==> a == b
  {
    Numerals.Spread(a, b, w);
    Numerals.Spread(b, a, w);
    assert (a + 1) * w == a * w + w;
  }

  /** Appending a bit halves the interval: 0 keeps the lower half, 1 the upper. */
  lemma HalvesSplitInterval(p: seq<bool>, width: nat)
    requires |p| < width
    ensures Low(p + [false], width) == Low(p, width)
    ensures High(p + [false], width) == Low(p + [true], width)
    ensures High(p + [true], width) == High(p, width)
  {
    ValConcat(p, [false]);
    ValConcat(p, [true]);
    assert Pow2(1) == 2 && Val([false]) == 0 && Val([true]) == 1;
    Halving(Val(p), Pow2(width - |p| - 1));
  }

  lemma Halving(v: nat, w: nat)
    ensures (2 * v) * w == v * (2 * w)
    ensures (2 * v + 1 + 1) * w == (v + 1) * (2 * w)
  {
  }

  lemma {:induction false} OnesValue(n: nat)
    ensures Val(seq(n, _ => true)) == Pow2(n) - 1
  {
    if n > 0 {
      assert seq(n, _ => true)[..n - 1] == seq(n - 1, _ => true);
      OnesValue(n - 1);
    }
  }

  lemma {:induction false} ZerosValue(n: nat)
    ensures Val(seq(n, _ => false)) == 0
  {
    if n > 0 {
      assert seq(n, _ => false)[..n - 1] == seq(n - 1, _ => false);
      ZerosValue(n - 1);
    }
  }

  /** Bitwise exclusive or: the Kademlia distance. */
  function Xor(a: seq<bool>, b: seq<bool>): (r: seq<bool>)
    requires |a| == |b|
    ensures |r| == |a|
    ensures forall i :: 0 <= i < |r| ==> r[i] == (a[i] != b[i])
  {
    seq(|a|, i requires 0 <= i < |a| && |a| == |b| => a[i] != b[i])
  }

  /**
   Two strings that agree on the first k bits are at distance below 2^(width-k), and
   two that differ somewhere in those k bits are at least that far apart.
   */
  lemma SharedPrefixDistance(a: seq<bool>, b: seq<bool>, k: nat)
    requires |a| == |b| && k <= |a|
    ensures a[..k] == b[..k] <==> Val(Xor(a, b)) < Pow2(|a| - k)
  {
    var d := Xor(a, b);
    var zero := seq(k, _ => false);
    PrefixIsInterval(zero, d);
    ZerosValue(k);
    assert zero <= d <==> forall i :: 0 <= i < k ==> d[i] == false;
    assert a[..k] == b[..k] <==> forall i :: 0 <= i < k ==> a[i] == b[i];
  }
}
