/**
 256-bit identifiers stored as 32 bytes, and the XOR metric over them.

 The byte loops are proved against the bit-string reading `ToBits` and the number
 `Num` it denotes; the rest of the project reasons with those.
 */
module Ids {
  import opened Bits

  const ID_BYTES := 32
  const ID_BITS := 256

  /** One octet; the wrapper keeps bit-vector terms out of sequence reasoning. */
  datatype Byte = Byte(v: bv8)

  type Id = s: seq<Byte> | |s| == ID_BYTES witness seq(ID_BYTES, _ => Byte(0))

  const MIN_ID: Id := seq(ID_BYTES, _ => Byte(0))
  const MAX_ID: Id := seq(ID_BYTES, _ => Byte(0xFF))

  // ---------------------------------------------------------------- single bytes

  /** 0x80 >> k. */
  function BitMask(k: nat): bv8
    requires k < 8
  {
    if k == 0 then 0x80 else BitMask(k - 1) >> 1
  }

  /** Low byte of 0xff80 >> k: selects the leading k + 1 bits. */
  function HeadMask(k: nat): bv8
    requires k < 8
  {
    if k == 0 then 0x80 else HeadMask(k - 1) | BitMask(k)
  }

  lemma MaskTable(k: nat)
    requires k < 8
    ensures BitMask(k) ==
      if k == 0 then 0x80 else if k == 1 then 0x40 else if k == 2 then 0x20 else if k == 3 then 0x10
      else if k == 4 then 0x08 else if k == 5 then 0x04 else if k == 6 then 0x02 else 0x01
    ensures HeadMask(k) ==
      if k == 0 then 0x80 else if k == 1 then 0xC0 else if k == 2 then 0xE0 else if k == 3 then 0xF0
      else if k == 4 then 0xF8 else if k == 5 then 0xFC else if k == 6 then 0xFE else 0xFF
  {
    assert BitMask(0) == 0x80 && BitMask(1) == 0x40 && BitMask(2) == 0x20 && BitMask(3) == 0x10;
    assert BitMask(4) == 0x08 && BitMask(5) == 0x04 && BitMask(6) == 0x02 && BitMask(7) == 0x01;
    assert HeadMask(0) == 0x80 && HeadMask(1) == 0xC0 && HeadMask(2) == 0xE0 && HeadMask(3) == 0xF0;
    assert HeadMask(4) == 0xF8 && HeadMask(5) == 0xFC && HeadMask(6) == 0xFE && HeadMask(7) == 0xFF;
  }

  /** The two masks are the shifts the byte code writes. */
  lemma MasksAreShifts(k: nat)
    requires k < 8
    ensures (0x80 as bv8) >> k == BitMask(k)
    ensures ((0xff80 as bv16) >> k) & 0xff == HeadMask(k) as bv16
  {
    MaskTable(k);
  }

  predicate Bit(b: Byte, k: nat)
    requires k < 8
  {
    b.v & BitMask(k) != 0
  }

  function XorByte(a: Byte, b: Byte): Byte {
    Byte(a.v ^ b.v)
  }

  /** Leading k + 1 bits of s followed by the remaining bits of d. */
  function BlendByte(s: Byte, d: Byte, k: nat): Byte
    requires k < 8
  {
    Byte((d.v & !HeadMask(k)) | (s.v & HeadMask(k)))
  }

  lemma ByteExtensional(a: Byte, b: Byte)
    requires forall k :: 0 <= k < 8 ==> Bit(a, k) == Bit(b, k)
    ensures a == b
  {
    assert Bit(a, 0) == Bit(b, 0) && Bit(a, 1) == Bit(b, 1) && Bit(a, 2) == Bit(b, 2) && Bit(a, 3) == Bit(b, 3);
    assert Bit(a, 4) == Bit(b, 4) && Bit(a, 5) == Bit(b, 5) && Bit(a, 6) == Bit(b, 6) && Bit(a, 7) == Bit(b, 7);
    EightBits(a.v, b.v);
  }

  lemma EightBits(a: bv8, b: bv8)
    requires (a & 0x80 != 0) == (b & 0x80 != 0) && (a & 0x40 != 0) == (b & 0x40 != 0)
    requires (a & 0x20 != 0) == (b & 0x20 != 0) && (a & 0x10 != 0) == (b & 0x10 != 0)
    requires (a & 0x08 != 0) == (b & 0x08 != 0) && (a & 0x04 != 0) == (b & 0x04 != 0)
    requires (a & 0x02 != 0) == (b & 0x02 != 0) && (a & 0x01 != 0) == (b & 0x01 != 0)
    ensures a == b
  {
  }

  /** A single-bit mask. */
  predicate OneBit(m: bv8) {
    m != 0 && m & (m - 1) == 0
  }

  lemma BitMaskIsOneBit(k: nat)
    requires k < 8
    ensures OneBit(BitMask(k))
  {
    MaskTable(k);
  }

  lemma XorMask(a: bv8, b: bv8, m: bv8)
    requires OneBit(m)
    ensures ((a ^ b) & m != 0) == ((a & m != 0) != (b & m != 0))
  {
  }

  lemma XorBit(a: Byte, b: Byte, k: nat)
    requires k < 8
    ensures Bit(XorByte(a, b), k) == (Bit(a, k) != Bit(b, k))
  {
    BitMaskIsOneBit(k);
    XorMask(a.v, b.v, BitMask(k));
  }

  predicate HeadZero(d: Byte, k: nat)
    requires k < 8
  {
    d.v & HeadMask(k) == 0
  }

  lemma HeadMaskStep(d: Byte, k: nat)
    requires k < 8
    ensures HeadZero(d, k) <==> (k == 0 || HeadZero(d, k - 1)) && !Bit(d, k)
  {
    if k > 0 {
      JoinMasks(d.v, HeadMask(k - 1), BitMask(k));
    }
  }

  lemma JoinMasks(d: bv8, h: bv8, m: bv8)
    ensures d & (h | m) == 0 <==> d & h == 0 && d & m == 0
  {
  }

  lemma {:induction false} HeadZeroBits(d: Byte, k: nat)
    requires k < 8
    ensures HeadZero(d, k) <==> forall j :: 0 <= j <= k ==> !Bit(d, j)
  {
    HeadMaskStep(d, k);
    if k > 0 {
      HeadZeroBits(d, k - 1);
    }
  }

  /** The masked difference vanishes exactly when the leading k + 1 bits agree. */
  lemma HeadMaskTest(a: Byte, b: Byte, k: nat)
    requires k < 8
    ensures HeadZero(XorByte(a, b), k) <==> forall j :: 0 <= j <= k ==> Bit(a, j) == Bit(b, j)
  {
    HeadZeroBits(XorByte(a, b), k);
    forall j | 0 <= j <= k ensures Bit(XorByte(a, b), j) == (Bit(a, j) != Bit(b, j)) {
      XorBit(a, b, j);
    }
  }

  lemma HeadMaskBits(k: nat, j: nat)
    requires k < 8 && j < 8
    ensures HeadMask(k) & BitMask(j) == if j <= k then BitMask(j) else 0
  {
    MaskTable(k);
    MaskTable(j);
  }

  lemma BlendSelects(s: bv8, d: bv8, m: bv8, b: bv8)
    ensures m & b == b ==> ((d & !m) | (s & m)) & b == s & b
    ensures m & b == 0 ==> ((d & !m) | (s & m)) & b == d & b
  {
  }

  lemma HeadMaskCopy(s: Byte, d: Byte, k: nat, j: nat)
    requires k < 8 && j < 8
    ensures Bit(BlendByte(s, d, k), j) == Bit(if j <= k then s else d, j)
  {
    HeadMaskBits(k, j);
    BlendSelects(s.v, d.v, HeadMask(k), BitMask(j));
  }

  function WithBit(b: Byte, k: nat, on: bool): Byte
    requires k < 8
  {
    if on then Byte(b.v | BitMask(k)) else Byte(b.v & !BitMask(k))
  }

  lemma BitMaskDisjoint(k: nat, j: nat)
    requires k < 8 && j < 8 && j != k
    ensures BitMask(k) & BitMask(j) == 0
  {
    MaskTable(k);
    MaskTable(j);
  }

  lemma ChangeMask(b: bv8, m: bv8, n: bv8)
    ensures m & n == 0 ==> (b | m) & n == b & n && (b & !m) & n == b & n
    ensures m != 0 ==> (b | m) & m != 0 && (b & !m) & m == 0
  {
  }

  lemma WithBitSets(b: Byte, k: nat, on: bool, j: nat)
    requires k < 8 && j < 8
    ensures Bit(WithBit(b, k, on), j) == if j == k then on else Bit(b, j)
  {
    ChangeMask(b.v, BitMask(k), BitMask(j));
    BitMaskIsOneBit(k);
    if j != k {
      BitMaskDisjoint(k, j);
    }
  }

  lemma OrderAtMask(a: bv8, b: bv8, h: bv8, m: bv8)
    requires h == 0 - (m + m) && OneBit(m)
    requires a & m == 0 && b & m != 0 && (a ^ b) & h == 0
    ensures a < b
  {
  }

  lemma ByteOrderFromBit(a: Byte, b: Byte, k: nat)
    requires k < 8 && !Bit(a, k) && Bit(b, k)
    requires k == 0 || HeadZero(XorByte(a, b), k - 1)
    ensures a.v < b.v
  {
    var h := if k == 0 then 0 else HeadMask(k - 1);
    assert h == 0 - (BitMask(k) + BitMask(k)) by {
      MaskTable(k);
      if k > 0 {
        MaskTable(k - 1);
      }
    }
    BitMaskIsOneBit(k);
    OrderAtMask(a.v, b.v, h, BitMask(k));
  }

  /** Unequal bytes compare as their first differing bit does. */
  lemma ByteFirstDifference(a: Byte, b: Byte) returns (k: nat)
    requires a != b
    ensures k < 8 && Bit(a, k) != Bit(b, k)
    ensures forall j :: 0 <= j < k ==> Bit(a, j) == Bit(b, j)
    ensures a.v < b.v <==> Bit(b, k)
  {
    if forall j :: 0 <= j < 8 ==> Bit(a, j) == Bit(b, j) {
      ByteExtensional(a, b);
    }
    k := 0;
    while Bit(a, k) == Bit(b, k)
      invariant k < 8
      invariant forall j :: 0 <= j < k ==> Bit(a, j) == Bit(b, j)
      decreases 8 - k
    {
      k := k + 1;
    }
    if k > 0 {
      HeadMaskTest(a, b, k - 1);
      HeadMaskTest(b, a, k - 1);
    }
    if Bit(b, k) {
      ByteOrderFromBit(a, b, k);
    } else {
      ByteOrderFromBit(b, a, k);
    }
  }

  // ------------------------------------------------------------------ whole ids

  function ToBits(id: Id): (r: seq<bool>)
    ensures |r| == ID_BITS
    ensures forall i :: 0 <= i < ID_BITS ==> r[i] == Bit(id[i / 8], i % 8)
  {
    seq(ID_BITS, i requires 0 <= i < ID_BITS => Bit(id[i / 8], i % 8))
  }

  /** The id as a number below 2^256. */
  function Num(id: Id): nat {
    Val(ToBits(id))
  }

  function XorBytes(a: Id, b: Id): (r: Id)
    ensures forall i :: 0 <= i < ID_BYTES ==> r[i] == XorByte(a[i], b[i])
  {
    seq(ID_BYTES, i requires 0 <= i < ID_BYTES => XorByte(a[i], b[i]))
  }

  /** XOR distance, as a number. */
  function Dist(a: Id, b: Id): nat {
    Num(XorBytes(a, b))
  }

  lemma BitAt(a: Id, i: nat, k: nat)
    requires i < ID_BYTES && k < 8
    ensures ToBits(a)[8 * i + k] == Bit(a[i], k)
  {
    var n := 8 * i + k;
    assert n / 8 == i && n % 8 == k;
  }

  lemma ByteFromBits(a: Id, b: Id, i: nat)
    requires i < ID_BYTES
    requires forall n :: 8 * i <= n < 8 * i + 8 ==> ToBits(a)[n] == ToBits(b)[n]
    ensures a[i] == b[i]
  {
    forall k | 0 <= k < 8 ensures Bit(a[i], k) == Bit(b[i], k) {
      BitAt(a, i, k);
      BitAt(b, i, k);
    }
    ByteExtensional(a[i], b[i]);
  }

  lemma NumInjective(a: Id, b: Id)
    ensures Num(a) == Num(b) <==> a == b
  {
    if Num(a) == Num(b) {
      ValInjective(ToBits(a), ToBits(b));
      forall i | 0 <= i < ID_BYTES ensures a[i] == b[i] {
        ByteFromBits(a, b, i);
      }
    }
  }

  lemma NumBound(a: Id)
    ensures Num(a) < Pow2(ID_BITS)
  {
    ValBound(ToBits(a));
  }

  lemma XorRefinesBits(a: Id, b: Id)
    ensures ToBits(XorBytes(a, b)) == Xor(ToBits(a), ToBits(b))
  {
    forall i | 0 <= i < ID_BITS
      ensures ToBits(XorBytes(a, b))[i] == (ToBits(a)[i] != ToBits(b)[i])
    {
      XorBit(a[i / 8], b[i / 8], i % 8);
    }
  }

  lemma CancelXor(t: Byte, a: Byte, b: Byte)
    ensures XorByte(t, a) == XorByte(t, b) <==> a == b
  {
    assert t.v ^ (t.v ^ a.v) == a.v && t.v ^ (t.v ^ b.v) == b.v;
  }

  lemma XorBytesInjective(t: Id, a: Id, b: Id)
    requires XorBytes(t, a) == XorBytes(t, b)
    ensures a == b
  {
    forall i | 0 <= i < ID_BYTES ensures a[i] == b[i] {
      CancelXor(t[i], a[i], b[i]);
    }
  }

  /** No two ids are equally far from a third. */
  lemma DistInjective(t: Id, a: Id, b: Id)
    ensures Dist(t, a) == Dist(t, b) <==> a == b
  {
    NumInjective(XorBytes(t, a), XorBytes(t, b));
    if XorBytes(t, a) == XorBytes(t, b) {
      XorBytesInjective(t, a, b);
    }
  }

  /** Ids that agree on all bytes before m and differ there compare as those bytes do. */
  lemma ByteMismatchDecides(a: Id, b: Id, m: nat)
    requires m < ID_BYTES && a[..m] == b[..m] && a[m] != b[m]
    ensures Num(a) < Num(b) <==> a[m].v < b[m].v
    ensures Num(a) != Num(b)
  {
    var k := ByteFirstDifference(a[m], b[m]);
    var n := 8 * m + k;
    assert n / 8 == m && n % 8 == k;
    forall i | 0 <= i < n ensures ToBits(a)[i] == ToBits(b)[i] {
      if i / 8 < m {
        assert a[..m][i / 8] == b[..m][i / 8];
      }
    }
    assert ToBits(a)[..n] == ToBits(b)[..n];
    if a[m].v < b[m].v {
      FirstDifferenceDecides(ToBits(a), ToBits(b), n);
    } else {
      FirstDifferenceDecides(ToBits(b), ToBits(a), n);
    }
  }

  /** Two ids agree on bits 0..n. */
  predicate AgreeUpTo(a: Id, b: Id, n: nat)
    requires n < ID_BITS
  {
    forall i :: 0 <= i <= n ==> ToBits(a)[i] == ToBits(b)[i]
  }

  predicate HeadsAgree(a: Byte, b: Byte, k: nat)
    requires k < 8
  {
    forall j :: 0 <= j <= k ==> Bit(a, j) == Bit(b, j)
  }

  /** Bits 0..n agree exactly when the bytes before n / 8 and the leading bits of that byte do. */
  lemma LeadingBits(a: Id, b: Id, n: nat)
    requires n < ID_BITS
    ensures AgreeUpTo(a, b, n) <==>
            (forall i :: 0 <= i < n / 8 ==> a[i] == b[i]) && HeadsAgree(a[n / 8], b[n / 8], n % 8)
  {
    var m, k := n / 8, n % 8;
    if AgreeUpTo(a, b, n) {
      forall i | 0 <= i < m ensures a[i] == b[i] {
        ByteFromBits(a, b, i);
      }
      forall j | 0 <= j <= k ensures Bit(a[m], j) == Bit(b[m], j) {
        BitAt(a, m, j);
        BitAt(b, m, j);
      }
    }
    if (forall i :: 0 <= i < m ==> a[i] == b[i]) && HeadsAgree(a[m], b[m], k) {
      forall i | 0 <= i <= n ensures ToBits(a)[i] == ToBits(b)[i] {
      }
    }
  }

  // ---------------------------------------------------------------- the byte code

  /** The scan shared by the comparisons: first index at which two ids differ, or -1. */
  method FirstMismatch(a: Id, b: Id) returns (mmi: int)
    ensures mmi == -1 <==> a == b
    ensures a != b ==> 0 <= mmi < ID_BYTES && a[..mmi] == b[..mmi] && a[mmi] != b[mmi]
  {
    mmi := -1;
    var i := 0;
    while i < ID_BYTES
      invariant 0 <= i <= ID_BYTES
      invariant a[..i] == b[..i]
    {
      if a[i] != b[i] {
        mmi := i;
        return;
      }
      i := i + 1;
    }
    assert a[..i] == a && b[..i] == b;
  }

  method Distance(a: Id, b: Id) returns (d: Id)
    ensures ToBits(d) == Xor(ToBits(a), ToBits(b))
    ensures Num(d) == Dist(a, b)
  {
    var buf := new Byte[ID_BYTES];
    var i := 0;
    while i < ID_BYTES
      invariant 0 <= i <= ID_BYTES
      invariant forall j :: 0 <= j < i ==> buf[j] == XorByte(a[j], b[j])
    {
      buf[i] := Byte(a[i].v ^ b[i].v);
      i := i + 1;
    }
    d := buf[..];
    assert d == XorBytes(a, b);
    XorRefinesBits(a, b);
  }

  /** memcmp order of two ids is the order of the numbers they denote. */
  method CompareTo(a: Id, b: Id) returns (r: int)
    ensures r < 0 <==> Num(a) < Num(b)
    ensures r > 0 <==> Num(a) > Num(b)
    ensures r == 0 <==> a == b
  {
    var mmi := FirstMismatch(a, b);
    if mmi == -1 {
      return 0;
    }
    ByteMismatchDecides(a, b, mmi);
    r := if a[mmi].v < b[mmi].v then -1 else 1;
  }

  lemma DistanceMismatch(t: Id, a: Id, b: Id, m: nat)
    requires m < ID_BYTES && a[..m] == b[..m] && a[m] != b[m]
    ensures Dist(t, a) < Dist(t, b) <==> XorByte(a[m], t[m]).v < XorByte(b[m], t[m]).v
    ensures Dist(t, a) != Dist(t, b)
    ensures XorByte(a[m], t[m]) != XorByte(b[m], t[m])
  {
    var x, y := XorBytes(t, a), XorBytes(t, b);
    forall i | 0 <= i < m ensures x[i] == y[i] {
      assert a[..m][i] == b[..m][i];
      CancelXor(t[i], a[i], b[i]);
    }
    CancelXor(t[m], a[m], b[m]);
    XorCommutes(a[m], t[m]);
    XorCommutes(b[m], t[m]);
    ByteMismatchDecides(x, y, m);
  }

  lemma XorCommutes(a: Byte, b: Byte)
    ensures XorByte(a, b) == XorByte(b, a)
  {
  }

  /** Orders two ids exactly by their XOR distance to t. */
  method ThreeWayCompare(t: Id, id1: Id, id2: Id) returns (r: int)
    ensures r == if Dist(t, id1) < Dist(t, id2) then -1 else if Dist(t, id1) > Dist(t, id2) then 1 else 0
    ensures r == 0 <==> id1 == id2
  {
    var mmi := FirstMismatch(id1, id2);
    if mmi == -1 {
      return 0;
    }
    var a, b := XorByte(id1[mmi], t[mmi]), XorByte(id2[mmi], t[mmi]);
    DistanceMismatch(t, id1, id2, mmi);
    if a.v < b.v {
      r := -1;
    } else if a.v > b.v {
      r := 1;
    } else {
      r := 0;
    }
  }

  /** True exactly when bits 0..n of the two ids agree; vacuously for n < 0. */
  method BitsEqual(id1: Id, id2: Id, n: int) returns (r: bool)
    requires n < ID_BITS
    ensures r <==> n < 0 || AgreeUpTo(id1, id2, n)
  {
    if n < 0 {
      return true;
    }
    var mmi := FirstMismatch(id1, id2);
    var indexToCheck := n / 8;
    LeadingBits(id1, id2, n);
    var diff := XorByte(id1[indexToCheck], id2[indexToCheck]);
    var bitsDiff := HeadZero(diff, n % 8);
    HeadMaskTest(id1[indexToCheck], id2[indexToCheck], n % 8);
    assert bitsDiff <==> HeadsAgree(id1[indexToCheck], id2[indexToCheck], n % 8);
    if mmi == -1 {
      return true;
    }
    assert forall i :: 0 <= i < mmi ==> id1[..mmi][i] == id2[..mmi][i];
    if mmi == indexToCheck {
      return bitsDiff;
    }
    r := mmi > indexToCheck;
  }

  /** Overwrites bits 0..depth of dest with those of src and leaves the others alone. */
  method BitsCopy(src: Id, dest: array<Byte>, depth: int)
    requires dest.Length == ID_BYTES && depth < ID_BITS
    modifies dest
    ensures forall i :: 0 <= i < ID_BITS ==>
      ToBits(dest[..])[i] == if i <= depth then ToBits(src)[i] else ToBits(old(dest[..]))[i]
  {
    if depth < 0 {
      return;
    }
    var idx := depth / 8;
    var i := 0;
    while i < idx
      invariant 0 <= i <= idx
      invariant forall j :: 0 <= j < ID_BYTES ==> dest[j] == if j < i then src[j] else old(dest[j])
    {
      dest[i] := src[i];
      i := i + 1;
    }
    var mask := HeadMask(depth % 8);
    dest[idx] := Byte(dest[idx].v & !mask);
    dest[idx] := Byte(dest[idx].v | (src[idx].v & mask));
    ByteCopyRefinesBits(src, old(dest[..]), dest[..], depth);
  }

  lemma ByteCopyRefinesBits(src: Id, before: Id, after: Id, depth: nat)
    requires depth < ID_BITS
    requires forall j :: 0 <= j < ID_BYTES && j != depth / 8 ==> after[j] == if j < depth / 8 then src[j] else before[j]
    requires after[depth / 8] == BlendByte(src[depth / 8], before[depth / 8], depth % 8)
    ensures forall i :: 0 <= i < ID_BITS ==> ToBits(after)[i] == if i <= depth then ToBits(src)[i] else ToBits(before)[i]
  {
    forall i | 0 <= i < ID_BITS
      ensures ToBits(after)[i] == if i <= depth then ToBits(src)[i] else ToBits(before)[i]
    {
      if i / 8 == depth / 8 {
        HeadMaskCopy(src[i / 8], before[i / 8], depth % 8, i % 8);
      }
    }
  }
}
