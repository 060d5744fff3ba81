/**
 Prefixes of ids: the keys of k-buckets.

 A prefix keeps the id bytes it was cut from, zeroed after bit `depth`.  `Pat` is the
 bit string it fixes, and `Lo`/`Hi` bound the interval of ids it covers.
 */
module Prefixes {
  import opened Bits
  import opened Ids

  datatype RawPrefix = Prefix(bytes: Id, depth: int)

  ghost predicate Canonical(p: RawPrefix) {
    && -1 <= p.depth < ID_BITS
    && forall i :: p.depth < i < ID_BITS ==> !ToBits(p.bytes)[i]
  }

  lemma ZeroBits()
    ensures forall i :: 0 <= i < ID_BITS ==> !ToBits(MIN_ID)[i]
  {
  }

  lemma MaxBits()
    ensures forall i :: 0 <= i < ID_BITS ==> ToBits(MAX_ID)[i]
  {
    forall i | 0 <= i < ID_BITS ensures ToBits(MAX_ID)[i] {
      BitMaskIsOneBit(i % 8);
    }
  }

  type Prefix = p: RawPrefix | Canonical(p) witness (ZeroBits(); Prefix(MIN_ID, -1))

  ghost function Pat(p: Prefix): (r: seq<bool>)
    ensures |r| == p.depth + 1
  {
    ToBits(p.bytes)[..p.depth + 1]
  }

  ghost predicate Covers(p: Prefix, id: Id) {
    Pat(p) <= ToBits(id)
  }

  /** The bits of last(): those of the prefix, then ones. */
  ghost function LastBits(p: Prefix): seq<bool> {
    seq(ID_BITS, i requires 0 <= i < ID_BITS => i > p.depth || ToBits(p.bytes)[i])
  }

  /** The number of first(). */
  ghost function Lo(p: Prefix): nat {
    Num(p.bytes)
  }

  /** One more than the number of last(). */
  ghost function Hi(p: Prefix): nat {
    Val(LastBits(p)) + 1
  }

  lemma LowEnd(p: Prefix)
    ensures Lo(p) == Low(Pat(p), ID_BITS)
  {
    var n := ID_BITS - |Pat(p)|;
    assert ToBits(p.bytes) == Pat(p) + seq(n, _ => false);
    ValConcat(Pat(p), seq(n, _ => false));
    ZerosValue(n);
  }

  lemma HighEnd(p: Prefix)
    ensures Hi(p) == High(Pat(p), ID_BITS)
  {
    var n := ID_BITS - |Pat(p)|;
    assert LastBits(p) == Pat(p) + seq(n, _ => true);
    ValConcat(Pat(p), seq(n, _ => true));
    OnesValue(n);
    NextBlock(Val(Pat(p)), Pow2(n));
  }

  lemma Ends(p: Prefix)
    ensures Lo(p) == Low(Pat(p), ID_BITS) && Hi(p) == High(Pat(p), ID_BITS)
  {
    LowEnd(p);
    HighEnd(p);
  }

  lemma NextBlock(v: nat, w: nat)
    ensures v * w + w == (v + 1) * w
  {
  }

  /** isPrefixOf is membership in the interval [first, last]. */
  lemma CoversIsInterval(p: Prefix, id: Id)
    ensures Covers(p, id) <==> Lo(p) <= Num(id) < Hi(p)
  {
    PrefixIsInterval(Pat(p), ToBits(id));
    Ends(p);
  }

  lemma PatDetermines(p: Prefix, q: Prefix)
    requires Pat(p) == Pat(q)
    ensures p == q
  {
    forall i | 0 <= i < ID_BITS ensures ToBits(p.bytes)[i] == ToBits(q.bytes)[i] {
      if i <= p.depth {
        assert Pat(p)[i] == Pat(q)[i];
      }
    }
    assert ToBits(p.bytes) == ToBits(q.bytes);
    NumInjective(p.bytes, q.bytes);
  }

  lemma CoversFirst(p: Prefix)
    ensures Covers(p, p.bytes)
  {
  }

  lemma LoBelowHi(p: Prefix)
    ensures Lo(p) < Hi(p)
  {
    CoversFirst(p);
    CoversIsInterval(p, p.bytes);
  }

  /** A prefix of depth -1 covers everything. */
  lemma WholeEnds(p: Prefix)
    requires p.depth == -1
    ensures Lo(p) == 0 && Hi(p) == Pow2(ID_BITS)
  {
    assert Pat(p) == [];
    Ends(p);
  }

  /** The prefix that covers every id. */
  method All() returns (p: Prefix)
    ensures p.depth == -1
    ensures forall id: Id :: Covers(p, id)
  {
    ZeroBits();
    p := Prefix(MIN_ID, -1);
  }

  /** Prefix(id, depth): keeps bits 0..depth of id and zeroes the rest. */
  method Make(id: Id, depth: int) returns (p: Prefix)
    requires -1 <= depth < ID_BITS
    ensures p.depth == depth && Pat(p) == ToBits(id)[..depth + 1]
    ensures Covers(p, id)
  {
    var bytes := new Byte[ID_BYTES](i => Byte(0));
    ZeroBits();
    assert bytes[..] == MIN_ID;
    BitsCopy(id, bytes, depth);
    var r := Prefix(bytes[..], depth);
    assert ToBits(r.bytes)[..depth + 1] == ToBits(id)[..depth + 1];
    p := r;
  }

  /** The copy constructor re-cuts a prefix at its own depth and so reproduces it. */
  method Copy(p: Prefix) returns (r: Prefix)
    ensures r == p
  {
    r := Make(p.bytes, p.depth);
    PatDetermines(r, p);
  }

  method IsPrefixOf(p: Prefix, id: Id) returns (r: bool)
    ensures r <==> Covers(p, id)
  {
    r := BitsEqual(p.bytes, id, p.depth);
    assert Covers(p, id) <==> forall i :: 0 <= i <= p.depth ==> ToBits(p.bytes)[i] == ToBits(id)[i] by {
      assert Pat(p) <= ToBits(id) <==> forall i :: 0 <= i < |Pat(p)| ==> Pat(p)[i] == ToBits(id)[i];
    }
  }

  predicate Splittable(p: Prefix) {
    p.depth < ID_BITS - 1
  }

  /** last(): this xor (ones after bit depth). */
  method Last(p: Prefix) returns (id: Id)
    ensures Num(id) == Hi(p) - 1 && Covers(p, id)
  {
    var top := Make(MAX_ID, p.depth);
    var trailingBits := Distance(top.bytes, MAX_ID);
    id := Distance(p.bytes, trailingBits);
    MaxBits();
    forall i | 0 <= i < ID_BITS ensures ToBits(id)[i] == LastBits(p)[i] {
      if i <= p.depth {
        assert Pat(top)[i] == ToBits(MAX_ID)[i];
      }
    }
    assert ToBits(id) == LastBits(p);
  }

  function SetIdBit(id: Id, n: nat, on: bool): Id
    requires n < ID_BITS
  {
    id[n / 8 := WithBit(id[n / 8], n % 8, on)]
  }

  lemma SetIdBitBits(id: Id, n: nat, on: bool)
    requires n < ID_BITS
    ensures ToBits(SetIdBit(id, n, on)) == ToBits(id)[n := on]
  {
    forall i | 0 <= i < ID_BITS ensures ToBits(SetIdBit(id, n, on))[i] == if i == n then on else ToBits(id)[i] {
      if i / 8 == n / 8 {
        WithBitSets(id[n / 8], n % 8, on, i % 8);
      }
    }
  }

  /** One of the two children, one bit deeper. */
  function SplitBranch(p: Prefix, highBranch: bool): (r: Prefix)
    requires Splittable(p)
    ensures r.depth == p.depth + 1
    ensures Pat(r) == Pat(p) + [highBranch]
  {
    SetIdBitBits(p.bytes, p.depth + 1, highBranch);
    Prefix(SetIdBit(p.bytes, p.depth + 1, highBranch), p.depth + 1)
  }

  /** One bit shorter; the whole keyspace is its own parent. */
  function GetParent(p: Prefix): (r: Prefix)
    ensures r.depth == if p.depth == -1 then -1 else p.depth - 1
    ensures Pat(r) == Pat(p)[..r.depth + 1]
  {
    if p.depth == -1 then p else
      SetIdBitBits(p.bytes, p.depth, false);
      Prefix(SetIdBit(p.bytes, p.depth, false), p.depth - 1)
  }

  lemma ParentUndoesSplit(p: Prefix, highBranch: bool)
    requires Splittable(p)
    ensures GetParent(SplitBranch(p, highBranch)) == p
  {
    PatDetermines(GetParent(SplitBranch(p, highBranch)), p);
  }

  /** The two branches cut the interval of ids in half. */
  lemma BranchesHalve(p: Prefix)
    requires Splittable(p)
    ensures Lo(SplitBranch(p, false)) == Lo(p)
    ensures Hi(SplitBranch(p, false)) == Lo(SplitBranch(p, true))
    ensures Hi(SplitBranch(p, true)) == Hi(p)
    ensures forall id: Id :: Covers(p, id) <==> Covers(SplitBranch(p, false), id) || Covers(SplitBranch(p, true), id)
    ensures forall id: Id :: !(Covers(SplitBranch(p, false), id) && Covers(SplitBranch(p, true), id))
  {
    HalvesSplitInterval(Pat(p), ID_BITS);
    Ends(p);
    Ends(SplitBranch(p, false));
    Ends(SplitBranch(p, true));
    forall id: Id
      ensures Covers(p, id) <==> Covers(SplitBranch(p, false), id) || Covers(SplitBranch(p, true), id)
      ensures !(Covers(SplitBranch(p, false), id) && Covers(SplitBranch(p, true), id))
    {
      CoversIsInterval(p, id);
      CoversIsInterval(SplitBranch(p, false), id);
      CoversIsInterval(SplitBranch(p, true), id);
      LoBelowHi(SplitBranch(p, false));
      LoBelowHi(SplitBranch(p, true));
    }
  }

  /** An id under a prefix falls into its high half exactly if its next bit is one. */
  lemma HighHalfBit(p: Prefix, id: Id)
    requires Splittable(p) && Covers(p, id)
    ensures Covers(SplitBranch(p, true), id) <==> ToBits(id)[p.depth + 1]
  {
    var n := p.depth + 1;
    assert ToBits(id)[..n] == Pat(p);
    assert ToBits(id)[..n + 1] == Pat(p) + [ToBits(id)[n]];
    assert Pat(SplitBranch(p, true))[n];
  }

  ghost predicate Sibling(p: Prefix, q: Prefix) {
    p.depth == q.depth && GetParent(p) == GetParent(q)
  }

  /** Equal parents means agreement on all bits but the last. */
  lemma ParentsAgree(p: Prefix, q: Prefix)
    requires p.depth == q.depth
    ensures GetParent(p) == GetParent(q) <==> p.depth < 1 || AgreeUpTo(p.bytes, q.bytes, p.depth - 1)
  {
    var a, b := GetParent(p), GetParent(q);
    assert forall i :: 0 <= i < |Pat(a)| ==> Pat(a)[i] == ToBits(p.bytes)[i] && Pat(b)[i] == ToBits(q.bytes)[i];
    if p.depth < 1 || AgreeUpTo(p.bytes, q.bytes, p.depth - 1) {
      assert Pat(a) == Pat(b);
      PatDetermines(a, b);
    }
  }

  method IsSiblingOf(p: Prefix, q: Prefix) returns (r: bool)
    ensures r <==> Sibling(p, q)
  {
    if p.depth != q.depth {
      return false;
    }
    r := BitsEqual(p.bytes, q.bytes, p.depth - 1);
    ParentsAgree(p, q);
  }

  lemma ChildOfParent(p: Prefix)
    requires p.depth >= 0
    ensures Splittable(GetParent(p)) && p == SplitBranch(GetParent(p), Pat(p)[p.depth])
  {
    var r := GetParent(p);
    assert Pat(p) == Pat(r) + [Pat(p)[p.depth]];
    PatDetermines(p, SplitBranch(r, Pat(p)[p.depth]));
  }

  /** Two different siblings are the low and the high branch of their parent. */
  lemma SiblingsUnite(p: Prefix, q: Prefix)
    requires Sibling(p, q) && Lo(p) < Lo(q)
    ensures 0 <= p.depth && Splittable(GetParent(p))
    ensures p == SplitBranch(GetParent(p), false) && q == SplitBranch(GetParent(p), true)
    ensures Lo(GetParent(p)) == Lo(p) && Hi(p) == Lo(q) && Hi(q) == Hi(GetParent(p))
  {
    if p.depth == -1 {
      WholeEnds(p);
      WholeEnds(q);
    } else {
      ChildOfParent(p);
      ChildOfParent(q);
      BranchesHalve(GetParent(p));
      LoBelowHi(SplitBranch(GetParent(p), false));
    }
  }
}
