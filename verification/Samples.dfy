/**
 Small families of concrete entries, for the examples that show what the code can lose.
 */
module Samples {
  import opened Ids
  import opened Prefixes
  import opened KBuckets

  /** The id under p whose only one bit behind the prefix is the k-th. */
  function Member(p: Prefix, k: nat): Id
    requires p.depth + 1 + k < ID_BITS
  {
    SetIdBit(p.bytes, p.depth + 1 + k, true)
  }

  lemma MemberCovered(p: Prefix, k: nat)
    requires p.depth + 1 + k < ID_BITS
    ensures Covers(p, Member(p, k))
  {
    SetIdBitBits(p.bytes, p.depth + 1 + k, true);
  }

  lemma MembersDiffer(p: Prefix, k: nat, m: nat)
    requires k < m && p.depth + 1 + m < ID_BITS
    ensures Member(p, k) != Member(p, m)
  {
    SetIdBitBits(p.bytes, p.depth + 1 + k, true);
    SetIdBitBits(p.bytes, p.depth + 1 + m, true);
    assert !ToBits(Member(p, k))[p.depth + 1 + m];
  }

  /** Eight reachable entries under p with eight ports from `port` on. */
  ghost function Eight(p: Prefix, ip: seq<Byte>, port: nat, created: Time, seen: Time, failed: int): (es: seq<Entry>)
    requires p.depth < 8
    ensures |es| == 8
    ensures forall k :: 0 <= k < 8 ==>
      es[k] == Entry(Member(p, k), SocketAddress(ip, port + k), created, seen, seen, true, failed)
  {
    seq(8, k requires 0 <= k < 8 => Entry(Member(p, k), SocketAddress(ip, port + k), created, seen, seen, true, failed))
  }

  /** Eight entries on the ports from `port` on. */
  ghost predicate ByPort(es: seq<Entry>, port: nat) {
    |es| == 8 && forall k :: 0 <= k < 8 ==> es[k].addr.port == port + k
  }

  /** No two of sixteen entries on sixteen ports share an address. */
  lemma AddressesDiffer(a: seq<Entry>, b: seq<Entry>, x: Entry, y: Entry)
    requires ByPort(a, 0) && ByPort(b, 8) && x in a + b && y in a + b && x.addr == y.addr
    ensures x == y
  {
    var k :| 0 <= k < 16 && (a + b)[k] == x;
    var m :| 0 <= m < 16 && (a + b)[m] == y;
    assert x.addr.port == k && y.addr.port == m;
  }

  lemma EightSound(p: Prefix, ip: seq<Byte>, port: nat, created: Time, seen: Time, failed: int)
    requires p.depth < 8
    ensures Sound(Eight(p, ip, port, created, seen, failed))
    ensures forall x :: x in Eight(p, ip, port, created, seen, failed) ==> Covers(p, x.id)
  {
    var es := Eight(p, ip, port, created, seen, failed);
    forall k, m | 0 <= k < m < 8 ensures !es[k].Matches(es[m]) {
      MembersDiffer(p, k, m);
    }
    forall k | 0 <= k < 8 ensures Covers(p, es[k].id) {
      MemberCovered(p, k);
    }
  }
}
