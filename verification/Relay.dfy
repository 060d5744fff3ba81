/**
 Packet framing on the active proxy's relay stream.

 A packet is a 16-bit big-endian length, counting itself, a type byte, and data.  TCP
 hands the bytes over in arbitrary chunks; an incomplete packet waits in the sticky
 buffer.  The length field is the peer's, so it may lie: a field of zero makes the read
 loop spin for ever (`hung`), and a field below the header size behaves differently
 depending on where the stream was cut.  `WellFormed` is exactly what excludes that.
 */
module Relay {

  const PACKET_HEADER_BYTES := 3

  type Octet = b: int | 0 <= b < 256
  type Bytes = seq<Octet>

  /** The length field at the start of s. */
  function Field(s: Bytes): nat
    requires |s| >= 2
  {
    s[0] as int * 256 + s[1] as int
  }

  /** What reading leaves behind: packets delivered, bytes kept, and whether it spins. */
  datatype Outcome = Outcome(packets: seq<Bytes>, sticky: Bytes, hung: bool)

  function Prepend(p: Bytes, o: Outcome): Outcome {
    o.(packets := [p] + o.packets)
  }

  /** One-shot parse of a byte string that starts at a packet boundary. */
  function Parse(s: Bytes): Outcome {
    if |s| < PACKET_HEADER_BYTES then Outcome([], s, false)
    else if |s| < Field(s) then Outcome([], s, false)
    else if Field(s) == 0 then Outcome([], s, true)
    else Prepend(s[..Field(s)], Parse(s[Field(s)..]))
  }

  /** How many bytes complete the header, and how many the packet; both may be too many. */
  function HeaderNeed(sticky: Bytes): nat {
    if |sticky| < PACKET_HEADER_BYTES then PACKET_HEADER_BYTES - |sticky| else 0
  }

  /** One read: what a chunk does to a connection that holds `sticky`. */
  function ReadChunk(sticky: Bytes, data: Bytes): Outcome {
    if sticky == [] then Parse(data)
    else
      var all := sticky + data;
      var k := HeaderNeed(sticky);
      if |data| < k then Outcome([], all, false)
      else
        var n := Field(all);
        // a field below the bytes already held turns into a huge unsigned number
        if n < |sticky| + k || |all| < n then Outcome([], all, false)
        else Prepend(all[..n], Parse(data[n - |sticky|..]))
  }

  /** Reads chunk after chunk; a connection that spins reads no more. */
  function Feed(chunks: seq<Bytes>): Outcome {
    if chunks == [] then Outcome([], [], false)
    else
      var o := Feed(chunks[..|chunks| - 1]);
      if o.hung then o
      else
        var r := ReadChunk(o.sticky, chunks[|chunks| - 1]);
        Outcome(o.packets + r.packets, r.sticky, r.hung)
  }

  function Concat(parts: seq<Bytes>): Bytes {
    if parts == [] then [] else Concat(parts[..|parts| - 1]) + parts[|parts| - 1]
  }

  // --------------------------------------------------------------- conservation

  lemma {:induction false} ConcatFront(p: Bytes, parts: seq<Bytes>)
    ensures Concat([p] + parts) == p + Concat(parts)
  {
    if parts == [] {
      assert [p] + parts == [p] && [p][..0] == [];
    } else {
      var n := |parts| - 1;
      assert ([p] + parts)[..n + 1] == [p] + parts[..n];
      ConcatFront(p, parts[..n]);
    }
  }

  lemma {:induction false} ConcatJoin(a: seq<Bytes>, b: seq<Bytes>)
    ensures Concat(a + b) == Concat(a) + Concat(b)
  {
    if b == [] {
      assert a + b == a;
    } else {
      var n := |b| - 1;
      assert (a + b)[..|a| + n] == a + b[..n];
      ConcatJoin(a, b[..n]);
    }
  }

  /** A packet in front of a conserving outcome. */
  lemma PrependConserves(p: Bytes, o: Outcome, rest: Bytes)
    requires Concat(o.packets) + o.sticky == rest
    ensures Concat(Prepend(p, o).packets) + Prepend(p, o).sticky == p + rest
  {
    ConcatFront(p, o.packets);
  }

  lemma {:induction false} ParseConserves(s: Bytes)
    ensures Concat(Parse(s).packets) + Parse(s).sticky == s
  {
    if |s| >= PACKET_HEADER_BYTES && 0 < Field(s) <= |s| {
      var n := Field(s);
      ParseConserves(s[n..]);
      PrependConserves(s[..n], Parse(s[n..]), s[n..]);
      assert s == s[..n] + s[n..];
    }
  }

  /** No byte is lost, repeated or reordered: delivered plus kept is what came in. */
  lemma ReadConserves(sticky: Bytes, data: Bytes)
    ensures Concat(ReadChunk(sticky, data).packets) + ReadChunk(sticky, data).sticky == sticky + data
  {
    var all := sticky + data;
    var k := HeaderNeed(sticky);
    if sticky == [] {
      ParseConserves(data);
      assert all == data;
    } else if |data| >= k && |sticky| + k <= Field(all) <= |all| {
      FirstConserves(sticky, data, Field(all));
    }
  }

  lemma FirstConserves(sticky: Bytes, data: Bytes, n: nat)
    requires |sticky| <= n <= |sticky + data|
    ensures var o := Prepend((sticky + data)[..n], Parse(data[n - |sticky|..]));
      Concat(o.packets) + o.sticky == sticky + data
  {
    var all, rest := sticky + data, data[n - |sticky|..];
    ParseConserves(rest);
    PrependConserves(all[..n], Parse(rest), rest);
    assert all == all[..n] + rest;
  }

  lemma JoinConserves(a: seq<Bytes>, b: seq<Bytes>, kept: Bytes, sticky: Bytes, before: Bytes, chunk: Bytes)
    requires Concat(a) + kept == before && Concat(b) + sticky == kept + chunk
    ensures Concat(a + b) + sticky == before + chunk
  {
    ConcatJoin(a, b);
    assert Concat(a) + (Concat(b) + sticky) == (Concat(a) + kept) + chunk;
  }

  /** How many chunks are read: all, unless the connection spins on one of them. */
  function ReadCount(chunks: seq<Bytes>): (n: nat)
    ensures n <= |chunks| && (!Feed(chunks).hung ==> n == |chunks|)
  {
    if chunks == [] || !Feed(chunks[..|chunks| - 1]).hung then |chunks| else ReadCount(chunks[..|chunks| - 1])
  }

  /** Over every run of reads, delivered bytes plus the buffer are all bytes of the chunks that were read. */
  lemma {:induction false} FeedConserves(chunks: seq<Bytes>)
    ensures Concat(Feed(chunks).packets) + Feed(chunks).sticky == Concat(chunks[..ReadCount(chunks)])
  {
    if chunks != [] {
      var n := |chunks| - 1;
      var o := Feed(chunks[..n]);
      FeedConserves(chunks[..n]);
      if o.hung {
        assert chunks[..n][..ReadCount(chunks)] == chunks[..ReadCount(chunks)];
      } else {
        assert chunks[..n][..n] == chunks[..n] && chunks[..n + 1] == chunks;
        ReadConserves(o.sticky, chunks[n]);
        var r := ReadChunk(o.sticky, chunks[n]);
        JoinConserves(o.packets, r.packets, o.sticky, r.sticky, Concat(chunks[..n]), chunks[n]);
      }
    }
  }

  // -------------------------------------------------------- chunk independence

  /** At every packet boundary with a whole header behind it the field is at least the header size. */
  predicate WellFormed(s: Bytes) {
    |s| >= PACKET_HEADER_BYTES ==>
      Field(s) >= PACKET_HEADER_BYTES && (Field(s) <= |s| ==> WellFormed(s[Field(s)..]))
  }

  /** Bytes that do not make up a packet yet. */
  predicate Incomplete(s: Bytes) {
    |s| >= PACKET_HEADER_BYTES ==> |s| < Field(s)
  }

  lemma {:induction false} ParseRest(s: Bytes)
    requires WellFormed(s)
    ensures Incomplete(Parse(s).sticky) && !Parse(s).hung
  {
    if |s| >= PACKET_HEADER_BYTES && Field(s) <= |s| {
      ParseRest(s[Field(s)..]);
    }
  }

  /** Packets p before an outcome. */
  function Before(p: seq<Bytes>, o: Outcome): Outcome {
    o.(packets := p + o.packets)
  }

  lemma BeforeFacts(p: Bytes, ps: seq<Bytes>, o: Outcome)
    ensures Before([], o) == o
    ensures Prepend(p, Before(ps, o)) == Before([p] + ps, o)
  {
    assert [] + o.packets == o.packets;
    assert [p] + (ps + o.packets) == ([p] + ps) + o.packets;
  }

  lemma BeforeNext(ps: seq<Bytes>, p: Bytes, o: Outcome)
    ensures Before(ps, Prepend(p, o)) == Before(ps + [p], o)
  {
    assert ps + ([p] + o.packets) == (ps + [p]) + o.packets;
  }

  /** Appending bytes does not change a complete first packet. */
  lemma FirstPacket(a: Bytes, b: Bytes, n: nat)
    requires n <= |a|
    ensures (a + b)[n..] == a[n..] + b && (a + b)[..n] == a[..n]
  {
  }

  /** Parsing may stop after a prefix and resume with what was left of it. */
  lemma {:induction false} ParseResumes(a: Bytes, b: Bytes)
    requires WellFormed(a + b)
    ensures WellFormed(a) && WellFormed(Parse(a).sticky + b)
    ensures Parse(a + b) == Before(Parse(a).packets, Parse(Parse(a).sticky + b))
  {
    BeforeFacts([], [], Parse(a + b));
    if |a| >= PACKET_HEADER_BYTES {
      var n := Field(a);
      assert n == Field(a + b);
      if n <= |a| {
        FirstPacket(a, b, n);
        ParseResumes(a[n..], b);
        BeforeFacts(a[..n], Parse(a[n..]).packets, Parse(Parse(a).sticky + b));
      }
    }
  }

  /** On a well-formed stream the sticky path computes what a parse of the joined bytes would. */
  lemma ReadIsParse(sticky: Bytes, data: Bytes)
    requires Incomplete(sticky) && WellFormed(sticky + data)
    ensures ReadChunk(sticky, data) == Parse(sticky + data)
  {
    var all := sticky + data;
    if sticky == [] {
      assert all == data;
    } else if |all| >= PACKET_HEADER_BYTES {
      assert |sticky| >= PACKET_HEADER_BYTES ==> Field(sticky) == Field(all);
      if Field(all) <= |all| {
        assert data[Field(all) - |sticky|..] == all[Field(all)..];
      }
    }
  }

  /** On a well-formed stream every way of cutting it gives the one-shot parse. */
  lemma {:induction false} FeedIsParse(chunks: seq<Bytes>)
    requires WellFormed(Concat(chunks))
    ensures Feed(chunks) == Parse(Concat(chunks))
  {
    if chunks != [] {
      var n := |chunks| - 1;
      var front, last := Concat(chunks[..n]), chunks[n];
      ParseResumes(front, last);
      FeedIsParse(chunks[..n]);
      ParseRest(front);
      ReadIsParse(Parse(front).sticky, last);
    }
  }

  /** The outcome does not depend on how the stream was cut. */
  ghost predicate ChunkIndependent(s: Bytes) {
    forall chunks :: Concat(chunks) == s ==> Feed(chunks) == Parse(s)
  }

  /** What reading a stream up to one byte behind position p, where a short field begins, has given. */
  ghost predicate StopsAt(s: Bytes, p: nat) {
    && p + PACKET_HEADER_BYTES <= |s| && Field(s[p..]) < PACKET_HEADER_BYTES
    && Parse(s[..p + 1]).sticky == s[p..p + 1] && !Parse(s[..p + 1]).hung
    && Parse(s) == Before(Parse(s[..p + 1]).packets, Parse(s[p..]))
  }

  lemma StopsLater(s: Bytes, q: nat)
    requires |s| >= PACKET_HEADER_BYTES && PACKET_HEADER_BYTES <= Field(s) <= |s| && StopsAt(s[Field(s)..], q)
    ensures StopsAt(s, Field(s) + q)
  {
    var n := Field(s);
    var p, t := n + q, s[n..];
    assert s[..p + 1][..n] == s[..n] && s[..p + 1][n..] == t[..q + 1];
    assert t[q..] == s[p..] && t[q..q + 1] == s[p..p + 1];
    assert Field(s[..p + 1]) == n;
    BeforeFacts(s[..n], Parse(t[..q + 1]).packets, Parse(t[q..]));
  }

  lemma {:induction false} ShortField(s: Bytes) returns (p: nat)
    requires !WellFormed(s)
    ensures StopsAt(s, p)
  {
    var n := Field(s);
    if n < PACKET_HEADER_BYTES {
      p := 0;
      assert s[0..] == s;
      BeforeFacts([], [], Parse(s));
    } else {
      var q := ShortField(s[n..]);
      StopsLater(s, q);
      p := n + q;
    }
  }

  lemma OneChunk(a: Bytes)
    ensures Concat([a]) == a && Feed([a]) == Parse(a)
  {
    assert [a][..0] == [];
    assert [] + a == a && [] + Parse(a).packets == Parse(a).packets;
  }

  lemma TwoChunks(a: Bytes, b: Bytes)
    requires !Parse(a).hung
    ensures Concat([a, b]) == a + b
    ensures Feed([a, b]) == Before(Parse(a).packets, ReadChunk(Parse(a).sticky, b))
  {
    assert [a, b][..1] == [a];
    OneChunk(a);
  }

  /** A single byte of a short field in the buffer blocks the connection for good. */
  lemma ShortFieldSticks(t: Bytes)
    requires |t| >= PACKET_HEADER_BYTES && Field(t) < PACKET_HEADER_BYTES
    ensures ReadChunk(t[..1], t[1..]) == Outcome([], t, false)
    ensures Parse(t).hung || |Parse(t).packets| > 0
  {
    assert t[..1] + t[1..] == t;
  }

  /** Cutting a stream one byte into a short field loses the packets that follow. */
  lemma ShortFieldBreaks(s: Bytes)
    requires !WellFormed(s)
    ensures exists chunks :: Concat(chunks) == s && Feed(chunks) != Parse(s)
  {
    var p := ShortField(s);
    var a, b, t := s[..p + 1], s[p + 1..], s[p..];
    TwoChunks(a, b);
    ShortFieldSticks(t);
    assert a + b == s && t[..1] == s[p..p + 1] && t[1..] == b;
    assert Concat([a, b]) == s && Feed([a, b]) != Parse(s);
  }

  /** Delivery is independent of the cutting exactly for well-formed streams. */
  lemma ChunkIndependenceIff(s: Bytes)
    ensures ChunkIndependent(s) <==> WellFormed(s)
  {
    if WellFormed(s) {
      forall chunks | Concat(chunks) == s ensures Feed(chunks) == Parse(s) {
        FeedIsParse(chunks);
      }
    } else {
      ShortFieldBreaks(s);
    }
  }

  // --------------------------------------------------------------------- frames

  /** The bytes sendRelayPacket writes; the length is cut to 16 bits. */
  function Frame(kind: Octet, payload: Bytes, padding: Bytes): Bytes {
    var size := PACKET_HEADER_BYTES + |payload| + |padding|;
    [size / 256 % 256, size % 256, kind] + payload + padding
  }

  predicate IsFrame(f: Bytes) {
    PACKET_HEADER_BYTES <= |f| <= 0xFFFF && Field(f) == |f|
  }

  lemma FrameField(kind: Octet, payload: Bytes, padding: Bytes)
    ensures var f := Frame(kind, payload, padding);
      |f| == PACKET_HEADER_BYTES + |payload| + |padding| && Field(f) == |f| % 0x1_0000
  {
    var size := PACKET_HEADER_BYTES + |payload| + |padding|;
    assert size / 256 % 256 * 256 + size % 256 == size % 0x1_0000;
  }

  /** A frame comes back as itself exactly when its size fits the 16-bit field. */
  lemma FrameIntactIff(kind: Octet, payload: Bytes, padding: Bytes)
    ensures var f := Frame(kind, payload, padding);
      Parse(f) == Outcome([f], [], false) <==> PACKET_HEADER_BYTES + |payload| + |padding| <= 0xFFFF
  {
    var f := Frame(kind, payload, padding);
    FrameField(kind, payload, padding);
    if |f| <= 0xFFFF {
      assert f[..|f|] == f && f[|f|..] == [];
      assert [f] + [] == [f];
    } else if 0 < Field(f) <= |f| {
      assert Parse(f).packets[0] == f[..Field(f)];
    }
  }

  /** A received frame holds the type and the payload at fixed places. */
  lemma FramePayload(kind: Octet, payload: Bytes, padding: Bytes)
    ensures var f := Frame(kind, payload, padding);
      && f[0] as int * 256 + f[1] as int == (3 + |payload| + |padding|) % 0x1_0000
      && f[2] == kind && f[3..3 + |payload|] == payload && f[3 + |payload|..] == padding
  {
    var size := 3 + |payload| + |padding|;
    assert size / 256 % 256 * 256 + size % 256 == size % 0x1_0000;
  }

  lemma {:induction false} FramesParse(frames: seq<Bytes>)
    requires forall i :: 0 <= i < |frames| ==> IsFrame(frames[i])
    ensures WellFormed(Concat(frames)) && Parse(Concat(frames)) == Outcome(frames, [], false)
  {
    if frames != [] {
      var f, rest := frames[0], frames[1..];
      assert frames == [f] + rest;
      ConcatFront(f, rest);
      FramesParse(rest);
      var s := f + Concat(rest);
      assert Field(s) == |f| && s[..|f|] == f && s[|f|..] == Concat(rest);
    }
  }

  /** What sendRelayPacket is called with, and the padding it draws. */
  datatype Packet = Packet(kind: Octet, payload: Bytes, padding: Bytes)

  predicate Fits(p: Packet) {
    PACKET_HEADER_BYTES + |p.payload| + |p.padding| <= 0xFFFF
  }

  function Written(p: Packet): Bytes {
    Frame(p.kind, p.payload, p.padding)
  }

  function AllWritten(packets: seq<Packet>): (r: seq<Bytes>)
    ensures |r| == |packets| && forall i :: 0 <= i < |r| ==> r[i] == Written(packets[i])
  {
    seq(|packets|, i requires 0 <= i < |packets| => Written(packets[i]))
  }

  /**
   Packets that fit 16 bits, sent one after another, are delivered one by one and in
   order, however the stream is cut, and each still holds its type and payload.
   */
  lemma FramesArrive(packets: seq<Packet>, chunks: seq<Bytes>)
    requires forall i :: 0 <= i < |packets| ==> Fits(packets[i])
    requires Concat(chunks) == Concat(AllWritten(packets))
    ensures Feed(chunks) == Outcome(AllWritten(packets), [], false)
    ensures forall i :: 0 <= i < |packets| ==> Carries(Feed(chunks).packets[i], packets[i])
  {
    WrittenAreFrames(packets);
    FramesParse(AllWritten(packets));
    FeedIsParse(chunks);
    WrittenHold(packets);
  }

  lemma WrittenAreFrames(packets: seq<Packet>)
    requires forall i :: 0 <= i < |packets| ==> Fits(packets[i])
    ensures forall i :: 0 <= i < |packets| ==> IsFrame(AllWritten(packets)[i])
  {
    forall i | 0 <= i < |packets| ensures IsFrame(AllWritten(packets)[i]) {
      FrameField(packets[i].kind, packets[i].payload, packets[i].padding);
    }
  }

  /** The frame still holds the type and the payload. */
  predicate Carries(f: Bytes, p: Packet) {
    && |f| >= PACKET_HEADER_BYTES + |p.payload|
    && f[2] == p.kind && f[PACKET_HEADER_BYTES..PACKET_HEADER_BYTES + |p.payload|] == p.payload
  }

  lemma WrittenHold(packets: seq<Packet>)
    ensures forall i :: 0 <= i < |packets| ==> Carries(AllWritten(packets)[i], packets[i])
  {
    forall i | 0 <= i < |packets| ensures Carries(AllWritten(packets)[i], packets[i]) {
      FramePayload(packets[i].kind, packets[i].payload, packets[i].padding);
    }
  }

  // ------------------------------------------------------------------- the reader

  class ProxyConnection {
    var stickyBuffer: Bytes
    /** Packets handed to processRelayPacket so far. */
    var delivered: seq<Bytes>

    constructor ()
      ensures stickyBuffer == [] && delivered == []
    {
      stickyBuffer, delivered := [], [];
    }

    /** The read loop over a chunk that starts at a packet boundary. */
    method ReadPackets(data: Bytes) returns (hung: bool)
      requires stickyBuffer == []
      modifies this
      ensures Outcome(delivered, stickyBuffer, hung) == Before(old(delivered), Parse(data))
    {
      var ptr := 0;
      assert data[0..] == data;
      while ptr < |data|
        invariant 0 <= ptr <= |data| && stickyBuffer == []
        invariant Before(delivered, Parse(data[ptr..])) == Before(old(delivered), Parse(data))
      {
        var rest := data[ptr..];
        if |rest| < PACKET_HEADER_BYTES {
          stickyBuffer := rest;
          return false;
        }
        var packetSize := Field(rest);
        if |rest| < packetSize {
          stickyBuffer := rest;
          return false;
        }
        if packetSize == 0 {
          stickyBuffer := rest;
          return true;
        }
        BeforeNext(delivered, rest[..packetSize], Parse(rest[packetSize..]));
        delivered := delivered + [rest[..packetSize]];
        assert rest[packetSize..] == data[ptr + packetSize..];
        ptr := ptr + packetSize;
      }
      return false;
    }

    /** Completes the packet in the sticky buffer, if the chunk has enough bytes. */
    method CompletePacket(data: Bytes) returns (done: bool, ptr: nat)
      requires stickyBuffer != []
      modifies this
      ensures var was, all := old(stickyBuffer), old(stickyBuffer) + data;
        if |data| >= HeaderNeed(was) && |was| + HeaderNeed(was) <= Field(all) <= |all| then
          && done && stickyBuffer == [] && delivered == old(delivered) + [all[..Field(all)]]
          && ptr == Field(all) - |was| && ptr <= |data|
        else
          !done && stickyBuffer == all && delivered == old(delivered)
    {
      ghost var all := stickyBuffer + data;
      ptr := 0;
      if |stickyBuffer| < PACKET_HEADER_BYTES {
        var rs := PACKET_HEADER_BYTES - |stickyBuffer|;
        if |data| < rs {
          stickyBuffer := stickyBuffer + data;
          return false, 0;
        }
        stickyBuffer := stickyBuffer + data[..rs];
        ptr := rs;
      }
      assert stickyBuffer == all[..|old(stickyBuffer)| + ptr];
      var packetSize := Field(stickyBuffer);
      var rs := packetSize - |stickyBuffer|;
      // rs is compared as an unsigned number: a negative one exceeds every chunk
      if rs < 0 || |data| - ptr < rs {
        stickyBuffer := stickyBuffer + data[ptr..];
        assert stickyBuffer == all;
        return false, 0;
      }
      stickyBuffer := stickyBuffer + data[ptr..ptr + rs];
      assert stickyBuffer == all[..packetSize];
      delivered := delivered + [stickyBuffer];
      stickyBuffer := [];
      return true, ptr + rs;
    }

    method OnRelayRead(data: Bytes) returns (hung: bool)
      modifies this
      ensures var o := ReadChunk(old(stickyBuffer), data);
        delivered == old(delivered) + o.packets && stickyBuffer == o.sticky && hung == o.hung
    {
      var ptr: nat := 0;
      if |stickyBuffer| > 0 {
        var done;
        done, ptr := CompletePacket(data);
        if !done {
          return false;
        }
      } else {
        assert data[0..] == data;
      }
      ghost var first := delivered[|old(delivered)|..];
      hung := ReadPackets(data[ptr..]);
      assert old(delivered) + first + Parse(data[ptr..]).packets == old(delivered) + (first + Parse(data[ptr..]).packets);
    }
  }
}
