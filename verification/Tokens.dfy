/**
 Write tokens: each is a hash over the requester and a timestamp that rotates every five
 minutes; the previous timestamp stays valid for one more period.
 */
module Tokens {
  import opened Numerals
  import opened Wrappers
  import opened KBuckets

  const TOKEN_TIMEOUT := 5 * 60 * 1000

  type Digest = s: seq<nat> | |s| == 32 && forall i :: 0 <= i < 32 ==> s[i] < 256 witness seq(32, _ => 0)

  /** SHA-256, left uninterpreted. */
  type Hash = seq<nat> -> Digest

  datatype RawSubject = Subject(nodeId: seq<nat>, ip: seq<nat>, port: nat, targetId: seq<nat>, secret: seq<nat>)

  /** Ids and the secret have 32 bytes, a port has 16 bits; IP addresses come in two lengths. */
  predicate Proper(s: RawSubject) {
    |s.nodeId| == |s.targetId| == |s.secret| == 32 && s.port < 0x1_0000
  }

  const ZEROS: seq<nat> := seq(32, _ => 0)

  /** What a token speaks about; the secret is the session's. */
  type Subject = s: RawSubject | Proper(s) witness Subject(ZEROS, [], 0, ZEROS, ZEROS)

  /** Big-endian bytes of a number, cut to `width` bytes. */
  function BigEndian(n: nat, width: nat): (r: seq<nat>)
    ensures |r| == width
  {
    if width == 0 then [] else BigEndian(n / 256, width - 1) + [n % 256]
  }

  function HashInput(s: Subject, timestamp: Time): seq<nat> {
    s.nodeId + s.ip + BigEndian(s.port, 2) + s.targetId + BigEndian(timestamp, 8) + s.secret
  }

  /** Four consecutive digest bytes, wrapping around, starting where the first byte says. */
  function Token(sha: Hash, s: Subject, timestamp: Time): nat {
    var d := sha(HashInput(s, timestamp));
    var pos := d[0] % 32;
    d[pos] * 0x100_0000 + d[(pos + 1) % 32] * 0x1_0000 + d[(pos + 2) % 32] * 0x100 + d[(pos + 3) % 32]
  }

  /** The token, written out, is a window of the digest; the window may wrap around. */
  lemma TokenIsWindow(sha: Hash, s: Subject, timestamp: Time)
    ensures var d := sha(HashInput(s, timestamp));
      && Token(sha, s, timestamp) < 0x1_0000_0000
      && BigEndian(Token(sha, s, timestamp), 4) == (d + d)[d[0] % 32..d[0] % 32 + 4]
  {
    var d := sha(HashInput(s, timestamp));
    var p := d[0] % 32;
    Wraps(d, p);
    FourBytes(d[p], d[(p + 1) % 32], d[(p + 2) % 32], d[(p + 3) % 32]);
  }

  lemma Wraps(d: Digest, p: nat)
    requires p < 32
    ensures [d[p], d[(p + 1) % 32], d[(p + 2) % 32], d[(p + 3) % 32]] == (d + d)[p..p + 4]
  {
  }

  lemma FourBytes(a: nat, b: nat, c: nat, d: nat)
    requires a < 256 && b < 256 && c < 256 && d < 256
    ensures var n := a * 0x100_0000 + b * 0x1_0000 + c * 0x100 + d;
      n < 0x1_0000_0000 && BigEndian(n, 4) == [a, b, c, d]
  {
    var n := a * 0x100_0000 + b * 0x1_0000 + c * 0x100 + d;
    assert n / 256 == a * 0x1_0000 + b * 0x100 + c && n % 256 == d;
    assert n / 256 / 256 == a * 0x100 + b && n / 256 % 256 == c;
    assert n / 256 / 256 / 256 == a && n / 256 / 256 % 256 == b && a / 256 == 0 && a % 256 == a;
    assert BigEndian(a, 1) == BigEndian(a / 256, 0) + [a % 256] == [a];
    assert BigEndian(n / 256 / 256, 2) == [a, b];
    assert BigEndian(n / 256, 3) == [a, b, c];
  }

  // ------------------------------------------------------------------- rotation

  /** previous is None until it is first written. */
  datatype Stamps = Stamps(current: Time, previous: Option<Time>)

  const INITIAL := Stamps(0, None)

  function Rotate(s: Stamps, now: Time): Stamps {
    if Elapsed(now, s.current) > TOKEN_TIMEOUT then Stamps(now, Some(s.current)) else s
  }

  /** Every generate and every verify call first rotates; these are their times. */
  predicate NonDecreasing(times: seq<Time>) {
    forall i, j :: 0 <= i < j < |times| ==> times[i] <= times[j]
  }

  /** The stamps after the first n calls. */
  function After(times: seq<Time>, n: nat): Stamps
    requires n <= |times|
  {
    if n == 0 then INITIAL else Rotate(After(times, n - 1), times[n - 1])
  }

  /** `unwritten` is what the previous timestamp happens to hold before it is first written. */
  predicate Accepts(sha: Hash, stamps: Stamps, unwritten: Time, subject: Subject, token: nat) {
    || token == Token(sha, subject, stamps.current)
    || token == Token(sha, subject, if stamps.previous.Some? then stamps.previous.value else unwritten)
  }

  lemma {:induction false} CurrentNotAhead(times: seq<Time>, n: nat)
    requires NonDecreasing(times) && 0 < n <= |times|
    ensures After(times, n).current <= times[n - 1]
    ensures Elapsed(times[n - 1], After(times, n).current) <= TOKEN_TIMEOUT
  {
    if n > 1 {
      CurrentNotAhead(times, n - 1);
    }
  }

  /** Up to five minutes after call i, its timestamp is the current or the previous one. */
  lemma {:induction false} StampSurvives(times: seq<Time>, i: nat, j: nat)
    requires NonDecreasing(times) && 0 < i <= j <= |times|
    requires times[j - 1] as int <= times[i - 1] as int + TOKEN_TIMEOUT
    ensures var s, t := After(times, i), After(times, j);
      t == s || (t.previous == Some(s.current) && t.current >= times[i - 1])
    decreases j - i
  {
    if i < j {
      StampSurvives(times, i, j - 1);
      CurrentNotAhead(times, j - 1);
    }
  }

  /** A token issued by call i verifies at every call up to five minutes later. */
  lemma TokenLivesFiveMinutes(sha: Hash, subject: Subject, times: seq<Time>, i: nat, j: nat, unwritten: Time)
    requires NonDecreasing(times) && 0 < i <= j <= |times|
    requires times[j - 1] as int <= times[i - 1] as int + 5 * 60 * 1000
    ensures Accepts(sha, After(times, j), unwritten, subject, Token(sha, subject, After(times, i).current))
  {
    StampSurvives(times, i, j);
  }

  /** How many of the calls i + 1 .. j rotated the timestamp. */
  function Rotations(times: seq<Time>, i: nat, j: nat): nat
    requires i <= j <= |times|
    decreases j - i
  {
    if i == j then 0
    else Rotations(times, i, j - 1) + (if After(times, j) != After(times, j - 1) then 1 else 0)
  }

  lemma {:induction false} StampsMoveOn(times: seq<Time>, i: nat, j: nat)
    requires NonDecreasing(times) && 0 < i <= j <= |times|
    ensures var s, t := After(times, i), After(times, j);
      match Rotations(times, i, j)
      case 0 => t == s
      case 1 => t.current > s.current && t.previous == Some(s.current)
      case _ => t.previous.Some? && t.current > t.previous.value > s.current
    decreases j - i
  {
    if i < j {
      StampsMoveOn(times, i, j - 1);
      CurrentNotAhead(times, j - 1);
    }
  }

  lemma {:induction false} BigEndianInjective(a: nat, b: nat, width: nat, bound: nat)
    requires BigEndian(a, width) == BigEndian(b, width) && a < bound && b < bound && bound == Pow(256, width)
    ensures a == b
    decreases width
  {
    if width > 0 {
      var x, y := BigEndian(a, width), BigEndian(b, width);
      assert x[..width - 1] == BigEndian(a / 256, width - 1) && y[..width - 1] == BigEndian(b / 256, width - 1);
      assert x[width - 1] == a % 256 && y[width - 1] == b % 256;
      BigEndianInjective(a / 256, b / 256, width - 1, Pow(256, width - 1));
    }
  }

  /** Where the fields stand in what is hashed. */
  lemma InputFields(s: Subject, a: Time)
    ensures var h, n := HashInput(s, a), |s.ip|;
      && |h| == 106 + n
      && h[..32] == s.nodeId && h[32..32 + n] == s.ip && h[32 + n..34 + n] == BigEndian(s.port, 2)
      && h[34 + n..66 + n] == s.targetId && h[66 + n..74 + n] == BigEndian(a, 8) && h[74 + n..] == s.secret
  {
  }

  /** What is hashed determines node, address, target, secret and timestamp. */
  lemma InputDetermines(s: Subject, a: Time, t: Subject, b: Time)
    ensures HashInput(s, a) == HashInput(t, b) <==> s == t && a == b
  {
    InputFields(s, a);
    InputFields(t, b);
    assert Pow(256, 2) == 0x1_0000 && Pow(256, 4) == 0x1_0000_0000 && Pow(256, 6) == 0x1_0000_0000_0000 && Pow(256, 8) == TWO_64;
    if HashInput(s, a) == HashInput(t, b) {
      BigEndianInjective(s.port, t.port, 2, 0x1_0000);
      BigEndianInjective(a, b, 8, TWO_64);
    }
  }

  /** Two different hash inputs for which the token comes out the same. */
  ghost predicate Collision(sha: Hash, s: Subject, a: Time, t: Subject, b: Time) {
    HashInput(s, a) != HashInput(t, b) && Token(sha, s, a) == Token(sha, t, b)
  }

  /** A token issued for one node, address and target is accepted for another exactly on a hash collision. */
  lemma TokenIsPersonal(sha: Hash, stamps: Stamps, unwritten: Time, s: Subject, a: Time, t: Subject)
    requires s != t
    ensures Accepts(sha, stamps, unwritten, t, Token(sha, s, a)) <==>
      || Collision(sha, s, a, t, stamps.current)
      || Collision(sha, s, a, t, if stamps.previous.Some? then stamps.previous.value else unwritten)
  {
    InputDetermines(s, a, t, stamps.current);
    InputDetermines(s, a, t, if stamps.previous.Some? then stamps.previous.value else unwritten);
  }

  /** After two later rotations a token is accepted exactly on a hash collision. */
  lemma TokenExpires(sha: Hash, subject: Subject, times: seq<Time>, i: nat, j: nat, unwritten: Time)
    requires NonDecreasing(times) && 0 < i <= j <= |times| && Rotations(times, i, j) >= 2
    ensures var s, t := After(times, i), After(times, j);
      Accepts(sha, t, unwritten, subject, Token(sha, subject, s.current)) <==>
      || Collision(sha, subject, s.current, subject, t.current)
      || (t.previous.Some? && Collision(sha, subject, s.current, subject, t.previous.value))
  {
    StampsMoveOn(times, i, j);
    var s, t := After(times, i), After(times, j);
    InputDetermines(subject, s.current, subject, t.current);
    InputDetermines(subject, s.current, subject, t.previous.value);
  }

  lemma {:induction false} RotationsAdd(times: seq<Time>, i: nat, m: nat, j: nat)
    requires i <= m <= j <= |times|
    ensures Rotations(times, i, j) == Rotations(times, i, m) + Rotations(times, m, j)
    decreases j - m
  {
    if m < j {
      RotationsAdd(times, i, m, j - 1);
    }
  }

  /** A call more than five minutes after another comes after a rotation. */
  lemma GapRotates(times: seq<Time>, i: nat, j: nat)
    requires NonDecreasing(times) && 0 < i < j <= |times|
    requires times[j - 1] as int > times[i - 1] as int + 5 * 60 * 1000
    ensures Rotations(times, i, j) >= 1
  {
    CurrentNotAhead(times, i);
    CurrentNotAhead(times, j);
    StampsMoveOn(times, i, j);
  }

  /** Two such gaps, and the token is good for a hash collision only. */
  lemma TwoGapsExpire(sha: Hash, subject: Subject, times: seq<Time>, i: nat, m: nat, j: nat, unwritten: Time)
    requires NonDecreasing(times) && 0 < i < m < j <= |times|
    requires times[m - 1] as int > times[i - 1] as int + 5 * 60 * 1000
    requires times[j - 1] as int > times[m - 1] as int + 5 * 60 * 1000
    ensures var s, t := After(times, i), After(times, j);
      Accepts(sha, t, unwritten, subject, Token(sha, subject, s.current)) <==>
      || Collision(sha, subject, s.current, subject, t.current)
      || (t.previous.Some? && Collision(sha, subject, s.current, subject, t.previous.value))
  {
    GapRotates(times, i, m);
    GapRotates(times, m, j);
    RotationsAdd(times, i, m, j);
    TokenExpires(sha, subject, times, i, j, unwritten);
  }

  /** The previous timestamp has been written by call n exactly if the clock is past five minutes. */
  lemma {:induction false} PreviousWrittenIff(times: seq<Time>, n: nat)
    requires NonDecreasing(times) && 0 < n <= |times|
    ensures After(times, n).previous.Some? <==> times[n - 1] > TOKEN_TIMEOUT
    ensures After(times, n).previous.None? ==> After(times, n) == INITIAL
  {
    if n > 1 {
      PreviousWrittenIff(times, n - 1);
    }
  }

  class TokenManager {
    const sha: Hash
    var timestamp: Time
    var previousTimestamp: Option<Time>

    constructor (sha: Hash)
      ensures this.sha == sha && View() == INITIAL
    {
      this.sha := sha;
      timestamp, previousTimestamp := 0, None;
    }

    ghost function View(): Stamps
      reads this
    {
      Stamps(timestamp, previousTimestamp)
    }

    /** The weak compare-and-exchange may fail spuriously, finitely often. */
    method UpdateTokenTimestamps(now: Time, spurious: nat)
      modifies this
      ensures View() == Rotate(old(View()), now)
    {
      var current := timestamp;
      var failures := spurious;
      while Elapsed(now, current) > TOKEN_TIMEOUT
        invariant current == timestamp && View() == old(View())
        decreases failures
      {
        if failures == 0 {
          timestamp := now;
          previousTimestamp := Some(current);
          return;
        }
        failures := failures - 1;
        current := timestamp;
      }
    }

    method GenerateToken(subject: Subject, now: Time, spurious: nat) returns (token: nat)
      modifies this
      ensures View() == Rotate(old(View()), now)
      ensures token == Token(sha, subject, timestamp)
    {
      UpdateTokenTimestamps(now, spurious);
      token := Token(sha, subject, timestamp);
    }

    method VerifyToken(token: nat, subject: Subject, now: Time, spurious: nat, unwritten: Time) returns (ok: bool)
      modifies this
      ensures View() == Rotate(old(View()), now)
      ensures ok <==> Accepts(sha, View(), unwritten, subject, token)
    {
      UpdateTokenTimestamps(now, spurious);
      if token == Token(sha, subject, timestamp) {
        return true;
      }
      var previous := if previousTimestamp.Some? then previousTimestamp.value else unwritten;
      ok := token == Token(sha, subject, previous);
    }
  }
}
