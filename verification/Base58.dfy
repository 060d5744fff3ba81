/**
 Base58 text encoding of byte strings, as specified in draft-msporny-base58, sections 3 and 4.

 Both directions multiply and add inside a digit buffer whose size is a rational
 approximation of a ratio of logarithms.  The methods are proved against `EncodeSpec` and
 `DecodeSpec`; the two carry assertions of the code hold because the buffers are always
 large enough.  Text is a string of C characters, hence octets.
 */
module Base58 {
  import opened Numerals

  /** A string of octets. */
  type Bytes = s: seq<nat> | DigitsIn(s, 256) witness []

  // ------------------------------------------------------------ buffer capacity

  lemma EncodeRatio()
    ensures Pow(256, 8) <= Pow(58, 11)
  {
    assert Pow(58, 1) == 58 * Pow(58, 0) && Pow(256, 1) == 256 * Pow(256, 0);
    PowAdd(58, 1, 1);
    assert Pow(58, 2) == 3364;
    PowAdd(58, 2, 2);
    assert Pow(58, 4) == 11316496;
    PowAdd(58, 4, 4);
    assert Pow(58, 8) == 128063081718016;
    PowAdd(58, 8, 2);
    assert Pow(58, 10) == 430804206899405824;
    PowAdd(58, 10, 1);
    assert Pow(58, 11) == 24986644000165537792;
    PowAdd(256, 1, 1);
    assert Pow(256, 2) == 65536;
    PowAdd(256, 2, 2);
    assert Pow(256, 4) == 4294967296;
    PowAdd(256, 4, 4);
    assert Pow(256, 8) == 18446744073709551616;
  }

  lemma DecodeRatio58()
    ensures Pow(58, 71) == 159730386663078066345306447337161584696769904898410078913243029577507397293846405390982563136983769384625594118558891106107392
  {
    assert Pow(58, 1) == 58 * Pow(58, 0);
    PowAdd(58, 1, 1);
    assert Pow(58, 2) == 3364;
    PowAdd(58, 2, 2);
    assert Pow(58, 4) == 11316496;
    PowAdd(58, 4, 4);
    assert Pow(58, 8) == 128063081718016;
    PowAdd(58, 8, 8);
    assert Pow(58, 16) == 16400152899115243850138976256;
    PowAdd(58, 16, 16);
    assert Pow(58, 32) == 268965015114358137726910587140455987105619365599731777536;
    PowAdd(58, 32, 32);
    assert Pow(58, 64) == 72342179355466901471258927612150153907721848234316445933056526044582001260898145151856420451025374266490194231296;
    PowAdd(58, 64, 4);
    assert Pow(58, 68) == 818659983307423768631895769287186768096118664656249123135650444757408038940948816018402574608346843785239217057684258816;
    PowAdd(58, 68, 2);
    assert Pow(58, 70) == 2753972183846173557677697367882096287875343187903622050228328096163920642997351817085906260982478782493544726182049846657024;
    PowAdd(58, 70, 1);
    assert Pow(58, 71) == 159730386663078066345306447337161584696769904898410078913243029577507397293846405390982563136983769384625594118558891106107392;
  }

  lemma DecodeRatio256()
    ensures Pow(256, 52) == 169230328010303641331690318856389386196071598838855992136870091590247882556495704531248437872567112920983350278405979725889536
  {
    assert Pow(256, 1) == 256 * Pow(256, 0);
    PowAdd(256, 1, 1);
    assert Pow(256, 2) == 65536;
    PowAdd(256, 2, 2);
    assert Pow(256, 4) == 4294967296;
    PowAdd(256, 4, 4);
    assert Pow(256, 8) == 18446744073709551616;
    PowAdd(256, 8, 8);
    assert Pow(256, 16) == 340282366920938463463374607431768211456;
    PowAdd(256, 16, 16);
    assert Pow(256, 32) == 115792089237316195423570985008687907853269984665640564039457584007913129639936;
    PowAdd(256, 32, 16);
    assert Pow(256, 48) == 39402006196394479212279040100143613805079739270465446667948293404245721771497210611414266254884915640806627990306816;
    PowAdd(256, 48, 4);
    assert Pow(256, 52) == 169230328010303641331690318856389386196071598838855992136870091590247882556495704531248437872567112920983350278405979725889536;
  }

  /** n bytes fit into n * 138 / 100 + 1 base58 digits. */
  lemma EncodeFits(n: nat)
    ensures Pow(256, n) <= Pow(58, n * 138 / 100 + 1)
  {
    EncodeRatio();
    Capacity(256, 58, 11, 8, n, n * 138 / 100 + 1);
  }

  /** n base58 digits fit into n * 733 / 1000 + 1 bytes. */
  lemma DecodeFits(n: nat)
    ensures Pow(58, n) <= Pow(256, n * 733 / 1000 + 1)
  {
    DecodeRatio58();
    DecodeRatio256();
    Capacity(58, 256, 52, 71, n, n * 733 / 1000 + 1);
  }

  // ------------------------------------------------------- the digit buffer step

  /** A buffer whose last `length` positions hold a number's digits and the others zero. */
  ghost predicate Holds(buf: seq<nat>, base: nat, length: nat) {
    && length <= |buf|
    && DigitsIn(buf, base)
    && (forall j :: 0 <= j < |buf| - length ==> buf[j] == 0)
  }

  /** No shorter digit string would do. */
  ghost predicate Tight(buf: seq<nat>, base: nat, length: nat) {
    length > 0 ==> Value(buf, base) >= Pow(base, length - 1)
  }

  function Accumulate(carry: nat, mul: nat, d: nat): nat {
    carry + mul * d
  }

  function Quot(c: nat, base: nat): nat
    requires base > 0
  {
    c / base
  }

  function Rem(c: nat, base: nat): (r: nat)
    requires base > 0
    ensures r < base
  {
    c % base
  }

  lemma CarryStep(base: nat, mul: nat, carry: nat, u: nat, d: nat, low: nat, p: nat, total: nat)
    requires base >= 2
    requires low + p * (carry + mul * (u * base + d)) == total
    ensures var c := carry + mul * d;
      (c % base) * p + low + (base * p) * (c / base + mul * u) == total
  {
    var c := carry + mul * d;
    var q, r := c / base, c % base;
    DivMod(c, base);
    assert mul * (u * base + d) == mul * u * base + mul * d by {
      assert mul * (u * base) == mul * u * base;
    }
    assert p * (q * base + r + mul * u * base) == r * p + (base * p) * (q + mul * u) by {
      assert q * base + mul * u * base == base * (q + mul * u);
      assert p * (base * (q + mul * u)) == (base * p) * (q + mul * u);
    }
  }

  lemma PrependValue(d: nat, low: seq<nat>, base: nat)
    ensures Value([d] + low, base) == d * Pow(base, |low|) + Value(low, base)
  {
    ValueConcat([d], low, base);
    assert [d][..0] == [];
  }

  /** What is still to be carried, at position i from the end. */
  ghost predicate Carrying(buf: seq<nat>, was: seq<nat>, base: nat, mul: nat, carry: nat, i: nat, total: nat)
    requires i <= |buf| == |was|
  {
    var n := |buf| - i;
    Value(buf[n..], base) + Pow(base, i) * (carry + mul * Value(was[..n], base)) == total
  }

  lemma CarryOn(buf: seq<nat>, was: seq<nat>, base: nat, mul: nat, carry: nat, i: nat, total: nat)
    requires base >= 2 && i < |buf| == |was| && Carrying(buf, was, base, mul, carry, i, total)
    ensures var j := |buf| - 1 - i;
      var c := Accumulate(carry, mul, was[j]);
      Carrying(buf[j := Rem(c, base)], was, base, mul, Quot(c, base), i + 1, total)
  {
    var j := |buf| - 1 - i;
    var c := Accumulate(carry, mul, was[j]);
    var low := buf[j + 1..];
    assert was[..j + 1][..j] == was[..j];
    CarryStep(base, mul, carry, Value(was[..j], base), was[j], Value(low, base), Pow(base, i), total);
    PrependValue(Rem(c, base), low, base);
    assert buf[j := Rem(c, base)][j..] == [Rem(c, base)] + low;
  }

  lemma CarryLower(buf: seq<nat>, was: seq<nat>, base: nat, mul: nat, carry: nat, i: nat, total: nat)
    requires i <= |buf| == |was| && Carrying(buf, was, base, mul, carry, i, total)
    ensures carry > 0 ==> total >= Pow(base, i)
  {
    if carry > 0 {
      MulMonotone(Pow(base, i), 1, carry + mul * Value(was[..|buf| - i], base));
    }
  }

  /** When nothing is left to carry, the buffer holds the total. */
  lemma CarryDone(buf: seq<nat>, was: seq<nat>, base: nat, mul: nat, carry: nat, i: nat, length: nat, total: nat)
    requires base >= 2 && i <= |buf| == |was| && Carrying(buf, was, base, mul, carry, i, total)
    requires Holds(was, base, length) && DigitsIn(buf, base)
    requires forall j :: 0 <= j < |buf| - i ==> buf[j] == was[j]
    requires (carry == 0 && i >= length) || i == |buf|
    requires total < Pow(base, |buf|)
    ensures carry == 0 && Value(buf, base) == total
  {
    CarrySum(buf, was, base, mul, carry, i, total);
    if carry > 0 {
      NoCarry(Pow(base, i), carry, Value(buf, base), total);
    }
  }

  /** Where the positions still to be visited hold zeros, the buffer and the carry make up the total. */
  lemma CarrySum(buf: seq<nat>, was: seq<nat>, base: nat, mul: nat, carry: nat, i: nat, total: nat)
    requires i <= |buf| == |was| && Carrying(buf, was, base, mul, carry, i, total)
    requires forall j :: 0 <= j < |buf| - i ==> buf[j] == was[j] == 0
    ensures Value(buf, base) + Pow(base, i) * carry == total
  {
    var n := |buf| - i;
    ZerosAreZero(was[..n], base);
    LeadingZeros(buf, n, base);
    NothingLeft(Pow(base, i), carry, mul, Value(buf[n..], base), total);
  }

  lemma NoCarry(p: nat, carry: nat, low: nat, total: nat)
    requires low + p * carry == total && total < p
    ensures carry == 0
  {
    if carry > 0 {
      MulMonotone(p, 1, carry);
    }
  }

  lemma LeadingZeros(ds: seq<nat>, n: nat, base: nat)
    requires n <= |ds| && forall j :: 0 <= j < n ==> ds[j] == 0
    ensures Value(ds, base) == Value(ds[n..], base)
  {
    assert ds == ds[..n] + ds[n..];
    ValueConcat(ds[..n], ds[n..], base);
    ZerosAreZero(ds[..n], base);
  }

  lemma NothingLeft(p: nat, carry: nat, mul: nat, low: nat, total: nat)
    requires low + p * (carry + mul * 0) == total
    ensures low + p * carry == total
  {
  }

  /**
   The inner loop of both directions: multiplies in place, from the last position on,
   until nothing is left to carry.
   */
  method Propagate(buf: array<nat>, base: nat, mul: nat, digit: nat, length: nat, ghost total: nat)
    returns (carry: nat, i: nat)
    requires base >= 2 && Holds(buf[..], base, length)
    requires Carrying(buf[..], buf[..], base, mul, digit, 0, total)
    modifies buf
    ensures i <= buf.Length && ((carry == 0 && i >= length) || i == buf.Length)
    ensures Carrying(buf[..], old(buf[..]), base, mul, carry, i, total)
    ensures forall j :: 0 <= j < buf.Length - i ==> buf[j] == old(buf[j])
    ensures DigitsIn(buf[..], base)
    ensures i > length ==> total >= Pow(base, i - 1)
  {
    carry := digit;
    i := 0;
    ghost var was := buf[..];
    while (carry != 0 || i < length) && i < buf.Length
      invariant 0 <= i <= buf.Length
      invariant Carrying(buf[..], was, base, mul, carry, i, total)
      invariant forall j :: 0 <= j < buf.Length - i ==> buf[j] == was[j]
      invariant DigitsIn(buf[..], base)
      invariant i > length ==> total >= Pow(base, i - 1)
    {
      CarryLower(buf[..], was, base, mul, carry, i, total);
      carry := PropagateAt(buf, base, mul, carry, i, was, total);
      i := i + 1;
    }
  }

  /** One position of the inner loop. */
  method PropagateAt(buf: array<nat>, base: nat, mul: nat, carry: nat, i: nat, ghost was: seq<nat>, ghost total: nat)
    returns (rest: nat)
    requires base >= 2 && i < buf.Length == |was| && DigitsIn(buf[..], base)
    requires Carrying(buf[..], was, base, mul, carry, i, total) && buf[buf.Length - 1 - i] == was[buf.Length - 1 - i]
    modifies buf
    ensures Carrying(buf[..], was, base, mul, rest, i + 1, total)
    ensures DigitsIn(buf[..], base)
    ensures forall j :: 0 <= j < buf.Length - 1 - i ==> buf[j] == old(buf[j])
  {
    CarryOn(buf[..], was, base, mul, carry, i, total);
    var j := buf.Length - 1 - i;
    rest := Accumulate(carry, mul, buf[j]);
    buf[j] := Rem(rest, base);
    assert buf[..] == old(buf[..])[j := Rem(rest, base)];
    rest := Quot(rest, base);
  }

  lemma CarryStart(buf: seq<nat>, base: nat, mul: nat, digit: nat)
    ensures Carrying(buf, buf, base, mul, digit, 0, Accumulate(digit, mul, Value(buf, base)))
  {
    assert buf[..|buf|] == buf && buf[|buf|..] == [];
  }

  /** buf := buf * mul + digit, in place; the carry always runs out within the buffer. */
  method MulAdd(buf: array<nat>, base: nat, mul: nat, digit: nat, length: nat) returns (newLength: nat)
    requires base >= 2 && mul >= 1
    requires Holds(buf[..], base, length) && Tight(buf[..], base, length)
    requires Accumulate(digit, mul, Value(buf[..], base)) < Pow(base, buf.Length)
    modifies buf
    ensures Value(buf[..], base) == Accumulate(digit, mul, Value(old(buf[..]), base))
    ensures Holds(buf[..], base, newLength) && Tight(buf[..], base, newLength)
  {
    ghost var was := buf[..];
    ghost var total := Accumulate(digit, mul, Value(was, base));
    CarryStart(was, base, mul, digit);
    MulMonotone(Value(was, base), 1, mul);
    var carry;
    carry, newLength := Propagate(buf, base, mul, digit, length, total);
    CarryDone(buf[..], was, base, mul, carry, newLength, length, total);
    assert carry == 0;
  }

  // ------------------------------------------------------------------- alphabet

  /** The character '1', which stands for digit zero. */
  const ONE: nat := 49

  /** Character code of a digit: all alphanumerics except 0, I, O and l, in this order. */
  function Symbol(d: nat): (c: nat)
    requires d < 58
    ensures c < 256
  {
    if d < 9 then 49 + d            // '1'..'9'
    else if d < 17 then 56 + d      // 'A'..'H'
    else if d < 22 then 57 + d      // 'J'..'N'
    else if d < 33 then 58 + d      // 'P'..'Z'
    else if d < 44 then 64 + d      // 'a'..'k'
    else 65 + d                     // 'm'..'z'
  }

  const ALPHABET := "123456789" + "ABCDEFGH" + "JKLMN" + "PQRSTUVWXYZ" + "abcdefghijk" + "mnopqrstuvwxyz"

  /** n consecutive characters from code c on. */
  function Stretch(c: nat, n: nat): (r: string)
    requires c + n < 0x80
    ensures |r| == n && forall i :: 0 <= i < n ==> r[i] == (c + i) as char
  {
    if n == 0 then "" else Stretch(c, n - 1) + [(c + n - 1) as char]
  }

  lemma DigitsAndCapitals()
    ensures Stretch(49, 9) == "123456789" && Stretch(65, 8) == "ABCDEFGH" && Stretch(74, 5) == "JKLMN"
  {
  }

  lemma LastCapitals()
    ensures Stretch(80, 11) == "PQRSTUVWXYZ"
  {
  }

  lemma SmallLetters()
    ensures Stretch(97, 11) == "abcdefghijk" && Stretch(109, 14) == "mnopqrstuvwxyz"
  {
  }

  /** The digits are the characters of the alphabet, in its order. */
  lemma SymbolIsAlphabet(d: nat)
    requires d < 58
    ensures |ALPHABET| == 58 && Symbol(d) == ALPHABET[d] as nat
  {
    DigitsAndCapitals();
    LastCapitals();
    SmallLetters();
  }

  /** The decoding table: the digit of a character, or -1. */
  function DigitOf(c: nat): int {
    if 49 <= c <= 57 then c - 49
    else if 65 <= c <= 72 then c - 56
    else if 74 <= c <= 78 then c - 57
    else if 80 <= c <= 90 then c - 58
    else if 97 <= c <= 107 then c - 64
    else if 109 <= c <= 122 then c - 65
    else -1
  }

  predicate IsSpace(c: nat) {
    c == 32 || 9 <= c <= 13
  }

  /** Digits and their characters correspond one to one; no character is a space or NUL. */
  lemma AlphabetBijection(d: nat, c: nat)
    ensures d < 58 ==> DigitOf(Symbol(d)) == d
    ensures DigitOf(c) != -1 ==> 0 <= DigitOf(c) < 58 && Symbol(DigitOf(c)) == c && !IsSpace(c) && c != 0
    ensures DigitOf(c) == 0 <==> c == ONE
  {
  }

  // -------------------------------------------------------------- specification

  function Repeat(x: nat, n: nat): (r: seq<nat>)
    ensures |r| == n && forall i :: 0 <= i < n ==> r[i] == x
  {
    seq(n, _ => x)
  }

  /** Number of leading occurrences of x. */
  function Leading(s: seq<nat>, x: nat): (k: nat)
    ensures k <= |s|
    ensures forall i :: 0 <= i < k ==> s[i] == x
    ensures k < |s| ==> s[k] != x
  {
    if s != [] && s[0] == x then 1 + Leading(s[1..], x) else 0
  }

  /** Number of leading characters that are, or are not, spaces. */
  function Spaces(s: seq<nat>, spaces: bool): (k: nat)
    ensures k <= |s|
    ensures forall i :: 0 <= i < k ==> IsSpace(s[i]) == spaces
    ensures k < |s| ==> IsSpace(s[k]) != spaces
  {
    if s != [] && IsSpace(s[0]) == spaces then 1 + Spaces(s[1..], spaces) else 0
  }

  function Symbols(ds: seq<nat>): (r: seq<nat>)
    requires DigitsIn(ds, 58)
    ensures |r| == |ds| && forall i :: 0 <= i < |ds| ==> r[i] == Symbol(ds[i])
  {
    seq(|ds|, i requires 0 <= i < |ds| => Symbol(ds[i]))
  }

  ghost predicate AllDigits(s: seq<nat>) {
    forall i :: 0 <= i < |s| ==> DigitOf(s[i]) != -1
  }

  function DigitsOf(s: seq<nat>): (r: seq<nat>)
    requires AllDigits(s)
    ensures |r| == |s| && DigitsIn(r, 58) && forall i :: 0 <= i < |s| ==> r[i] == DigitOf(s[i])
  {
    seq(|s|, i requires 0 <= i < |s| => DigitOf(s[i]))
  }

  /** One '1' for each leading zero byte, then the number in base 58. */
  ghost function EncodeSpec(x: Bytes): seq<nat> {
    ValueOfDigits(Value(x, 256), 58);
    Repeat(ONE, Leading(x, 0)) + Symbols(Digits(Value(x, 256), 58))
  }

  /** Decoding of text without leading spaces; the empty string stands for failure. */
  ghost function DecodeTrimmed(a: seq<nat>): seq<nat> {
    var z := Leading(a, ONE);
    var body := a[z..];
    var m := Spaces(body, false);
    if !AllDigits(body[..m]) || Spaces(body[m..], true) < |body| - m then []
    else Repeat(0, z) + Digits(Value(DigitsOf(body[..m]), 58), 256)
  }

  ghost function DecodeSpec(s: seq<nat>): seq<nat> {
    if 0 in s then [] else DecodeTrimmed(s[Spaces(s, true)..])
  }

  // ---------------------------------------------------------------- round trips

  lemma {:induction false} LeadingRepeat(x: nat, z: nat, t: seq<nat>)
    requires t != [] ==> t[0] != x
    ensures Leading(Repeat(x, z) + t, x) == z && (Repeat(x, z) + t)[z..] == t
  {
  }

  lemma SplitLeading(s: seq<nat>, x: nat)
    ensures s == Repeat(x, Leading(s, x)) + s[Leading(s, x)..]
  {
  }

  lemma LeadingZeroValue(x: seq<nat>, base: nat)
    ensures Value(x, base) == Value(x[Leading(x, 0)..], base)
  {
    LeadingZeros(x, Leading(x, 0), base);
  }

  /** Decoding text made of digits only needs no trimming. */
  lemma DecodeOfDigits(s: seq<nat>)
    requires AllDigits(s)
    ensures DecodeSpec(s) == Repeat(0, Leading(s, ONE)) + Digits(Value(DigitsOf(s[Leading(s, ONE)..]), 58), 256)
  {
    NoSpaces(s);
    assert s[0..] == s;
    var body := s[Leading(s, ONE)..];
    NoSpaces(body);
    assert body[..|body|] == body && body[|body|..] == [];
  }

  lemma NoSpaces(s: seq<nat>)
    requires AllDigits(s)
    ensures 0 !in s && Spaces(s, true) == 0 && Spaces(s, false) == |s|
  {
    forall i | 0 <= i < |s| ensures !IsSpace(s[i]) && s[i] != 0 {
      AlphabetBijection(0, s[i]);
    }
  }

  lemma EncodingIsDigits(x: Bytes)
    ensures AllDigits(EncodeSpec(x))
  {
    var e := EncodeSpec(x);
    var z, ds := Leading(x, 0), Digits(Value(x, 256), 58);
    ValueOfDigits(Value(x, 256), 58);
    forall i | 0 <= i < |e| ensures DigitOf(e[i]) != -1 {
      if i >= z {
        assert e[i] == Symbol(ds[i - z]);
        AlphabetBijection(ds[i - z], 0);
      }
    }
  }

  lemma SymbolsDecode(ds: seq<nat>)
    requires DigitsIn(ds, 58)
    ensures AllDigits(Symbols(ds)) && DigitsOf(Symbols(ds)) == ds
    ensures ds != [] && ds[0] > 0 ==> Symbols(ds)[0] != ONE
  {
    forall i | 0 <= i < |ds| ensures DigitOf(Symbols(ds)[i]) == ds[i] {
      AlphabetBijection(ds[i], Symbols(ds)[i]);
    }
  }

  lemma DigitsEncode(s: seq<nat>)
    requires AllDigits(s)
    ensures Symbols(DigitsOf(s)) == s
    ensures s != [] && s[0] != ONE ==> DigitsOf(s)[0] > 0
  {
    forall i | 0 <= i < |s| ensures Symbol(DigitsOf(s)[i]) == s[i] {
      AlphabetBijection(0, s[i]);
    }
    if s != [] {
      AlphabetBijection(0, s[0]);
    }
  }

  /** Every byte string survives encoding and decoding, leading zeros included. */
  lemma DecodeEncode(x: Bytes)
    ensures DecodeSpec(EncodeSpec(x)) == x
  {
    EncodingIsDigits(x);
    DecodeOfDigits(EncodeSpec(x));
    EncodingParts(x);
    RestIsDigits(x);
  }

  /** The leading ones and the digits of an encoding. */
  lemma EncodingParts(x: Bytes)
    requires AllDigits(EncodeSpec(x))
    ensures var e := EncodeSpec(x);
      Leading(e, ONE) == Leading(x, 0) && DigitsOf(e[Leading(e, ONE)..]) == Digits(Value(x, 256), 58)
    ensures Value(Digits(Value(x, 256), 58), 58) == Value(x, 256)
  {
    var ds := Digits(Value(x, 256), 58);
    ValueOfDigits(Value(x, 256), 58);
    SymbolsDecode(ds);
    LeadingRepeat(ONE, Leading(x, 0), Symbols(ds));
  }

  /** A byte string is its leading zeros followed by the digits of its number. */
  lemma RestIsDigits(x: Bytes)
    ensures x == Repeat(0, Leading(x, 0)) + Digits(Value(x, 256), 256)
  {
    LeadingZeroValue(x, 256);
    DigitsOfValue(x[Leading(x, 0)..], 256);
    SplitLeading(x, 0);
  }

  /** An encoding denotes, in base 58, the number of the bytes, and has a one for each leading zero. */
  lemma EncodeKeepsValue(x: Bytes)
    ensures AllDigits(EncodeSpec(x)) && Value(DigitsOf(EncodeSpec(x)), 58) == Value(x, 256)
    ensures Leading(EncodeSpec(x), ONE) == Leading(x, 0)
  {
    var e := EncodeSpec(x);
    var z := Leading(x, 0);
    EncodingIsDigits(x);
    EncodingParts(x);
    OnesAreZeros(e, z);
  }

  lemma OnesAreZeros(e: seq<nat>, z: nat)
    requires AllDigits(e) && z <= |e| && forall i :: 0 <= i < z ==> e[i] == ONE
    ensures Value(DigitsOf(e), 58) == Value(DigitsOf(e[z..]), 58)
  {
    assert forall i :: 0 <= i < z ==> DigitsOf(e)[i] == 0;
    LeadingZeros(DigitsOf(e), z, 58);
    assert DigitsOf(e)[z..] == DigitsOf(e[z..]);
  }

  /** What Base58 characters decode to is the same number in bytes, with a zero for each leading one. */
  lemma DecodeKeepsValue(s: seq<nat>)
    requires AllDigits(s)
    ensures Value(DecodeSpec(s), 256) == Value(DigitsOf(s), 58) && Leading(DecodeSpec(s), 0) == Leading(s, ONE)
  {
    EncodeDecode(s);
    EncodeKeepsValue(DecodeSpec(s));
  }

  /** Every string of Base58 characters survives decoding and encoding. */
  lemma EncodeDecode(s: seq<nat>)
    requires AllDigits(s)
    ensures DigitsIn(DecodeSpec(s), 256) && EncodeSpec(DecodeSpec(s)) == s
  {
    var z := Leading(s, ONE);
    var ds := DigitsOf(s[z..]);
    var v := Value(ds, 58);
    var y := Digits(v, 256);
    DecodeOfDigits(s);
    DigitsEncode(s[z..]);
    DigitsOfValue(ds, 58);
    ValueOfDigits(v, 256);
    LeadingRepeat(0, z, y);
    LeadingZeroValue(Repeat(0, z) + y, 256);
    SplitLeading(s, ONE);
  }

  ghost predicate AllSpaces(s: seq<nat>) {
    forall i :: 0 <= i < |s| ==> IsSpace(s[i])
  }

  /** Spaces, then Base58 characters, then spaces. */
  ghost predicate WellFormed(s: seq<nat>) {
    exists a, b :: 0 <= a <= b <= |s| && AllSpaces(s[..a]) && AllDigits(s[a..b]) && AllSpaces(s[b..])
  }

  lemma LeadingSpaces(s: seq<nat>, a: nat, spaces: bool)
    requires a <= |s| && forall i :: 0 <= i < a ==> IsSpace(s[i]) == spaces
    requires a < |s| ==> IsSpace(s[a]) != spaces
    ensures Spaces(s, spaces) == a
  {
  }

  /** Spaces around the text do not matter. */
  lemma DecodeTrims(before: seq<nat>, s: seq<nat>, behind: seq<nat>)
    requires AllSpaces(before) && AllDigits(s) && AllSpaces(behind)
    ensures DecodeSpec(before + s + behind) == DecodeSpec(s)
  {
    NoSpaces(s);
    DecodeOfDigits(s);
    if s == [] {
      BlankText(before + behind);
      assert before + s + behind == before + behind;
    } else {
      var all := before + s + behind;
      assert all[|before|] == s[0];
      LeadingSpaces(all, |before|, true);
      assert all[|before|..] == s + behind;
      assert 0 !in all;
      DecodeBehind(s, behind);
    }
  }

  lemma BlankText(s: seq<nat>)
    requires AllSpaces(s)
    ensures DecodeSpec(s) == []
  {
    LeadingSpaces(s, |s|, true);
    assert s[|s|..] == [];
  }

  lemma DecodeBehind(s: seq<nat>, behind: seq<nat>)
    requires s != [] && AllDigits(s) && AllSpaces(behind)
    ensures DecodeTrimmed(s + behind) == Repeat(0, Leading(s, ONE)) + Digits(Value(DigitsOf(s[Leading(s, ONE)..]), 58), 256)
  {
    var z := Leading(s, ONE);
    LeadingOnes(s, behind);
    BodyBehind(s, behind, z);
    LeadingSpaces(behind, |behind|, true);
    TrimmedParts(s + behind, z, |s| - z, s[z..], behind);
  }

  lemma TrimmedParts(a: seq<nat>, z: nat, m: nat, digits: seq<nat>, behind: seq<nat>)
    requires z == Leading(a, ONE) && m == Spaces(a[z..], false)
    requires digits == a[z..][..m] && behind == a[z..][m..] && AllDigits(digits) && Spaces(behind, true) == |behind|
    ensures DecodeTrimmed(a) == Repeat(0, z) + Digits(Value(DigitsOf(digits), 58), 256)
  {
  }

  /** Behind the leading ones come the other digits, and then the spaces. */
  lemma BodyBehind(s: seq<nat>, behind: seq<nat>, z: nat)
    requires AllDigits(s) && AllSpaces(behind) && z <= |s|
    ensures var body, m := (s + behind)[z..], |s| - z;
      |body| == m + |behind| && Spaces(body, false) == m && body[..m] == s[z..] && body[m..] == behind
  {
    var body, m := (s + behind)[z..], |s| - z;
    NoSpaces(s[z..]);
    assert body == s[z..] + behind;
    forall i | 0 <= i < m ensures !IsSpace(body[i]) {
      AlphabetBijection(0, s[z + i]);
    }
    LeadingSpaces(body, m, false);
  }

  lemma LeadingOnes(s: seq<nat>, behind: seq<nat>)
    requires AllSpaces(behind)
    ensures Leading(s + behind, ONE) == Leading(s, ONE)
  {
    var all, z, l := s + behind, Leading(s, ONE), Leading(s + behind, ONE);
    assert z < |s| ==> all[z] == s[z];
    assert l < |s| ==> all[l] == s[l];
    assert z == |s| && behind != [] ==> all[z] == behind[0] && IsSpace(behind[0]);
  }

  /** Everything else decodes to nothing. */
  lemma MalformedIsEmpty(s: seq<nat>)
    requires !WellFormed(s)
    ensures DecodeSpec(s) == []
  {
    if 0 !in s {
      var a := Spaces(s, true);
      var rest := s[a..];
      var z := Leading(rest, ONE);
      var body := rest[z..];
      var m := Spaces(body, false);
      if AllDigits(body[..m]) && Spaces(body[m..], true) == |body| - m {
        Shape(s, a, z, m);
        assert false;
      }
    }
  }

  lemma Shape(s: seq<nat>, a: nat, z: nat, m: nat)
    requires a + z + m <= |s| && (forall i :: 0 <= i < a ==> IsSpace(s[i]))
    requires (forall i :: 0 <= i < z ==> s[a..][i] == ONE) && AllDigits(s[a..][z..][..m])
    requires Spaces(s[a..][z..][m..], true) == |s| - a - z - m
    ensures WellFormed(s)
  {
    var b := a + z + m;
    forall i | 0 <= i < b - a ensures DigitOf(s[a..b][i]) != -1 {
      if i >= z {
        assert s[a..b][i] == s[a..][z..][..m][i - z];
      }
    }
    forall i | 0 <= i < |s| - b ensures IsSpace(s[b..][i]) {
      assert s[b..][i] == s[a..][z..][m..][i];
    }
    assert AllSpaces(s[..a]) && AllDigits(s[a..b]) && AllSpaces(s[b..]);
  }

  // ------------------------------------------------------------------ the codec

  /** The digits in a buffer are the shortest ones of its number. */
  lemma SuffixIsDigits(buf: seq<nat>, base: nat, length: nat)
    requires base >= 2 && Holds(buf, base, length) && Tight(buf, base, length)
    ensures buf[|buf| - length..] == Digits(Value(buf, base), base)
  {
    var n := |buf| - length;
    LeadingZeros(buf, n, base);
    if length > 0 {
      TopDigit(buf[n..], base);
    }
    DigitsOfValue(buf[n..], base);
  }

  lemma TopDigit(ds: seq<nat>, base: nat)
    requires base > 0 && ds != [] && DigitsIn(ds, base) && Value(ds, base) >= Pow(base, |ds| - 1)
    ensures ds[0] > 0
  {
    if ds[0] == 0 {
      LeadingZeros(ds, 1, base);
      ValueBound(ds[1..], base);
    }
  }

  /** First position, from `from` on, that is not zero. */
  method SkipZeros(buf: array<nat>, from: nat) returns (it: nat)
    requires from <= buf.Length
    ensures from <= it <= buf.Length
    ensures forall j :: from <= j < it ==> buf[j] == 0
    ensures it < buf.Length ==> buf[it] != 0
  {
    it := from;
    while it < buf.Length && buf[it] == 0
      invariant from <= it <= buf.Length
      invariant forall j :: from <= j < it ==> buf[j] == 0
    {
      it := it + 1;
    }
  }

  lemma FewerBytesFit(x: seq<nat>, k: nat, base: nat, size: nat, other: nat)
    requires base > 0 && DigitsIn(x, base) && k < |x| && Pow(base, |x|) <= Pow(other, size)
    ensures Value(x[..k + 1], base) < Pow(other, size)
    ensures Value(x[..k + 1], base) == Accumulate(x[k], base, Value(x[..k], base))
  {
    assert x[..k + 1][..k] == x[..k];
    ValueBound(x[..k + 1], base);
    PowMonotone(base, k + 1, |x|);
  }

  method CountLeading(s: seq<nat>, x: nat) returns (k: nat)
    ensures k == Leading(s, x)
  {
    k := 0;
    while k < |s| && s[k] == x
      invariant 0 <= k <= |s|
      invariant Leading(s, x) == k + Leading(s[k..], x)
    {
      assert s[k..][1..] == s[k + 1..];
      k := k + 1;
    }
  }

  method CountSpaces(s: seq<nat>, spaces: bool) returns (k: nat)
    ensures k == Spaces(s, spaces)
  {
    k := 0;
    while k < |s| && IsSpace(s[k]) == spaces
      invariant 0 <= k <= |s|
      invariant Spaces(s, spaces) == k + Spaces(s[k..], spaces)
    {
      assert s[k..][1..] == s[k + 1..];
      k := k + 1;
    }
  }

  /** Converts a digit string into a buffer of another base, one digit at a time. */
  method Convert(x: seq<nat>, from: nat, to: nat, size: nat) returns (buf: array<nat>, length: nat)
    requires from >= 2 && to >= 2 && DigitsIn(x, from) && Pow(from, |x|) <= Pow(to, size)
    ensures fresh(buf) && buf.Length == size
    ensures Value(buf[..], to) == Value(x, from)
    ensures Holds(buf[..], to, length) && Tight(buf[..], to, length)
  {
    buf := new nat[size](_ => 0);
    length := 0;
    ZerosAreZero(buf[..], to);
    var k := 0;
    while k < |x|
      invariant 0 <= k <= |x|
      invariant Value(buf[..], to) == Value(x[..k], from)
      invariant Holds(buf[..], to, length) && Tight(buf[..], to, length)
      modifies buf
    {
      FewerBytesFit(x, k, from, size, to);
      length := MulAdd(buf, to, from, x[k], length);
      k := k + 1;
    }
    assert x[..k] == x;
  }

  /** Base58 digits of a byte string. */
  method ToDigits(rest: Bytes) returns (ds: seq<nat>)
    ensures ds == Digits(Value(rest, 256), 58)
  {
    var size := |rest| * 138 / 100 + 1;
    EncodeFits(|rest|);
    var b58, length := Convert(rest, 256, 58, size);
    var it := SkipZeros(b58, size - length);
    ds := b58[it..];
    LeadingZeros(b58[..], it, 58);
    assert b58[..][it..] == ds;
    DigitsOfValue(ds, 58);
  }

  method ToText(ds: seq<nat>) returns (str: seq<nat>)
    requires DigitsIn(ds, 58)
    ensures str == Symbols(ds)
  {
    str := [];
    for it := 0 to |ds|
      invariant str == Symbols(ds[..it])
    {
      str := str + [Symbol(ds[it])];
    }
    assert ds[..|ds|] == ds;
  }

  method Encode(input: Bytes) returns (str: seq<nat>)
    ensures str == EncodeSpec(input)
  {
    var zeroes := CountLeading(input, 0);
    LeadingZeroValue(input, 256);
    ValueOfDigits(Value(input, 256), 58);
    var ds := ToDigits(input[zeroes..]);
    var text := ToText(ds);
    str := Repeat(ONE, zeroes) + text;
  }

  /** Bytes of a string of base58 digits followed by `spare` other characters. */
  method ToBytes(ds: seq<nat>, spare: nat) returns (bytes: seq<nat>)
    requires DigitsIn(ds, 58)
    ensures bytes == Digits(Value(ds, 58), 256)
  {
    var size := (|ds| + spare) * 733 / 1000 + 1;
    DecodeFits(|ds| + spare);
    PowMonotone(58, |ds|, |ds| + spare);
    var b256, length := Convert(ds, 58, 256, size);
    bytes := b256[size - length..];
    SuffixIsDigits(b256[..], 256, length);
    assert b256[..][size - length..] == bytes;
  }

  /** The digits of the characters, unless one of them is no Base58 character. */
  method ReadDigits(s: seq<nat>) returns (ok: bool, ds: seq<nat>)
    ensures ok <==> AllDigits(s)
    ensures ok ==> ds == DigitsOf(s)
  {
    ds := [];
    for i := 0 to |s|
      invariant AllDigits(s[..i]) && ds == DigitsOf(s[..i])
    {
      var d := DigitOf(s[i]);
      if d == -1 {
        return false, [];
      }
      ds := ds + [d];
    }
    assert s[..|s|] == s;
    ok := true;
  }

  /** Decodes text; malformed text yields the empty string. */
  method Decode(str: seq<nat>) returns (bytes: seq<nat>)
    ensures bytes == DecodeSpec(str)
  {
    if 0 in str {
      return [];
    }
    var skip := CountSpaces(str, true);
    var a := str[skip..];
    var zeroes := CountLeading(a, ONE);
    var body := a[zeroes..];
    var m := CountSpaces(body, false);
    var ok, ds := ReadDigits(body[..m]);
    if !ok {
      return [];
    }
    var trailing := CountSpaces(body[m..], true);
    if m + trailing < |body| {
      return [];
    }
    var b256 := ToBytes(ds, |body| - m);
    bytes := Repeat(0, zeroes) + b256;
  }
}
