// Exp-Golomb codes (section 9.2 of H.265) as decoders and encoders on bit strings.
module ExpGolomb {
  import opened Bits

  // The number of zero bits in front of the first one bit.
  function LeadingZeros(b: Bits): (k: nat)
    ensures k <= |b|
    ensures forall i :: 0 <= i < k ==> !b[i]
    ensures k < |b| ==> b[k]
  {
    if b == [] || b[0] then 0 else 1 + LeadingZeros(b[1..])
  }

  // b starts with a complete ue(v) codeword whose prefix has at most `most` zeros.
  predicate UeReady(b: Bits, most: nat) {
    LeadingZeros(b) <= most && 2 * LeadingZeros(b) + 1 <= |b|
  }

  // The length and the value of the ue(v) codeword in front of b.
  function UeLength(b: Bits): nat {
    2 * LeadingZeros(b) + 1
  }

  function UeValue(b: Bits): (v: nat)
    requires UeLength(b) <= |b|
  {
    var k := LeadingZeros(b);
    Pow2(k) - 1 + Value(b[k + 1..2 * k + 1])
  }

  // The codeword of v: the binary digits of v + 1 behind as many zeros as digits follow the first.
  function EncodeUe(v: nat): Bits {
    var k := Log2(v + 1);
    Zeros(k) + ToBits(v + 1, k + 1)
  }

  function Log2(x: nat): (k: nat)
    requires x >= 1
    ensures Pow2(k) <= x < Pow2(k + 1)
  {
    if x == 1 then 0 else 1 + Log2(x / 2)
  }

  // The signed value of a code number: 0, 1, -1, 2, -2, ...
  function SeOf(codeNum: nat): int {
    if codeNum % 2 == 1 then (codeNum + 1) / 2 else -(codeNum / 2)
  }

  function CodeNumOf(x: int): nat {
    if x > 0 then 2 * x - 1 else -2 * x
  }

  function EncodeSe(x: int): Bits {
    EncodeUe(CodeNumOf(x))
  }

  // ----- Round trips

  lemma {:induction false} LeadingZerosAre(k: nat, t: Bits)
    requires t != [] && t[0]
    ensures LeadingZeros(Zeros(k) + t) == k
  {
    var b := Zeros(k) + t;
    if k == 0 {
      assert b == t;
    } else {
      assert b[1..] == Zeros(k - 1) + t;
      LeadingZerosAre(k - 1, t);
    }
  }

  // The digits of a number between 2^k and 2^(k+1) start with a one; the others hold the remainder.
  lemma TopDigit(x: nat, k: nat)
    requires Pow2(k) <= x < Pow2(k + 1)
    ensures ToBits(x, k + 1)[0]
    ensures Value(ToBits(x, k + 1)[1..]) == x - Pow2(k)
  {
    hide ToBits, Value, Pow2;
    var d := ToBits(x, k + 1);
    ValueToBits(x, k + 1);
    var first, low := d[0], d[1..];
    assert d == [first] + low;
    ValueAppend([first], low);
    ValueBound(low);
    ValueOfBit(first);
  }

  lemma ValueOfBit(b: bool)
    ensures Value([b]) == Bit(b)
  {
    assert [b][..0] == [];
  }

  // Decoding an encoded number gives it back and consumes exactly its codeword.
  lemma UeRoundTrip(v: nat, rest: Bits)
    ensures var b := EncodeUe(v) + rest;
      && LeadingZeros(b) == Log2(v + 1)
      && UeLength(b) == |EncodeUe(v)| && UeValue(b) == v
      && b[UeLength(b)..] == rest
  {
    var k, b := Log2(v + 1), EncodeUe(v) + rest;
    var d := ToBits(v + 1, k + 1);
    TopDigit(v + 1, k);
    assert b == Zeros(k) + (d + rest);
    LeadingZerosAre(k, d + rest);
    assert b[k + 1..2 * k + 1] == d[1..];
  }

  // Conversely, every complete codeword is the encoding of its value.
  lemma UeCanonical(b: Bits)
    requires UeLength(b) <= |b|
    ensures EncodeUe(UeValue(b)) == b[..UeLength(b)]
  {
    var k, d := CodewordParts(b);
    hide LeadingZeros, Log2, ToBits, Value, Zeros;
    Log2Unique(Value(d), k);
    ToBitsInverse(d);
  }

  // A complete codeword: the zeros, and the digits of its value plus 1.
  lemma CodewordParts(b: Bits) returns (k: nat, d: Bits)
    requires UeLength(b) <= |b|
    ensures k == LeadingZeros(b) && b[..UeLength(b)] == Zeros(k) + d && |d| == k + 1
    ensures Value(d) == UeValue(b) + 1 && Pow2(k) <= Value(d) < Pow2(k + 1)
  {
    var low;
    k, d, low := CodewordBits(b);
    hide LeadingZeros, UeLength, Value;
    ValueAppend([true], low);
    ValueOfBit(true);
    ValueBound(low);
  }

  lemma CodewordBits(b: Bits) returns (k: nat, d: Bits, low: Bits)
    requires UeLength(b) <= |b|
    ensures k == LeadingZeros(b) == |low| && b[..UeLength(b)] == Zeros(k) + d && d == [true] + low
    ensures UeValue(b) == Pow2(k) - 1 + Value(low)
  {
    hide Pow2, Value;
    k := LeadingZeros(b);
    d, low := b[k..2 * k + 1], b[k + 1..2 * k + 1];
    assert b[..2 * k + 1] == Zeros(k) + d;
    assert d == [true] + low;
  }

  // What a codeword is (section 9.2): as many zeros as digits follow the first one bit, and all its bits together are
  // the binary digits of its value plus 1.
  lemma UeIsNumber(b: Bits)
    requires UeLength(b) <= |b|
    ensures UeLength(b) % 2 == 1 && b[UeLength(b) / 2] && forall i :: 0 <= i < UeLength(b) / 2 ==> !b[i]
    ensures Value(b[..UeLength(b)]) == UeValue(b) + 1
  {
    PrefixIs(b);
    hide Value, Zeros, Pow2, LeadingZeros;
    var k, d := CodewordParts(b);
    ValueLeadingZeros(k, d);
  }

  lemma PrefixIs(b: Bits)
    requires UeLength(b) <= |b|
    ensures UeLength(b) % 2 == 1 && b[UeLength(b) / 2] && forall i :: 0 <= i < UeLength(b) / 2 ==> !b[i]
  {
    assert UeLength(b) / 2 == LeadingZeros(b);
  }

  // (-1)^n.
  ghost function Sign(n: nat): int {
    if n == 0 then 1 else -Sign(n - 1)
  }

  lemma {:induction false} SignAlternates(n: nat)
    ensures Sign(n) == if n % 2 == 0 then 1 else -1
  {
    if n > 0 {
      SignAlternates(n - 1);
    }
  }

  // The mapping of table 9-3: (-1)^(k+1) * Ceil(k / 2).
  lemma SeIsSigned(k: nat)
    ensures SeOf(k) == Sign(k + 1) * ((k + 1) / 2)
  {
    SignAlternates(k + 1);
  }

  lemma {:induction false} Log2Unique(x: nat, k: nat)
    requires Pow2(k) <= x < Pow2(k + 1)
    ensures Log2(x) == k
  {
    if k > 0 {
      Log2Unique(x / 2, k - 1);
    }
  }

  // Numbers below 2^n - 1 have prefixes shorter than n.
  lemma UePrefixBound(v: nat, n: nat)
    requires v + 1 < Pow2(n)
    ensures Log2(v + 1) < n
  {
    var k := Log2(v + 1);
    if n < k {
      PowersGrow(n, k);
    }
  }

  lemma UeShort(v: nat)
    requires v < 0x7fff_ffff
    ensures Log2(v + 1) <= 30
  {
    WordPowers();
    UePrefixBound(v, 31);
  }

  lemma SignedInverse(x: int, n: nat)
    ensures SeOf(CodeNumOf(x)) == x
    ensures CodeNumOf(SeOf(n)) == n
  {
  }

  // se(v): the signed value of the codeword in front of b.
  function SeValue(b: Bits): int
    requires UeLength(b) <= |b|
  {
    SeOf(UeValue(b))
  }

  lemma SeRoundTrip(x: int, rest: Bits)
    ensures var b := EncodeSe(x) + rest;
      && UeLength(b) == |EncodeSe(x)| <= |b| && SeValue(b) == x
      && b[UeLength(b)..] == rest
  {
    UeRoundTrip(CodeNumOf(x), rest);
    SignedInverse(x, 0);
  }

  lemma BitValue(b: Bits)
    requires b != []
    ensures Value(b[..1]) == Bit(b[0])
  {
    assert b[..1][..0] == [];
  }
}
