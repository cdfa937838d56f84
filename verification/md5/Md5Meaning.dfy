// What the words, the padding and the output of the definition are, as bits and as numbers (sections 2 and 3 of
// RFC 1321).
module Md5Meaning {
  import opened Bits
  import opened Md5Spec
  import opened Sequences

  // Bytes as a number, low-order byte first.
  ghost function NumberOf(bytes: seq<Byte>): nat {
    if bytes == [] then 0 else Value(bytes[0]) + 256 * NumberOf(bytes[1..])
  }

  lemma NumberOfFour(a: Byte, b: Byte, c: Byte, d: Byte)
    ensures NumberOf([a, b, c, d]) == Value(a) + 256 * Value(b) + 0x1_0000 * Value(c) + 0x100_0000 * Value(d)
  {
    hide Value;
    NumberOfNext(a, [b, c, d]);
    NumberOfNext(b, [c, d]);
    NumberOfNext(c, [d]);
    NumberOfNext(d, []);
    assert [a] + [b, c, d] == [a, b, c, d] && [b] + [c, d] == [b, c, d] && [c] + [d] == [c, d] && [d] + [] == [d];
  }

  lemma NumberOfNext(a: Byte, rest: seq<Byte>)
    ensures NumberOf([]) == 0 && NumberOf([a] + rest) == Value(a) + 256 * NumberOf(rest)
  {
    assert ([a] + rest)[1..] == rest;
  }

  lemma {:induction false} NumberOfAppend(a: seq<Byte>, b: seq<Byte>)
    requires |a| == 4
    ensures NumberOf(a + b) == NumberOf(a) + 0x1_0000_0000 * NumberOf(b)
  {
    hide Value, NumberOf;
    NumberOfFour(a[0], a[1], a[2], a[3]);
    assert a == [a[0], a[1], a[2], a[3]];
    NumberOfNext(a[0], [a[1], a[2], a[3]] + b);
    NumberOfNext(a[1], [a[2], a[3]] + b);
    NumberOfNext(a[2], [a[3]] + b);
    NumberOfNext(a[3], b);
    assert [a[0]] + ([a[1], a[2], a[3]] + b) == a + b && [a[1]] + ([a[2], a[3]] + b) == [a[1], a[2], a[3]] + b;
    assert [a[2]] + ([a[3]] + b) == [a[2], a[3]] + b;
  }

  lemma JoinedValue(b3: Byte, b2: Byte, b1: Byte, b0: Byte)
    ensures Value(b3 + b2 + b1 + b0) == Value(b0) + 256 * Value(b1) + 0x1_0000 * Value(b2) + 0x100_0000 * Value(b3)
  {
    hide Value;
    ValueAppend(b3 + b2 + b1, b0);
    ValueAppend(b3 + b2, b1);
    ValueAppend(b3, b2);
    assert Pow2(8) == 256;
  }

  // A word of a block is the number of its four bytes.
  lemma WordIsNumber(block: seq<Byte>, k: nat)
    requires 4 * k + 4 <= |block|
    ensures Value(WordAt(block, k)) == NumberOf(block[4 * k..4 * k + 4])
  {
    hide Value, NumberOf;
    var a, b, c, d := block[4 * k], block[4 * k + 1], block[4 * k + 2], block[4 * k + 3];
    JoinedValue(d, c, b, a);
    NumberOfFour(a, b, c, d);
    assert block[4 * k..4 * k + 4] == [a, b, c, d];
  }

  // A word that is written out is the number of its bytes.
  lemma BytesAreNumber(w: Word)
    ensures NumberOf(BytesOf(w)) == Value(w)
  {
    hide Value, NumberOf;
    var b3, b2, b1, b0 := w[0..8], w[8..16], w[16..24], w[24..32];
    assert w == b3 + b2 + b1 + b0;
    JoinedValue(b3, b2, b1, b0);
    NumberOfFour(b0, b1, b2, b3);
  }

  // The length field is the number of bits, modulo 2^64.
  lemma LengthIsNumber(length: nat)
    ensures NumberOf(LengthBytes(length)) == 8 * length % 0x1_0000_0000_0000_0000
  {
    hide Value, NumberOf, WordOf, BytesOf;
    var low, high := 8 * length % 0x1_0000_0000, 8 * length / 0x1_0000_0000 % 0x1_0000_0000;
    ValueOfWord(low);
    ValueOfWord(high);
    BytesAreNumber(WordOf(low));
    BytesAreNumber(WordOf(high));
    NumberOfAppend(BytesOf(WordOf(low)), BytesOf(WordOf(high)));
    TwoWords(8 * length);
  }

  lemma TwoWords(x: nat)
    ensures x % 0x1_0000_0000 + 0x1_0000_0000 * (x / 0x1_0000_0000 % 0x1_0000_0000) == x % 0x1_0000_0000_0000_0000
  {
    var q, r := x / 0x1_0000_0000, x % 0x1_0000_0000;
    var a, b := q / 0x1_0000_0000, q % 0x1_0000_0000;
    assert x == 0x1_0000_0000 * q + r && q == 0x1_0000_0000 * a + b;
    Remains(x, a, 0x1_0000_0000 * b + r);
  }

  lemma Remains(x: nat, a: nat, s: nat)
    requires x == 0x1_0000_0000_0000_0000 * a + s && s < 0x1_0000_0000_0000_0000
    ensures x % 0x1_0000_0000_0000_0000 == s
  {
  }

  lemma {:induction false} ZeroBits(n: nat)
    ensures Concat(ZeroBytes(n)) == Zeros(8 * n)
  {
    if n > 0 {
      ZeroBits(n - 1);
      assert ZeroBytes(n) == ZeroBytes(n - 1) + [Zeros(8)];
      ConcatAppend(ZeroBytes(n - 1), Zeros(8));
    }
  }

  lemma FirstPaddingBits()
    ensures FirstPadding() == [true] + Zeros(7)
  {
    ToBitsInverse([true] + Zeros(7));
    ValueAppend([true], Zeros(7));
    ValueZeros(7);
    assert Value([true]) == 1 by {
      assert [true][..0] == [];
    }
    assert Pow2(7) == 128;
  }

  // Sections 3.1 and 3.2: a single one bit, then zero bits up to 448 modulo 512, then the length in bits as 64 bits.
  ghost predicate IsPadded(message: seq<Byte>, p: seq<Byte>, zeros: nat) {
    && |p| >= 8 && zeros < 512 && (|Concat(message)| + 1 + zeros) % 512 == 448
    && Concat(p[..|p| - 8]) == Concat(message) + [true] + Zeros(zeros)
    && NumberOf(p[|p| - 8..]) == |Concat(message)| % 0x1_0000_0000_0000_0000
  }

  lemma {:induction false} BitsOfBytes(m: seq<Byte>)
    ensures |Concat(m)| == 8 * |m|
  {
    if m != [] {
      BitsOfBytes(m[..|m| - 1]);
    }
  }

  // The padding of the definition is the one of the RFC, for every message.
  lemma PaddingIsRight(m: seq<Byte>)
    ensures IsPadded(m, Padded(m), 8 * ZeroCount(|m|) + 7)
  {
    hide LengthBytes, NumberOf, FirstPadding, ZeroBytes;
    var z, p := ZeroCount(|m|), Padded(m);
    BitsOfBytes(m);
    LengthIsNumber(|m|);
    assert p[|p| - 8..] == LengthBytes(|m|);
    assert p[..|p| - 8] == (m + [FirstPadding()]) + ZeroBytes(z);
    FirstPaddingBits();
    ZeroBits(z);
    ConcatSplit(m + [FirstPadding()], ZeroBytes(z));
    ConcatAppend(m, FirstPadding());
    hide Padded, Concat;
    assert [true] + Zeros(7) + Zeros(8 * z) == [true] + Zeros(8 * z + 7);
    CountBits(|m|, z);
  }

  lemma CountBits(length: nat, z: nat)
    requires z < 64 && (length + 1 + z) % 64 == 56
    ensures (8 * length + 1 + (8 * z + 7)) % 512 == 448
  {
    var q := (length + 1 + z) / 64;
    assert length + 1 + z == 64 * q + 56;
    DivideUnique(8 * length + 8 * z + 8, 512, q, 448);
  }

  // Section 3.3: the registers start as the bytes 01 23 45 67, 89 ab cd ef, fe dc ba 98 and 76 54 32 10.
  lemma InitialNumbers()
    ensures Value(Initial().a) == 0x01 + 256 * 0x23 + 0x1_0000 * 0x45 + 0x100_0000 * 0x67
    ensures Value(Initial().b) == 0x89 + 256 * 0xab + 0x1_0000 * 0xcd + 0x100_0000 * 0xef
    ensures Value(Initial().c) == 0xfe + 256 * 0xdc + 0x1_0000 * 0xba + 0x100_0000 * 0x98
    ensures Value(Initial().d) == 0x76 + 256 * 0x54 + 0x1_0000 * 0x32 + 0x100_0000 * 0x10
  {
    hide Value, WordOf;
    InitialWords();
    ValueOfWord(0x67452301);
    ValueOfWord(0xefcdab89);
    ValueOfWord(0x98badcfe);
    ValueOfWord(0x10325476);
  }

  // Section 3.5: the digest is A, B, C and D, each with its low-order byte first.
  lemma OutputNumbers(chain: Chain)
    ensures var o := Output(chain);
      && |o| == 16
      && NumberOf(o[0..4]) == Value(chain.a) && NumberOf(o[4..8]) == Value(chain.b)
      && NumberOf(o[8..12]) == Value(chain.c) && NumberOf(o[12..16]) == Value(chain.d)
  {
    hide NumberOf, Value;
    BytesAreNumber(chain.a);
    BytesAreNumber(chain.b);
    BytesAreNumber(chain.c);
    BytesAreNumber(chain.d);
    var o := Output(chain);
    assert o[0..4] == BytesOf(chain.a) && o[4..8] == BytesOf(chain.b);
    assert o[8..12] == BytesOf(chain.c) && o[12..16] == BytesOf(chain.d);
  }
}
