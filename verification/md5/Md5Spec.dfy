// The MD5 compression function, as section 3.4 of RFC 1321 defines it: 64 operations, each with its word of the
// block, its shift and its constant.
module Md5Spec {
  import opened Bits

  // ----- Words

  const ZERO_WORD: Word := Zeros(32)

  function WordOf(n: nat): Word {
    ToBits(n, 32)
  }

  lemma ValueOfWord(n: nat)
    requires n < 0x1_0000_0000
    ensures Value(WordOf(n)) == n
  {
    WordPowers();
    ValueToBits(n, 32);
  }

  function And(a: Word, b: Word): Word {
    seq(32, i requires 0 <= i < 32 => a[i] && b[i])
  }

  function Xor(a: Word, b: Word): Word {
    seq(32, i requires 0 <= i < 32 => a[i] != b[i])
  }

  function Not(a: Word): Word {
    seq(32, i requires 0 <= i < 32 => !a[i])
  }

  // Addition modulo 2^32.
  function Add(a: Word, b: Word): Word {
    WordOf((Value(a) + Value(b)) % 0x1_0000_0000)
  }

  function Sum(a: Word, b: Word, c: Word, d: Word): Word {
    WordOf((Value(a) + Value(b) + Value(c) + Value(d)) % 0x1_0000_0000)
  }

  function RotateLeft(w: Word, s: nat): Word
    requires s <= 32
  {
    w[s..] + w[..s]
  }

  // ----- The four auxiliary functions

  function F(x: Word, y: Word, z: Word): Word {
    Or(And(x, y), And(Not(x), z))
  }

  function G(x: Word, y: Word, z: Word): Word {
    Or(And(x, z), And(y, Not(z)))
  }

  function H(x: Word, y: Word, z: Word): Word {
    Xor(Xor(x, y), z)
  }

  function I(x: Word, y: Word, z: Word): Word {
    Xor(y, Or(x, Not(z)))
  }

  // ----- The operations

  // The function of operation i.
  function Auxiliary(i: nat, x: Word, y: Word, z: Word): Word {
    if i < 16 then F(x, y, z) else if i < 32 then G(x, y, z) else if i < 48 then H(x, y, z) else I(x, y, z)
  }

  // The word of the block that operation i adds.
  function WordIndex(i: nat): (k: nat)
    ensures k < 16
  {
    if i < 16 then i % 16
    else if i < 32 then (1 + 5 * (i - 16)) % 16
    else if i < 48 then (5 + 3 * (i - 32)) % 16
    else (7 * (i - 48)) % 16
  }

  // How far operation i rotates.
  function Shift(i: nat): (s: nat)
    ensures s <= 32
  {
    var column := i % 4;
    if i < 16 then 7 + 5 * column
    else if i < 32 then (if column == 0 then 5 else if column == 1 then 9 else if column == 2 then 14 else 20)
    else if i < 48 then (if column == 0 then 4 else if column == 1 then 11 else if column == 2 then 16 else 23)
    else (if column == 0 then 6 else if column == 1 then 10 else if column == 2 then 15 else 21)
  }

  // The constants: the integer part of 2^32 times the absolute value of the sine of i + 1.
  function Constant(i: nat): nat {
    if i < 16 then FirstConstant(i)
    else if i < 32 then SecondConstant(i - 16)
    else if i < 48 then ThirdConstant(i - 32)
    else FourthConstant(i - 48)
  }

  function FirstConstant(i: nat): nat {
    match i
    case 0 => 0xd76aa478
    case 1 => 0xe8c7b756
    case 2 => 0x242070db
    case 3 => 0xc1bdceee
    case 4 => 0xf57c0faf
    case 5 => 0x4787c62a
    case 6 => 0xa8304613
    case 7 => 0xfd469501
    case 8 => 0x698098d8
    case 9 => 0x8b44f7af
    case 10 => 0xffff5bb1
    case 11 => 0x895cd7be
    case 12 => 0x6b901122
    case 13 => 0xfd987193
    case 14 => 0xa679438e
    case 15 => 0x49b40821
    case _ => 0
  }

  function SecondConstant(i: nat): nat {
    match i
    case 0 => 0xf61e2562
    case 1 => 0xc040b340
    case 2 => 0x265e5a51
    case 3 => 0xe9b6c7aa
    case 4 => 0xd62f105d
    case 5 => 0x02441453
    case 6 => 0xd8a1e681
    case 7 => 0xe7d3fbc8
    case 8 => 0x21e1cde6
    case 9 => 0xc33707d6
    case 10 => 0xf4d50d87
    case 11 => 0x455a14ed
    case 12 => 0xa9e3e905
    case 13 => 0xfcefa3f8
    case 14 => 0x676f02d9
    case 15 => 0x8d2a4c8a
    case _ => 0
  }

  function ThirdConstant(i: nat): nat {
    match i
    case 0 => 0xfffa3942
    case 1 => 0x8771f681
    case 2 => 0x6d9d6122
    case 3 => 0xfde5380c
    case 4 => 0xa4beea44
    case 5 => 0x4bdecfa9
    case 6 => 0xf6bb4b60
    case 7 => 0xbebfbc70
    case 8 => 0x289b7ec6
    case 9 => 0xeaa127fa
    case 10 => 0xd4ef3085
    case 11 => 0x04881d05
    case 12 => 0xd9d4d039
    case 13 => 0xe6db99e5
    case 14 => 0x1fa27cf8
    case 15 => 0xc4ac5665
    case _ => 0
  }

  function FourthConstant(i: nat): nat {
    match i
    case 0 => 0xf4292244
    case 1 => 0x432aff97
    case 2 => 0xab9423a7
    case 3 => 0xfc93a039
    case 4 => 0x655b59c3
    case 5 => 0x8f0ccc92
    case 6 => 0xffeff47d
    case 7 => 0x85845dd1
    case 8 => 0x6fa87e4f
    case 9 => 0xfe2ce6e0
    case 10 => 0xa3014314
    case 11 => 0x4e0811a1
    case 12 => 0xf7537e82
    case 13 => 0xbd3af235
    case 14 => 0x2ad7d2bb
    case 15 => 0xeb86d391
    case _ => 0
  }

  datatype Chain = Chain(a: Word, b: Word, c: Word, d: Word)

  const INITIAL_VALUES: seq<nat> := [0x67452301, 0xefcdab89, 0x98badcfe, 0x10325476]

  function Initial(): Chain {
    Chain(WordOf(INITIAL_VALUES[0]), WordOf(INITIAL_VALUES[1]), WordOf(INITIAL_VALUES[2]), WordOf(INITIAL_VALUES[3]))
  }

  lemma InitialWords()
    ensures Initial() == Chain(WordOf(0x67452301), WordOf(0xefcdab89), WordOf(0x98badcfe), WordOf(0x10325476))
  {
    hide WordOf;
  }

  // The new value of a in operation i.
  function Operation(i: nat, a: Word, b: Word, c: Word, d: Word, x: seq<Word>): Word
    requires |x| == 16
  {
    Add(b, RotateLeft(Sum(a, Auxiliary(i, b, c, d), x[WordIndex(i)], WordOf(Constant(i))), Shift(i)))
  }

  // The first n operations; after each of them the registers change their roles.
  function Operations(chain: Chain, x: seq<Word>, n: nat): Chain
    requires |x| == 16
  {
    if n == 0 then chain
    else
      var r := Operations(chain, x, n - 1);
      Chain(r.d, Operation(n - 1, r.a, r.b, r.c, r.d, x), r.b, r.c)
  }

  function AllOperations(chain: Chain, x: seq<Word>): Chain
    requires |x| == 16
  {
    Operations(chain, x, 64)
  }

  function Compress(chain: Chain, x: seq<Word>): Chain
    requires |x| == 16
  {
    var r := AllOperations(chain, x);
    Chain(Add(chain.a, r.a), Add(chain.b, r.b), Add(chain.c, r.c), Add(chain.d, r.d))
  }

  // ----- Messages

  // Four bytes as a word, low-order byte first.
  function WordAt(block: seq<Byte>, k: nat): Word
    requires 4 * k + 4 <= |block|
  {
    Join(block[4 * k + 3], block[4 * k + 2], block[4 * k + 1], block[4 * k])
  }

  function Join(b3: Bits, b2: Bits, b1: Bits, b0: Bits): Bits {
    b3 + b2 + b1 + b0
  }

  function BytesOf(w: Word): (b: seq<Byte>)
    ensures |b| == 4
  {
    [w[24..32], w[16..24], w[8..16], w[0..8]]
  }

  function WordsOf(block: seq<Byte>): (x: seq<Word>)
    requires |block| == 64
    ensures |x| == 16 && forall k :: 0 <= k < 16 ==> x[k] == WordAt(block, k)
  {
    seq(16, k requires 0 <= k < 16 => WordAt(block, k))
  }

  // The chaining value after the first n blocks of a message.
  function Digested(message: seq<Byte>, n: nat): Chain
    requires 64 * n <= |message|
  {
    if n == 0 then Initial() else Compress(Digested(message, n - 1), WordsOf(message[64 * (n - 1)..64 * n]))
  }

  // The number of zero bytes that follow the first padding byte, up to 56 modulo 64.
  function ZeroCount(length: nat): (z: nat)
    ensures z < 64 && (length + 1 + z) % 64 == 56
  {
    (119 - length % 64) % 64
  }

  function ZeroBytes(n: nat): (b: seq<Byte>)
    ensures |b| == n
  {
    seq(n, _ => Zeros(8))
  }

  // The length in bits as 64 bits, low-order word first.
  function LengthBytes(length: nat): (b: seq<Byte>)
    ensures |b| == 8
  {
    BytesOf(WordOf(8 * length % 0x1_0000_0000)) + BytesOf(WordOf(8 * length / 0x1_0000_0000 % 0x1_0000_0000))
  }

  function FirstPadding(): Byte {
    ToBits(0x80, 8)
  }

  lemma PaddedLength(length: nat)
    ensures (length + 1 + ZeroCount(length) + 8) % 64 == 0
  {
    var x := length + 1 + ZeroCount(length);
    assert x % 64 == 56;
  }

  // Sections 3.1 and 3.2.
  function Padded(message: seq<Byte>): (p: seq<Byte>)
    ensures |p| % 64 == 0 && message <= p
  {
    PaddedLength(|message|);
    message + [FirstPadding()] + ZeroBytes(ZeroCount(|message|)) + LengthBytes(|message|)
  }

  // Section 3.5.
  function Output(chain: Chain): seq<Byte> {
    BytesOf(chain.a) + BytesOf(chain.b) + BytesOf(chain.c) + BytesOf(chain.d)
  }

  // The digest of a message.
  function Md5(message: seq<Byte>): seq<Byte> {
    Output(Digested(Padded(message), |Padded(message)| / 64))
  }
}
