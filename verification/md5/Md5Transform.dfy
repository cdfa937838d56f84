// The compression function as it is written out: optimised core functions and 64 steps.
module Md5Transform {
  import opened Bits
  import opened Md5Spec

  // ----- The core functions

  function F1(x: Word, y: Word, z: Word): Word {
    Xor(z, And(x, Xor(y, z)))
  }

  function F2(x: Word, y: Word, z: Word): Word {
    F1(z, x, y)
  }

  function F3(x: Word, y: Word, z: Word): Word {
    Xor(Xor(x, y), z)
  }

  function F4(x: Word, y: Word, z: Word): Word {
    Xor(y, Or(x, Not(z)))
  }

  // They are the auxiliary functions of RFC 1321.
  lemma CoreFunctions(x: Word, y: Word, z: Word)
    ensures F1(x, y, z) == F(x, y, z) && F2(x, y, z) == G(x, y, z)
    ensures F3(x, y, z) == H(x, y, z) && F4(x, y, z) == I(x, y, z)
  {
    forall i | 0 <= i < 32
      ensures F1(x, y, z)[i] == F(x, y, z)[i] && F2(x, y, z)[i] == G(x, y, z)[i]
    {
    }
  }

  // ----- One step

  // MD5STEP, with the value of the core function.
  function Md5Step(f: Word, w: Word, x: Word, data: Word, s: nat): Word
    requires s <= 32
  {
    var r := Add(w, Add(f, data));
    Add(Or(ShiftLeft(r, s), ShiftRight(r, 32 - s)), x)
  }

  lemma ShiftsRotate(w: Word, s: nat)
    requires s <= 32
    ensures Or(ShiftLeft(w, s), ShiftRight(w, 32 - s)) == RotateLeft(w, s)
  {
  }

  lemma AddCommutes(a: Word, b: Word)
    ensures Add(a, b) == Add(b, a)
  {
  }

  lemma AddValue(a: Word, b: Word)
    ensures Value(Add(a, b)) == (Value(a) + Value(b)) % 0x1_0000_0000
  {
    hide WordOf, Value;
    ValueOfWord((Value(a) + Value(b)) % 0x1_0000_0000);
  }

  lemma ModAdd(a: nat, b: nat, m: nat)
    requires m == 0x1_0000_0000
    ensures (a + b % m) % m == (a + b) % m
  {
  }

  lemma ModSums(w: nat, f: nat, x: nat, t: nat, m: nat)
    requires m == 0x1_0000_0000
    ensures (w + (f + (x + t) % m) % m) % m == (w + f + x + t) % m
  {
    ModAdd(f, x + t, m);
    ModAdd(w, f + (x + t) % m, m);
    ModAdd(w + f, x + t, m);
  }

  lemma AddsUp(w: Word, f: Word, x: Word, t: Word)
    ensures Add(w, Add(f, Add(x, t))) == Sum(w, f, x, t)
  {
    hide Value, WordOf;
    AddValue(x, t);
    AddValue(f, Add(x, t));
    ModSums(Value(w), Value(f), Value(x), Value(t), 0x1_0000_0000);
  }

  lemma StepIsOperation(f: Word, w: Word, x: Word, word: Word, constant: Word, s: nat)
    requires s <= 32
    ensures Md5Step(f, w, x, Add(word, constant), s) == Add(x, RotateLeft(Sum(w, f, word, constant), s))
  {
    hide Add, Sum, Or, ShiftLeft, ShiftRight, RotateLeft;
    AddsUp(w, f, word, constant);
    ShiftsRotate(Sum(w, f, word, constant), s);
    AddCommutes(RotateLeft(Sum(w, f, word, constant), s), x);
  }

  // Word k of the block, the constant and the shift are those of operation i.
  predicate Scheduled(i: nat, k: nat, constant: nat, s: nat) {
    k == WordIndex(i) && constant == Constant(i) && s == Shift(i)
  }

  // A step of round 1.
  method Step1(w: Word, x: Word, y: Word, z: Word, block: seq<Word>, k: nat, constant: nat, s: nat, ghost i: nat)
    returns (r: Word)
    requires |block| == 16 && 0 <= i < 16 && Scheduled(i, k, constant, s)
    ensures r == Operation(i, w, x, y, z, block)
  {
    hide WordIndex, Constant, Shift, Add, Sum, F1, F;
    CoreFunctions(x, y, z);
    r := Md5Step(F1(x, y, z), w, x, Add(block[k], WordOf(constant)), s);
    StepIsOperation(F1(x, y, z), w, x, block[k], WordOf(constant), s);
  }

  // A step of round 2.
  method Step2(w: Word, x: Word, y: Word, z: Word, block: seq<Word>, k: nat, constant: nat, s: nat, ghost i: nat)
    returns (r: Word)
    requires |block| == 16 && 16 <= i < 32 && Scheduled(i, k, constant, s)
    ensures r == Operation(i, w, x, y, z, block)
  {
    hide WordIndex, Constant, Shift, Add, Sum, F2, G;
    CoreFunctions(x, y, z);
    r := Md5Step(F2(x, y, z), w, x, Add(block[k], WordOf(constant)), s);
    StepIsOperation(F2(x, y, z), w, x, block[k], WordOf(constant), s);
  }

  // A step of round 3.
  method Step3(w: Word, x: Word, y: Word, z: Word, block: seq<Word>, k: nat, constant: nat, s: nat, ghost i: nat)
    returns (r: Word)
    requires |block| == 16 && 32 <= i < 48 && Scheduled(i, k, constant, s)
    ensures r == Operation(i, w, x, y, z, block)
  {
    hide WordIndex, Constant, Shift, Add, Sum, F3, H;
    CoreFunctions(x, y, z);
    r := Md5Step(F3(x, y, z), w, x, Add(block[k], WordOf(constant)), s);
    StepIsOperation(F3(x, y, z), w, x, block[k], WordOf(constant), s);
  }

  // A step of round 4.
  method Step4(w: Word, x: Word, y: Word, z: Word, block: seq<Word>, k: nat, constant: nat, s: nat, ghost i: nat)
    returns (r: Word)
    requires |block| == 16 && 48 <= i < 64 && Scheduled(i, k, constant, s)
    ensures r == Operation(i, w, x, y, z, block)
  {
    hide WordIndex, Constant, Shift, Add, Sum, F4, I;
    CoreFunctions(x, y, z);
    r := Md5Step(F4(x, y, z), w, x, Add(block[k], WordOf(constant)), s);
    StepIsOperation(F4(x, y, z), w, x, block[k], WordOf(constant), s);
  }

  // Four operations bring every register back to its role.
  lemma FourOperations(chain: Chain, x: seq<Word>, i: nat, r: Chain, a: Word, b: Word, c: Word, d: Word)
    requires |x| == 16 && r == Operations(chain, x, i)
    requires a == Operation(i, r.a, r.b, r.c, r.d, x) && d == Operation(i + 1, r.d, a, r.b, r.c, x)
    requires c == Operation(i + 2, r.c, d, a, r.b, x) && b == Operation(i + 3, r.b, c, d, a, x)
    ensures Operations(chain, x, i + 4) == Chain(a, b, c, d)
  {
    hide Operation;
    var r1, r2, r3 := Operations(chain, x, i + 1), Operations(chain, x, i + 2), Operations(chain, x, i + 3);
  }

  // ----- The rounds

  // The schedule of round 1.
  lemma Schedule1()
    ensures Scheduled(0, 0, 0xd76aa478, 7) && Scheduled(1, 1, 0xe8c7b756, 12)
    ensures Scheduled(2, 2, 0x242070db, 17) && Scheduled(3, 3, 0xc1bdceee, 22)
    ensures Scheduled(4, 4, 0xf57c0faf, 7) && Scheduled(5, 5, 0x4787c62a, 12)
    ensures Scheduled(6, 6, 0xa8304613, 17) && Scheduled(7, 7, 0xfd469501, 22)
    ensures Scheduled(8, 8, 0x698098d8, 7) && Scheduled(9, 9, 0x8b44f7af, 12)
    ensures Scheduled(10, 10, 0xffff5bb1, 17) && Scheduled(11, 11, 0x895cd7be, 22)
    ensures Scheduled(12, 12, 0x6b901122, 7) && Scheduled(13, 13, 0xfd987193, 12)
    ensures Scheduled(14, 14, 0xa679438e, 17) && Scheduled(15, 15, 0x49b40821, 22)
  {
  }

  method Round1(ghost chain: Chain, x: seq<Word>, a0: Word, b0: Word, c0: Word, d0: Word)
    returns (a: Word, b: Word, c: Word, d: Word)
    requires |x| == 16 && Chain(a0, b0, c0, d0) == Operations(chain, x, 0)
    ensures Chain(a, b, c, d) == Operations(chain, x, 16)
  {
    hide *;
    Schedule1();
    a, b, c, d := a0, b0, c0, d0;
    ghost var r := Chain(a, b, c, d);
    a := Step1(a, b, c, d, x, 0, 0xd76aa478, 7, 0);
    d := Step1(d, a, b, c, x, 1, 0xe8c7b756, 12, 1);
    c := Step1(c, d, a, b, x, 2, 0x242070db, 17, 2);
    b := Step1(b, c, d, a, x, 3, 0xc1bdceee, 22, 3);
    FourOperations(chain, x, 0, r, a, b, c, d);
    r := Chain(a, b, c, d);
    a := Step1(a, b, c, d, x, 4, 0xf57c0faf, 7, 4);
    d := Step1(d, a, b, c, x, 5, 0x4787c62a, 12, 5);
    c := Step1(c, d, a, b, x, 6, 0xa8304613, 17, 6);
    b := Step1(b, c, d, a, x, 7, 0xfd469501, 22, 7);
    FourOperations(chain, x, 4, r, a, b, c, d);
    r := Chain(a, b, c, d);
    a := Step1(a, b, c, d, x, 8, 0x698098d8, 7, 8);
    d := Step1(d, a, b, c, x, 9, 0x8b44f7af, 12, 9);
    c := Step1(c, d, a, b, x, 10, 0xffff5bb1, 17, 10);
    b := Step1(b, c, d, a, x, 11, 0x895cd7be, 22, 11);
    FourOperations(chain, x, 8, r, a, b, c, d);
    r := Chain(a, b, c, d);
    a := Step1(a, b, c, d, x, 12, 0x6b901122, 7, 12);
    d := Step1(d, a, b, c, x, 13, 0xfd987193, 12, 13);
    c := Step1(c, d, a, b, x, 14, 0xa679438e, 17, 14);
    b := Step1(b, c, d, a, x, 15, 0x49b40821, 22, 15);
    FourOperations(chain, x, 12, r, a, b, c, d);
  }

  // The schedule of round 2.
  lemma Schedule2()
    ensures Scheduled(16, 1, 0xf61e2562, 5) && Scheduled(17, 6, 0xc040b340, 9)
    ensures Scheduled(18, 11, 0x265e5a51, 14) && Scheduled(19, 0, 0xe9b6c7aa, 20)
    ensures Scheduled(20, 5, 0xd62f105d, 5) && Scheduled(21, 10, 0x02441453, 9)
    ensures Scheduled(22, 15, 0xd8a1e681, 14) && Scheduled(23, 4, 0xe7d3fbc8, 20)
    ensures Scheduled(24, 9, 0x21e1cde6, 5) && Scheduled(25, 14, 0xc33707d6, 9)
    ensures Scheduled(26, 3, 0xf4d50d87, 14) && Scheduled(27, 8, 0x455a14ed, 20)
    ensures Scheduled(28, 13, 0xa9e3e905, 5) && Scheduled(29, 2, 0xfcefa3f8, 9)
    ensures Scheduled(30, 7, 0x676f02d9, 14) && Scheduled(31, 12, 0x8d2a4c8a, 20)
  {
  }

  method Round2(ghost chain: Chain, x: seq<Word>, a0: Word, b0: Word, c0: Word, d0: Word)
    returns (a: Word, b: Word, c: Word, d: Word)
    requires |x| == 16 && Chain(a0, b0, c0, d0) == Operations(chain, x, 16)
    ensures Chain(a, b, c, d) == Operations(chain, x, 32)
  {
    hide *;
    Schedule2();
    a, b, c, d := a0, b0, c0, d0;
    ghost var r := Chain(a, b, c, d);
    a := Step2(a, b, c, d, x, 1, 0xf61e2562, 5, 16);
    d := Step2(d, a, b, c, x, 6, 0xc040b340, 9, 17);
    c := Step2(c, d, a, b, x, 11, 0x265e5a51, 14, 18);
    b := Step2(b, c, d, a, x, 0, 0xe9b6c7aa, 20, 19);
    FourOperations(chain, x, 16, r, a, b, c, d);
    r := Chain(a, b, c, d);
    a := Step2(a, b, c, d, x, 5, 0xd62f105d, 5, 20);
    d := Step2(d, a, b, c, x, 10, 0x02441453, 9, 21);
    c := Step2(c, d, a, b, x, 15, 0xd8a1e681, 14, 22);
    b := Step2(b, c, d, a, x, 4, 0xe7d3fbc8, 20, 23);
    FourOperations(chain, x, 20, r, a, b, c, d);
    r := Chain(a, b, c, d);
    a := Step2(a, b, c, d, x, 9, 0x21e1cde6, 5, 24);
    d := Step2(d, a, b, c, x, 14, 0xc33707d6, 9, 25);
    c := Step2(c, d, a, b, x, 3, 0xf4d50d87, 14, 26);
    b := Step2(b, c, d, a, x, 8, 0x455a14ed, 20, 27);
    FourOperations(chain, x, 24, r, a, b, c, d);
    r := Chain(a, b, c, d);
    a := Step2(a, b, c, d, x, 13, 0xa9e3e905, 5, 28);
    d := Step2(d, a, b, c, x, 2, 0xfcefa3f8, 9, 29);
    c := Step2(c, d, a, b, x, 7, 0x676f02d9, 14, 30);
    b := Step2(b, c, d, a, x, 12, 0x8d2a4c8a, 20, 31);
    FourOperations(chain, x, 28, r, a, b, c, d);
  }

  // The schedule of round 3.
  lemma Schedule3()
    ensures Scheduled(32, 5, 0xfffa3942, 4) && Scheduled(33, 8, 0x8771f681, 11)
    ensures Scheduled(34, 11, 0x6d9d6122, 16) && Scheduled(35, 14, 0xfde5380c, 23)
    ensures Scheduled(36, 1, 0xa4beea44, 4) && Scheduled(37, 4, 0x4bdecfa9, 11)
    ensures Scheduled(38, 7, 0xf6bb4b60, 16) && Scheduled(39, 10, 0xbebfbc70, 23)
    ensures Scheduled(40, 13, 0x289b7ec6, 4) && Scheduled(41, 0, 0xeaa127fa, 11)
    ensures Scheduled(42, 3, 0xd4ef3085, 16) && Scheduled(43, 6, 0x04881d05, 23)
    ensures Scheduled(44, 9, 0xd9d4d039, 4) && Scheduled(45, 12, 0xe6db99e5, 11)
    ensures Scheduled(46, 15, 0x1fa27cf8, 16) && Scheduled(47, 2, 0xc4ac5665, 23)
  {
  }

  method Round3(ghost chain: Chain, x: seq<Word>, a0: Word, b0: Word, c0: Word, d0: Word)
    returns (a: Word, b: Word, c: Word, d: Word)
    requires |x| == 16 && Chain(a0, b0, c0, d0) == Operations(chain, x, 32)
    ensures Chain(a, b, c, d) == Operations(chain, x, 48)
  {
    hide *;
    Schedule3();
    a, b, c, d := a0, b0, c0, d0;
    ghost var r := Chain(a, b, c, d);
    a := Step3(a, b, c, d, x, 5, 0xfffa3942, 4, 32);
    d := Step3(d, a, b, c, x, 8, 0x8771f681, 11, 33);
    c := Step3(c, d, a, b, x, 11, 0x6d9d6122, 16, 34);
    b := Step3(b, c, d, a, x, 14, 0xfde5380c, 23, 35);
    FourOperations(chain, x, 32, r, a, b, c, d);
    r := Chain(a, b, c, d);
    a := Step3(a, b, c, d, x, 1, 0xa4beea44, 4, 36);
    d := Step3(d, a, b, c, x, 4, 0x4bdecfa9, 11, 37);
    c := Step3(c, d, a, b, x, 7, 0xf6bb4b60, 16, 38);
    b := Step3(b, c, d, a, x, 10, 0xbebfbc70, 23, 39);
    FourOperations(chain, x, 36, r, a, b, c, d);
    r := Chain(a, b, c, d);
    a := Step3(a, b, c, d, x, 13, 0x289b7ec6, 4, 40);
    d := Step3(d, a, b, c, x, 0, 0xeaa127fa, 11, 41);
    c := Step3(c, d, a, b, x, 3, 0xd4ef3085, 16, 42);
    b := Step3(b, c, d, a, x, 6, 0x04881d05, 23, 43);
    FourOperations(chain, x, 40, r, a, b, c, d);
    r := Chain(a, b, c, d);
    a := Step3(a, b, c, d, x, 9, 0xd9d4d039, 4, 44);
    d := Step3(d, a, b, c, x, 12, 0xe6db99e5, 11, 45);
    c := Step3(c, d, a, b, x, 15, 0x1fa27cf8, 16, 46);
    b := Step3(b, c, d, a, x, 2, 0xc4ac5665, 23, 47);
    FourOperations(chain, x, 44, r, a, b, c, d);
  }

  // The schedule of round 4.
  lemma Schedule4()
    ensures Scheduled(48, 0, 0xf4292244, 6) && Scheduled(49, 7, 0x432aff97, 10)
    ensures Scheduled(50, 14, 0xab9423a7, 15) && Scheduled(51, 5, 0xfc93a039, 21)
    ensures Scheduled(52, 12, 0x655b59c3, 6) && Scheduled(53, 3, 0x8f0ccc92, 10)
    ensures Scheduled(54, 10, 0xffeff47d, 15) && Scheduled(55, 1, 0x85845dd1, 21)
    ensures Scheduled(56, 8, 0x6fa87e4f, 6) && Scheduled(57, 15, 0xfe2ce6e0, 10)
    ensures Scheduled(58, 6, 0xa3014314, 15) && Scheduled(59, 13, 0x4e0811a1, 21)
    ensures Scheduled(60, 4, 0xf7537e82, 6) && Scheduled(61, 11, 0xbd3af235, 10)
    ensures Scheduled(62, 2, 0x2ad7d2bb, 15) && Scheduled(63, 9, 0xeb86d391, 21)
  {
  }

  method Round4(ghost chain: Chain, x: seq<Word>, a0: Word, b0: Word, c0: Word, d0: Word)
    returns (a: Word, b: Word, c: Word, d: Word)
    requires |x| == 16 && Chain(a0, b0, c0, d0) == Operations(chain, x, 48)
    ensures Chain(a, b, c, d) == Operations(chain, x, 64)
  {
    hide *;
    Schedule4();
    a, b, c, d := a0, b0, c0, d0;
    ghost var r := Chain(a, b, c, d);
    a := Step4(a, b, c, d, x, 0, 0xf4292244, 6, 48);
    d := Step4(d, a, b, c, x, 7, 0x432aff97, 10, 49);
    c := Step4(c, d, a, b, x, 14, 0xab9423a7, 15, 50);
    b := Step4(b, c, d, a, x, 5, 0xfc93a039, 21, 51);
    FourOperations(chain, x, 48, r, a, b, c, d);
    r := Chain(a, b, c, d);
    a := Step4(a, b, c, d, x, 12, 0x655b59c3, 6, 52);
    d := Step4(d, a, b, c, x, 3, 0x8f0ccc92, 10, 53);
    c := Step4(c, d, a, b, x, 10, 0xffeff47d, 15, 54);
    b := Step4(b, c, d, a, x, 1, 0x85845dd1, 21, 55);
    FourOperations(chain, x, 52, r, a, b, c, d);
    r := Chain(a, b, c, d);
    a := Step4(a, b, c, d, x, 8, 0x6fa87e4f, 6, 56);
    d := Step4(d, a, b, c, x, 15, 0xfe2ce6e0, 10, 57);
    c := Step4(c, d, a, b, x, 6, 0xa3014314, 15, 58);
    b := Step4(b, c, d, a, x, 13, 0x4e0811a1, 21, 59);
    FourOperations(chain, x, 56, r, a, b, c, d);
    r := Chain(a, b, c, d);
    a := Step4(a, b, c, d, x, 4, 0xf7537e82, 6, 60);
    d := Step4(d, a, b, c, x, 11, 0xbd3af235, 10, 61);
    c := Step4(c, d, a, b, x, 2, 0x2ad7d2bb, 15, 62);
    b := Step4(b, c, d, a, x, 9, 0xeb86d391, 21, 63);
    FourOperations(chain, x, 60, r, a, b, c, d);
  }

  // All steps.
  method AllRounds(x: seq<Word>, a0: Word, b0: Word, c0: Word, d0: Word)
    returns (a: Word, b: Word, c: Word, d: Word)
    requires |x| == 16
    ensures Chain(a, b, c, d) == AllOperations(Chain(a0, b0, c0, d0), x)
  {
    ghost var chain := Chain(a0, b0, c0, d0);
    Unstarted(chain, x);
    AllOperationsAre(chain, x);
    hide *;
    a, b, c, d := Round1(chain, x, a0, b0, c0, d0);
    a, b, c, d := Round2(chain, x, a, b, c, d);
    a, b, c, d := Round3(chain, x, a, b, c, d);
    a, b, c, d := Round4(chain, x, a, b, c, d);
  }

  // MD5Transform.
  method Transform(buf: array<Word>, x: seq<Word>)
    requires buf.Length == 4 && |x| == 16
    modifies buf
    ensures ChainOf(buf) == Compress(old(ChainOf(buf)), x)
  {
    hide Add, AllOperations;
    var a, b, c, d := AllRounds(x, buf[0], buf[1], buf[2], buf[3]);
    buf[0] := Add(buf[0], a);
    buf[1] := Add(buf[1], b);
    buf[2] := Add(buf[2], c);
    buf[3] := Add(buf[3], d);
  }

  lemma Unstarted(chain: Chain, x: seq<Word>)
    requires |x| == 16
    ensures Operations(chain, x, 0) == chain
  {
  }

  lemma AllOperationsAre(chain: Chain, x: seq<Word>)
    requires |x| == 16
    ensures AllOperations(chain, x) == Operations(chain, x, 64)
  {
    hide Operations;
  }

  ghost function ChainOf(buf: array<Word>): Chain
    requires buf.Length == 4
    reads buf
  {
    Chain(buf[0], buf[1], buf[2], buf[3])
  }
}
