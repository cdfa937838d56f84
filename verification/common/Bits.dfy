// Bit strings, most significant bit first, and 32-bit words as bit strings.
module Bits {

  type Bits = seq<bool>

  // UInt: 32 bits.
  type Word = w: Bits | |w| == 32 witness seq(32, _ => false)

  type Byte = b: Bits | |b| == 8 witness seq(8, _ => false)

  function Pow2(n: nat): (r: nat)
    ensures r >= 1
  {
    if n == 0 then 1 else 2 * Pow2(n - 1)
  }

  // d << n on a signed number.
  function Shl(d: int, n: nat): int {
    if n == 0 then d else 2 * Shl(d, n - 1)
  }

  lemma {:induction false} ShlMultiplies(d: int, n: nat)
    ensures Shl(d, n) == d * Pow2(n)
  {
    if n > 0 {
      ShlMultiplies(d, n - 1);
    }
  }

  // d >> n, the arithmetic right shift.
  function Shr(d: int, n: nat): (r: int)
    ensures d >= 0 ==> 0 <= r <= d
    decreases n
  {
    if n == 0 then d else Shr(d / 2, n - 1)
  }

  lemma {:induction false} ShlGrows(d: int, n: nat)
    ensures d >= 0 ==> Shl(d, n) >= d
    ensures d <= 0 ==> Shl(d, n) <= d
  {
    if n > 0 {
      ShlGrows(d, n - 1);
    }
  }

  // Shifting left and back is the identity.
  lemma {:induction false} ShrOfShl(d: int, n: nat)
    ensures Shr(Shl(d, n), n) == d
  {
    if n > 0 {
      ShrOfShl(d, n - 1);
    }
  }

  // Shifting right and back loses less than 2^n.
  lemma {:induction false} ShlOfShr(d: int, n: nat)
    ensures Shl(Shr(d, n), n) <= d < Shl(Shr(d, n), n) + Pow2(n)
    decreases n
  {
    if n > 0 {
      ShlOfShr(d / 2, n - 1);
    }
  }

  function Bit(b: bool): nat {
    if b then 1 else 0
  }

  // The number that a bit string denotes.
  function Value(b: Bits): nat {
    if b == [] then 0 else 2 * Value(b[..|b| - 1]) + Bit(b[|b| - 1])
  }

  function Zeros(n: nat): (b: Bits)
    ensures |b| == n && forall i :: 0 <= i < n ==> !b[i]
  {
    seq(n, _ => false)
  }

  // v in n bits, modulo 2^n.
  function ToBits(v: nat, n: nat): (b: Bits)
    ensures |b| == n
  {
    if n == 0 then [] else ToBits(v / 2, n - 1) + [v % 2 == 1]
  }

  // ----- Word operators

  function ShiftRight(w: Word, k: nat): Word
    requires k <= 32
  {
    Zeros(k) + w[..32 - k]
  }

  function ShiftLeft(w: Word, k: nat): Word
    requires k <= 32
  {
    w[k..] + Zeros(k)
  }

  function Or(a: Word, b: Word): Word {
    seq(32, i requires 0 <= i < 32 => a[i] || b[i])
  }

  // ----- Values

  lemma {:induction false} PowersAdd(a: nat, b: nat)
    ensures Pow2(a + b) == Pow2(a) * Pow2(b)
  {
    if b > 0 {
      PowersAdd(a, b - 1);
    }
  }

  lemma {:induction false} PowersGrow(a: nat, b: nat)
    requires a <= b
    ensures Pow2(a) <= Pow2(b) && (a < b ==> Pow2(a) < Pow2(b))
  {
    if a < b {
      PowersGrow(a, b - 1);
    }
  }

  lemma WordPowers()
    ensures Pow2(16) == 0x1_0000 && Pow2(31) == 0x8000_0000 && Pow2(32) == 0x1_0000_0000
  {
    assert Pow2(8) == 0x100;
    PowersAdd(8, 8);
    PowersAdd(16, 16);
  }

  lemma {:induction false} ValueBound(b: Bits)
    ensures Value(b) < Pow2(|b|)
  {
    if b != [] {
      ValueBound(b[..|b| - 1]);
    }
  }

  lemma {:induction false} ValueAppend(a: Bits, b: Bits)
    ensures Value(a + b) == Value(a) * Pow2(|b|) + Value(b)
  {
    if b == [] {
      assert a + b == a;
    } else {
      var c := b[..|b| - 1];
      ValueAppend(a, c);
      assert (a + b)[..|a + b| - 1] == a + c;
      assert Value(a) * Pow2(|b|) == 2 * (Value(a) * Pow2(|c|));
    }
  }

  lemma {:induction false} ValueZeros(n: nat)
    ensures Value(Zeros(n)) == 0
  {
    if n > 0 {
      ValueZeros(n - 1);
      assert Zeros(n)[..n - 1] == Zeros(n - 1);
    }
  }

  lemma ValueLeadingZeros(n: nat, b: Bits)
    ensures Value(Zeros(n) + b) == Value(b)
  {
    ValueAppend(Zeros(n), b);
    ValueZeros(n);
  }

  lemma HalfAndBit(v: nat, x: bool)
    ensures (2 * v + Bit(x)) / 2 == v && ((2 * v + Bit(x)) % 2 == 1 <==> x)
  {
  }

  // One more digit.
  lemma ValueOfNext(b: Bits, x: bool)
    ensures Value(b + [x]) == 2 * Value(b) + Bit(x)
  {
    assert (b + [x])[..|b|] == b;
  }

  // A number below 2^n without its last digit.
  lemma LastDigit(v: nat, n: nat) returns (h: nat, x: bool)
    requires n > 0
    ensures h == v / 2 && 2 * h + Bit(x) == v && (v < Pow2(n) ==> h < Pow2(n - 1))
    ensures ToBits(v, n) == ToBits(h, n - 1) + [x]
  {
    h, x := v / 2, v % 2 == 1;
  }

  lemma {:induction false} ToBitsInverse(b: Bits)
    ensures ToBits(Value(b), |b|) == b
  {
    if b != [] {
      var a, x := b[..|b| - 1], b[|b| - 1];
      ToBitsInverse(a);
      HalfAndBit(Value(a), x);
      assert b == a + [x];
    }
  }

  lemma {:induction false} ValueToBits(v: nat, n: nat)
    requires v < Pow2(n)
    ensures Value(ToBits(v, n)) == v
  {
    hide Pow2, ToBits, Value, Bit;
    if n > 0 {
      var h, x := LastDigit(v, n);
      ValueToBits(h, n - 1);
      ValueOfNext(ToBits(h, n - 1), x);
    } else {
      ValueOfNone(v);
    }
  }

  lemma ValueOfNone(v: nat)
    ensures Value(ToBits(v, 0)) == 0 && Pow2(0) == 1
  {
  }

  // A number is its upper part shifted up plus its lowest n bits.
  lemma {:induction false} HighAndLow(v: nat, n: nat)
    ensures Shl(Shr(v, n), n) + Value(ToBits(v, n)) == v
  {
    hide ToBits, Value, Bit;
    if n > 0 {
      var h, x := LastDigit(v, n);
      HighAndLow(h, n - 1);
      ValueOfNext(ToBits(h, n - 1), x);
    } else {
      ValueOfNone(v);
    }
  }

  // The word operators are the arithmetic ones: logical right shift divides, left shift multiplies
  // modulo 2^32.
  lemma ShiftRightDivides(w: Word, k: nat)
    requires k <= 32
    ensures Value(ShiftRight(w, k)) == Value(w) / Pow2(k)
  {
    var hi, lo := w[..32 - k], w[32 - k..];
    assert w == hi + lo;
    ValueAppend(hi, lo);
    ValueBound(lo);
    ValueLeadingZeros(k, hi);
    DivideUnique(Value(w), Pow2(k), Value(hi), Value(lo));
  }

  lemma ShiftLeftMultiplies(w: Word, k: nat)
    requires k <= 32
    ensures Value(ShiftLeft(w, k)) == Value(w) * Pow2(k) % Pow2(32)
  {
    hide Value, Pow2;
    var hi, lo := w[..k], w[k..];
    assert w == hi + lo;
    ValueAppend(hi, lo);
    ValueAppend(lo, Zeros(k));
    ValueZeros(k);
    ValueBound(ShiftLeft(w, k));
    PowersAdd(32 - k, k);
    LowPart(Value(hi), Value(lo), Pow2(32 - k), Pow2(k), Pow2(32));
  }

  lemma LowPart(h: nat, l: nat, p: nat, q: nat, m: nat)
    requires m == p * q && l * q < m
    ensures ((h * p + l) * q) % m == l * q
  {
    assert (h * p + l) * q == h * m + l * q;
    DivideUnique((h * p + l) * q, m, h, l * q);
  }

  lemma {:induction false} MultipleAtLeast(a: nat, b: nat, d: nat)
    requires a < b
    ensures a * d + d <= b * d
  {
    assert b * d == a * d + (b - a) * d;
    assert (b - a - 1) * d >= 0;
    assert (b - a) * d == (b - a - 1) * d + d;
  }

  lemma QuotientUnique(d: nat, p: nat, s: nat, q: nat, r: nat)
    requires s < d && r < d && p * d + s == q * d + r
    ensures p == q && r == s
  {
    if p < q {
      MultipleAtLeast(p, q, d);
    } else if q < p {
      MultipleAtLeast(q, p, d);
    }
  }

  lemma DivideUnique(x: nat, d: nat, q: nat, r: nat)
    requires d > 0 && x == q * d + r && r < d
    ensures x / d == q && x % d == r
  {
    var p, s := x / d, x % d;
    assert x == p * d + s;
    QuotientUnique(d, p, s, q, r);
  }
}
