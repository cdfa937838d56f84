// The two-word bit reader: it refines a flat list of bits.
module BitReader {
  import opened Bits
  import opened ExpGolomb
  import Sequences

  // The k-th word of the delivered bytes, first byte on top.
  function WordAt(bytes: seq<Byte>, k: nat): Word
    requires 4 * k + 4 <= |bytes|
  {
    Join(bytes[4 * k], bytes[4 * k + 1], bytes[4 * k + 2], bytes[4 * k + 3])
  }

  function Join(b0: Bits, b1: Bits, b2: Bits, b3: Bits): Bits {
    b0 + b1 + b2 + b3
  }

  // The bits of the words from position `from` on.
  function Concat(words: seq<Word>, from: nat): (b: Bits)
    requires from <= |words|
    ensures |b| == 32 * (|words| - from)
    decreases |words| - from
  {
    if from == |words| then [] else words[from] + Concat(words, from + 1)
  }

  // All words that the bytes make up.
  function WordsOf(bytes: seq<Byte>, count: nat): (w: seq<Word>)
    requires 4 * count <= |bytes|
    ensures |w| == count && forall k :: 0 <= k < count ==> w[k] == WordAt(bytes, k)
  {
    seq(count, k requires 0 <= k < count => WordAt(bytes, k))
  }

  // The bits of the words are those of the bytes, one byte after the other.
  lemma {:induction false} WordsAreBytes(bytes: seq<Byte>, count: nat, k: nat)
    requires k <= count && 4 * count <= |bytes|
    ensures Concat(WordsOf(bytes, count), k) == Sequences.Concat(bytes[4 * k..4 * count])
    decreases count - k
  {
    hide Sequences.Concat, Join;
    if k < count {
      WordsAreBytes(bytes, count, k + 1);
      WordIsBytes(bytes, k);
      Sequences.ConcatSplit(bytes[4 * k..4 * k + 4], bytes[4 * k + 4..4 * count]);
      assert bytes[4 * k..4 * count] == bytes[4 * k..4 * k + 4] + bytes[4 * k + 4..4 * count];
    } else {
      Sequences.ConcatNone(bytes);
      assert bytes[4 * k..4 * count] == bytes[..0];
    }
  }

  lemma WordIsBytes(bytes: seq<Byte>, k: nat)
    requires 4 * k + 4 <= |bytes|
    ensures WordAt(bytes, k) == Sequences.Concat(bytes[4 * k..4 * k + 4])
  {
    var a, b, c, d := bytes[4 * k], bytes[4 * k + 1], bytes[4 * k + 2], bytes[4 * k + 3];
    Sequences.ConcatFour(a, b, c, d);
    assert bytes[4 * k..4 * k + 4] == [a, b, c, d];
  }

  // The number of words that a buffer of `size` bytes makes the reader load.
  function WordCount(size: nat): nat {
    (size + 3) / 4
  }

  // A read inside one word: w with c bits consumed.
  lemma ReadWithin(w: Word, c: nat, n: nat)
    requires c + n <= 32
    ensures Value(ShiftRight(ShiftLeft(w, c), 32 - n)) == Value(w[c..c + n])
    ensures ShiftLeft(ShiftLeft(w, c), n) == ShiftLeft(w, c + n)
  {
    assert ShiftLeft(w, c)[..n] == w[c..c + n];
    ValueLeadingZeros(32 - n, w[c..c + n]);
    assert ShiftLeft(ShiftLeft(w, c), n) == ShiftLeft(w, c + n);
  }

  // A read across a word boundary: the rest of w and the first m bits of x.
  lemma ReadAcross(w: Word, x: Word, c: nat, n: nat)
    requires c <= 32 && n <= 32 < c + n
    ensures var m := c + n - 32;
      Value(Or(ShiftRight(ShiftLeft(w, c), 32 - n), ShiftRight(x, 32 - m))) == Value(w[c..] + x[..m])
  {
    var m := c + n - 32;
    var b := w[c..] + x[..m];
    assert Or(ShiftRight(ShiftLeft(w, c), 32 - n), ShiftRight(x, 32 - m)) == Zeros(32 - n) + b;
    ValueLeadingZeros(32 - n, b);
  }

  // The same for the flat list of unread bits.
  lemma SplitInside(w: Word, more: Bits, c: nat, n: nat)
    requires c + n <= 32
    ensures (w[c..] + more)[..n] == w[c..c + n] && (w[c..] + more)[n..] == w[c + n..] + more
  {
  }

  lemma SplitAcross(w: Word, x: Word, most: Bits, c: nat, n: nat)
    requires c <= 32 && n <= 32 < c + n
    ensures var m := c + n - 32;
      && (w[c..] + (x + most))[..n] == w[c..] + x[..m]
      && (w[c..] + (x + most))[n..] == x[m..] + most
  {
  }

  lemma BoundaryRead(w: Word, x: Word, most: Bits, c: nat, n: nat, rest: Bits)
    requires c <= 32 && n <= 32 < c + n && rest == w[c..] + (x + most)
    ensures var m := c + n - 32;
      && Value(Or(ShiftRight(ShiftLeft(w, c), 32 - n), ShiftRight(x, 32 - m))) == Value(rest[..n])
      && rest[n..] == x[m..] + most
  {
    ReadAcross(w, x, c, n);
    SplitAcross(w, x, most, c, n);
  }

  // Shifting four bytes in one after the other makes the word.
  lemma BytesMakeWord(c0: Byte, c1: Byte, c2: Byte, c3: Byte)
    ensures var r := ShiftLeft(Or(ShiftLeft(Or(ShiftLeft(Zeros(24) + c0, 8), Zeros(24) + c1), 8), Zeros(24) + c2), 8);
      Or(r, Zeros(24) + c3) == Join(c0, c1, c2, c3)
  {
    var r1 := ShiftLeft(Zeros(24) + c0, 8);
    var r2 := ShiftLeft(Or(r1, Zeros(24) + c1), 8);
    assert r2 == Join(Zeros(8), c0, c1, Zeros(8));
    var r3 := ShiftLeft(Or(r2, Zeros(24) + c2), 8);
    assert r3 == Join(c0, c1, c2, Zeros(8));
  }

  lemma SuffixSlices(b: Bits, k: nat)
    requires 2 * k + 1 <= |b|
    ensures b[k + 1..][..k] == b[k + 1..2 * k + 1] && b[k + 1..][k..] == b[2 * k + 1..]
  {
  }

  lemma Behind(b: Bits, i: nat)
    requires i < |b|
    ensures b[i..] != [] && b[i..][0] == b[i] && b[i..][1..] == b[i + 1..]
  {
  }

  // The one-bit codeword.
  lemma UeOfOne(b: Bits)
    requires b != [] && b[0]
    ensures LeadingZeros(b) == 0 && UeLength(b) == 1 && UeValue(b) == 0
  {
    assert b[1..1] == [];
  }

  // The sign convention of readSvlc is that of the code numbers.
  lemma SignOfLowBit(bits: nat)
    requires bits >= 1
    ensures SeOf(bits - 1) == if bits % 2 == 1 then -(bits / 2) else bits / 2
  {
  }

  class Reader {
    var bufferA: Word
    var bufferB: Word
    var readBytes: nat
    var readBits: nat
    const bytes: seq<Byte>  // the bytes that loadChar delivers, up to the end of the last word
    const size: nat
    ghost const words: seq<Word>  // the words that `size` bytes make the reader load
    ghost var current: nat  // the index of the word in bufferA

    // The words are those of the bytes.
    ghost predicate Delivered() {
      && size <= 4 * |words| < size + 4 && 4 * |words| <= |bytes|
      && words == WordsOf(bytes, |words|)
    }

    // bufferA holds the unread part of the current word, bufferB the word behind it.
    ghost predicate Valid()
      reads this
    {
      && readBits <= 32
      && Delivered()
      && (0 < |words| ==>
            && current < |words|
            && bufferA == ShiftLeft(words[current], readBits)
            && readBytes == 4 * (if current + 2 <= |words| then current + 2 else |words|)
            && (current + 1 < |words| ==> bufferB == words[current + 1]))
    }

    // The bits still to be read.
    ghost function Rest(): Bits
      reads this
      requires Valid()
    {
      if |words| == 0 then [] else words[current][readBits..] + Concat(words, current + 1)
    }

    // setBuffer.
    constructor (bytes: seq<Byte>, size: nat)
      requires 4 * WordCount(size) <= |bytes|
      ensures Valid() && this.bytes == bytes && this.size == size
      ensures Rest() == Sequences.Concat(bytes[..4 * WordCount(size)])
    {
      hide Sequences.Concat, Join, WordAt;
      WordsAreBytes(bytes, WordCount(size), 0);
      assert bytes[0..4 * WordCount(size)] == bytes[..4 * WordCount(size)];
      this.bytes, this.size, this.words := bytes, size, WordsOf(bytes, WordCount(size));
      readBytes, readBits, current := 0, 0, 0;
      bufferA, bufferB := Zeros(32), Zeros(32);
      new;
      var a := LoadBuffer(bufferA, 0);
      bufferA := a;
      var b := LoadBuffer(bufferB, 1);
      bufferB := b;
      if 0 < |words| {
        assert ShiftLeft(words[0], 0) == words[0] && words[0][0..] == words[0];
      }
    }

    method LoadChar() returns (c: Byte)
      requires readBytes < |bytes|
      modifies this`readBytes
      ensures c == bytes[old(readBytes)] && readBytes == old(readBytes) + 1
    {
      c := bytes[readBytes];
      readBytes := readBytes + 1;
    }

    // Refills a buffer with the next word; past the end it stays as it is.
    method LoadBuffer(buffer: Word, ghost k: nat) returns (r: Word)
      requires Delivered() && (readBytes < size ==> readBytes == 4 * k && k < |words|)
      modifies this`readBytes
      ensures readBytes == old(readBytes) + (if old(readBytes) < size then 4 else 0)
      ensures r == if old(readBytes) < size then words[k] else buffer
    {
      r := buffer;
      if readBytes < size {
        var c0 := LoadChar();
        r := ShiftLeft(Zeros(24) + c0, 8);
        var c1 := LoadChar();
        r := ShiftLeft(Or(r, Zeros(24) + c1), 8);
        var c2 := LoadChar();
        r := ShiftLeft(Or(r, Zeros(24) + c2), 8);
        var c3 := LoadChar();
        r := Or(r, Zeros(24) + c3);
        BytesMakeWord(c0, c1, c2, c3);
      }
    }

    // A read that stays inside the current word.
    method ReadInside(n: nat) returns (v: nat)
      requires Valid() && 1 <= n <= 31 && readBits + n <= 32 && 0 < |words|
      modifies this`readBits, this`bufferA
      ensures Valid()
      ensures v == Value(old(Rest())[..n]) && Rest() == old(Rest())[n..]
    {
      ghost var w, more, c := words[current], Concat(words, current + 1), readBits;
      ReadWithin(w, c, n);
      SplitInside(w, more, c, n);
      readBits := readBits + n;
      v := Value(ShiftRight(bufferA, 32 - n));
      bufferA := ShiftLeft(bufferA, n);
    }

    // Moves on to the next word and consumes its first m bits.
    method NextWord(m: nat)
      requires Valid() && m <= 31 && current + 1 < |words|
      modifies this
      ensures Valid()
      ensures Rest() == words[old(current) + 1][m..] + Concat(words, old(current) + 2)
    {
      readBits := m;
      bufferA := bufferB;
      var b := LoadBuffer(bufferB, current + 2);
      bufferB := b;
      bufferA := ShiftLeft(bufferA, readBits);
      current := current + 1;
    }

    // A read that takes the rest of the current word and the head of the next one.
    method ReadOver(n: nat) returns (v: nat)
      requires Valid() && 1 <= n <= 32 && 32 < readBits + n && readBits + n < 64 && current + 1 < |words|
      modifies this
      ensures Valid()
      ensures v == Value(old(Rest())[..n]) && Rest() == old(Rest())[n..]
    {
      var m := readBits + n - 32;
      ghost var rest := Rest();
      ghost var x, most := words[current + 1], Concat(words, current + 2);
      assert rest == words[current][readBits..] + (x + most);
      BoundaryRead(words[current], x, most, readBits, n, rest);
      v := Value(Or(ShiftRight(bufferA, 32 - n), ShiftRight(bufferB, 32 - m)));
      NextWord(m);
    }

    // The next n bits as a number; 32 of them only across a word boundary.
    method Read(n: nat) returns (v: nat)
      requires Valid() && 1 <= n <= 32 && n <= |Rest()| && (n == 32 ==> 0 < readBits < 32)
      modifies this
      ensures Valid()
      ensures v == Value(old(Rest())[..n]) && Rest() == old(Rest())[n..]
    {
      if readBits + n <= 32 {
        v := ReadInside(n);
      } else {
        v := ReadOver(n);
      }
    }

    // The next bit.
    method ReadFlag() returns (v: nat)
      requires Valid() && 1 <= |Rest()|
      modifies this
      ensures Valid() && v == Bit(old(Rest())[0]) && Rest() == old(Rest())[1..]
    {
      BitValue(Rest());
      v := Read(1);
    }

    // The prefix loop of readUvlc and readSvlc, after a first zero bit: its length.
    method ReadPrefix(ghost b: Bits) returns (length: nat)
      requires Valid() && UeReady(b, 30) && 1 <= LeadingZeros(b) && Rest() == b[1..]
      modifies this
      ensures Valid() && length == LeadingZeros(b) && Rest() == b[length + 1..]
    {
      hide Valid, Rest;
      var code := 0;
      length := 0;
      while code % 2 == 0
        invariant Valid() && length <= LeadingZeros(b)
        invariant code == (if length == LeadingZeros(b) then 1 else 0)
        invariant Rest() == b[length + 1..]
        decreases LeadingZeros(b) - length
      {
        Behind(b, length + 1);
        code := ReadFlag();
        length := length + 1;
      }
    }

    // The codeword behind a first zero bit: the prefix length and the number in the suffix.
    method ReadSuffix(ghost b: Bits) returns (length: nat, x: nat)
      requires Valid() && UeReady(b, 30) && 1 <= LeadingZeros(b) && Rest() == b[1..]
      modifies this
      ensures Valid() && length == LeadingZeros(b)
      ensures x == Value(b[length + 1..2 * length + 1]) && Rest() == b[UeLength(b)..]
    {
      hide Valid, Rest;
      length := ReadPrefix(b);
      SuffixSlices(b, length);
      x := Read(length);
    }

    method ReadUvlc() returns (v: nat)
      requires Valid() && UeReady(Rest(), 30)
      modifies this
      ensures Valid()
      ensures v == UeValue(old(Rest())) && Rest() == old(Rest())[UeLength(old(Rest()))..]
    {
      hide Valid, Rest;
      ghost var b := Rest();
      v := 0;
      var code := ReadFlag();
      if code == 0 {
        var length, x := ReadSuffix(b);
        v := x + (Pow2(length) - 1);
      } else {
        UeOfOne(b);
      }
    }

    method ReadSvlc() returns (v: int)
      requires Valid() && UeReady(Rest(), 30)
      modifies this
      ensures Valid()
      ensures v == SeValue(old(Rest())) && Rest() == old(Rest())[UeLength(old(Rest()))..]
    {
      hide Valid, Rest;
      ghost var b := Rest();
      var bits := ReadFlag();
      if bits == 0 {
        var length, x := ReadSuffix(b);
        bits := x + Pow2(length);
        SignOfLowBit(bits);
        v := if bits % 2 == 1 then -(bits / 2) else bits / 2;
      } else {
        UeOfOne(b);
        v := 0;
      }
    }
  }
}
