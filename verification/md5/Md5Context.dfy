// The streaming interface: for every way to cut a message into updates, the digest is that of the message.
module Md5Context {
  import opened Bits
  import opened Md5Spec
  import opened Md5Transform
  import opened Sequences

  // ----- Messages and blocks

  lemma {:induction false} DigestedPrefix(m: seq<Byte>, more: seq<Byte>, n: nat)
    requires 64 * n <= |m|
    ensures Digested(m + more, n) == Digested(m, n)
  {
    hide Compress, Initial;
    if n > 0 {
      DigestedPrefix(m, more, n - 1);
      assert (m + more)[64 * (n - 1)..64 * n] == m[64 * (n - 1)..64 * n];
    }
  }

  lemma DigestedStep(all: seq<Byte>, n: nat, block: seq<Byte>)
    requires 64 * n + 64 <= |all| && block == all[64 * n..64 * n + 64]
    ensures |block| == 64 && Digested(all, n + 1) == Compress(Digested(all, n), WordsOf(block))
  {
    hide Compress, Initial, WordsOf;
  }

  // The number of full blocks, and the bytes behind them.
  function Blocks(m: seq<Byte>): (n: nat)
    ensures 64 * n <= |m| < 64 * n + 64
  {
    |m| / 64
  }

  function Tail(m: seq<Byte>): (t: seq<Byte>)
    ensures |t| == |m| % 64
  {
    m[64 * Blocks(m)..]
  }

  lemma BlocksUnique(m: seq<Byte>, n: nat)
    requires 64 * n <= |m| < 64 * n + 64
    ensures Blocks(m) == n && Tail(m) == m[64 * n..]
  {
  }

  // An update that stays inside the block.
  lemma StaysInside(m: seq<Byte>, data: seq<Byte>)
    requires |Tail(m)| + |data| < 64
    ensures Blocks(m + data) == Blocks(m) && Tail(m + data) == Tail(m) + data
  {
    BlocksUnique(m + data, Blocks(m));
  }

  // An update that fills the block.
  lemma FillsBlock(m: seq<Byte>, data: seq<Byte>, room: nat)
    requires |Tail(m)| + room == 64 && room <= |data|
    ensures var n, all := Blocks(m), m + data;
      64 * n + 64 <= |all| && all[64 * n..64 * n + 64] == Tail(m) + data[..room] && all[64 * (n + 1)..] == data[room..]
  {
    var k := 64 * Blocks(m);
    assert m == m[..k] + Tail(m);
    hide Blocks, Tail;
    BlockOut(m[..k], Tail(m), data, m + data, k, room);
  }

  lemma BlockOut(head: seq<Byte>, tail: seq<Byte>, data: seq<Byte>, all: seq<Byte>, k: nat, room: nat)
    requires all == (head + tail) + data && |head| == k && |tail| + room == 64 && room <= |data|
    ensures k + 64 <= |all| && all[k..k + 64] == tail + data[..room] && all[k + 64..] == data[room..]
  {
    assert all[k..] == tail + data;
  }

  lemma StartsBlock(m: seq<Byte>, data: seq<Byte>)
    requires Tail(m) == []
    ensures 64 * Blocks(m) <= |m + data| && (m + data)[64 * Blocks(m)..] == data
  {
    assert m[64 * Blocks(m)..] == [];
  }

  // ----- The bit counter

  // The two words of the counter after a number of bytes.
  ghost predicate Counts(low: nat, high: nat, length: nat) {
    low == 8 * length % 0x1_0000_0000 && high == 8 * length / 0x1_0000_0000 % 0x1_0000_0000
  }

  lemma LowWordTellsPosition(length: nat)
    ensures (8 * length % 0x1_0000_0000) / 8 % 64 == length % 64
  {
    var q, low := 8 * length / 0x1_0000_0000, 8 * length % 0x1_0000_0000;
    assert 8 * length == 0x1_0000_0000 * q + low;
    EighthOf(low, length - 0x2000_0000 * q);
    RemainderOf(length, 0x80_0000 * q, low / 8);
  }

  lemma EighthOf(low: nat, x: nat)
    requires low == 8 * x
    ensures low / 8 == x
  {
  }

  lemma RemainderOf(a: nat, k: nat, b: nat)
    requires a == 64 * k + b
    ensures b % 64 == a % 64
  {
  }

  // Adding with a carry from the low to the high word.
  lemma CarryCounts(low: nat, high: nat, length: nat, len: nat, sum: nat, carry: nat)
    requires Counts(low, high, length) && len < 0x1_0000_0000
    requires sum == (low + 8 * len % 0x1_0000_0000) % 0x1_0000_0000 && carry == if sum < low then 1 else 0
    ensures Counts(sum, ((high + carry) % 0x1_0000_0000 + len / 0x2000_0000) % 0x1_0000_0000, length + len)
  {
    var q, r, a := 8 * length / 0x1_0000_0000, len / 0x2000_0000, 8 * len % 0x1_0000_0000;
    HighPart(len);
    Parts(8 * length);
    Wraps(low, a, sum, carry);
    QuotientOf(8 * (length + len), q + r + carry, sum);
    HighWord(q, carry, r);
  }

  // A sum of two words has wrapped if and only if it is less than either of them.
  lemma Wraps(low: nat, a: nat, sum: nat, carry: nat)
    requires low < 0x1_0000_0000 && a < 0x1_0000_0000
    requires sum == (low + a) % 0x1_0000_0000 && carry == if sum < low then 1 else 0
    ensures sum == low + a - 0x1_0000_0000 * carry
  {
  }

  lemma Parts(x: nat)
    ensures x == 0x1_0000_0000 * (x / 0x1_0000_0000) + x % 0x1_0000_0000
  {
  }

  lemma HighPart(len: nat)
    ensures 8 * len == 0x1_0000_0000 * (len / 0x2000_0000) + 8 * len % 0x1_0000_0000
  {
    var r, x := len / 0x2000_0000, len % 0x2000_0000;
    assert len == 0x2000_0000 * r + x;
    QuotientOf(8 * len, r, 8 * x);
  }

  lemma QuotientOf(x: nat, q: nat, r: nat)
    requires x == 0x1_0000_0000 * q + r && r < 0x1_0000_0000
    ensures x / 0x1_0000_0000 == q && x % 0x1_0000_0000 == r
  {
  }

  lemma HighWord(q: nat, carry: nat, r: nat)
    ensures ((q % 0x1_0000_0000 + carry) % 0x1_0000_0000 + r) % 0x1_0000_0000 == (q + r + carry) % 0x1_0000_0000
  {
    ModAdd(carry, q, 0x1_0000_0000);
    ModAdd(r, q % 0x1_0000_0000 + carry, 0x1_0000_0000);
    ModAdd(carry + r, q, 0x1_0000_0000);
  }

  // The first n bytes of a stretch replaced.
  function Patched(s: seq<Byte>, at: nat, data: seq<Byte>, from: nat, n: nat): (p: seq<Byte>)
    requires at + n <= |s| && from + n <= |data|
    ensures |p| == |s|
  {
    seq(|s|, j requires 0 <= j < |s| => if at <= j < at + n then data[from + j - at] else s[j])
  }

  lemma NothingPatched(s: seq<Byte>, at: nat, data: seq<Byte>, from: nat)
    requires at <= |s| && from <= |data|
    ensures Patched(s, at, data, from, 0) == s
  {
  }

  lemma OnePatched(s: seq<Byte>, at: nat, data: seq<Byte>, from: nat, n: nat)
    requires from + n < |data| && at + n < |s|
    ensures Patched(s, at, data, from, n + 1) == Patched(s, at, data, from, n)[at + n := data[from + n]]
  {
  }

  lemma PatchedIs(s: seq<Byte>, at: nat, data: seq<Byte>, from: nat, n: nat)
    requires at + n <= |s| && from + n <= |data|
    ensures Patched(s, at, data, from, n) == s[..at] + data[from..from + n] + s[at + n..]
  {
  }

  class Context {
    const buf: array<Word>
    const bits: array<nat>
    const input: array<Byte>
    ghost var message: seq<Byte>  // the bytes of all updates

    ghost predicate Shape() {
      buf.Length == 4 && bits.Length == 2 && input.Length == 64 && buf as object != input as object
    }

    ghost predicate Valid()
      reads this, buf, bits, input
    {
      Shape() && Counts(bits[0], bits[1], |message|) &&
      Absorbed(message)
    }

    // The chain has the full blocks of a message, and the input what is behind them.
    ghost predicate Absorbed(m: seq<Byte>)
      requires Shape()
      reads buf, input
    {
      ChainOf(buf) == Digested(m, Blocks(m)) && input[..|Tail(m)|] == Tail(m)
    }

    constructor ()
      ensures Shape() && fresh(buf) && fresh(bits) && fresh(input)
    {
      buf := new Word[4];
      bits := new nat[2];
      input := new Byte[64];
      message := [];
    }

    // MD5Init.
    method Init()
      requires Shape()
      modifies this`message, buf, bits
      ensures Valid() && message == []
    {
      hide WordOf, Initial, Counts, Absorbed, Tail, Blocks;
      InitialWords();
      buf[0] := WordOf(0x67452301);
      buf[1] := WordOf(0xefcdab89);
      buf[2] := WordOf(0x98badcfe);
      buf[3] := WordOf(0x10325476);
      bits[0], bits[1] := 0, 0;
      message := [];
      Initialised();
    }

    lemma Initialised()
      requires Shape() && message == [] && bits[0] == 0 && bits[1] == 0 && ChainOf(buf) == Initial()
      ensures Valid()
    {
      hide Initial, WordOf;
    }

    // The counter part of MD5Update; it returns the low word from before.
    method CountBits(len: nat, ghost length: nat) returns (t: nat)
      requires Shape() && len < 0x1_0000_0000 && Counts(bits[0], bits[1], length)
      modifies bits
      ensures Counts(bits[0], bits[1], length + len) && t == old(bits[0])
    {
      hide Counts;
      t := bits[0];
      ghost var high, carry := bits[1], 0;
      CountsWords(t, high, length);
      bits[0] := (t + 8 * len % 0x1_0000_0000) % 0x1_0000_0000;
      if bits[0] < t {
        carry := 1;
        bits[1] := (bits[1] + 1) % 0x1_0000_0000;
      }
      assert bits[1] == (high + carry) % 0x1_0000_0000;
      bits[1] := (bits[1] + len / 0x2000_0000) % 0x1_0000_0000;
      CarryCounts(t, high, length, len, bits[0], carry);
    }

    lemma CountsWords(low: nat, high: nat, length: nat)
      requires Counts(low, high, length)
      ensures high == high % 0x1_0000_0000
    {
    }

    // memcpy into the block.
    method Copy(at: nat, data: seq<Byte>, from: nat, count: nat)
      requires Shape() && at + count <= 64 && from + count <= |data|
      modifies input
      ensures input[..] == old(input[..])[..at] + data[from..from + count] + old(input[..])[at + count..]
    {
      ghost var before := input[..];
      NothingPatched(before, at, data, from);
      hide Patched;
      for i := 0 to count
        invariant input[..] == Patched(before, at, data, from, i)
      {
        ghost var b := input[..];
        OnePatched(before, at, data, from, i);
        input[at + i] := data[from + i];
        assert input[..] == b[at + i := data[from + i]];
      }
      PatchedIs(before, at, data, from, count);
    }

    // A full block goes into the chain.
    method Absorb(ghost all: seq<Byte>, ghost n: nat)
      requires Shape() && 64 * n + 64 <= |all| && input[..] == all[64 * n..64 * n + 64]
      requires ChainOf(buf) == Digested(all, n)
      modifies buf
      ensures ChainOf(buf) == Digested(all, n + 1)
    {
      DigestedStep(all, n, input[..]);
      hide *;
      Transform(buf, WordsOf(input[..]));
    }

    // The loop of MD5Update over full blocks, and the rest behind them.
    method AbsorbRest(data: seq<Byte>, from: nat, ghost all: seq<Byte>, ghost n: nat)
      requires Shape() && from <= |data| && 64 * n <= |all| && data[from..] == all[64 * n..]
      requires ChainOf(buf) == Digested(all, n)
      modifies buf, input
      ensures Absorbed(all)
    {
      hide Digested, ChainOf, Blocks, Tail, Absorbed;
      var pos := from;
      ghost var k: nat := n;
      while |data| - pos >= 64
        invariant pos <= |data| && 64 * k <= |all| && data[pos..] == all[64 * k..]
        invariant ChainOf(buf) == Digested(all, k)
      {
        Slices(data, pos, all, 64 * k);
        Copy(0, data, pos, 64);
        Absorb(all, k);
        pos := pos + 64;
        k := k + 1;
      }
      BlocksUnique(all, k);
      Copy(0, data, pos, |data| - pos);
      AbsorbedNow(all, k);
    }

    lemma AbsorbedNow(m: seq<Byte>, n: nat)
      requires Shape() && n == Blocks(m) && ChainOf(buf) == Digested(m, n) && input[..|Tail(m)|] == Tail(m)
      ensures Absorbed(m)
    {
    }

    // MD5Update.
    method Update(data: seq<Byte>)
      requires Valid() && |data| < 0x1_0000_0000
      modifies this`message, buf, bits, input
      ensures Valid() && message == old(message) + data
    {
      hide *;
      ghost var m, all, n := message, message + data, Blocks(message);
      Before(data);
      var t := CountBits(|data|, |m|);
      message := all;
      Continue(data, t / 8 % 64, m, all, n);
      After(all);
    }

    // What an update starts from.
    lemma Before(data: seq<Byte>)
      requires Valid()
      ensures Shape() && bits.Length == 2
      ensures Counts(bits[0], bits[1], |message|) && bits[0] / 8 % 64 == |Tail(message)|
      ensures 64 * Blocks(message) <= |message| && ChainOf(buf) == Digested(message + data, Blocks(message))
      ensures input[..|Tail(message)|] == Tail(message)
    {
      hide Digested, ChainOf;
      DigestedPrefix(message, data, Blocks(message));
      LowWordTellsPosition(|message|);
    }

    lemma After(all: seq<Byte>)
      requires Shape() && message == all && Counts(bits[0], bits[1], |all|) && Absorbed(all)
      ensures Valid()
    {
    }

    // The part of MD5Update behind the counter, with t bytes already in the block.
    method Continue(data: seq<Byte>, t: nat, ghost m: seq<Byte>, ghost all: seq<Byte>, ghost n: nat)
      requires Shape() && all == m + data && n == Blocks(m) && t == |Tail(m)| && 64 * n <= |all|
      requires input[..t] == Tail(m) && ChainOf(buf) == Digested(all, n)
      modifies buf, input
      ensures Absorbed(all)
    {
      hide Digested, ChainOf, Blocks, Absorbed;
      assert t < 64;
      hide Tail;
      if t != 0 {
        var room := 64 - t;
        if |data| < room {
          StaysInside(m, data);
          Copy(t, data, 0, |data|);
          AbsorbedNow(all, n);
          return;
        }
        FillsBlock(m, data, room);
        Copy(t, data, 0, room);
        Absorb(all, n);
        AbsorbRest(data, room, all, n + 1);
      } else {
        StartsBlock(m, data);
        AbsorbRest(data, 0, all, n);
      }
    }

    // memset of a part of the block.
    method Clear(from: nat, count: nat)
      requires Shape() && from + count <= 64
      modifies input
      ensures input[..] == old(input[..])[..from] + ZeroBytes(count) + old(input[..])[from + count..]
    {
      for i := 0 to count
        invariant input[..] == old(input[..])[..from] + ZeroBytes(i) + old(input[..])[from + i..]
      {
        input[from + i] := Zeros(8);
      }
    }

    // A word of the block.
    method StoreWord(k: nat, w: Word)
      requires Shape() && k < 16
      modifies input
      ensures input[..] == old(input[..])[..4 * k] + BytesOf(w) + old(input[..])[4 * k + 4..]
    {
      Copy(4 * k, BytesOf(w), 0, 4);
      assert BytesOf(w)[0..4] == BytesOf(w);
    }

    // The counter at the end of the block.
    method StoreLength(ghost length: nat, ghost front: seq<Byte>)
      requires Shape() && Counts(bits[0], bits[1], length) && |front| == 56 && input[..56] == front
      modifies input
      ensures input[..] == front + LengthBytes(length)
    {
      hide BytesOf, WordOf;
      StoreWord(14, WordOf(bits[0]));
      StoreWord(15, WordOf(bits[1]));
    }

    // MD5Final up to the output of the digest.
    method Pad()
      requires Valid()
      modifies buf, input
      ensures Shape() && ChainOf(buf) == Digested(Padded(message), PaddedCount(message))
    {
      hide *;
      BeforePad();
      PaddedBlocks(message);
      var count := bits[0] / 8 % 64;
      input[count] := FirstPadding();
      ghost var start := Tail(message) + [FirstPadding()];
      assert input[..count + 1] == start;
      var at := count + 1;
      count := 64 - 1 - count;
      if count < 8 {
        LongPad(at, count, message, start);
      } else {
        ShortPad(at, count, message, start);
      }
    }

    // Two more blocks: padding to the end of the first, and the length at the end of the second.
    method LongPad(at: nat, count: nat, ghost m: seq<Byte>, ghost start: seq<Byte>)
      requires Shape() && Counts(bits[0], bits[1], |m|) && at + count == 64 && count < 8
      requires start == Tail(m) + [FirstPadding()] && |start| == at && input[..at] == start
      requires 64 * Blocks(m) <= |Padded(m)| && ChainOf(buf) == Digested(Padded(m), Blocks(m))
      modifies buf, input
      ensures Shape() && ChainOf(buf) == Digested(Padded(m), PaddedCount(m))
    {
      hide *;
      ghost var n, all := Blocks(m), Padded(m);
      LongPadding(m);
      PaddedBlocks(m);
      ShapeIs();
      Clear(at, count);
      assert input[..] == start + ZeroBytes(count);
      Absorb(all, n);
      Clear(0, 56);
      assert input[..56] == ZeroBytes(56);
      StoreLength(|m|, ZeroBytes(56));
      Absorb(all, n + 1);
    }

    // One more block.
    method ShortPad(at: nat, count: nat, ghost m: seq<Byte>, ghost start: seq<Byte>)
      requires Shape() && Counts(bits[0], bits[1], |m|) && at + count == 64 && count >= 8
      requires start == Tail(m) + [FirstPadding()] && |start| == at && input[..at] == start
      requires 64 * Blocks(m) <= |Padded(m)| && ChainOf(buf) == Digested(Padded(m), Blocks(m))
      modifies buf, input
      ensures Shape() && ChainOf(buf) == Digested(Padded(m), PaddedCount(m))
    {
      hide *;
      ghost var n, all := Blocks(m), Padded(m);
      ShortPadding(m);
      PaddedBlocks(m);
      ShapeIs();
      Clear(at, count - 8);
      assert input[..56] == start + ZeroBytes(count - 8);
      StoreLength(|m|, start + ZeroBytes(count - 8));
      Absorb(all, n);
    }

    lemma ShapeIs()
      requires Shape()
      ensures buf.Length == 4 && bits.Length == 2 && input.Length == 64
    {
    }

    lemma BeforePad()
      requires Valid()
      ensures Shape() && buf.Length == 4 && bits.Length == 2 && input.Length == 64
      ensures Counts(bits[0], bits[1], |message|) && bits[0] / 8 % 64 == |Tail(message)| < 64
      ensures 64 * Blocks(message) <= |Padded(message)|
      ensures ChainOf(buf) == Digested(Padded(message), Blocks(message))
      ensures input[..|Tail(message)|] == Tail(message)
    {
      hide Digested, ChainOf;
      LowWordTellsPosition(|message|);
      var rest := [FirstPadding()] + ZeroBytes(ZeroCount(|message|)) + LengthBytes(|message|);
      assert Padded(message) == message + rest;
      DigestedPrefix(message, rest, Blocks(message));
    }

    // MD5Final.
    method Final() returns (digest: seq<Byte>)
      requires Valid()
      modifies buf, bits, input
      ensures Shape() && digest == Md5(message)
      ensures forall i :: 0 <= i < 4 ==> buf[i] == ZERO_WORD
      ensures bits[0] == bits[1] == 0 && input[..] == ZeroBytes(64)
    {
      hide *;
      BeforePad();
      Pad();
      digest := BytesOf(buf[0]) + BytesOf(buf[1]) + BytesOf(buf[2]) + BytesOf(buf[3]);
      OutputIs(digest);
      Wipe();
    }

    lemma OutputIs(digest: seq<Byte>)
      requires Shape() && ChainOf(buf) == Digested(Padded(message), PaddedCount(message))
      requires digest == BytesOf(buf[0]) + BytesOf(buf[1]) + BytesOf(buf[2]) + BytesOf(buf[3])
      ensures digest == Md5(message)
    {
      hide Digested, BytesOf, Padded;
    }

    // The last memset.
    method Wipe()
      requires Shape()
      modifies buf, bits, input
      ensures forall i :: 0 <= i < 4 ==> buf[i] == ZERO_WORD
      ensures bits[0] == bits[1] == 0 && input[..] == ZeroBytes(64)
    {
      buf[0], buf[1], buf[2], buf[3] := ZERO_WORD, ZERO_WORD, ZERO_WORD, ZERO_WORD;
      bits[0], bits[1] := 0, 0;
      Clear(0, 64);
    }
  }

  // The number of blocks of a padded message.
  function PaddedCount(m: seq<Byte>): (n: nat)
    ensures 64 * n <= |Padded(m)|
  {
    |Padded(m)| / 64
  }

  lemma PaddedBlocks(m: seq<Byte>)
    ensures PaddedCount(m) == Blocks(m) + (if |Tail(m)| <= 55 then 1 else 2)
  {
    if |Tail(m)| <= 55 {
      ShortPadding(m);
    } else {
      LongPadding(m);
    }
  }

  // The padding of a message with room for the length in its last block.
  lemma ShortPadding(m: seq<Byte>)
    requires |Tail(m)| <= 55
    ensures var n, all := Blocks(m), Padded(m);
      |all| == 64 * n + 64 &&
      all[64 * n..64 * n + 64] == Tail(m) + [FirstPadding()] + ZeroBytes(55 - |Tail(m)|) + LengthBytes(|m|)
  {
    assert ZeroCount(|m|) == 55 - |Tail(m)|;
  }

  // The padding of the others takes a block more.
  lemma LongPadding(m: seq<Byte>)
    requires |Tail(m)| >= 56
    ensures var n, all := Blocks(m), Padded(m);
      |all| == 64 * n + 128 &&
      all[64 * n..64 * n + 64] == Tail(m) + [FirstPadding()] + ZeroBytes(63 - |Tail(m)|) &&
      all[64 * (n + 1)..64 * (n + 1) + 64] == ZeroBytes(56) + LengthBytes(|m|)
  {
    var n, t := Blocks(m), 63 - |Tail(m)|;
    assert ZeroCount(|m|) == t + 56 && ZeroBytes(t + 56) == ZeroBytes(t) + ZeroBytes(56);
    var first, second := Tail(m) + [FirstPadding()] + ZeroBytes(t), ZeroBytes(56) + LengthBytes(|m|);
    assert m == m[..64 * n] + Tail(m);
    hide Blocks, Tail, ZeroCount, ZeroBytes, LengthBytes, FirstPadding;
    assert Padded(m) == m[..64 * n] + (first + second);
    hide Padded;
    TwoBlocks(m[..64 * n], first, second, Padded(m), 64 * n);
  }

  lemma TwoBlocks(head: seq<Byte>, first: seq<Byte>, second: seq<Byte>, all: seq<Byte>, k: nat)
    requires all == head + (first + second) && |head| == k && |first| == |second| == 64
    ensures |all| == k + 128 && all[k..k + 64] == first && all[k + 64..k + 64 + 64] == second
  {
  }

  // One context for a message in pieces.
  method Md5OfPieces(pieces: seq<seq<Byte>>) returns (digest: seq<Byte>)
    requires forall i :: 0 <= i < |pieces| ==> |pieces[i]| < 0x1_0000_0000
    ensures digest == Md5(Concat(pieces))
  {
    hide *;
    ConcatNone(pieces);
    var ctx := new Context();
    ctx.Init();
    for i := 0 to |pieces|
      invariant ctx.Valid() && ctx.message == Concat(pieces[..i])
      invariant fresh(ctx) && fresh(ctx.buf) && fresh(ctx.bits) && fresh(ctx.input)
    {
      ConcatNext(pieces, i);
      ctx.Update(pieces[i]);
    }
    assert pieces[..|pieces|] == pieces;
    digest := ctx.Final();
  }

  lemma Slices(a: seq<Byte>, p: nat, b: seq<Byte>, q: nat)
    requires p + 64 <= |a| && q <= |b| && a[p..] == b[q..]
    ensures q + 64 <= |b| && a[p..p + 64] == b[q..q + 64] && a[p + 64..] == b[q + 64..]
  {
    assert a[p..p + 64] == a[p..][..64] && b[q..q + 64] == b[q..][..64];
    assert a[p + 64..] == a[p..][64..] && b[q + 64..] == b[q..][64..];
  }
}
