// The pool that the nodes of the tree are allocated from: pieces are cut off blocks and given back all at once.
module PooledAllocator {
  import opened Options

  const WORD_SIZE: nat := 16
  const BLOCK_SIZE: nat := 8192
  const POINTER_SIZE: nat := 8

  // One more than the greatest number of the address type.
  const ADDRESS_RANGE: nat := 0x1_0000_0000_0000_0000

  // A stretch of memory.
  datatype Region = Region(addr: nat, size: nat) {
    function End(): nat {
      addr + size
    }
  }

  // A piece that has been handed out, and the block it was cut off.
  datatype Piece = Piece(region: Region, home: nat)

  predicate Apart(a: Region, b: Region) {
    a.End() <= b.addr || b.End() <= a.addr
  }

  // Multiples of the word size.
  predicate Aligned(n: int) {
    n % 16 == 0
  }

  lemma AlignedSum(a: int, b: int)
    requires Aligned(a) && Aligned(b)
    ensures Aligned(a + b)
  {
  }

  // A request rounded up: the last bits of the incremented size are masked out.
  function Rounded(request: nat): nat {
    (request + (WORD_SIZE - 1)) % ADDRESS_RANGE / 16 * 16
  }

  // The least multiple of the word size that is enough.
  predicate IsRoundedUp(size: nat, request: nat) {
    Aligned(size) && request <= size < request + WORD_SIZE
  }

  // Rounding is exact for all requests but the last few below the range of the type.
  lemma RoundedExactly(request: nat)
    requires request < ADDRESS_RANGE
    ensures IsRoundedUp(Rounded(request), request) <==> request + (WORD_SIZE - 1) < ADDRESS_RANGE
  {
  }

  // The size of a new block for a piece.
  function BlockSize(size: nat): (b: nat)
    ensures b >= size + POINTER_SIZE && b >= BLOCK_SIZE
  {
    if size + POINTER_SIZE + (WORD_SIZE - 1) > BLOCK_SIZE then size + POINTER_SIZE + (WORD_SIZE - 1) else BLOCK_SIZE
  }

  // It is the least size that is at least 8192 and has room for the pointer, the piece and 15 bytes more.
  lemma BlockSizeLeast(size: nat, n: nat)
    ensures BlockSize(size) <= n <==> 8192 <= n && size + 8 + 15 <= n
  {
  }

  function TotalSize(blocks: seq<Region>): nat {
    if blocks == [] then 0 else TotalSize(blocks[..|blocks| - 1]) + blocks[|blocks| - 1].size
  }

  lemma TotalSizeAppend(blocks: seq<Region>, b: Region)
    ensures TotalSize(blocks + [b]) == TotalSize(blocks) + b.size
  {
    assert (blocks + [b])[..|blocks|] == blocks;
  }

  // The blocks, last first.
  function Backwards(blocks: seq<Region>): (s: seq<nat>)
    ensures |s| == |blocks|
  {
    if blocks == [] then []
    else [blocks[|blocks| - 1].addr] + Backwards(blocks[..|blocks| - 1])
  }

  lemma {:induction false} BackwardsAt(blocks: seq<Region>, i: nat)
    requires i < |blocks|
    ensures Backwards(blocks)[i] == blocks[|blocks| - 1 - i].addr
  {
    if i > 0 {
      BackwardsAt(blocks[..|blocks| - 1], i - 1);
    }
  }

  // A piece lies behind the pointer of its block, before its end and, in the last block, before the rest.
  ghost predicate InPlace(p: Piece, blocks: seq<Region>, loc: nat) {
    p.home < |blocks| && blocks[p.home].addr + POINTER_SIZE <= p.region.addr && p.region.End() <= blocks[p.home].End() &&
    (p.home == |blocks| - 1 ==> p.region.End() <= loc) &&
    Aligned(p.region.size) && Aligned(p.region.addr - blocks[p.home].addr - POINTER_SIZE)
  }

  // No two pieces overlap.
  ghost predicate PiecesApart(live: seq<Piece>) {
    forall i, j :: 0 <= i < j < |live| ==> Apart(live[i].region, live[j].region)
  }

  ghost predicate BlocksApart(blocks: seq<Region>) {
    forall i, j :: 0 <= i < j < |blocks| ==> Apart(blocks[i], blocks[j])
  }

  ghost predicate ValidPieces(live: seq<Piece>, blocks: seq<Region>, loc: nat) {
    (forall i :: 0 <= i < |live| ==> InPlace(live[i], blocks, loc)) && PiecesApart(live)
  }

  // The rest of the last block is free.
  ghost predicate ValidRest(blocks: seq<Region>, loc: nat, remaining: nat) {
    if blocks == [] then remaining == 0
    else
      var last := blocks[|blocks| - 1];
      last.addr + POINTER_SIZE <= loc && loc + remaining == last.End() && Aligned(loc - last.addr - POINTER_SIZE)
  }

  // A piece at the beginning of the rest is apart from all others.
  lemma RestIsApart(live: seq<Piece>, blocks: seq<Region>, loc: nat, remaining: nat, i: nat, size: nat)
    requires blocks != [] && BlocksApart(blocks) && ValidRest(blocks, loc, remaining) && i < |live| && size <= remaining
    requires InPlace(live[i], blocks, loc)
    ensures Apart(live[i].region, Region(loc, size))
  {
    if live[i].home < |blocks| - 1 {
      assert Apart(blocks[live[i].home], blocks[|blocks| - 1]);
    }
  }

  lemma PieceAdded(live: seq<Piece>, blocks: seq<Region>, loc: nat, remaining: nat, size: nat)
    requires BlocksApart(blocks) && ValidRest(blocks, loc, remaining) && ValidPieces(live, blocks, loc)
    requires 0 < size <= remaining && Aligned(size)
    ensures blocks != [] && ValidPieces(live + [Piece(Region(loc, size), |blocks| - 1)], blocks, loc + size)
    ensures ValidRest(blocks, loc + size, remaining - size)
  {
    var all := live + [Piece(Region(loc, size), |blocks| - 1)];
    AlignedSum(loc - blocks[|blocks| - 1].addr - POINTER_SIZE, size);
    hide Aligned;
    forall i, j | 0 <= i < j < |all|
      ensures Apart(all[i].region, all[j].region)
    {
      if j == |live| {
        RestIsApart(live, blocks, loc, remaining, i, size);
      }
    }
    forall i | 0 <= i < |all|
      ensures InPlace(all[i], blocks, loc + size)
    {
      if i < |live| {
        assert InPlace(live[i], blocks, loc);
      }
    }
  }

  lemma BlockAdded(live: seq<Piece>, blocks: seq<Region>, loc: nat, b: Region)
    requires BlocksApart(blocks) && ValidPieces(live, blocks, loc) && b.size >= POINTER_SIZE
    requires forall i :: 0 <= i < |blocks| ==> Apart(blocks[i], b)
    ensures BlocksApart(blocks + [b]) && ValidPieces(live, blocks + [b], b.addr + POINTER_SIZE)
    ensures ValidRest(blocks + [b], b.addr + POINTER_SIZE, b.size - POINTER_SIZE)
  {
    forall i | 0 <= i < |live|
      ensures InPlace(live[i], blocks + [b], b.addr + POINTER_SIZE)
    {
      assert InPlace(live[i], blocks, loc);
    }
  }

  // Every block begins with a pointer to the one before.
  ghost predicate Linked(blocks: seq<Region>, links: map<nat, nat>, base: nat) {
    (forall i :: 0 <= i < |blocks| ==> blocks[i].addr > 0 && blocks[i].size >= BLOCK_SIZE) &&
    (forall i :: 0 <= i < |blocks| ==> blocks[i].addr in links && links[blocks[i].addr] == AddressBefore(blocks, i)) &&
    base == AddressBefore(blocks, |blocks|)
  }

  // The address of the block before block i; 0 if there is none.
  function AddressBefore(blocks: seq<Region>, i: nat): nat
    requires i <= |blocks|
  {
    if i == 0 then 0 else blocks[i - 1].addr
  }

  lemma BlockLinked(blocks: seq<Region>, links: map<nat, nat>, base: nat, b: Region)
    requires Linked(blocks, links, base) && b.addr > 0 && b.size >= BLOCK_SIZE
    requires forall i :: 0 <= i < |blocks| ==> Apart(blocks[i], b)
    ensures Linked(blocks + [b], links[b.addr := base], b.addr)
  {
    var all, next := blocks + [b], links[b.addr := base];
    forall i | 0 <= i < |all|
      ensures all[i].addr in next && next[all[i].addr] == AddressBefore(all, i)
    {
      assert AddressBefore(all, i) == AddressBefore(blocks, i);
      if i < |blocks| {
        assert all[i] == blocks[i] && blocks[i].size >= BLOCK_SIZE;
        assert Apart(blocks[i], b);
      }
    }
    forall i | 0 <= i < |all|
      ensures all[i].addr > 0 && all[i].size >= BLOCK_SIZE
    {
      assert all[i] == if i < |blocks| then blocks[i] else b;
    }
  }

  // Going back one block.
  lemma StepBack(blocks: seq<Region>, links: map<nat, nat>, base: nat, k: nat)
    requires Linked(blocks, links, base) && k <= |blocks|
    ensures AddressBefore(blocks, k) == 0 <==> k == 0
    ensures k > 0 ==>
              var b := AddressBefore(blocks, k);
              b in links && links[b] == AddressBefore(blocks, k - 1) &&
              Backwards(blocks[..k]) == [b] + Backwards(blocks[..k - 1])
  {
    if k > 0 {
      assert blocks[k - 1].addr in links;
      assert blocks[..k][..k - 1] == blocks[..k - 1];
    }
  }

  // A piece is word aligned if and only if what follows the pointer of its block is; in an aligned block, none is.
  lemma AlignedExactly(p: Piece, blocks: seq<Region>, loc: nat)
    requires InPlace(p, blocks, loc)
    ensures Aligned(p.region.addr) <==> Aligned(blocks[p.home].addr + POINTER_SIZE)
    ensures Aligned(blocks[p.home].addr) ==> !Aligned(p.region.addr)
  {
    hide Aligned;
    AlignedTogether(p.region.addr, blocks[p.home].addr + POINTER_SIZE);
    EightBehind(blocks[p.home].addr);
  }

  lemma AlignedTogether(a: int, b: int)
    requires Aligned(a - b)
    ensures Aligned(a) <==> Aligned(b)
  {
  }

  lemma EightBehind(a: int)
    ensures Aligned(a) ==> !Aligned(a + POINTER_SIZE)
  {
  }

  // ----- Accounts

  // What the pieces that have been handed out take up.
  function LiveSize(live: seq<Piece>): nat {
    if live == [] then 0 else LiveSize(live[..|live| - 1]) + live[|live| - 1].region.size
  }

  // With one more piece, or none.
  lemma LiveSizeGrows(live: seq<Piece>, more: seq<Piece>, size: nat)
    requires if size > 0 then |more| == 1 && more[0].region.size == size else more == []
    ensures LiveSize(live + more) == LiveSize(live) + size
  {
    if size > 0 {
      assert (live + more)[..|live|] == live;
    } else {
      assert live + more == live;
    }
  }

  function Sum(s: seq<nat>): nat {
    if s == [] then 0 else Sum(s[..|s| - 1]) + s[|s| - 1]
  }

  lemma SumAppend(s: seq<nat>, x: nat)
    ensures Sum(s + [x]) == Sum(s) + x
  {
    assert (s + [x])[..|s|] == s;
  }

  lemma {:induction false} SumZero(s: seq<nat>)
    ensures Sum(s) == 0 <==> forall i :: 0 <= i < |s| ==> s[i] == 0
  {
    if s != [] {
      SumZero(s[..|s| - 1]);
      assert forall i :: 0 <= i < |s| - 1 ==> s[..|s| - 1][i] == s[i];
    }
  }

  // With a pointer size of 8: every byte of the blocks is used, wasted, free, or part of a pointer.
  ghost predicate Balance(used: nat, wasted: nat, remaining: nat, blocks: seq<Region>) {
    used + wasted + remaining + 8 * |blocks| == TotalSize(blocks)
  }

  // The accounts exceed the blocks by the rests that failed calls have counted as wasted and kept.
  ghost predicate Accounts(used: nat, wasted: nat, remaining: nat, blocks: seq<Region>, rests: seq<nat>) {
    used + wasted + remaining + 8 * |blocks| == TotalSize(blocks) + Sum(rests)
  }

  lemma AccountsOfBlock(used: nat, wasted: nat, remaining: nat, blocks: seq<Region>, rests: seq<nat>, b: Region)
    requires Accounts(used, wasted, remaining, blocks, rests) && b.size >= 8
    ensures Accounts(used, wasted + remaining, b.size - 8, blocks + [b], rests)
  {
    TotalSizeAppend(blocks, b);
  }

  lemma AccountsOfPiece(used: nat, wasted: nat, remaining: nat, blocks: seq<Region>, rests: seq<nat>, size: nat)
    requires Accounts(used, wasted, remaining, blocks, rests) && size <= remaining
    ensures Accounts(used + size, wasted, remaining - size, blocks, rests)
  {
  }

  // A failure counts the rest as wasted, and keeps it.
  lemma AccountsOfFailure(used: nat, wasted: nat, remaining: nat, blocks: seq<Region>, rests: seq<nat>)
    requires Accounts(used, wasted, remaining, blocks, rests)
    ensures Accounts(used, wasted + remaining, remaining, blocks, rests + [remaining])
  {
    SumAppend(rests, remaining);
  }

  // After any calls, the books balance if and only if no failed call found a rest.
  lemma BalancedExactly(used: nat, wasted: nat, remaining: nat, blocks: seq<Region>, rests: seq<nat>)
    requires Accounts(used, wasted, remaining, blocks, rests)
    ensures Balance(used, wasted, remaining, blocks) <==> forall i :: 0 <= i < |rests| ==> rests[i] == 0
  {
    SumZero(rests);
  }

  // Memory that no block has.
  ghost predicate IsFree(blocks: seq<Region>, b: Region) {
    b.addr > 0 && forall i :: 0 <= i < |blocks| ==> Apart(blocks[i], b)
  }

  class Pool {
    var remaining: nat
    var base: nat  // 0 is the null pointer
    var loc: nat
    var usedMemory: nat
    var wastedMemory: nat
    var links: map<nat, nat>  // the first word of every block: a pointer to the block before
    ghost var blocks: seq<Region>
    ghost var live: seq<Piece>
    ghost var rests: seq<nat>  // what was left in the last block at each failed call since the pool was empty

    ghost predicate Valid()
      reads this
    {
      Memory() && Accounts(usedMemory, wastedMemory, remaining, blocks, rests) && usedMemory == LiveSize(live)
    }

    // The blocks and the pieces cut off them.
    ghost predicate Memory()
      reads `blocks, `links, `base, `loc, `remaining, `live
    {
      Linked(blocks, links, base) && BlocksApart(blocks) && ValidRest(blocks, loc, remaining) &&
      ValidPieces(live, blocks, loc)
    }

    constructor ()
      ensures Valid() && blocks == [] && live == [] && rests == [] && remaining == 0
    {
      rests := [];
      remaining, base, loc, usedMemory, wastedMemory := 0, 0, 0, 0, 0;
      links, blocks, live := map[], [], [];
    }

    // Takes a new block into use. The rest of the one before is wasted.
    method NewBlock(m: nat, blockSize: nat)
      requires Memory() && blockSize >= BLOCK_SIZE && IsFree(blocks, Region(m, blockSize))
      modifies this`links, this`base, this`remaining, this`loc, this`blocks
      ensures Memory() && blocks == old(blocks) + [Region(m, blockSize)]
      ensures loc == m + POINTER_SIZE && remaining == blockSize - POINTER_SIZE
    {
      BlockTaken(Region(m, blockSize));
      hide *;
      links := links[m := base];
      base := m;
      remaining := blockSize - POINTER_SIZE;
      loc := m + POINTER_SIZE;
      blocks := blocks + [Region(m, blockSize)];
    }

    lemma BlockTaken(b: Region)
      requires Memory() && b.size >= BLOCK_SIZE && IsFree(blocks, b)
      ensures Linked(blocks + [b], links[b.addr := base], b.addr) && BlocksApart(blocks + [b])
      ensures ValidRest(blocks + [b], b.addr + POINTER_SIZE, b.size - POINTER_SIZE)
      ensures ValidPieces(live, blocks + [b], b.addr + POINTER_SIZE)
    {
      hide Linked, BlocksApart, ValidRest, ValidPieces;
      BlockAdded(live, blocks, loc, b);
      BlockLinked(blocks, links, base, b);
    }

    // Cuts a piece off the last block. A piece of no size is none.
    method Cut(size: nat) returns (addr: nat)
      requires Memory() && size <= remaining && Aligned(size)
      modifies this`loc, this`remaining, this`usedMemory, this`live
      ensures Memory() && addr == old(loc)
      ensures live == old(live) + if size > 0 then [Piece(Region(addr, size), |blocks| - 1)] else []
      ensures remaining == old(remaining) - size && usedMemory == old(usedMemory) + size
    {
      hide Linked, BlocksApart, ValidRest, ValidPieces, Aligned, AddressBefore;
      if size > 0 {
        PieceAdded(live, blocks, loc, remaining, size);
      }
      addr := loc;
      loc := loc + size;
      remaining := remaining - size;
      usedMemory := usedMemory + size;
      if size > 0 {
        live := live + [Piece(Region(addr, size), |blocks| - 1)];
      }
    }

    lemma SizeFacts(request: nat)
      requires request + POINTER_SIZE + 2 * WORD_SIZE < ADDRESS_RANGE
      ensures IsRoundedUp(Rounded(request), request) && Aligned(Rounded(request))
      ensures Rounded(request) > 0 <==> request > 0
      ensures BlockSize(Rounded(request)) >= BLOCK_SIZE >= 8 == POINTER_SIZE
    {
      RoundedExactly(request);
    }

    // malloc. The system hands out a block that is apart from all others, or none.
    method Malloc(request: nat, system: Option<nat>) returns (r: Option<nat>)
      requires Valid() && request + POINTER_SIZE + 2 * WORD_SIZE < ADDRESS_RANGE
      requires system.Some? ==> IsFree(blocks, Region(system.value, BlockSize(Rounded(request))))
      modifies this
      ensures Valid()
      ensures r == None <==> Rounded(request) > old(remaining) && system == None
      ensures r == None ==> live == old(live) && blocks == old(blocks) && remaining == old(remaining)
      ensures r.Some? ==>
                blocks == old(blocks) + (if Rounded(request) > old(remaining)
                                         then [Region(system.value, BlockSize(Rounded(request)))] else []) &&
                live == old(live) + (if request > 0 then [Piece(Region(r.value, Rounded(request)), |blocks| - 1)] else [])
      ensures r.Some? ==>
                remaining == (if Rounded(request) > old(remaining)
                              then BlockSize(Rounded(request)) - POINTER_SIZE else old(remaining)) - Rounded(request)
      ensures usedMemory == old(usedMemory) + if r.Some? then Rounded(request) else 0
      ensures wastedMemory == old(wastedMemory) + if Rounded(request) > old(remaining) then old(remaining) else 0
      ensures IsRoundedUp(Rounded(request), request)
      ensures rests == old(rests) + if r == None then [old(remaining)] else []
    {
      hide *;
      SizeFacts(request);
      Parts();
      var size := Rounded(request);
      if size > remaining {
        ghost var u, w, rest, bs := usedMemory, wastedMemory, remaining, blocks;
        wastedMemory := wastedMemory + remaining;
        var blockSize := BlockSize(size);
        if system.None? {
          AccountsOfFailure(u, w, rest, bs, rests);
          rests := rests + [rest];
          Whole();
          return None;
        }
        NewBlock(system.value, blockSize);
        AccountsOfBlock(u, w, rest, bs, rests, Region(system.value, blockSize));
      }
      ghost var u, w, rest := usedMemory, wastedMemory, remaining;
      ghost var pieces := live;
      var rloc := Cut(size);
      assert live == pieces + live[|pieces|..];
      LiveSizeGrows(pieces, live[|pieces|..], size);
      AccountsOfPiece(u, w, rest, blocks, rests, size);
      Whole();
      r := Some(rloc);
    }

    lemma Parts()
      requires Valid()
      ensures Memory() && Accounts(usedMemory, wastedMemory, remaining, blocks, rests) && usedMemory == LiveSize(live)
    {
    }

    lemma Whole()
      requires Memory() && Accounts(usedMemory, wastedMemory, remaining, blocks, rests) && usedMemory == LiveSize(live)
      ensures Valid()
    {
    }

    // free_all: it gives every block back, the last one first, and leaves an empty pool.
    method FreeAll() returns (freed: seq<nat>)
      requires Valid()
      modifies this
      ensures freed == Backwards(old(blocks)) && |freed| == |old(blocks)|
      ensures forall i :: 0 <= i < |freed| ==> freed[i] == old(blocks)[|old(blocks)| - 1 - i].addr
      ensures Valid() && blocks == [] && live == [] && rests == []
    {
      hide *;
      StartOfFree();
      freed := [];
      ghost var k: nat := |blocks|;
      ghost var last := base;
      StepBack(blocks, links, last, k);
      assert blocks[..k] == blocks;
      while base != 0
        invariant k <= |blocks| && blocks == old(blocks) && links == old(links)
        invariant base == AddressBefore(blocks, k) && (base == 0 <==> k == 0)
        invariant freed + Backwards(blocks[..k]) == Backwards(blocks)
        decreases k
      {
        StepBack(blocks, links, last, k);
        var prev := links[base];
        freed := freed + [base];
        base := prev;
        k := k - 1;
        StepBack(blocks, links, last, k);
      }
      NoneLeft(blocks);
      AllBackwards(blocks);
      remaining, base, usedMemory, wastedMemory := 0, 0, 0, 0;
      blocks, live, rests := [], [], [];
      EmptyIsValid();
    }

    lemma StartOfFree()
      requires Valid()
      ensures Linked(blocks, links, base) && base == AddressBefore(blocks, |blocks|)
    {
    }

    lemma EmptyIsValid()
      requires remaining == base == usedMemory == wastedMemory == 0 && blocks == [] && live == [] && rests == []
      ensures Valid()
    {
    }
  }

  // A run after which the books do not balance: the second call fails with 8072 bytes left in the block, the third
  // is served from them.
  method UnbalancedRun() returns (pool: Pool)
    ensures fresh(pool) && pool.Valid() && pool.rests == [8072] && |pool.live| == 2
    ensures !Balance(pool.usedMemory, pool.wastedMemory, pool.remaining, pool.blocks)
  {
    hide Linked, BlocksApart, ValidRest, ValidPieces, Balance, Accounts;
    assert Rounded(100) == 112 && Rounded(10000) == 10000;
    pool := new Pool();
    var first := pool.Malloc(100, Some(16));
    var second := pool.Malloc(10000, None);
    var third := pool.Malloc(100, None);
    pool.Parts();
    assert pool.rests[0] != 0;
    BalancedExactly(pool.usedMemory, pool.wastedMemory, pool.remaining, pool.blocks, pool.rests);
  }

  lemma AllBackwards(blocks: seq<Region>)
    ensures forall i :: 0 <= i < |blocks| ==> Backwards(blocks)[i] == blocks[|blocks| - 1 - i].addr
  {
    forall i | 0 <= i < |blocks|
      ensures Backwards(blocks)[i] == blocks[|blocks| - 1 - i].addr
    {
      BackwardsAt(blocks, i);
    }
  }

  lemma NoneLeft(blocks: seq<Region>)
    ensures Backwards(blocks[..0]) == []
  {
  }
}
