/**
 * The pool that hands out tree nodes: small pieces are cut off large blocks, and all blocks are
 * released together along the links kept in their first words. Addresses are numbers, memory is a map
 * from addresses to bytes, and the answers of the system allocator are parameters.
 */
module PooledAllocator {
  import opened Memory
  import opened Wrappers

  const WORDSIZE: nat := 16
  const BLOCKSIZE: nat := 8192
  const LINK_SIZE: nat := 8          // the size of the link at the start of a block
  const SIZE_MAX: nat := 0x1_0000_0000_0000_0000

  datatype Region = Region(addr: nat, size: nat) {
    ghost predicate Inside(r: Region) {
      r.addr <= addr && addr + size <= r.addr + r.size
    }

    /** No byte in common. */
    ghost predicate Apart(r: Region) {
      size == 0 || r.size == 0 || addr + size <= r.addr || r.addr + r.size <= addr
    }
  }

  /** The request rounded up by adding and masking, in 64-bit arithmetic. */
  function RoundUp(req: nat): nat {
    var sum := (req + (WORDSIZE - 1)) % SIZE_MAX;
    sum - sum % WORDSIZE
  }

  /** The least multiple of the word size that is large enough, unless the sum wraps around. */
  lemma RoundUpIsLeast(req: nat)
    requires req < SIZE_MAX
    ensures RoundUp(req) % WORDSIZE == 0
    ensures req <= RoundUp(req) <==> req + (WORDSIZE - 1) < SIZE_MAX
    ensures req + (WORDSIZE - 1) < SIZE_MAX ==> RoundUp(req) < req + WORDSIZE
    ensures RoundUp(req) < SIZE_MAX
  {
  }

  /** How much to ask the system for, in 64-bit arithmetic as well. */
  function BlockSize(size: nat): (b: nat)
    ensures BLOCKSIZE <= b < SIZE_MAX
  {
    var sum := (size + LINK_SIZE + (WORDSIZE - 1)) % SIZE_MAX;
    if sum > BLOCKSIZE then sum else BLOCKSIZE
  }

  /** The block has room for the piece exactly if that sum does not wrap around. */
  lemma BlockHoldsIff(size: nat)
    requires size < SIZE_MAX && size % WORDSIZE == 0
    ensures size + LINK_SIZE <= BlockSize(size) <==> size + LINK_SIZE + (WORDSIZE - 1) < SIZE_MAX
  {
  }

  /** In terms of the request: sixteen of them make the sum wrap around, to the least block. */
  lemma BlockTooSmallIff(req: nat)
    requires req < SIZE_MAX
    ensures BlockSize(RoundUp(req)) < RoundUp(req) + LINK_SIZE <==> SIZE_MAX - 2 * WORDSIZE < req <= SIZE_MAX - WORDSIZE
    ensures SIZE_MAX - 2 * WORDSIZE < req <= SIZE_MAX - WORDSIZE ==>
      RoundUp(req) == SIZE_MAX - WORDSIZE && BlockSize(RoundUp(req)) == BLOCKSIZE
  {
    if SIZE_MAX - 2 * WORDSIZE < req <= SIZE_MAX - WORDSIZE {
      assert RoundUp(req) == SIZE_MAX - WORDSIZE;
    } else if req <= SIZE_MAX - 2 * WORDSIZE {
      assert RoundUp(req) <= SIZE_MAX - 2 * WORDSIZE;
    } else {
      assert RoundUp(req) == 0;
    }
  }

  ghost function TotalSize(s: seq<Region>): nat {
    if s == [] then 0 else s[0].size + TotalSize(s[1..])
  }

  ghost predicate AllApart(s: seq<Region>) {
    forall i, j :: 0 <= i < j < |s| ==> s[i].Apart(s[j])
  }

  /** The usable part of a block: what follows the link. */
  function Usable(b: Region): Region
    requires LINK_SIZE <= b.size
  {
    Region(b.addr + LINK_SIZE, b.size - LINK_SIZE)
  }

  /** Every piece handed out, unless empty, lies inside a block, past its link, and no two share a byte. */
  ghost predicate PiecesFit(given: seq<Region>, blocks: seq<Region>) {
    && AllApart(given)
    && forall i :: 0 <= i < |given| ==> given[i].size == 0 || InSomeBlock(given[i], blocks)
  }

  ghost predicate InSomeBlock(piece: Region, blocks: seq<Region>) {
    exists j :: 0 <= j < |blocks| && CutFrom(piece, blocks[j])
  }

  /** The piece lies past the block's link, a whole number of words away from it. */
  ghost predicate CutFrom(piece: Region, b: Region) {
    LINK_SIZE <= b.size && piece.Inside(Usable(b)) && (piece.addr - b.addr - LINK_SIZE) % WORDSIZE == 0
  }

  /** `free` is the unused end of the newest block, and no piece reaches into it. */
  ghost predicate FreeEnd(free: Region, given: seq<Region>, blocks: seq<Region>) {
    if blocks == [] then free.size == 0
    else
      && CutFrom(free, blocks[0]) && free.addr + free.size == blocks[0].addr + blocks[0].size
      && forall i :: 0 <= i < |given| ==> given[i].Apart(free)
  }

  lemma {:induction false} AddBlock(given: seq<Region>, blocks: seq<Region>, b: Region)
    requires PiecesFit(given, blocks) && AllApart(blocks) && BLOCKSIZE <= b.size
    requires forall i :: 0 <= i < |blocks| ==> b.Apart(blocks[i])
    ensures AllApart([b] + blocks) && PiecesFit(given, [b] + blocks)
    ensures FreeEnd(Usable(b), given, [b] + blocks)
    ensures TotalSize([b] + blocks) == b.size + TotalSize(blocks)
  {
    assert ([b] + blocks)[1..] == blocks;
    forall i | 0 <= i < |given| && given[i].size != 0
      ensures InSomeBlock(given[i], [b] + blocks) && given[i].Apart(Usable(b))
    {
      var j :| 0 <= j < |blocks| && CutFrom(given[i], blocks[j]);
      assert ([b] + blocks)[j + 1] == blocks[j];
      assert b.Apart(blocks[j]);
    }
  }

  lemma {:induction false} CutPiece(given: seq<Region>, blocks: seq<Region>, free: Region, size: nat)
    requires PiecesFit(given, blocks) && FreeEnd(free, given, blocks)
    requires size <= free.size && size % WORDSIZE == 0
    ensures var piece := Region(free.addr, size);
      && PiecesFit([piece] + given, blocks)
      && FreeEnd(Region(free.addr + size, free.size - size), [piece] + given, blocks)
      && TotalSize([piece] + given) == size + TotalSize(given)
  {
    var piece := Region(free.addr, size);
    assert ([piece] + given)[1..] == given;
    if size != 0 {
      assert CutFrom(piece, blocks[0]);
      forall i | 0 <= i < |given| ensures piece.Apart(given[i]) {
        assert given[i].Apart(free);
      }
    }
  }

  /** The links: each block starts with the address of the one before it, the first with null. */
  ghost predicate Chained(base: nat, blocks: seq<Region>, m: Memory)
    decreases |blocks|
  {
    if blocks == [] then base == 0
    else base != 0 && base == blocks[0].addr && Chained(ReadWord(m, base), blocks[1..], m)
  }

  lemma {:induction false} ChainStays(base: nat, blocks: seq<Region>, m: Memory, a: nat, bytes: seq<nat>)
    requires Chained(base, blocks, m)
    requires forall j :: 0 <= j < |blocks| ==> blocks[j].addr + LINK_SIZE <= a || a + |bytes| <= blocks[j].addr
    ensures Chained(base, blocks, Poke(m, a, bytes))
    decreases |blocks|
  {
    if blocks != [] {
      ReadElsewhere(m, a, bytes, base);
      ChainStays(ReadWord(m, base), blocks[1..], m, a, bytes);
    }
  }

  /** A block linked in front. */
  lemma {:induction false} ChainGrows(base: nat, blocks: seq<Region>, m: Memory, b: Region)
    requires Chained(base, blocks, m) && b.addr != 0 && BLOCKSIZE <= b.size
    requires forall j :: 0 <= j < |blocks| ==>
      BLOCKSIZE <= blocks[j].size && blocks[j].addr + blocks[j].size < SIZE_MAX && b.Apart(blocks[j])
    ensures Chained(b.addr, [b] + blocks, WriteWord(m, b.addr, base))
  {
    ReadWritten(m, b.addr, base);
    ChainStays(base, blocks, m, b.addr, Encode(base, LINK_SIZE));
    assert ([b] + blocks)[1..] == blocks;
  }

  /** A byte written into a piece is past the link of the piece's block and outside all others. */
  lemma {:induction false} WriteMissesLinks(given: seq<Region>, blocks: seq<Region>, i: nat, a: nat)
    requires PiecesFit(given, blocks) && AllApart(blocks) && i < |given|
    requires forall j :: 0 <= j < |blocks| ==> BLOCKSIZE <= blocks[j].size
    requires given[i].addr <= a < given[i].addr + given[i].size
    ensures forall j :: 0 <= j < |blocks| ==> blocks[j].addr + LINK_SIZE <= a || a + 1 <= blocks[j].addr
  {
    var k :| 0 <= k < |blocks| && CutFrom(given[i], blocks[k]);
    forall j | 0 <= j < |blocks| ensures blocks[j].addr + LINK_SIZE <= a || a + 1 <= blocks[j].addr {
      if j < k {
        assert blocks[j].Apart(blocks[k]);
      } else if k < j {
        assert blocks[k].Apart(blocks[j]);
      }
    }
  }

  /** How the pool lies in memory: the chain of blocks, the pieces, and the unused end. */
  ghost predicate Layout(base: nat, free: Region, blocks: seq<Region>, given: seq<Region>, m: Memory) {
    && AllApart(blocks)
    && (forall i :: 0 <= i < |blocks| ==> BLOCKSIZE <= blocks[i].size && blocks[i].addr + blocks[i].size < SIZE_MAX)
    && Chained(base, blocks, m) && PiecesFit(given, blocks) && FreeEnd(free, given, blocks)
    && free.addr < SIZE_MAX
  }

  lemma {:induction false} LayoutWithBlock(base: nat, free: Region, blocks: seq<Region>, given: seq<Region>, m: Memory,
        b: Region)
    requires Layout(base, free, blocks, given, m) && Grantable(b, blocks) && BLOCKSIZE <= b.size
    ensures Layout(b.addr, Usable(b), [b] + blocks, given, WriteWord(m, b.addr, base))
    ensures TotalSize([b] + blocks) == b.size + TotalSize(blocks)
  {
    hide AllApart, PiecesFit, FreeEnd, TotalSize;
    AddBlock(given, blocks, b);
    ChainGrows(base, blocks, m, b);
  }

  lemma {:induction false} LayoutWithPiece(base: nat, free: Region, blocks: seq<Region>, given: seq<Region>, m: Memory,
        size: nat)
    requires Layout(base, free, blocks, given, m) && size <= free.size && size % WORDSIZE == 0
    ensures Layout(base, Region(free.addr + size, free.size - size), blocks, [Region(free.addr, size)] + given, m)
    ensures TotalSize([Region(free.addr, size)] + given) == size + TotalSize(given)
    ensures free.addr + size < SIZE_MAX && free.size < SIZE_MAX
  {
    hide AllApart, PiecesFit, TotalSize, Chained;
    CutPiece(given, blocks, free, size);
  }

  /** A piece that overruns a block of the least size leaves an unused end larger than the block. */
  lemma {:induction false} LayoutOverrun(base: nat, loc: nat, blocks: seq<Region>, given: seq<Region>, m: Memory)
    requires blocks != [] && blocks[0].size == BLOCKSIZE
    ensures !Layout(base, Region(loc, BLOCKSIZE + LINK_SIZE), blocks, given, m)
  {
  }

  lemma {:induction false} LayoutWritten(base: nat, free: Region, blocks: seq<Region>, given: seq<Region>, m: Memory,
        i: nat, a: nat, byte: nat)
    requires Layout(base, free, blocks, given, m) && i < |given| && given[i].addr <= a < given[i].addr + given[i].size
    ensures Layout(base, free, blocks, given, Poke(m, a, [byte]))
  {
    hide AllApart, PiecesFit, FreeEnd;
    WriteMissesLinks(given, blocks, i, a);
    ChainStays(base, blocks, m, a, [byte]);
  }

  /** What the system may answer: memory that is not in use. */
  ghost predicate Grantable(b: Region, blocks: seq<Region>) {
    b.addr != 0 && b.addr + b.size < SIZE_MAX && forall i :: 0 <= i < |blocks| ==> b.Apart(blocks[i])
  }

  /** A request and whether it was granted: all that a caller sees besides the piece itself. */
  datatype Call = Call(req: nat, granted: bool)

  /** What is left of the newest block after these calls. */
  function Unused(calls: seq<Call>): nat {
    if calls == [] then 0
    else
      var before, call := Unused(calls[..|calls| - 1]), calls[|calls| - 1];
      var size := RoundUp(call.req);
      if size <= before then before - size
      else if !call.granted then before
      else if size + LINK_SIZE <= BlockSize(size) then BlockSize(size) - LINK_SIZE - size
      else 0
  }

  /** A refused request counts what is left of the newest block as wasted, although it stays in use. */
  ghost function Overcounted(calls: seq<Call>): nat {
    if calls == [] then 0
    else
      var before := calls[..|calls| - 1];
      Overcounted(before) + if calls[|calls| - 1].granted then 0 else Unused(before)
  }

  /** Nothing is overcounted exactly if every refused request came when nothing was left. */
  lemma {:induction false} NothingOvercountedIff(calls: seq<Call>)
    ensures Overcounted(calls) == 0 <==>
            forall i :: 0 <= i < |calls| && !calls[i].granted ==> Unused(calls[..i]) == 0
  {
    hide Unused;
    if calls != [] {
      var last := |calls| - 1;
      var before := calls[..last];
      NothingOvercountedIff(before);
      forall i | 0 <= i < last
        ensures (!before[i].granted ==> Unused(before[..i]) == 0) == (!calls[i].granted ==> Unused(calls[..i]) == 0)
      {
        assert before[..i] == calls[..i];
      }
    }
  }

  lemma OneMoreCall(calls: seq<Call>, call: Call)
    ensures Overcounted(calls + [call]) == Overcounted(calls) + if call.granted then 0 else Unused(calls)
    ensures var before, size := Unused(calls), RoundUp(call.req);
      Unused(calls + [call]) ==
      if size <= before then before - size
      else if !call.granted then before
      else if size + LINK_SIZE <= BlockSize(size) then BlockSize(size) - LINK_SIZE - size else 0
  {
    assert (calls + [call])[..|calls|] == calls;
  }

  lemma RequestSizes(req: nat)
    requires req < SIZE_MAX
    ensures RoundUp(req) < SIZE_MAX && RoundUp(req) % WORDSIZE == 0
    ensures BlockSize(RoundUp(req)) < RoundUp(req) + LINK_SIZE ==>
      RoundUp(req) == SIZE_MAX - WORDSIZE && BlockSize(RoundUp(req)) == BLOCKSIZE
  {
    hide BlockSize;
    RoundUpIsLeast(req);
    BlockTooSmallIff(req);
  }

  /** Pieces come from a chain of blocks, newest first. */
  class Pool {
    var base: nat
    var remaining: nat
    var loc: nat
    var usedMemory: nat
    var wastedMemory: nat
    var memory: Memory               // of the whole program
    ghost var blocks: seq<Region>    // the chain
    ghost var given: seq<Region>     // every piece handed out since the last release, newest first
    ghost var calls: seq<Call>       // every call since the last release

    ghost predicate Sound()
      reads this
    {
      Layout(base, Region(loc, remaining), blocks, given, memory) && usedMemory == TotalSize(given)
    }

    /** Every byte of the blocks but their links is used, wasted or remaining, some counted twice. */
    ghost predicate Balances(twice: nat)
      reads this
    {
      TotalSize(blocks) - LINK_SIZE * |blocks| + twice == usedMemory + wastedMemory + remaining
    }

    ghost predicate Valid()
      reads this
    {
      Sound() && remaining == Unused(calls) && Balances(Overcounted(calls))
    }

    /** `loc` is not initialised: it starts with whatever was in its place. */
    constructor (memory: Memory, garbage: nat)
      requires garbage < SIZE_MAX
      ensures Valid() && blocks == [] && given == [] && calls == [] && this.memory == memory
    {
      base, remaining, loc, usedMemory, wastedMemory := 0, 0, garbage, 0, 0;
      this.memory := memory;
      blocks, given, calls := [], [], [];
    }

    /** A block is linked in for a piece that does not fit, if the system has memory. */
    method NewBlock(size: nat, system: Option<nat>, ghost twice: nat) returns (ok: bool)
      requires Sound() && Balances(twice)
      requires system.Some? ==> Grantable(Region(system.value, BlockSize(size)), blocks)
      modifies this
      ensures Sound() && given == old(given) && usedMemory == old(usedMemory) && calls == old(calls)
      ensures ok == system.Some? && Balances(twice + if ok then 0 else old(remaining))
      ensures ok ==> blocks == [Region(system.value, BlockSize(size))] + old(blocks)
      ensures ok ==> loc == system.value + LINK_SIZE && remaining == BlockSize(size) - LINK_SIZE
      ensures !ok ==> blocks == old(blocks) && loc == old(loc) && remaining == old(remaining)
    {
      hide TotalSize, Layout, Grantable;
      wastedMemory := wastedMemory + remaining;
      var blocksize := BlockSize(size);
      if system.None? {
        return false;
      }
      ghost var b := Region(system.value, blocksize);
      LayoutWithBlock(base, Region(loc, remaining), blocks, given, memory, b);
      memory := WriteWord(memory, system.value, base);
      base := system.value;
      blocks := [b] + blocks;
      remaining := blocksize - LINK_SIZE;
      loc := system.value + LINK_SIZE;
      ok := true;
    }

    /** The piece is cut off the front of what remains, in 64-bit arithmetic, whether it fits or not. */
    method CutOff(size: nat, ghost twice: nat) returns (r: Option<nat>)
      requires Sound() && Balances(twice) && size < SIZE_MAX && size % WORDSIZE == 0
      requires remaining < size ==> size == SIZE_MAX - WORDSIZE
      requires remaining < size ==> blocks != [] && blocks[0].size == BLOCKSIZE == remaining + LINK_SIZE
      modifies this
      ensures r == Some(old(loc)) && given == [Region(old(loc), size)] + old(given)
      ensures blocks == old(blocks) && calls == old(calls)
      ensures Sound() <==> size <= old(remaining)
      ensures size <= old(remaining) ==> remaining == old(remaining) - size && Balances(twice)
    {
      hide TotalSize, Layout;
      if size <= remaining {
        LayoutWithPiece(base, Region(loc, remaining), blocks, given, memory, size);
      } else {
        LayoutOverrun(base, (loc + size) % SIZE_MAX, blocks, [Region(loc, size)] + given, memory);
      }
      r := Some(loc);
      given := [Region(loc, size)] + given;
      loc := (loc + size) % SIZE_MAX;
      remaining := (remaining - size) % SIZE_MAX;
      usedMemory := usedMemory + size;
    }

    /** The arithmetic of a request for which even a new block is too small. */
    ghost predicate Overruns(req: nat, system: Option<nat>)
      reads this
    {
      system.Some? && remaining < RoundUp(req) && BlockSize(RoundUp(req)) < RoundUp(req) + LINK_SIZE
    }

    /**
     * Hands out a piece for `req` bytes. `system` is the system allocator's answer should a new block
     * be needed: the address of fresh memory of the requested size, or nothing. The pool stays sound
     * exactly if the request does not overrun a new block.
     */
    method Malloc(req: nat, system: Option<nat>) returns (r: Option<nat>)
      requires Valid() && req < SIZE_MAX
      requires system.Some? ==> Grantable(Region(system.value, BlockSize(RoundUp(req))), blocks)
      modifies this
      ensures Valid() <==> !old(Overruns(req, system))
      ensures calls == old(calls) + [Call(req, r.Some?)]
      ensures r.Some? <==> RoundUp(req) <= old(remaining) || system.Some?
      ensures given == (if r.Some? then [Region(r.value, RoundUp(req))] else []) + old(given)
      ensures RoundUp(req) <= old(remaining) ==> blocks == old(blocks) && r == Some(old(loc))
      ensures old(remaining) < RoundUp(req) && system.Some? ==>
        blocks == [Region(system.value, BlockSize(RoundUp(req)))] + old(blocks) && r == Some(system.value + LINK_SIZE)
      ensures r.None? ==> blocks == old(blocks)
    {
      hide TotalSize, Layout, Unused, Overcounted, RoundUp, BlockSize, Grantable;
      var size := RoundUp(req);
      ghost var past, twice := calls, Overcounted(calls);
      RequestSizes(req);
      OneMoreCall(past, Call(req, false));
      OneMoreCall(past, Call(req, true));
      Parts(this);
      if size > remaining {
        var ok := NewBlock(size, system, twice);
        if !ok {
          calls := calls + [Call(req, false)];
          Parts(this);
          return None;
        }
      }
      r := CutOff(size, twice);
      calls := calls + [Call(req, true)];
      Parts(this);
    }

    /** A caller writes a byte into a piece it was given: the links are not in reach. */
    method WriteInto(ghost i: nat, a: nat, byte: nat)
      requires Valid() && i < |given| && given[i].addr <= a < given[i].addr + given[i].size
      modifies this`memory
      ensures Valid() && memory == Poke(old(memory), a, [byte])
    {
      hide TotalSize, Layout;
      LayoutWritten(base, Region(loc, remaining), blocks, given, memory, i, a, byte);
      memory := Poke(memory, a, [byte]);
    }

    /** Releases the blocks by following their links; each exactly once. */
    method FreeAll() returns (released: seq<nat>)
      requires Valid()
      modifies this
      ensures Valid() && blocks == [] && given == [] && calls == [] && usedMemory == wastedMemory == 0
      ensures released == Addresses(old(blocks))
      ensures forall i, j :: 0 <= i < j < |released| ==> released[i] != released[j]
    {
      hide Layout, Chained, Addresses, TotalSize;
      ChainOf(base, Region(loc, remaining), blocks, given, memory);
      released := [];
      ghost var rest := blocks;
      while base != 0
        invariant Chained(base, rest, memory) && loc == old(loc)
        invariant released + Addresses(rest) == Addresses(old(blocks))
        decreases |rest|
      {
        ChainStep(base, rest, memory);
        var prev := ReadWord(memory, base);
        released := released + [base];
        base := prev;
        rest := rest[1..];
      }
      ChainStep(base, rest, memory);
      remaining, usedMemory, wastedMemory := 0, 0, 0;
      blocks, given, calls := [], [], [];
      NothingHeld(loc, memory);
    }
  }

  lemma Parts(p: Pool)
    ensures p.Valid() <==> p.Sound() && p.remaining == Unused(p.calls) && p.Balances(Overcounted(p.calls))
  {
  }

  function Addresses(blocks: seq<Region>): seq<nat> {
    seq(|blocks|, i requires 0 <= i < |blocks| => blocks[i].addr)
  }

  lemma ChainStep(base: nat, blocks: seq<Region>, m: Memory)
    requires Chained(base, blocks, m)
    ensures if base == 0 then Addresses(blocks) == [] else
      blocks != [] && Addresses(blocks) == [base] + Addresses(blocks[1..]) && Chained(ReadWord(m, base), blocks[1..], m)
  {
  }

  lemma ChainOf(base: nat, free: Region, blocks: seq<Region>, given: seq<Region>, m: Memory)
    requires Layout(base, free, blocks, given, m)
    ensures Chained(base, blocks, m) && free.addr < SIZE_MAX
    ensures forall i, j :: 0 <= i < j < |Addresses(blocks)| ==> Addresses(blocks)[i] != Addresses(blocks)[j]
  {
    forall i, j | 0 <= i < j < |blocks| ensures blocks[i].addr != blocks[j].addr {
      assert blocks[i].Apart(blocks[j]);
    }
  }

  lemma NothingHeld(loc: nat, m: Memory)
    requires loc < SIZE_MAX
    ensures Layout(0, Region(loc, 0), [], [], m) && TotalSize([]) == 0
  {
  }

  /**
   * After any calls, every byte of the blocks but their links is used, wasted or remaining, once,
   * exactly if each refused request came when nothing was left of the newest block.
   */
  lemma {:induction false} BalancedIffRefusedWhenEmpty(p: Pool)
    requires p.Valid()
    ensures p.Balances(0) <==>
            forall i :: 0 <= i < |p.calls| && !p.calls[i].granted ==> Unused(p.calls[..i]) == 0
  {
    NothingOvercountedIff(p.calls);
  }

  /**
   * A piece is aligned to the word size only if its block starts half a word off: with blocks on word
   * boundaries no piece is aligned, though all sizes are whole words.
   */
  lemma {:induction false} PieceAlignment(p: Pool, i: nat) returns (j: nat)
    requires p.Valid() && i < |p.given| && p.given[i].size != 0
    ensures j < |p.blocks| && CutFrom(p.given[i], p.blocks[j])
    ensures p.given[i].addr % WORDSIZE == 0 <==> p.blocks[j].addr % WORDSIZE == WORDSIZE - LINK_SIZE
  {
    hide AllApart, TotalSize, FreeEnd;
    var piece := p.given[i];
    assert InSomeBlock(piece, p.blocks);
    j :| 0 <= j < |p.blocks| && CutFrom(piece, p.blocks[j]);
    OffsetByWords(piece.addr, p.blocks[j].addr);
  }

  lemma OffsetByWords(a: nat, b: nat)
    requires b + LINK_SIZE <= a && (a - b - LINK_SIZE) % WORDSIZE == 0
    ensures a % WORDSIZE == 0 <==> b % WORDSIZE == WORDSIZE - LINK_SIZE
  {
    var words, q := (a - b - LINK_SIZE) / WORDSIZE, b / WORDSIZE;
    assert a == (words + q) * WORDSIZE + (b % WORDSIZE + LINK_SIZE);
  }
}
