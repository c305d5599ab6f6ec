/** The buffer heap of a network endpoint: nc_buffer_allocate, _deallocate and
    _coalesce in kernel/chips/nc.c, over the area given to nc_endpoint_allocate. */
module BufferHeap {
  import opened Words
  import opened BufferBlocks
  import opened BufferSteps
  import opened BufferCoalesce

  /** The size a request is served with, in 32-bit arithmetic. */
  function RoundUp(size: Word): Word {
    if size < HEADER_BYTES then HEADER_BYTES else (size + 3) % WORD_MODULUS / 4 * 4
  }

  /** Rounding covers the request, by the least whole number of words that is at
      least a header, exactly when size + 3 does not wrap. */
  lemma RoundUpCovers(size: Word)
    ensures RoundUp(size) % 4 == 0
    ensures size <= RoundUp(size) <==> size + 3 < WORD_MODULUS
    ensures size + 3 < WORD_MODULUS ==>
      HEADER_BYTES <= RoundUp(size) && (size <= HEADER_BYTES || RoundUp(size) < size + 4)
    ensures size + 3 >= WORD_MODULUS ==> RoundUp(size) == 0
  {}

  /** The area mk_endpoint_allocate_internal asks for. */
  function AreaSize(size: Word): Word {
    if size == 0 then 0x1000 else (size + 0xfff) % WORD_MODULUS / 0x1000 * 0x1000
  }

  /** Every area asked for is a whole number of words; it holds a header exactly
      when rounding the size does not wrap. */
  lemma AreasAreWhole(size: Word)
    ensures AreaSize(size) % 4 == 0
    ensures HEADER_BYTES <= AreaSize(size) <==> size + 0xfff < WORD_MODULUS
    ensures 0 < size && size + 0xfff < WORD_MODULUS ==> size <= AreaSize(size) < size + 0x1000
  {}

  /** The length of the block at the start of an area after buffers are cut off it. */
  function Shortened(length: int, sizes: seq<Word>): int
    decreases |sizes|
  {
    if sizes == [] then length else Shortened(length - RoundUp(sizes[0]), sizes[1..])
  }

  /** Cutting buffers off a length never makes a multiple of 4 of it, nor the
      other way round. */
  lemma {:induction false} CutsKeepRemainder(length: int, sizes: seq<Word>)
    decreases |sizes|
    ensures Shortened(length, sizes) % 4 == length % 4
  {
    if sizes != [] {
      RoundUpCovers(sizes[0]);
      CutsKeepRemainder(length - RoundUp(sizes[0]), sizes[1..]);
    }
  }

  class Heap {
    const base: nat
    const mem: array<Word>
    /** ecb->free_buffer */
    var freeBuffer: Word
    var overrun: bool

    /** A header was written behind the area. */
    ghost var strayed: bool
    ghost var blocks: Blocks
    ghost var used: set<nat>
    /** The free blocks in the order of the free list. */
    ghost var free: seq<nat>

    /** The word of the area at an address. */
    function Position(address: nat): nat
      requires base <= address
    {
      (address - base) / 4
    }

    ghost predicate Shape() {
      0 < base && base % 4 == 0 && base + 4 * mem.Length < WORD_MODULUS
    }

    ghost predicate Valid()
      reads this, mem
    {
      && Shape() && !strayed
      && Blocked(mem[..], blocks, used)
      && Listed(mem[..], base, blocks, used, free)
      && freeBuffer == Link(base, free, 0)
    }

    /** Some blocks fill the area, with their headers and free list in memory. */
    ghost predicate InOrder()
      reads this`strayed, this`freeBuffer, mem
    {
      && !strayed
      && exists blocks: Blocks, used: set<nat>, free: seq<nat> ::
        Blocked(mem[..], blocks, used) && Listed(mem[..], base, blocks, used, free) && freeBuffer == Link(base, free, 0)
    }

    ghost predicate Buffer(address: Word)
      reads this`used
    {
      base <= address && address % 4 == 0 && Position(address) in used
    }

    lemma ListedBlock(k: nat)
      requires Shape() && Blocked(mem[..], blocks, used) && Members(blocks, used, free) && k < |free|
      ensures free[k] in blocks && free[k] !in used && HEADER_WORDS <= blocks[free[k]]
      ensures free[k] + blocks[free[k]] <= mem.Length
      ensures Length(mem[free[k]]) == 4 * blocks[free[k]] && !IsUsed(mem[free[k]])
      ensures Position(Address(base, free[k])) == free[k] && base <= Address(base, free[k]) < WORD_MODULUS
    {
      assert free[k] in free && IsBlock(blocks, mem.Length, free[k]);
      HeaderParts(false, blocks[free[k]]);
    }

    /** The first length is no multiple of 4. */
    ghost predicate Odd()
      reads mem
    {
      Shape() && 0 < mem.Length && Length(mem[0]) % 4 != 0
    }

    lemma InOrderIsEven()
      requires Valid()
      ensures 0 < mem.Length && !Odd()
    {
      HeaderOf(0);
    }

    /** The heap of nc_endpoint_allocate: one free block, in order exactly when the
        size is a whole number of words. */
    constructor (base: nat, area: array<Word>, size: nat)
      requires 0 < base && base % 4 == 0 && base + 4 * area.Length < WORD_MODULUS
      requires HEADER_BYTES <= size < 0x8000_0000 && area.Length == (size + 3) / 4 && 4 * area.Length < 0x8000_0000
      modifies area
      ensures mem == area && this.base == base && freeBuffer == base && !overrun
      ensures size % 4 == 0 ==> Valid() && used == {} && blocks == map[0 := area.Length]
      ensures size % 4 != 0 ==> Odd()
    {
      this.base := base;
      mem := area;
      freeBuffer := base;
      overrun, strayed := false, false;
      blocks, used, free := map[0 := area.Length], {}, [0];
      new;
      mem[0] := 2 * size;
      mem[2] := NULL;
      mem[1] := NULL;
      if size % 4 == 0 {
        assert size == 4 * mem.Length && mem[0] == Header(false, mem.Length);
        HeaderParts(false, mem.Length);
        assert IsBlock(blocks, mem.Length, 0);
        assert Linked(mem[..], base, free, 0);
      }
    }

    /** The owner of a buffer writes into it, behind the word with its length. */
    method Fill(buffer: Word, i: nat, w: Word)
      requires Valid() && Buffer(buffer)
      requires Position(buffer) in blocks ==> 0 < i < blocks[Position(buffer)]
      modifies mem
      ensures Valid()
      ensures Position(buffer) + i < mem.Length && mem[..] == old(mem[..])[Position(buffer) + i := w]
    {
      var b := Position(buffer);
      assert IsBlock(blocks, mem.Length, b);
      ghost var before := mem[..];
      mem[b + i] := w;
      FillKeeps(before, base, blocks, used, free, b, i, w);
      assert mem[..] == Write(before, b + i, w);
    }

    lemma BeforeFree(b: nat)
      requires Valid() && b in used
      ensures b in blocks && b + 2 < mem.Length && Length(mem[b]) == 4 * blocks[b] &&
        base + 4 * mem.Length < WORD_MODULUS
      ensures freeBuffer != NULL <==> free != []
      ensures free != [] ==> Position(freeBuffer) == free[0] && base <= freeBuffer && free[0] + 2 < mem.Length
      ensures InArea(mem.Length, base, [b] + free) && 4 * blocks[b] < 0x8000_0000
      ensures var after := FreedMemory(mem[..], base, free, b, blocks[b]);
        && Blocked(after, blocks, used - {b}) && Listed(after, base, blocks, used - {b}, [b] + free)
        && KeepsTaken(mem[..], after, blocks, used - {b})
    {
      HeaderParts(true, blocks[b]);
      FreedKeeps(mem[..], base, blocks, used, free, b);
      FreedLeaves(mem[..], base, blocks, used, free, b);
    }

    /** nc_buffer_deallocate */
    method Deallocate(buffer: Word)
      requires Valid() && Buffer(buffer)
      modifies this`freeBuffer, this`free, this`used, mem
      ensures Valid()
      ensures used == old(used) - {Position(buffer)} && free == [Position(buffer)] + old(free)
      ensures KeepsTaken(old(mem[..]), mem[..], blocks, used)
    {
      ghost var before := mem[..];
      var b := Position(buffer);
      BeforeFree(b);
      hide Blocked, Listed, KeepsTaken, Header, InArea;
      mem[b] := Header(false, Length(mem[b]) / 4);
      mem[b + 2] := NULL;
      mem[b + 1] := freeBuffer;
      if freeBuffer != NULL {
        mem[Position(freeBuffer) + 2] := buffer;
      }
      freeBuffer := buffer;
      assert mem[..] == FreedMemory(before, base, free, b, blocks[b]);
      used := used - {b};
      free := [b] + free;
    }

    // ---- nc_buffer_coalesce ----

    /** The pass has reached word p; `list` is the rebuilt list, and memory and
        blocks were `start` and `first` when it began. */
    ghost predicate Coalescing(start: seq<Word>, first: Blocks, list: seq<nat>, p: nat)
      reads this`blocks, this`used, mem
    {
      && Shape() && (p == mem.Length || p in blocks)
      && Blocked(mem[..], blocks, used) && Partly(mem[..], base, blocks, used, list, p)
      && UsedKept(first, blocks, used) && KeepsTaken(start, mem[..], first, used)
    }

    /** What the header at a block says. */
    lemma HeaderOf(b: nat)
      requires Blocked(mem[..], blocks, used) && b in blocks
      ensures b < mem.Length && Length(mem[b]) == 4 * blocks[b] && IsUsed(mem[b]) == (b in used)
      ensures HEADER_WORDS <= blocks[b] && (b + blocks[b] == mem.Length || b + blocks[b] in blocks) &&
        b + blocks[b] <= mem.Length
    {
      assert IsBlock(blocks, mem.Length, b);
      HeaderParts(b in used, blocks[b]);
    }

    /** The free block at p swallows the free blocks behind it. */
    method Absorb(p: nat, ghost start: seq<Word>, ghost first: Blocks, ghost list: seq<nat>) returns (q: nat)
      requires Coalescing(start, first, list, p) && p in blocks && p !in used
      modifies this`blocks, mem
      ensures Coalescing(start, first, list, p) && p in blocks
      ensures p < q == p + blocks[p] <= mem.Length && Full(blocks, used, mem.Length, p)
    {
      hide Blocked, Partly, Header, Taken, KeepsTaken, UsedKept;
      HeaderOf(p);
      q := p + Length(mem[p]) / 4;
      if q < mem.Length { HeaderOf(q); }
      while q < mem.Length && !IsUsed(mem[q])
        invariant Coalescing(start, first, list, p) && p in blocks
        invariant p < q == p + blocks[p] && q <= mem.Length && (q == mem.Length || q in blocks)
        invariant q in blocks && q < mem.Length ==> IsUsed(mem[q]) == (q in used)
        decreases mem.Length - q
      {
        q := AbsorbOne(p, q, start, first, list);
      }
    }

    method AbsorbOne(p: nat, q: nat, ghost start: seq<Word>, ghost first: Blocks,
      ghost list: seq<nat>) returns (next: nat)
      requires Coalescing(start, first, list, p) && p in blocks && p !in used
      requires q == p + blocks[p] && q in blocks && q !in used
      modifies this`blocks, mem
      ensures Coalescing(start, first, list, p) && p in blocks
      ensures q < next == p + blocks[p] <= mem.Length && (next == mem.Length || next in blocks)
      ensures next in blocks && next < mem.Length ==> IsUsed(mem[next]) == (next in used)
    {
      hide Blocked, Partly, Header, Taken, KeepsTaken;
      HeaderOf(p);
      HeaderOf(q);
      // no length strays from a multiple of 4: trash_area is never reached
      assert Length(mem[p]) % 4 == 0 && Length(mem[q]) % 4 == 0;
      ghost var before := mem[..];
      ghost var were := blocks;
      MergeKeeps(before, base, blocks, used, list, p);
      next := q + Length(mem[q]) / 4;
      mem[p] := Header(false, (Length(mem[p]) + Length(mem[q])) / 4);
      blocks := MergedBlocks(blocks, p);
      assert mem[..] == Write(before, p, Header(false, blocks[p]));
      StillKept(start, before, mem[..], first, were, used);
      HeaderOf(p);
      if next < mem.Length { HeaderOf(next); }
    }

    /** The free block at p goes to the front of the rebuilt list. */
    method Push(p: nat, bufFree: Word, ghost start: seq<Word>, ghost first: Blocks, ghost list: seq<nat>)
      requires Coalescing(start, first, list, p) && p in blocks && p !in used
      requires Full(blocks, used, mem.Length, p) && bufFree == Link(base, list, 0)
      modifies mem
      ensures Coalescing(start, first, [p] + list, p + blocks[p])
    {
      ghost var before := mem[..];
      hide Blocked, Partly, Header, Taken, KeepsTaken, Full;
      HeaderOf(p);
      PushKeeps(before, base, blocks, used, list, p);
      mem[p + 1] := bufFree;
      mem[p + 2] := NULL;
      if bufFree != NULL {
        mem[Position(bufFree) + 2] := Address(base, p);
      }
      assert mem[..] == FreedMemory(before, base, list, p, blocks[p]);
      hide FreedMemory;
      StillKept(start, before, mem[..], first, blocks, used);
    }

    lemma AtStart()
      requires Valid()
      ensures Coalescing(mem[..], blocks, [], 0)
    {}

    lemma AtEnd(start: seq<Word>, first: Blocks, list: seq<nat>)
      requires Coalescing(start, first, list, mem.Length)
      ensures Listed(mem[..], base, blocks, used, list) && AllFull(blocks, used, mem.Length, list)
    {
      AllCollected(blocks, used, mem.Length, list);
    }

    /** nc_buffer_coalesce: no two free blocks stay in a row, and the buffers in
        use keep their place, length and contents. When the first length is no
        multiple of 4 the list is lost instead. */
    method Coalesce()
      requires Valid() || Odd()
      modifies this`freeBuffer, this`free, this`blocks, mem
      ensures old(Odd()) ==> freeBuffer == NULL && mem[..] == old(mem[..])
      ensures !old(Odd()) ==> Valid() && AllFull(blocks, used, mem.Length, free)
      ensures !old(Odd()) ==> UsedKept(old(blocks), blocks, used)
      ensures !old(Odd()) ==> KeepsTaken(old(mem[..]), mem[..], old(blocks), used)
    {
      if 0 < mem.Length && Length(mem[0]) % 4 != 0 {
        freeBuffer := NULL;
      } else {
        CoalesceAll();
      }
    }

    /** The pass over a heap in order: all later tests of a length succeed. */
    method CoalesceAll()
      requires Valid()
      modifies this`freeBuffer, this`free, this`blocks, mem
      ensures Valid() && AllFull(blocks, used, mem.Length, free)
      ensures UsedKept(old(blocks), blocks, used) && KeepsTaken(old(mem[..]), mem[..], old(blocks), used)
    {
      hide Blocked, Partly, Header, Taken, KeepsTaken, UsedKept, Members, Distinct, Chain, AllFull, Listed, Full;
      ghost var start, first := mem[..], blocks;
      AtStart();
      ghost var list: seq<nat> := [];
      var p: nat := 0;
      var bufFree: Word := NULL;
      while p < mem.Length
        invariant p <= mem.Length && Coalescing(start, first, list, p)
        invariant bufFree == Link(base, list, 0)
        decreases mem.Length - p
      {
        HeaderOf(p);
        assert Length(mem[p]) % 4 == 0;
        if IsUsed(mem[p]) {
          p := Skip(p, start, first, list);
        } else {
          var q := Absorb(p, start, first, list);
          Push(p, bufFree, start, first, list);
          list := [p] + list;
          bufFree := Address(base, p);
          p := q;
        }
      }
      AtEnd(start, first, list);
      freeBuffer := bufFree;
      free := list;
    }

    method Skip(p: nat, ghost start: seq<Word>, ghost first: Blocks, ghost list: seq<nat>) returns (next: nat)
      requires Coalescing(start, first, list, p) && p in blocks && p in used
      ensures p < next <= mem.Length && Coalescing(start, first, list, next)
    {
      HeaderOf(p);
      NothingBetween(blocks, used, mem.Length, list, p);
      next := p + Length(mem[p]) / 4;
    }

    // ---- nc_buffer_allocate ----

    lemma ListLinks(k: nat)
      requires Valid() && k < |free|
      ensures free[k] in blocks && free[k] !in used && HEADER_WORDS <= blocks[free[k]]
      ensures Position(Address(base, free[k])) == free[k] && free[k] + HEADER_WORDS <= mem.Length
      ensures 0 < base && base % 4 == 0 && base + 4 * mem.Length < WORD_MODULUS
      ensures Length(mem[free[k]]) == 4 * blocks[free[k]]
      ensures mem[free[k] + 1] == Link(base, free, k + 1) && mem[free[k] + 2] == Link(base, free, k - 1)
    {
      ListedBlock(k);
      assert Linked(mem[..], base, free, k);
    }

    /** The first search stops at a link that leaves the area. */
    method SearchList(size: Word) returns (buf: Word, ghost k: nat)
      requires Valid() && size % 4 == 0
      ensures buf != NULL ==> k < |free| && buf == Address(base, free[k]) && LongEnough(blocks, free[k], size / 4)
      ensures size == 0 ==> buf == freeBuffer && k == 0
    {
      hide Blocked, Listed, Header;
      buf := freeBuffer;
      k := 0;
      if buf != NULL {
        ListLinks(0);
        while Length(mem[Position(buf)]) < size
          invariant size == 0 ==> buf == freeBuffer && k == 0
          invariant k < |free| && buf == Address(base, free[k]) && Position(buf) == free[k] < mem.Length
          invariant free[k] in blocks && Length(mem[free[k]]) == 4 * blocks[free[k]]
          decreases |free| - k
        {
          ListLinks(k);
          buf := mem[Position(buf) + 1];
          if buf < base || buf > base + 4 * mem.Length - HEADER_BYTES || buf % 4 != 0 {
            buf := NULL;
            break;
          }
          k := k + 1;
          ListLinks(k);
        }
      }
    }

    /** The second search runs to the end of the list. */
    method SearchAll(size: Word) returns (buf: Word, ghost k: nat)
      requires Valid() && size % 4 == 0
      ensures buf != NULL ==> k < |free| && buf == Address(base, free[k]) && LongEnough(blocks, free[k], size / 4)
      ensures buf == NULL ==> forall j: nat :: j < |free| ==> !LongEnough(blocks, free[j], size / 4)
    {
      hide Blocked, Listed, Header;
      buf := freeBuffer;
      k := 0;
      while buf != NULL && (ListLinks(k); Length(mem[Position(buf)]) < size)
        invariant k <= |free| && buf == Link(base, free, k)
        invariant forall j: nat :: j < k ==> !LongEnough(blocks, free[j], size / 4)
        decreases |free| - k
      {
        ListLinks(k);
        buf := mem[Position(buf) + 1];
        k := k + 1;
      }
      if buf != NULL { ListLinks(k); }
      if k < |free| { ListLinks(k); }
    }

    lemma BeforeTake(k: nat)
      requires Valid() && k < |free|
      ensures Unlinkable(k) && 4 * blocks[free[k]] < 0x8000_0000
      ensures var after := TakenMemory(mem[..], base, free, k, blocks[free[k]]);
        && Blocked(after, blocks, used + {free[k]})
        && Listed(after, base, blocks, used + {free[k]}, Without(free, k))
        && KeepsTaken(mem[..], after, blocks, used)
    {
      TakenKeeps(mem[..], base, blocks, used, free, k);
      ListSpaced(blocks, mem.Length, base, free);
      ListLinks(k);
    }

    /** What unlinking the k-th block relies on. */
    ghost predicate Unlinkable(k: nat)
      requires k < |free|
      reads this, mem
    {
      && Shape() && InArea(mem.Length, base, free) && AllDistant(free) && Linked(mem[..], base, free, k)
      && free[k] in blocks && Length(mem[free[k]]) == 4 * blocks[free[k]]
      && freeBuffer == Link(base, free, 0)
    }

    /** A free block is used as a whole. */
    method TakeWhole(buf: Word, ghost k: nat)
      requires Valid() && k < |free| && buf == Address(base, free[k])
      modifies this`freeBuffer, this`free, this`used, mem
      ensures Valid()
      ensures used == old(used) + {old(free)[k]} && KeepsTaken(old(mem[..]), mem[..], blocks, old(used))
    {
      BeforeTake(k);
      hide Blocked, Listed, KeepsTaken, Header;
      Unlink(buf, k);
      used := used + {free[k]};
      free := Without(free, k);
    }

    method Unlink(buf: Word, ghost k: nat)
      requires k < |free| && buf == Address(base, free[k])
      requires Unlinkable(k) && 4 * blocks[free[k]] < 0x8000_0000
      modifies this`freeBuffer, mem
      ensures mem[..] == TakenMemory(old(mem[..]), base, free, k, blocks[free[k]])
      ensures freeBuffer == Link(base, Without(free, k), 0)
    {
      hide Header, AllDistant;
      ghost var before := mem[..];
      var b := Position(buf);
      var next, previous := mem[b + 1], mem[b + 2];
      Neighbours(k);
      HeaderParts(true, blocks[free[k]]);
      if previous == NULL {
        freeBuffer := next;
      } else {
        mem[Position(previous) + 1] := next;
      }
      if next != NULL {
        mem[Position(next) + 2] := previous;
      }
      mem[b] := Header(true, Length(mem[b]) / 4);
    }

    lemma Neighbours(k: nat)
      requires k < |free| && Unlinkable(k)
      ensures k > 0 ==>
        Distant(free[k - 1], free[k]) && Position(Address(base, free[k - 1])) == free[k - 1] < mem.Length - 2
      ensures k + 1 < |free| ==>
        Distant(free[k + 1], free[k]) && Position(Address(base, free[k + 1])) == free[k + 1] < mem.Length - 2
    {}

    lemma BeforeSplit(k: nat, words: nat) returns (cut: nat, split: Blocks)
      requires Valid() && k < |free| && HEADER_WORDS <= words
      requires free[k] in blocks ==> words + HEADER_WORDS <= blocks[free[k]]
      ensures free[k] in blocks && free[k] + blocks[free[k]] <= mem.Length && 4 * mem.Length < 0x8000_0000
      ensures cut == free[k] + blocks[free[k]] - words && cut !in blocks
      ensures UsedKept(blocks, split, used) && cut in split && split[cut] == words
      ensures var after := SplitMemory(mem[..], blocks, free[k], words);
        && Blocked(after, split, used + {cut})
        && Listed(after, base, split, used + {cut}, free)
        && KeepsTaken(mem[..], after, blocks, used)
    {
      ListedBlock(k);
      SplitKeeps(mem[..], base, blocks, used, free, k, words);
      cut, split := free[k] + blocks[free[k]] - words, SplitBlocks(blocks, free[k], words);
    }

    lemma Apart(b: nat, words: nat)
      requires Shape() && b in blocks && words <= blocks[b]
      ensures var buffer := Address(base, b) + 4 * blocks[b] - 4 * words;
        base <= buffer && buffer % 4 == 0 && Position(buffer) == b + blocks[b] - words
    {}

    /** The end of free block b is cut off and marked. */
    method Cut(buf: Word, size: Word, ghost b: nat) returns (buffer: Word)
      requires Shape() && b in blocks && b + blocks[b] <= mem.Length && 4 * mem.Length < 0x8000_0000
      requires size % 4 == 0 && size <= 4 * blocks[b] && 0 < blocks[b]
      requires buf == Address(base, b) && mem[b] == Header(false, blocks[b])
      modifies mem, this`strayed
      ensures buffer == buf + 4 * blocks[b] - size
      ensures 0 < size ==> mem[..] == SplitMemory(old(mem[..]), blocks, b, size / 4) && strayed == old(strayed)
      ensures size == 0 ==> mem[..] == WrappedMemory(old(mem[..]), b + blocks[b])
      ensures size == 0 ==> strayed == (old(strayed) || b + blocks[b] == mem.Length)
    {
      HeaderParts(false, blocks[b]);
      HeaderParts(false, blocks[b] - size / 4);
      HeaderParts(true, size / 4);
      hide Header;
      Apart(b, size / 4);
      var rest := Length(mem[Position(buf)]) - size;
      mem[Position(buf)] := Header(false, rest / 4);
      buffer := buf + rest;
      if Position(buffer) < mem.Length {
        mem[Position(buffer)] := Header(true, size / 4);
      } else {
        strayed := true;
      }
    }

    lemma FreeHeader(k: nat)
      requires Valid() && k < |free|
      ensures free[k] in blocks && free[k] < free[k] + blocks[free[k]] <= mem.Length && 4 * mem.Length < 0x8000_0000
      ensures mem[free[k]] == Header(false, blocks[free[k]]) && free[k] !in used && used <= blocks.Keys
    {
      ListedBlock(k);
    }

    /** The end of a free block is cut off and used. */
    method SplitOff(buf: Word, size: Word, ghost k: nat) returns (buffer: Word)
      requires Valid() && k < |free| && buf == Address(base, free[k])
      requires size % 4 == 0 && HEADER_BYTES <= size
      requires free[k] in blocks ==> size + HEADER_BYTES <= 4 * blocks[free[k]]
      modifies this`blocks, this`used, this`strayed, mem
      ensures Valid()
      ensures base <= buffer && buffer % 4 == 0 && buffer != NULL && Position(buffer) !in old(blocks)
      ensures used == old(used) + {Position(buffer)} && UsedKept(old(blocks), blocks, old(used))
      ensures Position(buffer) in blocks && 4 * blocks[Position(buffer)] == size
      ensures KeepsTaken(old(mem[..]), mem[..], old(blocks), old(used))
    {
      ghost var cut, split := BeforeSplit(k, size / 4);
      FreeHeader(k);
      Apart(free[k], size / 4);
      hide Blocked, Listed, KeepsTaken, Header, UsedKept, SplitMemory, Address, Shape, InArea, Link, Length;
      buffer := Cut(buf, size, free[k]);
      assert Position(buffer) == cut;
      hide Position;
      blocks := split;
      used := used + {cut};
    }

    /** The header of an empty buffer has been written where the block behind the
        first free one begins, or behind the area. */
    ghost predicate Wrapped(before: seq<Word>, first: Blocks, list: seq<nat>, buffer: Word)
      reads this`strayed, mem
    {
      && list != [] && list[0] in first
      && var next := list[0] + first[list[0]];
      && buffer == Address(base, next) && (next in first || next == mem.Length)
      && mem[..] == WrappedMemory(before, next) && strayed == (next == mem.Length)
    }

    /** With a size of zero nothing is cut off. */
    method SplitNothing(buf: Word) returns (buffer: Word)
      requires Valid() && free != [] && buf == freeBuffer
      modifies this`strayed, mem
      ensures Wrapped(old(mem[..]), blocks, free, buffer) && !InOrder() && buffer != NULL
    {
      ghost var before := mem[..];
      ghost var b := free[0];
      FreeHeader(0);
      assert IsBlock(blocks, mem.Length, b);
      buffer := Cut(buf, 0, b);
      if b + blocks[b] < mem.Length {
        forall now: Blocks, inUse: set<nat> ensures !Blocked(mem[..], now, inUse) {
          WrappedSplitBreaks(before, blocks, used, b, now, inUse);
        }
      }
    }

    /** nc_buffer_allocate. Unless the size wraps: NULL exactly when that many
        bytes in a row are nowhere free; otherwise the buffer lies where no buffer
        was, is long enough, and every other buffer keeps its place, length and
        contents. A size that wraps breaks the heap whenever a block is listed. */
    method Allocate(size: Word) returns (buffer: Word)
      requires Valid()
      modifies this, mem
      ensures InOrder() <==> size + 3 < WORD_MODULUS || old(freeBuffer) == NULL
      ensures InOrder() ==> Valid()
      ensures size + 3 < WORD_MODULUS ==>
        (buffer == NULL <==> !HasRoom(old(blocks), old(used), mem.Length, RoundUp(size) / 4))
      ensures size + 3 >= WORD_MODULUS ==> (buffer == NULL <==> old(freeBuffer) == NULL)
      ensures overrun == (old(overrun) || buffer == NULL)
      ensures buffer == NULL ==> used == old(used)
      ensures buffer != NULL && InOrder() ==>
        && Buffer(buffer) && Position(buffer) in blocks && Position(buffer) !in old(used)
        && used == old(used) + {Position(buffer)}
        && RoundUp(size) <= 4 * blocks[Position(buffer)] < RoundUp(size) + HEADER_BYTES
      ensures InOrder() ==> UsedKept(old(blocks), blocks, old(used))
      ensures InOrder() ==> KeepsTaken(old(mem[..]), mem[..], old(blocks), old(used))
      ensures !InOrder() ==> Wrapped(old(mem[..]), old(blocks), old(free), buffer) && used == old(used)
    {
      ghost var start, first := mem[..], blocks;
      var rounded := RoundUp(size);
      RoundUpCovers(size);
      LinkTells();
      ghost var k: nat;
      buffer, k := SearchList(rounded);
      if buffer != NULL {
        FreeBlockIsRoom(blocks, used, mem.Length, free, k, rounded / 4);
      } else {
        buffer, k := SearchAgain(rounded);
      }
      if buffer == NULL {
        overrun := true;
      } else {
        buffer := TakeFrom(buffer, rounded, k, start, first);
      }
    }

    lemma LinkTells()
      requires Valid()
      ensures freeBuffer == NULL <==> free == []
    {}

    /** The search after nc_buffer_coalesce finds a block exactly when there is room. */
    method SearchAgain(size: Word) returns (buf: Word, ghost k: nat)
      requires Valid() && size % 4 == 0
      modifies this`freeBuffer, this`free, this`blocks, mem
      ensures Valid()
      ensures UsedKept(old(blocks), blocks, used) && KeepsTaken(old(mem[..]), mem[..], old(blocks), used)
      ensures buf != NULL ==> k < |free| && buf == Address(base, free[k]) && LongEnough(blocks, free[k], size / 4)
      ensures 0 < size ==> (buf == NULL <==> !HasRoom(old(blocks), used, mem.Length, size / 4))
      ensures old(free) == [] ==> buf == NULL
    {
      ghost var first := blocks;
      NoneListed();
      InOrderIsEven();
      Coalesce();
      NoneListed();
      buf, k := SearchAll(size);
      RoomKept(first, blocks, used, mem.Length, 1);
      RoomKept(first, blocks, used, mem.Length, size / 4);
      if 0 < size { RoomIsABlock(blocks, used, mem.Length, free, size / 4); }
    }

    /** Where every block is in use there is no room for a word. */
    lemma NoneListed()
      requires Valid()
      ensures free == [] <==> !HasRoom(blocks, used, mem.Length, 1)
    {
      if free == [] {
        RoomIsABlock(blocks, used, mem.Length, free, 1);
      } else {
        ListedBlock(0);
        FreeBlockIsRoom(blocks, used, mem.Length, free, 0, 1);
      }
    }

    /** The block found is used as a whole unless what is left makes a block. */
    method TakeFrom(buf: Word, size: Word, ghost k: nat, ghost start: seq<Word>,
      ghost first: Blocks) returns (buffer: Word)
      requires Valid() && k < |free| && buf == Address(base, free[k]) && LongEnough(blocks, free[k], size / 4)
      requires size % 4 == 0 && (HEADER_BYTES <= size || (size == 0 && k == 0))
      requires UsedKept(first, blocks, used) && KeepsTaken(start, mem[..], first, used)
      modifies this`freeBuffer, this`blocks, this`free, this`used, this`strayed, mem
      ensures size == 0 ==> Wrapped(old(mem[..]), old(blocks), old(free), buffer) && used == old(used) && !InOrder()
      ensures buffer != NULL
      ensures 0 < size ==> Valid() && Buffer(buffer) && Position(buffer) in blocks && Position(buffer) !in old(used)
      ensures 0 < size ==> used == old(used) + {Position(buffer)}
      ensures 0 < size ==> size <= 4 * blocks[Position(buffer)] < size + HEADER_BYTES
      ensures 0 < size ==> UsedKept(first, blocks, old(used)) && KeepsTaken(start, mem[..], first, old(used))
    {
      hide Blocked, Listed, KeepsTaken, Header, Wrapped, InOrder;
      ghost var before, were, taken := mem[..], blocks, used;
      ListLinks(k);
      if Length(mem[Position(buf)]) < (size + HEADER_BYTES) % WORD_MODULUS {
        TakeWhole(buf, k);
        buffer := buf;
      } else if size == 0 {
        buffer := SplitNothing(buf);
        return;
      } else {
        buffer := SplitOff(buf, size, k);
      }
      StillKept(start, before, mem[..], first, were, taken);
    }
  }

  lemma RoomKept(before: Blocks, after: Blocks, used: set<nat>, n: nat, words: nat)
    requires UsedKept(before, after, used)
    ensures HasRoom(before, used, n, words) <==> HasRoom(after, used, n, words)
  {
    SameTaken(before, after, used);
    hide Taken;
    if a: nat :| RoomAt(before, used, n, a, words) {
      assert RoomAt(after, used, n, a, words);
    }
    if a: nat :| RoomAt(after, used, n, a, words) {
      assert RoomAt(before, used, n, a, words);
    }
  }

  /** After an allocation exactly the words of the new buffer are newly taken. */
  lemma AllocationTakes(before: Blocks, after: Blocks, used: set<nat>, b: nat)
    requires UsedKept(before, after, used) && b in after
    ensures forall x :: Taken(after, used + {b}, x) <==> Taken(before, used, x) || Inside(after, b, x)
  {}

  lemma FillKeeps(mem: seq<Word>, base: nat, blocks: Blocks, used: set<nat>, free: seq<nat>, b: nat, i: nat, w: Word)
    requires Blocked(mem, blocks, used) && Listed(mem, base, blocks, used, free)
    requires b in used && 0 < i < blocks[b] && b + i < |mem|
    ensures Blocked(Write(mem, b + i, w), blocks, used) && Listed(Write(mem, b + i, w), base, blocks, used, free)
  {
    var after := Write(mem, b + i, w);
    Spaced(blocks, |mem|);
    assert Chain(after, base, free) by {
      hide Encoded, Address;
      forall k: nat | k < |free| ensures Linked(after, base, free, k) {
        assert Linked(mem, base, free, k) && free[k] in free;
      }
    }
  }

  lemma FreedLeaves(mem: seq<Word>, base: nat, blocks: Blocks, used: set<nat>, free: seq<nat>, b: nat)
    requires Blocked(mem, blocks, used) && Listed(mem, base, blocks, used, free) && b in used
    requires InArea(|mem|, base, [b] + free) && b + 2 < |mem| && (free != [] ==> free[0] + 2 < |mem|) &&
      4 * blocks[b] < 0x8000_0000
    ensures KeepsTaken(mem, FreedMemory(mem, base, free, b, blocks[b]), blocks, used - {b})
  {
    FreeSpaced(blocks, |mem|, base, used, free, b);
    FreedValues(mem, base, free, b, blocks[b]);
    hide FreedMemory, Prepended, AllDistant, InArea, Encoded, Chain, Header;
    assert free != [] ==> free[0] in free;
    PushLeaves(mem, FreedMemory(mem, base, free, b, blocks[b]), blocks, used - {b}, free, b);
  }
}
