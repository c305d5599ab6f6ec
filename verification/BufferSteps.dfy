/** What each update of the buffer heap writes, and why the layout survives it. */
module BufferSteps {
  import opened Words
  import opened BufferBlocks

  // ---- a buffer is freed ----

  /** The memory after nc_buffer_deallocate of block b. */
  ghost function FreedMemory(mem: seq<Word>, base: nat, free: seq<nat>, b: nat, words: nat): seq<Word>
    requires InArea(|mem|, base, [b] + free) && b + 2 < |mem| && (free != [] ==> free[0] + 2 < |mem|)
    requires 4 * words < 0x8000_0000
  {
    var m := Write(mem, b, Header(false, words));
    var m := Write(m, b + 2, NULL);
    var m := Write(m, b + 1, LinkWord(|mem|, base, [b] + free, 1));
    if free == [] then m else Write(m, free[0] + 2, LinkWord(|mem|, base, [b] + free, 0))
  }

  /** Block b is linked in before the list. */
  ghost predicate Prepended(mem: seq<Word>, after: seq<Word>, base: nat, free: seq<nat>, b: nat) {
    && |after| == |mem| && b + 2 < |mem|
    && after[b + 1] == Link(base, free, 0) && after[b + 2] == NULL
    && forall k: nat :: k < |free| && free[k] + 2 < |mem| ==>
      after[free[k] + 1] == mem[free[k] + 1] &&
        after[free[k] + 2] == if k == 0 then Address(base, b) else mem[free[k] + 2]
  }

  lemma PrependedChain(mem: seq<Word>, after: seq<Word>, base: nat, free: seq<nat>, b: nat)
    requires Chain(mem, base, free) && Prepended(mem, after, base, free, b)
    ensures Chain(after, base, [b] + free)
  {
    var list := [b] + free;
    forall k: nat | k < |list| ensures Linked(after, base, list, k) {
      if k > 0 { assert Linked(mem, base, free, k - 1); }
    }
  }

  lemma FreedValues(mem: seq<Word>, base: nat, free: seq<nat>, b: nat, words: nat)
    requires InArea(|mem|, base, [b] + free) && b + 2 < |mem| && (free != [] ==> free[0] + 2 < |mem|)
    requires 4 * words < 0x8000_0000 && AllDistant([b] + free)
    ensures var after := FreedMemory(mem, base, free, b, words);
      && |after| == |mem|
      && after[b] == Header(false, words)
      && Prepended(mem, after, base, free, b)
      && forall y: nat :: y < |mem| && y != b && y != b + 1 && y != b + 2 && (free == [] || y != free[0] + 2) ==>
        after[y] == mem[y]
  {
    var list := [b] + free;
    var after := FreedMemory(mem, base, free, b, words);
    assert list[0] == b && (free != [] ==> list[1] == free[0] && Distant(list[0], list[1]));
    assert Link(base, list, 1) == Link(base, free, 0);
    hide Header, Address;
    forall k: nat | k < |free| && free[k] + 2 < |mem| ensures
      after[free[k] + 1] == mem[free[k] + 1] &&
        after[free[k] + 2] == if k == 0 then Address(base, b) else mem[free[k] + 2]
    {
      assert list[k + 1] == free[k] && Distant(list[0], list[k + 1]);
      assert k > 0 ==> Distant(list[1], list[k + 1]);
    }
  }

  lemma FreeSpaced(blocks: Blocks, n: nat, base: nat, used: set<nat>, free: seq<nat>, b: nat)
    requires Tiles(blocks, n) && Members(blocks, used, free) && Distinct(free)
    requires b in blocks && b in used && base + 4 * n < WORD_MODULUS
    ensures Members(blocks, used - {b}, [b] + free) && Distinct([b] + free)
    ensures InArea(n, base, [b] + free) && AllDistant([b] + free)
    ensures b + 2 < n && (free != [] ==> free[0] + 2 < n && free[0] in blocks)
  {
    assert b !in free;
    var list := [b] + free;
    assert Distinct(list) by {
      forall i: nat, j: nat | i < j < |list| ensures list[i] != list[j] {
        assert list[j] == free[j - 1] && free[j - 1] in free;
        assert i > 0 ==> list[i] == free[i - 1] && free[i - 1] != free[j - 1];
      }
    }
    ListSpaced(blocks, n, base, list);
    assert list[0] == b && (free != [] ==> list[1] == free[0] && free[0] in free);
  }

  /** Words of used blocks and headers of other blocks are untouched. */
  lemma FreedKeeps(mem: seq<Word>, base: nat, blocks: Blocks, used: set<nat>, free: seq<nat>, b: nat)
    requires Blocked(mem, blocks, used) && Listed(mem, base, blocks, used, free) && b in used
    requires base + 4 * |mem| < WORD_MODULUS
    ensures InArea(|mem|, base, [b] + free) && b + 2 < |mem| && (free != [] ==> free[0] + 2 < |mem|) &&
      4 * blocks[b] < 0x8000_0000
    ensures var after := FreedMemory(mem, base, free, b, blocks[b]);
      Blocked(after, blocks, used - {b}) && Listed(after, base, blocks, used - {b}, [b] + free)
  {
    Spaced(blocks, |mem|);
    assert IsBlock(blocks, |mem|, b);
    FreeSpaced(blocks, |mem|, base, used, free, b);
    FreedValues(mem, base, free, b, blocks[b]);
    var after := FreedMemory(mem, base, free, b, blocks[b]);
    PrependedChain(mem, after, base, free, b);
    hide Header, FreedMemory, Link, Tiles, Address, Chain, AllDistant, Prepended, Members, Distinct, InArea;
    forall c | c in blocks ensures c < |after| && after[c] == Header(c in used - {b}, blocks[c]) {}
  }

  // ---- a whole free block is taken ----

  ghost function Without(free: seq<nat>, k: nat): seq<nat>
    requires k < |free|
  {
    free[..k] + free[k + 1..]
  }

  /** The memory after the k-th free block is unlinked and marked. */
  ghost function TakenMemory(mem: seq<Word>, base: nat, free: seq<nat>, k: nat, words: nat): seq<Word>
    requires InArea(|mem|, base, free) && k < |free| && 4 * words < 0x8000_0000
  {
    var m := if k == 0 then mem else Write(mem, free[k - 1] + 1, LinkWord(|mem|, base, free, k + 1));
    var m := if k + 1 == |free| then m else Write(m, free[k + 1] + 2, LinkWord(|mem|, base, free, k - 1));
    Write(m, free[k], Header(true, words))
  }

  /** The links of the others lead past the k-th block. */
  ghost predicate Bypassed(mem: seq<Word>, after: seq<Word>, base: nat, free: seq<nat>, k: nat) {
    && |after| == |mem|
    && forall j: nat :: j < |free| && j != k && free[j] + 2 < |mem| ==>
      && after[free[j] + 1] == (if j + 1 == k then Link(base, free, k + 1) else mem[free[j] + 1])
      && after[free[j] + 2] == (if j == k + 1 then Link(base, free, k - 1) else mem[free[j] + 2])
  }

  lemma BypassedChain(mem: seq<Word>, after: seq<Word>, base: nat, free: seq<nat>, k: nat)
    requires Chain(mem, base, free) && k < |free| && Bypassed(mem, after, base, free, k)
    ensures Chain(after, base, Without(free, k))
  {
    hide Address;
    var rest := Without(free, k);
    forall j: nat | j < |rest| ensures Linked(after, base, rest, j) {
      var i := if j < k then j else j + 1;
      assert Linked(mem, base, free, i) && rest[j] == free[i];
    }
  }

  lemma WithoutParts(blocks: Blocks, used: set<nat>, free: seq<nat>, k: nat)
    requires Members(blocks, used, free) && Distinct(free) && k < |free|
    ensures Members(blocks, used + {free[k]}, Without(free, k)) && Distinct(Without(free, k))
  {
    var rest := Without(free, k);
    forall j: nat | j < |rest| ensures rest[j] == free[if j < k then j else j + 1] {}
    forall b ensures b in rest <==> b in blocks && b !in used + {free[k]} {
      if b in rest {
        var j :| 0 <= j < |rest| && rest[j] == b;
        assert free[if j < k then j else j + 1] in free;
      }
      if b in free && b != free[k] {
        var j :| 0 <= j < |free| && free[j] == b;
        assert rest[if j < k then j else j - 1] == b;
      }
    }
  }

  lemma TakenValues(mem: seq<Word>, base: nat, free: seq<nat>, k: nat, words: nat)
    requires InArea(|mem|, base, free) && AllDistant(free) && k < |free| && 4 * words < 0x8000_0000
    ensures var after := TakenMemory(mem, base, free, k, words);
      && |after| == |mem|
      && after[free[k]] == Header(true, words)
      && Bypassed(mem, after, base, free, k)
      && forall y: nat ::
        y < |mem| && y != free[k] && (k > 0 ==> y != free[k - 1] + 1) && (k + 1 < |free| ==> y != free[k + 1] + 2) ==>
          after[y] == mem[y]
  {
    hide Header, Address;
    var after := TakenMemory(mem, base, free, k, words);
    forall j: nat | j < |free| && j != k
      ensures after[free[j] + 1] == (if j + 1 == k then Link(base, free, k + 1) else mem[free[j] + 1])
      ensures after[free[j] + 2] == (if j == k + 1 then Link(base, free, k - 1) else mem[free[j] + 2])
    {
      assert Distant(free[j], free[k]);
      assert k > 0 && j != k - 1 ==> Distant(free[j], free[k - 1]);
      assert k + 1 < |free| && j != k + 1 ==> Distant(free[j], free[k + 1]);
    }
  }

  /** Every step keeps the words of the buffers in use. */
  ghost predicate KeepsTaken(mem: seq<Word>, after: seq<Word>, blocks: Blocks, used: set<nat>)
    requires used <= blocks.Keys
  {
    |after| == |mem| && forall x :: 0 <= x < |mem| && Taken(blocks, used, x) ==> after[x] == mem[x]
  }

  /** A word within the header of a free block belongs to no buffer in use. */
  lemma FreeWord(blocks: Blocks, n: nat, used: set<nat>, b: nat, x: nat)
    requires Tiles(blocks, n) && used <= blocks.Keys
    requires b in blocks && b !in used && Inside(blocks, b, x)
    ensures !Taken(blocks, used, x)
  {
  }

  lemma ListedWord(blocks: Blocks, n: nat, used: set<nat>, free: seq<nat>, k: nat, i: nat)
    requires Tiles(blocks, n) && used <= blocks.Keys && Members(blocks, used, free) && k < |free| && i < HEADER_WORDS
    ensures !Taken(blocks, used, free[k] + i)
  {
    assert free[k] in free && IsBlock(blocks, n, free[k]);
    FreeWord(blocks, n, used, free[k], free[k] + i);
  }

  lemma TakenLeaves(mem: seq<Word>, base: nat, blocks: Blocks, used: set<nat>, free: seq<nat>, k: nat, words: nat)
    requires Tiles(blocks, |mem|) && used <= blocks.Keys && Members(blocks, used, free) && k < |free|
    requires InArea(|mem|, base, free) && AllDistant(free) && 4 * words < 0x8000_0000
    ensures KeepsTaken(mem, TakenMemory(mem, base, free, k, words), blocks, used)
  {
    TakenValues(mem, base, free, k, words);
    hide Header, TakenMemory, Address, AllDistant, Bypassed, Taken;
    ListedWord(blocks, |mem|, used, free, k, 0);
    if k > 0 { ListedWord(blocks, |mem|, used, free, k - 1, 1); }
    if k + 1 < |free| { ListedWord(blocks, |mem|, used, free, k + 1, 2); }
  }

  lemma TakenEncoded(mem: seq<Word>, base: nat, blocks: Blocks, used: set<nat>, free: seq<nat>, k: nat)
    requires Blocked(mem, blocks, used) && Members(blocks, used, free) && k < |free|
    requires InArea(|mem|, base, free) && AllDistant(free) && free[k] in blocks && 4 * blocks[free[k]] < 0x8000_0000
    ensures Blocked(TakenMemory(mem, base, free, k, blocks[free[k]]), blocks, used + {free[k]})
  {
    Spaced(blocks, |mem|);
    TakenValues(mem, base, free, k, blocks[free[k]]);
    assert k > 0 ==> free[k - 1] in free;
    assert k + 1 < |free| ==> free[k + 1] in free;
    var after := TakenMemory(mem, base, free, k, blocks[free[k]]);
    hide Header, TakenMemory, Link, Tiles, Address, AllDistant, Bypassed, InArea;
    forall c | c in blocks ensures c < |after| && after[c] == Header(c in used + {free[k]}, blocks[c]) {}
  }

  lemma TakenKeeps(mem: seq<Word>, base: nat, blocks: Blocks, used: set<nat>, free: seq<nat>, k: nat)
    requires Blocked(mem, blocks, used) && Listed(mem, base, blocks, used, free) && k < |free|
    requires base + 4 * |mem| < WORD_MODULUS
    ensures InArea(|mem|, base, free) && free[k] in blocks && free[k] !in used && 4 * blocks[free[k]] < 0x8000_0000
    ensures var after := TakenMemory(mem, base, free, k, blocks[free[k]]);
      && Blocked(after, blocks, used + {free[k]})
      && Listed(after, base, blocks, used + {free[k]}, Without(free, k))
      && KeepsTaken(mem, after, blocks, used)
  {
    assert free[k] in free && IsBlock(blocks, |mem|, free[k]);
    ListSpaced(blocks, |mem|, base, free);
    hide Tiles, Encoded, TakenMemory, Header;
    TakenValues(mem, base, free, k, blocks[free[k]]);
    WithoutParts(blocks, used, free, k);
    BypassedChain(mem, TakenMemory(mem, base, free, k, blocks[free[k]]), base, free, k);
    TakenLeaves(mem, base, blocks, used, free, k, blocks[free[k]]);
    hide Members, Chain, AllDistant, Distinct, InArea, KeepsTaken, Without;
    TakenEncoded(mem, base, blocks, used, free, k);
  }

  // ---- a free block is split ----

  /** The memory after the last `words` words of free block b are cut off. */
  ghost function SplitMemory(mem: seq<Word>, blocks: Blocks, b: nat, words: nat): seq<Word>
    requires b in blocks && words <= blocks[b] && b + blocks[b] <= |mem| && 4 * |mem| < 0x8000_0000 && 0 < words
  {
    Write(Write(mem, b, Header(false, blocks[b] - words)), b + blocks[b] - words, Header(true, words))
  }

  ghost function SplitBlocks(blocks: Blocks, b: nat, words: nat): Blocks
    requires b in blocks && words <= blocks[b]
  {
    blocks[b := blocks[b] - words][b + blocks[b] - words := words]
  }

  lemma SplitTiles(blocks: Blocks, n: nat, b: nat, words: nat)
    requires Tiles(blocks, n) && b in blocks
    requires HEADER_WORDS <= words && words + HEADER_WORDS <= blocks[b]
    ensures Tiles(SplitBlocks(blocks, b, words), n)
    ensures b + blocks[b] - words !in blocks
  {
    var cut := b + blocks[b] - words;
    var after := SplitBlocks(blocks, b, words);
    assert IsBlock(blocks, n, b);
    forall c | c in after ensures IsBlock(after, n, c) {
      assert c in blocks ==> IsBlock(blocks, n, c);
    }
    hide IsBlock;
    forall c, d | c in after && d in after && c < d ensures c + after[c] <= d {
      if c in blocks && c != cut {
        assert c < b ==> c + blocks[c] <= b;
      }
      if d in blocks && d != cut {
        assert b < d ==> b + blocks[b] <= d;
      }
    }
  }

  lemma SplitKeeps(mem: seq<Word>, base: nat, blocks: Blocks, used: set<nat>, free: seq<nat>, k: nat, words: nat)
    requires Blocked(mem, blocks, used) && Listed(mem, base, blocks, used, free) && k < |free|
    requires base + 4 * |mem| < WORD_MODULUS
    requires free[k] in blocks ==> HEADER_WORDS <= words && words + HEADER_WORDS <= blocks[free[k]]
    ensures free[k] in blocks && free[k] !in used && free[k] + blocks[free[k]] <= |mem|
    ensures var b := free[k]; var cut := b + blocks[b] - words; var split := SplitBlocks(blocks, b, words);
      var after := SplitMemory(mem, blocks, b, words);
      && cut !in blocks
      && Blocked(after, split, used + {cut})
      && Listed(after, base, split, used + {cut}, free)
      && KeepsTaken(mem, after, blocks, used)
  {
    var b := free[k];
    assert b in free && IsBlock(blocks, |mem|, b);
    var cut := b + blocks[b] - words;
    SplitTiles(blocks, |mem|, b, words);
    Spaced(blocks, |mem|);
    var split := SplitBlocks(blocks, b, words);
    var after := SplitMemory(mem, blocks, b, words);
    assert KeepsTaken(mem, after, blocks, used) by {
      hide Header, Address, Chain, Distinct, Encoded;
      FreeWord(blocks, |mem|, used, b, b);
      FreeWord(blocks, |mem|, used, b, cut);
    }
    assert Chain(after, base, free) by {
      hide Header, Address, Encoded;
      forall j: nat | j < |free| ensures Linked(after, base, free, j) {
        assert Linked(mem, base, free, j) && free[j] in free;
        assert free[j] != b ==> free[j] + HEADER_WORDS <= b || b + blocks[b] <= free[j];
      }
    }
    hide Header, Link, Address, Chain, Distinct, KeepsTaken;
    assert Encoded(after, split, used + {cut});
  }

  // ---- a free block is split for no words at all ----

  /** The memory after the size wrapped to zero: block b keeps its length, and
      the header of an empty buffer is written where the next block begins. */
  ghost function WrappedMemory(mem: seq<Word>, next: nat): seq<Word> {
    if next < |mem| then Write(mem, next, Header(true, 0)) else mem
  }

  lemma HeaderTells(used: bool, words: nat, used': bool, words': nat)
    requires Header(used, words) == Header(used', words')
    ensures words == words'
  {}

  /** The headers up to block b lead from the start of the area to its end. */
  lemma {:induction false} HeadersLead(mem: seq<Word>, blocks: Blocks, used: set<nat>, b: nat,
                                       after: seq<Word>, now: Blocks, inUse: set<nat>)
    requires Blocked(mem, blocks, used) && b in blocks && b + blocks[b] < |mem|
    requires |after| == |mem| && forall y: nat :: y <= b ==> after[y] == mem[y]
    requires Tiles(now, |mem|) && Encoded(after, now, inUse)
    ensures b + blocks[b] in now
  {
    var next := b + blocks[b];
    var c: nat := 0;
    while c != next
      invariant c in blocks && c in now && (c <= b || c == next)
      decreases next - c
    {
      assert IsBlock(blocks, |mem|, c) && IsBlock(now, |mem|, c);
      HeaderTells(c in used, blocks[c], c in inUse, now[c]);
      c := c + blocks[c];
    }
  }

  lemma NoBlockIsEmpty(mem: seq<Word>, blocks: Blocks, used: set<nat>)
    requires Blocked(mem, blocks, used)
    ensures forall b :: b in blocks ==> b < |mem| && mem[b] != Header(true, 0)
  {
    forall b | b in blocks ensures mem[b] != Header(true, 0) {
      assert IsBlock(blocks, |mem|, b);
    }
  }

  /** No blocks whatever fit the memory with the empty buffer. */
  lemma WrappedSplitBreaks(mem: seq<Word>, blocks: Blocks, used: set<nat>, b: nat, now: Blocks, inUse: set<nat>)
    requires Blocked(mem, blocks, used) && b in blocks && b + blocks[b] < |mem|
    ensures !Blocked(WrappedMemory(mem, b + blocks[b]), now, inUse)
  {
    assert IsBlock(blocks, |mem|, b);
    var after := WrappedMemory(mem, b + blocks[b]);
    if Blocked(after, now, inUse) {
      NoBlockIsEmpty(after, now, inUse);
      HeadersLead(mem, blocks, used, b, after, now, inUse);
    }
  }

  // ---- two free blocks are merged ----

  ghost function MergedBlocks(blocks: Blocks, p: nat): Blocks
    requires p in blocks && p + blocks[p] in blocks
  {
    var q := p + blocks[p];
    (map c | c in blocks && c != q :: if c == p then blocks[p] + blocks[q] else blocks[c])
  }

  lemma MergedTiles(blocks: Blocks, n: nat, p: nat)
    requires Tiles(blocks, n) && p in blocks && p + blocks[p] in blocks
    ensures Tiles(MergedBlocks(blocks, p), n)
  {
    var q := p + blocks[p];
    var after := MergedBlocks(blocks, p);
    assert IsBlock(blocks, n, p) && IsBlock(blocks, n, q);
    forall c | c in after ensures IsBlock(after, n, c) {
      assert IsBlock(blocks, n, c);
      assert c < p ==> c + blocks[c] <= p;
    }
  }
}
