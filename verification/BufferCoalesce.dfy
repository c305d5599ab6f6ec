/** The invariant of nc_buffer_coalesce and why it makes allocation complete. */
module BufferCoalesce {
  import opened Words
  import opened BufferBlocks
  import opened BufferSteps

  /** The buffers in use keep their place and length. */
  ghost predicate UsedKept(before: Blocks, after: Blocks, used: set<nat>) {
    used <= before.Keys && used <= after.Keys && forall b :: b in used ==> after[b] == before[b]
  }

  lemma SameTaken(before: Blocks, after: Blocks, used: set<nat>)
    requires UsedKept(before, after, used)
    ensures forall x :: Taken(before, used, x) <==> Taken(after, used, x)
  {}

  lemma StillKept(start: seq<Word>, mem: seq<Word>, after: seq<Word>, first: Blocks, blocks: Blocks, used: set<nat>)
    requires UsedKept(first, blocks, used)
    requires KeepsTaken(start, mem, first, used) && KeepsTaken(mem, after, blocks, used)
    ensures KeepsTaken(start, after, first, used)
  {
    SameTaken(first, blocks, used);
    hide Taken;
  }

  /** The block is followed by the end of the area or by a buffer in use. */
  ghost predicate Full(blocks: Blocks, used: set<nat>, n: nat, b: nat) {
    b in blocks && (b + blocks[b] == n || b + blocks[b] in used)
  }

  ghost predicate AllFull(blocks: Blocks, used: set<nat>, n: nat, list: seq<nat>) {
    forall k: nat :: k < |list| ==> Full(blocks, used, n, list[k])
  }

  /** The list holds the free blocks that start below p. */
  ghost predicate Collected(blocks: Blocks, used: set<nat>, list: seq<nat>, p: nat) {
    forall b :: b in list <==> b in blocks && b !in used && b < p
  }

  /** What nc_buffer_coalesce has achieved when it reaches word p. */
  ghost predicate Partly(mem: seq<Word>, base: nat, blocks: Blocks, used: set<nat>, list: seq<nat>, p: nat) {
    && Collected(blocks, used, list, p) && Distinct(list)
    && Chain(mem, base, list) && AllFull(blocks, used, |mem|, list)
  }

  // ---- the steps of the pass ----

  lemma NothingBetween(blocks: Blocks, used: set<nat>, n: nat, list: seq<nat>, p: nat)
    requires Tiles(blocks, n) && Collected(blocks, used, list, p) && p in blocks
    ensures p in used ==> Collected(blocks, used, list, p + blocks[p])
    ensures p !in used ==> Collected(blocks, used, [p] + list, p + blocks[p])
  {
    assert IsBlock(blocks, n, p);
    forall b ensures b in [p] + list <==> b == p || b in list {}
  }

  lemma AllCollected(blocks: Blocks, used: set<nat>, n: nat, list: seq<nat>)
    requires Tiles(blocks, n) && Collected(blocks, used, list, n)
    ensures Members(blocks, used, list)
  {
    forall b | b in blocks ensures b < n { assert IsBlock(blocks, n, b); }
  }

  lemma MergeEncoded(mem: seq<Word>, blocks: Blocks, used: set<nat>, p: nat)
    requires Blocked(mem, blocks, used)
    requires p in blocks && p !in used && p + blocks[p] in blocks && p + blocks[p] !in used
    ensures p < |mem| && 4 * (blocks[p] + blocks[p + blocks[p]]) < 0x8000_0000
    ensures var q := p + blocks[p];
      Blocked(Write(mem, p, Header(false, blocks[p] + blocks[q])), MergedBlocks(blocks, p), used)
  {
    MergedTiles(blocks, |mem|, p);
    assert IsBlock(blocks, |mem|, p) && IsBlock(blocks, |mem|, p + blocks[p]);
  }

  lemma MergeLinks(mem: seq<Word>, base: nat, blocks: Blocks, used: set<nat>, list: seq<nat>, p: nat, w: Word)
    requires Tiles(blocks, |mem|) && Partly(mem, base, blocks, used, list, p)
    requires p in blocks && p < |mem| && p + blocks[p] in blocks && p + blocks[p] !in used
    ensures Partly(Write(mem, p, w), base, MergedBlocks(blocks, p), used, list, p)
  {
    var after := Write(mem, p, w);
    var merged := MergedBlocks(blocks, p);
    assert IsBlock(blocks, |mem|, p);
    Spaced(blocks, |mem|);
    hide Tiles, Address;
    forall k: nat | k < |list| ensures Linked(after, base, list, k) && Full(merged, used, |mem|, list[k]) {
      assert Linked(mem, base, list, k) && list[k] in list && Full(blocks, used, |mem|, list[k]);
    }
  }

  lemma MergeKeeps(mem: seq<Word>, base: nat, blocks: Blocks, used: set<nat>, list: seq<nat>, p: nat)
    requires Blocked(mem, blocks, used) && Partly(mem, base, blocks, used, list, p)
    requires p in blocks && p !in used && p + blocks[p] in blocks && p + blocks[p] !in used
    ensures p < |mem| && 4 * (blocks[p] + blocks[p + blocks[p]]) < 0x8000_0000
    ensures var q := p + blocks[p]; var merged := MergedBlocks(blocks, p);
      var after := Write(mem, p, Header(false, blocks[p] + blocks[q]));
      && Blocked(after, merged, used) && Partly(after, base, merged, used, list, p)
      && KeepsTaken(mem, after, blocks, used) && UsedKept(blocks, merged, used)
  {
    MergeEncoded(mem, blocks, used, p);
    FreeWord(blocks, |mem|, used, p, p) by { assert IsBlock(blocks, |mem|, p); }
    MergeLinks(mem, base, blocks, used, list, p, Header(false, blocks[p] + blocks[p + blocks[p]]));
    hide Header, Partly, Tiles, Encoded, Taken;
  }

  /** Listing block p: the links are those of a buffer just freed. */
  lemma PushKeeps(mem: seq<Word>, base: nat, blocks: Blocks, used: set<nat>, list: seq<nat>, p: nat)
    requires Blocked(mem, blocks, used) && Partly(mem, base, blocks, used, list, p)
    requires base + 4 * |mem| < WORD_MODULUS
    requires p in blocks && p !in used && Full(blocks, used, |mem|, p)
    ensures InArea(|mem|, base, [p] + list) && p + 2 < |mem| && (list != [] ==> list[0] + 2 < |mem|) &&
      4 * blocks[p] < 0x8000_0000
    ensures var after := FreedMemory(mem, base, list, p, blocks[p]);
      && Blocked(after, blocks, used) && Partly(after, base, blocks, used, [p] + list, p + blocks[p])
      && KeepsTaken(mem, after, blocks, used)
  {
    var all := [p] + list;
    assert IsBlock(blocks, |mem|, p);
    PushDistinct(blocks, used, list, p);
    ListSpaced(blocks, |mem|, base, all);
    assert all[0] == p && (list != [] ==> all[1] == list[0] && list[0] in list);
    FreedValues(mem, base, list, p, blocks[p]);
    var after := FreedMemory(mem, base, list, p, blocks[p]);
    hide FreedMemory, InArea;
    PrependedChain(mem, after, base, list, p);
    NothingBetween(blocks, used, |mem|, list, p);
    assert AllFull(blocks, used, |mem|, all);
    hide Partly, Chain, AllFull, Collected, Distinct, AllDistant, Prepended, Full;
    PushEncoded(mem, after, blocks, used, list, p);
    PushLeaves(mem, after, blocks, used, list, p);
  }

  lemma PushDistinct(blocks: Blocks, used: set<nat>, list: seq<nat>, p: nat)
    requires Collected(blocks, used, list, p) && Distinct(list) && p in blocks
    ensures Distinct([p] + list) && forall b :: b in [p] + list ==> b in blocks
  {
    var all := [p] + list;
    forall i: nat, j: nat | i < j < |all| ensures all[i] != all[j] {
      assert all[j] == list[j - 1] && list[j - 1] in list;
      assert i > 0 ==> all[i] == list[i - 1] && list[i - 1] != list[j - 1];
    }
    forall b | b in all ensures b in blocks {
      assert b == p || b in list;
    }
  }

  /** Only the header of p, its links and the back link of the first listed block may differ. */
  ghost predicate OnlyPushed(mem: seq<Word>, after: seq<Word>, list: seq<nat>, p: nat) {
    && |after| == |mem|
    && forall y: nat :: y < |mem| && y != p && y != p + 1 && y != p + 2 && (list == [] || y != list[0] + 2) ==>
      after[y] == mem[y]
  }

  lemma PushEncoded(mem: seq<Word>, after: seq<Word>, blocks: Blocks, used: set<nat>, list: seq<nat>, p: nat)
    requires Blocked(mem, blocks, used) && p in blocks && p !in used && p < |mem| && (list != [] ==> list[0] in blocks)
    requires OnlyPushed(mem, after, list, p) && after[p] == Header(false, blocks[p])
    ensures Blocked(after, blocks, used)
  {
    Spaced(blocks, |mem|);
    hide Tiles, Header;
  }

  lemma PushLeaves(mem: seq<Word>, after: seq<Word>, blocks: Blocks, used: set<nat>, list: seq<nat>, p: nat)
    requires Tiles(blocks, |mem|) && used <= blocks.Keys && OnlyPushed(mem, after, list, p)
    requires p in blocks && p !in used && (list != [] ==> list[0] in blocks && list[0] !in used)
    ensures KeepsTaken(mem, after, blocks, used)
  {
    assert IsBlock(blocks, |mem|, p);
    FreeWord(blocks, |mem|, used, p, p);
    FreeWord(blocks, |mem|, used, p, p + 1);
    FreeWord(blocks, |mem|, used, p, p + 2);
    if list != [] {
      assert IsBlock(blocks, |mem|, list[0]);
      FreeWord(blocks, |mem|, used, list[0], list[0] + 2);
    }
    hide Taken, Tiles;
  }

  // ---- why the second search is complete ----

  lemma BlockWord(blocks: Blocks, used: set<nat>, b: nat, x: nat)
    requires used <= blocks.Keys && b in blocks && Inside(blocks, b, x)
    ensures b in used ==> Taken(blocks, used, x)
  {}

  predicate LongEnough(blocks: Blocks, b: nat, words: nat) {
    b in blocks && words <= blocks[b]
  }

  /** With no two free blocks in a row, room is one free block. */
  lemma RoomIsABlock(blocks: Blocks, used: set<nat>, n: nat, list: seq<nat>, words: nat)
    requires Tiles(blocks, n) && used <= blocks.Keys && 0 < words
    requires Members(blocks, used, list) && AllFull(blocks, used, n, list)
    ensures HasRoom(blocks, used, n, words) <==> exists k: nat :: k < |list| && LongEnough(blocks, list[k], words)
  {
    if HasRoom(blocks, used, n, words) {
      var a: nat :| RoomAt(blocks, used, n, a, words);
      var b := ExactCover(blocks, n, a);
      BlockWord(blocks, used, b, a);
      assert b in list;
      var k: nat :| k < |list| && list[k] == b;
      assert Full(blocks, used, n, list[k]);
      var end: nat := b + blocks[b];
      if end in blocks {
        assert IsBlock(blocks, n, end);
        BlockWord(blocks, used, end, end);
      }
    }
    if k: nat :| k < |list| && LongEnough(blocks, list[k], words) {
      FreeBlockIsRoom(blocks, used, n, list, k, words);
    }
  }

  lemma FreeBlockIsRoom(blocks: Blocks, used: set<nat>, n: nat, list: seq<nat>, k: nat, words: nat)
    requires Tiles(blocks, n) && used <= blocks.Keys && Members(blocks, used, list)
    requires k < |list|
    ensures LongEnough(blocks, list[k], words) ==> HasRoom(blocks, used, n, words)
  {
    var b: nat := list[k];
    assert b in list && IsBlock(blocks, n, b);
    if words <= blocks[b] {
      forall x | b <= x < b + words ensures !Taken(blocks, used, x) {
        FreeWord(blocks, n, used, b, x);
      }
      assert RoomAt(blocks, used, n, b, words);
    }
  }
}
