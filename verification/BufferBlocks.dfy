/** The layout of a network endpoint's buffer heap (kernel/chips/nc.c). The
    area is an array of 32-bit words; block headers and the links of the free
    list live inside the blocks. */
module BufferBlocks {
  import opened Words

  /** sizeof(nw_buffer_s), in bytes and in words. */
  const HEADER_BYTES: nat := 28
  const HEADER_WORDS: nat := 7
  const NULL: Word := 0

  // ---- blocks ----

  /** Every block of the area: its position, counted in words from the start of
      the area, and its length in words. */
  type Blocks = map<nat, nat>

  ghost predicate IsBlock(blocks: Blocks, n: nat, b: nat)
    requires b in blocks
  {
    && HEADER_WORDS <= blocks[b]
    && b + blocks[b] <= n
    && (b + blocks[b] == n || b + blocks[b] in blocks)
  }

  /** A whole number of blocks, each at least a header, fills n words. */
  ghost predicate Tiles(blocks: Blocks, n: nat) {
    && 0 in blocks
    && (forall b {:trigger IsBlock(blocks, n, b)} :: b in blocks ==> IsBlock(blocks, n, b))
    && (forall b, c :: b in blocks && c in blocks && b < c ==> b + blocks[b] <= c)
  }

  predicate Inside(blocks: Blocks, b: nat, x: nat)
    requires b in blocks
  {
    b <= x < b + blocks[b]
  }

  /** Every word of the area belongs to exactly one block. */
  lemma {:induction false} ExactCover(blocks: Blocks, n: nat, x: nat) returns (b: nat)
    requires Tiles(blocks, n) && x < n
    ensures b in blocks && Inside(blocks, b, x)
    ensures forall c :: c in blocks && Inside(blocks, c, x) ==> c == b
  {
    b := 0;
    while !Inside(blocks, b, x)
      invariant b in blocks && b <= x
      decreases x - b
    {
      assert IsBlock(blocks, n, b);
      b := b + blocks[b];
    }
  }

  /** The word belongs to a buffer in use. */
  ghost predicate Taken(blocks: Blocks, used: set<nat>, x: nat)
    requires used <= blocks.Keys
  {
    exists b :: b in used && Inside(blocks, b, x)
  }

  ghost predicate RoomAt(blocks: Blocks, used: set<nat>, n: nat, a: nat, words: nat)
    requires used <= blocks.Keys
  {
    a + words <= n && forall x :: a <= x < a + words ==> !Taken(blocks, used, x)
  }

  /** Somewhere that many words in a row belong to no buffer in use. */
  ghost predicate HasRoom(blocks: Blocks, used: set<nat>, n: nat, words: nat)
    requires used <= blocks.Keys
  {
    exists a: nat :: RoomAt(blocks, used, n, a, words)
  }

  // ---- blocks in memory ----

  /** buf_used : 1 and buf_length : 31 (bytes) share the first word of a block. */
  function Header(used: bool, words: nat): nat {
    2 * (4 * words) + if used then 1 else 0
  }

  predicate IsUsed(header: Word) { header % 2 == 1 }

  /** buf_length */
  function Length(header: Word): nat { header / 2 }

  lemma HeaderParts(used: bool, words: nat)
    requires 4 * words < 0x8000_0000
    ensures Header(used, words) < WORD_MODULUS
    ensures IsUsed(Header(used, words)) == used && Length(Header(used, words)) == 4 * words
  {
    Halves(4 * words, if used then 1 else 0);
  }

  lemma Halves(n: nat, bit: nat)
    requires bit < 2
    ensures (2 * n + bit) / 2 == n && (2 * n + bit) % 2 == bit
  {}

  ghost predicate Encoded(mem: seq<Word>, blocks: Blocks, used: set<nat>) {
    forall b :: b in blocks ==> b < |mem| && mem[b] == Header(b in used, blocks[b])
  }

  function Write(mem: seq<Word>, x: nat, w: Word): (after: seq<Word>)
    requires x < |mem|
    ensures |after| == |mem| && after[x] == w
    ensures forall y: nat :: y < |mem| && y != x ==> after[y] == mem[y]
  {
    mem[x := w]
  }

  // ---- the free list ----

  function Address(base: nat, b: nat): nat { base + 4 * b }

  /** The address of the k-th block of the list, NULL outside it. */
  function Link(base: nat, free: seq<nat>, k: int): nat {
    if 0 <= k < |free| then Address(base, free[k]) else NULL
  }

  ghost predicate Linked(mem: seq<Word>, base: nat, free: seq<nat>, k: nat)
    requires k < |free|
  {
    && free[k] + 2 < |mem|
    && mem[free[k] + 1] == Link(base, free, k + 1)
    && mem[free[k] + 2] == Link(base, free, k - 1)
  }

  /** The doubly linked list in memory. */
  ghost predicate Chain(mem: seq<Word>, base: nat, free: seq<nat>) {
    forall k: nat :: k < |free| ==> Linked(mem, base, free, k)
  }

  ghost predicate Distinct(free: seq<nat>) {
    forall j: nat, k: nat :: j < k < |free| ==> free[j] != free[k]
  }

  /** The list holds exactly the free blocks. */
  ghost predicate Members(blocks: Blocks, used: set<nat>, free: seq<nat>) {
    forall b :: b in free <==> b in blocks && b !in used
  }

  /** Everything about the heap but the free list. */
  ghost predicate Blocked(mem: seq<Word>, blocks: Blocks, used: set<nat>) {
    && 4 * |mem| < 0x8000_0000
    && used <= blocks.Keys
    && Tiles(blocks, |mem|) && Encoded(mem, blocks, used)
  }

  ghost predicate Listed(mem: seq<Word>, base: nat, blocks: Blocks, used: set<nat>, free: seq<nat>) {
    Members(blocks, used, free) && Distinct(free) && Chain(mem, base, free)
  }

  lemma Spaced(blocks: Blocks, n: nat)
    requires Tiles(blocks, n)
    ensures forall b :: b in blocks ==> b + HEADER_WORDS <= n
    ensures forall b, c :: b in blocks && c in blocks && b < c ==> b + HEADER_WORDS <= c
  {
    forall b | b in blocks ensures b + HEADER_WORDS <= b + blocks[b] <= n {
      assert IsBlock(blocks, n, b);
    }
  }

  predicate Distant(b: nat, c: nat) {
    b + HEADER_WORDS <= c || c + HEADER_WORDS <= b
  }

  ghost predicate AllDistant(free: seq<nat>) {
    forall i: nat, j: nat :: i < |free| && j < |free| && i != j ==> Distant(free[i], free[j])
  }

  /** The list stays inside an area of n words that ends below 2^32. */
  ghost predicate InArea(n: nat, base: nat, free: seq<nat>) {
    base + 4 * n < WORD_MODULUS && forall i: nat :: i < |free| ==> free[i] + 2 < n
  }

  ghost function LinkWord(n: nat, base: nat, free: seq<nat>, k: int): (w: Word)
    requires InArea(n, base, free)
    ensures w == Link(base, free, k)
  {
    Link(base, free, k)
  }

  /** Blocks of a list are far enough apart for their links. */
  lemma ListSpaced(blocks: Blocks, n: nat, base: nat, list: seq<nat>)
    requires Tiles(blocks, n) && base + 4 * n < WORD_MODULUS
    requires Distinct(list) && forall b :: b in list ==> b in blocks
    ensures InArea(n, base, list) && AllDistant(list)
  {
    Spaced(blocks, n);
    hide Tiles;
    forall i: nat | i < |list| ensures list[i] in blocks && list[i] + 2 < n {
      assert list[i] in list;
    }
    forall i: nat, j: nat | i < |list| && j < |list| && i != j ensures Distant(list[i], list[j]) {
      assert list[i] in list && list[j] in list;
      assert list[i] != list[j] by { assert i < j ==> list[i] != list[j]; }
    }
  }
}
