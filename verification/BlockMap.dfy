/** The block map of one paging object: packed map entries and the one- or
    two-level map of bootstrap/default_pager.c. */
module BlockMaps {
  import opened Words

  // ---- packed entries (union dp_map) ----

  const OFFSET_MODULUS: nat := 0x100_0000
  const NO_BLOCK: Word := 0xffff_ffff
  const P_INDEX_INVALID: nat := 255

  /** The bit-field assignments `p_offset = off; p_index = index`: only the low
      24 bits of the offset are stored. */
  function Pack(off: nat, index: nat): Word
    requires index < 256
  {
    index * OFFSET_MODULUS + off % OFFSET_MODULUS
  }

  function OffsetOf(entry: Word): nat { entry % OFFSET_MODULUS }

  function IndexOf(entry: Word): nat { entry / OFFSET_MODULUS }

  /** An entry gives back the pair that was stored in it exactly when the page
      number fits the 24-bit field. */
  lemma PackRoundTrip(off: nat, index: nat)
    requires index < 256
    ensures IndexOf(Pack(off, index)) == index
    ensures OffsetOf(Pack(off, index)) == off <==> off < OFFSET_MODULUS
  {
    var low := off % OFFSET_MODULUS;
    assert (index * OFFSET_MODULUS + low) / OFFSET_MODULUS == index;
    assert (index * OFFSET_MODULUS + low) % OFFSET_MODULUS == low;
  }

  lemma UnpackRoundTrip(entry: Word)
    ensures IndexOf(entry) < 256
    ensures Pack(OffsetOf(entry), IndexOf(entry)) == entry
  {}

  /** A stored pair reads as "no block" only for the last page of index 255. */
  lemma PackIsNoBlock(off: nat, index: nat)
    requires index < 256
    ensures Pack(off, index) == NO_BLOCK <==> index == P_INDEX_INVALID && off % OFFSET_MODULUS == OFFSET_MODULUS - 1
  {
    PackRoundTrip(off, index);
  }

  // ---- object sizes ----

  const PAGEMAP_ENTRIES: nat := 64

  /** atop(max_doubled_size) is a power of two because vm_page_size is. */
  ghost predicate ValidLimit(limit: nat) {
    exists j: nat :: j <= 13 && limit == Pow2(j)
  }

  function RoundUpToPagemap(n: nat): (r: nat)
    ensures n <= r < n + PAGEMAP_ENTRIES && r % PAGEMAP_ENTRIES == 0
  {
    (n + PAGEMAP_ENTRIES - 1) / PAGEMAP_ENTRIES * PAGEMAP_ENTRIES
  }

  ghost predicate IsPow2(n: nat) {
    exists j: nat :: n == Pow2(j)
  }

  /** The sizes an object can have: a power of two up to the doubling limit, a
      multiple of 64 above it. */
  ghost predicate ValidSize(size: nat, limit: nat) {
    if size <= limit then IsPow2(size) else size % PAGEMAP_ENTRIES == 0
  }

  /** The least size that a new object of so many pages can have. */
  predicate Tight(size: nat, wanted: nat, limit: nat) {
    && 0 < size && wanted <= size
    && (wanted <= limit ==> size / 2 < wanted || size == 1)
    && (wanted > limit ==> size < wanted + PAGEMAP_ENTRIES)
  }

  lemma TightHolds(size: nat, wanted: nat, limit: nat)
    requires Tight(size, wanted, limit)
    ensures wanted <= size
  {}

  /** A two-level map always covers whole second-level maps. */
  lemma TwoLevelCoversChunks(size: nat, limit: nat)
    requires ValidSize(size, limit) && size > PAGEMAP_ENTRIES
    ensures size % PAGEMAP_ENTRIES == 0
  {
    if size <= limit {
      var j: nat :| size == Pow2(j);
      Pow2Multiple(j);
    }
  }

  lemma {:induction false} Pow2Multiple(j: nat)
    ensures j >= 6 ==> Pow2(j) % 64 == 0
    ensures j < 6 ==> Pow2(j) <= 32
  {
    if j < 6 {
      Pow2Monotone(j, 5);
      assert Pow2(5) == 32;
    } else if j == 6 {
      assert Pow2(6) == 64;
    } else {
      Pow2Multiple(j - 1);
      var q := Pow2(j - 1) / 64;
      assert Pow2(j - 1) == 64 * q;
      assert Pow2(j) == 64 * (2 * q);
    }
  }

  lemma {:induction false} Pow2Monotone(i: nat, j: nat)
    requires i <= j
    ensures Pow2(i) <= Pow2(j)
  {
    if i < j { Pow2Monotone(i, j - 1); }
  }

  /** Doubling a power of two that is below a power-of-two limit stays within it. */
  lemma DoubleWithin(size: nat, limit: nat)
    requires IsPow2(size) && IsPow2(limit) && size < limit
    ensures IsPow2(2 * size) && 2 * size <= limit
  {
    var i: nat :| size == Pow2(i);
    var j: nat :| limit == Pow2(j);
    if j <= i { Pow2Monotone(j, i); }
    Pow2Monotone(i + 1, j);
    assert 2 * size == Pow2(i + 1);
  }

  /** The doubling loop of pager_alloc (from 1) and pager_extend (from the old size). */
  method DoubleUntil(start: nat, wanted: nat, limit: nat) returns (size: nat)
    requires IsPow2(limit)
    requires IsPow2(start) || wanted <= start
    requires wanted <= limit
    ensures start <= size && wanted <= size
    ensures size == start || (IsPow2(size) && size <= limit && size / 2 < wanted)
  {
    size := start;
    while size < wanted
      invariant start <= size
      invariant size == start || (IsPow2(size) && size <= limit && size / 2 < wanted)
      decreases wanted - size
    {
      if size == start {
        var i: nat :| size == Pow2(i);
      }
      DoubleWithin(size, limit);
      size := 2 * size;
    }
  }

  // ---- the map itself ----

  datatype Map = Direct(entries: array<Word>) | TwoLevel(tops: array<array?<Word>>)

  /** The entries with one of them replaced. */
  function SetAt(entries: seq<Word>, k: nat, w: Word): seq<Word>
    requires k < |entries|
  {
    entries[k := w]
  }

  /** n entries without a block. */
  function NoBlocks(n: nat): seq<Word> {
    seq(n, _ => NO_BLOCK)
  }

  function IndirectEntries(pages: nat): nat
    requires pages > 0
  {
    (pages - 1) / PAGEMAP_ENTRIES + 1
  }

  class PagingObject {
    /** atop(max_doubled_size) */
    const limit: nat
    var blockMap: Map
    var size: nat
    var curPartition: nat
    /** One entry per page, whatever the layout. */
    ghost var pages: seq<Word>
    ghost var Repr: set<object>

    ghost predicate Valid()
      reads this, Repr
      ensures Valid() ==> this in Repr && |pages| == size && curPartition < 256
    {
      && this in Repr
      && ValidLimit(limit)
      && 0 < size && ValidSize(size, limit)
      && curPartition < 256
      && |pages| == size
      && match blockMap
         case Direct(entries) =>
           && entries in Repr
           && size <= PAGEMAP_ENTRIES
           && entries.Length == size
           && entries[..] == pages
         case TwoLevel(tops) =>
           && tops in Repr
           && PAGEMAP_ENTRIES < size
           && tops.Length == IndirectEntries(size)
           && (forall c: nat :: c < tops.Length && tops[c] != null ==>
             tops[c] in Repr && tops[c].Length == PAGEMAP_ENTRIES)
           && (forall c: nat, d: nat :: c < d < tops.Length && tops[c] != null ==> tops[c] != tops[d])
           && (forall k: nat :: k < size ==>
                pages[k] == (if tops[k / PAGEMAP_ENTRIES] == null then NO_BLOCK
                             else tops[k / PAGEMAP_ENTRIES][k % PAGEMAP_ENTRIES]))
    }

    /** pager_alloc, the byte size already divided by the page size. */
    constructor (part: nat, wanted: nat, limit: nat)
      requires ValidLimit(limit) && part < 256
      ensures Valid() && fresh(Repr)
      ensures this.limit == limit && curPartition == part
      ensures pages == NoBlocks(size) && Tight(size, wanted, limit)
    {
      this.limit := limit;
      curPartition := part;
      var n;
      assert IsPow2(1) by { assert Pow2(0) == 1; }
      if wanted <= limit {
        n := DoubleUntil(1, wanted, limit);
      } else {
        n := RoundUpToPagemap(wanted);
      }
      assert ValidSize(n, limit) by { var j: nat :| limit == Pow2(j); }
      size := n;
      pages := NoBlocks(n);
      if n > PAGEMAP_ENTRIES {
        var tops := new array?<Word>[IndirectEntries(n)](_ => null);
        blockMap := TwoLevel(tops);
        Repr := {this, tops};
      } else {
        var entries := new Word[n](_ => NO_BLOCK);
        blockMap := Direct(entries);
        Repr := {this, entries};
      }
    }

    /** pager_read_offset; the caller stays inside the object, where the
        original panics otherwise. */
    method ReadOffset(page: nat) returns (entry: Word)
      requires Valid() && page < size
      ensures entry == pages[page]
    {
      match blockMap
      case Direct(entries) =>
        entry := entries[page];
      case TwoLevel(tops) =>
        var second := tops[page / PAGEMAP_ENTRIES];
        if second == null {
          entry := NO_BLOCK;
        } else {
          entry := second[page % PAGEMAP_ENTRIES];
        }
    }

    /** The page has a slot that can be assigned. */
    ghost predicate HasSlot(page: nat)
      reads this, Repr
      requires Valid() && page < size
    {
      blockMap.TwoLevel? ==> blockMap.tops[page / PAGEMAP_ENTRIES] != null
    }

    /** Allocates the second-level map of a page if it is missing. */
    method EnsureSlot(page: nat)
      requires Valid() && page < size
      modifies Repr
      ensures Valid() && fresh(Repr - old(Repr))
      ensures pages == old(pages) && size == old(size) && curPartition == old(curPartition)
      ensures HasSlot(page)
    {
      match blockMap
      case Direct(_) =>
      case TwoLevel(tops) =>
        var c := page / PAGEMAP_ENTRIES;
        if tops[c] == null {
          var second := new Word[PAGEMAP_ENTRIES](_ => NO_BLOCK);
          tops[c] := second;
          Repr := Repr + {second};
        }
    }

    /** `mapptr[f_page] = block` */
    method SetEntry(page: nat, entry: Word)
      requires Valid() && page < size && HasSlot(page)
      modifies Repr
      ensures Valid() && Repr == old(Repr)
      ensures pages == old(pages)[page := entry]
      ensures size == old(size) && curPartition == old(curPartition)
    {
      match blockMap
      case Direct(entries) =>
        entries[page] := entry;
        pages := pages[page := entry];
      case TwoLevel(tops) =>
        var second := tops[page / PAGEMAP_ENTRIES];
        second[page % PAGEMAP_ENTRIES] := entry;
        pages := pages[page := entry];
    }

    method SetCurPartition(part: nat)
      requires Valid() && part < 256
      modifies this`curPartition
      ensures Valid() && curPartition == part
      ensures forall k: nat :: k < size ==> HasSlot(k) == old(HasSlot(k))
    {
      curPartition := part;
    }

    /** pager_extend */
    method Extend(wanted: nat)
      requires Valid() && size < wanted
      modifies Repr
      ensures Valid() && fresh(Repr - old(Repr))
      ensures wanted <= size && old(size) < size
      ensures wanted <= limit ==> size / 2 < wanted
      ensures wanted > limit ==> size < wanted + PAGEMAP_ENTRIES
      ensures curPartition == old(curPartition)
      ensures pages == old(pages) + NoBlocks(size - old(size))
    {
      var newSize;
      if wanted <= limit {
        newSize := DoubleUntil(size, wanted, limit);
      } else {
        newSize := RoundUpToPagemap(wanted);
      }
      assert ValidSize(newSize, limit) by { var j: nat :| limit == Pow2(j); }
      if size > PAGEMAP_ENTRIES {
        GrowTwoLevel(newSize);
      } else if newSize > PAGEMAP_ENTRIES {
        DirectToTwoLevel(newSize);
      } else {
        GrowDirect(newSize);
      }
    }

    method CopyTops(from: array<array?<Word>>, to: array<array?<Word>>, n: nat)
      requires n <= from.Length && n <= to.Length && from != to
      requires forall c: nat :: n <= c < to.Length ==> to[c] == null
      modifies to
      ensures forall c: nat :: c < to.Length ==> to[c] == if c < n then from[c] else null
    {
      var i := 0;
      while i < n
        invariant i <= n
        invariant forall c: nat :: c < to.Length ==> c < i || c >= n ==> to[c] == if c < n then from[c] else null
      {
        to[i] := from[i];
        i := i + 1;
      }
    }

    /** A larger indirect block; the second-level maps are kept. */
    method GrowTwoLevel(newSize: nat)
      requires Valid() && PAGEMAP_ENTRIES < size < newSize && ValidSize(newSize, limit)
      modifies this
      ensures Valid() && fresh(Repr - old(Repr))
      ensures size == newSize && curPartition == old(curPartition)
      ensures pages == old(pages) + NoBlocks(newSize - old(size))
    {
      TwoLevelCoversChunks(size, limit);
      TwoLevelCoversChunks(newSize, limit);
      var oldTops := blockMap.tops;
      var newTops := new array?<Word>[IndirectEntries(newSize)](_ => null);
      CopyTops(oldTops, newTops, IndirectEntries(size));
      blockMap := TwoLevel(newTops);
      pages := pages + NoBlocks(newSize - size);
      size := newSize;
      Repr := Repr + {newTops};
    }

    /** The direct block becomes the first second-level map. */
    method DirectToTwoLevel(newSize: nat)
      requires Valid() && size <= PAGEMAP_ENTRIES < newSize && ValidSize(newSize, limit)
      modifies this
      ensures Valid() && fresh(Repr - old(Repr))
      ensures size == newSize && curPartition == old(curPartition)
      ensures pages == old(pages) + NoBlocks(newSize - old(size))
    {
      TwoLevelCoversChunks(newSize, limit);
      var oldMap := blockMap.entries;
      var second := new Word[PAGEMAP_ENTRIES](_ => NO_BLOCK);
      var i := 0;
      while i < size
        modifies second
        invariant i <= size
        invariant forall k: nat :: k < PAGEMAP_ENTRIES ==> second[k] == if k < i then oldMap[k] else NO_BLOCK
      {
        second[i] := oldMap[i];
        i := i + 1;
      }
      var newTops := new array?<Word>[IndirectEntries(newSize)](_ => null);
      newTops[0] := second;
      blockMap := TwoLevel(newTops);
      pages := pages + NoBlocks(newSize - size);
      size := newSize;
      Repr := Repr + {newTops, second};
    }

    /** A larger direct block. */
    method GrowDirect(newSize: nat)
      requires Valid() && size < newSize <= PAGEMAP_ENTRIES && ValidSize(newSize, limit)
      modifies this
      ensures Valid() && fresh(Repr - old(Repr))
      ensures size == newSize && curPartition == old(curPartition)
      ensures pages == old(pages) + NoBlocks(newSize - old(size))
    {
      var oldMap := blockMap.entries;
      var newMap := new Word[newSize](_ => NO_BLOCK);
      var i := 0;
      while i < size
        modifies newMap
        invariant i <= size
        invariant forall k: nat :: k < newSize ==> newMap[k] == if k < i then oldMap[k] else NO_BLOCK
      {
        newMap[i] := oldMap[i];
        i := i + 1;
      }
      blockMap := Direct(newMap);
      pages := pages + NoBlocks(newSize - size);
      size := newSize;
      Repr := Repr + {newMap};
    }
  }
}
