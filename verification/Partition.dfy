/** A paging partition: the bitmap allocator of bootstrap/default_pager.c. */
module Partitions {
  import opened Words

  const NB_BM: nat := 32
  const BM_MASK: Word := 0xffff_ffff

  type Byte = x: nat | x < 256
  type Page = seq<Byte>

  datatype Option<+T> = None | Some(value: T)

  function HowMany(a: nat, b: nat): nat
    requires b > 0
  {
    (a + b - 1) / b
  }

  ghost function Below(n: nat): (s: set<nat>)
    ensures |s| == n
    ensures forall p: nat :: p in s <==> p < n
  {
    if n == 0 then {} else Below(n - 1) + {n - 1}
  }

  /** A set of page numbers below n with fewer than n members misses one. */
  lemma ClearPageExists(used: set<nat>, n: nat)
    requires forall p :: p in used ==> p < n
    ensures |used| <= n
    ensures |used| < n ==> exists p: nat :: p < n && p !in used
  {
    Subset(used, Below(n));
    if forall p: nat :: p < n ==> p in used {
      Subset(Below(n), used);
    }
  }

  lemma {:induction false} Subset(a: set<nat>, b: set<nat>)
    requires a <= b
    ensures |a| <= |b|
  {
    if a != {} {
      var x :| x in a;
      Subset(a - {x}, b - {x});
    }
  }

  lemma FullWordBits(w: Word)
    ensures w == BM_MASK ==> forall b: nat :: b < NB_BM ==> Bit(w, b)
    ensures w != BM_MASK ==> exists b: nat :: b < NB_BM && !Bit(w, b)
  {
    Pow2Of32();
    FullWord(w, 32);
  }

  /** The scan for the bit inside the word; the second panic would be at its end. */
  method FirstClearBit(w: Word) returns (bit: nat)
    requires w != BM_MASK
    ensures bit < NB_BM && !Bit(w, bit)
    ensures forall c: nat :: c < bit ==> Bit(w, c)
  {
    FullWordBits(w);
    ghost var b: nat :| b < NB_BM && !Bit(w, b);
    bit := 0;
    while Bit(w, bit)
      invariant bit <= b
      invariant forall c: nat :: c < bit ==> Bit(w, c)
      decreases b - bit
    {
      bit := bit + 1;
    }
  }

  class Partition {
    const totalSize: nat
    const id: nat
    const bitmap: array<Word>
    var free: nat
    var goingAway: bool
    /** The pages whose bit is set. */
    ghost var used: set<nat>

    ghost const Repr: set<object> := {this, bitmap}

    ghost predicate Valid()
      reads this, bitmap
    {
      && bitmap.Length == HowMany(totalSize, NB_BM)
      && (forall e: nat, b: nat :: e < bitmap.Length && b < NB_BM ==> (Bit(bitmap[e], b) <==> NB_BM * e + b in used))
      && (forall p :: p in used ==> p < totalSize)
      && free == totalSize - |used|
    }

    /** The descriptor that create_paging_partition sets up. */
    constructor (size: nat, id: nat)
      ensures Valid() && fresh(bitmap)
      ensures totalSize == size && this.id == id
      ensures used == {} && free == size && !goingAway
    {
      this.totalSize := size;
      this.id := id;
      this.free := size;
      this.goingAway := false;
      this.used := {};
      this.bitmap := new Word[HowMany(size, NB_BM)](_ => 0);
      new;
      forall e: nat, b: nat | e < bitmap.Length && b < NB_BM ensures !Bit(bitmap[e], b) {
        ZeroWord(b);
      }
    }

    /** The scan for a word that is not all ones. It stops inside the bitmap, so
        the first panic of pager_alloc_page is never reached. */
    method FindWord() returns (e: nat)
      requires Valid() && free > 0
      ensures e < bitmap.Length && bitmap[e] != BM_MASK
      ensures forall q: nat :: q < NB_BM * e ==> q in used
      ensures exists p: nat :: p < totalSize && p !in used
    {
      var limit := HowMany(totalSize, NB_BM);
      ClearPageExists(used, totalSize);
      ghost var p: nat :| p < totalSize && p !in used;
      e := 0;
      while e < limit && bitmap[e] == BM_MASK
        invariant e <= p / NB_BM < limit
        invariant Valid()
        invariant forall q: nat :: q < NB_BM * e ==> q in used
        decreases limit - e
      {
        FullWordBits(bitmap[e]);
        forall q: nat | q < NB_BM * (e + 1) ensures q in used {
          if q >= NB_BM * e { assert Bit(bitmap[e], q - NB_BM * e); }
        }
        e := e + 1;
      }
      assert e < limit;
    }

    /** pager_alloc_page once the partition is known to have a free page. */
    method AllocPage() returns (page: nat)
      requires Valid() && free > 0
      modifies this`free, this`used, bitmap
      ensures Valid()
      ensures page < totalSize
      ensures page !in old(used)
      ensures forall q: nat :: q < page ==> q in old(used)
      ensures used == old(used) + {page}
    {
      var e := FindWord();
      var bit := FirstClearBit(bitmap[e]);
      var p := e * NB_BM + bit;
      forall q: nat | q < p ensures q in used {
        if q >= NB_BM * e { assert Bit(bitmap[e], q - NB_BM * e); }
      }
      assert p !in used;
      MarkPage(e, bit);
      free := free - 1;
      used := used + {p};
      page := p;
    }

    /** `*bm = b | (1<<bit)`; the count and the ghost set follow in the caller. */
    method MarkPage(e: nat, bit: nat)
      requires Valid()
      requires e < bitmap.Length && bit < NB_BM
      modifies bitmap
      ensures forall f: nat, b: nat :: f < bitmap.Length && b < NB_BM ==>
        (Bit(bitmap[f], b) <==> NB_BM * f + b in used || (f == e && b == bit))
    {
      ghost var w := bitmap[e];
      Pow2Of32();
      SetBitFits(w, bit, NB_BM);
      bitmap[e] := SetBit(bitmap[e], bit);
      forall b: nat | b < NB_BM ensures Bit(bitmap[e], b) <==> NB_BM * e + b in used || b == bit {
        SetBitMeaning(w, bit, b);
      }
    }

    /** pager_dealloc_page */
    method DeallocPage(page: nat)
      requires Valid()
      requires page in used
      modifies this`free, this`used, bitmap
      ensures Valid()
      ensures used == old(used) - {page}
    {
      var e, bit := page / NB_BM, page % NB_BM;
      ClearBitFits(bitmap[e], bit);
      ghost var w := bitmap[e];
      bitmap[e] := ClearBit(bitmap[e], bit);
      free := free + 1;
      used := used - {page};
      forall f: nat, b: nat | f < bitmap.Length && b < NB_BM
        ensures Bit(bitmap[f], b) <==> NB_BM * f + b in used
      {
        ClearBitMeaning(w, bit, b);
      }
    }
  }
}
