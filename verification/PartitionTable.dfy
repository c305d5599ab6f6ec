/** all_partitions: the table of paging partitions. Outside this module a page
    of a partition is known by its packed name (partition index, page number). */
module PartitionTables {
  import opened Words
  import opened Partitions
  import opened BlockMaps

  lemma NameUnique(i: nat, off: nat)
    requires i < P_INDEX_INVALID && off < OFFSET_MODULUS
    ensures forall w: Word :: w == Pack(off, i) <==> IndexOf(w) == i && OffsetOf(w) == off
  {
    PackRoundTrip(off, i);
    forall w: Word ensures w == Pack(off, i) <==> IndexOf(w) == i && OffsetOf(w) == off {
      UnpackRoundTrip(w);
    }
  }

  /** The pages of partition i under their packed names. */
  function PagesOf(i: nat, contents: seq<Page>): (pages: map<Word, Page>)
    ensures forall w: Word :: w in pages <==> IndexOf(w) == i && OffsetOf(w) < |contents|
    ensures forall w: Word :: w in pages ==> pages[w] == contents[OffsetOf(w)]
  {
    map w: Word | IndexOf(w) == i && OffsetOf(w) < |contents| :: contents[OffsetOf(w)]
  }

  // ---- the table as a value ----

  /** What the table keeps of a partition that its pages do not change. */
  datatype Stock = Stock(id: nat, pages: nat)

  /** The least slot without a partition. */
  ghost predicate FirstFree(table: map<nat, Stock>, i: nat) {
    i !in table && forall j: nat :: j < i ==> j in table
  }

  /** The first partition with that id. */
  ghost predicate FirstWith(table: map<nat, Stock>, id: nat, i: nat) {
    i in table && table[i].id == id && forall j: nat :: j < i && j in table ==> table[j].id != id
  }

  ghost predicate Known(table: map<nat, Stock>, id: nat) {
    exists i: nat :: FirstWith(table, id, i)
  }

  lemma FirstFreeExists(table: map<nat, Stock>)
    ensures exists i: nat :: FirstFree(table, i)
  {
    var i: nat := 0;
    ghost var seen: set<nat> := {};
    while i in table
      invariant seen <= table.Keys && |seen| == i
      invariant forall j: nat :: j in seen <==> j < i
      invariant forall j: nat :: j < i ==> j in table
      decreases table.Keys - seen
    {
      seen := seen + {i};
      i := i + 1;
    }
    assert FirstFree(table, i);
  }

  ghost function FreeSlotOf(table: map<nat, Stock>): (i: nat)
    ensures FirstFree(table, i)
    ensures forall j: nat :: FirstFree(table, j) ==> j == i
  {
    FirstFreeExists(table);
    var i: nat :| FirstFree(table, i);
    i
  }

  ghost function SlotOf(table: map<nat, Stock>, id: nat): (i: nat)
    requires Known(table, id)
    ensures FirstWith(table, id, i)
    ensures forall j: nat :: FirstWith(table, id, j) ==> j == i
  {
    var i: nat :| FirstWith(table, id, i);
    i
  }

  /** The pages of the partitions in the first n slots, and of all. */
  ghost function PagesBelow(table: map<nat, Stock>, n: nat): nat {
    if n == 0 then 0 else PagesBelow(table, n - 1) + if n - 1 in table then table[n - 1].pages else 0
  }

  ghost function Capacity(table: map<nat, Stock>): nat {
    PagesBelow(table, P_INDEX_INVALID)
  }

  lemma {:induction false} PagesOfOneSlot(table: map<nat, Stock>, i: nat, n: nat)
    requires i in table
    ensures PagesBelow(table, n) == PagesBelow(table - {i}, n) + if i < n then table[i].pages else 0
  {
    if n > 0 { PagesOfOneSlot(table, i, n - 1); }
  }

  lemma {:induction false} NothingAbove(table: map<nat, Stock>, n: nat, m: nat)
    requires n <= m && forall i :: i in table ==> i < n
    ensures PagesBelow(table, n) == PagesBelow(table, m)
  {
    if n < m { NothingAbove(table, n, m - 1); }
  }

  class PartitionTable {
    const pageSize: nat
    /** partition_list; a null slot is free or was removed. */
    var list: seq<Partition?>

    /** The storage behind p_read and p_write of all partitions: the contents
        of every page, by packed name. */
    var disk: map<Word, Page>

    /** The allocated pages, by packed name. */
    ghost var used: set<Word>
    /** The partitions that are being destroyed. */
    ghost var going: set<nat>
    ghost var Repr: set<object>

    predicate Live(i: nat)
      reads this`list
    {
      i < |list| && list[i] != null
    }

    /** partition_of */
    function Part(i: nat): Partition
      reads this`list
      requires Live(i)
    {
      list[i]
    }

    ghost function Parts(): set<Partition>
      reads this`list
    {
      set i | 0 <= i < |list| && Live(i) :: Part(i)
    }

    ghost function Bitmaps(): set<array<Word>>
      reads this`list
    {
      set i | 0 <= i < |list| && Live(i) :: Part(i).bitmap
    }

    ghost predicate Structure()
      reads this`list, this`Repr, Repr
    {
      && this in Repr
      && 512 <= pageSize <= 0x40_0000
      && |list| in {0, 2, 4, 8, 16, 32, 64, 128, 256}
      && (forall i: nat :: Live(i) ==>
           && i < P_INDEX_INVALID
           && list[i].Repr <= Repr && this !in list[i].Repr
           && list[i].Valid()
           && list[i].totalSize * pageSize < WORD_MODULUS)
      && (forall i: nat, j: nat :: i < j && Live(i) && Live(j) ==> list[i].Repr !! list[j].Repr)
    }

    ghost predicate UsedOk()
      reads this, Repr
      requires Structure()
    {
      forall w: Word :: w in used <==> Live(IndexOf(w)) && OffsetOf(w) in list[IndexOf(w)].used
    }

    ghost predicate DiskOk()
      reads this`list, this`disk
    {
      forall w: Word :: w in disk <==> Live(IndexOf(w)) && OffsetOf(w) < list[IndexOf(w)].totalSize
    }

    ghost predicate GoingOk()
      reads this`list, this`going, this`Repr, Repr
      requires Structure()
    {
      forall i: nat :: Live(i) ==> (list[i].goingAway <==> i in going)
    }

    ghost predicate Valid()
      reads this, Repr
      ensures Valid() ==> this in Repr && Structure()
    {
      Structure() && UsedOk() && DiskOk() && GoingOk()
    }

    /** The partitions and their bitmaps are part of the table. */
    lemma Inside()
      requires Valid()
      ensures forall i: nat :: Live(i) ==> Part(i) in Repr && Part(i).bitmap in Repr && i < P_INDEX_INVALID
      ensures Parts() <= Repr && Bitmaps() <= Repr && this in Repr
      ensures used <= disk.Keys && NO_BLOCK !in disk
      ensures forall w :: w in disk ==> Live(IndexOf(w))
      ensures 512 <= pageSize
    {
      UsedAreOnDisk();
    }

    /** partition_init */
    constructor (pageSize: nat)
      requires 512 <= pageSize <= 0x40_0000
      ensures Valid() && fresh(Repr)
      ensures list == [] && used == {} && disk == map[] && going == {} && this.pageSize == pageSize
    {
      this.pageSize := pageSize;
      list, used, disk, going := [], {}, map[], {};
      Repr := {this};
    }

    /** Every name of an existing page is a proper map entry. */
    lemma Names(i: nat, off: nat)
      requires Structure() && Live(i) && off < list[i].totalSize
      ensures off < OFFSET_MODULUS
      ensures IndexOf(Pack(off, i)) == i && OffsetOf(Pack(off, i)) == off
      ensures Pack(off, i) != NO_BLOCK
    {
      assert off * 512 <= list[i].totalSize * pageSize;
      PackRoundTrip(off, i);
      PackIsNoBlock(off, i);
    }

    lemma UsedAreOnDisk()
      requires Valid()
      ensures used <= disk.Keys
      ensures NO_BLOCK !in disk
    {
      if NO_BLOCK in disk {
        Names(IndexOf(NO_BLOCK), OffsetOf(NO_BLOCK));
      }
    }

    /** ptoa, in 32-bit arithmetic. */
    function Ptoa(pages: nat): Word {
      pages * pageSize % WORD_MODULUS
    }

    /** atop: the whole pages in so many bytes. */
    function Atop(bytes: nat): (pages: nat)
      requires pageSize > 0
      ensures pages * pageSize <= bytes < (pages + 1) * pageSize
    {
      bytes / pageSize
    }

    lemma WholePages(bytes: nat, n: nat)
      requires pageSize > 0
      ensures n * pageSize <= bytes < (n + 1) * pageSize <==> n == Atop(bytes)
    {
      hide Atop;
      if n * pageSize <= bytes < (n + 1) * pageSize {
        OneQuotient(bytes, pageSize, n, Atop(bytes));
      }
    }

    ghost predicate Suitable(i: nat, bytes: Word, curPart: nat)
      reads this`list, if Live(i) then {list[i]} else {}
    {
      i != curPart && Live(i) && !list[i].goingAway && Ptoa(list[i].free) >= bytes
    }

    ghost predicate Available(i: nat)
      reads this`list, if Live(i) then {list[i]} else {}
    {
      Live(i) && !list[i].goingAway && list[i].free > 0
    }

    /** No partition that is present and not being removed has a free page. */
    ghost predicate Full()
      reads this`list, this`Repr, Repr
      requires Structure()
    {
      forall i: nat :: !Available(i)
    }

    /** The free pages hold so many bytes. */
    ghost predicate Roomy(i: nat, bytes: nat)
      reads this`list, if Live(i) then {list[i]} else {}
    {
      Live(i) && !list[i].goingAway && list[i].free * pageSize >= bytes
    }

    /** The byte count of the free pages does not wrap. */
    lemma SuitableIsRoomy(i: nat, bytes: Word)
      requires Structure()
      ensures Suitable(i, bytes, P_INDEX_INVALID) <==> Roomy(i, bytes)
    {
      if Live(i) {
        ClearPageExists(list[i].used, list[i].totalSize);
        PtoaFits(list[i].free, list[i].totalSize);
      }
    }

    /** A slot for a new object: the first partition with room for all of it, or else
        the first one of all. */
    ghost predicate BestFor(part: nat, bytes: nat)
      reads this`list, Parts()
    {
      && (part == P_INDEX_INVALID || Roomy(part, 0))
      && (forall j: nat :: Roomy(j, bytes) ==> part <= j && Roomy(part, bytes))
      && (forall j: nat :: Roomy(j, 0) ==> part <= j || Roomy(part, bytes))
    }

    /** choose_partition */
    method Choose(bytes: Word, curPart: nat) returns (i: nat)
      requires Structure() && curPart < 256
      ensures i == P_INDEX_INVALID || Suitable(i, bytes, curPart)
      ensures forall j: nat :: j < i ==> !Suitable(j, bytes, curPart)
    {
      i := 0;
      while i < |list|
        invariant i <= |list|
        invariant forall j: nat :: j < i ==> !Suitable(j, bytes, curPart)
      {
        if i == curPart {
        } else if list[i] == null {
        } else if list[i].goingAway {
        } else if Ptoa(list[i].free) >= bytes {
          assert Live(i);
          return;
        }
        i := i + 1;
      }
      i := P_INDEX_INVALID;
    }

    /** What pager_port_alloc does with two searches. */
    lemma SearchedTwice(bytes: Word, first: nat, part: nat)
      requires Structure()
      requires first == P_INDEX_INVALID || Suitable(first, bytes, P_INDEX_INVALID)
      requires forall j: nat :: j < first ==> !Suitable(j, bytes, P_INDEX_INVALID)
      requires first != P_INDEX_INVALID ==> part == first
      requires first == P_INDEX_INVALID ==> part == P_INDEX_INVALID || Suitable(part, 0, P_INDEX_INVALID)
      requires first == P_INDEX_INVALID ==> forall j: nat :: j < part ==> !Suitable(j, 0, P_INDEX_INVALID)
      ensures BestFor(part, bytes)
    {
      assert forall i: nat :: Live(i) ==> i < P_INDEX_INVALID;
      forall i: nat ensures Suitable(i, bytes, P_INDEX_INVALID) <==> Roomy(i, bytes) {
        SuitableIsRoomy(i, bytes);
      }
      forall i: nat ensures Suitable(i, 0, P_INDEX_INVALID) <==> Roomy(i, 0) {
        SuitableIsRoomy(i, 0);
      }
      hide Structure, Suitable;
      assert forall i: nat :: Roomy(i, bytes) ==> Roomy(i, 0);
    }

    /** What a search for no room at all finds: a partition that is not being
        destroyed, if there is one. */
    lemma ChosenIsNotGoing(i: nat)
      requires Valid()
      ensures Suitable(i, 0, P_INDEX_INVALID) ==> i !in going && i < |list|
      ensures forall j: nat :: Live(j) && !Suitable(j, 0, P_INDEX_INVALID) ==> j in going
    {}

    /** The byte size of a part of a partition fits a word. */
    lemma PtoaFits(pages: nat, total: nat)
      requires pages <= total && total * pageSize < WORD_MODULUS
      ensures Ptoa(pages) == pages * pageSize <= total * pageSize
    {
      var bytes := pages * pageSize;
      assert bytes <= total * pageSize;
      assert bytes % WORD_MODULUS == bytes;
    }

    /** Asking for one page finds every partition with a free page, because
        the free bytes of a partition fit a word. */
    lemma OnePageIsEnough(i: nat, curPart: nat)
      requires Structure() && Live(i)
      ensures Suitable(i, Ptoa(1), curPart) <==> i != curPart && Available(i)
    {
      var free, total := list[i].free, list[i].totalSize;
      ClearPageExists(list[i].used, total);
      PtoaFits(free, total);
      if free > 0 { PtoaFits(1, free); }
    }

    /** The success path of pager_alloc_page. */
    method TakePage(i: nat) returns (name: Word)
      requires Valid() && Available(i)
      modifies Part(i)`free, Part(i)`used, Part(i).bitmap, this`used
      ensures Valid()
      ensures name !in old(used) && name in disk && IndexOf(name) == i
      ensures used == old(used) + {name}
      ensures forall w: Word :: w in disk && IndexOf(w) == i && w < name ==> w in old(used)
    {
      hide Partition.Valid;
      var off := list[i].AllocPage();
      Names(i, off);
      NameUnique(i, off);
      name := Pack(off, i);
      used := used + {name};
    }

    /** Sums over the first n slots. */
    ghost function FreePages(n: nat): nat
      reads this`list, this`Repr, Repr
      requires Structure() && n <= |list|
    {
      if n == 0 then 0 else FreePages(n - 1) + if Live(n - 1) then list[n - 1].free else 0
    }

    ghost function TotalPages(n: nat): nat
      reads this`list, this`Repr, Repr
      requires Structure() && n <= |list|
    {
      if n == 0 then 0 else TotalPages(n - 1) + if Live(n - 1) then list[n - 1].totalSize else 0
    }

    ghost function Table(): (table: map<nat, Stock>)
      reads this`list
      ensures forall j: nat :: j in table <==> Live(j)
      ensures forall j: nat :: Live(j) ==> table[j] == Stock(list[j].id, list[j].totalSize)
    {
      map i: nat | i < |list| && Live(i) :: Stock(list[i].id, list[i].totalSize)
    }

    lemma {:induction false} TotalIsBelow(n: nat)
      requires Structure() && n <= |list|
      ensures TotalPages(n) == PagesBelow(Table(), n)
    {
      if n > 0 { TotalIsBelow(n - 1); }
    }

    lemma TotalIsCapacity()
      requires Structure()
      ensures TotalPages(|list|) == Capacity(Table())
    {
      TotalIsBelow(|list|);
      if |list| <= P_INDEX_INVALID {
        NothingAbove(Table(), |list|, P_INDEX_INVALID);
      } else {
        NothingAbove(Table(), P_INDEX_INVALID, |list|);
      }
    }

    /** With no room anywhere else, only partition i has free pages. */
    lemma {:induction false} FreeInOne(i: nat, n: nat)
      requires Valid() && n <= |list| && going == {} && forall j: nat :: j != i ==> !Available(j)
      ensures FreePages(n) == if i < n && Live(i) then list[i].free else 0
    {
      if n > 0 {
        FreeInOne(i, n - 1);
        assert n - 1 != i ==> !Available(n - 1);
      }
    }

    lemma SomeUsed(i: nat, w: Word)
      requires Valid() && w in used && IndexOf(w) == i
      ensures Live(i) && list[i].free < list[i].totalSize
    {
      ClearPageExists(list[i].used, list[i].totalSize);
    }

    ghost function UsedBelow(n: nat): set<Word>
      reads this`used
    {
      set w | w in used && IndexOf(w) < n
    }

    lemma {:induction false} NamesCounted(i: nat, pages: set<nat>, names: set<Word>)
      requires i < P_INDEX_INVALID
      requires forall p :: p in pages ==> p < OFFSET_MODULUS && Pack(p, i) in names
      requires forall w :: w in names ==> IndexOf(w) == i && OffsetOf(w) in pages
      ensures |names| == |pages|
    {
      if names == {} {
        if p :| p in pages { assert Pack(p, i) in names; }
      } else {
        var w :| w in names;
        var off := OffsetOf(w);
        NameUnique(i, off);
        forall p | p in pages - {off} ensures Pack(p, i) in names - {w} {
          PackRoundTrip(p, i);
        }
        NamesCounted(i, pages - {off}, names - {w});
      }
    }

    ghost function UsedIn(i: nat): set<Word>
      reads this`used
    {
      set w | w in used && IndexOf(w) == i
    }

    lemma UsedInCounted(i: nat)
      requires Valid()
      ensures |UsedIn(i)| == if Live(i) then |list[i].used| else 0
    {
      if Live(i) {
        forall p | p in list[i].used ensures p < OFFSET_MODULUS && Pack(p, i) in UsedIn(i) {
          Names(i, p);
        }
        NamesCounted(i, list[i].used, UsedIn(i));
      } else {
        assert UsedIn(i) == {};
      }
    }

    lemma UsedNone()
      ensures UsedBelow(0) == {}
    {}

    lemma UsedStep(i: nat)
      ensures |UsedBelow(i + 1)| == |UsedBelow(i)| + |UsedIn(i)|
    {
      assert UsedBelow(i + 1) == UsedBelow(i) + UsedIn(i) && UsedBelow(i) !! UsedIn(i);
    }

    /** Conservation over all partitions: the free counts and the allocated
        pages add up to the sizes. */
    lemma {:induction false} Accounted(n: nat)
      requires Valid() && n <= |list|
      ensures FreePages(n) + |UsedBelow(n)| == TotalPages(n)
    {
      hide UsedBelow, UsedIn, UsedOk, DiskOk, GoingOk;
      if n == 0 {
        UsedNone();
      } else {
        var i := n - 1;
        Accounted(i);
        UsedInCounted(i);
        UsedStep(i);
        if Live(i) {
          ClearPageExists(list[i].used, list[i].totalSize);
        }
      }
    }

    /** pager_alloc_page; the page is returned by its packed name. */
    method AllocPage(i: nat) returns (name: Option<Word>)
      requires Valid()
      requires i < |list| || i == P_INDEX_INVALID
      modifies Parts()`free, Parts()`used, Bitmaps(), this`used
      ensures Valid()
      ensures name.Some? <==> old(Available(i))
      ensures name.None? ==> used == old(used) && !Available(i)
      ensures name.Some? ==>
        && name.value !in old(used) && name.value in disk && IndexOf(name.value) == i
        && used == old(used) + {name.value}
        && forall w: Word :: w in disk && IndexOf(w) == i && w < name.value ==> w in old(used)
    {
      if i == P_INDEX_INVALID || list[i] == null || list[i].goingAway {
        return None;
      }
      assert Live(i);
      if list[i].free == 0 {
        return None;
      }
      var w := TakePage(i);
      name := Some(w);
    }

    /** pager_dealloc_page */
    method DeallocPage(w: Word)
      requires Valid() && w in used
      modifies Part(IndexOf(w))`free, Part(IndexOf(w))`used, Part(IndexOf(w)).bitmap, this`used
      ensures Valid()
      ensures used == old(used) - {w}
    {
      hide Partition.Valid;
      var i, off := IndexOf(w), OffsetOf(w);
      UnpackRoundTrip(w);
      NameUnique(i, off);
      list[i].DeallocPage(off);
      used := used - {w};
    }

    /** One page read through p_read. */
    method ReadPage(w: Word) returns (data: Page)
      requires Valid() && w in used
      ensures data == disk[w]
    {
      UsedAreOnDisk();
      data := disk[w];
    }

    /** One page written through p_write. */
    method WritePage(w: Word, data: Page)
      requires Valid() && w in used
      modifies this`disk
      ensures Valid()
      ensures disk == old(disk)[w := data]
    {
      UsedAreOnDisk();
      disk := disk[w := data];
    }

    /** choose_partition for one page, avoiding partition `avoid`. */
    method ChooseRoom(avoid: nat) returns (i: nat)
      requires Structure() && avoid < 256
      ensures i == P_INDEX_INVALID ==> forall j: nat :: j != avoid ==> !Available(j)
      ensures i != P_INDEX_INVALID ==> i != avoid && Available(i)
    {
      i := Choose(Ptoa(1), avoid);
      forall j: nat | j != avoid ensures Suitable(j, Ptoa(1), avoid) <==> Available(j) {
        if Live(j) { OnePageIsEnough(j, avoid); }
      }
    }

    /** The transfer of pager_move_page once a target is chosen. */
    method Transfer(w: Word, target: nat) returns (moved: Word)
      requires Valid() && w in used && Available(target) && target != IndexOf(w)
      modifies Parts()`free, Parts()`used, Bitmaps(), this`used, this`disk
      ensures Valid()
      ensures moved !in old(used) && moved in old(disk) && IndexOf(moved) == target
      ensures used == old(used) - {w} + {moved}
      ensures disk == old(disk)[moved := old(disk)[w]]
    {
      hide Partition.Valid, UsedOk, DiskOk, GoingOk;
      Inside();
      moved := TakePage(target);
      var data := ReadPage(w);
      DeallocPage(w);
      WritePage(moved, data);
    }

    /** pager_move_page: the page moves to another partition with room, or
        nothing changes and NO_BLOCK comes back. */
    method MovePage(w: Word) returns (moved: Word)
      requires Valid() && w in used
      modifies Parts()`free, Parts()`used, Bitmaps(), this`used, this`disk
      ensures Valid()
      ensures moved == NO_BLOCK ==>
        && used == old(used) && disk == old(disk)
        && forall j: nat :: j != IndexOf(w) ==> !Available(j)
      ensures moved != NO_BLOCK ==>
        && moved !in old(used) && moved in old(disk)
        && IndexOf(moved) != IndexOf(w) && old(Available(IndexOf(moved)))
        && used == old(used) - {w} + {moved}
        && w in old(disk) && disk == old(disk)[moved := old(disk)[w]]
    {
      UsedAreOnDisk();
      UnpackRoundTrip(w);
      var target := ChooseRoom(IndexOf(w));
      if target == P_INDEX_INVALID {
        return NO_BLOCK;
      }
      moved := Transfer(w, target);
    }

    /** The first unused slot of partition_list, as create_paging_partition
        looks for it. */
    method FreeSlot() returns (i: nat)
      requires Structure()
      ensures i <= |list| && !Live(i)
      ensures forall j: nat :: j < i ==> Live(j)
    {
      i := 0;
      while i < |list| && list[i] != null
        invariant i <= |list|
        invariant forall j: nat :: j < i ==> Live(j)
      {
        i := i + 1;
      }
    }

    /** The slot for a new partition; the list doubles when it is full. */
    method NewSlot() returns (i: nat)
      requires Valid() && exists j: nat :: j < P_INDEX_INVALID && !Live(j)
      modifies this`list
      ensures Valid()
      ensures i < |list| && i < P_INDEX_INVALID && !Live(i)
      ensures forall j: nat :: Live(j) <==> old(Live(j))
      ensures forall j: nat :: Live(j) ==> list[j] == old(list[j])
      ensures |list| >= |old(list)| && forall j: nat :: j < i ==> Live(j)
    {
      ghost var hole: nat :| hole < P_INDEX_INVALID && !Live(hole);
      i := FreeSlot();
      assert !Live(hole);
      if i == |list| {
        var n := if i != 0 then 2 * i else 2;
        list := list + seq(n - i, _ => null);
        assert forall j: nat :: Live(j) == old(Live(j));
      }
    }

    method Install(i: nat, part: Partition, contents: seq<Page>)
      requires !part.goingAway
      requires Valid() && i < |list| && i < P_INDEX_INVALID && !Live(i)
      requires part.Valid() && part.used == {} && part.Repr !! Repr
      requires part.totalSize == |contents| && part.totalSize * pageSize < WORD_MODULUS
      modifies this
      ensures Valid() && Repr == old(Repr) + part.Repr && going == old(going) - {i}
      ensures list == old(list)[i := part]
      ensures used == old(used)
      ensures disk == old(disk) + PagesOf(i, contents)
    {
      hide Partition.Valid;
      list := list[i := part];
      disk := disk + PagesOf(i, contents);
      Repr := Repr + part.Repr;
      going := going - {i};
      assert forall j: nat :: Live(j) == (j == i || old(Live(j)));
      assert list[i] == part;
      assert Structure() by { hide UsedOk, DiskOk, GoingOk; }
      hide Structure;
    }

    /** A new partition in the first free slot. */
    method Add(size: nat, id: nat, contents: seq<Page>) returns (i: nat)
      requires Valid() && |contents| == size && size * pageSize < WORD_MODULUS
      requires exists j: nat :: j < P_INDEX_INVALID && !Live(j)
      modifies this
      ensures Valid() && fresh(Repr - old(Repr))
      ensures |list| >= |old(list)| && old(!Live(i)) && forall j: nat :: j < i ==> old(Live(j))
      ensures Live(i) && Part(i).id == id && Part(i).totalSize == Part(i).free == size && !Part(i).goingAway
      ensures forall j: nat :: j != i ==> (Live(j) <==> old(Live(j))) && (Live(j) ==> list[j] == old(list[j]))
      ensures used == old(used) && going == old(going) - {i} && disk == old(disk) + PagesOf(i, contents)
    {
      i := NewSlot();
      hide UsedOk, DiskOk, GoingOk, PagesOf, Partition.Valid;
      var part := new Partition(size, id);
      Install(i, part, contents);
    }

    /** The table with that partition. */
    method Enter(size: nat, id: nat, contents: seq<Page>) returns (i: nat)
      requires Valid() && |contents| == size && size * pageSize < WORD_MODULUS
      requires exists j: nat :: j < P_INDEX_INVALID && !Live(j)
      modifies this
      ensures Valid() && fresh(Repr - old(Repr))
      ensures |list| >= |old(list)| && old(!Live(i))
      ensures Live(i) && Part(i).id == id && Available(i) == (size > 0)
      ensures forall j: nat :: j != i ==> (Live(j) <==> old(Live(j))) && (Live(j) ==> list[j] == old(list[j]))
      ensures used == old(used) && going == old(going) - {i} && disk == old(disk) + PagesOf(i, contents)
      ensures Table() == old(Table())[FreeSlotOf(old(Table())) := Stock(id, size)]
    {
      ghost var table := Table();
      hide UsedOk, DiskOk, GoingOk, Structure, Partition.Valid, Table, PagesOf;
      i := Add(size, id, contents);
      assert FirstFree(table, i);
      assert Table() == table[i := Stock(id, size)];
    }

    /** create_paging_partition */
    method Create(bytes: Word, id: nat, contents: seq<Page>) returns (i: nat)
      requires Valid() && |contents| == Atop(bytes)
      requires exists j: nat :: j < P_INDEX_INVALID && !Live(j)
      modifies this
      ensures Valid() && fresh(Repr - old(Repr))
      ensures |list| >= |old(list)| && old(!Live(i)) && Live(i) && Part(i).id == id && Available(i) == (|contents| > 0)
      ensures forall j: nat :: j != i ==> (Live(j) <==> old(Live(j))) && (Live(j) ==> list[j] == old(list[j]))
      ensures used == old(used) && going <= old(going)
      ensures disk == old(disk) + PagesOf(i, contents)
      ensures forall w :: w in old(disk) ==> w in disk && disk[w] == old(disk)[w]
      ensures Table() == old(Table())[FreeSlotOf(old(Table())) := Stock(id, |contents|)]
    {
      var size := Atop(bytes);
      assert size * pageSize <= bytes;
      assert forall w :: w in disk ==> Live(IndexOf(w));
      hide UsedOk, DiskOk, GoingOk, Structure, Partition.Valid, Table, FirstFree, FreeSlotOf, Available;
      i := Enter(size, id, contents);
    }

    /** The search of destroy_paging_partition for the partition to remove. */
    method Find(id: nat) returns (found: Option<nat>)
      requires Structure()
      ensures found.Some? ==> Live(found.value) && Part(found.value).id == id
      ensures found.Some? ==> found.value < P_INDEX_INVALID && FirstWith(Table(), id, found.value)
      ensures found.None? ==> (forall j: nat :: Live(j) ==> Part(j).id != id) && !Known(Table(), id)
    {
      var i := 0;
      while i < |list|
        invariant i <= |list|
        invariant forall j: nat :: j < i && Live(j) ==> Part(j).id != id
      {
        if list[i] != null && list[i].id == id {
          return Some(i);
        }
        i := i + 1;
      }
      found := None;
    }

    method SetGoingAway(i: nat, going: bool)
      requires Valid() && Live(i)
      modifies Part(i)`goingAway, this`going
      ensures Valid()
      ensures this.going == if going then old(this.going) + {i} else old(this.going) - {i}
      ensures forall j: nat :: j != i ==> Available(j) == old(Available(j))
    {
      list[i].goingAway := going;
      this.going := if going then this.going + {i} else this.going - {i};
    }

    /** set_partition_of(i, 0): the bitmap of the partition is empty by now. */
    method Remove(i: nat)
      requires Valid() && Live(i)
      requires forall w :: w in used ==> IndexOf(w) != i
      modifies this`list, this`disk, this`going
      ensures Valid()
      ensures |list| == |old(list)|
      ensures forall j: nat :: Live(j) <==> j != i && old(Live(j))
      ensures forall j: nat :: Live(j) ==> list[j] == old(list[j])
      ensures forall w :: w in disk <==> w in old(disk) && IndexOf(w) != i
      ensures forall w :: w in disk ==> disk[w] == old(disk)[w]
      ensures going == old(going) - {i}
      ensures Table() == old(Table()) - {i}
    {
      hide UsedOk, DiskOk, GoingOk, Structure, Partition.Valid;
      Clear(i);
    }

    method Clear(i: nat)
      requires Valid() && Live(i)
      requires forall w :: w in used ==> IndexOf(w) != i
      modifies this`list, this`disk, this`going
      ensures Valid()
      ensures list == old(list)[i := null] && going == old(going) - {i}
      ensures disk == map w | w in old(disk) && IndexOf(w) != i :: old(disk)[w]
    {
      hide Partition.Valid;
      list := list[i := null];
      disk := map w | w in disk && IndexOf(w) != i :: disk[w];
      going := going - {i};
      assert forall j: nat :: Live(j) == (j != i && old(Live(j)));
      assert list[i] == null;
    }
  }
}
