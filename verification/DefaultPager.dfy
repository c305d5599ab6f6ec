/** The default pager: partitions and paging objects together. */
module DefaultPagers {
  import opened Words
  import opened Partitions
  import opened BlockMaps
  import opened PartitionTables
  import opened ObjectTables
  import opened PagerState

  /** Every object's current partition is a slot of the table or "none". */
  ghost predicate InTable(cur: map<nat, nat>, slots: nat) {
    forall p :: p in cur ==> cur[p] < slots || cur[p] == P_INDEX_INVALID
  }

  /** An object without a current partition has no page anywhere. */
  ghost predicate Placed(v: View, cur: map<nat, nat>) {
    forall s :: Mapped(v, s) ==> s.port in cur && cur[s.port] != P_INDEX_INVALID
  }

  datatype DestroyResult = NoSuchPartition | Failed(index: nat) | Removed(index: nat)

  class DefaultPager {
    const parts: PartitionTable
    const objs: ObjectTable
    /** Which map entry owns an allocated page. */
    ghost var owner: map<Word, Slot>

    ghost function View(): View
      reads this, parts, objs
    {
      PagerState.View(objs.maps, parts.used, parts.disk, owner)
    }

    ghost predicate Parts()
      reads parts, parts.Repr, objs, objs.Repr
    {
      && this !in parts.Repr && this !in objs.Repr
      && objs !in parts.Repr && parts.Repr !! objs.Repr
      && parts.Valid() && objs.Valid()
      && InTable(objs.cur, |parts.list|)
    }

    ghost predicate Valid()
      reads this, parts, parts.Repr, objs, objs.Repr
      ensures Valid() ==> Parts()
    {
      Parts() && Owned(View()) && Placed(View(), objs.cur)
    }

    /** What every object holds, as its clients see it. */
    ghost function Contents(): map<Slot, Page>
      reads this, parts, parts.Repr, objs, objs.Repr
      requires Valid()
    {
      Content(View())
    }

    /** partition_init and pager_port_list_init */
    constructor (pageSize: nat, limit: nat)
      requires 512 <= pageSize <= 0x40_0000 && ValidLimit(limit)
      ensures Valid() && Contents() == map[]
      ensures fresh(parts.Repr) && fresh(objs) && fresh(objs.Repr)
    {
      parts := new PartitionTable(pageSize);
      objs := new ObjectTable(limit);
      owner := map[];
    }

    /** The ownership invariant on the bitmaps themselves: a bit of a partition
        is set exactly when some entry of some object names that page, never
        past the end of the partition, and two entries never name one page. */
    lemma BitsAreOwned(i: nat, off: nat)
      requires Valid() && parts.Live(i) && off / NB_BM < parts.Part(i).bitmap.Length
      ensures Bit(parts.Part(i).bitmap[off / NB_BM], off % NB_BM) <==>
        off < parts.Part(i).totalSize && exists s :: Mapped(View(), s) && Entry(View(), s) == Pack(off, i)
      ensures forall s, t :: Mapped(View(), s) && Mapped(View(), t) && Entry(View(), s) == Entry(View(), t) ==> s == t
    {
      hide ObjectTable.Valid, ObjectTable.Structure;
      var part := parts.Part(i);
      assert NB_BM * (off / NB_BM) + off % NB_BM == off;
      assert Bit(part.bitmap[off / NB_BM], off % NB_BM) <==> off in part.used;
      if off < part.totalSize {
        parts.Names(i, off);
        ExactlyOneOwner(View(), Pack(off, i));
      }
    }

    /** Conservation: free pages plus pages held by objects make up all
        partitions. */
    lemma PagesAccounted()
      requires Valid()
      ensures parts.FreePages(|parts.list|) + |Contents()| == parts.TotalPages(|parts.list|)
    {
      hide ObjectTable.Valid, ObjectTable.Structure, Owned, Content;
      PagesCounted(View());
      parts.Accounted(|parts.list|);
      assert parts.UsedBelow(|parts.list|) == parts.used by {
        parts.Inside();
      }
    }

    lemma WithinCapacity()
      requires Valid()
      ensures |Contents()| <= Capacity(parts.Table())
    {
      hide ObjectTable.Valid, ObjectTable.Structure, Owned, Content;
      PagesAccounted();
      parts.TotalIsCapacity();
    }

    lemma FullIsCapacity()
      requires Valid() && parts.going == {} && parts.Full()
      ensures |Contents()| == Capacity(parts.Table())
    {
      hide ObjectTable.Valid, ObjectTable.Structure, Owned, Content;
      PagesAccounted();
      parts.TotalIsCapacity();
      parts.FreeInOne(0, |parts.list|);
      assert !parts.Available(0);
    }

    /** When no other partition has room for the pages in partition i, the others
        cannot hold all there is. */
    lemma NoRoomWithout(i: nat)
      requires Valid() && parts.going == {} && !AllAvoid(View(), i)
      requires forall j: nat :: j != i ==> !parts.Available(j)
      ensures |Contents()| > Capacity(parts.Table() - {i})
    {
      hide ObjectTable.Valid, ObjectTable.Structure, Content;
      var s :| Mapped(View(), s) && IndexOf(Entry(View(), s)) == i;
      OwnedEntry(View(), s);
      hide Owned;
      parts.SomeUsed(i, Entry(View(), s));
      PagesAccounted();
      parts.TotalIsCapacity();
      parts.FreeInOne(i, |parts.list|);
      parts.Inside();
      PagesOfOneSlot(parts.Table(), i, P_INDEX_INVALID);
    }

    // ---- changes to the tables alone ----

    /** An entry is stored in a block map. */
    method StoreSlot(port: nat, page: nat, entry: Word)
      requires Parts() && HasEntry(View(), Slot(port, page)) && objs.Slotted(port, page)
      modifies objs, objs.Repr
      ensures Parts() && objs.cur == old(objs.cur)
      ensures objs.Repr == old(objs.Repr) && objs.queue == old(objs.queue)
      ensures View() == old(View()).(maps := SetEntry(old(View()), Slot(port, page), entry))
    {
      hide ObjectTable.Valid, ObjectTable.Structure, Owned, Content;
      hide PartitionTable.Valid, PartitionTable.Structure, PartitionTable.Parts, PartitionTable.Bitmaps;
      objs.StoreEntry(port, page, entry);
    }

    /** The object's current partition, which is in the table if it is one. */
    method PartOf(port: nat) returns (part: nat)
      requires Parts() && port in objs.maps
      ensures part == objs.cur[port] && (part < |parts.list| || part == P_INDEX_INVALID)
    {
      part := objs.CurPartition(port);
    }

    method AllocIn(part: nat) returns (name: Option<Word>)
      requires Parts() && (part < |parts.list| || part == P_INDEX_INVALID)
      modifies parts.Repr
      ensures Parts() && View() == old(View()).(used := parts.used)
      ensures parts.Repr == old(parts.Repr) && parts.going == old(parts.going) && parts.list == old(parts.list)
      ensures name.Some? <==> old(parts.Available(part))
      ensures name.None? ==> parts.used == old(parts.used) && !parts.Available(part)
      ensures name.Some? ==>
        && name.value !in old(parts.used) && name.value in parts.disk && name.value != NO_BLOCK
        && parts.used == old(parts.used) + {name.value}
    {
      hide ObjectTable.Valid, ObjectTable.Structure, Owned, Content;
      hide PartitionTable.Valid, PartitionTable.Structure, PartitionTable.Parts, PartitionTable.Bitmaps;
      parts.Inside();
      name := parts.AllocPage(part);
    }

    /** The data-structure half of pager_release_offset. */
    method FreeEntry(port: nat, page: nat)
      requires Parts() && HasEntry(View(), Slot(port, page))
      requires objs.Slotted(port, page) && Entry(View(), Slot(port, page)) in parts.used
      modifies this, parts.Repr, objs, objs.Repr
      ensures Parts() && objs.cur == old(objs.cur)
      ensures objs.Repr == old(objs.Repr) && parts.Repr == old(parts.Repr) && parts.going == old(parts.going) &&
        parts.list == old(parts.list)
      ensures View() == old(Release(View(), Slot(port, page)))
    {
      hide ObjectTable.Valid, ObjectTable.Structure, Owned, Content;
      hide PartitionTable.Valid, PartitionTable.Structure, PartitionTable.Parts, PartitionTable.Bitmaps;
      parts.Inside();
      var entry := objs.ReadOffset(port, page);
      owner := owner - {entry};
      StoreSlot(port, page, NO_BLOCK);
      parts.DeallocPage(entry);
    }

    /** pager_release_offset */
    method ReleaseOffset(port: nat, page: nat)
      requires Valid() && Mapped(View(), Slot(port, page))
      modifies this, parts.Repr, objs, objs.Repr
      ensures Valid() && objs.cur == old(objs.cur)
      ensures objs.Repr == old(objs.Repr) && parts.Repr == old(parts.Repr) && parts.going == old(parts.going) &&
        parts.list == old(parts.list)
      ensures View() == old(Release(View(), Slot(port, page)))
      ensures Contents() == old(Contents()) - {Slot(port, page)}
    {
      hide ObjectTable.Valid, ObjectTable.Structure, Owned, Content;
      hide PartitionTable.Valid, PartitionTable.Structure, PartitionTable.Parts, PartitionTable.Bitmaps;
      ReleaseKeepsOwned(View(), Slot(port, page));
      OwnedEntry(View(), Slot(port, page));
      objs.MappedIsSlotted(port, page);
      FreeEntry(port, page);
    }

    /** The data-structure half of TryAssign. */
    method TakeEntry(port: nat, page: nat) returns (entry: Word)
      requires Parts() && HasEntry(View(), Slot(port, page))
      requires objs.Slotted(port, page) && port in objs.cur
      modifies this, parts.Repr, objs, objs.Repr
      ensures Parts() && objs.cur == old(objs.cur)
      ensures objs.Repr == old(objs.Repr) && parts.Repr == old(parts.Repr) && parts.going == old(parts.going) &&
        parts.list == old(parts.list)
      ensures entry == NO_BLOCK ==>
        View() == old(View()) && objs.Slotted(port, page) && !parts.Available(objs.cur[port])
      ensures entry != NO_BLOCK ==>
        && entry !in old(parts.used) && entry in old(parts.disk)
        && View() == Assign(old(View()), Slot(port, page), entry)
      ensures old(parts.Available(objs.cur[port])) ==> entry != NO_BLOCK
    {
      hide ObjectTable.Valid, ObjectTable.Structure, PartitionTable.Valid, PartitionTable.Structure;
      hide PartitionTable.Parts, PartitionTable.Bitmaps, DefaultPager.Parts, Owned, Content;
      Apart();
      var part := PartOf(port);
      var name := AllocIn(part);
      if name.None? {
        return NO_BLOCK;
      }
      entry := name.value;
      owner := owner[entry := Slot(port, page)];
      StoreSlot(port, page, entry);
    }

    /** pager_alloc_page on the object's current partition; the page obtained
        is stored in the entry. */
    method TryAssign(port: nat, page: nat) returns (entry: Word)
      requires Valid() && HasEntry(View(), Slot(port, page)) && !Mapped(View(), Slot(port, page))
      requires objs.Slotted(port, page) && port in objs.cur && objs.cur[port] != P_INDEX_INVALID
      modifies this, parts.Repr, objs, objs.Repr
      ensures Valid()
      ensures objs.cur == old(objs.cur) && objs.Repr == old(objs.Repr) && parts.Repr == old(parts.Repr) &&
        parts.going == old(parts.going) && parts.list == old(parts.list)
      ensures entry == NO_BLOCK ==>
        View() == old(View()) && objs.Slotted(port, page) && !parts.Available(objs.cur[port])
      ensures entry != NO_BLOCK ==>
        && Mapped(View(), Slot(port, page)) && Entry(View(), Slot(port, page)) == entry
        && Contents() == old(Contents())[Slot(port, page) := Contents()[Slot(port, page)]]
      ensures old(parts.Available(objs.cur[port])) ==> entry != NO_BLOCK
    {
      hide ObjectTable.Valid, ObjectTable.Structure, Owned, Content;
      hide PartitionTable.Valid, PartitionTable.Structure, PartitionTable.Parts, PartitionTable.Bitmaps;
      entry := TakeEntry(port, page);
      if entry != NO_BLOCK {
        AssignKeepsOwned(old(View()), Slot(port, page), entry);
      }
    }

    method SetCurPartition(port: nat, part: nat)
      requires Valid() && port in objs.maps && part < |parts.list| && part < P_INDEX_INVALID
      modifies objs, objs.Repr
      ensures Valid() && objs.cur == old(objs.cur)[port := part]
      ensures View() == old(View()) && objs.Repr == old(objs.Repr)
      ensures forall page: nat :: old(objs.Slotted(port, page)) ==> objs.Slotted(port, page)
      ensures forall i: nat :: parts.Available(i) == old(parts.Available(i))
    {
      hide ObjectTable.Valid, ObjectTable.Structure, Owned, Content;
      hide PartitionTable.Valid, PartitionTable.Structure, PartitionTable.Parts, PartitionTable.Bitmaps;
      parts.Inside();
      objs.SetCurPartition(port, part);
      assert Parts();
    }

    /** The start of pager_write_offset: an object that had no partition to
        begin with looks for one again. */
    method FindPartition(port: nat, page: nat) returns (found: bool)
      requires Valid() && port in objs.maps
      modifies objs, objs.Repr
      ensures Valid() && View() == old(View()) && objs.Repr == old(objs.Repr)
      ensures found <==> port in objs.cur && objs.cur[port] != P_INDEX_INVALID
      ensures !found ==> parts.Full() && !Mapped(View(), Slot(port, page))
    {
      hide ObjectTable.Valid, ObjectTable.Structure, Owned, Content;
      hide PartitionTable.Valid, PartitionTable.Structure, PartitionTable.Parts, PartitionTable.Bitmaps;
      parts.Inside();
      var part := objs.CurPartition(port);
      if part == P_INDEX_INVALID {
        var size := objs.Size(port);
        var pages := if page > size then page else size;
        var newPart := parts.Choose(parts.Ptoa(pages), P_INDEX_INVALID);
        if newPart == P_INDEX_INVALID {
          newPart := parts.ChooseRoom(P_INDEX_INVALID);
        }
        if newPart == P_INDEX_INVALID {
          return false;
        }
        SetCurPartition(port, newPart);
      }
      found := true;
    }

    /** The object grows to hold the page, and gets the second-level map. */
    method MakeRoom(port: nat, page: nat)
      requires Valid() && port in objs.maps
      modifies objs, objs.Repr
      ensures Valid() && fresh(objs.Repr - old(objs.Repr))
      ensures objs.Slotted(port, page) && HasEntry(View(), Slot(port, page))
      ensures Contents() == old(Contents())
      ensures forall s :: Mapped(View(), s) == old(Mapped(View(), s))
      ensures objs.cur == old(objs.cur)
      ensures forall i: nat :: parts.Available(i) == old(parts.Available(i))
    {
      hide ObjectTable.Valid, ObjectTable.Structure, Owned, Content;
      hide PartitionTable.Valid, PartitionTable.Structure, PartitionTable.Parts, PartitionTable.Bitmaps;
      hide PartitionTable.Available;
      ghost var v := View();
      parts.Inside();
      objs.Extend(port, page);
      objs.EnsureSlot(port, page);
      GrowKeepsOwned(v, port, |objs.maps[port]| - |v.maps[port]|);
      assert Parts();
    }

    /** Assigns a block from the current partition or, before giving up, from
        any other. */
    method AssignAnywhere(port: nat, page: nat) returns (entry: Word)
      requires Valid() && HasEntry(View(), Slot(port, page)) && !Mapped(View(), Slot(port, page))
      requires objs.Slotted(port, page) && port in objs.cur && objs.cur[port] != P_INDEX_INVALID
      modifies this, parts.Repr, objs, objs.Repr
      ensures Valid()
      ensures objs.Repr == old(objs.Repr) && parts.Repr == old(parts.Repr) && parts.going == old(parts.going) &&
        parts.list == old(parts.list)
      ensures entry == NO_BLOCK ==> View() == old(View()) && parts.Full()
      ensures entry != NO_BLOCK ==>
        && Mapped(View(), Slot(port, page)) && Entry(View(), Slot(port, page)) == entry
        && Contents() == old(Contents())[Slot(port, page) := Contents()[Slot(port, page)]]
    {
      hide ObjectTable.Valid, ObjectTable.Structure, Owned, Content;
      hide PartitionTable.Valid, PartitionTable.Structure, PartitionTable.Parts, PartitionTable.Bitmaps;
      entry := TryAssign(port, page);
      if entry == NO_BLOCK {
        parts.Inside();
        var part := objs.CurPartition(port);
        var newPart := parts.ChooseRoom(part);
        if newPart != P_INDEX_INVALID {
          SetCurPartition(port, newPart);
          entry := TryAssign(port, page);
        }
      }
    }

    /** pager_write_offset: the entry of the page, allocating a block if there
        is none yet. */
    method WriteOffset(port: nat, page: nat) returns (entry: Word)
      requires Valid() && port in objs.maps
      modifies this, parts.Repr, objs, objs.Repr
      ensures Valid() && fresh(objs.Repr - old(objs.Repr)) && parts.Repr == old(parts.Repr) &&
        parts.going == old(parts.going) && parts.list == old(parts.list)
      ensures entry == NO_BLOCK <==> !Mapped(View(), Slot(port, page))
      ensures entry == NO_BLOCK ==> Contents() == old(Contents()) && parts.Full()
      ensures entry != NO_BLOCK ==>
        && Entry(View(), Slot(port, page)) == entry
        && Contents() == old(Contents())[Slot(port, page) := Contents()[Slot(port, page)]]
    {
      hide DefaultPager.Valid, DefaultPager.Parts, Owned, Content;
      Apart();
      var found := FindPartition(port, page);
      if !found {
        return NO_BLOCK;
      }
      MakeRoom(port, page);
      Apart();
      entry := ReadEntry(port, page);
      if entry == NO_BLOCK {
        entry := AssignAnywhere(port, page);
      }
    }

    /** The partitions and the objects share nothing. */
    lemma Apart()
      requires Parts()
      ensures objs.maps.Keys == objs.cur.Keys
      ensures parts in parts.Repr && parts !in objs.Repr && objs !in parts.Repr && parts.Repr !! objs.Repr
      ensures this !in parts.Repr && this !in objs.Repr
    {}

    /** pager_read_offset */
    method ReadEntry(port: nat, page: nat) returns (entry: Word)
      requires Valid() && HasEntry(View(), Slot(port, page))
      ensures entry == Entry(View(), Slot(port, page))
    {
      hide Owned, Content;
      entry := objs.ReadOffset(port, page);
    }

    /** The size of an object, in pages. */
    method SizeOf(port: nat) returns (size: nat)
      requires Valid() && port in objs.maps
      ensures size == |objs.maps[port]|
    {
      hide Owned, Content;
      size := objs.Size(port);
    }

    /** default_has_page */
    method HasPage(port: nat, page: nat) returns (has: bool)
      requires Valid() && HasEntry(View(), Slot(port, page))
      ensures has <==> Slot(port, page) in Contents()
    {
      var entry := ReadEntry(port, page);
      has := entry != NO_BLOCK;
    }

    /** default_read of a whole page; None is PAGER_ABSENT. The original panics
        on a page outside the object. */
    method Read(port: nat, page: nat, deallocate: bool) returns (data: Option<Page>)
      requires Valid() && HasEntry(View(), Slot(port, page))
      modifies this, parts.Repr, objs, objs.Repr
      ensures Valid() && objs.Repr == old(objs.Repr) && parts.Repr == old(parts.Repr) &&
        parts.going == old(parts.going) && parts.list == old(parts.list)
      ensures data == if Slot(port, page) in old(Contents()) then Some(old(Contents())[Slot(port, page)]) else None
      ensures Contents() == if deallocate then old(Contents()) - {Slot(port, page)} else old(Contents())
      ensures forall s :: HasEntry(View(), s) == old(HasEntry(View(), s))
    {
      hide ObjectTable.Valid, ObjectTable.Structure, Owned, Content;
      hide PartitionTable.Valid, PartitionTable.Structure, PartitionTable.Parts, PartitionTable.Bitmaps;
      var entry := ReadEntry(port, page);
      if entry == NO_BLOCK {
        assert Contents() == Contents() - {Slot(port, page)};
        return None;
      }
      OwnedEntry(View(), Slot(port, page));
      var bytes := parts.ReadPage(entry);
      if deallocate {
        ReleaseOffset(port, page);
      }
      data := Some(bytes);
    }

    /** A page that has a block is overwritten. */
    method Overwrite(port: nat, page: nat, data: Page)
      requires Valid() && Mapped(View(), Slot(port, page))
      modifies parts
      ensures Valid() && parts.Repr == old(parts.Repr) && parts.going == old(parts.going) &&
        parts.list == old(parts.list)
      ensures Contents() == old(Contents())[Slot(port, page) := data]
      ensures objs.cur == old(objs.cur)
      ensures View().maps == old(View().maps)
    {
      hide ObjectTable.Valid, ObjectTable.Structure, Owned, Content;
      hide PartitionTable.Valid, PartitionTable.Structure, PartitionTable.Parts, PartitionTable.Bitmaps;
      PutKeepsOwned(View(), Slot(port, page), data);
      OwnedEntry(View(), Slot(port, page));
      parts.Inside();
      var entry := objs.ReadOffset(port, page);
      parts.WritePage(entry, data);
      assert Parts();
      assert View() == Put(old(View()), entry, data);
    }

    /** default_write of a whole page; false is PAGER_ERROR. */
    method Write(port: nat, page: nat, data: Page) returns (ok: bool)
      requires Valid() && port in objs.maps
      modifies this, parts.Repr, objs, objs.Repr
      ensures Valid() && fresh(objs.Repr - old(objs.Repr)) && parts.Repr == old(parts.Repr) &&
        parts.going == old(parts.going) && parts.list == old(parts.list)
      ensures ok ==> Contents() == old(Contents())[Slot(port, page) := data]
      ensures !ok ==> Contents() == old(Contents()) && Slot(port, page) !in Contents() && parts.Full()
    {
      hide DefaultPager.Valid, DefaultPager.Parts, Owned, Content;
      Apart();
      var entry := WriteOffset(port, page);
      if entry == NO_BLOCK {
        return false;
      }
      Apart();
      Overwrite(port, page, data);
      ok := true;
    }

    method ReleaseIfMapped(port: nat, page: nat)
      requires Valid() && HasEntry(View(), Slot(port, page))
      modifies this, parts.Repr, objs, objs.Repr
      ensures Valid()
      ensures objs.Repr == old(objs.Repr) && parts.Repr == old(parts.Repr) && parts.going == old(parts.going) &&
        parts.list == old(parts.list)
      ensures objs.maps.Keys == old(objs.maps).Keys && |objs.maps[port]| == |old(objs.maps)[port]|
      ensures Contents() == old(Contents()) - {Slot(port, page)}
    {
      hide DefaultPager.Valid, DefaultPager.Parts, Owned, Content;
      Apart();
      var entry := ReadEntry(port, page);
      if entry != NO_BLOCK {
        ReleaseOffset(port, page);
      } else {
        assert Contents() == Contents() - {Slot(port, page)};
      }
    }

    /** The loop of pager_dealloc: every page goes back to its partition. */
    method ReleaseAll(port: nat)
      requires Valid() && port in objs.maps
      modifies this, parts.Repr, objs, objs.Repr
      ensures Valid()
      ensures objs.Repr == old(objs.Repr) && parts.Repr == old(parts.Repr) && parts.going == old(parts.going) &&
        parts.list == old(parts.list)
      ensures objs.maps.Keys == old(objs.maps).Keys
      ensures Contents() == Without(old(Contents()), port, |old(objs.maps)[port]|)
      ensures forall k: nat :: !Mapped(View(), Slot(port, k))
    {
      hide DefaultPager.Valid, DefaultPager.Parts, Owned, Content;
      Apart();
      var size := SizeOf(port);
      var k := 0;
      assert Without(Contents(), port, 0) == Contents();
      while k < size
        invariant k <= size
        invariant Valid()
        invariant objs.Repr == old(objs.Repr) && parts.Repr == old(parts.Repr) && parts.going == old(parts.going) &&
          parts.list == old(parts.list)
        invariant port in objs.maps && |objs.maps[port]| == size
        invariant objs.maps.Keys == old(objs.maps).Keys
        invariant Contents() == Without(old(Contents()), port, k)
      {
        WithoutStep(old(Contents()), port, k);
        ReleaseIfMapped(port, k);
        k := k + 1;
      }
      forall j: nat ensures !Mapped(View(), Slot(port, j)) {
        assert Slot(port, j) !in Contents();
      }
    }

    /** pager_dealloc and pager_port_list_delete */
    method DestroyObject(port: nat)
      requires Valid() && port in objs.maps
      modifies this, parts.Repr, objs, objs.Repr
      ensures Valid()
      ensures objs.Repr == old(objs.Repr) && parts.Repr == old(parts.Repr) && parts.going == old(parts.going) &&
        parts.list == old(parts.list)
      ensures objs.maps.Keys == old(objs.maps).Keys - {port}
      ensures Contents() == WithoutObject(old(Contents()), port)
    {
      hide ObjectTable.Valid, ObjectTable.Structure, Owned, Content;
      hide PartitionTable.Valid, PartitionTable.Structure, PartitionTable.Parts, PartitionTable.Bitmaps;
      assert Without(Contents(), port, |objs.maps[port]|) == WithoutObject(Contents(), port);
      ReleaseAll(port);
      ghost var v := View();
      ForgetKeepsOwned(v, port);
      objs.Delete(port);
      assert View() == Forget(v, port);
      assert Parts();
    }

    /** pager_port_alloc: the first partition with room for the whole object,
        or else the first one of all. */
    method CreateObject(port: nat, bytes: Word)
      requires Valid() && port !in objs.maps
      modifies objs, objs.Repr
      ensures Valid() && fresh(objs.Repr - old(objs.Repr))
      ensures parts.Repr == old(parts.Repr) && parts.going == old(parts.going) && parts.list == old(parts.list)
      ensures objs.maps.Keys == old(objs.maps).Keys + {port}
      ensures bytes < (|objs.maps[port]| + 1) * parts.pageSize
      ensures forall n: nat :: n * parts.pageSize <= bytes < (n + 1) * parts.pageSize ==>
        Tight(|objs.maps[port]|, n, objs.limit)
      ensures port in objs.cur && parts.BestFor(objs.cur[port], bytes)
      ensures Contents() == old(Contents())
    {
      hide ObjectTable.Valid, ObjectTable.Structure, Owned, Content;
      hide PartitionTable.Valid, PartitionTable.Structure, PartitionTable.Parts, PartitionTable.Bitmaps;
      parts.Inside();
      var part := parts.Choose(bytes, P_INDEX_INVALID);
      ghost var first := part;
      if part == P_INDEX_INVALID {
        part := parts.Choose(0, P_INDEX_INVALID);
      }
      parts.SearchedTwice(bytes, first, part);
      AddObject(port, part, parts.Atop(bytes));
      ObjectCovers(bytes, |objs.maps[port]|);
    }

    lemma ObjectCovers(bytes: nat, size: nat)
      requires 0 < parts.pageSize && Tight(size, parts.Atop(bytes), objs.limit)
      ensures bytes < (size + 1) * parts.pageSize
      ensures forall n: nat :: n * parts.pageSize <= bytes < (n + 1) * parts.pageSize ==> Tight(size, n, objs.limit)
    {
      hide PartitionTable.Atop, Tight;
      var pages := parts.Atop(bytes);
      assert pages <= size by { TightHolds(size, pages, objs.limit); }
      TimesKeepsOrder(pages + 1, size + 1, parts.pageSize);
      forall n: nat | n * parts.pageSize <= bytes < (n + 1) * parts.pageSize ensures n == pages {
        OneQuotient(bytes, parts.pageSize, n, pages);
      }
    }

    /** pager_alloc and pager_port_list_insert. */
    method AddObject(port: nat, part: nat, wanted: nat)
      requires Valid() && port !in objs.maps && part < 256 && (part < |parts.list| || part == P_INDEX_INVALID)
      modifies objs, objs.Repr
      ensures Valid() && fresh(objs.Repr - old(objs.Repr))
      ensures objs.maps.Keys == old(objs.maps).Keys + {port} && Tight(|objs.maps[port]|, wanted, objs.limit)
      ensures port in objs.cur && objs.cur[port] == part
      ensures Contents() == old(Contents())
    {
      hide ObjectTable.Valid, ObjectTable.Structure, Owned, Content;
      hide PartitionTable.Valid, PartitionTable.Structure, PartitionTable.Parts, PartitionTable.Bitmaps;
      parts.Inside();
      ghost var v := View();
      objs.Insert(port, part, wanted);
      IntroduceKeepsOwned(v, port, |objs.maps[port]|);
      assert View() == Introduce(v, port, |objs.maps[port]|);
      assert Parts();
    }

    /** create_paging_partition */
    method CreatePartition(bytes: Word, id: nat, contents: seq<Page>)
      requires Valid()
      requires |contents| == parts.Atop(bytes)
      requires exists j: nat :: j < P_INDEX_INVALID && !parts.Live(j)
      modifies parts
      ensures Valid() && fresh(parts.Repr - old(parts.Repr)) && objs.Repr == old(objs.Repr)
      ensures parts.going <= old(parts.going)
      ensures Contents() == old(Contents())
      ensures parts.Table() == old(parts.Table())[FreeSlotOf(old(parts.Table())) := Stock(id, |contents|)]
      ensures |contents| * parts.pageSize <= bytes < (|contents| + 1) * parts.pageSize
    {
      hide ObjectTable.Valid, ObjectTable.Structure, Owned, Content;
      hide PartitionTable.Valid, PartitionTable.Structure, PartitionTable.Parts, PartitionTable.Bitmaps;
      parts.Inside();
      ghost var v := View();
      var i := parts.Create(bytes, id, contents);
      DiskKeepsOwned(v, parts.disk);
      assert View() == v.(disk := parts.disk);
      assert Parts();
    }

    /** A block moves to another partition, contents and all. */
    method MoveBlock(entry: Word) returns (moved: Word)
      requires Parts() && entry in parts.used && entry in parts.disk
      modifies parts.Repr
      ensures Parts()
      ensures parts.Repr == old(parts.Repr) && parts.going == old(parts.going) && parts.list == old(parts.list)
      ensures moved == NO_BLOCK ==> parts.used == old(parts.used) && parts.disk == old(parts.disk)
      ensures moved == NO_BLOCK ==> forall j: nat :: j != IndexOf(entry) ==> !parts.Available(j)
      ensures moved != NO_BLOCK ==>
        && moved !in old(parts.used) && moved in old(parts.disk) && IndexOf(moved) != IndexOf(entry)
        && parts.used == old(parts.used) - {entry} + {moved}
        && parts.disk == old(parts.disk)[moved := old(parts.disk)[entry]]
    {
      hide ObjectTable.Valid, ObjectTable.Structure, Owned, Content;
      hide PartitionTable.Valid, PartitionTable.Structure, PartitionTable.Parts, PartitionTable.Bitmaps;
      parts.Inside();
      moved := parts.MovePage(entry);
    }

    /** The data-structure half of RelocateEntry. */
    method MoveEntry(port: nat, page: nat) returns (moved: Word)
      requires Parts() && HasEntry(View(), Slot(port, page))
      requires objs.Slotted(port, page) && Entry(View(), Slot(port, page)) in parts.used &&
        Entry(View(), Slot(port, page)) in parts.disk
      modifies this, parts.Repr, objs, objs.Repr
      ensures Parts() && objs.cur == old(objs.cur)
      ensures objs.Repr == old(objs.Repr) && parts.Repr == old(parts.Repr) && parts.going == old(parts.going) &&
        parts.list == old(parts.list) && objs.queue == old(objs.queue)
      ensures moved == NO_BLOCK ==>
        View() == old(View()) && forall j: nat :: j != IndexOf(Entry(View(), Slot(port, page))) ==> !parts.Available(j)
      ensures moved != NO_BLOCK ==>
        && moved !in old(parts.used) && moved in old(parts.disk)
        && IndexOf(moved) != IndexOf(old(Entry(View(), Slot(port, page))))
        && View() == Move(old(View()), Slot(port, page), moved)
    {
      hide ObjectTable.Valid, ObjectTable.Structure, Owned, Content;
      hide PartitionTable.Valid, PartitionTable.Structure, PartitionTable.Parts, PartitionTable.Bitmaps;
      parts.Inside();
      var entry := objs.ReadOffset(port, page);
      moved := MoveBlock(entry);
      if moved != NO_BLOCK {
        owner := (owner - {entry})[moved := Slot(port, page)];
        StoreSlot(port, page, moved);
      }
    }

    /** One page of pager_realloc: it moves off its partition, or stays where
        it is when no other partition has room. */
    method RelocateEntry(port: nat, page: nat) returns (ok: bool)
      requires Valid() && Mapped(View(), Slot(port, page))
      modifies this, parts.Repr, objs, objs.Repr
      ensures Valid() && objs.cur == old(objs.cur)
      ensures objs.Repr == old(objs.Repr) && parts.Repr == old(parts.Repr) && parts.going == old(parts.going) &&
        parts.list == old(parts.list) && objs.queue == old(objs.queue)
      ensures Contents() == old(Contents())
      ensures SameBut(View(), old(View()), port)
      ensures forall k: nat :: k != page && HasEntry(View(), Slot(port, k)) ==>
        Entry(View(), Slot(port, k)) == Entry(old(View()), Slot(port, k))
      ensures ok ==>
        && HasEntry(View(), Slot(port, page))
        && IndexOf(Entry(View(), Slot(port, page))) != IndexOf(Entry(old(View()), Slot(port, page)))
      ensures !ok ==>
        View() == old(View()) && forall j: nat :: j != IndexOf(Entry(View(), Slot(port, page))) ==> !parts.Available(j)
    {
      hide ObjectTable.Valid, ObjectTable.Structure, Owned, Content;
      hide PartitionTable.Valid, PartitionTable.Structure, PartitionTable.Parts, PartitionTable.Bitmaps;
      ghost var v, s := View(), Slot(port, page);
      OwnedEntry(v, s);
      objs.MappedIsSlotted(port, page);
      var moved := MoveEntry(port, page);
      if moved == NO_BLOCK {
        return false;
      }
      MoveKeepsOwned(v, s, moved);
      ok := true;
    }

    /** The loop of pager_realloc: every page of the object that lives in
        partition i moves, until one cannot. */
    method RelocatePages(port: nat, i: nat) returns (ok: bool)
      requires Valid() && port in objs.maps && i < P_INDEX_INVALID
      modifies this, parts.Repr, objs, objs.Repr
      ensures Valid() && objs.cur == old(objs.cur)
      ensures objs.Repr == old(objs.Repr) && parts.Repr == old(parts.Repr) && parts.going == old(parts.going) &&
        parts.list == old(parts.list) && objs.queue == old(objs.queue)
      ensures Contents() == old(Contents())
      ensures SameBut(View(), old(View()), port)
      ensures ok ==> port in objs.maps && Avoids(View(), port, |objs.maps[port]|, i)
      ensures !ok ==> !AllAvoid(View(), i) && forall j: nat :: j != i ==> !parts.Available(j)
    {
      hide DefaultPager.Valid, DefaultPager.Parts, Owned, Content;
      Apart();
      var size := SizeOf(port);
      var k := 0;
      while k < size
        invariant k <= size
        invariant Valid() && objs.cur == old(objs.cur)
        invariant objs.Repr == old(objs.Repr) && parts.Repr == old(parts.Repr) && parts.going == old(parts.going) &&
          parts.list == old(parts.list) && objs.queue == old(objs.queue)
        invariant port in objs.maps && |objs.maps[port]| == size
        invariant Contents() == old(Contents())
        invariant SameBut(View(), old(View()), port)
        invariant Avoids(View(), port, k, i)
      {
        var entry := ReadEntry(port, k);
        if IndexOf(entry) == i {
          var moved := RelocateEntry(port, k);
          if !moved {
            return false;
          }
        }
        k := k + 1;
      }
      ok := true;
    }

    /** pager_realloc */
    method Relocate(port: nat, i: nat) returns (ok: bool)
      requires Valid() && port in objs.maps && i < P_INDEX_INVALID
      requires parts.going == {i}
      modifies this, parts.Repr, objs, objs.Repr
      ensures Valid()
      ensures objs.Repr == old(objs.Repr) && parts.Repr == old(parts.Repr) && parts.going == old(parts.going) &&
        parts.list == old(parts.list) && objs.queue == old(objs.queue)
      ensures Contents() == old(Contents())
      ensures SameBut(View(), old(View()), port)
      ensures ok ==> port in objs.maps && Avoids(View(), port, |objs.maps[port]|, i)
      ensures !ok ==> !AllAvoid(View(), i) && forall j: nat :: j != i ==> !parts.Available(j)
      ensures port in objs.cur && (ok ==> objs.cur[port] != i)
      ensures forall p :: p != port && p in objs.cur ==> p in old(objs.cur) && objs.cur[p] == old(objs.cur)[p]
    {
      hide DefaultPager.Valid, DefaultPager.Parts, Owned, Content;
      Apart();
      ok := RelocatePages(port, i);
      if ok {
        Repoint(port, i);
      }
    }

    /** The object's current partition becomes one that stays. */
    method Repoint(port: nat, i: nat)
      requires Valid() && port in objs.maps && i < P_INDEX_INVALID
      requires parts.going == {i} && Avoids(View(), port, |objs.maps[port]|, i)
      modifies objs, objs.Repr
      ensures Valid() && View() == old(View())
      ensures objs.Repr == old(objs.Repr) && objs.queue == old(objs.queue)
      ensures port in objs.cur && objs.cur[port] != i
      ensures forall p :: p != port && p in objs.cur ==> p in old(objs.cur) && objs.cur[p] == old(objs.cur)[p]
    {
      hide ObjectTable.Valid, ObjectTable.Structure, Owned, Content;
      hide PartitionTable.Valid, PartitionTable.Structure, PartitionTable.Parts, PartitionTable.Bitmaps;
      var part := parts.Choose(0, P_INDEX_INVALID);
      parts.ChosenIsNotGoing(part);
      parts.Inside();
      ghost var v := View();
      objs.SetCurPartition(port, part);
      assert View() == v;
      if part == P_INDEX_INVALID {
        forall s | Mapped(v, s) ensures s.port != port {
          OwnedEntry(v, s);
          assert parts.Live(IndexOf(Entry(v, s)));
        }
      }
      assert Parts();
    }

    /** The first n objects of the queue have left partition i. */
    ghost predicate Left(n: nat, i: nat)
      reads this, parts, parts.Repr, objs, objs.Repr
      requires Parts() && n <= |objs.queue|
    {
      forall a: nat :: a < n && objs.queue[a] in objs.maps && objs.queue[a] in objs.cur ==>
        && Avoids(View(), objs.queue[a], |objs.maps[objs.queue[a]]|, i)
        && objs.cur[objs.queue[a]] != i
    }

    /** One object of the walk below. */
    method RelocateNext(n: nat, i: nat) returns (ok: bool)
      requires Valid() && i < P_INDEX_INVALID && parts.going == {i}
      requires n < |objs.queue| && Left(n, i)
      modifies this, parts.Repr, objs, objs.Repr
      ensures Valid()
      ensures objs.Repr == old(objs.Repr) && parts.Repr == old(parts.Repr) && parts.going == old(parts.going) &&
        parts.list == old(parts.list) && objs.queue == old(objs.queue)
      ensures Contents() == old(Contents())
      ensures SameShape(View(), old(View()))
      ensures ok ==> Left(n + 1, i)
      ensures !ok ==> !AllAvoid(View(), i) && forall j: nat :: j != i ==> !parts.Available(j)
    {
      hide ObjectTable.Valid, ObjectTable.Structure, Owned, Content;
      hide PartitionTable.Valid, PartitionTable.Structure, PartitionTable.Parts, PartitionTable.Bitmaps;
      objs.Queued();
      ghost var v := View();
      ok := Relocate(objs.queue[n], i);
      if ok {
        forall a: nat | a < n && objs.queue[a] != objs.queue[n] && objs.queue[a] in objs.maps
          ensures Avoids(View(), objs.queue[a], |objs.maps[objs.queue[a]]|, i)
        {
          assert Avoids(v, objs.queue[a], |v.maps[objs.queue[a]]|, i);
        }
      }
    }

    /** The walk over all objects in destroy_paging_partition. */
    method RelocateAll(i: nat) returns (ok: bool)
      requires Valid() && i < P_INDEX_INVALID && parts.going == {i}
      modifies this, parts.Repr, objs, objs.Repr
      ensures Valid()
      ensures objs.Repr == old(objs.Repr) && parts.Repr == old(parts.Repr) && parts.going == old(parts.going) &&
        parts.list == old(parts.list) && objs.queue == old(objs.queue)
      ensures Contents() == old(Contents())
      ensures SameShape(View(), old(View()))
      ensures ok ==> Left(|objs.queue|, i)
      ensures !ok ==> !AllAvoid(View(), i) && forall j: nat :: j != i ==> !parts.Available(j)
    {
      hide ObjectTable.Valid, ObjectTable.Structure, Owned, Content;
      hide PartitionTable.Valid, PartitionTable.Structure, PartitionTable.Parts, PartitionTable.Bitmaps;
      var n := 0;
      while n < |objs.queue|
        invariant n <= |objs.queue|
        invariant Valid()
        invariant objs.Repr == old(objs.Repr) && parts.Repr == old(parts.Repr) && parts.going == old(parts.going) &&
          parts.list == old(parts.list) && objs.queue == old(objs.queue)
        invariant Contents() == old(Contents())
        invariant SameShape(View(), old(View()))
        invariant Left(n, i)
        decreases |objs.queue| - n
      {
        ok := RelocateNext(n, i);
        if !ok {
          return;
        }
        n := n + 1;
      }
      ok := true;
    }

    /** destroy_paging_partition, run without interference from the server
        threads. */
    method DestroyPartition(id: nat) returns (r: DestroyResult)
      requires Valid() && parts.going == {}
      modifies this, parts.Repr, objs, objs.Repr
      ensures Valid() && parts.going == {}
      ensures objs.Repr == old(objs.Repr) && parts.Repr == old(parts.Repr)
      ensures Contents() == old(Contents())
      ensures SameShape(View(), old(View()))
      ensures r.NoSuchPartition? ==> !Known(old(parts.Table()), id) && parts.list == old(parts.list)
      ensures r.Failed? ==>
        && FirstWith(old(parts.Table()), id, r.index) && parts.list == old(parts.list)
        && !AllAvoid(View(), r.index)
        && (forall j: nat :: j != r.index ==> !parts.Available(j))
      ensures r.Removed? ==>
        && FirstWith(old(parts.Table()), id, r.index) && parts.Table() == old(parts.Table()) - {r.index}
        && (forall p :: p in objs.cur ==> objs.cur[p] != r.index)
        && AllAvoid(View(), r.index)
        && (forall w :: w in parts.used ==> IndexOf(w) != r.index)
    {
      hide ObjectTable.Valid, ObjectTable.Structure, Owned, Content;
      hide PartitionTable.Valid, PartitionTable.Structure, PartitionTable.Parts, PartitionTable.Bitmaps;
      var found := parts.Find(id);
      if found.None? {
        return NoSuchPartition;
      }
      var i := found.value;
      var ok := Evacuate(i);
      r := if ok then Removed(i) else Failed(i);
    }

    /** Partition i goes, or stays because the pages of some object have no other
        place. */
    method Evacuate(i: nat) returns (ok: bool)
      requires Valid() && parts.going == {} && parts.Live(i)
      modifies this, parts.Repr, objs, objs.Repr
      ensures Valid() && parts.going == {}
      ensures objs.Repr == old(objs.Repr) && parts.Repr == old(parts.Repr)
      ensures Contents() == old(Contents())
      ensures SameShape(View(), old(View()))
      ensures !ok ==>
        && parts.list == old(parts.list) && !AllAvoid(View(), i)
        && forall j: nat :: j != i ==> !parts.Available(j)
      ensures ok ==>
        && parts.Table() == old(parts.Table()) - {i}
        && (forall p :: p in objs.cur ==> objs.cur[p] != i)
        && AllAvoid(View(), i)
        && (forall w :: w in parts.used ==> IndexOf(w) != i)
    {
      hide ObjectTable.Valid, ObjectTable.Structure, Owned, Content;
      hide PartitionTable.Valid, PartitionTable.Structure, PartitionTable.Parts, PartitionTable.Bitmaps;
      parts.Inside();
      SetGoingAway(i, true);
      ok := RelocateAll(i);
      if ok {
        RemovePartition(i);
      } else {
        parts.Inside();
        SetGoingAway(i, false);
      }
    }

    method SetGoingAway(i: nat, going: bool)
      requires Valid() && parts.Live(i) && (going || parts.going == {i}) && (going ==> parts.going == {})
      modifies parts.Part(i)`goingAway, parts`going
      ensures Valid() && parts.going == if going then {i} else {}
      ensures View() == old(View())
      ensures forall j: nat :: j != i ==> parts.Available(j) == old(parts.Available(j))
    {
      hide ObjectTable.Valid, ObjectTable.Structure, Owned, Content;
      hide PartitionTable.Valid, PartitionTable.Structure, PartitionTable.Parts, PartitionTable.Bitmaps;
      parts.Inside();
      parts.SetGoingAway(i, going);
      assert Parts();
    }

    /** set_partition_of(i, 0), once every object has left. */
    method RemovePartition(i: nat)
      requires Valid() && parts.going == {i} && parts.Live(i) && Left(|objs.queue|, i)
      modifies parts
      ensures Valid() && parts.going == {} && parts.Repr == old(parts.Repr)
      ensures Contents() == old(Contents())
      ensures parts.Table() == old(parts.Table()) - {i} && AllAvoid(View(), i)
      ensures forall w :: w in parts.used ==> IndexOf(w) != i
      ensures forall p :: p in objs.cur ==> objs.cur[p] != i
    {
      hide ObjectTable.Valid, ObjectTable.Structure, Owned, Content;
      hide PartitionTable.Valid, PartitionTable.Structure, PartitionTable.Parts, PartitionTable.Bitmaps;
      objs.Queued();
      ghost var v := View();
      forall s | Mapped(v, s) ensures IndexOf(Entry(v, s)) != i {
        assert s.port in objs.queue;
      }
      AvoidedIsEmpty(v, i);
      forall p | p in objs.cur ensures objs.cur[p] != i {
        assert p in objs.queue;
      }
      parts.Inside();
      parts.Remove(i);
      DiskKeepsOwned(v, parts.disk);
      assert View() == v.(disk := parts.disk);
      assert Parts();
    }
  }
}
