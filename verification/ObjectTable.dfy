/** all_pagers and pager_port_lookup: the paging objects behind their ports. */
module ObjectTables {
  import opened Words
  import opened BlockMaps

  ghost predicate Lists(queue: seq<nat>, ports: set<nat>) {
    && (forall p :: p in queue <==> p in ports)
    && (forall a: nat, b: nat :: a < b < |queue| ==> queue[a] != queue[b])
  }

  function RemoveAt(queue: seq<nat>, i: nat): seq<nat>
    requires i < |queue|
  {
    queue[..i] + queue[i + 1..]
  }

  lemma AppendLists(queue: seq<nat>, p: nat, ports: set<nat>)
    requires Lists(queue, ports) && p !in ports
    ensures Lists(queue + [p], ports + {p})
  {}

  lemma RemoveAtLists(queue: seq<nat>, i: nat, ports: set<nat>)
    requires Lists(queue, ports) && i < |queue|
    ensures Lists(RemoveAt(queue, i), ports - {queue[i]})
  {}

  class ObjectTable {
    const limit: nat
    /** pager_port_lookup */
    var objects: map<nat, PagingObject>
    /** all_pagers.queue, in order of creation. */
    var queue: seq<nat>

    /** The block map and the current partition of every object. */
    ghost var maps: map<nat, seq<Word>>
    ghost var cur: map<nat, nat>
    ghost var Repr: set<object>

    ghost predicate QueueOk()
      reads this`objects, this`queue
    {
      Lists(queue, objects.Keys)
    }

    ghost predicate Structure()
      reads this`objects, this`Repr, this`queue, Repr
    {
      && this !in Repr
      && ValidLimit(limit)
      && (forall p :: p in objects ==>
           && objects[p] in Repr && objects[p].Repr <= Repr
           && objects[p].Valid())
      && (forall p, q :: p in objects && q in objects && p != q ==> objects[p].Repr !! objects[q].Repr)
      && QueueOk()
    }

    ghost predicate Valid()
      reads this, Repr
      ensures Valid() ==> maps.Keys == cur.Keys == objects.Keys && Structure()
    {
      && Structure()
      && maps.Keys == objects.Keys && cur.Keys == objects.Keys
      && (forall p :: p in objects ==> maps[p] == objects[p].pages && cur[p] == objects[p].curPartition)
    }

    /** pager_port_list_init */
    constructor (limit: nat)
      requires ValidLimit(limit)
      ensures Valid() && Repr == {}
      ensures maps == map[] && cur == map[] && this.limit == limit
    {
      this.limit := limit;
      objects, queue := map[], [];
      maps, cur := map[], map[];
      Repr := {};
    }

    /** The queue holds every object. */
    lemma Queued()
      requires Valid()
      ensures forall p :: p in queue <==> p in maps
      ensures maps.Keys == cur.Keys
    {}

    /** The page is inside the object and its entry can be stored. */
    ghost predicate Slotted(port: nat, page: nat)
      reads this, Repr
      requires Structure()
    {
      port in objects && page < objects[port].size && objects[port].HasSlot(page)
    }

    lemma MappedIsSlotted(port: nat, page: nat)
      requires Valid() && port in maps && page < |maps[port]| && maps[port][page] != NO_BLOCK
      ensures Slotted(port, page)
    {}

    /** The table is in order except for what its ghost fields say about one
        object. */
    ghost predicate ValidBut(port: nat)
      reads this, Repr, if port in objects then {objects[port]} + objects[port].Repr else {}
    {
      && this !in Repr
      && ValidLimit(limit)
      && maps.Keys == objects.Keys && cur.Keys == objects.Keys
      && (forall p :: p in objects && p != port ==>
           && objects[p] in Repr && objects[p].Repr <= Repr
           && objects[p].Valid()
           && maps[p] == objects[p].pages && cur[p] == objects[p].curPartition)
      && (forall p, q :: p in objects && q in objects && p != port && q != port && p != q ==>
        objects[p].Repr !! objects[q].Repr)
      && QueueOk()
      && port in objects
      && objects[port].Valid() && this !in objects[port].Repr
      && (forall p :: p in objects && p != port ==> objects[p].Repr !! objects[port].Repr)
    }

    /** Work on one object leaves the others alone. */
    twostate lemma OthersKept(port: nat)
      requires old(Valid()) && port in old(objects)
      requires unchanged(this)
      requires forall x: object :: x in old(Repr) && x !in old(objects[port].Repr) ==> unchanged(x)
      requires objects[port].Valid() && this !in objects[port].Repr
      requires forall x :: x in objects[port].Repr ==> x in old(objects[port].Repr) || !old(allocated(x))
      ensures ValidBut(port)
    {
      hide PagingObject.Valid;
      forall q | q in objects && q != port ensures
        && objects[q].Repr == old(objects[q].Repr)
        && objects[q].Valid()
        && objects[q].pages == old(objects[q].pages)
        && objects[q].curPartition == old(objects[q].curPartition)
        && objects[q].Repr !! objects[port].Repr
      {
        assert objects[q].Repr !! old(objects[port].Repr);
      }
    }

    /** Work on the table itself leaves every object alone. */
    twostate lemma AllKept()
      requires old(Valid())
      requires forall x: object :: x in old(Repr) ==> unchanged(x)
      ensures forall q :: q in old(objects) ==>
        && old(objects)[q].Repr == old(objects[q].Repr)
        && old(objects)[q].Valid()
        && old(objects)[q].pages == old(objects[q].pages)
        && old(objects)[q].curPartition == old(objects[q].curPartition)
    {
      hide PagingObject.Valid;
    }

    /** Brings the ghost fields up to date after work on one object. */
    ghost method Refresh(port: nat)
      requires ValidBut(port)
      modifies this`maps, this`cur, this`Repr
      ensures Valid()
      ensures maps == old(maps)[port := objects[port].pages]
      ensures cur == old(cur)[port := objects[port].curPartition]
      ensures Repr == old(Repr) + objects[port].Repr
    {
      hide PagingObject.Valid, QueueOk, PagingObject.HasSlot;
      var ds := objects[port];
      GrowRepr(port);
      hide Structure, ValidBut;
      Mirror(port, ds);
    }

    /** The ghost fields say of one object what it is. */
    ghost method Mirror(port: nat, ds: PagingObject)
      requires Structure() && this !in Repr && port in objects && objects[port] == ds
      requires maps.Keys == objects.Keys && cur.Keys == objects.Keys
      requires forall p :: p in objects && p != port ==>
        maps[p] == objects[p].pages && cur[p] == objects[p].curPartition
      modifies this`maps, this`cur
      ensures Structure() && maps.Keys == objects.Keys && cur.Keys == objects.Keys
      ensures forall p :: p in objects ==> maps[p] == objects[p].pages && cur[p] == objects[p].curPartition
      ensures maps == old(maps)[port := ds.pages] && cur == old(cur)[port := ds.curPartition]
    {
      hide Structure;
      maps, cur := maps[port := ds.pages], cur[port := ds.curPartition];
    }

    ghost method GrowRepr(port: nat)
      requires ValidBut(port)
      modifies this`Repr
      ensures Structure() && this !in Repr && port in objects && maps.Keys == objects.Keys && cur.Keys == objects.Keys
      ensures forall p :: p in objects && p != port ==> maps[p] == objects[p].pages && cur[p] == objects[p].curPartition
      ensures Repr == old(Repr) + objects[port].Repr
    {
      hide PagingObject.Valid;
      Repr := Repr + objects[port].Repr;
    }

    method CurPartition(port: nat) returns (part: nat)
      requires Valid() && port in maps
      ensures part == cur[port] && part < 256
    {
      part := objects[port].curPartition;
    }

    method Size(port: nat) returns (size: nat)
      requires Valid() && port in maps
      ensures size == |maps[port]|
    {
      size := objects[port].size;
    }

    method ReadOffset(port: nat, page: nat) returns (entry: Word)
      requires Valid() && port in maps && page < |maps[port]|
      ensures entry == maps[port][page]
    {
      entry := objects[port].ReadOffset(page);
    }

    /** pager_extend until the object holds the page. */
    method Extend(port: nat, page: nat)
      requires Valid() && port in maps
      modifies this, Repr
      ensures Valid() && fresh(Repr - old(Repr))
      ensures port in maps && page < |maps[port]|
      ensures cur == old(cur) && queue == old(queue)
      ensures |maps[port]| >= |old(maps)[port]|
      ensures maps == old(maps)[port := old(maps)[port] + NoBlocks(|maps[port]| - |old(maps)[port]|)]
    {
      hide PagingObject.Valid, ValidBut, Structure;
      var size := Size(port);
      if page >= size {
        Enlarge(port, page + 1);
      } else {
        assert maps[port] == maps[port] + NoBlocks(0);
      }
    }

    /** The object is too short and grows. */
    method Enlarge(port: nat, wanted: nat)
      requires Valid() && port in maps && |maps[port]| < wanted
      modifies this, Repr
      ensures Valid() && fresh(Repr - old(Repr))
      ensures port in maps && |maps[port]| >= wanted
      ensures cur == old(cur) && queue == old(queue) && maps == old(maps)[port := maps[port]]
      ensures maps[port] == old(maps)[port] + NoBlocks(|maps[port]| - |old(maps)[port]|)
    {
      hide PagingObject.Valid, QueueOk, ValidBut;
      objects[port].Extend(wanted);
      OthersKept(port);
      Refresh(port);
    }

    /** Allocates the second-level map that the page needs. */
    method EnsureSlot(port: nat, page: nat)
      requires Valid() && port in maps && page < |maps[port]|
      modifies this, Repr
      ensures Valid() && fresh(Repr - old(Repr))
      ensures Slotted(port, page)
      ensures cur == old(cur) && queue == old(queue) && maps == old(maps)
    {
      hide PagingObject.Valid;
      objects[port].EnsureSlot(page);
      OthersKept(port);
      Refresh(port);
    }

    method StoreEntry(port: nat, page: nat, entry: Word)
      requires Valid() && Slotted(port, page)
      modifies this, Repr
      ensures Valid() && Repr == old(Repr)
      ensures cur == old(cur) && queue == old(queue)
      ensures port in old(maps) && page < |old(maps)[port]| &&
        maps == old(maps)[port := SetAt(old(maps)[port], page, entry)]
    {
      hide PagingObject.Valid;
      objects[port].SetEntry(page, entry);
      OthersKept(port);
      Refresh(port);
    }

    method SetCurPartition(port: nat, part: nat)
      requires Valid() && port in maps && part < 256
      modifies this, Repr
      ensures Valid() && Repr == old(Repr)
      ensures maps == old(maps) && queue == old(queue) && cur == old(cur)[port := part]
      ensures forall page: nat :: old(Slotted(port, page)) ==> Slotted(port, page)
    {
      hide PagingObject.Valid, QueueOk, ValidBut;
      var ds := objects[port];
      ds.SetCurPartition(part);
      OthersKept(port);
      Refresh(port);
      assert maps == old(maps);
    }

    /** pager_alloc and pager_port_list_insert */
    method Insert(port: nat, part: nat, wanted: nat)
      requires Valid() && port !in maps && part < 256
      modifies this, Repr
      ensures Valid() && fresh(Repr - old(Repr))
      ensures port in maps && Tight(|maps[port]|, wanted, limit)
      ensures maps == old(maps)[port := NoBlocks(|maps[port]|)]
      ensures cur == old(cur)[port := part] && queue == old(queue) + [port]
    {
      hide PagingObject.Valid;
      var ds := new PagingObject(part, wanted, limit);
      Adopt(port, ds);
    }

    method Adopt(port: nat, ds: PagingObject)
      requires Valid() && port !in maps
      requires ds.Valid() && ds.Repr !! Repr && this !in ds.Repr
      modifies this
      ensures Valid() && Repr == old(Repr) + ds.Repr
      ensures maps == old(maps)[port := ds.pages] && cur == old(cur)[port := ds.curPartition]
      ensures queue == old(queue) + [port]
    {
      hide PagingObject.Valid, Lists;
      Append(port, ds);
      Refresh(port);
    }

    /** queue_enter */
    method Append(port: nat, ds: PagingObject)
      requires Valid() && port !in maps
      requires ds.Valid() && ds.Repr !! Repr && this !in ds.Repr
      modifies this`objects, this`queue, this`maps, this`cur
      ensures ValidBut(port) && objects == old(objects)[port := ds] && queue == old(queue) + [port]
      ensures maps == old(maps)[port := []] && cur == old(cur)[port := 0]
    {
      hide PagingObject.Valid, Lists, QueueOk, PagingObject.HasSlot;
      Put(port, ds);
    }

    /** The port and the queue. */
    method Put(port: nat, ds: PagingObject)
      requires Valid() && port !in maps && this !in ds.Repr && ds.Valid()
      modifies this`objects, this`queue, this`maps, this`cur
      ensures objects == old(objects)[port := ds] && queue == old(queue) + [port]
      ensures maps == old(maps)[port := []] && cur == old(cur)[port := 0]
      ensures QueueOk() && ds.Valid() && ds.Repr == old(ds.Repr)
      ensures forall q :: q in old(objects) ==>
        && old(objects)[q].Repr == old(objects[q].Repr)
        && old(objects)[q].Valid()
        && old(objects)[q].pages == old(objects[q].pages)
        && old(objects)[q].curPartition == old(objects[q].curPartition)
    {
      hide PagingObject.Valid, Lists;
      AppendLists(queue, port, objects.Keys);
      objects := objects[port := ds];
      assert objects.Keys == old(objects).Keys + {port};
      queue := queue + [port];
      maps := maps[port := []];
      cur := cur[port := 0];
      AllKept();
    }

    method Position(port: nat) returns (i: nat)
      requires QueueOk() && port in objects
      ensures i < |queue| && queue[i] == port
    {
      i := 0;
      while queue[i] != port
        invariant i < |queue| && port !in queue[..i]
        decreases |queue| - i
      {
        i := i + 1;
      }
    }

    /** pager_port_list_delete */
    method Delete(port: nat)
      requires Valid() && port in maps
      modifies this
      ensures Valid() && Repr == old(Repr)
      ensures maps == old(maps) - {port} && cur == old(cur) - {port}
    {
      hide PagingObject.Valid, Lists;
      hide QueueOk, PagingObject.HasSlot;
      Drop(port);
    }

    /** The port and the place in the queue go. */
    method Drop(port: nat)
      requires Valid() && port in maps
      modifies this`objects, this`queue, this`maps, this`cur
      ensures objects == old(objects) - {port} && maps == old(maps) - {port} && cur == old(cur) - {port}
      ensures QueueOk()
      ensures forall q :: q in old(objects) ==>
        && old(objects)[q].Repr == old(objects[q].Repr)
        && old(objects)[q].Valid()
        && old(objects)[q].pages == old(objects[q].pages)
        && old(objects)[q].curPartition == old(objects[q].curPartition)
    {
      hide PagingObject.Valid, Lists;
      var i := Position(port);
      objects := objects - {port};
      assert objects.Keys == old(objects).Keys - {port};
      RemoveAtLists(queue, i, old(objects).Keys);
      queue := RemoveAt(queue, i);
      maps := maps - {port};
      cur := cur - {port};
      AllKept();
    }
  }
}
