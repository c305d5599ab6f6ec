/** Whole runs of the default pager: whatever requests arrive, in whatever
    order, every reply and every later state is that of a store of a known
    capacity from (object, page) to data. */
module PagerRuns {
  import opened Words
  import opened Partitions
  import opened BlockMaps
  import opened PartitionTables
  import opened PagerState
  import opened DefaultPagers

  datatype Request =
    | CreateObject(port: nat, bytes: Word)
    | DestroyObject(port: nat)
    | ReadPage(slot: Slot, deallocate: bool)
    | WritePage(slot: Slot, data: Page)
    | AddPartition(bytes: Word, id: nat, contents: seq<Page>)
    | RemovePartition(id: nat)

  /** KERN_SUCCESS, the page, PAGER_ABSENT, PAGER_ERROR or KERN_FAILURE, and
      KERN_INVALID_ARGUMENT. */
  datatype Reply = Done | Data(data: Page) | Absent | Error | Unknown

  // ---- the simple store ----

  /** What is stored, and the partitions there are. */
  datatype Store = Store(contents: map<Slot, Page>, table: map<nat, Stock>)

  /** A page not yet stored is refused exactly when the capacity is used up, and
      a partition stays exactly when the rest could not hold what is stored. */
  ghost function Answer(s: Store, request: Request): Reply {
    match request
    case ReadPage(slot, _) =>
      if slot in s.contents then Data(s.contents[slot]) else Absent
    case WritePage(slot, _) =>
      if slot in s.contents || |s.contents| < Capacity(s.table) then Done else Error
    case RemovePartition(id) =>
      if !Known(s.table, id) then Unknown
      else if |s.contents| <= Capacity(s.table - {SlotOf(s.table, id)}) then Done
      else Error
    case _ => Done
  }

  ghost function After(s: Store, request: Request): Store {
    match request
    case CreateObject(_, _) => s
    case DestroyObject(port) => s.(contents := WithoutObject(s.contents, port))
    case ReadPage(slot, deallocate) => if deallocate then s.(contents := s.contents - {slot}) else s
    case WritePage(slot, data) =>
      if Answer(s, request) == Done then s.(contents := s.contents[slot := data]) else s
    case AddPartition(_, id, contents) =>
      s.(table := s.table[FreeSlotOf(s.table) := Stock(id, |contents|)])
    case RemovePartition(id) =>
      if Answer(s, request) == Done then s.(table := s.table - {SlotOf(s.table, id)}) else s
  }

  ghost function AfterAll(s: Store, requests: seq<Request>): Store {
    if requests == [] then s
    else
      var n := |requests| - 1;
      After(AfterAll(s, requests[..n]), requests[n])
  }

  ghost predicate AllCorrect(s: Store, requests: seq<Request>, replies: seq<Reply>)
    requires |requests| == |replies|
  {
    forall k: nat :: k < |requests| ==> replies[k] == Answer(AfterAll(s, requests[..k]), requests[k])
  }

  const NothingStored := Store(map[], map[])

  /** No run stores more pages than there are. */
  lemma {:induction false} NeverOverfull(requests: seq<Request>)
    ensures var s := AfterAll(NothingStored, requests); |s.contents| <= Capacity(s.table)
  {
    if requests != [] {
      var n := |requests| - 1;
      NeverOverfull(requests[..n]);
      StaysWithin(AfterAll(NothingStored, requests[..n]), requests[n]);
    }
  }

  lemma Fewer(c: map<Slot, Page>, d: map<Slot, Page>)
    requires c.Keys <= d.Keys
    ensures |c| <= |d|
  {
    Smaller(c.Keys, d.Keys);
  }

  lemma {:induction false} Smaller(a: set<Slot>, b: set<Slot>)
    requires a <= b
    ensures |a| <= |b|
  {
    if x :| x in a {
      Smaller(a - {x}, b - {x});
    }
  }

  lemma StaysWithin(s: Store, request: Request)
    requires |s.contents| <= Capacity(s.table)
    ensures var t := After(s, request); |t.contents| <= Capacity(t.table)
  {
    hide Capacity, Known, SlotOf;
    if request.AddPartition? {
      MoreRoom(s.table, FreeSlotOf(s.table), Stock(request.id, |request.contents|));
    } else if !request.RemovePartition? {
      hide FreeSlotOf;
      StoresWithin(s, request);
    }
  }

  lemma StoresWithin(s: Store, request: Request)
    requires !request.AddPartition? && !request.RemovePartition? && |s.contents| <= Capacity(s.table)
    ensures After(s, request).table == s.table && |After(s, request).contents| <= Capacity(s.table)
  {
    hide Capacity, Known, SlotOf, FreeSlotOf;
    match request
    case DestroyObject(port) => Fewer(WithoutObject(s.contents, port), s.contents);
    case ReadPage(slot, _) => Fewer(s.contents - {slot}, s.contents);
    case WritePage(slot, data) => OneSlot(s.contents, slot, data);
    case _ =>
  }

  lemma OneSlot(c: map<Slot, Page>, slot: Slot, data: Page)
    ensures |c[slot := data]| == if slot in c then |c| else |c| + 1
  {
    assert c[slot := data].Keys == c.Keys + {slot};
  }

  lemma MoreRoom(table: map<nat, Stock>, i: nat, stock: Stock)
    requires i !in table
    ensures Capacity(table) <= Capacity(table[i := stock])
  {
    assert table[i := stock] - {i} == table;
    PagesOfOneSlot(table[i := stock], i, P_INDEX_INVALID);
  }

  // ---- what a client expects ----

  /** The data of the last write to the slot that was acknowledged, unless the
      page was released or its object destroyed since. */
  ghost function LastWritten(slot: Slot, requests: seq<Request>, replies: seq<Reply>): Option<Page>
    requires |requests| == |replies|
  {
    if requests == [] then None
    else
      var n := |requests| - 1;
      var r := requests[n];
      if r.WritePage? && r.slot == slot && replies[n] == Done then Some(r.data)
      else if r.ReadPage? && r.slot == slot && r.deallocate then None
      else if r.DestroyObject? && r.port == slot.port then None
      else LastWritten(slot, requests[..n], replies[..n])
  }

  lemma {:induction false} StoreHoldsLastWritten(slot: Slot, requests: seq<Request>, replies: seq<Reply>)
    requires |requests| == |replies| && AllCorrect(NothingStored, requests, replies)
    ensures var c := AfterAll(NothingStored, requests).contents;
      LastWritten(slot, requests, replies) == if slot in c then Some(c[slot]) else None
  {
    if requests != [] {
      var n := |requests| - 1;
      Shorter(NothingStored, requests, replies, n);
      StoreHoldsLastWritten(slot, requests[..n], replies[..n]);
      hide Answer, After;
      var s := AfterAll(NothingStored, requests[..n]);
      assert replies[n] == Answer(s, requests[n]);
      OneRequest(slot, s, requests[n]);
    }
  }

  /** What one request makes of what is stored in a slot. */
  lemma OneRequest(slot: Slot, s: Store, r: Request)
    ensures var t := After(s, r);
      if r.WritePage? && r.slot == slot && Answer(s, r) == Done then slot in t.contents && t.contents[slot] == r.data
      else if (r.ReadPage? && r.slot == slot && r.deallocate) || (r.DestroyObject? && r.port == slot.port) then
        slot !in t.contents
      else
        (slot in t.contents <==> slot in s.contents) &&
        (slot in s.contents ==> t.contents[slot] == s.contents[slot])
  {
    hide Capacity, FreeSlotOf, SlotOf, Known;
  }

  lemma Shorter(s: Store, requests: seq<Request>, replies: seq<Reply>, n: nat)
    requires |requests| == |replies| && AllCorrect(s, requests, replies) && n <= |requests|
    ensures AllCorrect(s, requests[..n], replies[..n])
  {
    forall k: nat | k < n ensures replies[..n][k] == Answer(AfterAll(s, requests[..n][..k]), requests[..n][k]) {
      assert requests[..n][..k] == requests[..k];
    }
  }

  /** In a correct run from the empty store every read returns the bytes last
      written to its page, or "absent". */
  lemma ReadsReturnLastWritten(requests: seq<Request>, replies: seq<Reply>, k: nat)
    requires |requests| == |replies| && AllCorrect(NothingStored, requests, replies)
    requires k < |requests| && requests[k].ReadPage?
    ensures replies[k] ==
      match LastWritten(requests[k].slot, requests[..k], replies[..k])
      case Some(data) => Data(data)
      case None => Absent
  {
    Shorter(NothingStored, requests, replies, k);
    StoreHoldsLastWritten(requests[k].slot, requests[..k], replies[..k]);
  }

  // ---- the pager ----

  /** What this model assumes of a request. The original panics when a port is
      unknown or a read leaves its object; it does not test that a new port is
      new, that the partition list has a slot left below index 255, or that a
      partition has as many pages as its size says. */
  ghost predicate Acceptable(d: DefaultPager, request: Request)
    reads d, d.parts, d.parts.Repr, d.objs, d.objs.Repr
    requires d.Valid()
  {
    match request
    case CreateObject(port, _) => port !in d.objs.maps
    case DestroyObject(port) => port in d.objs.maps
    case ReadPage(slot, _) => HasEntry(d.View(), slot)
    case WritePage(slot, _) => slot.port in d.objs.maps
    case AddPartition(bytes, _, contents) =>
      && |contents| * d.parts.pageSize <= bytes < (|contents| + 1) * d.parts.pageSize
      && exists j: nat :: j < P_INDEX_INVALID && !d.parts.Live(j)
    case RemovePartition(_) => true
  }

  /** The store that the pager is. */
  ghost function StoreOf(d: DefaultPager): Store
    reads d, d.parts, d.parts.Repr, d.objs, d.objs.Repr
    requires d.Valid()
  {
    Store(d.Contents(), d.parts.Table())
  }

  /** One request. */
  method Handle(d: DefaultPager, request: Request) returns (reply: Reply)
    requires d.Valid() && d.parts.going == {} && d.parts.pageSize > 0
    requires Acceptable(d, request)
    modifies d, d.parts, d.parts.Repr, d.objs, d.objs.Repr
    ensures d.Valid() && d.parts.going == {}
    ensures fresh(d.parts.Repr - old(d.parts.Repr)) && fresh(d.objs.Repr - old(d.objs.Repr))
    ensures reply == Answer(old(StoreOf(d)), request)
    ensures StoreOf(d) == After(old(StoreOf(d)), request)
  {
    hide DefaultPager.Valid, DefaultPager.Parts, DefaultPager.View, Owned, Content;
    reply := Done;
    match request
    case CreateObject(port, bytes) =>
      d.CreateObject(port, bytes);
    case DestroyObject(port) =>
      d.DestroyObject(port);
    case ReadPage(slot, deallocate) =>
      var data := d.Read(slot.port, slot.page, deallocate);
      reply := if data.Some? then Data(data.value) else Absent;
    case WritePage(slot, data) =>
      reply := HandleWrite(d, slot, data);
    case AddPartition(bytes, id, contents) =>
      d.parts.WholePages(bytes, |contents|);
      d.CreatePartition(bytes, id, contents);
    case RemovePartition(id) =>
      reply := HandleRemove(d, id);
  }

  /** A write that finds no block anywhere has met a store used up. */
  method HandleWrite(d: DefaultPager, slot: Slot, data: Page) returns (reply: Reply)
    requires d.Valid() && d.parts.going == {} && slot.port in d.objs.maps
    modifies d, d.parts.Repr, d.objs, d.objs.Repr
    ensures d.Valid() && d.parts.going == {} && d.parts.Repr == old(d.parts.Repr)
    ensures fresh(d.objs.Repr - old(d.objs.Repr))
    ensures reply == Answer(old(StoreOf(d)), WritePage(slot, data))
    ensures StoreOf(d) == After(old(StoreOf(d)), WritePage(slot, data))
  {
    hide DefaultPager.Valid, DefaultPager.Parts, DefaultPager.View, Owned, Content, Capacity;
    var ok := d.Write(slot.port, slot.page, data);
    if ok {
      d.WithinCapacity();
    } else {
      d.FullIsCapacity();
    }
    OneSlot(old(d.Contents()), slot, data);
    reply := if ok then Done else Error;
  }

  method HandleRemove(d: DefaultPager, id: nat) returns (reply: Reply)
    requires d.Valid() && d.parts.going == {}
    modifies d, d.parts.Repr, d.objs, d.objs.Repr
    ensures d.Valid() && d.parts.going == {}
    ensures d.parts.Repr == old(d.parts.Repr) && d.objs.Repr == old(d.objs.Repr)
    ensures reply == Answer(old(StoreOf(d)), RemovePartition(id))
    ensures StoreOf(d) == After(old(StoreOf(d)), RemovePartition(id))
  {
    hide DefaultPager.Valid, DefaultPager.Parts, DefaultPager.View, Owned, Content, Capacity;
    var r := d.DestroyPartition(id);
    match r
    case NoSuchPartition =>
      reply := Unknown;
    case Failed(i) =>
      d.NoRoomWithout(i);
      reply := Error;
    case Removed(i) =>
      d.WithinCapacity();
      reply := Done;
  }

  lemma OneMore(s: Store, requests: seq<Request>, replies: seq<Reply>, reply: Reply)
    requires |replies| < |requests| && AllCorrect(s, requests[..|replies|], replies)
    requires reply == Answer(AfterAll(s, requests[..|replies|]), requests[|replies|])
    ensures AllCorrect(s, requests[..|replies| + 1], replies + [reply])
    ensures AfterAll(s, requests[..|replies| + 1]) == After(AfterAll(s, requests[..|replies|]), requests[|replies|])
  {
    var n := |replies|;
    var more, answers := requests[..n + 1], replies + [reply];
    assert more[..n] == requests[..n];
    forall k: nat | k < n + 1 ensures answers[k] == Answer(AfterAll(s, more[..k]), more[k]) {
      assert more[..k] == requests[..n][..k];
      assert k < n ==> requests[..n][k] == more[k];
    }
  }

  /** The server loop, on one request after the other, as long as they are what
      the model assumes. */
  method Serve(d: DefaultPager, requests: seq<Request>) returns (replies: seq<Reply>)
    requires d.Valid() && d.parts.going == {} && d.parts.pageSize > 0
    modifies d, d.parts, d.parts.Repr, d.objs, d.objs.Repr
    ensures d.Valid() && d.parts.going == {}
    ensures |replies| <= |requests|
    ensures AllCorrect(old(StoreOf(d)), requests[..|replies|], replies)
    ensures StoreOf(d) == AfterAll(old(StoreOf(d)), requests[..|replies|])
    ensures |replies| < |requests| ==> !Acceptable(d, requests[|replies|])
  {
    hide DefaultPager.Valid, DefaultPager.Parts, DefaultPager.View, Owned, Content, Answer, After;
    replies := [];
    while |replies| < |requests|
      invariant d.Valid() && d.parts.going == {}
      invariant fresh(d.parts.Repr - old(d.parts.Repr)) && fresh(d.objs.Repr - old(d.objs.Repr))
      invariant |replies| <= |requests|
      invariant AllCorrect(old(StoreOf(d)), requests[..|replies|], replies)
      invariant StoreOf(d) == AfterAll(old(StoreOf(d)), requests[..|replies|])
      decreases |requests| - |replies|
    {
      var request := requests[|replies|];
      var can := CanHandle(d, request);
      if !can {
        return;
      }
      var reply := Handle(d, request);
      OneMore(old(StoreOf(d)), requests, replies, reply);
      replies := replies + [reply];
    }
  }

  /** Whether the model's assumptions hold of the next request. */
  method CanHandle(d: DefaultPager, request: Request) returns (can: bool)
    requires d.Valid() && d.parts.pageSize > 0
    ensures can == Acceptable(d, request)
  {
    match request
    case CreateObject(port, _) =>
      can := port !in d.objs.objects;
    case DestroyObject(port) =>
      can := port in d.objs.objects;
    case ReadPage(slot, _) =>
      if slot.port in d.objs.objects {
        var size := d.objs.Size(slot.port);
        can := slot.page < size;
      } else {
        can := false;
      }
    case WritePage(slot, _) =>
      can := slot.port in d.objs.objects;
    case AddPartition(bytes, _, contents) =>
      var i := d.parts.FreeSlot();
      d.parts.WholePages(bytes, |contents|);
      can := |contents| == d.parts.Atop(bytes) && i < P_INDEX_INVALID;
    case RemovePartition(_) =>
      can := true;
  }
}
