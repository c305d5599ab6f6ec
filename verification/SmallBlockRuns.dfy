/** Every step of kalloc and kfree keeps the allocator's invariant, so every run
    does; what follows for callers. */
module SmallBlockRuns {
  import opened Words
  import opened SmallBlocks
  import opened SmallBlockParts

  lemma ClassFits(page: nat, c: nat)
    requires 0 < page && IsClass(page, c)
    ensures MINSIZE <= ClassSize(c) <= RoundPage(page, ClassSize(c))
  {
    var n := ClassSize(c);
    assert n + page - 1 == (n + page - 1) / page * page + (n + page - 1) % page;
  }

  lemma AlwaysReady(s: State)
    requires Inv(s)
    ensures Ready(s)
  {
    forall c: nat | c < KLIST_MAX && s.heads[c] != NULL ensures s.heads[c] in s.words && s.lists[c] != [] {
      assert GoodList(s, c);
      assert s.lists[c] != [] ==> OnList(s.owner, s.size, s.words, s.lists[c], c, 0);
    }
  }

  lemma CutKeeps(s: State, c: nat)
    requires Inv(s) && IsClass(s.page, c) && s.next + ClassSize(c) <= s.end
    ensures Inv(Cut(s, c)) && s.next !in s.size
  {
    var n := ClassSize(c);
    ClassFits(s.page, c);
    var after := Cut(s, c);
    Painted(s.owner, s.next, n, Live(s.next));
    assert AllAre(s.owner, s.next, n, Tail);
    hide ClassSize, Owned, IsClass, Whole, Covered, GoodLists, AllListed, Threads, Listed;
    BlockAdded(s.owner, after.owner, s.size, s.next, n);
    TailCut(s.owner, after.owner, s.next, s.end, n, Live(s.next));
    RegionsKept(s.owner, after.owner, s.threads, after.threads, s.page, s.next, n);
    WastedKept(s.owner, after.owner, s.next, n);
    ListsKept(s, after);
  }

  /** Threads may come, go and change what they wait for. */
  lemma ThreadsKeep(s: State, now: map<nat, Thread>)
    requires Inv(s) && SameRegions(s.threads, now, s.page) && Threads(now, s.page)
    ensures Inv(s.(threads := now))
  {
    var after := s.(threads := now);
    hide Has, IsClass, Whole, Covered, GoodLists, AllListed, Threads;
    RegionsKept(s.owner, s.owner, s.threads, now, s.page, 0, 0);
    ListsKept(s, after);
  }

  lemma InHand(s: State, t: nat)
    requires Inv(s) && t in s.threads && (s.threads[t].Holding? || s.threads[t].Dropping?)
    ensures AllAre(s.owner, s.threads[t].region, Wanted(s, s.threads[t].class_), Held(t))
  {
    var region, n := s.threads[t].region, Wanted(s, s.threads[t].class_);
    forall x | In(x, region, n) ensures x in s.owner && s.owner[x] == Held(t) {
      assert Has(s.page, s.threads, t, x);
    }
  }

  /** A region in hand makes the tail before it longer. */
  lemma ExtendKeeps(s: State, t: nat)
    requires Inv(s) && t in s.threads && s.threads[t].Holding? && s.threads[t].region == s.end
    ensures Inv(Adopted(s, s.end, Wanted(s, s.threads[t].class_)).(threads := Without(s.threads, t)))
  {
    var n := Wanted(s, s.threads[t].class_);
    var after := Adopted(s, s.end, n).(threads := Without(s.threads, t));
    InHand(s, t);
    Painted(s.owner, s.end, n, Tail);
    hide ClassSize, RoundPage, Owned, IsClass, Whole, Covered, GoodLists, AllListed;
    TailGrown(s.owner, after.owner, s.next, s.end, n);
    RetagKeeps(s, after, s.end, n);
    WastedKept(s.owner, after.owner, s.end, n);
    RegionRemoved(s.owner, after.owner, s.threads, after.threads, s.page, t);
  }

  /** What is left of the tail is thrown away. */
  lemma WasteKeeps(s: State)
    requires Inv(s)
    ensures Inv(Wasting(s))
  {
    var rest := s.end - s.next;
    var after := Wasting(s);
    Painted(s.owner, s.next, rest, Wasted);
    assert AllAre(s.owner, s.next, rest, Tail);
    hide ClassSize, RoundPage, Owned, IsClass, Whole, Covered, GoodLists, AllListed, Has;
    TailCut(s.owner, after.owner, s.next, s.end, rest, Wasted);
    RetagKeeps(s, after, s.next, rest);
    WastedAdded(s.owner, after.owner, s.next, rest);
    RegionsKept(s.owner, after.owner, s.threads, s.threads, s.page, s.next, rest);
  }

  /** A region in hand becomes the tail when the old one is used up. */
  lemma ReplaceKeeps(s: State, t: nat)
    requires Inv(s) && t in s.threads && s.threads[t].Holding? && s.next == s.end
    ensures var region, n := s.threads[t].region, Wanted(s, s.threads[t].class_);
      Inv(s.(next := region, end := region + n, owner := Owned(s.owner, region, n, Tail),
        threads := Without(s.threads, t)))
  {
    var region, n := s.threads[t].region, Wanted(s, s.threads[t].class_);
    var after := s.(next := region, end := region + n, owner := Owned(s.owner, region, n, Tail),
      threads := Without(s.threads, t));
    InHand(s, t);
    Painted(s.owner, region, n, Tail);
    hide ClassSize, RoundPage, Owned, IsClass, Whole, Covered, GoodLists, AllListed;
    TailMoved(s.owner, after.owner, region, n);
    RetagKeeps(s, after, region, n);
    WastedKept(s.owner, after.owner, region, n);
    RegionRemoved(s.owner, after.owner, s.threads, after.threads, s.page, t);
  }

  /** The state once the rest of the tail is given up. */
  function Wasting(s: State): State
    requires s.next <= s.end
  {
    s.(wasted := s.wasted + (s.end - s.next), next := s.end, owner := Owned(s.owner, s.next, s.end - s.next, Wasted))
  }

  lemma AdoptKeeps(s: State, t: nat)
    requires Inv(s) && t in s.threads && s.threads[t].Holding?
    ensures Inv(Adopted(s, s.threads[t].region, Wanted(s, s.threads[t].class_)).(threads := Without(s.threads, t)))
  {
    if s.threads[t].region == s.end {
      ExtendKeeps(s, t);
    } else {
      ElsewhereKeeps(s, t);
    }
  }

  lemma ElsewhereKeeps(s: State, t: nat)
    requires Inv(s) && t in s.threads && s.threads[t].Holding? && s.threads[t].region != s.end
    ensures Inv(Adopted(s, s.threads[t].region, Wanted(s, s.threads[t].class_)).(threads := Without(s.threads, t)))
  {
    WasteKeeps(s);
    assert s.next <= s.end;
    hide Inv, Owned, RoundPage, ClassSize, Without, Whole, Covered, GoodLists, AllListed, Regions, Threads, Tails;
    var region, n := s.threads[t].region, Wanted(s, s.threads[t].class_);
    ReplaceKeeps(Wasting(s), t);
    assert Adopted(s, region, n) ==
      Wasting(s).(next := region, end := region + n, owner := Owned(Wasting(s).owner, region, n, Tail));
  }

  /** A range changes between owners that are no blocks. */
  lemma RetagKeeps(s: State, after: State, from: nat, length: nat)
    requires Whole(s.owner, s.size) && Covered(s.owner, s.size) && GoodLists(s) && AllListed(s)
    requires SameOutside(s.owner, after.owner, from, length)
    requires NoBlocks(s.owner, from, length) && NoBlocks(after.owner, from, length)
    requires after.size == s.size && after.words == s.words && after.page == s.page && after.heads == s.heads &&
      after.lists == s.lists
    ensures Whole(after.owner, s.size) && Covered(after.owner, s.size) && GoodLists(after) && AllListed(after)
  {
    WholeKept(s.owner, after.owner, s.size, from, length);
    CoveredKept(s.owner, after.owner, s.size, from, length);
    hide Whole, Covered, GoodLists, AllListed;
    ListsKept(s, after);
  }

  lemma InstallKeeps(s: State, t: nat)
    requires Inv(s) && t in s.threads && s.threads[t].Holding?
    ensures Inv(Installed(s, t, s.threads[t]))
    ensures t in Installed(s, t, s.threads[t]).threads ==> Installed(s, t, s.threads[t]).threads[t].Dropping?
  {
    var thread := s.threads[t];
    var c := thread.class_;
    assert MappedOnce(s.page, thread);
    ClassFits(s.page, c);
    if s.next + ClassSize(c) <= s.end {
      CutKeeps(s, c);
      ThreadsKeep(Cut(s, c), s.threads[t := Dropping(c, thread.region, thread.maps)]);
    } else {
      AdoptCutKeeps(s, t);
    }
  }

  /** With no room behind the tail, the block is cut off the adopted region. */
  lemma AdoptedCut(s: State, t: nat)
    requires Inv(s) && t in s.threads && s.threads[t].Holding?
    requires s.next + ClassSize(s.threads[t].class_) > s.end
    ensures var c := s.threads[t].class_;
      var adopted := Adopted(s, s.threads[t].region, Wanted(s, c)).(threads := Without(s.threads, t));
      && Inv(adopted) && Installed(s, t, s.threads[t]) == Cut(adopted, c)
      && 0 < ClassSize(c) && adopted.next + ClassSize(c) <= adopted.end
  {
    var c := s.threads[t].class_;
    assert MappedOnce(s.page, s.threads[t]);
    ClassFits(s.page, c);
    AdoptKeeps(s, t);
    hide Inv, Owned, ClassSize, RoundPage, Without, Whole, Covered, GoodLists, AllListed, Tails, Regions, Threads;
  }

  lemma AdoptCutKeeps(s: State, t: nat)
    requires Inv(s) && t in s.threads && s.threads[t].Holding?
    requires s.next + ClassSize(s.threads[t].class_) > s.end
    ensures Inv(Installed(s, t, s.threads[t])) && Installed(s, t, s.threads[t]).threads == Without(s.threads, t)
  {
    var c := s.threads[t].class_;
    AdoptedCut(s, t);
    hide Inv, Adopted, Installed, Without, Wanted, Owned;
    CutKeeps(Adopted(s, s.threads[t].region, Wanted(s, c)).(threads := Without(s.threads, t)), c);
  }

  lemma MapKeeps(s: State, t: nat, region: nat)
    requires Inv(s) && t in s.threads && s.threads[t].Mapping?
    requires Fresh(s, region, Wanted(s, s.threads[t].class_))
    ensures var c := s.threads[t].class_;
      Inv(s.(threads := s.threads[t := Holding(c, region, s.threads[t].maps + 1)],
        owner := Owned(s.owner, region, Wanted(s, c), Held(t))))
  {
    var c := s.threads[t].class_;
    var n := Wanted(s, c);
    var after := s.(threads := s.threads[t := Holding(c, region, s.threads[t].maps + 1)],
      owner := Owned(s.owner, region, n, Held(t)));
    assert MappedOnce(s.page, s.threads[t]);
    Painted(s.owner, region, n, Held(t));
    assert AllAbsent(s.owner, region, n);
    hide ClassSize, RoundPage, Owned, IsClass, Whole, Covered, GoodLists, AllListed, Has;
    TailsKept(s.owner, after.owner, s.next, s.end, region, n);
    RetagKeeps(s, after, region, n);
    WastedKept(s.owner, after.owner, region, n);
    RegionAdded(s.owner, after.owner, s.threads, s.page, t, c, region, s.threads[t].maps + 1);
  }

  lemma UnmapKeeps(s: State, t: nat)
    requires Inv(s) && t in s.threads && s.threads[t].Dropping?
    ensures Inv(s.(threads := Without(s.threads, t),
      owner := Unowned(s.owner, s.threads[t].region, Wanted(s, s.threads[t].class_))))
  {
    var region, n := s.threads[t].region, Wanted(s, s.threads[t].class_);
    var after := s.(threads := Without(s.threads, t), owner := Unowned(s.owner, region, n));
    InHand(s, t);
    Erased(s.owner, region, n);
    hide ClassSize, RoundPage, Unowned, IsClass, Whole, Covered, GoodLists, AllListed;
    TailsKept(s.owner, after.owner, s.next, s.end, region, n);
    RetagKeeps(s, after, region, n);
    WastedKept(s.owner, after.owner, region, n);
    RegionRemoved(s.owner, after.owner, s.threads, after.threads, s.page, t);
  }

  /** Everything but the lists, when a block as a whole goes from owner to owner. */
  ghost predicate InvButLists(s: State) {
    && 512 <= s.page && NULL !in s.owner
    && Whole(s.owner, s.size) && Covered(s.owner, s.size)
    && Tails(s.owner, s.next, s.end) && Regions(s.owner, s.threads, s.page)
    && Threads(s.threads, s.page)
    && |WastedBytes(s.owner)| == s.wasted
  }

  lemma FlipKeeps(s: State, after: State, a: nat, o: Owner)
    requires InvButLists(s) && a in s.size && (o == Live(a) || o == Free(a))
    requires after.page == s.page && after.next == s.next && after.end == s.end && after.wasted == s.wasted
    requires after.threads == s.threads && after.size == s.size && after.owner == Owned(s.owner, a, s.size[a], o)
    ensures InvButLists(after) && after.owner.Keys == s.owner.Keys
  {
    var n := s.size[a];
    assert WholeBlock(s.owner, a, n);
    assert AllAre(s.owner, a, n, s.owner[a]);
    Painted(s.owner, a, n, o);
    hide Owned, Has, IsClass;
    BlockFlipped(s.owner, after.owner, s.size, a, o);
    hide Whole, Covered;
    TailsKept(s.owner, after.owner, s.next, s.end, a, n);
    WastedKept(s.owner, after.owner, a, n);
    RegionsKept(s.owner, after.owner, s.threads, s.threads, s.page, a, n);
  }

  lemma PopLists(s: State, c: nat)
    requires GoodLists(s) && AllListed(s) && Whole(s.owner, s.size) && c < KLIST_MAX && s.heads[c] != NULL &&
      s.heads[c] in s.words && s.lists[c] != []
    ensures s.heads[c] in s.size && s.size[s.heads[c]] == ClassSize(c)
    ensures GoodLists(Popped(s, c)) && AllListed(Popped(s, c))
  {
    var a, after := s.heads[c], Popped(s, c);
    assert GoodList(s, c) && OnList(s.owner, s.size, s.words, s.lists[c], c, 0);
    assert WholeBlock(s.owner, a, s.size[a]);
    Painted(s.owner, a, ClassSize(c), Live(a));
    OnlyOneFlips(s, after, a);
    hide Owned, Whole, ClassSize;
    forall d: nat | d < KLIST_MAX ensures GoodList(after, d) {
      assert GoodList(s, d);
      PopList(s, after, c, d);
    }
    forall b | b in after.owner && after.owner[b] == Free(b) ensures Listed(after.lists, after.page, b) {
      assert IsFree(after.owner, b) && IsFree(s.owner, b) && b != a;
      var d: nat, i: nat :| d < |s.lists| && i < |s.lists[d]| && IsClass(s.page, d) && s.lists[d][i] == b;
      assert d == c ==> after.lists[d][i - 1] == b;
      assert d != c ==> after.lists[d][i] == b;
    }
  }

  /** Of the addresses where blocks start only a has a new owner. */
  lemma OnlyOneFlips(s: State, after: State, a: nat)
    requires a in s.size && WholeBlock(s.owner, a, s.size[a]) && SameOutside(s.owner, after.owner, a, s.size[a])
    requires AllAre(after.owner, a, s.size[a], Live(a)) || AllAre(after.owner, a, s.size[a], Free(a))
    ensures forall b :: b != a ==> (IsFree(s.owner, b) <==> IsFree(after.owner, b))
    ensures a in after.owner && (after.owner[a] == Live(a) || after.owner[a] == Free(a))
  {
    assert In(a, a, s.size[a]);
  }

  lemma PopList(s: State, after: State, c: nat, d: nat)
    requires GoodLists(s) && c < KLIST_MAX && d < KLIST_MAX && GoodList(s, d)
    requires s.lists[c] != [] && s.heads[c] in s.words && after == Popped(s, c)
    requires s.heads[c] == s.lists[c][0] && OnList(s.owner, s.size, s.words, s.lists[c], c, 0)
    requires forall b :: b != s.heads[c] ==> (IsFree(s.owner, b) <==> IsFree(after.owner, b))
    ensures GoodList(after, d)
  {
    hide Owned, ClassSize;
    var a, list := s.heads[c], s.lists[d];
    if d != c {
      forall i: nat | i < |list| ensures OnList(after.owner, after.size, after.words, list, d, i) {
        assert OnList(s.owner, s.size, s.words, list, d, i) && IsFree(s.owner, list[i]);
        OtherList(s, c, d, i);
      }
    } else {
      var rest := list[1..];
      assert list[0 + 1..] == rest;
      forall i: nat | i < |rest| ensures OnList(after.owner, after.size, after.words, rest, d, i) {
        assert OnList(s.owner, s.size, s.words, list, d, i + 1) && IsFree(s.owner, list[i + 1]);
        assert list[i + 1 + 1..] == rest[i + 1..] && list[0] != list[i + 1];
      }
    }
  }

  lemma PushLists(s: State, a: nat, c: nat)
    requires GoodLists(s) && AllListed(s) && Whole(s.owner, s.size) && c < KLIST_MAX && IsClass(s.page, c)
    requires a in s.size && s.size[a] == ClassSize(c) && a in s.owner && s.owner[a] == Live(a)
    ensures GoodLists(Pushed(s, a, c)) && AllListed(Pushed(s, a, c))
  {
    var after := Pushed(s, a, c);
    assert WholeBlock(s.owner, a, s.size[a]);
    Painted(s.owner, a, ClassSize(c), Free(a));
    OnlyOneFlips(s, after, a);
    assert IsFree(after.owner, a) by { assert In(a, a, s.size[a]); }
    hide Owned, Whole, ClassSize;
    forall d: nat | d < KLIST_MAX ensures GoodList(after, d) {
      assert GoodList(s, d);
      PushList(s, after, a, c, d);
    }
    forall b | b in after.owner && after.owner[b] == Free(b) ensures Listed(after.lists, after.page, b) {
      assert IsFree(after.owner, b);
      if b == a {
        assert after.lists[c][0] == a;
      } else {
        assert IsFree(s.owner, b);
        var d: nat, i: nat :| d < |s.lists| && i < |s.lists[d]| && IsClass(s.page, d) && s.lists[d][i] == b;
        assert after.lists[d][if d == c then i + 1 else i] == b;
      }
    }
  }

  lemma PushList(s: State, after: State, a: nat, c: nat, d: nat)
    requires GoodLists(s) && c < KLIST_MAX && d < KLIST_MAX && GoodList(s, d)
    requires a in s.size && s.size[a] == ClassSize(c) && !IsFree(s.owner, a) && IsFree(after.owner, a) &&
      after == Pushed(s, a, c)
    requires forall b :: b != a ==> (IsFree(s.owner, b) <==> IsFree(after.owner, b))
    ensures GoodList(after, d)
  {
    hide Owned, ClassSize;
    var list, now := s.lists[d], after.lists[d];
    forall i: nat | i < |list| ensures list[i] != a && OnList(after.owner, after.size, after.words, list, d, i) {
      assert OnList(s.owner, s.size, s.words, list, d, i) && IsFree(s.owner, list[i]);
    }
    if d == c {
      forall i: nat | i < |now| ensures OnList(after.owner, after.size, after.words, now, d, i) {
        if i == 0 {
          assert now[1..] == list;
        } else {
          assert OnList(after.owner, after.size, after.words, list, d, i - 1) && now[i + 1..] == list[i - 1 + 1..];
        }
      }
    }
  }

  lemma PopKeeps(s: State, c: nat)
    requires Inv(s) && c < KLIST_MAX && s.heads[c] != NULL && s.heads[c] in s.words && s.lists[c] != []
    ensures Inv(Popped(s, c))
  {
    PopLists(s, c);
    hide GoodLists, AllListed, Owned, Whole, Covered, Tails, Regions, Threads, WastedBytes, ClassSize;
    var a := s.heads[c];
    FlipKeeps(s, Popped(s, c), a, Live(a));
  }

  lemma PushKeeps(s: State, a: nat, c: nat)
    requires Inv(s) && a in s.size && s.size[a] == ClassSize(c) && IsClass(s.page, c) && a in s.owner &&
      s.owner[a] == Live(a)
    ensures Inv(Pushed(s, a, c))
  {
    PushLists(s, a, c);
    hide GoodLists, AllListed, Owned, Whole, Covered, Tails, Regions, Threads, WastedBytes, ClassSize;
    FlipKeeps(s, Pushed(s, a, c), a, Free(a));
  }

  lemma LargeKeeps(s: State, region: nat, length: nat)
    requires Inv(s) && Fresh(s, region, length) && KallocMax(s.page) <= length
    ensures Inv(s.(owner := Owned(s.owner, region, length, Live(region)), size := s.size[region := length]))
  {
    var after := s.(owner := Owned(s.owner, region, length, Live(region)), size := s.size[region := length]);
    Painted(s.owner, region, length, Live(region));
    assert AllAbsent(s.owner, region, length);
    hide ClassSize, RoundPage, Owned, IsClass, Whole, Covered, GoodLists, AllListed, Has;
    BlockAdded(s.owner, after.owner, s.size, region, length);
    TailsKept(s.owner, after.owner, s.next, s.end, region, length);
    WastedKept(s.owner, after.owner, region, length);
    RegionsKept(s.owner, after.owner, s.threads, s.threads, s.page, region, length);
    ListsKept(s, after);
  }

  lemma ReleaseLargeKeeps(s: State, a: nat)
    requires Inv(s) && a in s.size && a in s.owner && s.owner[a] == Live(a)
    ensures Inv(s.(owner := Unowned(s.owner, a, s.size[a]), size := Without(s.size, a)))
  {
    var n := s.size[a];
    var after := s.(owner := Unowned(s.owner, a, n), size := Without(s.size, a));
    assert WholeBlock(s.owner, a, n);
    assert AllAre(s.owner, a, n, Live(a));
    Erased(s.owner, a, n);
    hide ClassSize, RoundPage, Unowned, IsClass, GoodLists, AllListed, Has;
    BlockRemoved(s.owner, after.owner, s.size, a);
    hide Whole, Covered;
    TailsKept(s.owner, after.owner, s.next, s.end, a, n);
    WastedKept(s.owner, after.owner, a, n);
    RegionsKept(s.owner, after.owner, s.threads, s.threads, s.page, a, n);
    ListsKept(s, after);
  }

  lemma ClientKeeps(s: State, x: nat, v: nat)
    requires Inv(s) && x in s.owner && s.owner[x].Live?
    ensures Inv(s.(words := s.words[x := v]))
  {
    hide Whole, Covered, Tails, Regions, Threads, GoodLists, AllListed;
    ListsKept(s, s.(words := s.words[x := v]));
  }

  /** Every step, of any thread, keeps the invariant. */
  lemma StepKeepsInv(s: State, step: Step)
    requires Inv(s) && Enabled(s, step)
    ensures Ready(s) && Inv(Apply(s, step))
  {
    AlwaysReady(s);
    hide GoodLists, AllListed, Whole, Covered, Owned, Unowned, ClassSize, RoundPage;
    match step
    case Request(t, c) =>
      if s.heads[c] != NULL { PopKeeps(s, c); } else { ThreadsKeep(s, s.threads[t := Wants(c, 0)]); }
    case Grab(t) =>
      var c := s.threads[t].class_;
      assert MappedOnce(s.page, s.threads[t]);
      CutKeeps(s, c);
      ThreadsKeep(Cut(s, c), Without(s.threads, t));
    case AskKernel(t) =>
      assert MappedOnce(s.page, s.threads[t]);
      ThreadsKeep(s, s.threads[t := Mapping(s.threads[t].class_, s.threads[t].maps)]);
    case KernelFails(t) => ThreadsKeep(s, Without(s.threads, t));
    case KernelMaps(t, region) => MapKeeps(s, t, region);
    case Install(t) => InstallKeeps(s, t);
    case Unmap(t) => UnmapKeeps(s, t);
    case Release(a, c) => PushKeeps(s, a, c);
    case AllocateLarge(region, length) => LargeKeeps(s, region, length);
    case ReleaseLarge(a) => ReleaseLargeKeeps(s, a);
    case ClientWrite(x, v) => ClientKeeps(s, x, v);
  }

  // ---- runs ----

  /** kalloc_init: nothing mapped, every list empty. */
  function Initial(page: nat): State {
    State(page, page, page, 0, seq(KLIST_MAX, _ => NULL), map[], map[], map[], map[], seq(KLIST_MAX, _ => []))
  }

  ghost predicate IsRun(states: seq<State>, steps: seq<Step>) {
    && |states| == |steps| + 1
    && 512 <= states[0].page && states[0] == Initial(states[0].page)
    && forall i :: 0 <= i < |steps| ==> Leads(states[i], steps[i], states[i + 1])
  }

  ghost predicate Leads(s: State, step: Step, after: State) {
    Ready(s) && Enabled(s, step) && after == Apply(s, step)
  }

  /** Being ready holds back no step: whatever is enabled can be taken. */
  lemma NeverHeldBack(s: State, step: Step)
    requires Inv(s) && Enabled(s, step)
    ensures Ready(s) && Leads(s, step, Apply(s, step))
  {
    AlwaysReady(s);
  }

  lemma InitialInv(page: nat)
    requires 512 <= page
    ensures Inv(Initial(page))
  {
    var s := Initial(page);
    assert WastedBytes(s.owner) == {};
    forall c: nat | c < KLIST_MAX ensures GoodList(s, c) {}
  }

  lemma {:induction false} RunKeepsInv(states: seq<State>, steps: seq<Step>, i: nat)
    requires IsRun(states, steps) && i < |states|
    ensures Inv(states[i])
  {
    if i == 0 {
      InitialInv(states[0].page);
    } else {
      RunKeepsInv(states, steps, i - 1);
      assert Leads(states[i - 1], steps[i - 1], states[i]);
      StepKeepsInv(states[i - 1], steps[i - 1]);
    }
  }

  // ---- what callers get ----

  /** Two blocks, live or free, share no byte. */
  lemma BlocksApart(s: State, a: nat, b: nat, x: nat)
    requires Inv(s) && a in s.size && b in s.size && In(x, a, s.size[a]) && In(x, b, s.size[b])
    ensures a == b
  {
    assert WholeBlock(s.owner, a, s.size[a]) && WholeBlock(s.owner, b, s.size[b]);
  }

  function LiveBytes(s: State): set<nat> { set x | x in s.owner && s.owner[x].Live? }

  function FreeBytes(s: State): set<nat> { set x | x in s.owner && s.owner[x].Free? }

  function HeldBytes(s: State): set<nat> { set x | x in s.owner && s.owner[x].Held? }

  /** Every mapped byte is counted once. */
  lemma EveryByteAccounted(s: State)
    requires Inv(s)
    ensures |s.owner| == |LiveBytes(s)| + |FreeBytes(s)| + |HeldBytes(s)| + (s.end - s.next) + s.wasted
  {
    hide Whole, Covered, GoodLists, AllListed, Regions, Threads;
    BytesCount(s.next, s.end - s.next);
    assert forall x :: x in Bytes(s.next, s.end - s.next) <==> x in s.owner && s.owner[x] == Tail;
    FiveParts(s.owner.Keys, LiveBytes(s), FreeBytes(s), HeldBytes(s), Bytes(s.next, s.end - s.next),
      WastedBytes(s.owner));
  }

  lemma FiveParts(all: set<nat>, a: set<nat>, b: set<nat>, c: set<nat>, d: set<nat>, e: set<nat>)
    requires forall x :: x in all <==> x in a || x in b || x in c || x in d || x in e
    requires a !! b && a !! c && a !! d && a !! e && b !! c && b !! d && b !! e && c !! d && c !! e && d !! e
    ensures |all| == |a| + |b| + |c| + |d| + |e|
  {
    assert all == a + (b + (c + (d + e)));
    assert |d + e| == |d| + |e|;
    assert c !! d + e && |c + (d + e)| == |c| + |d + e|;
    assert b !! c + (d + e) && |b + (c + (d + e))| == |b| + |c + (d + e)|;
    assert a !! b + (c + (d + e));
  }

  /** The block a step hands to its caller. */
  function Handed(s: State, step: Step): (r: seq<nat>)
    requires |s.heads| == KLIST_MAX
  {
    match step
    case Request(t, c) => if c < KLIST_MAX && s.heads[c] != NULL then [s.heads[c]] else []
    case Grab(t) => [s.next]
    case Install(t) =>
      if t in s.threads && s.threads[t].Holding? then
        [if s.next + ClassSize(s.threads[t].class_) <= s.end || s.threads[t].region == s.end then s.next
          else s.threads[t].region]
      else []
    case AllocateLarge(region, _) => [region]
    case _ => []
  }

  /** The block it takes back. */
  function Returned(step: Step): set<nat> {
    match step
    case Release(a, _) => {a}
    case ReleaseLarge(a) => {a}
    case _ => {}
  }

  ghost predicate IsLive(s: State, a: nat) {
    a in s.size && a in s.owner && s.owner[a] == Live(a)
  }

  lemma ClassOfThread(s: State, t: nat)
    requires Inv(s) && t in s.threads
    ensures IsClass(s.page, s.threads[t].class_) && 0 < ClassSize(s.threads[t].class_) <= Wanted(s, s.threads[t].class_)
  {
    assert MappedOnce(s.page, s.threads[t]);
    ClassFits(s.page, s.threads[t].class_);
  }

  lemma HeadIsFree(s: State, c: nat)
    requires Inv(s) && c < KLIST_MAX && s.heads[c] != NULL
    ensures var a := s.heads[c]; a in s.size && s.size[a] == ClassSize(c) && a in s.owner && s.owner[a] == Free(a)
  {
    assert GoodList(s, c) && OnList(s.owner, s.size, s.words, s.lists[c], c, 0);
  }

  /** A whole block changes hands; no other does. */
  lemma FlipLive(s: State, after: State, b: nat, a: nat)
    requires Whole(s.owner, s.size) && b in s.size && after.size == s.size
    requires SameOutside(s.owner, after.owner, b, s.size[b])
    requires AllAre(after.owner, b, s.size[b], Live(b)) || AllAre(after.owner, b, s.size[b], Free(b))
    ensures a != b ==> (IsLive(after, a) <==> IsLive(s, a))
    ensures b in after.owner && (IsLive(after, b) <==> after.owner[b] == Live(b))
    ensures AllAre(after.owner, b, s.size[b], Live(b)) ==> after.owner[b] == Live(b)
    ensures AllAre(after.owner, b, s.size[b], Free(b)) ==> after.owner[b] == Free(b)
  {
    assert WholeBlock(s.owner, b, s.size[b]) && In(b, b, s.size[b]);
  }

  lemma RetagLive(s: State, after: State, from: nat, length: nat, a: nat)
    requires SameOutside(s.owner, after.owner, from, length) && after.size == s.size
    requires NoBlocks(s.owner, from, length) && NoBlocks(after.owner, from, length)
    ensures IsLive(after, a) <==> IsLive(s, a)
  {}

  lemma LargeLive(s: State, region: nat, length: nat, a: nat)
    requires Inv(s) && Fresh(s, region, length) && 0 < length
    ensures var after := s.(owner := Owned(s.owner, region, length, Live(region)), size := s.size[region := length]);
      && (IsLive(after, a) <==> IsLive(s, a) || a == region)
      && !IsLive(s, region) && (IsLive(s, a) ==> after.size[a] == s.size[a])
  {
    Painted(s.owner, region, length, Live(region));
    assert In(region, region, length);
  }

  lemma CutLive(s: State, c: nat, a: nat)
    requires Inv(s) && s.next + ClassSize(c) <= s.end && 0 < ClassSize(c)
    ensures IsLive(Cut(s, c), a) <==> IsLive(s, a) || a == s.next
    ensures !IsLive(s, s.next) && (IsLive(s, a) ==> Cut(s, c).size[a] == s.size[a])
  {
    Painted(s.owner, s.next, ClassSize(c), Live(s.next));
    assert AllAre(s.owner, s.next, ClassSize(c), Tail);
    assert In(s.next, s.next, ClassSize(c));
  }

  lemma InstallLive(s: State, t: nat, a: nat)
    requires Inv(s) && t in s.threads && s.threads[t].Holding? && |s.heads| == KLIST_MAX
    ensures IsLive(Installed(s, t, s.threads[t]), a) <==> IsLive(s, a) || a in Handed(s, Install(t))
    ensures a in Handed(s, Install(t)) ==> !IsLive(s, a)
    ensures IsLive(s, a) ==> Installed(s, t, s.threads[t]).size[a] == s.size[a]
  {
    var thread := s.threads[t];
    var c, n := thread.class_, Wanted(s, thread.class_);
    ClassOfThread(s, t);
    assert s.next <= s.end && 0 < s.page;
    hide Inv, Owned, ClassSize, RoundPage, Without;
    if s.next + ClassSize(c) <= s.end {
      CutLive(s, c, a);
    } else {
      AdoptedLive(s, t, a);
    }
  }

  /** The block may be cut off the adopted region. */
  lemma AdoptedLive(s: State, t: nat, a: nat)
    requires Inv(s) && t in s.threads && s.threads[t].Holding? && |s.heads| == KLIST_MAX
    requires s.next + ClassSize(s.threads[t].class_) > s.end
    ensures IsLive(Installed(s, t, s.threads[t]), a) <==> IsLive(s, a) || a in Handed(s, Install(t))
    ensures a in Handed(s, Install(t)) ==> !IsLive(s, a)
    ensures IsLive(s, a) ==> Installed(s, t, s.threads[t]).size[a] == s.size[a]
  {
    var c := s.threads[t].class_;
    AdoptedCut(s, t);
    var adopted := Adopted(s, s.threads[t].region, Wanted(s, c)).(threads := Without(s.threads, t));
    AdoptLive(s, t, a);
    AdoptLive(s, t, adopted.next);
    assert adopted.size == s.size;
    hide Inv, Adopted, Installed, Without, Wanted, Owned, ClassSize, RoundPage;
    CutLive(adopted, c, a);
  }

  lemma AdoptLive(s: State, t: nat, a: nat)
    requires Inv(s) && t in s.threads && s.threads[t].Holding?
    ensures var after := Adopted(s, s.threads[t].region, Wanted(s, s.threads[t].class_));
      (IsLive(after, a) <==> IsLive(s, a)) && after.size == s.size
  {
    var region, n := s.threads[t].region, Wanted(s, s.threads[t].class_);
    var after := Adopted(s, region, n);
    InHand(s, t);
    hide ClassSize, RoundPage, Owned, Whole, Covered, GoodLists, AllListed, Regions, Threads;
    if region == s.end {
      Painted(s.owner, region, n, Tail);
      RetagLive(s, after, region, n, a);
    } else {
      var rest := s.end - s.next;
      Painted(s.owner, s.next, rest, Wasted);
      assert AllAre(s.owner, s.next, rest, Tail);
      RetagLive(s, Wasting(s), s.next, rest, a);
      Painted(Wasting(s).owner, region, n, Tail);
      RetagLive(Wasting(s), after, region, n, a);
    }
  }

  lemma ReleaseLive(s: State, b: nat, c: nat, a: nat)
    requires Inv(s) && Enabled(s, Release(b, c))
    ensures Ready(s)
    ensures IsLive(Apply(s, Release(b, c)), a) <==> IsLive(s, a) && a != b
    ensures Apply(s, Release(b, c)).size == s.size
  {
    AlwaysReady(s);
    hide GoodLists, AllListed, Tails, Regions, Threads, Covered, ClassSize, RoundPage, Owned, Unowned;
    Painted(s.owner, b, s.size[b], Free(b));
    FlipLive(s, Pushed(s, b, c), b, a);
  }

  /** The live blocks after a step are the ones before, plus the one handed out,
      minus the one returned; their sizes never change. */
  lemma LiveBlocks(s: State, step: Step, a: nat)
    requires Inv(s) && Enabled(s, step)
    ensures Ready(s)
    ensures IsLive(Apply(s, step), a) <==> (IsLive(s, a) && a !in Returned(step)) || a in Handed(s, step)
    ensures a in Handed(s, step) ==> !IsLive(s, a)
    ensures IsLive(s, a) && a !in Returned(step) ==> Apply(s, step).size[a] == s.size[a]
  {
    AlwaysReady(s);
    hide GoodLists, AllListed, Tails, Regions, Threads, Covered, ClassSize, RoundPage, Owned, Unowned;
    match step
    case Request(t, c) =>
      if s.heads[c] != NULL {
        HeadIsFree(s, c);
        Painted(s.owner, s.heads[c], ClassSize(c), Live(s.heads[c]));
        FlipLive(s, Popped(s, c), s.heads[c], a);
      }
    case Grab(t) =>
      ClassOfThread(s, t);
      CutLive(s, s.threads[t].class_, a);
    case AskKernel(t) =>
    case KernelFails(t) =>
    case KernelMaps(t, region) =>
      Painted(s.owner, region, Wanted(s, s.threads[t].class_), Held(t));
      RetagLive(s, Apply(s, step), region, Wanted(s, s.threads[t].class_), a);
    case Install(t) => InstallLive(s, t, a);
    case Unmap(t) =>
      InHand(s, t);
      Erased(s.owner, s.threads[t].region, Wanted(s, s.threads[t].class_));
      RetagLive(s, Apply(s, step), s.threads[t].region, Wanted(s, s.threads[t].class_), a);
    case Release(b, c) => ReleaseLive(s, b, c, a);
    case AllocateLarge(region, length) => LargeLive(s, region, length, a);
    case ReleaseLarge(b) =>
      assert WholeBlock(s.owner, b, s.size[b]);
      Erased(s.owner, b, s.size[b]);
    case ClientWrite(x, v) =>
  }

  /** What is stored in a block stays there while the block is in use, but for
      its owner's own writes. */
  lemma ContentsKept(s: State, step: Step, x: nat)
    requires Inv(s) && Enabled(s, step) && (step.ClientWrite? ==> step.address != x)
    requires x in s.owner && s.owner[x].Live? && x in s.words
    ensures Ready(s)
    ensures var after := Apply(s, step);
      x in after.owner && after.owner[x].Live? ==> x in after.words && after.words[x] == s.words[x]
  {
    AlwaysReady(s);
    if step.Release? {
      var a, c := step.block, step.class_;
      assert WholeBlock(s.owner, a, s.size[a]) && In(a, a, s.size[a]);
      Painted(s.owner, a, ClassSize(c), Free(a));
    }
  }

  /** Having been given a region, a call of kalloc ends without asking again. */
  lemma OneRegionIsEnough(s: State, step: Step, t: nat)
    requires Inv(s) && Enabled(s, step)
    requires t in s.threads && s.threads[t].maps > 0
    ensures Ready(s)
    ensures s.threads[t].maps == 1 && (s.threads[t].Holding? || s.threads[t].Dropping?)
    ensures var after := Apply(s, step).threads;
      t in after ==>
        || after[t] == s.threads[t]
        || (s.threads[t].Holding? && after[t] == Dropping(s.threads[t].class_, s.threads[t].region, 1))
  {
    AlwaysReady(s);
    assert MappedOnce(s.page, s.threads[t]);
    if step.Install? && step.thread == t {
      ClassOfThread(s, t);
    }
  }

  // ---- size classes ----

  /** The search of kalloc and kfree for a class. */
  method FindClass(page: nat, size: nat) returns (c: nat, allocsize: nat)
    requires 512 <= page && size < KallocMax(page)
    ensures allocsize == ClassSize(c) && size <= allocsize
    ensures c > 0 ==> ClassSize(c - 1) < size
    ensures allocsize < KallocMax(page) ==> IsClass(page, c)
  {
    c, allocsize := 0, MINSIZE;
    while allocsize < size
      invariant allocsize == ClassSize(c) && (c > 0 ==> ClassSize(c - 1) < size)
      invariant c < KLIST_MAX
      decreases size - allocsize
    {
      LargestClass(c);
      c, allocsize := c + 1, 2 * allocsize;
    }
  }

  lemma LargestClass(c: nat)
    ensures ClassSize(c) < 16384 ==> c + 1 < KLIST_MAX
  {
    assert Pow2(12) == 4096;
    if c > 12 { ClassesDiffer(12, c); }
  }

  /** kfree finds the list of the class kalloc took the block from. */
  lemma ClassIsUnique(size: nat, c: nat, d: nat)
    requires size <= ClassSize(c) && (c > 0 ==> ClassSize(c - 1) < size)
    requires size <= ClassSize(d) && (d > 0 ==> ClassSize(d - 1) < size)
    ensures c == d
  {
    if c + 1 < d { ClassesDiffer(c, d - 1); }
    if d + 1 < c { ClassesDiffer(d, c - 1); }
  }
}
