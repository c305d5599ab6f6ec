/** How the parts of the allocator's invariant survive a change of the owner of
    one range of bytes. */
module SmallBlockParts {
  import opened Words
  import opened SmallBlocks

  ghost predicate SameOutside(before: map<nat, Owner>, after: map<nat, Owner>, from: nat, length: nat) {
    forall x :: !In(x, from, length) ==> (x in after <==> x in before) && (x in after ==> after[x] == before[x])
  }

  ghost predicate AllAre(owner: map<nat, Owner>, from: nat, length: nat, o: Owner) {
    forall x :: In(x, from, length) ==> x in owner && owner[x] == o
  }

  ghost predicate AllAbsent(owner: map<nat, Owner>, from: nat, length: nat) {
    forall x :: In(x, from, length) ==> x !in owner
  }

  predicate IsBlock(o: Owner) { o.Live? || o.Free? }

  ghost predicate NoBlocks(owner: map<nat, Owner>, from: nat, length: nat) {
    forall x :: In(x, from, length) && x in owner ==> !IsBlock(owner[x])
  }

  ghost predicate Lacks(owner: map<nat, Owner>, from: nat, length: nat, o: Owner) {
    forall x :: In(x, from, length) && x in owner ==> owner[x] != o
  }

  ghost predicate NoRegions(owner: map<nat, Owner>, from: nat, length: nat) {
    forall x :: In(x, from, length) && x in owner ==> !owner[x].Held?
  }

  lemma Painted(owner: map<nat, Owner>, from: nat, length: nat, o: Owner)
    ensures SameOutside(owner, Owned(owner, from, length, o), from, length)
    ensures AllAre(Owned(owner, from, length, o), from, length, o)
  {}

  lemma Erased(owner: map<nat, Owner>, from: nat, length: nat)
    ensures SameOutside(owner, Unowned(owner, from, length), from, length)
    ensures AllAbsent(Unowned(owner, from, length), from, length)
  {}

  // ---- blocks ----

  lemma BlockKept(before: map<nat, Owner>, after: map<nat, Owner>, from: nat, length: nat, a: nat, n: nat)
    requires SameOutside(before, after, from, length) && WholeBlock(before, a, n)
    requires forall x :: In(x, from, length) && x in before ==> before[x] != Live(a) && before[x] != Free(a)
    ensures WholeBlock(after, a, n)
  {}

  lemma WholeKept(before: map<nat, Owner>, after: map<nat, Owner>, size: map<nat, nat>, from: nat, length: nat)
    requires SameOutside(before, after, from, length) && NoBlocks(before, from, length) && Whole(before, size)
    ensures Whole(after, size)
  {
    forall a | a in size ensures WholeBlock(after, a, size[a]) {
      assert WholeBlock(before, a, size[a]);
      BlockKept(before, after, from, length, a, size[a]);
    }
  }

  lemma CoveredKept(before: map<nat, Owner>, after: map<nat, Owner>, size: map<nat, nat>, from: nat, length: nat)
    requires SameOutside(before, after, from, length) && NoBlocks(after, from, length) && Covered(before, size)
    ensures Covered(after, size)
  {}

  /** The range becomes a block in use. */
  lemma BlockAdded(before: map<nat, Owner>, after: map<nat, Owner>, size: map<nat, nat>, from: nat, length: nat)
    requires SameOutside(before, after, from, length) && NoBlocks(before, from, length)
    requires Whole(before, size) && Covered(before, size)
    requires 0 < length && AllAre(after, from, length, Live(from))
    ensures from !in size
    ensures Whole(after, size[from := length]) && Covered(after, size[from := length])
  {
    assert In(from, from, length);
    assert from in size ==> WholeBlock(before, from, size[from]);
    WholeKept(before, after, size, from, length);
    var more := size[from := length];
    forall a | a in more ensures WholeBlock(after, a, more[a]) {
      assert a in size ==> WholeBlock(after, a, size[a]);
    }
  }

  /** A block changes hands as a whole. */
  lemma BlockFlipped(before: map<nat, Owner>, after: map<nat, Owner>, size: map<nat, nat>, a: nat, o: Owner)
    requires a in size && SameOutside(before, after, a, size[a])
    requires Whole(before, size) && Covered(before, size)
    requires AllAre(after, a, size[a], o) && (o == Live(a) || o == Free(a))
    ensures Whole(after, size) && Covered(after, size)
  {
    assert WholeBlock(before, a, size[a]);
    forall b | b in size ensures WholeBlock(after, b, size[b]) {
      assert WholeBlock(before, b, size[b]);
      if b != a {
        BlockKept(before, after, a, size[a], b, size[b]);
      } else {
        assert In(a, a, size[a]);
      }
    }
  }

  lemma BlockRemoved(before: map<nat, Owner>, after: map<nat, Owner>, size: map<nat, nat>, a: nat)
    requires a in size && SameOutside(before, after, a, size[a])
    requires Whole(before, size) && Covered(before, size)
    requires AllAbsent(after, a, size[a])
    ensures Whole(after, Without(size, a)) && Covered(after, Without(size, a))
  {
    assert WholeBlock(before, a, size[a]);
    forall b | b in Without(size, a) ensures WholeBlock(after, b, size[b]) {
      assert WholeBlock(before, b, size[b]);
      BlockKept(before, after, a, size[a], b, size[b]);
    }
  }

  // ---- the tail ----

  lemma TailsKept(before: map<nat, Owner>, after: map<nat, Owner>, next: nat, end: nat, from: nat, length: nat)
    requires SameOutside(before, after, from, length) && Tails(before, next, end)
    requires Lacks(before, from, length, Tail) && Lacks(after, from, length, Tail)
    ensures Tails(after, next, end)
  {}

  lemma TailCut(before: map<nat, Owner>, after: map<nat, Owner>, next: nat, end: nat, length: nat, o: Owner)
    requires SameOutside(before, after, next, length) && Tails(before, next, end)
    requires next + length <= end && AllAre(after, next, length, o) && o != Tail
    ensures Tails(after, next + length, end)
  {}

  /** A region right behind the tail makes it longer. */
  lemma TailGrown(before: map<nat, Owner>, after: map<nat, Owner>, next: nat, end: nat, length: nat)
    requires SameOutside(before, after, end, length) && Tails(before, next, end)
    requires AllAre(after, end, length, Tail)
    ensures Tails(after, next, end + length)
  {}

  /** A region elsewhere becomes the tail when no other byte is left in it. */
  lemma TailMoved(before: map<nat, Owner>, after: map<nat, Owner>, region: nat, length: nat)
    requires SameOutside(before, after, region, length) && AllAre(after, region, length, Tail)
    requires forall x :: x in before ==> before[x] != Tail
    ensures Tails(after, region, region + length)
  {}

  // ---- regions in the hands of threads ----

  ghost predicate SameRegions(before: map<nat, Thread>, after: map<nat, Thread>, page: nat)
    requires 0 < page
  {
    forall t, x :: Has(page, before, t, x) <==> Has(page, after, t, x)
  }

  lemma RegionsKept(before: map<nat, Owner>, after: map<nat, Owner>, threads: map<nat, Thread>, now: map<nat, Thread>,
                    page: nat, from: nat, length: nat)
    requires 0 < page && SameOutside(before, after, from, length) && Regions(before, threads, page)
    requires NoRegions(before, from, length) && NoRegions(after, from, length) && SameRegions(threads, now, page)
    ensures Regions(after, now, page)
  {}

  lemma RegionAdded(before: map<nat, Owner>, after: map<nat, Owner>, threads: map<nat, Thread>, page: nat, t: nat,
    c: nat, region: nat, maps: nat)
    requires 0 < page && Regions(before, threads, page) && t in threads && threads[t].Mapping?
    requires SameOutside(before, after, region, RoundPage(page, ClassSize(c)))
    requires AllAbsent(before, region, RoundPage(page, ClassSize(c))) &&
      AllAre(after, region, RoundPage(page, ClassSize(c)), Held(t))
    ensures Regions(after, threads[t := Holding(c, region, maps)], page)
  {
    hide RoundPage, ClassSize;
    var now := threads[t := Holding(c, region, maps)];
    forall u, x | Has(page, now, u, x) ensures x in after && after[x] == Held(u) {
      assert u != t ==> Has(page, threads, u, x);
    }
    forall x | x in after && after[x].Held? ensures Has(page, now, after[x].thread, x) {
      assert !In(x, region, RoundPage(page, ClassSize(c))) ==> Has(page, threads, before[x].thread, x);
    }
  }

  /** A region leaves the hands of its thread. */
  lemma RegionRemoved(before: map<nat, Owner>, after: map<nat, Owner>, threads: map<nat, Thread>,
    now: map<nat, Thread>, page: nat, t: nat)
    requires 0 < page && Regions(before, threads, page) && t in threads && (threads[t].Holding? || threads[t].Dropping?)
    requires SameOutside(before, after, threads[t].region, RoundPage(page, ClassSize(threads[t].class_)))
    requires NoRegions(after, threads[t].region, RoundPage(page, ClassSize(threads[t].class_)))
    requires forall u, x :: Has(page, now, u, x) <==> u != t && Has(page, threads, u, x)
    ensures Regions(after, now, page)
  {
    hide RoundPage, ClassSize;
    var region, length := threads[t].region, RoundPage(page, ClassSize(threads[t].class_));
    forall x | In(x, region, length) ensures x in before && before[x] == Held(t) {
      assert Has(page, threads, t, x);
    }
    forall u, x | Has(page, now, u, x) ensures x in after && after[x] == Held(u) {
      assert Has(page, threads, u, x);
    }
    forall x | x in after && after[x].Held? ensures Has(page, now, after[x].thread, x) {
      assert Has(page, threads, before[x].thread, x);
    }
  }

  // ---- wasted bytes ----

  lemma {:induction false} BytesCount(from: nat, length: nat)
    ensures |Bytes(from, length)| == length
  {
    if length == 0 {
      assert Bytes(from, length) == {};
    } else {
      BytesCount(from, length - 1);
      assert Bytes(from, length) == Bytes(from, length - 1) + {from + length - 1};
    }
  }

  lemma WastedKept(before: map<nat, Owner>, after: map<nat, Owner>, from: nat, length: nat)
    requires SameOutside(before, after, from, length)
    requires Lacks(before, from, length, Wasted) && Lacks(after, from, length, Wasted)
    ensures WastedBytes(after) == WastedBytes(before)
  {}

  lemma WastedAdded(before: map<nat, Owner>, after: map<nat, Owner>, from: nat, length: nat)
    requires SameOutside(before, after, from, length)
    requires Lacks(before, from, length, Wasted) && AllAre(after, from, length, Wasted)
    ensures |WastedBytes(after)| == |WastedBytes(before)| + length
  {
    BytesCount(from, length);
    assert WastedBytes(after) == WastedBytes(before) + Bytes(from, length);
    assert WastedBytes(before) !! Bytes(from, length);
  }

  // ---- free lists ----

  predicate IsFree(owner: map<nat, Owner>, a: nat) {
    a in owner && owner[a] == Free(a)
  }

  /** The free blocks, their sizes and the links in them are the same. */
  ghost predicate SameFree(s: State, after: State) {
    && after.page == s.page && after.heads == s.heads && after.lists == s.lists
    && (forall a :: IsFree(s.owner, a) <==> IsFree(after.owner, a))
    && (forall a :: IsFree(s.owner, a) && a in s.size ==> a in after.size && after.size[a] == s.size[a])
    && (forall a :: IsFree(s.owner, a) && a in s.words ==> a in after.words && after.words[a] == s.words[a])
  }

  lemma ListsKept(s: State, after: State)
    requires GoodLists(s) && AllListed(s) && SameFree(s, after)
    ensures GoodLists(after) && AllListed(after)
  {
    forall c: nat | c < KLIST_MAX ensures GoodList(after, c) {
      assert GoodList(s, c);
      var list := s.lists[c];
      forall i: nat | i < |list| ensures OnList(after.owner, after.size, after.words, list, c, i) {
        assert OnList(s.owner, s.size, s.words, list, c, i) && IsFree(s.owner, list[i]);
      }
    }
    forall a | a in after.owner && after.owner[a] == Free(a) ensures Listed(after.lists, after.page, a) {
      assert IsFree(after.owner, a) && IsFree(s.owner, a);
    }
  }

  lemma {:induction false} ClassesDiffer(c: nat, d: nat)
    requires c < d
    ensures ClassSize(c) < ClassSize(d)
  {
    if c + 1 < d {
      ClassesDiffer(c, d - 1);
    }
  }

  /** A list other than class c's holds no block of class c. */
  lemma OtherList(s: State, c: nat, d: nat, i: nat)
    requires c < KLIST_MAX && d < KLIST_MAX && c != d && |s.lists| == KLIST_MAX
    requires i < |s.lists[d]| && OnList(s.owner, s.size, s.words, s.lists[d], d, i)
    ensures s.size[s.lists[d][i]] != ClassSize(c)
  {
    ClassesDiffer(if c < d then c else d, if c < d then d else c);
  }
}
