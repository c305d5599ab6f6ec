/** The default pager's data as one value: which map entry owns which page of
    which partition, and what a reader of (object, page) gets. A page of a
    partition is named by the packed entry that a block map would hold for it. */
module PagerState {
  import opened Words
  import opened Partitions
  import opened BlockMaps

  /** A page of the object behind a pager port. */
  datatype Slot = Slot(port: nat, page: nat)

  /** maps: the block map of every object; used: the allocated pages of all
      partitions; disk: the contents of all pages of all partitions; owner: the
      inverse of maps. */
  datatype View = View(
    maps: map<nat, seq<Word>>,
    used: set<Word>,
    disk: map<Word, Page>,
    owner: map<Word, Slot>)

  ghost predicate HasEntry(v: View, s: Slot) {
    s.port in v.maps && s.page < |v.maps[s.port]|
  }

  ghost function Entry(v: View, s: Slot): Word
    requires HasEntry(v, s)
  {
    v.maps[s.port][s.page]
  }

  ghost predicate Mapped(v: View, s: Slot) {
    HasEntry(v, s) && Entry(v, s) != NO_BLOCK
  }

  /** The ownership invariant: owner is the inverse of the block maps, and the
      allocated pages are the owned ones. */
  ghost predicate Owned(v: View) {
    && (forall s :: Mapped(v, s) ==> Entry(v, s) in v.owner && v.owner[Entry(v, s)] == s)
    && (forall w :: w in v.owner ==> Mapped(v, v.owner[w]) && Entry(v, v.owner[w]) == w)
    && v.owner.Keys == v.used
    && v.used <= v.disk.Keys
  }

  /** What a read of each page returns; an absent page has no key. */
  ghost function Content(v: View): (c: map<Slot, Page>)
    requires Owned(v)
    ensures forall s :: s in c <==> Mapped(v, s)
    ensures forall s :: s in c ==> c[s] == v.disk[Entry(v, s)]
  {
    map s | s in v.owner.Values :: v.disk[Entry(v, s)]
  }

  /** Ownership in plain words: a page is allocated exactly when some map entry
      names it, and then only one does. */
  lemma ExactlyOneOwner(v: View, w: Word)
    requires Owned(v)
    ensures w in v.used <==> exists s :: Mapped(v, s) && Entry(v, s) == w
    ensures forall s, t :: Mapped(v, s) && Mapped(v, t) && Entry(v, s) == w && Entry(v, t) == w ==> s == t
  {
    if w in v.used {
      assert Mapped(v, v.owner[w]);
    }
  }

  lemma OwnedEntry(v: View, s: Slot)
    requires Owned(v) && Mapped(v, s)
    ensures Entry(v, s) in v.used && Entry(v, s) in v.owner && v.owner[Entry(v, s)] == s
    ensures Entry(v, s) in v.disk
  {}

  lemma {:induction false} InjectiveCount(m: map<Word, Slot>)
    requires forall w, x :: w in m && x in m && m[w] == m[x] ==> w == x
    ensures |m.Values| == |m.Keys|
  {
    if m != map[] {
      var w :| w in m;
      var rest := m - {w};
      InjectiveCount(rest);
      assert m.Keys == rest.Keys + {w};
      assert m.Values == rest.Values + {m[w]};
    }
  }

  /** Conservation: as many pages are allocated in the partitions as the
      objects hold. */
  lemma PagesCounted(v: View)
    requires Owned(v)
    ensures |Content(v)| == |v.used|
  {
    InjectiveCount(v.owner);
    forall s ensures s in Content(v).Keys <==> s in v.owner.Values {
      if s in Content(v) { assert Mapped(v, s); }
    }
    assert Content(v).Keys == v.owner.Values;
  }

  // ---- the changes the operations make ----

  ghost function SetEntry(v: View, s: Slot, w: Word): map<nat, seq<Word>>
    requires HasEntry(v, s)
  {
    v.maps[s.port := SetAt(v.maps[s.port], s.page, w)]
  }

  /** A free page is marked and stored in an entry. */
  ghost function Assign(v: View, s: Slot, w: Word): View
    requires HasEntry(v, s)
  {
    View(SetEntry(v, s, w), v.used + {w}, v.disk, v.owner[w := s])
  }

  lemma AssignKeepsOwned(v: View, s: Slot, w: Word)
    requires Owned(v) && HasEntry(v, s) && !Mapped(v, s)
    requires w != NO_BLOCK && w !in v.used && w in v.disk
    ensures Owned(Assign(v, s, w))
    ensures Content(Assign(v, s, w)) == Content(v)[s := v.disk[w]]
  {
    var n := Assign(v, s, w);
    assert Entry(n, s) == w;
    forall t | t != s ensures HasEntry(n, t) == HasEntry(v, t) && (HasEntry(v, t) ==> Entry(n, t) == Entry(v, t)) {}
  }

  /** An entry is invalidated and its page freed. */
  ghost function Release(v: View, s: Slot): View
    requires HasEntry(v, s)
  {
    var w := Entry(v, s);
    View(SetEntry(v, s, NO_BLOCK), v.used - {w}, v.disk, v.owner - {w})
  }

  lemma ReleaseKeepsOwned(v: View, s: Slot)
    requires Owned(v) && Mapped(v, s)
    ensures Owned(Release(v, s))
    ensures Content(Release(v, s)) == Content(v) - {s}
  {
    var n := Release(v, s);
    assert Entry(n, s) == NO_BLOCK;
    forall t | t != s ensures HasEntry(n, t) == HasEntry(v, t) && (HasEntry(v, t) ==> Entry(n, t) == Entry(v, t)) {}
  }

  /** A page of a partition is written. */
  ghost function Put(v: View, w: Word, data: Page): View {
    v.(disk := v.disk[w := data])
  }

  lemma PutKeepsOwned(v: View, s: Slot, data: Page)
    requires Owned(v) && Mapped(v, s)
    ensures Owned(Put(v, Entry(v, s), data))
    ensures Content(Put(v, Entry(v, s), data)) == Content(v)[s := data]
  {
    var n := Put(v, Entry(v, s), data);
    forall t ensures Mapped(n, t) == Mapped(v, t) && (Mapped(v, t) ==> Entry(n, t) == Entry(v, t)) {}
  }

  /** An object grows; its new entries are unassigned. */
  ghost function Grow(v: View, port: nat, extra: nat): View
    requires port in v.maps
  {
    v.(maps := v.maps[port := v.maps[port] + NoBlocks(extra)])
  }

  lemma GrowKeepsOwned(v: View, port: nat, extra: nat)
    requires Owned(v) && port in v.maps
    ensures Owned(Grow(v, port, extra))
    ensures Content(Grow(v, port, extra)) == Content(v)
  {
    var n := Grow(v, port, extra);
    forall s ensures Mapped(n, s) == Mapped(v, s) && (Mapped(v, s) ==> Entry(n, s) == Entry(v, s)) {}
  }

  /** The page of an entry is copied to a free page, which takes its place. */
  ghost function Move(v: View, s: Slot, w: Word): View
    requires Mapped(v, s) && Entry(v, s) in v.disk
  {
    var e := Entry(v, s);
    View(SetEntry(v, s, w), v.used - {e} + {w}, v.disk[w := v.disk[e]], (v.owner - {e})[w := s])
  }

  lemma MoveIsReleaseThenAssign(v: View, s: Slot, w: Word)
    requires Mapped(v, s) && Entry(v, s) in v.disk
    ensures Move(v, s, w) == Assign(Put(Release(v, s), w, v.disk[Entry(v, s)]), s, w)
  {
    assert SetAt(SetAt(v.maps[s.port], s.page, NO_BLOCK), s.page, w) == SetAt(v.maps[s.port], s.page, w);
  }

  lemma MoveKeepsOwned(v: View, s: Slot, w: Word)
    requires Owned(v) && Mapped(v, s)
    requires w != NO_BLOCK && w !in v.used && w in v.disk
    ensures Owned(Move(v, s, w))
    ensures Content(Move(v, s, w)) == Content(v)
  {
    ReleaseKeepsOwned(v, s);
    MoveIsReleaseThenAssign(v, s, w);
    var data := v.disk[Entry(v, s)];
    var r := Release(v, s);
    assert w !in r.used && w in r.disk && HasEntry(r, s) && !Mapped(r, s);
    hide Release, Move;
    FreePut(r, w, data);
    AssignKeepsOwned(Put(r, w, data), s, w);
    hide Owned;
    assert Content(Assign(Put(r, w, data), s, w)) == Content(r)[s := data];
  }

  /** What is written to a free page is seen by nobody. */
  lemma FreePut(v: View, w: Word, data: Page)
    requires Owned(v) && w in v.disk && w !in v.used
    ensures Owned(Put(v, w, data)) && Content(Put(v, w, data)) == Content(v)
  {
    var p := Put(v, w, data);
    forall t ensures Mapped(p, t) == Mapped(v, t) && (Mapped(v, t) ==> Entry(p, t) == Entry(v, t)) {}
  }

  /** The contents without the first n pages of an object. */
  ghost function Without(c: map<Slot, Page>, port: nat, n: nat): map<Slot, Page> {
    map s | s in c && !(s.port == port && s.page < n) :: c[s]
  }

  ghost function WithoutObject(c: map<Slot, Page>, port: nat): map<Slot, Page> {
    map s | s in c && s.port != port :: c[s]
  }

  lemma WithoutStep(c: map<Slot, Page>, port: nat, n: nat)
    ensures Without(c, port, n + 1) == Without(c, port, n) - {Slot(port, n)}
  {}

  /** An object whose pages are all released goes away. */
  ghost function Forget(v: View, port: nat): View {
    v.(maps := v.maps - {port})
  }

  lemma ForgetKeepsOwned(v: View, port: nat)
    requires Owned(v) && forall k: nat :: !Mapped(v, Slot(port, k))
    ensures Owned(Forget(v, port)) && Content(Forget(v, port)) == Content(v)
  {
    var n := Forget(v, port);
    forall s ensures Mapped(n, s) == Mapped(v, s) && (Mapped(v, s) ==> Entry(n, s) == Entry(v, s)) {
      assert s.port == port ==> !Mapped(v, Slot(port, s.page));
    }
  }

  /** A new object without any page. */
  ghost function Introduce(v: View, port: nat, size: nat): View {
    v.(maps := v.maps[port := NoBlocks(size)])
  }

  lemma IntroduceKeepsOwned(v: View, port: nat, size: nat)
    requires Owned(v) && port !in v.maps
    ensures Owned(Introduce(v, port, size)) && Content(Introduce(v, port, size)) == Content(v)
  {
    var n := Introduce(v, port, size);
    forall s ensures Mapped(n, s) == Mapped(v, s) && (Mapped(v, s) ==> Entry(n, s) == Entry(v, s)) {}
  }

  /** Pages that no entry names may appear or disappear with their partition. */
  lemma DiskKeepsOwned(v: View, disk: map<Word, Page>)
    requires Owned(v)
    requires forall w :: w in v.used ==> w in disk && disk[w] == v.disk[w]
    ensures Owned(v.(disk := disk)) && Content(v.(disk := disk)) == Content(v)
  {
    var n := v.(disk := disk);
    forall s
      ensures Mapped(n, s) == Mapped(v, s)
      ensures Mapped(v, s) ==> Entry(n, s) == Entry(v, s) && Entry(v, s) in v.used
    {}
  }

  /** None of the first n pages of an object is in partition i. */
  ghost predicate Avoids(v: View, port: nat, n: nat, i: nat) {
    forall k: nat :: k < n && Mapped(v, Slot(port, k)) ==> IndexOf(Entry(v, Slot(port, k))) != i
  }

  /** No page of any object is in partition i. */
  ghost predicate AllAvoid(v: View, i: nat) {
    forall s :: Mapped(v, s) ==> IndexOf(Entry(v, s)) != i
  }

  lemma AvoidedIsEmpty(v: View, i: nat)
    requires Owned(v) && AllAvoid(v, i)
    ensures forall w :: w in v.used ==> IndexOf(w) != i
  {
    forall w | w in v.used ensures IndexOf(w) != i {
      assert Mapped(v, v.owner[w]);
    }
  }

  /** The same objects, of the same sizes. */
  ghost predicate SameShape(v: View, u: View) {
    && v.maps.Keys == u.maps.Keys
    && forall p :: p in v.maps ==> |v.maps[p]| == |u.maps[p]|
  }

  /** The same entries everywhere but in one object, which keeps its size. */
  ghost predicate SameBut(v: View, u: View, port: nat) {
    && SameShape(v, u)
    && (forall p :: p in v.maps && p != port ==> v.maps[p] == u.maps[p])
  }
}
