/** kalloc and kfree (bootstrap/kalloc.c): blocks of a few size classes, cut from
    regions that any number of threads map, under every interleaving of the
    sections that hold a lock. */
module SmallBlocks {
  import opened Words

  const MINSIZE: nat := 4
  const KLIST_MAX: nat := 13
  const NULL: nat := 0

  /** Who may use a byte of mapped memory. */
  datatype Owner =
    | Live(block: nat)
    | Free(block: nat)
    | Tail
    | Wasted
    | Held(thread: nat)

  /** Where a thread inside kget_space stands, for a block of its class. `maps`
      counts the regions its call has been given. */
  datatype Thread =
    | Wants(class_: nat, maps: nat)
    | Mapping(class_: nat, maps: nat)
    | Holding(class_: nat, region: nat, maps: nat)
    | Dropping(class_: nat, region: nat, maps: nat)

  /** The allocator's variables and the memory it works in; threads not listed
      are outside. The last three are a history of what was handed out: they
      decide nothing. */
  datatype State = State(
    page: nat,
    next: nat,
    end: nat,
    wasted: nat,
    heads: seq<nat>,
    words: map<nat, nat>,
    threads: map<nat, Thread>,
    owner: map<nat, Owner>,
    size: map<nat, nat>,
    lists: seq<seq<nat>>)

  function ClassSize(c: nat): nat { MINSIZE * Pow2(c) }

  function KallocMax(page: nat): nat { if page > 16384 then 16384 else page }

  predicate IsClass(page: nat, c: nat) {
    c < KLIST_MAX && ClassSize(c) < KallocMax(page)
  }

  /** round_page */
  function RoundPage(page: nat, size: nat): nat
    requires 0 < page
  {
    (size + page - 1) / page * page
  }

  datatype Step =
    | Request(thread: nat, class_: nat)
    | Grab(thread: nat)
    | AskKernel(thread: nat)
    | KernelFails(thread: nat)
    | KernelMaps(thread: nat, region: nat)
    | Install(thread: nat)
    | Unmap(thread: nat)
    | Release(block: nat, class_: nat)
    | AllocateLarge(region: nat, length: nat)
    | ReleaseLarge(block: nat)
    | ClientWrite(address: nat, value: nat)

  predicate In(x: nat, from: nat, length: nat) { from <= x < from + length }

  /** The kernel maps what nobody has mapped, and never address 0. */
  ghost predicate Fresh(s: State, region: nat, length: nat) {
    0 < region && forall x :: x in s.owner ==> !In(x, region, length)
  }

  /** The region a thread asks the kernel for. */
  function Wanted(s: State, c: nat): nat
    requires 0 < s.page
  {
    RoundPage(s.page, ClassSize(c))
  }

  /** What the sections rely on; the invariant says it always holds. */
  predicate Ready(s: State) {
    && 0 < s.page && |s.heads| == KLIST_MAX && |s.lists| == KLIST_MAX && s.next <= s.end
    && forall c :: 0 <= c < KLIST_MAX && s.heads[c] != NULL ==> s.heads[c] in s.words && s.lists[c] != []
  }

  ghost predicate Enabled(s: State, step: Step)
    requires 0 < s.page
  {
    match step
    case Request(t, c) => t !in s.threads && IsClass(s.page, c)
    case Grab(t) => t in s.threads && s.threads[t].Wants? && s.next + ClassSize(s.threads[t].class_) <= s.end
    case AskKernel(t) => t in s.threads && s.threads[t].Wants? && s.next + ClassSize(s.threads[t].class_) > s.end
    case KernelFails(t) => t in s.threads && s.threads[t].Mapping?
    case KernelMaps(t, region) => t in s.threads && s.threads[t].Mapping? &&
      Fresh(s, region, Wanted(s, s.threads[t].class_))
    case Install(t) => t in s.threads && s.threads[t].Holding?
    case Unmap(t) => t in s.threads && s.threads[t].Dropping?
    case Release(a, c) => a in s.size && a in s.owner && s.owner[a] == Live(a) && s.size[a] == ClassSize(c) &&
      IsClass(s.page, c)
    case AllocateLarge(region, length) => KallocMax(s.page) <= length && Fresh(s, region, length)
    case ReleaseLarge(a) => a in s.size && a in s.owner && s.owner[a] == Live(a) && s.size[a] >= KallocMax(s.page)
    case ClientWrite(x, v) => x in s.owner && s.owner[x].Live?
  }

  // ---- what the sections do ----

  function Owned(owner: map<nat, Owner>, from: nat, length: nat, o: Owner): map<nat, Owner> {
    map x | x in owner.Keys + Bytes(from, length) :: if In(x, from, length) then o else owner[x]
  }

  function Unowned(owner: map<nat, Owner>, from: nat, length: nat): map<nat, Owner> {
    map x | x in owner && !In(x, from, length) :: owner[x]
  }

  function Bytes(from: nat, length: nat): set<nat> {
    set x: nat | x < from + length && In(x, from, length)
  }

  function Without<T>(m: map<nat, T>, k: nat): map<nat, T> {
    map x | x in m && x != k :: m[x]
  }

  /** A block of class c is cut from the front of the unused tail. */
  function Cut(s: State, c: nat): State {
    s.(next := s.next + ClassSize(c),
       owner := Owned(s.owner, s.next, ClassSize(c), Live(s.next)),
       size := s.size[s.next := ClassSize(c)])
  }

  /** The thread's region becomes the tail or extends it; what was left of
      another tail is thrown away. */
  function Adopted(s: State, region: nat, length: nat): State
    requires s.next <= s.end
  {
    if region == s.end then
      s.(end := region + length, owner := Owned(s.owner, region, length, Tail))
    else
      s.(wasted := s.wasted + (s.end - s.next), next := region, end := region + length,
         owner := Owned(Owned(s.owner, s.next, s.end - s.next, Wasted), region, length, Tail))
  }

  /** The block at the head of a free list is used again. */
  function Popped(s: State, c: nat): State
    requires c < |s.heads| == |s.lists| && s.heads[c] in s.words && s.lists[c] != []
  {
    var a := s.heads[c];
    s.(heads := s.heads[c := s.words[a]],
       owner := Owned(s.owner, a, ClassSize(c), Live(a)),
       lists := s.lists[c := s.lists[c][1..]])
  }

  /** A block goes to the front of the free list of its class; the link is
      stored in the block. */
  function Pushed(s: State, a: nat, c: nat): State
    requires c < |s.heads| == |s.lists|
  {
    s.(words := s.words[a := s.heads[c]],
       heads := s.heads[c := a],
       owner := Owned(s.owner, a, ClassSize(c), Free(a)),
       lists := s.lists[c := [a] + s.lists[c]])
  }

  ghost function Apply(s: State, step: Step): State
    requires Ready(s) && Enabled(s, step)
  {
    match step
    case Request(t, c) =>
      if s.heads[c] != NULL then Popped(s, c) else s.(threads := s.threads[t := Wants(c, 0)])
    case Grab(t) => Cut(s, s.threads[t].class_).(threads := Without(s.threads, t))
    case AskKernel(t) => s.(threads := s.threads[t := Mapping(s.threads[t].class_, s.threads[t].maps)])
    case KernelFails(t) => s.(threads := Without(s.threads, t))
    case KernelMaps(t, region) =>
      var c := s.threads[t].class_;
      s.(threads := s.threads[t := Holding(c, region, s.threads[t].maps + 1)],
        owner := Owned(s.owner, region, Wanted(s, c), Held(t)))
    case Install(t) => Installed(s, t, s.threads[t])
    case Unmap(t) =>
      s.(threads := Without(s.threads, t),
        owner := Unowned(s.owner, s.threads[t].region, Wanted(s, s.threads[t].class_)))
    case Release(a, c) => Pushed(s, a, c)
    case AllocateLarge(region, length) =>
      s.(owner := Owned(s.owner, region, length, Live(region)), size := s.size[region := length])
    case ReleaseLarge(a) => s.(owner := Unowned(s.owner, a, s.size[a]), size := Without(s.size, a))
    case ClientWrite(x, v) => s.(words := s.words[x := v])
  }

  /** The thread has the lock again and a region in hand: it needs the region
      only when still nothing fits, and then looks once more. */
  function Installed(s: State, t: nat, thread: Thread): State
    requires 0 < s.page && s.next <= s.end && thread.Holding?
  {
    var c := thread.class_;
    if s.next + ClassSize(c) <= s.end then
      Cut(s, c).(threads := s.threads[t := Dropping(c, thread.region, thread.maps)])
    else
      var adopted := Adopted(s, thread.region, Wanted(s, c));
      if adopted.next + ClassSize(c) <= adopted.end then Cut(adopted, c).(threads := Without(s.threads, t))
      else adopted.(threads := s.threads[t := Mapping(c, thread.maps)])
  }

  // ---- the invariant ----

  ghost predicate WholeBlock(owner: map<nat, Owner>, a: nat, n: nat) {
    && 0 < n && a in owner && (owner[a] == Live(a) || owner[a] == Free(a))
    && forall x :: In(x, a, n) ==> x in owner && owner[x] == owner[a]
  }

  /** Blocks own all their bytes. */
  ghost predicate Whole(owner: map<nat, Owner>, size: map<nat, nat>) {
    forall a {:trigger WholeBlock(owner, a, size[a])} :: a in size ==> WholeBlock(owner, a, size[a])
  }

  predicate InBlock(size: map<nat, nat>, o: Owner, x: nat) {
    o.Live? || o.Free? ==> o.block in size && In(x, o.block, size[o.block])
  }

  /** Blocks own no other bytes. */
  ghost predicate Covered(owner: map<nat, Owner>, size: map<nat, nat>) {
    forall x :: x in owner ==> InBlock(size, owner[x], x)
  }

  /** The tail is [next, end). */
  ghost predicate Tails(owner: map<nat, Owner>, next: nat, end: nat) {
    next <= end && forall x :: x in owner && owner[x] == Tail <==> next <= x < end
  }

  predicate Has(page: nat, threads: map<nat, Thread>, t: nat, x: nat)
    requires 0 < page
  {
    && t in threads && (threads[t].Holding? || threads[t].Dropping?)
    && In(x, threads[t].region, RoundPage(page, ClassSize(threads[t].class_)))
  }

  /** Every region in a thread's hands is that thread's alone. */
  ghost predicate Regions(owner: map<nat, Owner>, threads: map<nat, Thread>, page: nat)
    requires 0 < page
  {
    && (forall t, x :: Has(page, threads, t, x) ==> x in owner && owner[x] == Held(t))
    && (forall x :: x in owner && owner[x].Held? ==> Has(page, threads, owner[x].thread, x))
  }

  function WastedBytes(owner: map<nat, Owner>): set<nat> {
    set x | x in owner && owner[x] == Wasted
  }

  /** A call has been given a region at most once. */
  predicate MappedOnce(page: nat, thread: Thread) {
    && IsClass(page, thread.class_)
    && thread.maps == if thread.Wants? || thread.Mapping? then 0 else 1
  }

  ghost predicate Threads(threads: map<nat, Thread>, page: nat) {
    forall t :: t in threads ==> MappedOnce(page, threads[t])
  }

  function First(list: seq<nat>): nat {
    if list == [] then NULL else list[0]
  }

  /** The i-th block of a list is free, has the size of its class, and has the
      next of the list stored in it. */
  predicate OnList(owner: map<nat, Owner>, size: map<nat, nat>, words: map<nat, nat>, list: seq<nat>, c: nat, i: nat)
    requires i < |list|
  {
    var a := list[i];
    && a in size && size[a] == ClassSize(c) && a in owner && owner[a] == Free(a)
    && a in words && words[a] == First(list[i + 1..])
  }

  ghost predicate Chain(owner: map<nat, Owner>, size: map<nat, nat>, words: map<nat, nat>, list: seq<nat>, c: nat) {
    forall i: nat :: i < |list| ==> OnList(owner, size, words, list, c, i)
  }

  ghost predicate Distinct(list: seq<nat>) {
    forall i: nat, j: nat :: i < j < |list| ==> list[i] != list[j]
  }

  ghost predicate GoodList(s: State, c: nat)
    requires c < |s.lists| == |s.heads|
  {
    && s.heads[c] == First(s.lists[c]) && Distinct(s.lists[c])
    && Chain(s.owner, s.size, s.words, s.lists[c], c)
  }

  ghost predicate GoodLists(s: State) {
    && |s.lists| == KLIST_MAX && |s.heads| == KLIST_MAX
    && (forall c: nat :: c < KLIST_MAX ==> GoodList(s, c))
  }

  ghost predicate Listed(lists: seq<seq<nat>>, page: nat, a: nat) {
    exists c: nat, i: nat :: c < |lists| && i < |lists[c]| && IsClass(page, c) && lists[c][i] == a
  }

  /** No free block is missing from the lists. */
  ghost predicate AllListed(s: State) {
    forall a :: a in s.owner && s.owner[a] == Free(a) ==> Listed(s.lists, s.page, a)
  }

  ghost predicate Inv(s: State) {
    && 512 <= s.page && NULL !in s.owner
    && Whole(s.owner, s.size) && Covered(s.owner, s.size)
    && Tails(s.owner, s.next, s.end) && Regions(s.owner, s.threads, s.page)
    && Threads(s.threads, s.page)
    && GoodLists(s) && AllListed(s)
    && |WastedBytes(s.owner)| == s.wasted
  }
}
