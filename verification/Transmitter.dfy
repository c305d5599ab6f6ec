/** se_start, se_tint, se_restart and se_init over the driver's own variables. */
module Transmitter {
  import opened TransmitRing

  /** net_write, the chip, a transmit interrupt, and se_restart with se_init. */
  datatype Event = Output(request: Request) | ChipMoves(moves: seq<Move>) | Interrupt(chip: seq<seq<Move>>) | Reset

  function Arrivals(events: seq<Event>): seq<Request> {
    if events == [] then []
    else
      var e := events[|events| - 1];
      Arrivals(events[..|events| - 1]) + if e.Output? then [e.request] else []
  }

  lemma ArrivalsStep(events: seq<Event>, e: nat)
    requires e < |events|
    ensures Arrivals(events[..e + 1]) == Arrivals(events[..e]) + if events[e].Output? then [events[e].request] else []
  {
    assert events[..e + 1][..e] == events[..e];
  }

  // ---- what the chip does ----

  /** The descriptors after the chip has given up some that it owned. */
  function Given(descs: seq<Desc>, moves: seq<Move>): (now: seq<Desc>)
    ensures |now| == |descs|
  {
    if moves == [] then descs
    else
      var before, m := Given(descs, moves[..|moves| - 1]), moves[|moves| - 1];
      if m.slot < |descs| && before[m.slot].own then before[m.slot := Desc(false, m.err, m.disable)] else before
  }

  lemma GivenStep(descs: seq<Desc>, moves: seq<Move>, m: nat)
    requires m < |moves|
    ensures Given(descs, moves[..m + 1]) == Given(Given(descs, moves[..m]), [moves[m]])
  {
    assert moves[..m + 1][..m] == moves[..m];
    assert [moves[m]][..0] == [];
  }

  /** A descriptor the chip does not own is not touched. */
  lemma {:induction false} GivenKeeps(descs: seq<Desc>, moves: seq<Move>, i: nat)
    requires i < |descs|
    ensures Given(descs, moves)[i] == descs[i] || (descs[i].own && !Given(descs, moves)[i].own)
  {
    if moves != [] {
      GivenKeeps(descs, moves[..|moves| - 1], i);
    }
  }

  lemma OwnsLess(descs: seq<Desc>, moves: seq<Move>, complete: nat, n: nat)
    requires OwnsOnly(descs, complete, n)
    ensures OwnsOnly(Given(descs, moves), complete, n)
  {
    forall k: nat | n <= k < NXMT ensures !Given(descs, moves)[Slot(complete, k)].own {
      GivenKeeps(descs, moves, Slot(complete, k));
    }
  }

  /** The descriptors after the chip's moves before the first n looks. */
  function Polled(descs: seq<Desc>, chip: seq<seq<Move>>, n: nat): (now: seq<Desc>)
    ensures |now| == |descs|
  {
    if n == 0 then descs
    else Given(Polled(descs, chip, n - 1), if n <= |chip| then chip[n - 1] else [])
  }

  /** The i-th look at the ring, at the i-th slot from the first. */
  function Look(descs: seq<Desc>, chip: seq<seq<Move>>, first: nat, i: nat): Desc
    requires |descs| == NXMT
  {
    Polled(descs, chip, i + 1)[Slot(first, i)]
  }

  class Interface {
    const tpkt: array<Request>
    const ring: array<Desc>
    /** IFF_LOOPBACK, and the tests with se_loopback_hack. */
    const loopback: bool
    const loopbackHack: bool
    /** xmt_complete, xmt_last and xmt_count */
    var complete: nat
    var last: nat
    var count: nat
    var running: bool
    /** LN_MODE_LOOP in the init block. */
    var loopMode: bool
    /** The send queue of the interface. */
    var queue: seq<Request>

    ghost var window: seq<Request>
    ghost var dequeued: seq<Request>
    ghost var finished: seq<Request>
    ghost var settled: nat

    ghost predicate Carrying()
      reads this`complete, this`last, this`count, this`window, tpkt, ring
      requires tpkt.Length == NXMT + 1 && ring.Length == NXMT
    {
      && count == |window| && Holds(tpkt[..NXMT], complete, window)
      && OwnsOnly(ring[..], complete, |window|) && last == Slot(complete, |window|)
    }

    ghost predicate Stopped()
      reads this`window, tpkt
      requires tpkt.Length == NXMT + 1
    {
      window == [] && forall i :: 0 <= i < NXMT ==> tpkt[i] == 0
    }

    ghost predicate Valid()
      reads this, tpkt, ring
    {
      && tpkt.Length == NXMT + 1 && ring.Length == NXMT
      && History(dequeued, finished, window, settled)
      && (forall i :: 0 <= i < |queue| ==> queue[i] != 0)
      && if running then Carrying() else Stopped()
    }

    constructor (loopback: bool, loopbackHack: bool)
      ensures Valid() && !running && queue == [] && dequeued == [] && finished == []
      ensures fresh(tpkt) && fresh(ring)
    {
      this.loopback, this.loopbackHack := loopback, loopbackHack;
      tpkt := new Request[NXMT + 1](_ => 0);
      ring := new Desc[NXMT](_ => Desc(false, false, false));
      complete, last, count, running, loopMode, queue := 0, 0, 0, false, false, [];
      window, dequeued, finished, settled := [], [], [], 0;
    }

    /** The chip is done with some descriptors it owns. */
    method Chip(moves: seq<Move>)
      requires Valid() && running
      modifies ring
      ensures Valid() && ring[..] == Given(old(ring[..]), moves)
    {
      ghost var before := ring[..];
      var m := 0;
      while m < |moves|
        invariant 0 <= m <= |moves| && ring[..] == Given(before, moves[..m])
        modifies ring
      {
        GivenStep(before, moves, m);
        MoveOne(moves[m]);
        m := m + 1;
      }
      assert moves[..m] == moves;
      OwnsLess(before, moves, complete, |window|);
    }

    method MoveOne(move: Move)
      requires ring.Length == NXMT
      modifies ring
      ensures ring[..] == Given(old(ring[..]), [move])
    {
      assert [move][..0] == [];
      if move.slot < NXMT && ring[move.slot].own {
        ring[move.slot] := Desc(false, move.err, move.disable);
      }
    }

    /** The first m requests of `all` have left the queue for the end of `now`. */
    ghost predicate Moved(all: seq<Request>, m: nat, rest: seq<Request>, from: seq<Request>, now: seq<Request>) {
      m <= |all| && rest == all[m..] && now == from + all[..m]
    }

    lemma OneMoves(all: seq<Request>, m: nat, rest: seq<Request>, from: seq<Request>, now: seq<Request>)
      requires Moved(all, m, rest, from, now) && rest != []
      ensures Moved(all, m + 1, rest[1..], from, now + [rest[0]])
    {}

    lemma HaveMoved(all: seq<Request>, m: nat, rest: seq<Request>, from: seq<Request>, now: seq<Request>)
      requires Moved(all, m, rest, from, now)
      ensures m <= |all| && rest == all[m..] && |rest| == |all| - m
      ensures now == from + all[..m] && |now| == |from| + m && now + rest == from + all
    {}

    /** se_start: requests go from the queue into the ring until one is empty or
        the other holds 15. */
    method Start()
      requires Valid() && running
      modifies tpkt, ring, this`last, this`count, this`queue, this`window, this`dequeued
      ensures Valid()
      ensures var k := if |old(queue)| < NXMT - 1 - |old(window)| then |old(queue)| else NXMT - 1 - |old(window)|;
        && k >= 0 && queue == old(queue)[k..]
        && window == old(window) + old(queue)[..k] && dequeued == old(dequeued) + old(queue)[..k]
      ensures dequeued + queue == old(dequeued + queue)
      ensures forall i :: 0 <= i < NXMT && old(ring[i]).own ==> ring[i].own
      ensures old(window) == [] && window != [] ==> ring[complete].own
    {
      Sanity();
      ghost var m: nat := 0;
      var index := last;
      HaveMoved(queue, m, queue, window, window);
      HaveMoved(queue, m, queue, dequeued, dequeued);
      hide Valid, Holds, OwnsOnly, History, Moved;
      while count < NXMT - 1
        invariant Valid() && running && index == last && ring.Length == NXMT
        invariant complete < NXMT && count == |window| < NXMT
        invariant Moved(old(queue), m, queue, old(window), window)
        invariant Moved(old(queue), m, queue, old(dequeued), dequeued)
        invariant forall i :: 0 <= i < NXMT && old(ring[i]).own ==> ring[i].own
        invariant old(window) == [] && window != [] ==> ring[complete].own
        modifies tpkt, ring, this`last, this`count, this`queue, this`window, this`dequeued
        decreases NXMT - count
      {
        if queue == [] {
          break;
        }
        OneMoves(old(queue), m, queue, old(window), window);
        OneMoves(old(queue), m, queue, old(dequeued), dequeued);
        m := m + 1;
        Feed(index);
        index := last;
      }
      HaveMoved(old(queue), m, queue, old(window), window);
      HaveMoved(old(queue), m, queue, old(dequeued), dequeued);
    }

    /** The first request of the queue goes into the ring. */
    method Feed(index: nat)
      requires Valid() && running && queue != [] && index == last && count < NXMT - 1
      modifies tpkt, ring, this`last, this`count, this`queue, this`window, this`dequeued
      ensures Valid() && count == |window| < NXMT && ring.Length == NXMT
      ensures old(queue) == [old(queue[0])] + queue
      ensures window == old(window) + [old(queue[0])] && dequeued == old(dequeued) + [old(queue[0])]
      ensures forall i :: 0 <= i < NXMT && old(ring[i]).own ==> ring[i].own
      ensures old(window) == [] ==> complete < NXMT && ring[complete].own
    {
      Sanity();
      hide Holds, OwnsOnly, History;
      var request := queue[0];
      queue := queue[1..];
      Give(index, request);
      last := (index + 1) % NXMT;
    }

    /** A request and the descriptor for it are handed to the chip. */
    method Give(index: nat, request: Request)
      requires tpkt.Length == NXMT + 1 && ring.Length == NXMT && index == last && request != 0
      requires Carrying() && count < NXMT - 1 && History(dequeued, finished, window, settled)
      modifies tpkt, ring, this`count, this`window, this`dequeued
      ensures count == |window| && Holds(tpkt[..NXMT], complete, window) && OwnsOnly(ring[..], complete, |window|)
      ensures index < NXMT && (index + 1) % NXMT == Slot(complete, |window|)
      ensures History(dequeued, finished, window, settled)
      ensures window == old(window) + [request] && dequeued == old(dequeued) + [request]
      ensures ring[..] == old(ring[..])[index := Desc(true, false, false)]
    {
      Added(tpkt[..NXMT], ring[..], complete, window, request);
      HistoryDequeues(dequeued, finished, window, settled, request);
      hide Holds, OwnsOnly, History, Slot;
      ghost var before, were := tpkt[..NXMT], ring[..];
      tpkt[index] := request;
      ring[index] := Desc(true, false, false);
      count := count + 1;
      window := window + [request];
      dequeued := dequeued + [request];
      assert tpkt[..NXMT] == before[index := request];
      assert ring[..] == were[index := Desc(true, false, false)];
    }

    /** The oldest request is done: its slot is released. */
    method Complete() returns (request: Request)
      requires Valid() && running && window != [] && !ring[complete].own
      modifies tpkt, this`complete, this`count, this`window, this`finished
      ensures Valid()
      ensures request == old(window)[0] != 0 && window == old(window)[1..] && finished == old(finished) + [request]
      ensures complete == (old(complete) + 1) % NXMT
    {
      Removed(tpkt[..NXMT], ring[..], complete, window);
      HistoryFinishes(dequeued, finished, window, settled);
      assert window[0] != 0;
      hide Holds, OwnsOnly, History, Slot;
      ghost var before := tpkt[..NXMT];
      var index := complete;
      request := tpkt[index];
      tpkt[index] := 0;
      complete := (index + 1) % NXMT;
      count := count - 1;
      finished := finished + [request];
      window := window[1..];
      assert tpkt[..NXMT] == before[index := 0];
    }

    /** An error that stops the transmitter. */
    predicate Fatal(d: Desc) {
      !loopbackHack && d.err && d.disable
    }

    /** The descriptors are those the handler finds at its looks, none of them
        owned by the chip. */
    ghost predicate AllSeen(before: seq<Desc>, first: nat, chip: seq<seq<Move>>, statuses: seq<Desc>) {
      |before| == NXMT && forall i: nat :: i < |statuses| ==>
        statuses[i] == Look(before, chip, first, i) && !statuses[i].own
    }

    /** A fatal descriptor is the last one, and the reason to restart. */
    ghost predicate FatalLast(statuses: seq<Desc>, restarted: bool) {
      && (forall i: nat :: i < |statuses| && Fatal(statuses[i]) ==> restarted && i == |statuses| - 1)
      && (restarted ==> statuses != [] && Fatal(statuses[|statuses| - 1]))
    }

    lemma OneMore(before: seq<Desc>, first: nat, chip: seq<seq<Move>>, statuses: seq<Desc>, status: Desc)
      requires AllSeen(before, first, chip, statuses) && FatalLast(statuses, false)
      requires status == Look(before, chip, first, |statuses|) && !status.own
      ensures AllSeen(before, first, chip, statuses + [status])
      ensures FatalLast(statuses + [status], Fatal(status))
    {}

    /** The ring is as it was but for the chip's moves before n looks. */
    ghost predicate After(before: seq<Desc>, chip: seq<seq<Move>>, n: nat)
      reads ring
    {
      |before| == NXMT == ring.Length && ring[..] == Polled(before, chip, n)
    }

    lemma LooksAt(before: seq<Desc>, chip: seq<seq<Move>>, first: nat, i: nat)
      requires After(before, chip, i + 1) && complete == Slot(first, i)
      ensures complete < NXMT && ring[complete] == Look(before, chip, first, i)
    {
      assert ring[..][complete] == ring[complete];
    }

    /** A request waits only while others are in flight: the ring is never empty
        with something queued. */
    ghost predicate Busy()
      reads this`window, this`queue
    {
      window == [] ==> queue == []
    }

    /** se_tint. Between two looks at the ring the chip makes the moves of one
        element of `chip`. The oldest requests `done` are finished; their
        descriptors were `statuses`. The driver restarts exactly after a fatal
        one, and else stops at a descriptor that the chip owns, or when the ring is
        empty, and then takes what is queued. */
    method TransmitInterrupt(chip: seq<seq<Move>>) returns (restarted: bool, ghost done: seq<Request>,
      ghost statuses: seq<Desc>)
      requires Valid() && running
      modifies this, tpkt, ring
      ensures Valid() && running && loopMode == (old(loopMode) || (restarted && loopback))
      ensures old(dequeued) <= dequeued && dequeued + queue == old(dequeued + queue)
      ensures |statuses| == |done| && done <= old(window) && old(finished) + done <= finished
      ensures AllSeen(old(ring[..]), old(complete), chip, statuses) && FatalLast(statuses, restarted)
      ensures !restarted ==> settled == old(settled) && finished == old(finished) + done
      ensures !restarted && |done| < |old(window)| ==>
        && After(old(ring[..]), chip, |done| + 1) && Look(old(ring[..]), chip, old(complete), |done|).own
        && old(window) == done + window && queue == old(queue) && dequeued == old(dequeued)
      ensures !restarted && |done| == |old(window)| ==> Refilled(old(queue))
      ensures !restarted && window != [] ==> ring[complete].own
      ensures Busy()
      ensures restarted ==> |old(dequeued)| <= settled
    {
      var own, fatal;
      own, fatal, done, statuses := Looks(chip);
      hide Holds, OwnsOnly, History, Slot, AllSeen, FatalLast, Fatal, After, Look, Polled;
      restarted := fatal;
      if fatal {
        Recover();
      } else if count <= 0 {
        Start();
      }
    }

    /** The loop of se_tint. */
    method Looks(chip: seq<seq<Move>>)
      returns (own: bool, fatal: bool, ghost done: seq<Request>, ghost statuses: seq<Desc>)
      requires Valid() && running
      modifies ring, tpkt, this`complete, this`count, this`window, this`finished
      ensures Valid() && running && (own ==> !fatal && complete < NXMT && ring[complete].own)
      ensures AllSeen(old(ring[..]), old(complete), chip, statuses) && FatalLast(statuses, fatal)
      ensures |statuses| == |done| && old(window) == done + window && finished == old(finished) + done
      ensures own ==> After(old(ring[..]), chip, |done| + 1) && Look(old(ring[..]), chip, old(complete), |done|).own
      ensures !own && !fatal ==> window == []
      ensures own ==> window != []
      ensures count == |window|
    {
      Begins(chip);
      InWindow();
      done, statuses := [], [];
      ghost var before, first, was, earlier := ring[..], complete, window, finished;
      hide Holds, OwnsOnly, History, Slot, AllSeen, FatalLast, Fatal, After, Look, Polled, Underway, Split, Valid;
      var poll := 0;
      own, fatal := false, false;
      while complete != last && count > 0
        invariant Valid() && running && (complete != last <==> count > 0) && count == |window| && poll == |done|
        invariant !own && !fatal && Underway(before, first, chip, was, earlier, done, statuses)
        decreases count
      {
        own, fatal, done, statuses := LookOnce(chip, poll, before, first, was, earlier, done, statuses);
        poll := poll + 1;
        if own || fatal {
          Splits(was, earlier, done);
          return;
        }
      }
      Parts(before, first, chip, was, earlier, done, statuses);
      Splits(was, earlier, done);
    }

    lemma Splits(was: seq<Request>, earlier: seq<Request>, done: seq<Request>)
      requires Split(was, done, window) && Split(finished, earlier, done)
      ensures was == done + window && finished == earlier + done
    {}

    ghost predicate Split(all: seq<Request>, front: seq<Request>, rest: seq<Request>) {
      all == front + rest
    }

    /** The oldest requests `done` are finished, and no descriptor was fatal. */
    ghost predicate Underway(before: seq<Desc>, first: nat, chip: seq<seq<Move>>, was: seq<Request>,
                             earlier: seq<Request>, done: seq<Request>, statuses: seq<Desc>)
      reads this`complete, this`window, this`finished, ring
    {
      && AllSeen(before, first, chip, statuses) && FatalLast(statuses, false) && After(before, chip, |done|)
      && |statuses| == |done| && first < NXMT && complete == Slot(first, |done|)
      && |was| < NXMT && Split(was, done, window) && Split(finished, earlier, done)
    }

    lemma Begins(chip: seq<seq<Move>>)
      requires Valid() && running
      ensures Underway(ring[..], complete, chip, window, finished, [], [])
    {
      InWindow();
    }

    /** One look at the ring: the chip still owns the descriptor, or one request is
        done, with a fatal descriptor or not. */
    method LookOnce(chip: seq<seq<Move>>, poll: nat, ghost before: seq<Desc>, ghost first: nat,
                    ghost was: seq<Request>, ghost earlier: seq<Request>, ghost done: seq<Request>,
                    ghost statuses: seq<Desc>)
      returns (own: bool, fatal: bool, ghost more: seq<Request>, ghost seen: seq<Desc>)
      requires Valid() && running && window != [] && poll == |done|
      requires Underway(before, first, chip, was, earlier, done, statuses)
      modifies ring, tpkt, this`complete, this`count, this`window, this`finished
      ensures Valid() && running && (complete != last <==> count > 0) && count == |window|
      ensures AllSeen(before, first, chip, seen) && FatalLast(seen, fatal) && |seen| == |more|
      ensures Split(was, more, window) && Split(finished, earlier, more)
      ensures own ==> more == done && !fatal && window != [] && complete < NXMT && ring[complete].own
      ensures own ==> After(before, chip, |more| + 1) && Look(before, chip, first, |more|).own
      ensures !own ==> |more| == |done| + 1 && |window| < |old(window)|
      ensures !own && !fatal ==> Underway(before, first, chip, was, earlier, more, seen)
    {
      Parts(before, first, chip, was, earlier, done, statuses);
      Sanity();
      hide Holds, OwnsOnly, History, AllSeen, FatalLast, Look, Polled, Fatal, After, Split, Slot, Valid;
      var status := LookAtNext(chip, poll, before, first);
      own, fatal, more, seen := status.own, false, done, statuses;
      if own {
        return;
      }
      NextSlot(first, poll);
      OneMore(before, first, chip, statuses, status);
      OneDone(was, done, window, earlier, finished);
      var request := Complete();
      Sanity();
      fatal, more, seen := Fatal(status), done + [request], statuses + [status];
    }

    lemma Parts(before: seq<Desc>, first: nat, chip: seq<seq<Move>>, was: seq<Request>, earlier: seq<Request>,
                done: seq<Request>, statuses: seq<Desc>)
      requires Underway(before, first, chip, was, earlier, done, statuses)
      ensures AllSeen(before, first, chip, statuses) && FatalLast(statuses, false) && After(before, chip, |done|)
      ensures |statuses| == |done| && first < NXMT && complete == Slot(first, |done|) && ring.Length == NXMT
      ensures |was| < NXMT && Split(was, done, window) && Split(finished, earlier, done)
    {}

    /** The chip may move, and the driver looks at the oldest descriptor. */
    method LookAtNext(chip: seq<seq<Move>>, poll: nat, ghost before: seq<Desc>, ghost first: nat) returns (status: Desc)
      requires Valid() && running && After(before, chip, poll) && complete == Slot(first, poll)
      modifies ring
      ensures Valid() && running && After(before, chip, poll + 1)
      ensures complete < NXMT && status == ring[complete] == Look(before, chip, first, poll)
    {
      Poll(chip, poll, before);
      LooksAt(before, chip, first, poll);
      status := ring[complete];
    }

    lemma OneDone(was: seq<Request>, done: seq<Request>, window: seq<Request>, earlier: seq<Request>,
                  finished: seq<Request>)
      requires Split(was, done, window) && Split(finished, earlier, done) && window != []
      ensures Split(was, done + [window[0]], window[1..]) && Split(finished + [window[0]], earlier, done + [window[0]])
    {}

    /** The ring was empty and holds the oldest requests of the queue. */
    ghost predicate Refilled(waiting: seq<Request>)
      reads this`window, this`queue
    {
      var k := if |waiting| < NXMT - 1 then |waiting| else NXMT - 1;
      window == waiting[..k] && queue == waiting[k..]
    }

    /** se_restart and se_init. */
    method Recover()
      requires Valid() && running
      modifies this, tpkt, ring
      ensures Valid() && running && loopMode == (old(loopMode) || loopback)
      ensures old(dequeued) <= dequeued && dequeued + queue == old(dequeued + queue)
      ensures old(finished) <= finished && |old(dequeued)| <= settled
      ensures Busy()
    {
      hide Holds, OwnsOnly, History, Slot;
      Restart();
      Init();
    }

    /** The chip moves, if it moves at all. */
    method Poll(chip: seq<seq<Move>>, poll: nat, ghost before: seq<Desc>)
      requires Valid() && running && After(before, chip, poll)
      modifies ring
      ensures Valid() && After(before, chip, poll + 1)
    {
      hide Given;
      Chip(if poll < |chip| then chip[poll] else []);
    }

    lemma InWindow()
      requires Valid() && running
      ensures complete != last <==> count > 0
      ensures count == |window| < NXMT && complete < NXMT && complete == Slot(complete, 0)
    {
      TestsAgree(complete, count);
    }

    lemma Sanity()
      requires Valid() && running
      ensures complete != last <==> count > 0
      ensures count == |window| && complete < NXMT && ring.Length == NXMT
    {
      TestsAgree(complete, count);
    }

    /** se_restart: whatever is in the ring is finished, slot by slot. */
    method Restart()
      requires Valid()
      modifies tpkt, this`running, this`window, this`finished, this`settled
      ensures Valid() && !running
      ensures old(finished) <= finished && multiset(finished) == multiset(dequeued)
      ensures settled == |dequeued| == |finished|
    {
      FoundAtRestart();
      hide Holds, OwnsOnly, History, Requests;
      running := false;
      ghost var done := FinishAll();
      Settle(done);
    }

    /** Everything dequeued is finished. */
    ghost method Settle(done: seq<Request>)
      requires tpkt.Length == NXMT + 1 && ring.Length == NXMT && History(dequeued, finished, window, settled)
      requires multiset(done) == multiset(window)
      modifies this`window, this`finished, this`settled
      ensures window == [] && History(dequeued, finished, window, settled)
      ensures old(finished) <= finished && multiset(finished) == multiset(dequeued)
      ensures settled == |dequeued| == |finished|
    {
      AllSettled(dequeued, finished, window, settled, done);
      hide History;
      finished := finished + done;
      window := [];
      settled := |dequeued|;
    }

    method FinishAll() returns (ghost done: seq<Request>)
      requires tpkt.Length == NXMT + 1
      modifies tpkt
      ensures forall j :: 0 <= j < NXMT ==> tpkt[j] == 0
      ensures done == Requests(old(tpkt[..NXMT]))
    {
      ghost var before := tpkt[..NXMT];
      assert before[0..] == before;
      done := [];
      assert Found(before, 0, done);
      hide Requests, Found;
      var i := 0;
      while i < NXMT
        invariant 0 <= i <= NXMT && Found(before, i, done)
        invariant forall j :: i <= j < NXMT ==> tpkt[j] == before[j]
        invariant forall j :: 0 <= j < i ==> tpkt[j] == 0
        modifies tpkt
      {
        done := FoundNext(before, i, done);
        if tpkt[i] != 0 {
          tpkt[i] := 0;
        }
        i := i + 1;
      }
      AllFound(before, done);
    }

    /** The requests in the first i slots. */
    ghost predicate Found(slots: seq<Request>, i: nat, done: seq<Request>) {
      i <= |slots| && Requests(slots) == done + Requests(slots[i..])
    }

    lemma FoundNext(slots: seq<Request>, i: nat, done: seq<Request>) returns (more: seq<Request>)
      requires i < |slots| && Found(slots, i, done)
      ensures Found(slots, i + 1, more)
    {
      RequestsStep(slots, i);
      more := done + if slots[i] != 0 then [slots[i]] else [];
    }

    lemma AllFound(slots: seq<Request>, done: seq<Request>)
      requires Found(slots, |slots|, done)
      ensures done == Requests(slots)
    {
      NoRequests(slots[|slots|..]);
    }

    lemma FoundAtRestart()
      requires Valid()
      ensures multiset(Requests(tpkt[..NXMT])) == multiset(window)
    {
      if running {
        RestartFindsWindow(tpkt[..NXMT], complete, window);
      } else {
        RequestsOfWindow(tpkt[..NXMT], []);
      }
    }

    /** Anything that can happen to a running interface, in any order. */
    method Drive(events: seq<Event>)
      requires Valid() && running
      requires forall e :: 0 <= e < |events| && events[e].Output? ==> events[e].request != 0
      modifies this, tpkt, ring
      ensures Valid() && running
      ensures dequeued + queue == old(dequeued + queue) + Arrivals(events)
      ensures multiset(dequeued) == multiset(finished) + multiset(window) && |window| < NXMT
      ensures settled <= |dequeued| && settled <= |finished| && dequeued[settled..] == finished[settled..] + window
      ensures old(Busy()) ==> Busy()
    {
      hide Holds, OwnsOnly, History;
      var e := 0;
      while e < |events|
        invariant 0 <= e <= |events| && Valid() && running
        invariant dequeued + queue == old(dequeued + queue) + Arrivals(events[..e])
        invariant old(Busy()) ==> Busy()
      {
        match events[e] {
          case Output(request) =>
            assert dequeued + (queue + [request]) == dequeued + queue + [request];
            queue := queue + [request];
            Start();
          case ChipMoves(moves) => Chip(moves);
          case Interrupt(chip) => var _, _, _ := TransmitInterrupt(chip);
          case Reset => Restart(); Init();
        }
        ArrivalsStep(events, e);
        e := e + 1;
      }
      assert events[..|events|] == events;
      NoneLostOrDoubled(dequeued, finished, window, settled);
      Sanity();
      Bounded();
      InOrder();
    }

    /** Since the last restart requests are finished in the order they were dequeued. */
    lemma InOrder()
      requires Valid()
      ensures settled <= |dequeued| && settled <= |finished| && dequeued[settled..] == finished[settled..] + window
    {}

    lemma Bounded()
      requires Valid() && running
      ensures |window| < NXMT
    {}

    lemma NothingInFlight()
      requires Valid() && !running
      ensures |finished| == |dequeued|
    {
      assert |dequeued[settled..]| == |finished[settled..]|;
    }

    /** se_init: the ring starts anew and takes what is queued. */
    method Init()
      requires Valid()
      modifies this, tpkt, ring
      ensures Valid() && running && finished == old(finished) && dequeued + queue == old(dequeued + queue)
      ensures old(running) ==>
        && window == old(window) && dequeued == old(dequeued) && queue == old(queue)
        && settled == old(settled) && loopMode == old(loopMode)
      ensures !old(running) ==>
        var k := if |old(queue)| < NXMT - 1 then |old(queue)| else NXMT - 1;
        && window == old(queue)[..k] && queue == old(queue)[k..] && dequeued == old(dequeued) + window
        && loopMode == (old(loopMode) || loopback) && Busy()
      ensures !old(running) ==> settled == old(settled) || settled == |old(dequeued)|
      decreases !loopMode
    {
      hide Holds, History;
      if running {
        return;
      }
      var i := 0;
      while i < NXMT
        invariant 0 <= i <= NXMT && forall j :: 0 <= j < i ==> !ring[j].own
        modifies ring
      {
        ring[i] := Desc(false, false, false);
        i := i + 1;
      }
      count, complete, last := 0, 0, 0;
      if loopback && !loopMode {
        loopMode := true;
        NothingInFlight();
        Restart();
        Init();
        return;
      }
      AllClear(tpkt[..NXMT], ring[..]);
      running := true;
      Start();
    }
  }

  lemma AllSettled(dequeued: seq<Request>, finished: seq<Request>, window: seq<Request>, settled: nat,
    rest: seq<Request>)
    requires History(dequeued, finished, window, settled) && multiset(rest) == multiset(window)
    ensures |dequeued| == |finished + rest| && History(dequeued, finished + rest, [], |dequeued|)
    ensures multiset(finished + rest) == multiset(dequeued)
  {
    HistoryRestarts(dequeued, finished, window, settled, rest);
    NoneLostOrDoubled(dequeued, finished + rest, [], |dequeued|);
  }

  lemma RequestsStep(slots: seq<Request>, i: nat)
    requires i < |slots|
    ensures Requests(slots[i..]) == (if slots[i] == 0 then [] else [slots[i]]) + Requests(slots[i + 1..])
  {
    assert slots[i..][0] == slots[i] && slots[i..][1..] == slots[i + 1..];
  }

  lemma NoRequests(slots: seq<Request>)
    requires slots == []
    ensures Requests(slots) == []
  {}

  lemma AllClear(tpkt: seq<Request>, ring: seq<Desc>)
    requires |tpkt| == NXMT && |ring| == NXMT
    requires forall i :: 0 <= i < NXMT ==> tpkt[i] == 0 && !ring[i].own
    ensures Holds(tpkt, 0, []) && OwnsOnly(ring, 0, 0) && Slot(0, 0) == 0
  {}
}
