/** The transmit side of the LANCE driver (kernel/chips/lance.c): a ring of
    descriptors shared with the chip, the requests they carry, and the restarts
    that some errors force. */
module TransmitRing {

  const NXMT: nat := 16

  /** A request; 0 is none. */
  type Request = nat

  /** The bits of a descriptor the driver looks at: LN_TSTATE_OWN, LN_TSTATE_ERR
      and LN_TSTATE2_DISABLE. */
  datatype Desc = Desc(own: bool, err: bool, disable: bool)

  /** What the chip writes into a descriptor it is done with. */
  datatype Move = Move(slot: nat, err: bool, disable: bool)

  function Slot(complete: nat, k: nat): (i: nat)
    ensures i < NXMT
  {
    (complete + k) % NXMT
  }

  /** Slots from `complete` on hold the window in order, the others nothing. */
  ghost predicate Holds(tpkt: seq<Request>, complete: nat, window: seq<Request>) {
    && |tpkt| == NXMT && complete < NXMT && |window| < NXMT
    && (forall k: nat :: k < NXMT ==> tpkt[Slot(complete, k)] == if k < |window| then window[k] else 0)
    && (forall k: nat :: k < |window| ==> window[k] != 0)
  }

  /** The chip owns slots of the window only. */
  ghost predicate OwnsOnly(descs: seq<Desc>, complete: nat, n: nat) {
    |descs| == NXMT && forall k: nat :: n <= k < NXMT ==> !descs[Slot(complete, k)].own
  }

  lemma SlotCases(complete: nat, k: nat)
    requires complete < NXMT && k <= NXMT
    ensures Slot(complete, k) == if complete + k < NXMT then complete + k else complete + k - NXMT
  {}

  lemma SlotsDiffer(complete: nat, j: nat, k: nat)
    requires complete < NXMT && j < k < NXMT
    ensures Slot(complete, j) != Slot(complete, k)
  {
    SlotCases(complete, j);
    SlotCases(complete, k);
    hide Slot;
  }

  /** With at most 15 requests in the ring, the two tests of the loop in se_tint
      say the same. */
  lemma TestsAgree(complete: nat, n: nat)
    requires complete < NXMT
    ensures n < NXMT ==> (Slot(complete, n) != complete <==> n > 0)
    ensures Slot(complete, NXMT) == complete
  {}

  // ---- the ring as values ----

  lemma Added(tpkt: seq<Request>, descs: seq<Desc>, complete: nat, window: seq<Request>, r: Request)
    requires Holds(tpkt, complete, window) && OwnsOnly(descs, complete, |window|) && |window| < NXMT - 1 && r != 0
    ensures var last := Slot(complete, |window|); var d := Desc(true, false, false);
      && Holds(tpkt[last := r], complete, window + [r])
      && OwnsOnly(descs[last := d], complete, |window| + 1)
      && Slot(complete, |window| + 1) == (last + 1) % NXMT
  {
    var last := Slot(complete, |window|);
    forall k: nat | k < NXMT && k != |window| ensures Slot(complete, k) != last {
      SlotsDiffer(complete, if k < |window| then k else |window|, if k < |window| then |window| else k);
    }
    hide Slot;
    assert Slot(complete, |window| + 1) == (last + 1) % NXMT by { NextSlot(complete, |window|); }
  }

  lemma NextSlot(complete: nat, k: nat)
    requires complete < NXMT && k < NXMT
    ensures Slot(complete, k + 1) == (Slot(complete, k) + 1) % NXMT
    ensures Slot((complete + 1) % NXMT, k) == Slot(complete, k + 1)
  {
    SlotCases(complete, k);
    SlotCases(complete, k + 1);
    SlotCases((complete + 1) % NXMT, k);
    hide Slot;
  }

  lemma Removed(tpkt: seq<Request>, descs: seq<Desc>, complete: nat, window: seq<Request>)
    requires Holds(tpkt, complete, window) && OwnsOnly(descs, complete, |window|) && window != []
    requires !descs[complete].own
    ensures tpkt[complete] == window[0]
    ensures var next := (complete + 1) % NXMT;
      && Holds(tpkt[complete := 0], next, window[1..])
      && OwnsOnly(descs, next, |window| - 1)
      && Slot(next, |window| - 1) == Slot(complete, |window|)
  {
    var next := (complete + 1) % NXMT;
    var now := tpkt[complete := 0];
    SlotCases(complete, 0);
    SlotCases(complete, NXMT);
    hide Slot;
    forall k: nat | k < NXMT ensures
      now[Slot(next, k)] == (if k < |window| - 1 then window[1..][k] else 0) &&
        (k >= |window| - 1 ==> !descs[Slot(next, k)].own)
    {
      NextSlot(complete, k);
      if k + 1 < NXMT { SlotsDiffer(complete, 0, k + 1); }
    }
    NextSlot(complete, |window| - 1);
  }

  // ---- the requests found by se_restart ----

  /** The requests in slots, in slot order. */
  function Requests(slots: seq<Request>): seq<Request> {
    if slots == [] then [] else (if slots[0] == 0 then [] else [slots[0]]) + Requests(slots[1..])
  }

  lemma {:induction false} RequestsParts(s: seq<Request>, t: seq<Request>)
    ensures Requests(s + t) == Requests(s) + Requests(t)
  {
    if s == [] {
      assert s + t == t;
    } else {
      assert (s + t)[1..] == s[1..] + t;
      RequestsParts(s[1..], t);
    }
  }

  lemma {:induction false} RequestsOfWindow(slots: seq<Request>, window: seq<Request>)
    requires |window| <= |slots|
    requires forall k: nat :: k < |slots| ==> slots[k] == if k < |window| then window[k] else 0
    requires forall k: nat :: k < |window| ==> window[k] != 0
    ensures Requests(slots) == window
  {
    if slots != [] {
      if window == [] {
        RequestsOfWindow(slots[1..], []);
      } else {
        RequestsOfWindow(slots[1..], window[1..]);
      }
    }
  }

  function Rotated(tpkt: seq<Request>, complete: nat): (r: seq<Request>)
    requires complete <= |tpkt|
    ensures |r| == |tpkt|
  {
    tpkt[complete..] + tpkt[..complete]
  }

  lemma RotatedAt(tpkt: seq<Request>, complete: nat, k: nat)
    requires |tpkt| == NXMT && complete < NXMT && k < NXMT
    ensures Rotated(tpkt, complete)[k] == tpkt[Slot(complete, k)]
  {
    SlotCases(complete, k);
    hide Slot;
  }

  lemma RotationKeepsRequests(tpkt: seq<Request>, complete: nat)
    requires complete <= |tpkt|
    ensures multiset(Requests(Rotated(tpkt, complete))) == multiset(Requests(tpkt))
  {
    hide Requests;
    EitherOrder(tpkt[..complete], tpkt[complete..]);
    assert tpkt == tpkt[..complete] + tpkt[complete..];
  }

  lemma EitherOrder(low: seq<Request>, high: seq<Request>)
    ensures multiset(Requests(high + low)) == multiset(Requests(low + high))
  {
    hide Requests;
    RequestsParts(high, low);
    RequestsParts(low, high);
    SameMembers(Requests(low), Requests(high));
  }

  lemma SameMembers(s: seq<Request>, t: seq<Request>)
    ensures multiset(s + t) == multiset(t + s)
  {
    assert multiset(s + t) == multiset(s) + multiset(t) && multiset(t + s) == multiset(t) + multiset(s);
  }

  /** Slot by slot, exactly the requests of the window are found, whichever slot
      it starts at. */
  lemma RestartFindsWindow(tpkt: seq<Request>, complete: nat, window: seq<Request>)
    requires Holds(tpkt, complete, window)
    ensures multiset(Requests(tpkt)) == multiset(window)
  {
    hide Slot, Rotated, Requests;
    var slots := Rotated(tpkt, complete);
    forall k: nat | k < NXMT ensures slots[k] == if k < |window| then window[k] else 0 {
      RotatedAt(tpkt, complete, k);
    }
    hide Holds;
    RequestsOfWindow(slots, window);
    RotationKeepsRequests(tpkt, complete);
  }

  // ---- history ----

  /** What was dequeued before the last restart has been finished, each request
      once; since then requests are finished in the order they were dequeued. */
  ghost predicate History(dequeued: seq<Request>, finished: seq<Request>, window: seq<Request>, settled: nat) {
    && settled <= |dequeued| && settled <= |finished|
    && multiset(dequeued[..settled]) == multiset(finished[..settled])
    && dequeued[settled..] == finished[settled..] + window
  }

  /** In all, every dequeued request is finished once or still in the ring. */
  lemma NoneLostOrDoubled(dequeued: seq<Request>, finished: seq<Request>, window: seq<Request>, settled: nat)
    requires History(dequeued, finished, window, settled)
    ensures multiset(dequeued) == multiset(finished) + multiset(window)
  {
    assert dequeued == dequeued[..settled] + dequeued[settled..];
    assert finished == finished[..settled] + finished[settled..];
  }

  lemma HistoryDequeues(dequeued: seq<Request>, finished: seq<Request>, window: seq<Request>, settled: nat, r: Request)
    requires History(dequeued, finished, window, settled)
    ensures History(dequeued + [r], finished, window + [r], settled)
  {
    assert (dequeued + [r])[..settled] == dequeued[..settled];
    assert (dequeued + [r])[settled..] == dequeued[settled..] + [r];
    assert finished[settled..] + window + [r] == finished[settled..] + (window + [r]);
  }

  lemma HistoryFinishes(dequeued: seq<Request>, finished: seq<Request>, window: seq<Request>, settled: nat)
    requires History(dequeued, finished, window, settled) && window != []
    ensures History(dequeued, finished + [window[0]], window[1..], settled)
  {
    var now := finished + [window[0]];
    assert now[..settled] == finished[..settled] && now[settled..] == finished[settled..] + [window[0]];
    assert window == [window[0]] + window[1..];
  }

  lemma HistoryRestarts(dequeued: seq<Request>, finished: seq<Request>, window: seq<Request>, settled: nat,
    rest: seq<Request>)
    requires History(dequeued, finished, window, settled) && multiset(rest) == multiset(window)
    ensures |dequeued| == |finished + rest| && History(dequeued, finished + rest, [], |dequeued|)
  {
    NoneLostOrDoubled(dequeued, finished, window, settled);
    assert |multiset(finished + rest)| == |multiset(dequeued)|;
    assert dequeued[..|dequeued|] == dequeued && (finished + rest)[..|dequeued|] == finished + rest;
  }
}
