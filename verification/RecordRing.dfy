/** The record side of the audio driver (kernel/chips/audio.c): samples that
    interrupts put into a ring while a reader takes them out. An interrupt may
    come between any two of the reader's accesses. */
module RecordRing {

  type Byte = x: int | 0 <= x < 256

  /** AUCB_SIZE, and the largest block size audio_setinfo allows. */
  const AUCB_SIZE: nat := 4096
  const MAXBLKSIZE: nat := 2048

  /** AUCB_MOD */
  function Mod(k: int): (i: nat)
    ensures i < AUCB_SIZE
  {
    k % AUCB_SIZE
  }

  /** D_SUCCESS, D_WOULD_BLOCK; a reader that is still asleep has no code. */
  datatype Outcome = Success | WouldBlock | Asleep

  /** Samples number `taken` and later lie in the ring in order. */
  ghost predicate Buffered(data: seq<Byte>, head: nat, tail: nat, accepted: seq<Byte>, taken: nat) {
    && |data| == AUCB_SIZE && taken <= |accepted| < taken + AUCB_SIZE
    && head == Mod(taken) && tail == Mod(|accepted|)
    && forall k: nat :: taken <= k < |accepted| ==> data[Mod(k)] == accepted[k]
  }

  lemma ModsDiffer(j: nat, k: nat)
    requires j < k < j + AUCB_SIZE
    ensures Mod(j) != Mod(k)
  {
    assert j / AUCB_SIZE * AUCB_SIZE + Mod(j) == j && k / AUCB_SIZE * AUCB_SIZE + Mod(k) == k;
  }

  lemma ModSteps(k: nat, n: nat)
    ensures Mod(Mod(k) + n) == Mod(k + n)
    ensures Mod(Mod(k + n) - Mod(k)) == Mod(n)
  {
    var q := k / AUCB_SIZE;
    assert k == q * AUCB_SIZE + Mod(k);
    var p := (k + n) / AUCB_SIZE;
    assert k + n == p * AUCB_SIZE + Mod(k + n);
    SameMod(Mod(k) + n, k + n, q);
    SameMod(Mod(k + n) - Mod(k), n, p - q);
  }

  lemma SameMod(a: int, b: int, q: int)
    requires b == a + q * AUCB_SIZE
    ensures Mod(a) == Mod(b)
  {
    var x, y := a / AUCB_SIZE, b / AUCB_SIZE;
    assert a == x * AUCB_SIZE + Mod(a) && b == y * AUCB_SIZE + Mod(b);
    assert (y - x - q) * AUCB_SIZE == Mod(a) - Mod(b);
  }

  /** AUCB_LEN is the number of samples buffered; the ring is full exactly when
      the place after the tail is the head. */
  lemma LengthAndFull(taken: nat, n: nat)
    requires taken <= n < taken + AUCB_SIZE
    ensures Mod(Mod(n) - Mod(taken)) == n - taken
    ensures Mod(Mod(n) + 1) == Mod(taken) <==> n - taken == AUCB_SIZE - 1
  {
    ModSteps(taken, n - taken);
    ModSteps(n, 1);
    if n - taken < AUCB_SIZE - 1 {
      ModsDiffer(taken, n + 1);
    } else {
      SameMod(taken, n + 1, 1);
    }
  }

  /** A sample is stored where none of the buffered ones is. */
  lemma Stored(data: seq<Byte>, head: nat, tail: nat, accepted: seq<Byte>, taken: nat, s: Byte)
    requires Buffered(data, head, tail, accepted, taken) && |accepted| - taken < AUCB_SIZE - 1
    ensures Buffered(data[tail := s], head, Mod(tail + 1), accepted + [s], taken)
    ensures forall k: nat :: taken <= k < |accepted| ==> Mod(k) != tail
  {
    ModSteps(|accepted|, 1);
    forall k: nat | taken <= k < |accepted| ensures Mod(k) != tail {
      ModsDiffer(k, |accepted|);
    }
  }

  // ---- what readers see, with all interrupts given ----

  /** The samples taken into the ring so far, how many of them readers have had,
      and cb_pause. */
  datatype Ring = Ring(accepted: seq<Byte>, taken: nat, pause: bool)

  /** How many samples are buffered. */
  function Held(r: Ring): int {
    |r.accepted| - r.taken
  }

  /** Of n samples, those that fit are taken into the ring; none while it is paused. */
  function Fitting(r: Ring, n: nat): (m: nat)
    ensures m <= n
  {
    if r.pause || Held(r) >= AUCB_SIZE - 1 then 0
    else if Held(r) + n <= AUCB_SIZE - 1 then n
    else AUCB_SIZE - 1 - Held(r)
  }

  /** Some more samples have come. */
  predicate Later(r: Ring, t: Ring) {
    t.taken == r.taken && t.pause == r.pause && r.accepted <= t.accepted
  }

  function Arrive(r: Ring, samples: seq<Byte>): (now: Ring)
    ensures Later(r, now)
  {
    r.(accepted := r.accepted + samples[..Fitting(r, |samples|)])
  }

  lemma ArriveOne(r: Ring, samples: seq<Byte>, i: nat)
    requires i < |samples|
    ensures Arrive(Arrive(r, samples[..i]), [samples[i]]) == Arrive(r, samples[..i + 1])
  {
    var m := Fitting(r, i);
    assert samples[..i][..m] == samples[..m];
    assert samples[..i + 1][..Fitting(r, i + 1)] == samples[..Fitting(r, i + 1)];
    assert m == i ==> samples[..i] + [samples[i]] == samples[..i + 1];
  }

  /** The interrupts before access number `now` of the reader. */
  function Samples(schedule: seq<seq<Byte>>, now: nat): seq<Byte> {
    if now < |schedule| then schedule[now] else []
  }

  function AfterTick(r: Ring, schedule: seq<seq<Byte>>, now: nat): (t: Ring)
    ensures Later(r, t)
  {
    Arrive(r, Samples(schedule, now))
  }

  function AfterTicks(r: Ring, schedule: seq<seq<Byte>>, now: nat, n: nat): (t: Ring)
    ensures Later(r, t)
  {
    if n == 0 then r else AfterTick(AfterTicks(r, schedule, now, n - 1), schedule, now + n - 1)
  }

  lemma NoTicks(r: Ring, schedule: seq<seq<Byte>>, now: nat)
    ensures AfterTicks(r, schedule, now, 0) == r
  {}

  lemma TicksStep(r: Ring, schedule: seq<seq<Byte>>, now: nat, n: nat)
    ensures AfterTicks(r, schedule, now, n + 1) == AfterTick(AfterTicks(r, schedule, now, n), schedule, now + n)
  {
    hide AfterTick;
  }

  datatype Waiting = Waiting(rc: Outcome, ring: Ring, now: nat)

  /** The loop of audio_read that waits for a block: the test, and then, with
      interrupts between, the refusal or the sleep. */
  function Waited(r: Ring, blocksize: nat, noDelay: bool, schedule: seq<seq<Byte>>, now: nat): (w: Waiting)
    ensures Later(r, w.ring)
    ensures w.rc == Success ==> Held(w.ring) >= blocksize
    ensures w.rc != Success ==> Held(r) < blocksize && (noDelay <==> w.rc == WouldBlock)
  {
    var tested := AfterTick(r, schedule, now);
    if Held(tested) >= blocksize then Waiting(Success, tested, now + 1)
    else
      var later := AfterTick(tested, schedule, now + 1);
      if noDelay then Waiting(WouldBlock, later, now + 2) else Slept(later, blocksize, schedule, now + 2)
  }

  /** The reader sleeps until an interrupt finds a block. */
  function Slept(r: Ring, blocksize: nat, schedule: seq<seq<Byte>>, now: nat): (w: Waiting)
    ensures Later(r, w.ring)
    ensures w.rc == if w.rc == Success then Success else Asleep
    ensures w.rc == Success ==> Held(w.ring) >= blocksize
    decreases if now < |schedule| then |schedule| - now else 0
  {
    if now >= |schedule| then Waiting(Asleep, r, now)
    else
      var next := AfterTick(r, schedule, now);
      if schedule[now] != [] && Held(next) >= blocksize then Waiting(Success, next, now + 1)
      else Slept(next, blocksize, schedule, now + 1)
  }

  /** audio_read of `residual` bytes. */
  function Reading(r: Ring, residual: nat, blocksize: nat, noDelay: bool, schedule: seq<seq<Byte>>, now: nat): Waiting
    requires 0 < blocksize
    decreases residual
  {
    var w := Waited(r, blocksize, noDelay, schedule, now);
    if w.rc != Success then w
    else
      var before := AfterTick(w.ring, schedule, w.now);
      var n := if Held(before) > residual then residual else Held(before);
      var copied := AfterTicks(before, schedule, w.now + 1, n + 1).(taken := r.taken + n);
      var end := w.now + n + 2;
      if residual - n < blocksize then Waiting(Success, copied, end)
      else Reading(copied, residual - n, blocksize, noDelay, schedule, end)
  }

  lemma ReadingEnds(r: Ring, residual: nat, blocksize: nat, noDelay: bool, schedule: seq<seq<Byte>>, now: nat)
    requires 0 < blocksize && Waited(r, blocksize, noDelay, schedule, now).rc != Success
    ensures Reading(r, residual, blocksize, noDelay, schedule, now) == Waited(r, blocksize, noDelay, schedule, now)
  {
    hide Waited, AfterTick, AfterTicks;
  }

  /** One round of it. */
  lemma ReadingRound(r: Ring, residual: nat, blocksize: nat, noDelay: bool, schedule: seq<seq<Byte>>, now: nat,
    n: nat, copied: Ring)
    requires 0 < blocksize && Waited(r, blocksize, noDelay, schedule, now).rc == Success
    requires var w := Waited(r, blocksize, noDelay, schedule, now); var before := AfterTick(w.ring, schedule, w.now);
      && n == (if Held(before) > residual then residual else Held(before))
      && copied == AfterTicks(before, schedule, w.now + 1, n + 1).(taken := r.taken + n)
    ensures residual - n < blocksize ==>
      Reading(r, residual, blocksize, noDelay, schedule, now)
        == Waiting(Success, copied, Waited(r, blocksize, noDelay, schedule, now).now + n + 2)
    ensures residual - n >= blocksize ==>
      Reading(r, residual, blocksize, noDelay, schedule, now)
        == Reading(copied, residual - n, blocksize, noDelay, schedule,
                   Waited(r, blocksize, noDelay, schedule, now).now + n + 2)
  {
    hide Waited, AfterTick, AfterTicks;
  }

  /** The round gives all that is asked for or at least a block. */
  lemma OneRound(r: Ring, residual: nat, blocksize: nat, noDelay: bool, schedule: seq<seq<Byte>>, now: nat)
    returns (n: nat, copied: Ring, end: nat)
    requires 0 < blocksize && Waited(r, blocksize, noDelay, schedule, now).rc == Success
    ensures n <= residual && (n == residual || n >= blocksize) && (n == residual || |r.accepted| <= r.taken + n)
    ensures r.accepted <= copied.accepted && copied.taken == r.taken + n && copied.pause == r.pause
    ensures residual - n < blocksize ==>
      Reading(r, residual, blocksize, noDelay, schedule, now) == Waiting(Success, copied, end)
    ensures residual - n >= blocksize ==>
      Reading(r, residual, blocksize, noDelay, schedule, now)
        == Reading(copied, residual - n, blocksize, noDelay, schedule, end)
  {
    hide Waited, Slept, AfterTick, AfterTicks, Arrive, Reading;
    var w := Waited(r, blocksize, noDelay, schedule, now);
    var before := AfterTick(w.ring, schedule, w.now);
    n := if Held(before) > residual then residual else Held(before);
    copied := AfterTicks(before, schedule, w.now + 1, n + 1).(taken := r.taken + n);
    end := w.now + n + 2;
    ReadingRound(r, residual, blocksize, noDelay, schedule, now, n, copied);
  }

  /** The call gives no more than asked for and, unless it is refused or sleeps,
      leaves less than a block. If it gives anything but not all, it gives at least
      what was buffered before the call. A reader is refused or sleeps only if all that was
      buffered before the call left it less than a block. */
  ghost predicate Gives(r: Ring, residual: nat, blocksize: nat, noDelay: bool, w: Waiting) {
    var given := w.ring.taken - r.taken;
    && 0 <= given <= residual && r.accepted <= w.ring.accepted && w.ring.pause == r.pause
    && (given == 0 || given == residual || |r.accepted| <= w.ring.taken)
    && (w.rc == Success ==> residual - given < blocksize && (residual <= blocksize ==> given == residual))
    && (w.rc != Success ==> |r.accepted| - w.ring.taken < blocksize && (noDelay <==> w.rc == WouldBlock))
  }

  lemma {:induction false} ReadingGives(r: Ring, residual: nat, blocksize: nat, noDelay: bool, schedule: seq<seq<Byte>>,
    now: nat)
    requires 0 < blocksize
    ensures Gives(r, residual, blocksize, noDelay, Reading(r, residual, blocksize, noDelay, schedule, now))
    decreases residual
  {
    if Waited(r, blocksize, noDelay, schedule, now).rc == Success {
      var n, copied, end := OneRound(r, residual, blocksize, noDelay, schedule, now);
      hide Waited, Reading, Gives;
      if residual - n >= blocksize {
        ReadingGives(copied, residual - n, blocksize, noDelay, schedule, end);
        GivesMore(r, copied, residual, n, blocksize, noDelay,
          Reading(copied, residual - n, blocksize, noDelay, schedule, end));
      } else {
        GivesLast(r, copied, residual, n, blocksize, noDelay, end);
      }
    } else {
      ReadingEnds(r, residual, blocksize, noDelay, schedule, now);
    }
  }

  lemma GivesMore(r: Ring, copied: Ring, residual: nat, n: nat, blocksize: nat, noDelay: bool, w: Waiting)
    requires r.accepted <= copied.accepted && copied.taken == r.taken + n && copied.pause == r.pause
    requires 0 < n && |r.accepted| <= copied.taken && 0 < blocksize <= residual - n
    requires Gives(copied, residual - n, blocksize, noDelay, w)
    ensures Gives(r, residual, blocksize, noDelay, w)
  {}

  lemma GivesLast(r: Ring, copied: Ring, residual: nat, n: nat, blocksize: nat, noDelay: bool, now: nat)
    requires r.accepted <= copied.accepted && copied.taken == r.taken + n && copied.pause == r.pause
    requires n <= residual < n + blocksize && (residual <= blocksize ==> n == residual)
    requires n == residual || |r.accepted| <= copied.taken
    ensures Gives(r, residual, blocksize, noDelay, Waiting(Success, copied, now))
  {}

  // ---- when a reader can be left waiting for what is there ----

  /** Whatever the interrupts do, the wait never ends refused or asleep with a
      block buffered. */
  ghost predicate WaitsWell(r: Ring, blocksize: nat, noDelay: bool, now: nat) {
    forall schedule: seq<seq<Byte>> ::
      var w := Waited(r, blocksize, noDelay, schedule, now); w.rc != Success ==> Held(w.ring) < blocksize
  }

  /** That is so exactly while recording is paused or a block is there already: an
      interrupt between the test and the sleep is missed. */
  lemma WaitsWellExactly(r: Ring, blocksize: nat, noDelay: bool, now: nat)
    requires 0 < blocksize <= MAXBLKSIZE && 0 <= Held(r) < AUCB_SIZE
    ensures WaitsWell(r, blocksize, noDelay, now) <==> r.pause || Held(r) >= blocksize
  {
    if r.pause {
      forall schedule: seq<seq<Byte>>
        ensures Held(Waited(r, blocksize, noDelay, schedule, now).ring) == Held(r)
      {
        PausedWaits(r, blocksize, noDelay, schedule, now);
      }
    } else if Held(r) < blocksize {
      MissedBlock(r, blocksize, noDelay, now);
    }
  }

  lemma PausedWaits(r: Ring, blocksize: nat, noDelay: bool, schedule: seq<seq<Byte>>, now: nat)
    requires r.pause
    ensures Waited(r, blocksize, noDelay, schedule, now).ring == r
  {
    PausedTick(r, schedule, now);
    PausedTick(r, schedule, now + 1);
    PausedSleeps(r, blocksize, schedule, now + 2);
  }

  lemma PausedTick(r: Ring, schedule: seq<seq<Byte>>, now: nat)
    requires r.pause
    ensures AfterTick(r, schedule, now) == r
  {
    assert r.accepted + Samples(schedule, now)[..0] == r.accepted;
  }

  lemma {:induction false} PausedSleeps(r: Ring, blocksize: nat, schedule: seq<seq<Byte>>, now: nat)
    requires r.pause
    ensures Slept(r, blocksize, schedule, now).ring == r
    decreases if now < |schedule| then |schedule| - now else 0
  {
    PausedTick(r, schedule, now);
    if now < |schedule| {
      PausedSleeps(r, blocksize, schedule, now + 1);
    }
  }

  /** Nothing happens until the test before the sleep, then the block comes. */
  function Late(now: nat, n: nat): (schedule: seq<seq<Byte>>)
    ensures |schedule| == now + 2 && |schedule[now + 1]| == n && forall i :: 0 <= i <= now ==> schedule[i] == []
  {
    seq(now + 1, _ => []) + [seq(n, _ => 0)]
  }

  lemma QuietTick(r: Ring, schedule: seq<seq<Byte>>, now: nat)
    requires Samples(schedule, now) == []
    ensures AfterTick(r, schedule, now) == r
  {
    assert r.accepted + [] == r.accepted;
  }

  lemma MissedBlock(r: Ring, blocksize: nat, noDelay: bool, now: nat)
    requires 0 < blocksize <= MAXBLKSIZE && 0 <= Held(r) < blocksize && !r.pause
    ensures var w := Waited(r, blocksize, noDelay, Late(now, blocksize - Held(r)), now);
      w.rc != Success && Held(w.ring) == blocksize
  {
    QuietTick(r, Late(now, blocksize - Held(r)), now);
  }

  /** The same of a whole call. */
  ghost predicate ReadsWell(r: Ring, count: nat, blocksize: nat, noDelay: bool)
    requires 0 < blocksize
  {
    forall schedule: seq<seq<Byte>> ::
      var w := Reading(r, count, blocksize, noDelay, schedule, 0); w.rc != Success ==> Held(w.ring) < blocksize
  }

  lemma ReadsWellExactly(r: Ring, count: nat, blocksize: nat, noDelay: bool)
    requires 0 < blocksize <= MAXBLKSIZE && 0 <= Held(r) < AUCB_SIZE
    ensures ReadsWell(r, count, blocksize, noDelay) <==>
      r.pause || (blocksize <= Held(r) && count < Held(r) + blocksize)
  {
    if r.pause {
      forall schedule: seq<seq<Byte>>
        ensures var w := Reading(r, count, blocksize, noDelay, schedule, 0);
          w.rc != Success ==> Held(w.ring) < blocksize
      {
        PausedReads(r, count, blocksize, noDelay, schedule, 0);
      }
    } else if Held(r) < blocksize {
      MissedBlock(r, blocksize, noDelay, 0);
      ReadingEnds(r, count, blocksize, noDelay, Late(0, blocksize - Held(r)), 0);
    } else if count < Held(r) + blocksize {
      forall schedule: seq<seq<Byte>> ensures Reading(r, count, blocksize, noDelay, schedule, 0).rc == Success {
        EnoughThere(r, count, blocksize, noDelay, schedule);
      }
    } else {
      MissedLater(r, count, blocksize, noDelay);
    }
  }

  lemma {:induction false} PausedReads(r: Ring, residual: nat, blocksize: nat, noDelay: bool, schedule: seq<seq<Byte>>,
    now: nat)
    requires 0 < blocksize && r.pause
    ensures var w := Reading(r, residual, blocksize, noDelay, schedule, now);
      w.rc != Success ==> Held(w.ring) < blocksize
    decreases residual
  {
    hide Waited, Slept, AfterTick, AfterTicks, Arrive, Reading;
    PausedWaits(r, blocksize, noDelay, schedule, now);
    if Waited(r, blocksize, noDelay, schedule, now).rc == Success {
      var n, copied, end := OneRound(r, residual, blocksize, noDelay, schedule, now);
      if residual - n >= blocksize {
        PausedReads(copied, residual - n, blocksize, noDelay, schedule, end);
      }
    } else {
      ReadingEnds(r, residual, blocksize, noDelay, schedule, now);
    }
  }

  lemma EnoughThere(r: Ring, count: nat, blocksize: nat, noDelay: bool, schedule: seq<seq<Byte>>)
    requires 0 < blocksize <= Held(r) && count < Held(r) + blocksize
    ensures Reading(r, count, blocksize, noDelay, schedule, 0).rc == Success
  {
    var w := Waited(r, blocksize, noDelay, schedule, 0);
    var before := AfterTick(w.ring, schedule, w.now);
    var n := if Held(before) > count then count else Held(before);
    ReadingRound(r, count, blocksize, noDelay, schedule, 0, n,
      AfterTicks(before, schedule, w.now + 1, n + 1).(taken := r.taken + n));
  }

  lemma {:induction false} QuietTicks(r: Ring, schedule: seq<seq<Byte>>, now: nat, n: nat)
    requires forall i: nat :: now <= i < now + n ==> Samples(schedule, i) == []
    ensures AfterTicks(r, schedule, now, n) == r
  {
    if n > 0 {
      QuietTicks(r, schedule, now, n - 1);
      QuietTick(r, schedule, now + n - 1);
    }
  }

  /** What is buffered is read first, and then the block is missed. */
  lemma MissedLater(r: Ring, count: nat, blocksize: nat, noDelay: bool)
    requires 0 < blocksize <= MAXBLKSIZE && blocksize <= Held(r) < AUCB_SIZE && !r.pause && count >= Held(r) + blocksize
    ensures var w := Reading(r, count, blocksize, noDelay, Late(Held(r) + 3, blocksize), 0);
      w.rc != Success && Held(w.ring) == blocksize
  {
    var n: nat := Held(r);
    var schedule := Late(n + 3, blocksize);
    QuietTick(r, schedule, 0);
    QuietTick(r, schedule, 1);
    QuietTicks(r, schedule, 2, n + 1);
    var rest := r.(taken := r.taken + n);
    ReadingRound(r, count, blocksize, noDelay, schedule, 0, n, rest);
    MissedBlock(rest, blocksize, noDelay, n + 3);
    ReadingEnds(rest, count - n, blocksize, noDelay, schedule, n + 3);
  }

  /** The bytes read so far are the samples from..to. */
  ghost predicate Delivered(accepted: seq<Byte>, from: nat, to: nat, bytes: seq<Byte>) {
    to == from + |bytes| <= |accepted| && bytes == accepted[from..to]
  }

  lemma MoreDelivered(before: seq<Byte>, accepted: seq<Byte>, from: nat, mid: nat, to: nat, bytes: seq<Byte>,
    chunk: seq<Byte>)
    requires Delivered(before, from, mid, bytes) && before <= accepted && Delivered(accepted, mid, to, chunk)
    ensures Delivered(accepted, from, to, bytes + chunk)
  {}

  lemma NoneDelivered(accepted: seq<Byte>, taken: nat)
    requires taken <= |accepted|
    ensures Delivered(accepted, taken, taken, [])
  {}

  lemma AsDelivered(before: seq<Byte>, accepted: seq<Byte>, from: nat, to: nat, bytes: seq<Byte>)
    requires Delivered(before, from, to, bytes) && before <= accepted
    ensures Delivered(accepted, from, to, bytes)
  {}

  lemma OneDelivered(before: seq<Byte>, accepted: seq<Byte>, from: nat, bytes: seq<Byte>, b: Byte)
    requires Delivered(before, from, from + |bytes|, bytes) && before <= accepted
    requires from + |bytes| < |accepted| && b == accepted[from + |bytes|]
    ensures Delivered(accepted, from, from + |bytes| + 1, bytes + [b])
  {}

  class RecordBuffer {
    const data: array<Byte>
    /** cb_head, cb_tail, cb_drops, cb_pdrops, cb_pause, cb_thresh, cb_waking */
    var head: nat
    var tail: nat
    var drops: nat
    var pausedDrops: nat
    var pause: bool
    var threshold: nat
    var waking: bool

    /** The reader is in thread_block. */
    var asleep: bool

    /** All samples ever taken into the ring, how many of them readers have
        had, the number of interrupts, the drops forgotten by resets, and the
        number of interrupts when the reader last went to sleep. */
    ghost var accepted: seq<Byte>
    ghost var taken: nat
    ghost var arrived: nat
    ghost var forgotten: nat
    ghost var slept: nat

    /** A reader sleeps exactly while the threshold is set for it, and every
        interrupt since has found less than that. */
    ghost predicate SleepOk()
      reads this`asleep, this`threshold, this`waking, this`accepted, this`taken, this`arrived, this`slept
    {
      && !waking && (asleep <==> threshold < AUCB_SIZE) && threshold <= AUCB_SIZE && slept <= arrived
      && (asleep && slept < arrived ==> |accepted| - taken < threshold)
    }

    /** What readers see of it. */
    ghost function Value(): Ring
      reads this`accepted, this`taken, this`pause
    {
      Ring(accepted, taken, pause)
    }

    ghost predicate Valid()
      reads this, data
    {
      && data.Length == AUCB_SIZE && Buffered(data[..], head, tail, accepted, taken)
      && arrived == |accepted| + forgotten + drops + pausedDrops
      && SleepOk()
    }

    constructor ()
      ensures Valid() && accepted == [] && taken == 0 && arrived == 0 && !asleep
    {
      data := new Byte[AUCB_SIZE](_ => 0);
      head, tail, drops, pausedDrops, pause, threshold := 0, 0, 0, 0, false, AUCB_SIZE;
      waking, asleep := false, false;
      accepted, taken, arrived, forgotten, slept := [], 0, 0, 0, 0;
    }

    /** The receive half of audio_hwintr, with audio_swintr. A sleeping reader is
        woken by the first interrupt that finds as many samples as it waits for. */
    method Interrupt(sample: Byte)
      requires Valid()
      modifies this`tail, this`drops, this`pausedDrops, this`threshold, this`waking, this`asleep
      modifies this`accepted, this`arrived, data
      ensures Valid() && arrived == old(arrived) + 1 && old(accepted) <= accepted
      ensures |old(accepted)| - taken == AUCB_SIZE - 1 ==> accepted == old(accepted) && drops == old(drops) + 1
      ensures |old(accepted)| - taken < AUCB_SIZE - 1 && pause ==>
        accepted == old(accepted) && pausedDrops == old(pausedDrops) + 1
      ensures |old(accepted)| - taken < AUCB_SIZE - 1 && !pause ==> accepted == old(accepted) + [sample]
      ensures Value() == Arrive(old(Value()), [sample])
      ensures asleep <==> old(asleep) && |accepted| - taken < old(threshold)
      ensures threshold == if asleep then old(threshold) else AUCB_SIZE
      ensures forall k: nat :: taken <= k < |old(accepted)| ==> data[Mod(k)] == old(data[Mod(k)])
    {
      hide Mod, Buffered;
      var n := Receive(sample);
      if n >= threshold {
        threshold := AUCB_SIZE;
        waking := true;
        SoftInterrupt();
      }
    }

    /** audio_swintr */
    method SoftInterrupt()
      modifies this`waking, this`asleep
      ensures !waking && asleep == (old(asleep) && !old(waking))
    {
      if waking {
        waking := false;
        asleep := false;
      }
    }

    /** The sample is stored, or counted as dropped or paused; `n` is AUCB_LEN
        afterwards. */
    method Receive(sample: Byte) returns (n: nat)
      requires Valid()
      modifies this`tail, this`drops, this`pausedDrops, this`accepted, this`arrived, data
      ensures data.Length == AUCB_SIZE && Buffered(data[..], head, tail, accepted, taken)
      ensures arrived == |accepted| + forgotten + drops + pausedDrops
      ensures n == |accepted| - taken < AUCB_SIZE
      ensures arrived == old(arrived) + 1 && old(accepted) <= accepted
      ensures |old(accepted)| - taken == AUCB_SIZE - 1 ==> accepted == old(accepted) && drops == old(drops) + 1
      ensures |old(accepted)| - taken < AUCB_SIZE - 1 && pause ==>
        accepted == old(accepted) && pausedDrops == old(pausedDrops) + 1
      ensures |old(accepted)| - taken < AUCB_SIZE - 1 && !pause ==> accepted == old(accepted) + [sample]
      ensures forall k: nat :: taken <= k < |old(accepted)| ==> data[Mod(k)] == old(data[Mod(k)])
    {
      Sizes();
      LengthAndFull(taken, |accepted|);
      hide Mod, Buffered;
      arrived := arrived + 1;
      if head == Mod(tail + 1) {
        drops := drops + 1;
      } else if pause {
        pausedDrops := pausedDrops + 1;
      } else {
        Accept(sample);
      }
      n := Length();
    }

    /** AUCB_LEN */
    method Length() returns (n: nat)
      requires data.Length == AUCB_SIZE && Buffered(data[..], head, tail, accepted, taken)
      ensures n == |accepted| - taken < AUCB_SIZE
    {
      LengthAndFull(taken, |accepted|);
      n := Mod(tail - head);
    }

    lemma Sizes()
      requires data.Length == AUCB_SIZE && Buffered(data[..], head, tail, accepted, taken)
      ensures taken <= |accepted| < taken + AUCB_SIZE && head == Mod(taken) && tail == Mod(|accepted|) &&
        tail < AUCB_SIZE
    {}

    method Accept(sample: Byte)
      requires data.Length == AUCB_SIZE && Buffered(data[..], head, tail, accepted, taken) &&
        |accepted| - taken < AUCB_SIZE - 1
      modifies this`tail, this`accepted, data
      ensures Buffered(data[..], head, tail, accepted, taken)
      ensures accepted == old(accepted) + [sample] && tail == Mod(old(tail) + 1)
      ensures forall k: nat :: taken <= k < |old(accepted)| ==> data[Mod(k)] == old(data[Mod(k)])
    {
      Sizes();
      Stored(data[..], head, tail, accepted, taken, sample);
      hide Mod, Buffered;
      ghost var before := data[..];
      data[tail] := sample;
      tail := Mod(tail + 1);
      accepted := accepted + [sample];
      assert data[..] == before[old(tail) := sample];
    }

    /** Interrupts that come between two accesses of the reader. A sleeping reader
        is woken when one of them finds as many samples as it waits for. */
    method Interrupts(samples: seq<Byte>)
      requires Valid()
      modifies this`tail, this`drops, this`pausedDrops, this`threshold, this`waking, this`asleep
      modifies this`accepted, this`arrived, data
      ensures Valid() && arrived == old(arrived) + |samples|
      ensures Value() == Arrive(old(Value()), samples)
      ensures asleep <==> old(asleep) && (samples == [] || |accepted| - taken < old(threshold))
      ensures asleep ==> threshold == old(threshold)
      ensures forall k: nat :: taken <= k < |old(accepted)| ==> data[Mod(k)] == old(data[Mod(k)])
    {
      hide Mod, Buffered;
      var i := 0;
      while i < |samples|
        invariant 0 <= i <= |samples| && Valid() && arrived == old(arrived) + i
        invariant Value() == Arrive(old(Value()), samples[..i])
        invariant asleep <==> old(asleep) && (i == 0 || |accepted| - taken < old(threshold))
        invariant asleep ==> threshold == old(threshold)
        invariant forall k: nat :: taken <= k < |old(accepted)| ==> data[Mod(k)] == old(data[Mod(k)])
        modifies this`tail, this`drops, this`pausedDrops, this`threshold, this`waking, this`asleep
        modifies this`accepted, this`arrived, data
      {
        ArriveOne(old(Value()), samples, i);
        Interrupt(samples[i]);
        i := i + 1;
      }
      assert samples[..i] == samples;
    }

    method Tick(schedule: seq<seq<Byte>>, now: nat) returns (next: nat)
      requires Valid()
      modifies this`tail, this`drops, this`pausedDrops, this`threshold, this`waking, this`asleep
      modifies this`accepted, this`arrived, data
      ensures Valid() && next == now + 1
      ensures Value() == AfterTick(old(Value()), schedule, now)
      ensures asleep <==> old(asleep) && (Samples(schedule, now) == [] || |accepted| - taken < old(threshold))
      ensures asleep ==> threshold == old(threshold)
      ensures forall k: nat :: taken <= k < |old(accepted)| ==> data[Mod(k)] == old(data[Mod(k)])
    {
      next := now + 1;
      if now < |schedule| {
        Interrupts(schedule[now]);
      }
    }

    /** The rest of the call, from here on, is what is left of the whole. */
    ghost predicate Goes(from: Ring, count: nat, blocksize: nat, noDelay: bool, schedule: seq<seq<Byte>>,
                         residual: nat, now: nat)
      requires 0 < blocksize
      reads this`accepted, this`taken, this`pause
    {
      Reading(from, count, blocksize, noDelay, schedule, 0)
        == Reading(Value(), residual, blocksize, noDelay, schedule, now)
    }

    /** The whole call ends here. */
    ghost predicate Ends(from: Ring, count: nat, blocksize: nat, noDelay: bool, schedule: seq<seq<Byte>>, rc: Outcome)
      requires 0 < blocksize
      reads this`accepted, this`taken, this`pause
    {
      var w := Reading(from, count, blocksize, noDelay, schedule, 0);
      rc == w.rc && Value() == w.ring
    }

    /** audio_read with the interrupts of `schedule` between its accesses: it ends
        as they demand, and the bytes read are the accepted samples that come next,
        in order. */
    method Read(count: nat, blocksize: nat, noDelay: bool, schedule: seq<seq<Byte>>)
      returns (rc: Outcome, bytes: seq<Byte>)
      requires Valid() && !asleep && 0 < blocksize <= MAXBLKSIZE
      modifies this, data
      ensures Valid() && forgotten == old(forgotten + drops)
      ensures Ends(old(Value()), count, blocksize, noDelay, schedule, rc)
      ensures Delivered(accepted, old(taken), taken, bytes) && |bytes| <= count
      ensures |bytes| == 0 || |bytes| == count || |old(accepted)| <= taken
      ensures rc == Success ==> count - |bytes| < blocksize && (count <= blocksize ==> |bytes| == count)
      ensures rc != Success ==> |old(accepted)| - taken < blocksize && (noDelay <==> rc == WouldBlock)
      ensures asleep <==> rc == Asleep
      ensures asleep ==> threshold == blocksize
    {
      ghost var from := Value();
      Reset();
      assert Goes(from, count, blocksize, noDelay, schedule, count, 0);
      hide Mod, Buffered, Reading, Delivered, Goes, Ends, SleepOk, Valid;
      rc, bytes := Rounds(count, blocksize, noDelay, schedule, from);
      ReadingGives(from, count, blocksize, noDelay, schedule, 0);
      EndsAs(from, count, blocksize, noDelay, schedule, rc, bytes);
    }

    lemma EndsAs(from: Ring, count: nat, blocksize: nat, noDelay: bool, schedule: seq<seq<Byte>>, rc: Outcome,
                 bytes: seq<Byte>)
      requires 0 < blocksize && Ends(from, count, blocksize, noDelay, schedule, rc)
      requires Delivered(accepted, from.taken, taken, bytes)
      ensures var w := Reading(from, count, blocksize, noDelay, schedule, 0);
        rc == w.rc && |bytes| == w.ring.taken - from.taken && taken == w.ring.taken
    {}

    /** The count of drops starts anew. */
    method Reset()
      requires Valid()
      modifies this`drops, this`forgotten
      ensures Valid() && drops == 0 && forgotten == old(forgotten + drops)
    {
      forgotten := forgotten + drops;
      drops := 0;
    }

    /** The outer loop. */
    method Rounds(count: nat, blocksize: nat, noDelay: bool, schedule: seq<seq<Byte>>, ghost from: Ring)
      returns (rc: Outcome, bytes: seq<Byte>)
      requires Valid() && !asleep && 0 < blocksize <= MAXBLKSIZE
      requires Goes(from, count, blocksize, noDelay, schedule, count, 0)
      modifies this, data
      ensures Valid() && forgotten == old(forgotten)
      ensures Ends(from, count, blocksize, noDelay, schedule, rc)
      ensures Delivered(accepted, old(taken), taken, bytes)
      ensures asleep <==> rc == Asleep
      ensures asleep ==> threshold == blocksize
    {
      Bounds();
      NoneDelivered(accepted, taken);
      hide Mod, Buffered, Reading, Delivered, Goes, Ends, SleepOk, Valid;
      ghost var start := taken;
      var residual: nat, now: nat := count, 0;
      bytes := [];
      while true
        invariant Valid() && !asleep && forgotten == old(forgotten)
        invariant Goes(from, count, blocksize, noDelay, schedule, residual, now)
        invariant Delivered(accepted, start, taken, bytes)
        decreases residual
      {
        rc, bytes, residual, now := Round(bytes, residual, blocksize, noDelay, schedule, now, from, count, start);
        if rc != Success || residual < blocksize {
          return;
        }
      }
    }

    lemma Bounds()
      requires Valid()
      ensures taken <= |accepted|
    {}

    /** One wait and, if a block came, one copy. */
    method Round(bytes: seq<Byte>, residual: nat, blocksize: nat, noDelay: bool, schedule: seq<seq<Byte>>, start: nat,
                 ghost from: Ring, ghost count: nat, ghost first: nat)
      returns (rc: Outcome, more: seq<Byte>, left: nat, now: nat)
      requires Valid() && !asleep && 0 < blocksize <= MAXBLKSIZE
      requires Goes(from, count, blocksize, noDelay, schedule, residual, start)
      requires Delivered(accepted, first, taken, bytes)
      modifies this, data
      ensures Valid() && forgotten == old(forgotten)
      ensures left <= residual && (rc == Success && residual > 0 ==> left < residual)
      ensures if rc != Success || left < blocksize then Ends(from, count, blocksize, noDelay, schedule, rc)
              else Goes(from, count, blocksize, noDelay, schedule, left, now)
      ensures Delivered(accepted, first, taken, more)
      ensures asleep <==> rc == Asleep
      ensures asleep ==> threshold == blocksize
    {
      hide Mod, Buffered, Waited, AfterTick, AfterTicks, Reading, Delivered;
      ghost var before, mid := accepted, taken;
      rc, now := Wait(blocksize, noDelay, schedule, start);
      if rc != Success {
        ReadingEnds(old(Value()), residual, blocksize, noDelay, schedule, start);
        AsDelivered(before, accepted, first, taken, bytes);
        return rc, bytes, residual, now;
      }
      var chunk;
      chunk, now := Take(residual, schedule, now);
      ReadingRound(old(Value()), residual, blocksize, noDelay, schedule, start, |chunk|, Value());
      MoreDelivered(before, accepted, first, mid, taken, bytes, chunk);
      more, left := bytes + chunk, residual - |chunk|;
    }

    /** What is buffered, but no more than asked for. */
    method Take(residual: nat, schedule: seq<seq<Byte>>, start: nat) returns (chunk: seq<Byte>, now: nat)
      requires Valid() && !asleep
      modifies this, data
      ensures Valid() && !asleep && forgotten == old(forgotten)
      ensures |chunk| >= if |old(accepted)| - old(taken) < residual then |old(accepted)| - old(taken) else residual
      ensures var before := AfterTick(old(Value()), schedule, start);
        && |chunk| == (if Held(before) > residual then residual else Held(before))
        && Value() == AfterTicks(before, schedule, start + 1, |chunk| + 1).(taken := old(taken) + |chunk|)
      ensures now == start + |chunk| + 2 && old(accepted) <= accepted
      ensures Delivered(accepted, old(taken), taken, chunk)
    {
      hide Mod, Buffered, Arrive;
      now := Tick(schedule, start);
      var n := Length();
      if n > residual {
        n := residual;
      }
      ghost var before := accepted;
      chunk, now := Copy(n, schedule, now);
      assert before[old(taken)..taken] == accepted[old(taken)..taken];
    }

    /** The loop that waits for a block of samples. Interrupts also come between
        the test and the sleep, or the refusal, that follows from it. */
    method Wait(blocksize: nat, noDelay: bool, schedule: seq<seq<Byte>>, start: nat)
      returns (rc: Outcome, now: nat)
      requires Valid() && !asleep && 0 < blocksize <= MAXBLKSIZE
      modifies this, data
      ensures Valid() && forgotten == old(forgotten) && old(accepted) <= accepted && taken == old(taken) <= |accepted|
      ensures rc == Success ==> |accepted| - taken >= blocksize
      ensures Waiting(rc, Value(), now) == Waited(old(Value()), blocksize, noDelay, schedule, start)
      ensures rc != Success ==> |old(accepted)| - taken < blocksize && (noDelay <==> rc == WouldBlock)
      ensures asleep <==> rc == Asleep
      ensures asleep ==> threshold == blocksize
    {
      hide Mod, Buffered, Arrive;
      now := Tick(schedule, start);
      ghost var tested := Value();
      while true
        invariant Valid() && !asleep && forgotten == old(forgotten)
        invariant now > start + 1 ==> |accepted| - taken >= blocksize
        invariant now > start + 1 ==>
          Waited(old(Value()), blocksize, noDelay, schedule, start) == Waiting(Success, Value(), now)
        invariant now > start && (now == start + 1 ==> Value() == tested)
        decreases if now == start + 1 then 1 else 0
      {
        var n := Length();
        if n >= blocksize {
          return Success, now;
        }
        now := Tick(schedule, now);
        if noDelay {
          return WouldBlock, now;
        }
        ghost var later := Value();
        Sleep(blocksize);
        while asleep
          invariant Valid() && forgotten == old(forgotten) && now >= start + 2
          invariant asleep ==> threshold == blocksize
          invariant asleep ==> Slept(later, blocksize, schedule, start + 2) == Slept(Value(), blocksize, schedule, now)
          invariant !asleep ==> |accepted| - taken >= blocksize
          invariant !asleep ==> Slept(later, blocksize, schedule, start + 2) == Waiting(Success, Value(), now)
          decreases |schedule| - now, asleep
        {
          if now >= |schedule| {
            return Asleep, now;
          }
          now := Tick(schedule, now);
        }
      }
    }

    /** audio_sleep up to thread_block. */
    method Sleep(thresh: nat)
      requires Valid() && !asleep && thresh <= MAXBLKSIZE
      modifies this`threshold, this`asleep, this`slept
      ensures Valid() && asleep && threshold == thresh && slept == arrived
    {
      threshold := thresh;
      asleep := true;
      slept := arrived;
    }

    /** The ring is `from` after the interrupts before n accesses. */
    ghost predicate Heard(from: Ring, schedule: seq<seq<Byte>>, start: nat, n: nat)
      reads this`accepted, this`taken, this`pause
    {
      Value() == AfterTicks(from, schedule, start, n)
    }

    /** The two copies and the new head: no byte on its way out is overwritten
        meanwhile. */
    method Copy(n: nat, schedule: seq<seq<Byte>>, start: nat) returns (chunk: seq<Byte>, now: nat)
      requires Valid() && !asleep && n <= |accepted| - taken
      modifies this, data
      ensures Valid() && !asleep && forgotten == old(forgotten) && now == start + n + 1
      ensures Value() == AfterTicks(old(Value()), schedule, start, n + 1).(taken := old(taken) + n)
      ensures |chunk| == n && Delivered(accepted, old(taken), taken, chunk)
    {
      hide Mod, Buffered, AfterTick, AfterTicks, Delivered, SleepOk;
      chunk, now := CopyBytes(n, schedule, start);
      TicksStep(old(Value()), schedule, start, n);
      now := Advance(n, chunk, schedule, now);
    }

    /** The bytes, one by one. */
    method CopyBytes(n: nat, schedule: seq<seq<Byte>>, start: nat) returns (chunk: seq<Byte>, now: nat)
      requires Valid() && !asleep && n <= |accepted| - taken
      modifies this`tail, this`drops, this`pausedDrops, this`threshold, this`waking, this`asleep
      modifies this`accepted, this`arrived, data
      ensures Valid() && !asleep && now == start + n && n <= |accepted| - taken
      ensures Heard(old(Value()), schedule, start, n)
      ensures |chunk| == n && Delivered(accepted, taken, taken + n, chunk)
    {
      Bounds();
      NoneDelivered(accepted, taken);
      NoTicks(Value(), schedule, start);
      ghost var from := Value();
      assert Heard(from, schedule, start, 0);
      hide Mod, Buffered, AfterTick, AfterTicks, Delivered, SleepOk, Heard;
      chunk := [];
      var i := 0;
      while i < n
        invariant Valid() && !asleep
        invariant i == |chunk| <= n <= |accepted| - taken
        invariant Heard(from, schedule, start, i)
        invariant Delivered(accepted, taken, taken + i, chunk)
      {
        chunk := CopyOne(chunk, schedule, start, from);
        i := i + 1;
      }
      now := start + i;
    }

    /** The new head, once all is copied. */
    method Advance(n: nat, ghost chunk: seq<Byte>, schedule: seq<seq<Byte>>, start: nat) returns (now: nat)
      requires Valid() && !asleep && n == |chunk| <= |accepted| - taken && Delivered(accepted, taken, taken + n, chunk)
      modifies this, data
      ensures Valid() && !asleep && forgotten == old(forgotten) && now == start + 1
      ensures Value() == AfterTick(old(Value()), schedule, start).(taken := old(taken) + n)
      ensures Delivered(accepted, old(taken), taken, chunk)
    {
      hide Mod, Buffered, AfterTick, Delivered;
      ghost var were := accepted;
      now := Tick(schedule, start);
      Ahead(data[..], head, tail, accepted, taken, n);
      AsDelivered(were, accepted, taken, taken + n, chunk);
      head := Mod(head + n);
      taken := taken + n;
    }

    /** Interrupts, and one more byte. */
    method CopyOne(chunk: seq<Byte>, schedule: seq<seq<Byte>>, start: nat, ghost from: Ring) returns (more: seq<Byte>)
      requires Valid() && !asleep && |chunk| < |accepted| - taken
      requires Delivered(accepted, taken, taken + |chunk|, chunk) && Heard(from, schedule, start, |chunk|)
      modifies this`tail, this`drops, this`pausedDrops, this`threshold, this`waking, this`asleep
      modifies this`accepted, this`arrived, data
      ensures Valid() && !asleep && |old(accepted)| <= |accepted| && |more| == |chunk| + 1
      ensures Delivered(accepted, taken, taken + |more|, more) && Heard(from, schedule, start, |more|)
    {
      hide Mod, Buffered, AfterTick, AfterTicks, Delivered;
      ghost var were := accepted;
      var _ := Tick(schedule, start + |chunk|);
      TicksStep(from, schedule, start, |chunk|);
      var b := Fetch(|chunk|);
      OneDelivered(were, accepted, taken, chunk, b);
      more := chunk + [b];
    }

    /** One byte of the copies. */
    method Fetch(i: nat) returns (b: Byte)
      requires Valid() && i < |accepted| - taken
      ensures b == accepted[taken + i]
    {
      var tailData := AUCB_SIZE - head;
      Place(i);
      b := if i < tailData then data[head + i] else data[i - tailData];
    }

    lemma Place(i: nat)
      requires data.Length == AUCB_SIZE && Buffered(data[..], head, tail, accepted, taken) && i < |accepted| - taken
      ensures if i < AUCB_SIZE - head then data[head + i] == accepted[taken + i]
              else data[i - (AUCB_SIZE - head)] == accepted[taken + i]
    {
      ModSteps(taken, i);
      assert data[..][Mod(taken + i)] == accepted[taken + i];
    }
  }

  /** The head moves over `n` samples. */
  lemma Ahead(data: seq<Byte>, head: nat, tail: nat, accepted: seq<Byte>, taken: nat, n: nat)
    requires Buffered(data, head, tail, accepted, taken) && n <= |accepted| - taken
    ensures Buffered(data, Mod(head + n), tail, accepted, taken + n)
  {
    ModSteps(taken, n);
  }
}
