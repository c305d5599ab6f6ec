/** The request protocol of one paging object: server threads take messages
    stamped with sequence numbers and overlap as pager_port_lock, the reader and
    writer counts and the condition variables let them. A transition is one
    critical section of the object's lock. */
module RequestProtocol {

  /** memory_object_init, _terminate, _data_request, _data_write or
      _data_initialize, and the no-senders notification. */
  datatype Kind = Init | Terminate | Request | Write | NoSenders

  /** Where the thread is that received a message. */
  datatype Phase =
    | Arrived          // about to take the lock and test the sequence number
    | SleepSeqno       // in condition_wait(waiting_seqno)
    | Turn             // past the gate
    | SleepReaders     // in condition_wait(waiting_read)
    | ReadersGone      // terminate, past pager_port_wait_for_readers
    | SleepWriters     // in condition_wait(waiting_write)
    | WritersGone      // terminate, past pager_port_wait_for_writers
    | SleepRefs        // in condition_wait(waiting_refs)
    | Wake             // seqno incremented, lock released, broadcast to come
    | Working          // reading, writing or deallocating, without the lock
    | WakeWaiters      // last one out, lock released, broadcast to come
    | Done

  /** The message with sequence number i is msgs[i] and is at phase[i].
      port: pager_request is valid. refsOut: default_pager_objects is fetching
      more name references. */
  datatype State = State(
    msgs: seq<Kind>, phase: seq<Phase>,
    seqno: nat, readers: nat, writers: nat,
    startOpen: bool, port: bool, refsOut: bool, panicked: bool)

  datatype Step = Arrive(kind: Kind) | DropRefs | RestoreRefs | Run(i: nat)

  function WakeSeqno(p: Phase): Phase { if p == SleepSeqno then Arrived else p }

  function WakeReaders(p: Phase): Phase { if p == SleepReaders then Turn else p }

  function WakeWriters(k: Kind, p: Phase): Phase {
    if p == SleepWriters then (if k == Terminate then ReadersGone else Turn) else p
  }

  function WakeRefs(p: Phase): Phase { if p == SleepRefs then WritersGone else p }

  /** condition_broadcast on waiting_seqno, waiting_read, waiting_write and, by
      default_pager_objects, on waiting_refs. */
  function BroadcastSeqno(phase: seq<Phase>): (woken: seq<Phase>)
    ensures |woken| == |phase|
    ensures forall k :: 0 <= k < |phase| ==> woken[k] == WakeSeqno(phase[k])
  {
    seq(|phase|, k requires 0 <= k < |phase| => WakeSeqno(phase[k]))
  }

  function BroadcastReaders(phase: seq<Phase>): (woken: seq<Phase>)
    ensures |woken| == |phase|
    ensures forall k :: 0 <= k < |phase| ==> woken[k] == WakeReaders(phase[k])
  {
    seq(|phase|, k requires 0 <= k < |phase| => WakeReaders(phase[k]))
  }

  function BroadcastWriters(msgs: seq<Kind>, phase: seq<Phase>): (woken: seq<Phase>)
    requires |msgs| == |phase|
    ensures |woken| == |phase|
    ensures forall k :: 0 <= k < |phase| ==> woken[k] == WakeWriters(msgs[k], phase[k])
  {
    seq(|phase|, k requires 0 <= k < |phase| => WakeWriters(msgs[k], phase[k]))
  }

  function BroadcastRefs(phase: seq<Phase>): (woken: seq<Phase>)
    ensures |woken| == |phase|
    ensures forall k :: 0 <= k < |phase| ==> woken[k] == WakeRefs(phase[k])
  {
    seq(|phase|, k requires 0 <= k < |phase| => WakeRefs(phase[k]))
  }

  function At(s: State, i: nat, p: Phase): State
    requires i < |s.phase|
  {
    s.(phase := s.phase[i := p])
  }

  /** pager_port_unlock: the sequence number moves on. */
  function Pass(s: State, i: nat): State
    requires i < |s.phase|
  {
    At(s, i, Wake).(seqno := s.seqno + 1)
  }

  predicate RefsReady(s: State) { s.port && !s.refsOut }

  predicate Shaped(s: State) { |s.phase| == |s.msgs| }

  /** A thread that holds the lock on its turn. */
  function TakeTurn(s: State, i: nat): State
    requires Shaped(s) && i < |s.msgs|
  {
    match s.msgs[i]
    case Init => if s.port then s.(panicked := true) else Pass(s, i).(port := true)
    case Write => Pass(s, i).(writers := s.writers + 1)
    case Request => if s.writers != 0 then At(s, i, SleepWriters) else Pass(s, i).(readers := s.readers + 1)
    case Terminate => if s.readers != 0 then At(s, i, SleepReaders) else At(s, i, ReadersGone)
    case NoSenders => if s.port then s.(panicked := true) else At(s, i, Working)
  }

  /** The next critical section of the thread of message i. */
  function Advance(s: State, i: nat): State
    requires Shaped(s) && i < |s.msgs|
  {
    match s.phase[i]
    case Arrived => if s.seqno == i then At(s, i, Turn) else At(s, i, SleepSeqno)
    case Turn => TakeTurn(s, i)
    case ReadersGone => if s.writers != 0 then At(s, i, SleepWriters) else At(s, i, WritersGone)
    case WritersGone => if !RefsReady(s) then At(s, i, SleepRefs) else Pass(s, i).(port := false)
    case Wake =>
      At(s.(phase := BroadcastSeqno(s.phase)), i, if s.msgs[i].Request? || s.msgs[i].Write? then Working else Done)
    case Working =>
      if s.msgs[i] == Request && s.readers > 0 then
        At(s, i, if s.readers == 1 then WakeWaiters else Done).(readers := s.readers - 1)
      else if s.msgs[i] == Write && s.writers > 0 then
        At(s, i, if s.writers == 1 then WakeWaiters else Done).(writers := s.writers - 1)
      else At(s, i, Done)
    case WakeWaiters =>
      At(s.(phase := if s.msgs[i] == Request then BroadcastReaders(s.phase) else BroadcastWriters(s.msgs, s.phase)),
        i, Done)
    case _ => s
  }

  predicate Asleep(p: Phase) { p.SleepSeqno? || p.SleepReaders? || p.SleepWriters? || p.SleepRefs? }

  predicate Enabled(s: State, step: Step) {
    Shaped(s) && match step
    case Arrive(_) => true
    case DropRefs => s.port && !s.refsOut
    case RestoreRefs => s.refsOut
    case Run(i) => i < |s.msgs| && s.phase[i] != Done && !Asleep(s.phase[i])
  }

  function Apply(s: State, step: Step): State
    requires Enabled(s, step)
  {
    match step
    case Arrive(kind) => s.(msgs := s.msgs + [kind], phase := s.phase + [Arrived])
    case DropRefs => s.(refsOut := true)
    case RestoreRefs => s.(refsOut := false, phase := BroadcastRefs(s.phase))
    case Run(i) => Advance(s, i)
  }

  function Initial(open: bool): State {
    State([], [], 0, 0, 0, open, open, false, false)
  }

  // ---- what the kernel sends ----

  /** Whether the object is initialised after the first n messages. */
  function Open(start: bool, msgs: seq<Kind>, n: nat): bool
    requires n <= |msgs|
  {
    if n == 0 then start
    else match msgs[n - 1]
      case Init => true
      case Terminate => false
      case _ => Open(start, msgs, n - 1)
  }

  /** The kernel sends requests only between init and terminate, and nothing
      after the no-senders notification. */
  ghost predicate Legal(start: bool, msgs: seq<Kind>) {
    forall n: nat :: n < |msgs| ==>
      match msgs[n]
      case Init => !Open(start, msgs, n)
      case NoSenders => !Open(start, msgs, n) && n == |msgs| - 1
      case _ => Open(start, msgs, n)
  }

  // ---- the invariant ----

  predicate Passed(p: Phase) { p.Wake? || p.Working? || p.WakeWaiters? || p.Done? }

  predicate Waiting(p: Phase) { p.Arrived? || p.SleepSeqno? }

  /** A read or a write is in progress from its start_ to its finish_ call. */
  predicate InProgress(p: Phase) { p.Wake? || p.Working? }

  ghost predicate Busy(msgs: seq<Kind>, phase: seq<Phase>, i: nat, kind: Kind) {
    i < |msgs| && i < |phase| && msgs[i] == kind && InProgress(phase[i])
  }

  ghost function BusySet(msgs: seq<Kind>, phase: seq<Phase>, kind: Kind): set<nat> {
    set i: nat | i < |msgs| && Busy(msgs, phase, i, kind)
  }

  /** Only these kinds of message are found in these phases. */
  predicate Fits(k: Kind, p: Phase) {
    match p
    case SleepReaders => k == Terminate
    case ReadersGone => k == Terminate
    case WritersGone => k == Terminate
    case SleepRefs => k == Terminate
    case SleepWriters => k.Request? || k.Terminate?
    case Working => k.Request? || k.Write? || k.NoSenders?
    case WakeWaiters => k.Request? || k.Write?
    case _ => true
  }

  /** Messages pass the gate in the order of their sequence numbers. */
  ghost predicate Ordered(msgs: seq<Kind>, phase: seq<Phase>, seqno: nat) {
    && |phase| == |msgs| && seqno <= |msgs|
    && (forall i: nat :: i < |msgs| ==> Fits(msgs[i], phase[i]))
    && (forall i: nat :: i < seqno ==> Passed(phase[i]) && msgs[i] != NoSenders)
    && (forall i: nat :: seqno < i < |msgs| ==> Waiting(phase[i]))
    && (seqno < |msgs| && Passed(phase[seqno]) ==> msgs[seqno] == NoSenders && phase[seqno] != Wake)
  }

  /** Phases a terminate request is in once no read, or no write, is left. */
  predicate PastReaders(k: Kind, p: Phase) {
    k == Terminate && (p.ReadersGone? || p.SleepWriters? || p.WritersGone? || p.SleepRefs?)
  }

  predicate PastWriters(p: Phase) { p.WritersGone? || p.SleepRefs? }

  /** Who may be in progress together. */
  ghost predicate Separate(msgs: seq<Kind>, phase: seq<Phase>, seqno: nat)
    requires Ordered(msgs, phase, seqno)
  {
    && (forall i: nat, j: nat :: j < i < seqno && msgs[i] == Request ==> !Busy(msgs, phase, j, Write))
    && (forall i: nat, j: nat :: j < i < seqno && msgs[i] == Terminate ==>
      !Busy(msgs, phase, j, Write) && !Busy(msgs, phase, j, Request))
    && (seqno < |msgs| && PastReaders(msgs[seqno], phase[seqno]) ==> forall j: nat :: !Busy(msgs, phase, j, Request))
    && (seqno < |msgs| && PastWriters(phase[seqno]) ==> forall j: nat :: !Busy(msgs, phase, j, Write))
  }

  ghost predicate Waker(msgs: seq<Kind>, phase: seq<Phase>, j: nat, kind: Kind) {
    j < |msgs| && j < |phase| && msgs[j] == kind && phase[j] == WakeWaiters
  }

  /** Nobody sleeps through the wake-up that is due to it. */
  ghost predicate NoLostWakeup(s: State)
    requires Ordered(s.msgs, s.phase, s.seqno)
  {
    s.seqno < |s.msgs| ==>
      match s.phase[s.seqno]
      case SleepSeqno => s.seqno > 0 && s.phase[s.seqno - 1] == Wake
      case SleepReaders => s.readers > 0 || exists j: nat :: Waker(s.msgs, s.phase, j, Request)
      case SleepWriters => s.writers > 0 || exists j: nat :: Waker(s.msgs, s.phase, j, Write)
      case SleepRefs => s.refsOut
      case _ => true
  }

  ghost predicate Counted(s: State) {
    s.readers == |BusySet(s.msgs, s.phase, Request)| && s.writers == |BusySet(s.msgs, s.phase, Write)|
  }

  ghost predicate PortOk(s: State) {
    s.seqno <= |s.msgs| && !s.panicked && s.port == Open(s.startOpen, s.msgs, s.seqno)
  }

  ghost predicate Inv(s: State) {
    && Ordered(s.msgs, s.phase, s.seqno)
    && Separate(s.msgs, s.phase, s.seqno)
    && Counted(s) && NoLostWakeup(s) && PortOk(s)
  }

  // ---- one thread moves from one phase to another ----

  lemma OrderedMove(msgs: seq<Kind>, phase: seq<Phase>, seqno: nat, i: nat, p: Phase)
    requires Ordered(msgs, phase, seqno) && i < |msgs| && Fits(msgs[i], p)
    requires i < seqno ==> Passed(p)
    requires i > seqno ==> Waiting(p)
    requires i == seqno && Passed(p) ==> msgs[i] == NoSenders && p != Wake
    ensures Ordered(msgs, phase[i := p], seqno)
  {}

  lemma OrderedPass(msgs: seq<Kind>, phase: seq<Phase>, seqno: nat)
    requires Ordered(msgs, phase, seqno) && seqno < |msgs| && msgs[seqno] != NoSenders
    ensures Ordered(msgs, phase[seqno := Wake], seqno + 1)
  {}

  lemma OrderedBroadcast(msgs: seq<Kind>, phase: seq<Phase>, seqno: nat)
    requires Ordered(msgs, phase, seqno)
    ensures Ordered(msgs, BroadcastSeqno(phase), seqno)
    ensures Ordered(msgs, BroadcastReaders(phase), seqno)
    ensures Ordered(msgs, BroadcastWriters(msgs, phase), seqno)
    ensures Ordered(msgs, BroadcastRefs(phase), seqno)
  {}

  lemma BusyMove(msgs: seq<Kind>, phase: seq<Phase>, i: nat, p: Phase)
    requires |phase| == |msgs| && i < |msgs|
    ensures forall k: Kind :: msgs[i] != k || InProgress(p) == InProgress(phase[i]) ==>
              BusySet(msgs, phase[i := p], k) == BusySet(msgs, phase, k)
    ensures InProgress(p) ==> BusySet(msgs, phase[i := p], msgs[i]) == BusySet(msgs, phase, msgs[i]) + {i}
    ensures !InProgress(p) ==> BusySet(msgs, phase[i := p], msgs[i]) == BusySet(msgs, phase, msgs[i]) - {i}
  {}

  lemma BusyBroadcast(msgs: seq<Kind>, phase: seq<Phase>, kind: Kind)
    requires |phase| == |msgs|
    ensures BusySet(msgs, BroadcastSeqno(phase), kind) == BusySet(msgs, phase, kind)
    ensures BusySet(msgs, BroadcastReaders(phase), kind) == BusySet(msgs, phase, kind)
    ensures BusySet(msgs, BroadcastWriters(msgs, phase), kind) == BusySet(msgs, phase, kind)
    ensures BusySet(msgs, BroadcastRefs(phase), kind) == BusySet(msgs, phase, kind)
  {}

  lemma SeparateMove(msgs: seq<Kind>, phase: seq<Phase>, seqno: nat, i: nat, p: Phase)
    requires Ordered(msgs, phase, seqno) && Separate(msgs, phase, seqno) && i < |msgs|
    requires Ordered(msgs, phase[i := p], seqno)
    requires InProgress(p) ==> InProgress(phase[i]) || msgs[i] == NoSenders
    requires i == seqno && PastReaders(msgs[i], p) ==>
      PastReaders(msgs[i], phase[i]) || BusySet(msgs, phase, Request) == {}
    requires i == seqno && PastWriters(p) ==> PastWriters(phase[i]) || BusySet(msgs, phase, Write) == {}
    ensures Separate(msgs, phase[i := p], seqno)
  {
    var after := phase[i := p];
    assert forall j: nat, k: Kind :: k != NoSenders && Busy(msgs, after, j, k) ==> Busy(msgs, phase, j, k);
    assert forall j: nat, k: Kind :: Busy(msgs, phase, j, k) ==> j in BusySet(msgs, phase, k);
  }

  lemma SeparatePass(msgs: seq<Kind>, phase: seq<Phase>, seqno: nat)
    requires Ordered(msgs, phase, seqno) && Separate(msgs, phase, seqno)
    requires seqno < |msgs| && Ordered(msgs, phase[seqno := Wake], seqno + 1)
    requires msgs[seqno] == Request ==> BusySet(msgs, phase, Write) == {}
    requires msgs[seqno] == Terminate ==> BusySet(msgs, phase, Write) == {} && BusySet(msgs, phase, Request) == {}
    ensures Separate(msgs, phase[seqno := Wake], seqno + 1)
  {
    var after := phase[seqno := Wake];
    assert forall j: nat, k: Kind :: Busy(msgs, phase, j, k) ==> j in BusySet(msgs, phase, k);
    assert forall j: nat, k: Kind :: Busy(msgs, after, j, k) ==> j == seqno || Busy(msgs, phase, j, k);
    assert seqno + 1 < |msgs| ==> Waiting(phase[seqno + 1]);
  }

  lemma SeparateSame(msgs: seq<Kind>, phase: seq<Phase>, after: seq<Phase>, seqno: nat)
    requires Ordered(msgs, phase, seqno) && Separate(msgs, phase, seqno) && Ordered(msgs, after, seqno)
    requires forall j: nat :: j < |msgs| && InProgress(after[j]) ==> InProgress(phase[j])
    requires forall j: nat :: j < |msgs| && PastReaders(msgs[j], after[j]) ==> PastReaders(msgs[j], phase[j])
    requires forall j: nat :: j < |msgs| && PastWriters(after[j]) ==> PastWriters(phase[j])
    ensures Separate(msgs, after, seqno)
  {
    assert forall j: nat, k: Kind :: Busy(msgs, after, j, k) ==> Busy(msgs, phase, j, k);
  }

  lemma SeparateBroadcast(msgs: seq<Kind>, phase: seq<Phase>, seqno: nat)
    requires Ordered(msgs, phase, seqno) && Separate(msgs, phase, seqno)
    ensures Ordered(msgs, BroadcastSeqno(phase), seqno) && Separate(msgs, BroadcastSeqno(phase), seqno)
    ensures Ordered(msgs, BroadcastReaders(phase), seqno) && Separate(msgs, BroadcastReaders(phase), seqno)
    ensures Ordered(msgs, BroadcastWriters(msgs, phase), seqno) && Separate(msgs, BroadcastWriters(msgs, phase), seqno)
    ensures Ordered(msgs, BroadcastRefs(phase), seqno) && Separate(msgs, BroadcastRefs(phase), seqno)
  {
    OrderedBroadcast(msgs, phase, seqno);
    SeparateSame(msgs, phase, BroadcastSeqno(phase), seqno);
    SeparateSame(msgs, phase, BroadcastReaders(phase), seqno);
    SeparateSame(msgs, phase, BroadcastWriters(msgs, phase), seqno);
    SeparateSame(msgs, phase, BroadcastRefs(phase), seqno);
  }

  // ---- the steps keep the invariant ----

  /** The parts of the invariant that concern positions and overlap. */
  ghost predicate Core(s: State) {
    Ordered(s.msgs, s.phase, s.seqno) && Separate(s.msgs, s.phase, s.seqno)
  }

  /** What a move must respect at each position. */
  predicate MayMove(s: State, i: nat, p: Phase)
    requires Shaped(s) && i < |s.msgs|
  {
    && Fits(s.msgs[i], p)
    && (i < s.seqno ==> Passed(p))
    && (i > s.seqno ==> Waiting(p))
    && (i == s.seqno && Passed(p) ==> s.msgs[i] == NoSenders && p != Wake)
    && (InProgress(p) ==> InProgress(s.phase[i]) || s.msgs[i] == NoSenders)
    && (i == s.seqno && PastReaders(s.msgs[i], p) ==> PastReaders(s.msgs[i], s.phase[i]) || s.readers == 0)
    && (i == s.seqno && PastWriters(p) ==> PastWriters(s.phase[i]) || s.writers == 0)
  }

  lemma CoreMove(s: State, i: nat, p: Phase)
    requires Core(s) && Counted(s) && i < |s.msgs| && MayMove(s, i, p)
    ensures Core(At(s, i, p))
  {
    hide Separate;
    OrderedMove(s.msgs, s.phase, s.seqno, i, p);
    SeparateMove(s.msgs, s.phase, s.seqno, i, p);
  }

  lemma CorePass(s: State)
    requires Core(s) && Counted(s) && s.seqno < |s.msgs|
    requires s.msgs[s.seqno] != NoSenders
    requires s.msgs[s.seqno] == Request ==> s.writers == 0
    requires s.msgs[s.seqno] == Terminate ==> s.writers == 0 && s.readers == 0
    ensures Core(Pass(s, s.seqno))
  {
    hide Separate;
    OrderedPass(s.msgs, s.phase, s.seqno);
    SeparatePass(s.msgs, s.phase, s.seqno);
  }

  lemma CoreTurn(s: State, i: nat)
    requires Core(s) && Counted(s) && i < |s.msgs| && s.phase[i] == Turn
    ensures Core(TakeTurn(s, i))
  {
    hide Separate, Counted;
    assert i == s.seqno;
    match s.msgs[i]
    case Init => if !s.port { CorePass(s); }
    case Write => CorePass(s);
    case Request => if s.writers != 0 { CoreMove(s, i, SleepWriters); } else { CorePass(s); }
    case Terminate => CoreMove(s, i, if s.readers != 0 then SleepReaders else ReadersGone);
    case NoSenders => if !s.port { CoreMove(s, i, Working); }
  }

  lemma CoreBroadcast(s: State, i: nat, woken: seq<Phase>, p: Phase)
    requires Core(s) && Counted(s) && i < |s.msgs| && Passed(s.phase[i]) && i < s.seqno
    requires woken in {BroadcastSeqno(s.phase), BroadcastReaders(s.phase), BroadcastWriters(s.msgs, s.phase)}
    requires Passed(p) && Fits(s.msgs[i], p) && (InProgress(p) ==> InProgress(s.phase[i]))
    ensures Core(At(s.(phase := woken), i, p))
  {
    hide Separate;
    SeparateBroadcast(s.msgs, s.phase, s.seqno);
    BusyBroadcast(s.msgs, s.phase, Request);
    BusyBroadcast(s.msgs, s.phase, Write);
    CoreMove(s.(phase := woken), i, p);
  }

  lemma CoreRun(s: State, i: nat)
    requires Inv(s) && Enabled(s, Run(i))
    requires s.phase[i] == WritersGone ==> s.readers == 0 && s.writers == 0
    ensures Core(Advance(s, i))
  {
    hide Separate, NoLostWakeup, PortOk, Counted, BusySet;
    AtTurn(s.msgs, s.phase, s.seqno, i);
    hide Ordered;
    match s.phase[i]
    case Arrived => CoreMove(s, i, if s.seqno == i then Turn else SleepSeqno);
    case Turn => CoreTurn(s, i);
    case ReadersGone => CoreMove(s, i, if s.writers != 0 then SleepWriters else WritersGone);
    case WritersGone => if !RefsReady(s) { CoreMove(s, i, SleepRefs); } else { CorePass(s); }
    case Wake => CoreWoken(s, i);
    case Working => CoreWorked(s, i, Advance(s, i).phase[i]);
    case WakeWaiters => CoreWaiters(s, i);
  }

  lemma CoreWorked(s: State, i: nat, p: Phase)
    requires Core(s) && Counted(s) && i < |s.msgs| && s.phase[i] == Working && (p == Done || p == WakeWaiters)
    requires p == WakeWaiters ==> s.msgs[i] == Request || s.msgs[i] == Write
    ensures Core(At(s, i, p))
  {
    AtTurn(s.msgs, s.phase, s.seqno, i);
    assert Fits(s.msgs[i], s.phase[i]);
    hide Separate, BusySet, Counted, Ordered, Advance;
    CoreMove(s, i, p);
  }

  lemma CoreWaiters(s: State, i: nat)
    requires Core(s) && Counted(s) && i < |s.msgs| && s.phase[i] == WakeWaiters
    ensures Core(Advance(s, i))
  {
    AtWake(s.msgs, s.phase, s.seqno, i);
    var woken := if s.msgs[i] == Request then BroadcastReaders(s.phase) else BroadcastWriters(s.msgs, s.phase);
    hide Ordered, Separate, BroadcastReaders, BroadcastWriters;
    CoreBroadcast(s, i, woken, Done);
  }

  lemma CoreWoken(s: State, i: nat)
    requires Core(s) && Counted(s) && i < |s.msgs| && s.phase[i] == Wake
    ensures Core(Advance(s, i))
  {
    CoreBroadcast(s, i, BroadcastSeqno(s.phase), Advance(s, i).phase[i]);
  }

  lemma AtTurn(msgs: seq<Kind>, phase: seq<Phase>, seqno: nat, i: nat)
    requires Ordered(msgs, phase, seqno) && i < |msgs|
    ensures !Passed(phase[i]) && !Waiting(phase[i]) ==> i == seqno
    ensures Passed(phase[i]) ==> i <= seqno
    ensures phase[i] == Wake ==> i < seqno
    ensures Waiting(phase[i]) ==> i >= seqno
    ensures i < seqno ==> Passed(phase[i]) && msgs[i] != NoSenders
    ensures phase[i].WritersGone? || phase[i].ReadersGone? ==> msgs[i] == Terminate
    ensures phase[i].Working? ==> msgs[i].Request? || msgs[i].Write? || msgs[i].NoSenders?
  {
    assert Fits(msgs[i], phase[i]);
  }

  lemma AtWake(msgs: seq<Kind>, phase: seq<Phase>, seqno: nat, i: nat)
    requires Ordered(msgs, phase, seqno) && i < |msgs| && phase[i] == WakeWaiters
    ensures i < seqno
  {
    assert Fits(msgs[i], phase[i]);
  }

  lemma PortTurn(s: State)
    requires Shaped(s) && PortOk(s) && s.seqno < |s.msgs| && Legal(s.startOpen, s.msgs)
    requires s.phase[s.seqno] == Turn
    ensures PortOk(TakeTurn(s, s.seqno))
  {
    OpenNext(s.startOpen, s.msgs, s.seqno);
    hide Open, Legal;
    match s.msgs[s.seqno]
    case Init =>
    case Write =>
    case Request =>
    case Terminate =>
    case NoSenders =>
  }

  lemma OpenNext(start: bool, msgs: seq<Kind>, n: nat)
    requires Legal(start, msgs) && n < |msgs|
    ensures Open(start, msgs, n + 1) == (msgs[n] == Init || (msgs[n] != Terminate && Open(start, msgs, n)))
    ensures Open(start, msgs, n) <==> msgs[n] != Init && msgs[n] != NoSenders
  {}

  lemma PortRun(s: State, i: nat)
    requires Inv(s) && Enabled(s, Run(i)) && Legal(s.startOpen, s.msgs)
    ensures PortOk(Advance(s, i))
  {
    hide Separate, NoLostWakeup, Counted, Ordered, BusySet, BroadcastSeqno, BroadcastReaders, BroadcastWriters, Legal;
    AtTurn(s.msgs, s.phase, s.seqno, i);
    match s.phase[i]
    case Arrived =>
    case Turn => PortTurn(s);
    case ReadersGone =>
    case WritersGone =>
    case Wake =>
    case Working =>
    case WakeWaiters =>
  }

  lemma CountMove(s: State, i: nat, p: Phase)
    requires Shaped(s) && Counted(s) && i < |s.msgs| && InProgress(p) == InProgress(s.phase[i])
    ensures Counted(At(s, i, p))
  {
    BusyMove(s.msgs, s.phase, i, p);
  }

  lemma CountBroadcast(s: State, i: nat, woken: seq<Phase>, p: Phase)
    requires Shaped(s) && Counted(s) && i < |s.msgs| && Passed(s.phase[i]) && InProgress(p) == InProgress(s.phase[i])
    requires woken in {BroadcastSeqno(s.phase), BroadcastReaders(s.phase), BroadcastWriters(s.msgs, s.phase)}
    ensures Counted(At(s.(phase := woken), i, p))
  {
    BusyBroadcast(s.msgs, s.phase, Request);
    BusyBroadcast(s.msgs, s.phase, Write);
    BusyMove(s.msgs, woken, i, p);
  }

  lemma IsBusy(msgs: seq<Kind>, phase: seq<Phase>, i: nat)
    requires |phase| == |msgs| && i < |msgs|
    ensures i in BusySet(msgs, phase, msgs[i]) <==> InProgress(phase[i])
  {}

  lemma CountTurn(s: State, i: nat)
    requires Shaped(s) && Counted(s) && i < |s.msgs| && s.phase[i] == Turn
    ensures Counted(TakeTurn(s, i))
  {
    hide BusySet;
    IsBusy(s.msgs, s.phase, i);
    match s.msgs[i]
    case Init => BusyMove(s.msgs, s.phase, i, Wake);
    case Write => BusyMove(s.msgs, s.phase, i, Wake);
    case Request => BusyMove(s.msgs, s.phase, i, if s.writers != 0 then SleepWriters else Wake);
    case Terminate => BusyMove(s.msgs, s.phase, i, if s.readers != 0 then SleepReaders else ReadersGone);
    case NoSenders => BusyMove(s.msgs, s.phase, i, Working);
  }

  lemma CountWorking(s: State, i: nat)
    requires Shaped(s) && Counted(s) && i < |s.msgs| && s.phase[i] == Working
    requires s.msgs[i].Request? || s.msgs[i].Write? || s.msgs[i].NoSenders?
    ensures Counted(Advance(s, i))
    ensures s.msgs[i] == Request ==> s.readers > 0
    ensures s.msgs[i] == Write ==> s.writers > 0
  {
    hide BusySet;
    IsBusy(s.msgs, s.phase, i);
    match s.msgs[i]
    case Request => BusyMove(s.msgs, s.phase, i, if s.readers == 1 then WakeWaiters else Done);
    case Write => BusyMove(s.msgs, s.phase, i, if s.writers == 1 then WakeWaiters else Done);
    case NoSenders => BusyMove(s.msgs, s.phase, i, Done);
  }

  lemma CountedRun(s: State, i: nat)
    requires Inv(s) && Enabled(s, Run(i))
    ensures Counted(Advance(s, i))
  {
    hide Separate, NoLostWakeup, PortOk, Ordered, Counted;
    AtTurn(s.msgs, s.phase, s.seqno, i);
    match s.phase[i]
    case Arrived => CountMove(s, i, if s.seqno == i then Turn else SleepSeqno);
    case Turn => CountTurn(s, i);
    case ReadersGone => CountMove(s, i, if s.writers != 0 then SleepWriters else WritersGone);
    case WritersGone => CountPass(s, i);
    case Wake => CountWake(s, i);
    case Working => CountWorking(s, i);
    case WakeWaiters => CountBroadcast(s, i,
      if s.msgs[i] == Request then BroadcastReaders(s.phase) else BroadcastWriters(s.msgs, s.phase), Done);
  }

  lemma CountPass(s: State, i: nat)
    requires Shaped(s) && Counted(s) && i < |s.msgs| && s.phase[i] == WritersGone && s.msgs[i] == Terminate
    ensures Counted(Advance(s, i))
  {
    BusyMove(s.msgs, s.phase, i, Advance(s, i).phase[i]);
  }

  lemma CountWake(s: State, i: nat)
    requires Shaped(s) && Counted(s) && i < |s.msgs| && s.phase[i] == Wake
    ensures Counted(Advance(s, i))
  {
    BusyBroadcast(s.msgs, s.phase, Request);
    BusyBroadcast(s.msgs, s.phase, Write);
    BusyMove(s.msgs, BroadcastSeqno(s.phase), i, Advance(s, i).phase[i]);
  }

  lemma WakeupArrived(s: State, i: nat)
    requires Core(s) && NoLostWakeup(s) && i < |s.msgs| && s.phase[i] == Arrived && Core(Advance(s, i))
    ensures NoLostWakeup(Advance(s, i))
  {
    hide Separate;
    var t := Advance(s, i);
    AtTurn(s.msgs, s.phase, s.seqno, i);
    assert forall j: nat, k: Kind :: Waker(s.msgs, s.phase, j, k) ==> Waker(t.msgs, t.phase, j, k);
  }

  lemma WakeupTurn(s: State, i: nat)
    requires Core(s) && i < |s.msgs| && s.phase[i] == Turn && Core(TakeTurn(s, i))
    ensures NoLostWakeup(TakeTurn(s, i))
  {
    AtTurn(s.msgs, s.phase, s.seqno, i);
    hide Separate, Ordered, NoLostWakeup;
    match s.msgs[i]
    case Init => if s.port { WakeupHere(s.(panicked := true)); } else { WakeupPassed(s, Pass(s, i).(port := true)); }
    case Write => WakeupPassed(s, Pass(s, i).(writers := s.writers + 1));
    case Request =>
      if s.writers != 0 {
        WakeupHere(At(s, i, SleepWriters));
      } else {
        WakeupPassed(s, Pass(s, i).(readers := s.readers + 1));
      }
    case Terminate => WakeupHere(At(s, i, if s.readers != 0 then SleepReaders else ReadersGone));
    case NoSenders => WakeupHere(if s.port then s.(panicked := true) else At(s, i, Working));
  }

  /** A thread that sleeps for readers or writers finds some. */
  lemma WakeupHere(t: State)
    requires Ordered(t.msgs, t.phase, t.seqno) && t.seqno < |t.msgs|
    requires t.phase[t.seqno] == SleepReaders ==> t.readers > 0
    requires t.phase[t.seqno] == SleepWriters ==> t.writers > 0
    requires t.phase[t.seqno] != SleepSeqno && t.phase[t.seqno] != SleepRefs
    ensures NoLostWakeup(t)
  {}

  /** The thread that passes is about to wake the next one. */
  lemma WakeupPassed(s: State, t: State)
    requires Ordered(s.msgs, s.phase, s.seqno) && Ordered(t.msgs, t.phase, t.seqno)
    requires s.seqno < |s.msgs| && t.msgs == s.msgs && t.seqno == s.seqno + 1 && t.phase == s.phase[s.seqno := Wake]
    ensures NoLostWakeup(t)
  {
    assert t.seqno < |s.msgs| ==> Waiting(s.phase[t.seqno]);
  }

  lemma WakeupLater(s: State, i: nat)
    requires Core(s) && PortOk(s) && Legal(s.startOpen, s.msgs) && i < |s.msgs| && Core(Advance(s, i))
    requires s.phase[i] == ReadersGone || s.phase[i] == WritersGone
    ensures NoLostWakeup(Advance(s, i))
  {
    hide Separate;
    AtTurn(s.msgs, s.phase, s.seqno, i);
    assert i + 1 < |s.msgs| ==> Waiting(s.phase[i + 1]);
  }

  lemma WakeupWake(s: State, i: nat)
    requires Core(s) && NoLostWakeup(s) && i < |s.msgs| && s.phase[i] == Wake && Core(Advance(s, i))
    ensures NoLostWakeup(Advance(s, i))
  {
    hide Separate;
    var t := Advance(s, i);
    AtTurn(s.msgs, s.phase, s.seqno, i);
    assert forall j: nat, k: Kind :: Waker(s.msgs, s.phase, j, k) ==> Waker(t.msgs, t.phase, j, k);
  }

  lemma WakeupWorking(s: State, i: nat)
    requires Core(s) && Counted(s) && NoLostWakeup(s) && i < |s.msgs| && s.phase[i] == Working && Core(Advance(s, i))
    ensures NoLostWakeup(Advance(s, i))
  {
    hide Separate, BusySet, Counted, Legal;
    AtTurn(s.msgs, s.phase, s.seqno, i);
    CountWorking(s, i);
    var p := Advance(s, i).phase[i];
    WakersMove(s.msgs, s.phase, i, p);
    match s.msgs[i]
    case Request =>
    case Write =>
    case NoSenders =>
  }

  lemma WakersMove(msgs: seq<Kind>, phase: seq<Phase>, i: nat, p: Phase)
    requires |phase| == |msgs| && i < |msgs| && phase[i] != WakeWaiters
    ensures forall j: nat, k: Kind :: Waker(msgs, phase, j, k) ==> Waker(msgs, phase[i := p], j, k)
    ensures p == WakeWaiters ==> Waker(msgs, phase[i := p], i, msgs[i])
  {}

  lemma WakeupWaiters(s: State, i: nat)
    requires Core(s) && NoLostWakeup(s) && i < |s.msgs| && s.phase[i] == WakeWaiters && Core(Advance(s, i))
    ensures NoLostWakeup(Advance(s, i))
  {
    hide Separate;
    var t := Advance(s, i);
    AtWake(s.msgs, s.phase, s.seqno, i);
    assert forall j: nat, k: Kind :: k != s.msgs[i] && Waker(s.msgs, s.phase, j, k) ==> Waker(t.msgs, t.phase, j, k);
    assert Fits(s.msgs[i], s.phase[i]);
  }

  lemma WakeupRun(s: State, i: nat)
    requires Inv(s) && Enabled(s, Run(i)) && Legal(s.startOpen, s.msgs) && Core(Advance(s, i))
    ensures NoLostWakeup(Advance(s, i))
  {
    hide Separate, Counted, NoLostWakeup, Ordered, PortOk, Legal;
    match s.phase[i]
    case Arrived => WakeupArrived(s, i);
    case Turn => WakeupTurn(s, i);
    case ReadersGone => WakeupLater(s, i);
    case WritersGone => WakeupLater(s, i);
    case Wake => WakeupWake(s, i);
    case Working => WakeupWorking(s, i);
    case WakeWaiters => WakeupWaiters(s, i);
  }

  /** A terminate request that is past both waits is alone. */
  lemma Quiet(s: State, i: nat)
    requires Core(s) && Counted(s) && i < |s.msgs| && s.phase[i] == WritersGone
    ensures s.readers == 0 && s.writers == 0
  {
    AtTurn(s.msgs, s.phase, s.seqno, i);
    assert PastReaders(s.msgs[i], s.phase[i]) && PastWriters(s.phase[i]);
    assert BusySet(s.msgs, s.phase, Request) == {};
    assert BusySet(s.msgs, s.phase, Write) == {};
  }

  lemma OpenPrefix(start: bool, msgs: seq<Kind>, kind: Kind, n: nat)
    requires n <= |msgs|
    ensures Open(start, msgs + [kind], n) == Open(start, msgs, n)
  {
    if n > 0 { OpenPrefix(start, msgs, kind, n - 1); }
  }

  lemma BusyArrive(msgs: seq<Kind>, phase: seq<Phase>, kind: Kind, k: Kind)
    requires |phase| == |msgs|
    ensures BusySet(msgs + [kind], phase + [Arrived], k) == BusySet(msgs, phase, k)
    ensures forall j: nat :: Busy(msgs + [kind], phase + [Arrived], j, k) == Busy(msgs, phase, j, k)
    ensures forall j: nat :: Waker(msgs + [kind], phase + [Arrived], j, k) == Waker(msgs, phase, j, k)
  {}

  lemma CoreArrive(msgs: seq<Kind>, phase: seq<Phase>, seqno: nat, kind: Kind)
    requires Ordered(msgs, phase, seqno) && Separate(msgs, phase, seqno)
    requires forall n: nat :: n < |msgs| ==> msgs[n] != NoSenders
    ensures Ordered(msgs + [kind], phase + [Arrived], seqno) && Separate(msgs + [kind], phase + [Arrived], seqno)
  {
    BusyArrive(msgs, phase, kind, Request);
    BusyArrive(msgs, phase, kind, Write);
  }

  lemma ArriveKeeps(s: State, kind: Kind)
    requires Inv(s)
    requires forall n: nat :: n < |s.msgs| ==> s.msgs[n] != NoSenders
    ensures Inv(Apply(s, Arrive(kind)))
  {
    hide BusySet, Separate, Ordered;
    OpenPrefix(s.startOpen, s.msgs, kind, s.seqno);
    CoreArrive(s.msgs, s.phase, s.seqno, kind);
    BusyArrive(s.msgs, s.phase, kind, Request);
    BusyArrive(s.msgs, s.phase, kind, Write);
    InRange(s.msgs, s.phase, s.seqno);
  }

  lemma InRange(msgs: seq<Kind>, phase: seq<Phase>, seqno: nat)
    requires Ordered(msgs, phase, seqno)
    ensures |phase| == |msgs| && seqno <= |msgs|
  {}

  lemma RefsKeep(s: State, step: Step)
    requires Inv(s) && Enabled(s, step) && (step == DropRefs || step == RestoreRefs)
    ensures Inv(Apply(s, step))
  {
    hide BusySet, Separate, Ordered;
    SeparateBroadcast(s.msgs, s.phase, s.seqno);
    BusyBroadcast(s.msgs, s.phase, Request);
    BusyBroadcast(s.msgs, s.phase, Write);
    InRange(s.msgs, s.phase, s.seqno);
    forall j: nat, k: Kind ensures Waker(s.msgs, BroadcastRefs(s.phase), j, k) == Waker(s.msgs, s.phase, j, k) {}
  }

  lemma SameStart(s: State, step: Step)
    requires Enabled(s, step)
    ensures Apply(s, step).startOpen == s.startOpen
    ensures step.Run? ==> Apply(s, step).msgs == s.msgs
  {
    hide BroadcastSeqno, BroadcastReaders, BroadcastWriters, BroadcastRefs;
    if step.Run? {
      match s.phase[step.i]
      case Turn =>
      case Wake =>
      case WakeWaiters =>
      case Working =>
      case _ =>
    }
  }

  /** Every step of every thread keeps the invariant. */
  lemma StepKeepsInv(s: State, step: Step)
    requires Inv(s) && Enabled(s, step) && Legal(s.startOpen, Apply(s, step).msgs)
    ensures Inv(Apply(s, step))
  {
    hide Separate, Counted, NoLostWakeup, PortOk, Ordered, Advance;
    match step
    case Arrive(kind) =>
      var msgs := s.msgs + [kind];
      forall n: nat | n < |s.msgs| ensures s.msgs[n] != NoSenders {
        assert msgs[n] == s.msgs[n];
      }
      ArriveKeeps(s, kind);
    case DropRefs => RefsKeep(s, step);
    case RestoreRefs => RefsKeep(s, step);
    case Run(i) =>
      SameStart(s, step);
      if s.phase[i] == WritersGone { Quiet(s, i); }
      CoreRun(s, i);
      CountedRun(s, i);
      PortRun(s, i);
      WakeupRun(s, i);
  }
}
