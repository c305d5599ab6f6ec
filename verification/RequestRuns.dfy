/** What the request protocol guarantees over whole runs: order, separation and
    that every message is served. */
module RequestRuns {
  import opened RequestProtocol

  // ---- runs ----

  /** states[0], then one step after the other, with the kernel keeping its rules. */
  ghost predicate IsRun(states: seq<State>, steps: seq<Step>) {
    && |states| == |steps| + 1
    && (exists open: bool :: states[0] == Initial(open))
    && (forall k: nat :: k < |steps| ==> Enabled(states[k], steps[k]) && states[k + 1] == Apply(states[k], steps[k]))
    && (forall k: nat :: k < |states| ==> Legal(states[k].startOpen, states[k].msgs))
  }

  lemma {:induction false} RunKeepsInv(states: seq<State>, steps: seq<Step>, k: nat)
    requires IsRun(states, steps) && k < |states|
    ensures Inv(states[k])
  {
    hide Inv, Enabled, Apply, Legal;
    if k == 0 {
      var open: bool :| states[0] == Initial(open);
      InitialInv(open);
    } else {
      RunKeepsInv(states, steps, k - 1);
      SameStart(states[k - 1], steps[k - 1]);
      assert states[k] == Apply(states[k - 1], steps[k - 1]);
      StepKeepsInv(states[k - 1], steps[k - 1]);
    }
  }

  /** The panics of memory_object_init and of the no-senders notification, which
      test that the request port is unset, do not happen. */
  lemma NeverPanics(states: seq<State>, steps: seq<Step>, k: nat)
    requires IsRun(states, steps) && k < |states|
    ensures !states[k].panicked
    ensures states[k].seqno <= |states[k].msgs|
    ensures states[k].port == Open(states[k].startOpen, states[k].msgs, states[k].seqno)
  {
    RunKeepsInv(states, steps, k);
  }

  lemma InitialInv(open: bool)
    ensures Inv(Initial(open))
  {}

  lemma StepSeqno(s: State, step: Step)
    requires Inv(s) && Enabled(s, step)
    ensures s.seqno <= Apply(s, step).seqno
  {
    hide Inv, BroadcastSeqno, BroadcastReaders, BroadcastWriters, BroadcastRefs;
    if step.Run? { SeqnoOf(s, step.i); }
  }

  lemma SeqnoOf(s: State, i: nat)
    requires Shaped(s) && i < |s.msgs|
    ensures s.seqno <= Advance(s, i).seqno <= s.seqno + 1
  {
    hide BroadcastSeqno, BroadcastReaders, BroadcastWriters, BroadcastRefs;
    match s.phase[i]
    case Turn =>
    case Working =>
    case WakeWaiters =>
    case _ =>
  }

  lemma {:induction false} SeqnoGrows(states: seq<State>, steps: seq<Step>, k: nat, l: nat)
    requires IsRun(states, steps) && k <= l < |states|
    ensures states[k].seqno <= states[l].seqno
  {
    hide Inv, Enabled, Apply, Legal;
    if k < l {
      SeqnoGrows(states, steps, k, l - 1);
      RunKeepsInv(states, steps, l - 1);
      StepSeqno(states[l - 1], steps[l - 1]);
    }
  }

  /** Step k takes message i through the gate. */
  ghost predicate Enters(states: seq<State>, steps: seq<Step>, k: nat, i: nat)
    requires IsRun(states, steps)
  {
    k < |steps| && steps[k] == Run(i) && states[k].phase[i] == Arrived && states[k + 1].phase[i] == Turn
  }

  /** A thread past the gate never waits at it again. */
  lemma {:induction false} NeverBack(states: seq<State>, steps: seq<Step>, k: nat, l: nat, i: nat)
    requires IsRun(states, steps) && k <= l < |states|
    requires Shaped(states[k]) && i < |states[k].msgs| && !Waiting(states[k].phase[i])
    ensures Shaped(states[l]) && i < |states[l].msgs| && !Waiting(states[l].phase[i])
    decreases l - k
  {
    hide Enabled, Apply, Legal;
    if k < l {
      StepStaysPast(states[k], steps[k], i);
      assert states[k + 1] == Apply(states[k], steps[k]);
      NeverBack(states, steps, k + 1, l, i);
    }
  }

  lemma StepStaysPast(s: State, step: Step, i: nat)
    requires Enabled(s, step) && i < |s.msgs| && !Waiting(s.phase[i])
    ensures var t := Apply(s, step); Shaped(t) && i < |t.msgs| && !Waiting(t.phase[i])
  {
    if step.Run? { AdvanceStaysPast(s, step.i, i); }
  }

  lemma AdvanceStaysPast(s: State, j: nat, i: nat)
    requires Shaped(s) && j < |s.msgs| && i < |s.msgs| && !Waiting(s.phase[i])
    ensures var t := Advance(s, j); Shaped(t) && i < |t.msgs| && !Waiting(t.phase[i])
  {
    hide BroadcastSeqno, BroadcastReaders, BroadcastWriters, BroadcastRefs;
    match s.phase[j]
    case Wake => BroadcastStaysPast(s, j, i);
    case WakeWaiters => BroadcastStaysPast(s, j, i);
    case Turn => TurnStaysPast(s, j, i);
    case Arrived =>
    case ReadersGone =>
    case WritersGone =>
    case Working => WorkingStaysPast(s, j, i);
    case _ =>
  }

  lemma TurnStaysPast(s: State, j: nat, i: nat)
    requires Shaped(s) && j < |s.msgs| && i < |s.msgs| && !Waiting(s.phase[i]) && s.phase[j].Turn?
    ensures var t := Advance(s, j); Shaped(t) && i < |t.msgs| && !Waiting(t.phase[i])
  {
    match s.msgs[j]
    case Init =>
    case Write =>
    case Request =>
    case Terminate =>
    case NoSenders =>
  }

  lemma WorkingStaysPast(s: State, j: nat, i: nat)
    requires Shaped(s) && j < |s.msgs| && i < |s.msgs| && !Waiting(s.phase[i]) && s.phase[j].Working?
    ensures var t := Advance(s, j); Shaped(t) && i < |t.msgs| && !Waiting(t.phase[i])
  {}

  lemma BroadcastStaysPast(s: State, j: nat, i: nat)
    requires Shaped(s) && j < |s.msgs| && i < |s.msgs| && !Waiting(s.phase[i])
    requires s.phase[j].Wake? || s.phase[j].WakeWaiters?
    ensures var t := Advance(s, j); Shaped(t) && i < |t.msgs| && !Waiting(t.phase[i])
  {
    hide BroadcastSeqno, BroadcastReaders, BroadcastWriters, BroadcastRefs;
  }

  /** A message enters when it is its turn. */
  lemma EntersInTurn(states: seq<State>, steps: seq<Step>, k: nat, i: nat)
    requires IsRun(states, steps) && Enters(states, steps, k, i)
    ensures states[k].seqno == i && forall m: nat :: m < i ==> Passed(states[k].phase[m])
    ensures Shaped(states[k + 1]) && i < |states[k + 1].msgs| && !Waiting(states[k + 1].phase[i])
    ensures Waiting(states[k].phase[i])
  {
    RunKeepsInv(states, steps, k);
    assert states[k + 1] == Apply(states[k], steps[k]);
    hide Separate, Counted, NoLostWakeup, PortOk;
  }

  /** In every run, messages pass the gate in the order of their sequence
      numbers, each once, and only when all earlier ones have unlocked. */
  lemma GateInOrder(states: seq<State>, steps: seq<Step>, k: nat, l: nat, i: nat, j: nat)
    requires IsRun(states, steps) && k < l
    requires Enters(states, steps, k, i) && Enters(states, steps, l, j)
    ensures i < j
    ensures forall m: nat :: m < j ==> Passed(states[l].phase[m])
  {
    EntersInTurn(states, steps, k, i);
    EntersInTurn(states, steps, l, j);
    hide Inv, Enabled, Apply, Legal;
    SeqnoGrows(states, steps, k, l);
    NeverBack(states, steps, k + 1, l, i);
  }

  /** While a data request is read, and ever after, no write with a smaller
      sequence number is in progress. */
  lemma ReadsFollowWrites(states: seq<State>, steps: seq<Step>, k: nat, i: nat, j: nat)
    requires IsRun(states, steps) && k < |states| && Shaped(states[k])
    requires j < i < |states[k].msgs| && states[k].msgs[i] == Request && Passed(states[k].phase[i])
    requires states[k].msgs[j] == Write
    ensures Passed(states[k].phase[j]) && !InProgress(states[k].phase[j])
  {
    hide IsRun, Separate, Counted, NoLostWakeup, PortOk, Ordered;
    RunKeepsInv(states, steps, k);
    WrittenBefore(states[k].msgs, states[k].phase, states[k].seqno, i, j);
  }

  lemma WrittenBefore(msgs: seq<Kind>, phase: seq<Phase>, seqno: nat, i: nat, j: nat)
    requires Ordered(msgs, phase, seqno) && Separate(msgs, phase, seqno)
    requires j < i < |msgs| && msgs[i] == Request && Passed(phase[i]) && msgs[j] == Write
    ensures Passed(phase[j]) && !InProgress(phase[j])
  {
    assert i < seqno;
    assert !Busy(msgs, phase, j, Write);
  }

  /** When terminate clears the ports, no read and no write is in progress. */
  lemma TerminateIsAlone(states: seq<State>, steps: seq<Step>, k: nat, i: nat)
    requires IsRun(states, steps) && k < |steps| && steps[k] == Run(i)
    requires states[k].phase[i] == WritersGone
    ensures states[k].readers == 0 && states[k].writers == 0 && Shaped(states[k])
    ensures forall j: nat :: j < |states[k].msgs| && (states[k].msgs[j].Request? || states[k].msgs[j].Write?) ==>
      !InProgress(states[k].phase[j])
  {
    RunKeepsInv(states, steps, k);
    var s := states[k];
    Quiet(s, i);
    assert BusySet(s.msgs, s.phase, Request) == {} && BusySet(s.msgs, s.phase, Write) == {};
    assert forall j: nat, kind: Kind :: Busy(s.msgs, s.phase, j, kind) ==> j in BusySet(s.msgs, s.phase, kind);
    forall j: nat | j < |s.msgs| && (s.msgs[j].Request? || s.msgs[j].Write?) ensures !InProgress(s.phase[j]) {
      assert !Busy(s.msgs, s.phase, j, s.msgs[j]);
    }
  }

  lemma {:induction false} ClosedByTerminate(start: bool, msgs: seq<Kind>, n: nat, j: nat)
    requires j < n <= |msgs| && Legal(start, msgs) && !Open(start, msgs, n)
    requires msgs[j] == Request || msgs[j] == Write
    ensures exists t: nat :: j < t < n && msgs[t] == Terminate
  {
    if msgs[n - 1] != Terminate && j < n - 1 {
      ClosedByTerminate(start, msgs, n - 1, j);
    }
  }

  lemma LastWord(start: bool, msgs: seq<Kind>, i: nat)
    requires Legal(start, msgs) && i < |msgs| && msgs[i] == NoSenders
    ensures !Open(start, msgs, i) && i == |msgs| - 1
  {}

  lemma FinishedBefore(msgs: seq<Kind>, phase: seq<Phase>, seqno: nat, t: nat, j: nat)
    requires Ordered(msgs, phase, seqno) && Separate(msgs, phase, seqno)
    requires j < t < seqno && msgs[t] == Terminate && (msgs[j] == Request || msgs[j] == Write)
    ensures Passed(phase[j]) && !InProgress(phase[j])
  {
    assert !Busy(msgs, phase, j, msgs[j]);
  }

  lemma AloneAt(s: State, i: nat, j: nat)
    requires Core(s) && Legal(s.startOpen, s.msgs)
    requires i < |s.msgs| && s.msgs[i] == NoSenders && s.phase[i] == Working
    requires j < |s.msgs| && (s.msgs[j] == Request || s.msgs[j] == Write)
    ensures j < i && Passed(s.phase[j]) && !InProgress(s.phase[j])
  {
    hide Legal, Open, Ordered, Separate;
    AtTurn(s.msgs, s.phase, s.seqno, i);
    LastWord(s.startOpen, s.msgs, i);
    ClosedByTerminate(s.startOpen, s.msgs, i, j);
    var t: nat :| j < t < i && s.msgs[t] == Terminate;
    FinishedBefore(s.msgs, s.phase, s.seqno, t, j);
  }

  /** pager_dealloc, which runs when the no-senders notification is handled,
      never overlaps a read or a write. */
  lemma DeallocIsAlone(states: seq<State>, steps: seq<Step>, k: nat, i: nat, j: nat)
    requires IsRun(states, steps) && k < |states| && Shaped(states[k])
    requires i < |states[k].msgs| && states[k].msgs[i] == NoSenders && states[k].phase[i] == Working
    requires j < |states[k].msgs| && (states[k].msgs[j] == Request || states[k].msgs[j] == Write)
    ensures j < i && Passed(states[k].phase[j]) && !InProgress(states[k].phase[j])
  {
    RunKeepsInv(states, steps, k);
    AloneAt(states[k], i, j);
  }

  // ---- every request is served ----

  ghost predicate AllDone(s: State) {
    forall i: nat :: i < |s.phase| ==> s.phase[i] == Done
  }

  /** A step of a server thread, or of default_pager_objects handing the name
      references back. */
  predicate Internal(step: Step) { step.Run? || step.RestoreRefs? }

  lemma LastIsLast(s: State)
    requires Ordered(s.msgs, s.phase, s.seqno) && Legal(s.startOpen, s.msgs)
    requires s.seqno < |s.msgs| && Passed(s.phase[s.seqno])
    ensures s.seqno == |s.msgs| - 1
  {}

  /** There is no deadlock and no lost wake-up: until every message received has
      been handled, some thread can run. */
  lemma NoDeadlock(s: State) returns (step: Step)
    requires Inv(s) && Legal(s.startOpen, s.msgs) && !AllDone(s)
    ensures Internal(step) && Enabled(s, step)
  {
    hide Separate, PortOk, Ordered, Legal, BusySet, Counted, NoLostWakeup;
    InRange(s.msgs, s.phase, s.seqno);
    if s.seqno == |s.msgs| || Passed(s.phase[s.seqno]) {
      if s.seqno < |s.msgs| { LastIsLast(s); }
      var i: nat :| i < |s.phase| && s.phase[i] != Done;
      AtTurn(s.msgs, s.phase, s.seqno, i);
      step := Run(i);
    } else {
      step := WakerStep(s);
    }
  }

  lemma WakerStep(s: State) returns (step: Step)
    requires Inv(s) && s.seqno < |s.msgs| && !Passed(s.phase[s.seqno])
    ensures Internal(step) && Enabled(s, step)
  {
    hide Separate, PortOk, Ordered, BusySet, Counted;
    InRange(s.msgs, s.phase, s.seqno);
    match s.phase[s.seqno]
    case SleepSeqno => step := Run(s.seqno - 1);
    case SleepReaders => step := Run(SomeoneBusy(s, Request));
    case SleepWriters => step := Run(SomeoneBusy(s, Write));
    case SleepRefs => step := RestoreRefs;
    case _ => step := Run(s.seqno);
  }

  /** A thread whose next steps end in the broadcast the sleeper waits for. */
  ghost function SomeoneBusy(s: State, kind: Kind): (j: nat)
    requires Shaped(s) && Counted(s) && (kind == Request || kind == Write)
    requires (if kind == Request then s.readers else s.writers) > 0 || exists j: nat :: Waker(s.msgs, s.phase, j, kind)
    ensures j < |s.msgs| && (Busy(s.msgs, s.phase, j, kind) || Waker(s.msgs, s.phase, j, kind))
  {
    if (if kind == Request then s.readers else s.writers) > 0 then
      assert BusySet(s.msgs, s.phase, kind) != {};
      var j :| j in BusySet(s.msgs, s.phase, kind);
      j
    else
      var j: nat :| Waker(s.msgs, s.phase, j, kind);
      j
  }

  /** How far a message is from being handled. */
  function Rank(k: Kind, p: Phase): nat {
    match p
    case Arrived => 7
    case SleepSeqno => 7
    case Turn => 6
    case SleepReaders => 6
    case SleepWriters => if k == Terminate then 5 else 6
    case ReadersGone => 5
    case WritersGone => 4
    case SleepRefs => 4
    case Wake => 3
    case Working => 2
    case WakeWaiters => 1
    case Done => 0
  }

  function Awake(p: Phase): nat {
    if p.Arrived? || p.Turn? || p.ReadersGone? || p.WritersGone? then 1 else 0
  }

  function Ranks(msgs: seq<Kind>, phase: seq<Phase>, n: nat): nat
    requires n <= |msgs| && n <= |phase|
  {
    if n == 0 then 0 else Ranks(msgs, phase, n - 1) + Rank(msgs[n - 1], phase[n - 1])
  }

  function Awakes(phase: seq<Phase>, n: nat): (c: nat)
    requires n <= |phase|
    ensures c <= n
  {
    if n == 0 then 0 else Awakes(phase, n - 1) + Awake(phase[n - 1])
  }

  function Remaining(s: State): nat
    requires Shaped(s)
  {
    Ranks(s.msgs, s.phase, |s.msgs|) + if s.refsOut then 1 else 0
  }

  /** A bound on the number of internal steps that are still possible. */
  function Measure(s: State): nat
    requires Shaped(s)
  {
    Remaining(s) * (|s.msgs| + 1) + Awakes(s.phase, |s.phase|)
  }

  lemma {:induction false} RanksMove(msgs: seq<Kind>, phase: seq<Phase>, i: nat, p: Phase, n: nat)
    requires |phase| == |msgs| && i < |msgs| && n <= |msgs|
    ensures Ranks(msgs, phase[i := p], n) ==
      Ranks(msgs, phase, n) + (if i < n then Rank(msgs[i], p) - Rank(msgs[i], phase[i]) else 0)
    ensures Awakes(phase[i := p], n) == Awakes(phase, n) + (if i < n then Awake(p) - Awake(phase[i]) else 0)
  {
    if n > 0 { RanksMove(msgs, phase, i, p, n - 1); }
  }

  lemma {:induction false} RanksSame(msgs: seq<Kind>, phase: seq<Phase>, after: seq<Phase>, n: nat)
    requires |phase| == |msgs| == |after| && n <= |msgs|
    requires forall j: nat :: j < |msgs| ==> Rank(msgs[j], after[j]) == Rank(msgs[j], phase[j])
    ensures Ranks(msgs, after, n) == Ranks(msgs, phase, n)
  {
    if n > 0 { RanksSame(msgs, phase, after, n - 1); }
  }

  lemma RanksBroadcast(s: State)
    requires Ordered(s.msgs, s.phase, s.seqno)
    ensures Ranks(s.msgs, BroadcastSeqno(s.phase), |s.msgs|) == Ranks(s.msgs, s.phase, |s.msgs|)
    ensures Ranks(s.msgs, BroadcastReaders(s.phase), |s.msgs|) == Ranks(s.msgs, s.phase, |s.msgs|)
    ensures Ranks(s.msgs, BroadcastWriters(s.msgs, s.phase), |s.msgs|) == Ranks(s.msgs, s.phase, |s.msgs|)
    ensures Ranks(s.msgs, BroadcastRefs(s.phase), |s.msgs|) == Ranks(s.msgs, s.phase, |s.msgs|)
  {
    RanksSame(s.msgs, s.phase, BroadcastSeqno(s.phase), |s.msgs|);
    RanksSame(s.msgs, s.phase, BroadcastReaders(s.phase), |s.msgs|);
    RanksSame(s.msgs, s.phase, BroadcastWriters(s.msgs, s.phase), |s.msgs|);
    RanksSame(s.msgs, s.phase, BroadcastRefs(s.phase), |s.msgs|);
  }

  ghost predicate Lower(s: State, t: State)
    requires Shaped(s)
  {
    && Shaped(t) && t.msgs == s.msgs
    && (Remaining(t) < Remaining(s) ||
        (Remaining(t) == Remaining(s) && Awakes(t.phase, |t.msgs|) < Awakes(s.phase, |s.msgs|)))
  }

  lemma LowerMove(s: State, t: State, woken: seq<Phase>, i: nat, p: Phase)
    requires Shaped(s) && i < |s.msgs| && |woken| == |s.msgs|
    requires t.msgs == s.msgs && t.phase == woken[i := p] && t.refsOut == s.refsOut
    requires Ranks(s.msgs, woken, |s.msgs|) == Ranks(s.msgs, s.phase, |s.msgs|) && woken[i] == s.phase[i]
    requires Rank(s.msgs[i], p) < Rank(s.msgs[i], s.phase[i]) ||
      (woken == s.phase && Rank(s.msgs[i], p) == Rank(s.msgs[i], s.phase[i]) && Awake(p) < Awake(s.phase[i]))
    ensures Lower(s, t)
  {
    RanksMove(s.msgs, woken, i, p, |s.msgs|);
  }

  /** Each step of a thread brings the end nearer: either a message gets
      further, or a thread goes to sleep. */
  lemma RunLowers(s: State, i: nat)
    requires Inv(s) && Enabled(s, Run(i)) && Legal(s.startOpen, s.msgs)
    ensures Lower(s, Advance(s, i))
  {
    hide Separate, NoLostWakeup, Counted, BusySet, Ranks, Awakes, Lower, Legal, Ordered, BroadcastSeqno,
      BroadcastReaders, BroadcastWriters;
    var t := Advance(s, i);
    AtTurn(s.msgs, s.phase, s.seqno, i);
    RanksBroadcast(s);
    match s.phase[i]
    case Arrived => LowerMove(s, t, s.phase, i, if s.seqno == i then Turn else SleepSeqno);
    case Turn => TurnLowers(s, i);
    case ReadersGone => LowerMove(s, t, s.phase, i, if s.writers != 0 then SleepWriters else WritersGone);
    case WritersGone => LowerMove(s, t, s.phase, i, if !RefsReady(s) then SleepRefs else Wake);
    case _ => PassedLowers(s, i);
  }

  lemma PassedLowers(s: State, i: nat)
    requires Shaped(s) && Ordered(s.msgs, s.phase, s.seqno) && Counted(s) && i < |s.msgs|
    requires s.phase[i] == Wake || s.phase[i] == Working || s.phase[i] == WakeWaiters
    ensures Lower(s, Advance(s, i))
  {
    hide Counted, BusySet, Ranks, Awakes, Lower, Ordered;
    var t := Advance(s, i);
    AtTurn(s.msgs, s.phase, s.seqno, i);
    RanksBroadcast(s);
    match s.phase[i]
    case Wake => LowerMove(s, t, BroadcastSeqno(s.phase), i,
      if s.msgs[i].Request? || s.msgs[i].Write? then Working else Done);
    case Working =>
      CountWorking(s, i);
      LowerMove(s, t, s.phase, i, if t.phase[i] == WakeWaiters then WakeWaiters else Done);
    case WakeWaiters =>
      LowerMove(s, t, if s.msgs[i] == Request then BroadcastReaders(s.phase) else BroadcastWriters(s.msgs, s.phase),
        i, Done);
  }

  lemma TurnLowers(s: State, i: nat)
    requires Shaped(s) && PortOk(s) && Legal(s.startOpen, s.msgs) && i == s.seqno < |s.msgs| && s.phase[i] == Turn
    ensures Lower(s, Advance(s, i))
  {
    hide Ranks, Awakes, Lower;
    var t := Advance(s, i);
    match s.msgs[i]
    case Init => LowerMove(s, t, s.phase, i, Wake);
    case Write => LowerMove(s, t, s.phase, i, Wake);
    case Request => LowerMove(s, t, s.phase, i, if s.writers != 0 then SleepWriters else Wake);
    case Terminate => LowerMove(s, t, s.phase, i, if s.readers != 0 then SleepReaders else ReadersGone);
    case NoSenders => LowerMove(s, t, s.phase, i, Working);
  }

  lemma RefsLower(s: State)
    requires Inv(s) && s.refsOut
    ensures Lower(s, Apply(s, RestoreRefs))
  {
    hide Ranks, Awakes;
    RanksBroadcast(s);
  }

  lemma InternalLowers(s: State, step: Step)
    requires Inv(s) && Legal(s.startOpen, s.msgs) && Enabled(s, step) && Internal(step)
    ensures Shaped(Apply(s, step)) && Measure(Apply(s, step)) < Measure(s)
  {
    hide Inv, Ranks, Awakes, Legal, Advance;
    assert Lower(s, Apply(s, step)) by {
      match step
      case Run(i) => RunLowers(s, i);
      case RestoreRefs => RefsLower(s);
    }
    Lexicographic(Remaining(Apply(s, step)), Awakes(Apply(s, step).phase, |s.msgs|), Remaining(s),
      Awakes(s.phase, |s.msgs|), |s.msgs|);
  }

  lemma Lexicographic(a: nat, b: nat, c: nat, d: nat, n: nat)
    requires b <= n && d <= n && (a < c || (a == c && b < d))
    ensures a * (n + 1) + b < c * (n + 1) + d
  {
    if a < c {
      assert a * (n + 1) + (n + 1) == (a + 1) * (n + 1) <= c * (n + 1);
    }
  }

  // ---- every message does its work, once ----

  /** The step of a thread that does what its message asks for: the read, the
      write or the deallocation ends, or the port is set or cleared. */
  ghost predicate DoesWork(s: State, t: State, i: nat)
    requires i < |s.msgs| && i < |s.phase|
  {
    match s.msgs[i]
    case Init => !s.port && t.port
    case Terminate => s.port && !t.port && !s.refsOut && s.readers == 0 && s.writers == 0
    case NoSenders => s.phase[i] == Working && !s.port
    case _ => s.phase[i] == Working && s.port
  }

  /** The phases after it. */
  predicate Worked(k: Kind, p: Phase) {
    if k.Init? || k.Terminate? then Passed(p) else p.WakeWaiters? || p.Done?
  }

  ghost predicate WorksAt(states: seq<State>, steps: seq<Step>, l: nat, i: nat)
    requires |states| == |steps| + 1
  {
    && l < |steps| && steps[l] == Run(i) && Shaped(states[l]) && i < |states[l].msgs|
    && DoesWork(states[l], states[l + 1], i)
  }

  /** A read or write in progress finds the port set. */
  lemma WorksWhileOpen(s: State, i: nat)
    requires Inv(s) && Legal(s.startOpen, s.msgs) && i < |s.msgs| && s.phase[i] == Working
    ensures s.msgs[i] == NoSenders ==> !s.port
    ensures s.msgs[i] == Request || s.msgs[i] == Write ==> s.port
  {
    AtTurn(s.msgs, s.phase, s.seqno, i);
    hide NoLostWakeup, Counted;
    if s.msgs[i] == NoSenders {
      LastWord(s.startOpen, s.msgs, i);
    } else if (s.msgs[i] == Request || s.msgs[i] == Write) && !s.port {
      hide Legal;
      ClosedByTerminate(s.startOpen, s.msgs, s.seqno, i);
      var t: nat :| i < t < s.seqno && s.msgs[t] == Terminate;
      FinishedBefore(s.msgs, s.phase, s.seqno, t, i);
    }
  }

  lemma TurnWorks(s: State, i: nat)
    requires Inv(s) && Legal(s.startOpen, s.msgs) && i < |s.msgs| && s.phase[i] == Turn
    ensures var t := TakeTurn(s, i);
      Shaped(t) && t.msgs == s.msgs && (Worked(s.msgs[i], t.phase[i]) <==> DoesWork(s, t, i))
    ensures forall j: nat :: j < |s.msgs| && j != i ==> TakeTurn(s, i).phase[j] == s.phase[j]
  {
    AtTurn(s.msgs, s.phase, s.seqno, i);
    OpenNext(s.startOpen, s.msgs, s.seqno);
    hide NoLostWakeup, Counted, Separate, Ordered, Open, Legal;
    match s.msgs[i]
    case Init =>
    case Write =>
    case Request =>
    case Terminate =>
    case NoSenders =>
  }

  /** A thread past its work has no more to do, and gets there by doing it. */
  lemma WorkStep(s: State, step: Step, i: nat)
    requires Inv(s) && Enabled(s, step) && Legal(s.startOpen, s.msgs) && i < |s.msgs|
    ensures var t := Apply(s, step); Shaped(t) && i < |t.msgs| && t.msgs[i] == s.msgs[i]
    ensures var t := Apply(s, step); var works := step == Run(i) && DoesWork(s, t, i);
      && (Worked(t.msgs[i], t.phase[i]) <==> Worked(s.msgs[i], s.phase[i]) || works)
      && (works ==> !Worked(s.msgs[i], s.phase[i]))
  {
    assert Fits(s.msgs[i], s.phase[i]);
    if step.Run? {
      hide Inv, Legal;
      RunWorks(s, step.i, i);
    }
  }

  lemma RunWorks(s: State, j: nat, i: nat)
    requires Inv(s) && Legal(s.startOpen, s.msgs) && i < |s.msgs| && j < |s.msgs|
    requires s.phase[j] != Done && !Asleep(s.phase[j])
    ensures var t := Advance(s, j); Shaped(t) && t.msgs == s.msgs
    ensures var t := Advance(s, j); var works := j == i && DoesWork(s, t, i);
      && (Worked(s.msgs[i], t.phase[i]) <==> Worked(s.msgs[i], s.phase[i]) || works)
      && (works ==> !Worked(s.msgs[i], s.phase[i]))
  {
    assert Fits(s.msgs[i], s.phase[i]) && Fits(s.msgs[j], s.phase[j]);
    AtTurn(s.msgs, s.phase, s.seqno, j);
    match s.phase[j]
    case Turn => TurnWorks(s, j);
    case Working => WorkingWorks(s, j);
    case Wake => BroadcastWorks(s, j, i);
    case WakeWaiters => BroadcastWorks(s, j, i);
    case _ => EarlierWorks(s, j, i);
  }

  lemma BroadcastWorks(s: State, j: nat, i: nat)
    requires Shaped(s) && i < |s.msgs| && j < |s.msgs| && Fits(s.msgs[i], s.phase[i]) && Fits(s.msgs[j], s.phase[j])
    requires s.phase[j] == WakeWaiters || (s.phase[j] == Wake && s.msgs[j] != NoSenders)
    ensures var t := Advance(s, j); Shaped(t) && t.msgs == s.msgs && t.port == s.port
    ensures Worked(s.msgs[i], Advance(s, j).phase[i]) <==> Worked(s.msgs[i], s.phase[i])
  {
    hide BroadcastSeqno, BroadcastReaders, BroadcastWriters, BroadcastRefs;
  }

  lemma EarlierWorks(s: State, j: nat, i: nat)
    requires Shaped(s) && i < |s.msgs| && j < |s.msgs| && Core(s) && Counted(s)
    requires s.phase[j] == Arrived || s.phase[j] == ReadersGone || s.phase[j] == WritersGone
    ensures var t := Advance(s, j); Shaped(t) && t.msgs == s.msgs
    ensures var t := Advance(s, j); var works := j == i && DoesWork(s, t, i);
      && (Worked(s.msgs[i], t.phase[i]) <==> Worked(s.msgs[i], s.phase[i]) || works)
      && (works ==> !Worked(s.msgs[i], s.phase[i]))
  {
    assert Fits(s.msgs[i], s.phase[i]) && Fits(s.msgs[j], s.phase[j]);
    if s.phase[j] == WritersGone { Quiet(s, j); }
    hide Core, Counted;
  }

  lemma WorkingWorks(s: State, i: nat)
    requires Inv(s) && Legal(s.startOpen, s.msgs) && i < |s.msgs| && s.phase[i] == Working
    ensures var t := Advance(s, i);
      Shaped(t) && t.msgs == s.msgs && t.port == s.port && Worked(s.msgs[i], t.phase[i]) && DoesWork(s, t, i)
    ensures forall j: nat :: j < |s.msgs| && j != i ==> Advance(s, i).phase[j] == s.phase[j]
  {
    assert Fits(s.msgs[i], s.phase[i]);
    WorksWhileOpen(s, i);
    hide Inv, Legal;
  }

  lemma StepMsgs(s: State, step: Step)
    requires Inv(s) && Legal(s.startOpen, s.msgs) && Enabled(s, step)
    ensures var t := Apply(s, step);
      && Shaped(s) && |s.msgs| <= |t.msgs|
      && forall i: nat :: |s.msgs| <= i < |t.msgs| && i < |t.phase| ==> t.phase[i] == Arrived
  {
    if step.Run? { RunLowers(s, step.i); }
    hide Advance, Inv, Legal, Remaining, Awakes;
  }

  lemma {:induction false} MsgsGrow(states: seq<State>, steps: seq<Step>, l: nat, k: nat)
    requires IsRun(states, steps) && l <= k < |states|
    ensures |states[l].msgs| <= |states[k].msgs|
  {
    hide Inv, Enabled, Apply, Legal;
    if l < k {
      MsgsGrow(states, steps, l, k - 1);
      RunKeepsInv(states, steps, k - 1);
      StepMsgs(states[k - 1], steps[k - 1]);
    }
  }

  /** Before step k the thread of message i has done its work. */
  ghost predicate HasWorked(states: seq<State>, steps: seq<Step>, k: nat, i: nat)
    requires |states| == |steps| + 1
  {
    exists l: nat :: l < k && WorksAt(states, steps, l, i)
  }

  ghost predicate WorksOnce(states: seq<State>, steps: seq<Step>, k: nat, i: nat)
    requires |states| == |steps| + 1
  {
    forall l: nat, m: nat :: l < k && m < k && WorksAt(states, steps, l, i) && WorksAt(states, steps, m, i) ==> l == m
  }

  lemma OneMoreStep(states: seq<State>, steps: seq<Step>, k: nat, i: nat)
    requires |states| == |steps| + 1 && k < |steps| && WorksOnce(states, steps, k, i)
    requires WorksAt(states, steps, k, i) ==> !HasWorked(states, steps, k, i)
    ensures HasWorked(states, steps, k + 1, i) <==> HasWorked(states, steps, k, i) || WorksAt(states, steps, k, i)
    ensures WorksOnce(states, steps, k + 1, i)
  {
    hide WorksAt;
    if HasWorked(states, steps, k + 1, i) {
      var l: nat :| l < k + 1 && WorksAt(states, steps, l, i);
      assert l < k ==> HasWorked(states, steps, k, i);
    }
  }

  /** In every run a message is past its work exactly if its thread has done it, and
      it does it only once. */
  lemma {:induction false} WorkedOnce(states: seq<State>, steps: seq<Step>, k: nat, i: nat)
    requires IsRun(states, steps) && k < |states| && Shaped(states[k]) && i < |states[k].msgs|
    ensures Worked(states[k].msgs[i], states[k].phase[i]) <==> HasWorked(states, steps, k, i)
    ensures WorksOnce(states, steps, k, i)
  {
    if k > 0 {
      RunKeepsInv(states, steps, k - 1);
      assert states[k] == Apply(states[k - 1], steps[k - 1]);
      StepMsgs(states[k - 1], steps[k - 1]);
      if i < |states[k - 1].msgs| {
        hide Inv, Apply, Legal, Enabled, DoesWork, Worked, HasWorked, WorksOnce;
        WorkedOnce(states, steps, k - 1, i);
        WorkStep(states[k - 1], steps[k - 1], i);
        OneMoreStep(states, steps, k - 1, i);
      } else {
        NotYet(states, steps, k, i);
      }
    }
  }

  /** A message that has just arrived has not been worked on. */
  lemma NotYet(states: seq<State>, steps: seq<Step>, k: nat, i: nat)
    requires IsRun(states, steps) && 0 < k < |states| && Shaped(states[k])
    requires |states[k - 1].msgs| <= i < |states[k].msgs|
    ensures !Worked(states[k].msgs[i], states[k].phase[i])
    ensures !HasWorked(states, steps, k, i) && WorksOnce(states, steps, k, i)
  {
    hide Inv, Apply, Enabled, Legal, Worked, WorksAt, HasWorked, WorksOnce;
    RunKeepsInv(states, steps, k - 1);
    NoneEarlier(states, steps, k, i);
    JustArrived(states[k - 1], steps[k - 1], states[k], i);
  }

  lemma JustArrived(s: State, step: Step, t: State, i: nat)
    requires Inv(s) && Legal(s.startOpen, s.msgs) && Enabled(s, step) && t == Apply(s, step)
    requires Shaped(t) && |s.msgs| <= i < |t.msgs|
    ensures t.phase[i] == Arrived && !Worked(t.msgs[i], t.phase[i])
  {
    StepMsgs(s, step);
    hide Inv, Apply, Enabled, Legal;
  }

  lemma NoneEarlier(states: seq<State>, steps: seq<Step>, k: nat, i: nat)
    requires IsRun(states, steps) && 0 < k < |states| && |states[k - 1].msgs| <= i
    ensures !HasWorked(states, steps, k, i) && WorksOnce(states, steps, k, i)
  {
    forall l: nat | l < k ensures !WorksAt(states, steps, l, i) {
      MsgsGrow(states, steps, l, k - 1);
      hide IsRun, DoesWork;
    }
  }

  /** The port is set by init and cleared by terminate, and by nothing else. */
  lemma PortChanges(states: seq<State>, steps: seq<Step>, l: nat)
    requires IsRun(states, steps) && l < |steps| && states[l].port != states[l + 1].port
    ensures steps[l].Run? && WorksAt(states, steps, l, steps[l].i)
    ensures states[l].msgs[steps[l].i] == if states[l].port then Terminate else Init
  {
    RunKeepsInv(states, steps, l);
    hide Legal, Inv;
    ChangedByRun(states[l], steps[l]);
  }

  lemma ChangedByRun(s: State, step: Step)
    requires Inv(s) && Enabled(s, step) && Apply(s, step).port != s.port
    ensures step.Run? && step.i < |s.msgs| && Shaped(s) && DoesWork(s, Apply(s, step), step.i)
    ensures s.msgs[step.i] == if s.port then Terminate else Init
  {
    var i := step.i;
    assert Fits(s.msgs[i], s.phase[i]);
    if s.phase[i] == WritersGone {
      Quiet(s, i);
      hide Inv;
    } else {
      hide Inv;
      ChangedInTurn(s, i);
    }
  }

  lemma ChangedInTurn(s: State, i: nat)
    requires Shaped(s) && i < |s.msgs| && s.phase[i] != WritersGone && Advance(s, i).port != s.port
    ensures s.phase[i] == Turn && s.msgs[i] == Init && !s.port && Advance(s, i).port
  {
    hide BroadcastSeqno, BroadcastReaders, BroadcastWriters, BroadcastRefs;
  }

  /** Whatever is done has done its work, once. */
  lemma DoneHasWorked(states: seq<State>, steps: seq<Step>, k: nat, i: nat)
    requires IsRun(states, steps) && k < |states| && Shaped(states[k]) && i < |states[k].msgs|
    requires states[k].phase[i] == Done
    ensures HasWorked(states, steps, k, i) && WorksOnce(states, steps, k, i)
  {
    WorkedOnce(states, steps, k, i);
  }

  /** Every message has been read, written, deallocated or heeded, once. */
  ghost predicate AllWorked(states: seq<State>, steps: seq<Step>)
    requires |states| == |steps| + 1
  {
    forall i: nat :: i < |states[|steps|].msgs| ==>
      HasWorked(states, steps, |steps|, i) && WorksOnce(states, steps, |steps|, i)
  }

  lemma DoneAllWorked(states: seq<State>, steps: seq<Step>)
    requires |states| == |steps| + 1 && IsRun(states, steps)
    requires Shaped(states[|steps|]) && AllDone(states[|steps|])
    ensures AllWorked(states, steps)
  {
    hide IsRun, HasWorked, WorksOnce;
    forall i: nat | i < |states[|steps|].msgs|
      ensures HasWorked(states, steps, |steps|, i) && WorksOnce(states, steps, |steps|, i)
    {
      DoneHasWorked(states, steps, |steps|, i);
    }
  }

  /** However the threads are scheduled, once no more messages arrive they can
      only take so many steps; and when none of them can take one, every message
      has been handled. */
  lemma {:induction false} EveryRequestIsServed(states: seq<State>, steps: seq<Step>, k: nat)
    requires IsRun(states, steps) && k < |states| && Shaped(states[k])
    requires forall l: nat :: k <= l < |steps| ==> Internal(steps[l])
    ensures |steps| - k <= Measure(states[k])
    ensures (forall step :: Internal(step) ==> !Enabled(states[|steps|], step)) ==>
      AllDone(states[|steps|]) && AllWorked(states, steps)
    decreases |steps| - k
  {
    hide Inv, Apply, Legal, Enabled, Measure, AllDone, AllWorked;
    RunKeepsInv(states, steps, k);
    if k == |steps| {
      if !AllDone(states[k]) {
        var step := NoDeadlock(states[k]);
      } else {
        DoneAllWorked(states, steps);
      }
    } else {
      assert states[k + 1] == Apply(states[k], steps[k]);
      InternalLowers(states[k], steps[k]);
      EveryRequestIsServed(states, steps, k + 1);
    }
  }
}

