/** What one call of kalloc gets, over every run: a block of the class that was
    looked up for its size, once, unless the kernel has no memory. */
module SmallBlockCalls {
  import opened Words
  import opened SmallBlocks
  import opened SmallBlockRuns

  /** Thread t has asked for a block of class c in step i and is still at it in
      the states up to the j-th. */
  ghost predicate InCall(states: seq<State>, steps: seq<Step>, i: nat, j: nat, t: nat, c: nat) {
    && IsRun(states, steps) && i <= j < |steps| == |states| - 1 && steps[i] == Request(t, c)
    && forall k :: i < k <= j ==> t in states[k].threads
  }

  /** The step hands the thread a block. */
  ghost predicate Serves(s: State, step: Step, t: nat) {
    && |s.heads| == KLIST_MAX && Handed(s, step) != []
    && (step.Request? || step.Grab? || step.Install?) && step.thread == t
  }

  lemma InvAt(states: seq<State>, steps: seq<Step>, k: nat)
    requires IsRun(states, steps) && k < |steps|
    ensures Inv(states[k]) && Inv(states[k + 1]) && Leads(states[k], steps[k], states[k + 1])
  {
    RunKeepsInv(states, steps, k);
    RunKeepsInv(states, steps, k + 1);
    assert Leads(states[k], steps[k], states[k + 1]);
  }

  /** What a step makes of a thread it leaves inside kget_space. */
  lemma ThreadAfter(s: State, step: Step, t: nat)
    requires Inv(s) && Ready(s) && Enabled(s, step) && t in Apply(s, step).threads
    ensures t in s.threads ==> Apply(s, step).threads[t].class_ == s.threads[t].class_
    ensures t in s.threads && s.threads[t].Dropping? ==> Apply(s, step).threads[t].Dropping? && !Serves(s, step, t)
    ensures t in s.threads && Apply(s, step).threads[t].Dropping? && !s.threads[t].Dropping? ==> Serves(s, step, t)
    ensures t in s.threads && Serves(s, step, t) ==> Apply(s, step).threads[t].Dropping?
    ensures t !in s.threads ==> step.Request? && step.thread == t && Apply(s, step).threads[t] == Wants(step.class_, 0)
    ensures t !in s.threads ==> !Serves(s, step, t)
  {
    hide Inv, ClassSize, RoundPage, Owned, Unowned, IsClass, Fresh;
    if step.Install? && step.thread == t {
      OneMap(s, t);
    }
  }

  /** The same, of a run. */
  lemma ThreadThen(states: seq<State>, steps: seq<Step>, k: nat, t: nat)
    requires IsRun(states, steps) && k < |steps| && t in states[k + 1].threads
    ensures t in states[k].threads ==> states[k + 1].threads[t].class_ == states[k].threads[t].class_
    ensures t in states[k].threads && states[k].threads[t].Dropping? ==>
      states[k + 1].threads[t].Dropping? && !Serves(states[k], steps[k], t)
    ensures t in states[k].threads && states[k + 1].threads[t].Dropping? && !states[k].threads[t].Dropping? ==>
      Serves(states[k], steps[k], t)
    ensures t in states[k].threads && Serves(states[k], steps[k], t) ==> states[k + 1].threads[t].Dropping?
    ensures t !in states[k].threads ==>
      steps[k].Request? && steps[k].thread == t && states[k + 1].threads[t] == Wants(steps[k].class_, 0)
    ensures t !in states[k].threads ==> !Serves(states[k], steps[k], t)
  {
    InvAt(states, steps, k);
    hide IsRun, Inv, Serves, Apply, Enabled, Ready;
    ThreadAfter(states[k], steps[k], t);
  }

  lemma RequestIsFirst(states: seq<State>, steps: seq<Step>, i: nat, t: nat, c: nat)
    requires IsRun(states, steps) && i < |steps| && steps[i] == Request(t, c)
    ensures t !in states[i].threads
  {
    InvAt(states, steps, i);
    hide IsRun, Inv, Apply;
  }

  /** A region that was mapped for a call is enough for it. */
  lemma OneMap(s: State, t: nat)
    requires Inv(s) && t in s.threads && s.threads[t].Holding?
    ensures t in Installed(s, t, s.threads[t]).threads ==> Installed(s, t, s.threads[t]).threads[t].Dropping?
  {
    ClassOfThread(s, t);
  }

  /** A call asks for the same class all the time. */
  lemma {:induction false} ClassKept(states: seq<State>, steps: seq<Step>, i: nat, j: nat, t: nat, c: nat)
    requires InCall(states, steps, i, j, t, c) && i < j
    ensures states[j].threads[t].class_ == c
  {
    hide IsRun, Serves;
    ThreadThen(states, steps, j - 1, t);
    if i + 1 == j {
      RequestIsFirst(states, steps, i, t, c);
    } else {
      ClassKept(states, steps, i, j - 1, t, c);
    }
  }

  /** The block handed out is as large as the class the thread is waiting for. */
  lemma HandedSize(s: State, step: Step, a: nat)
    requires Inv(s) && Ready(s) && Enabled(s, step) && a in Handed(s, step)
    ensures a in Apply(s, step).size
    ensures step.Request? ==> Apply(s, step).size[a] == ClassSize(step.class_)
    ensures step.Grab? || step.Install? ==> Apply(s, step).size[a] == ClassSize(s.threads[step.thread].class_)
    ensures step.AllocateLarge? ==> Apply(s, step).size[a] == step.length
  {
    hide Whole, Covered, Tails, Regions, Threads, GoodLists, AllListed, ClassSize, RoundPage, Owned, Unowned, Fresh;
    if step.Request? {
      HeadIsFree(s, step.class_);
    }
    if step.Install? {
      var t := step.thread;
      ClassOfThread(s, t);
      assert Adopted(s, s.threads[t].region, Wanted(s, s.threads[t].class_)).next in Handed(s, step)
        || s.next + ClassSize(s.threads[t].class_) <= s.end;
    }
  }

  /** The thread owns the bytes. */
  ghost predicate Owns(s: State, a: nat, bytes: nat) {
    IsLive(s, a) && forall x :: In(x, a, bytes) ==> x in s.owner && s.owner[x] == Live(a)
  }

  lemma LiveIsOwned(s: State, a: nat, bytes: nat)
    requires Inv(s) && IsLive(s, a) && bytes <= s.size[a]
    ensures Owns(s, a, bytes)
  {
    assert WholeBlock(s.owner, a, s.size[a]);
  }

  lemma InsideNoRequest(s: State, step: Step, t: nat)
    requires 0 < s.page && Enabled(s, step) && t in s.threads
    ensures step.Request? ==> step.thread != t
  {}

  /** What is asked of the kernel for a block is the least number of whole pages
      that hold it. */
  lemma RegionIsPages(s: State, c: nat) returns (pages: nat)
    requires 0 < s.page
    ensures Wanted(s, c) == pages * s.page && ClassSize(c) <= Wanted(s, c) < ClassSize(c) + s.page
  {
    hide ClassSize;
    var x := ClassSize(c) + s.page - 1;
    pages := x / s.page;
    assert x == pages * s.page + x % s.page;
  }

  /** Whoever calls kalloc for so many bytes and is handed a block owns that many
      bytes, in a block of the class looked up for them. */
  lemma BlockIsOfClass(states: seq<State>, steps: seq<Step>, i: nat, j: nat, t: nat, c: nat, a: nat, bytes: nat)
    requires InCall(states, steps, i, j, t, c) && Serves(states[j], steps[j], t) && a in Handed(states[j], steps[j])
    requires bytes <= ClassSize(c)
    ensures !IsLive(states[j], a)
    ensures a in states[j + 1].size && states[j + 1].size[a] == ClassSize(c)
    ensures Owns(states[j + 1], a, bytes)
  {
    hide IsRun, Inv, Apply, Handed, Enabled, Ready;
    InvAt(states, steps, j);
    if i < j {
      ClassKept(states, steps, i, j, t, c);
      InsideNoRequest(states[j], steps[j], t);
    }
    HandedSize(states[j], steps[j], a);
    LiveBlocks(states[j], steps[j], a);
    LiveIsOwned(states[j + 1], a, bytes);
  }

  /** A large block is as long as what was asked of the kernel. */
  lemma LargeIsOwned(states: seq<State>, steps: seq<Step>, j: nat, region: nat, length: nat)
    requires IsRun(states, steps) && j < |steps| && steps[j] == AllocateLarge(region, length)
    ensures region in states[j + 1].size && states[j + 1].size[region] == length
    ensures Owns(states[j + 1], region, length)
  {
    InvAt(states, steps, j);
    assert region in Handed(states[j], steps[j]);
    hide IsRun, Inv, Apply, Handed, Enabled, Ready;
    HandedSize(states[j], steps[j], region);
    LiveBlocks(states[j], steps[j], region);
    LiveIsOwned(states[j + 1], region, length);
  }

  /** It owns them until it gives the block back. */
  lemma {:induction false} OwnedUntilReturned(states: seq<State>, steps: seq<Step>, j: nat, k: nat, a: nat, bytes: nat)
    requires IsRun(states, steps) && j <= k < |states|
    requires Owns(states[j], a, bytes) && a in states[j].size && bytes <= states[j].size[a]
    requires forall m :: j <= m < k ==> a !in Returned(steps[m])
    ensures Owns(states[k], a, bytes) && a in states[k].size && states[k].size[a] == states[j].size[a]
  {
    if j < k {
      OwnedUntilReturned(states, steps, j, k - 1, a, bytes);
      InvAt(states, steps, k - 1);
      LiveBlocks(states[k - 1], steps[k - 1], a);
      LiveIsOwned(states[k], a, bytes);
    }
  }

  /** Once served, a call only has a region to give back. */
  lemma {:induction false} OnlyDropsAfter(states: seq<State>, steps: seq<Step>, i: nat, j: nat, k: nat, t: nat, c: nat)
    requires InCall(states, steps, i, k, t, c) && i <= j < k && Serves(states[j], steps[j], t)
    ensures states[k].threads[t].Dropping?
  {
    hide IsRun, Serves;
    ThreadThen(states, steps, k - 1, t);
    if j + 1 < k {
      OnlyDropsAfter(states, steps, i, j, k - 1, t, c);
    }
  }

  /** A call is handed one block. */
  lemma ServedOnce(states: seq<State>, steps: seq<Step>, i: nat, j: nat, k: nat, t: nat, c: nat)
    requires InCall(states, steps, i, k, t, c) && i <= j <= k
    requires Serves(states[j], steps[j], t) && Serves(states[k], steps[k], t)
    ensures j == k
  {
    if j < k {
      InvAt(states, steps, k);
      OnlyDropsAfter(states, steps, i, j, k, t, c);
    }
  }

  /** A thread with a region to give back has its block. */
  lemma {:induction false} DroppingIsServed(states: seq<State>, steps: seq<Step>, i: nat, j: nat, t: nat, c: nat)
    returns (m: nat)
    requires InCall(states, steps, i, j, t, c) && i < j && states[j].threads[t].Dropping?
    ensures i <= m < j && Serves(states[m], steps[m], t)
  {
    hide IsRun, Serves;
    ThreadThen(states, steps, j - 1, t);
    m := j - 1;
    if i == m {
      RequestIsFirst(states, steps, i, t, c);
    }
    if i < m && states[m].threads[t].Dropping? {
      m := DroppingIsServed(states, steps, i, m, t, c);
    }
  }

  lemma LeavesWithBlock(s: State, step: Step, t: nat)
    requires Inv(s) && Ready(s) && Enabled(s, step) && t !in Apply(s, step).threads
    requires t in s.threads || (step.Request? && step.thread == t)
    ensures step == KernelFails(t) || (step == Unmap(t) && s.threads[t].Dropping?) || Serves(s, step, t)
  {
    hide Inv, ClassSize, RoundPage, Owned, Unowned, Fresh;
    if step.Request? {
      assert |s.heads| == KLIST_MAX;
    }
  }

  /** A call ends with a block, or because the kernel has no memory. */
  lemma CallsAreAnswered(states: seq<State>, steps: seq<Step>, i: nat, j: nat, t: nat, c: nat) returns (m: nat)
    requires InCall(states, steps, i, j, t, c) && t !in states[j + 1].threads
    ensures steps[j] == KernelFails(t) || (i <= m <= j && Serves(states[m], steps[m], t))
  {
    hide IsRun, Inv;
    InvAt(states, steps, j);
    m := j;
    LeavesWithBlock(states[j], steps[j], t);
    if steps[j].Unmap? {
      m := DroppingIsServed(states, steps, i, j, t, c);
    }
  }
}
