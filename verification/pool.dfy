/**
 * The bookkeeping of the job pool: a pending queue, a running queue, two
 * counters that mirror their lengths, a worker limit and a waiting limit.
 * Every public operation of the pool runs under one lock, so each method of
 * `Pool` below is one atomic transition of that state.
 */
module JobPool {
  import opened Common

  /** Some element of `s` is equal to `probe` by the probe's own equality. */
  predicate HasMatch<J>(eq: (J, J) -> bool, probe: J, s: seq<J>)
  {
    exists i :: 0 <= i < |s| && eq(probe, s[i])
  }

  /** Index of the first element of `s`, front to back, that `probe` calls equal. */
  function FirstMatch<J>(eq: (J, J) -> bool, probe: J, s: seq<J>): (r: Option<nat>)
    ensures r.Some? ==> r.value < |s| && eq(probe, s[r.value])
    ensures r.Some? ==> forall k :: 0 <= k < r.value ==> !eq(probe, s[k])
    ensures r.None? <==> !HasMatch(eq, probe, s)
  {
    if s == [] then None
    else if eq(probe, s[0]) then Some(0)
    else match FirstMatch(eq, probe, s[1..])
      case None =>
        assert forall i :: 1 <= i < |s| ==> s[i] == s[1..][i - 1];
        None
      case Some(i) => Some(i + 1)
  }

  /** `s` without its element at index `i`; the rest keep their order. */
  function RemoveAt<J>(s: seq<J>, i: nat): (r: seq<J>)
    requires i < |s|
    ensures |r| == |s| - 1
    ensures forall k :: 0 <= k < i ==> r[k] == s[k]
    ensures forall k :: i <= k < |r| ==> r[k] == s[k + 1]
    ensures multiset(r) + multiset{s[i]} == multiset(s)
  {
    assert s == s[..i] + [s[i]] + s[i + 1..];
    s[..i] + s[i + 1..]
  }

  /** Admission evicts when backpressure is on (a positive waiting limit) and
      the waiting count already exceeds that limit. */
  predicate Evicts(waiting: int, maxWaiting: int)
  {
    maxWaiting > 0 && waiting > maxWaiting
  }

  /** The pending queue after admitting `t`: the oldest entry is dropped when
      admission evicts, and `t` always joins at the back. */
  function Admit<J>(pending: seq<J>, maxWaiting: int, t: J): (r: seq<J>)
    ensures |r| > 0 && r[|r| - 1] == t
    ensures Evicts(|pending|, maxWaiting) ==> r[..|r| - 1] == pending[1..]
    ensures !Evicts(|pending|, maxWaiting) ==> r[..|r| - 1] == pending
    ensures maxWaiting > 0 && |pending| <= maxWaiting + 1 ==> |r| <= maxWaiting + 1
    ensures maxWaiting > 0 && |pending| == maxWaiting ==> |r| == maxWaiting + 1
  {
    if Evicts(|pending|, maxWaiting) then pending[1..] + [t] else pending + [t]
  }

  /** `a` is what remains of `b` once some of its front is dropped. */
  ghost predicate IsSuffix<J>(a: seq<J>, b: seq<J>)
  {
    |a| <= |b| && a == b[|b| - |a|..]
  }

  /** The pending queue after admitting every job of `ts`, in order, with no
      other operation in between. Admission only drops from the front and
      appends at the back, so the result is the old queue followed by the
      submitted jobs, less some oldest ones, and the last job submitted is
      at the back. */
  function AdmitAll<J>(pending: seq<J>, maxWaiting: int, ts: seq<J>): (r: seq<J>)
    ensures IsSuffix(r, pending + ts)
    ensures ts != [] ==> |r| > 0 && r[|r| - 1] == ts[|ts| - 1]
    decreases |ts|
  {
    if ts == [] then pending
    else
      var q := Admit(pending, maxWaiting, ts[0]);
      var r := AdmitAll(q, maxWaiting, ts[1..]);
      assert |r| > 0 by {
        if ts[1..] == [] {
          assert r == q;
        }
      }
      SuffixStep(pending, ts, q, r);
      r
  }

  /** The step of `AdmitAll`: admitting `ts[0]` leaves a suffix of
      `pending + [ts[0]]`, and a suffix of that followed by the remaining jobs
      is a suffix of `pending + ts`. */
  lemma SuffixStep<J>(pending: seq<J>, ts: seq<J>, q: seq<J>, r: seq<J>)
    requires ts != [] && IsSuffix(q, pending + [ts[0]]) && IsSuffix(r, q + ts[1..])
    ensures IsSuffix(r, pending + ts)
    ensures |r| > 0 ==> r[|r| - 1] == ts[|ts| - 1]
  {
    var all := pending + ts;
    assert all == pending + [ts[0]] + ts[1..];
    var d := |pending| + 1 - |q|;
    assert q + ts[1..] == all[d..];
    assert r == all[d..][|all| - d - |r|..];
    if |r| > 0 {
      assert r[|r| - 1] == all[|all| - 1];
    }
  }

  /** Admitting `a` and then `b` is admitting `a + b`. */
  lemma {:induction false} AdmitAllAppend<J>(pending: seq<J>, maxWaiting: int, a: seq<J>, b: seq<J>)
    ensures AdmitAll(pending, maxWaiting, a + b) == AdmitAll(AdmitAll(pending, maxWaiting, a), maxWaiting, b)
    decreases |a|
  {
    if a == [] {
      assert a + b == b;
    } else {
      assert (a + b)[0] == a[0] && (a + b)[1..] == a[1..] + b;
      AdmitAllAppend(Admit(pending, maxWaiting, a[0]), maxWaiting, a[1..], b);
    }
  }

  /** With backpressure on, a pending queue of at most `maxWaiting + 1` jobs
      stays within that bound under any run of admissions; `maxWaiting + 1`
      and not `maxWaiting` is the bound. */
  lemma {:induction false} AdmitAllKeepsBound<J>(pending: seq<J>, maxWaiting: int, ts: seq<J>)
    requires maxWaiting > 0 && |pending| <= maxWaiting + 1
    ensures |AdmitAll(pending, maxWaiting, ts)| <= maxWaiting + 1
    decreases |ts|
  {
    if ts != [] {
      AdmitAllKeepsBound(Admit(pending, maxWaiting, ts[0]), maxWaiting, ts[1..]);
    }
  }

  /** Admissions that never find the waiting count above the limit (or with
      backpressure off) append every job in submission order. */
  lemma {:induction false} AdmitAllWithoutEviction<J>(pending: seq<J>, maxWaiting: int, ts: seq<J>)
    requires maxWaiting <= 0 || |pending| + |ts| <= maxWaiting + 1
    ensures AdmitAll(pending, maxWaiting, ts) == pending + ts
    decreases |ts|
  {
    if ts != [] {
      assert !Evicts(|pending|, maxWaiting);
      assert AdmitAll(pending, maxWaiting, ts) == AdmitAll(pending + [ts[0]], maxWaiting, ts[1..]);
      AdmitAllWithoutEviction(pending + [ts[0]], maxWaiting, ts[1..]);
      assert pending + [ts[0]] + ts[1..] == pending + ts;
    }
  }

  /** Drop-oldest: with waiting limit `maxWaiting > 0`, submitting
      `maxWaiting + 2` jobs to an empty pool that promotes nothing leaves all
      but the very first one pending, in submission order. */
  lemma DropOldest<J>(maxWaiting: int, ts: seq<J>)
    requires maxWaiting > 0 && |ts| == maxWaiting + 2
    ensures AdmitAll([], maxWaiting, ts) == ts[1..]
  {
    var k := maxWaiting + 1;
    assert ts == ts[..k] + [ts[k]];
    AdmitAllAppend([], maxWaiting, ts[..k], [ts[k]]);
    AdmitAllWithoutEviction([], maxWaiting, ts[..k]);
    assert [] + ts[..k] == ts[..k];
    assert ts[..k][1..] + [ts[k]] == ts[1..];
  }

  /** One promotion: the front pending job moves to the back of running.
      Running followed by pending is the same sequence before and after; only
      the boundary between the queues moves, by one job if any is pending. */
  function Promote<J>(pending: seq<J>, running: seq<J>): (r: (seq<J>, seq<J>))
    ensures r.1 + r.0 == running + pending
    ensures |r.1| == if pending == [] then |running| else |running| + 1
  {
    if pending == [] then (pending, running)
    else
      assert running + [pending[0]] + pending[1..] == running + pending;
      (pending[1..], running + [pending[0]])
  }

  /** `k` promotions in a row: the boundary moves by `k` jobs, or until
      nothing is pending. */
  function PromoteN<J>(pending: seq<J>, running: seq<J>, k: nat): (r: (seq<J>, seq<J>))
    ensures r.1 + r.0 == running + pending
    ensures |r.1| == |running| + if k <= |pending| then k else |pending|
  {
    if k == 0 then (pending, running)
    else
      var (p, r) := Promote(pending, running);
      PromoteN(p, r, k - 1)
  }

  /** FIFO: `k` promotions start exactly the first `k` pending jobs, in
      submission order, behind the jobs already running. */
  lemma {:induction false} PromotionsFollowSubmissionOrder<J>(pending: seq<J>, running: seq<J>, k: nat)
    requires k <= |pending|
    ensures PromoteN(pending, running, k) == (pending[k..], running + pending[..k])
  {
    if k > 0 {
      assert Promote(pending, running) == (pending[1..], running + [pending[0]]);
      PromotionsFollowSubmissionOrder(pending[1..], running + [pending[0]], k - 1);
      assert pending[1..][k - 1..] == pending[k..];
      assert running + [pending[0]] + pending[1..][..k - 1] == running + pending[..k];
    } else {
      assert pending[0..] == pending && running + pending[..0] == running;
    }
  }

  /** After the first match of `probe`, at `i`, is taken out of `s` (what
      `Remove` does to the running queue), another lookup of `probe` finds
      something exactly when a later element of `s` also matches. So the
      completion cleanup of a job already removed is a no-op only when no
      other equal job is running. */
  lemma RemovedMatchLeavesLaterOnes<J>(eq: (J, J) -> bool, probe: J, s: seq<J>, i: nat)
    requires FirstMatch(eq, probe, s) == Some(i)
    ensures HasMatch(eq, probe, RemoveAt(s, i)) <==> exists k :: i < k < |s| && eq(probe, s[k])
  {
    var rest := RemoveAt(s, i);
    if exists k :: i < k < |s| && eq(probe, s[k]) {
      var k :| i < k < |s| && eq(probe, s[k]);
      assert rest[k - 1] == s[k];
    }
    if HasMatch(eq, probe, rest) {
      var k :| 0 <= k < |rest| && eq(probe, rest[k]);
      assert k >= i;
      assert rest[k] == s[k + 1];
    }
  }

  /** ... and what it then finds is the next equal element after `i`. */
  lemma NextMatchAfterRemoval<J>(eq: (J, J) -> bool, probe: J, s: seq<J>, i: nat, j: nat)
    requires FirstMatch(eq, probe, s) == Some(i)
    requires FirstMatch(eq, probe, RemoveAt(s, i)) == Some(j)
    ensures i <= j && RemoveAt(s, i)[j] == s[j + 1]
    ensures forall k :: i < k <= j ==> !eq(probe, s[k])
  {
    var rest := RemoveAt(s, i);
    forall k | i < k <= j ensures !eq(probe, s[k]) {
      assert rest[k - 1] == s[k];
    }
  }

  /**
   * The pool. `equal` is the jobs' own `Equal` (the probe is the first
   * argument); `stopRequests` records, in order, every job to which a stop
   * request was issued.
   */
  class Pool<J> {
    const equal: (J, J) -> bool
    var pendingQueue: seq<J>
    var runningQueue: seq<J>
    var maxWorkerNum: int
    const maxWaitingNum: int
    var waitingTaskCount: int
    var runningTaskCount: int
    ghost var stopRequests: seq<J>

    /** The counters equal the lengths of their queues. */
    ghost predicate Valid()
      reads this
    {
      waitingTaskCount == |pendingQueue| && runningTaskCount == |runningQueue|
    }

    /** `NewPool`: empty queues, zero counters, the two limits. */
    constructor (maxWorkerNum: int, maxWaitingNum: int, equal: (J, J) -> bool)
      ensures Valid()
      ensures pendingQueue == [] && runningQueue == [] && stopRequests == []
      ensures this.maxWorkerNum == maxWorkerNum && this.maxWaitingNum == maxWaitingNum
      ensures this.equal == equal
    {
      this.equal := equal;
      this.maxWorkerNum := maxWorkerNum;
      this.maxWaitingNum := maxWaitingNum;
      pendingQueue, runningQueue := [], [];
      waitingTaskCount, runningTaskCount := 0, 0;
      stopRequests := [];
    }

    /** Changes the worker limit only; running jobs are not touched. */
    method SetMaxWorkerNumber(n: int)
      requires Valid()
      modifies this`maxWorkerNum
      ensures Valid() && maxWorkerNum == n
    {
      maxWorkerNum := n;
    }

    method WaitingTasks() returns (n: int)
      requires Valid()
      ensures n == |pendingQueue|
    {
      n := waitingTaskCount;
    }

    method RunningTasks() returns (n: int)
      requires Valid()
      ensures n == |runningQueue|
    {
      n := runningTaskCount;
    }

    /** Admission: drop the oldest pending job if the waiting count is above
        a positive limit (without a stop request), then append `t`. */
    method Add(t: J)
      requires Valid()
      modifies this
      ensures Valid()
      ensures pendingQueue == Admit(old(pendingQueue), maxWaitingNum, t)
      ensures runningQueue == old(runningQueue) && stopRequests == old(stopRequests)
      ensures maxWorkerNum == old(maxWorkerNum)
    {
      if maxWaitingNum > 0 && waitingTaskCount > maxWaitingNum {
        pendingQueue := pendingQueue[1..];
        waitingTaskCount := waitingTaskCount - 1;
      }
      pendingQueue := pendingQueue + [t];
      waitingTaskCount := waitingTaskCount + 1;
    }

    /** `find`: a front-to-back walk for the first element `t` calls equal. */
    method Find(t: J, l: seq<J>) returns (r: Option<nat>)
      ensures r == FirstMatch(equal, t, l)
      ensures r.None? <==> !HasMatch(equal, t, l)
    {
      var i := 0;
      while i < |l|
        invariant 0 <= i <= |l|
        invariant forall k :: 0 <= k < i ==> !equal(t, l[k])
      {
        if equal(t, l[i]) {
          return Some(i);
        }
        i := i + 1;
      }
      return None;
    }

    /** Whether `t` matches a running or a pending job. */
    method Exist(t: J) returns (found: bool)
      ensures found <==> HasMatch(equal, t, runningQueue) || HasMatch(equal, t, pendingQueue)
    {
      found := false;
      var e := Find(t, runningQueue);
      if e.Some? {
        found := true;
      }
      if !found {
        var e' := Find(t, pendingQueue);
        if e'.Some? {
          found := true;
        }
      }
    }

    /** Whether `t` matches a pending job. */
    method ExistPending(t: J) returns (found: bool)
      ensures found <==> HasMatch(equal, t, pendingQueue)
    {
      found := false;
      var e := Find(t, pendingQueue);
      if e.Some? {
        found := true;
      }
    }

    /** Cancellation: the first running match is removed if there is one,
        otherwise the first pending match; a stop request goes to the job
        removed, in either queue. */
    method Remove(t: J) returns (found: bool)
      requires Valid()
      modifies this
      ensures Valid()
      ensures found <==> HasMatch(equal, t, old(runningQueue)) || HasMatch(equal, t, old(pendingQueue))
      ensures HasMatch(equal, t, old(runningQueue)) ==>
        var i := FirstMatch(equal, t, old(runningQueue)).value;
        && runningQueue == RemoveAt(old(runningQueue), i)
        && pendingQueue == old(pendingQueue)
        && stopRequests == old(stopRequests) + [old(runningQueue)[i]]
      ensures !HasMatch(equal, t, old(runningQueue)) && HasMatch(equal, t, old(pendingQueue)) ==>
        var j := FirstMatch(equal, t, old(pendingQueue)).value;
        && pendingQueue == RemoveAt(old(pendingQueue), j)
        && runningQueue == old(runningQueue)
        && stopRequests == old(stopRequests) + [old(pendingQueue)[j]]
      ensures !found ==>
        pendingQueue == old(pendingQueue) && runningQueue == old(runningQueue) && stopRequests == old(stopRequests)
      ensures maxWorkerNum == old(maxWorkerNum)
    {
      found := false;
      var e := Find(t, runningQueue);
      if e.Some? {
        stopRequests := stopRequests + [runningQueue[e.value]];
        runningQueue := RemoveAt(runningQueue, e.value);
        runningTaskCount := runningTaskCount - 1;
        found := true;
      }
      if !found {
        var e' := Find(t, pendingQueue);
        if e'.Some? {
          stopRequests := stopRequests + [pendingQueue[e'.value]];
          pendingQueue := RemoveAt(pendingQueue, e'.value);
          waitingTaskCount := waitingTaskCount - 1;
          found := true;
        }
      }
    }

    /** `startTask`: the front pending job moves to the back of running;
        on an empty pending queue nothing changes. */
    method StartTask()
      requires Valid()
      modifies this
      ensures Valid()
      ensures (pendingQueue, runningQueue) == Promote(old(pendingQueue), old(runningQueue))
      ensures old(pendingQueue) != [] ==>
        pendingQueue == old(pendingQueue)[1..] && runningQueue == old(runningQueue) + [old(pendingQueue)[0]]
      ensures stopRequests == old(stopRequests) && maxWorkerNum == old(maxWorkerNum)
    {
      if pendingQueue != [] {
        var t := pendingQueue[0];
        runningQueue := runningQueue + [t];
        pendingQueue := pendingQueue[1..];
        waitingTaskCount := waitingTaskCount - 1;
        runningTaskCount := runningTaskCount + 1;
      }
    }

    /** One guarded step of the dispatch loop: promote only when something
        is pending and the running count is below the worker limit. */
    method DispatchStep() returns (started: bool)
      requires Valid()
      modifies this
      ensures Valid()
      ensures started <==> old(|pendingQueue|) > 0 && old(|runningQueue|) < old(maxWorkerNum)
      ensures started ==> (pendingQueue, runningQueue) == Promote(old(pendingQueue), old(runningQueue))
      ensures started ==> |runningQueue| <= maxWorkerNum
      ensures !started ==> pendingQueue == old(pendingQueue) && runningQueue == old(runningQueue)
      ensures old(|runningQueue|) <= old(maxWorkerNum) ==> |runningQueue| <= maxWorkerNum
      ensures stopRequests == old(stopRequests) && maxWorkerNum == old(maxWorkerNum)
    {
      started := false;
      var waiting := WaitingTasks();
      if waiting > 0 {
        var running := RunningTasks();
        if running < maxWorkerNum {
          StartTask();
          started := true;
        }
      }
    }

    /** The cleanup after a job's execution: the first running job equal to
        `t` is removed; if `Remove` already took every such job, nothing
        changes. */
    method FinishTask(t: J)
      requires Valid()
      modifies this
      ensures Valid()
      ensures HasMatch(equal, t, old(runningQueue)) ==>
        runningQueue == RemoveAt(old(runningQueue), FirstMatch(equal, t, old(runningQueue)).value)
      ensures !HasMatch(equal, t, old(runningQueue)) ==> runningQueue == old(runningQueue)
      ensures pendingQueue == old(pendingQueue) && stopRequests == old(stopRequests)
      ensures maxWorkerNum == old(maxWorkerNum)
    {
      var e := Find(t, runningQueue);
      if e.Some? {
        runningQueue := RemoveAt(runningQueue, e.value);
        runningTaskCount := runningTaskCount - 1;
      }
    }
  }
}
