/**
 The queue that spreads verifications over threads: `CCheckQueue` and `CCheckQueueControl`
 (src/checkqueue.h).  Each method is one critical section, or the execution of one check outside of
 it, so an interleaving of the threads is a sequence of calls.  A waiting thread may wake without
 having been notified.  Checks have a fixed outcome.
 */
module CheckQueue {
  import opened NatMath

  type Check = nat

  /** Where a thread is.  `rest` is the part of its batch that has not been executed yet. */
  datatype Phase =
    | Outside
    // holds the mutex, about to look at the queue
    | Deciding
    | Sleeping(notified: bool)
    | Working(nNow: nat, rest: seq<Check>, ok: bool)

  /** Thread 0 is the master. */
  const MASTER: nat := 0

  predicate AllPass(pass: Check -> bool, checks: seq<Check>) {
    forall i :: 0 <= i < |checks| ==> pass(checks[i])
  }

  // ----- sums over all threads

  function Total(w: Phase -> nat, threads: seq<Phase>): nat {
    if threads == [] then 0 else Total(w, threads[..|threads| - 1]) + w(threads[|threads| - 1])
  }

  lemma {:induction false} TotalUpdate(w: Phase -> nat, threads: seq<Phase>, i: nat, p: Phase)
    requires i < |threads|
    ensures Total(w, threads[i := p]) == Total(w, threads) - w(threads[i]) + w(p)
    decreases |threads|
  {
    var n := |threads| - 1;
    if i < n {
      TotalUpdate(w, threads[..n], i, p);
      assert threads[i := p][..n] == threads[..n][i := p];
    } else {
      assert threads[i := p][..n] == threads[..n];
    }
  }

  lemma {:induction false} TotalZero(w: Phase -> nat, threads: seq<Phase>)
    ensures Total(w, threads) == 0 <==> forall i :: 0 <= i < |threads| ==> w(threads[i]) == 0
    decreases |threads|
  {
    if threads != [] {
      var n := |threads| - 1;
      TotalZero(w, threads[..n]);
      if forall i :: 0 <= i < n ==> w(threads[..n][i]) == 0 {
        assert forall i :: 0 <= i < n ==> threads[i] == threads[..n][i];
      } else {
        var i :| 0 <= i < n && w(threads[..n][i]) != 0;
        assert w(threads[i]) != 0;
      }
    }
  }

  lemma {:induction false} TotalSame(w: Phase -> nat, a: seq<Phase>, b: seq<Phase>)
    requires |a| == |b| && forall i :: 0 <= i < |a| ==> w(a[i]) == w(b[i])
    ensures Total(w, a) == Total(w, b)
    decreases |a|
  {
    if a != [] {
      TotalSame(w, a[..|a| - 1], b[..|b| - 1]);
    }
  }

  function Idle(p: Phase): nat { if p.Sleeping? then 1 else 0 }
  function Inside(p: Phase): nat { if p.Outside? then 0 else 1 }
  function Taken(p: Phase): nat { if p.Working? then p.nNow else 0 }

  /** How far a thread is from having nothing to do. */
  function Effort(p: Phase): nat {
    if p.Working? then |p.rest| + 2 else if p.Sleeping? && p.notified then 1 else 0
  }

  ghost predicate PhaseOk(p: Phase) {
    p.Working? ==> p.nNow >= 1 && |p.rest| <= p.nNow
  }

  /** No check that this thread has executed failed, and none that it holds will. */
  ghost predicate Clean(pass: Check -> bool, p: Phase) {
    p.Working? ==> p.ok && AllPass(pass, p.rest)
  }

  ghost predicate AllClean(pass: Check -> bool, threads: seq<Phase>) {
    forall i :: 0 <= i < |threads| ==> Clean(pass, threads[i])
  }

  predicate Awake(p: Phase) {
    p.Deciding? || p.Working? || (p.Sleeping? && p.notified)
  }

  /** Queued work is never forgotten: with any worker started, one is busy or has been woken. */
  ghost predicate NoLostWakeup(queue: seq<Check>, threads: seq<Phase>) {
    queue != [] && (exists i :: 0 < i < |threads| && !threads[i].Outside?) ==> exists i :: 0 < i < |threads| && Awake(threads[i])
  }

  /** The whole state as a value. */
  datatype Shared = Shared(queue: seq<Check>, nIdle: int, nTotal: int, fAllOk: bool, nTodo: int, threads: seq<Phase>)

  ghost predicate Counted(s: Shared) {
    && s.nIdle == Total(Idle, s.threads) && s.nTotal == Total(Inside, s.threads)
    && s.nTodo == |s.queue| + Total(Taken, s.threads)
    && forall i :: 0 <= i < |s.threads| ==> PhaseOk(s.threads[i])
  }

  /** Everything added so far passes exactly when what has been executed has, and what has not will. */
  ghost predicate Decides(pass: Check -> bool, s: Shared, added: seq<Check>) {
    AllPass(pass, added) <==> s.fAllOk && AllPass(pass, s.queue) && AllClean(pass, s.threads)
  }

  /** A sleeping master is owed a notification: it has one, or checks are still in a batch. */
  ghost predicate MasterOwed(s: Shared) {
    |s.threads| > 0 && (s.threads[MASTER].Sleeping? ==> s.queue == [] && (s.threads[MASTER].notified || s.nTodo > 0))
  }

  ghost predicate Inv(pass: Check -> bool, s: Shared, added: seq<Check>) {
    && Counted(s) && Decides(pass, s, added) && MasterOwed(s) && NoLostWakeup(s.queue, s.threads)
    && s.nTodo <= |added|
  }

  ghost function Work(s: Shared): nat {
    4 * |s.queue| + Total(Effort, s.threads)
  }

  // ----- one thread changes phase

  function Moved(s: Shared, t: nat, p: Phase): Shared
    requires t < |s.threads|
  {
    s.(threads := s.threads[t := p])
  }

  lemma MoveCounts(s: Shared, t: nat, p: Phase)
    requires t < |s.threads|
    ensures Total(Idle, Moved(s, t, p).threads) == Total(Idle, s.threads) - Idle(s.threads[t]) + Idle(p)
    ensures Total(Inside, Moved(s, t, p).threads) == Total(Inside, s.threads) - Inside(s.threads[t]) + Inside(p)
    ensures Total(Taken, Moved(s, t, p).threads) == Total(Taken, s.threads) - Taken(s.threads[t]) + Taken(p)
    ensures Total(Effort, Moved(s, t, p).threads) == Total(Effort, s.threads) - Effort(s.threads[t]) + Effort(p)
  {
    TotalUpdate(Idle, s.threads, t, p);
    TotalUpdate(Inside, s.threads, t, p);
    TotalUpdate(Taken, s.threads, t, p);
    TotalUpdate(Effort, s.threads, t, p);
  }

  lemma CleanUpdate(pass: Check -> bool, threads: seq<Phase>, t: nat, p: Phase)
    requires t < |threads|
    ensures AllClean(pass, threads[t := p]) <==> Clean(pass, p) && AllClean(pass, threads[t := Outside])
    ensures AllClean(pass, threads) <==> Clean(pass, threads[t]) && AllClean(pass, threads[t := Outside])
  {
    var out := threads[t := Outside];
    assert threads[t := p][t] == p;
    if AllClean(pass, threads[t := p]) {
      forall i | 0 <= i < |out| ensures Clean(pass, out[i]) { assert Clean(pass, threads[t := p][i]); }
    }
    if AllClean(pass, threads) {
      forall i | 0 <= i < |out| ensures Clean(pass, out[i]) { assert Clean(pass, threads[i]); }
    }
    if AllClean(pass, out) {
      forall i | 0 <= i < |out| && i != t ensures Clean(pass, threads[i]) { assert Clean(pass, out[i]); }
    }
  }

  /** Who is awake after a thread has moved on. */
  lemma WakeupKept(queue: seq<Check>, queue': seq<Check>, threads: seq<Phase>, t: nat, p: Phase)
    requires t < |threads| && NoLostWakeup(queue, threads) && (queue' != [] ==> queue != [])
    requires t != MASTER && queue' != [] && !p.Outside? ==> Awake(p)
    requires t != MASTER && p.Outside? ==> !Awake(threads[t])
    ensures NoLostWakeup(queue', threads[t := p])
  {
    var after := threads[t := p];
    if queue' != [] && exists i :: 0 < i < |after| && !after[i].Outside? {
      if t != MASTER && !p.Outside? {
        assert Awake(after[t]);
      } else {
        var i :| 0 < i < |after| && !after[i].Outside?;
        assert !threads[i].Outside?;
        var j :| 0 < j < |threads| && Awake(threads[j]);
        assert Awake(after[j]);
      }
    }
  }

  /** Executing one check of the batch of thread `t`; once one has failed the others are skipped. */
  function Executed(pass: Check -> bool, p: Phase): Phase
    requires p.Working? && p.rest != []
  {
    Working(p.nNow, p.rest[1..], p.ok && pass(p.rest[0]))
  }

  lemma ExecuteKeeps(pass: Check -> bool, s: Shared, added: seq<Check>, t: nat)
    requires Inv(pass, s, added) && t < |s.threads| && s.threads[t].Working? && s.threads[t].rest != []
    ensures Inv(pass, Moved(s, t, Executed(pass, s.threads[t])), added)
    ensures Work(Moved(s, t, Executed(pass, s.threads[t]))) < Work(s)
  {
    hide NoLostWakeup, AllClean, Total;
    var p := s.threads[t];
    var p' := Executed(pass, p);
    assert PhaseOk(p);
    MoveCounts(s, t, p');
    WakeupKept(s.queue, s.queue, s.threads, t, p');
    CleanUpdate(pass, s.threads, t, p');
    assert p.rest == [p.rest[0]] + p.rest[1..];
    assert AllPass(pass, p.rest) <==> pass(p.rest[0]) && AllPass(pass, p.rest[1..]) by {
      if AllPass(pass, p.rest) {
        forall i | 0 <= i < |p.rest[1..]| ensures pass(p.rest[1..][i]) { assert p.rest[1..][i] == p.rest[i + 1]; }
      }
    }
  }

  /** The clean-up of a finished batch, with the notification of the master. */
  function Finished(s: Shared, t: nat): Shared
    requires MASTER < |s.threads| && t < |s.threads| && s.threads[t].Working?
  {
    var p := s.threads[t];
    var nTodo := s.nTodo - p.nNow;
    var moved := Moved(s, t, Deciding).(fAllOk := s.fAllOk && p.ok, nTodo := nTodo);
    if nTodo == 0 && t != MASTER then Woken(moved, MASTER) else moved
  }

  /** A notification wakes a thread only if it waits. */
  function Woken(s: Shared, t: nat): Shared
    requires t < |s.threads|
  {
    if s.threads[t].Sleeping? then Moved(s, t, Sleeping(true)) else s
  }

  lemma WokenKeeps(pass: Check -> bool, s: Shared, added: seq<Check>, t: nat)
    requires t < |s.threads|
    requires Counted(s) && Decides(pass, s, added) && NoLostWakeup(s.queue, s.threads)
    ensures Counted(Woken(s, t)) && Decides(pass, Woken(s, t), added) && NoLostWakeup(s.queue, Woken(s, t).threads)
    ensures MasterOwed(s) ==> MasterOwed(Woken(s, t))
    ensures Work(Woken(s, t)) <= Work(s) + 1
  {
    hide NoLostWakeup;
    if s.threads[t].Sleeping? {
      MoveCounts(s, t, Sleeping(true));
      WakeupKept(s.queue, s.queue, s.threads, t, Sleeping(true));
      CleanUpdate(pass, s.threads, t, Sleeping(true));
    }
  }

  lemma FinishKeeps(pass: Check -> bool, s: Shared, added: seq<Check>, t: nat)
    requires Inv(pass, s, added) && t < |s.threads| && s.threads[t].Working? && s.threads[t].rest == []
    ensures Inv(pass, Finished(s, t), added) && Finished(s, t).threads[t] == Deciding
    ensures Work(Finished(s, t)) < Work(s)
  {
    hide NoLostWakeup, AllClean, Clean, AllPass, Total;
    var p := s.threads[t];
    FinishedClean(pass, p);
    var moved := Moved(s, t, Deciding).(fAllOk := s.fAllOk && p.ok, nTodo := s.nTodo - p.nNow);
    assert PhaseOk(p);
    MoveCounts(s, t, Deciding);
    WakeupKept(s.queue, s.queue, s.threads, t, Deciding);
    CleanUpdate(pass, s.threads, t, Deciding);
    WokenKeeps(pass, moved, added, MASTER);
  }

  lemma FinishedClean(pass: Check -> bool, p: Phase)
    requires p.Working? && p.rest == []
    ensures (Clean(pass, p) <==> p.ok) && Clean(pass, Deciding)
  {
  }

  /** A thread that holds the mutex again, or for the first time. */
  lemma DecidingKeeps(pass: Check -> bool, s: Shared, added: seq<Check>, t: nat)
    requires Inv(pass, s, added) && t < |s.threads| && (s.threads[t].Outside? || s.threads[t].Sleeping?)
    ensures var p := s.threads[t];
            var s' := Moved(s, t, Deciding).(nIdle := s.nIdle - Idle(p), nTotal := s.nTotal + 1 - Inside(p));
            Inv(pass, s', added) && Work(s') == Work(s) - Effort(p)
  {
    hide NoLostWakeup;
    MoveCounts(s, t, Deciding);
    WakeupKept(s.queue, s.queue, s.threads, t, Deciding);
    CleanUpdate(pass, s.threads, t, Deciding);
  }

  /** Going to wait when there is nothing to take. */
  lemma SleepKeeps(pass: Check -> bool, s: Shared, added: seq<Check>, t: nat)
    requires Inv(pass, s, added) && t < |s.threads| && s.threads[t] == Deciding
    requires s.queue == [] && (t == MASTER ==> s.nTodo != 0)
    ensures var s' := Moved(s, t, Sleeping(false)).(nIdle := s.nIdle + 1); Inv(pass, s', added) && Work(s') == Work(s)
  {
    MoveCounts(s, t, Sleeping(false));
    CleanUpdate(pass, s.threads, t, Sleeping(false));
  }

  /** The last `n` checks of the queue, last first. */
  function Batch(queue: seq<Check>, n: nat): (r: seq<Check>)
    requires n <= |queue|
    ensures |r| == n && forall i :: 0 <= i < n ==> r[i] == queue[|queue| - 1 - i]
  {
    seq(n, i requires 0 <= i < n => queue[|queue| - 1 - i])
  }

  lemma BatchPasses(pass: Check -> bool, queue: seq<Check>, n: nat)
    requires n <= |queue|
    ensures AllPass(pass, queue) <==> AllPass(pass, queue[..|queue| - n]) && AllPass(pass, Batch(queue, n))
  {
    var m := |queue| - n;
    if AllPass(pass, queue[..m]) && AllPass(pass, Batch(queue, n)) {
      forall i | 0 <= i < |queue| ensures pass(queue[i]) {
        if i < m { assert queue[..m][i] == queue[i]; } else { assert Batch(queue, n)[|queue| - 1 - i] == queue[i]; }
      }
    }
  }

  lemma TakeKeeps(pass: Check -> bool, s: Shared, added: seq<Check>, t: nat, n: nat)
    requires Inv(pass, s, added) && t < |s.threads| && s.threads[t] == Deciding && 1 <= n <= |s.queue|
    ensures var s' := Moved(s, t, Working(n, Batch(s.queue, n), s.fAllOk)).(queue := s.queue[..|s.queue| - n]);
            Inv(pass, s', added) && Work(s') < Work(s)
  {
    hide NoLostWakeup;
    var p := Working(n, Batch(s.queue, n), s.fAllOk);
    MoveCounts(s, t, p);
    WakeupKept(s.queue, s.queue[..|s.queue| - n], s.threads, t, p);
    CleanUpdate(pass, s.threads, t, p);
    BatchPasses(pass, s.queue, n);
  }

  /** With nothing left to do no thread has a batch, and all checks have been decided. */
  lemma NothingTaken(pass: Check -> bool, s: Shared, added: seq<Check>)
    requires Counted(s) && Decides(pass, s, added) && s.nTodo == 0
    ensures s.queue == [] && (s.fAllOk <==> AllPass(pass, added))
    ensures forall i :: 0 <= i < |s.threads| ==> !s.threads[i].Working?
  {
    TotalZero(Taken, s.threads);
    forall i | 0 <= i < |s.threads| ensures !s.threads[i].Working? {
      assert PhaseOk(s.threads[i]) && Taken(s.threads[i]) == 0;
    }
  }

  /** The master returns, and the queue is ready for the next round. */
  lemma ReturnKeeps(pass: Check -> bool, s: Shared, added: seq<Check>)
    requires Inv(pass, s, added) && s.threads[MASTER] == Deciding && s.nTodo == 0
    ensures s.fAllOk <==> AllPass(pass, added)
    ensures var s' := Moved(s, MASTER, Outside).(nTotal := s.nTotal - 1, fAllOk := true);
            Inv(pass, s', []) && Work(s') == Work(s)
  {
    hide NoLostWakeup;
    NothingTaken(pass, s, added);
    MoveCounts(s, MASTER, Outside);
    WakeupKept(s.queue, s.queue, s.threads, MASTER, Outside);
  }

  lemma AddKeeps(pass: Check -> bool, s: Shared, added: seq<Check>, checks: seq<Check>)
    requires Inv(pass, s, added) && s.threads[MASTER] == Outside
    ensures var s' := s.(queue := s.queue + checks, nTodo := s.nTodo + |checks|);
            && Counted(s') && Decides(pass, s', added + checks) && MasterOwed(s') && s'.nTodo <= |added + checks|
            && (checks == [] ==> NoLostWakeup(s'.queue, s'.threads))
  {
    PassBoth(pass, s.queue, checks);
    PassBoth(pass, added, checks);
  }

  lemma PassBoth(pass: Check -> bool, a: seq<Check>, b: seq<Check>)
    ensures AllPass(pass, a + b) <==> AllPass(pass, a) && AllPass(pass, b)
  {
    if AllPass(pass, a + b) {
      forall i | 0 <= i < |a| ensures pass(a[i]) { assert (a + b)[i] == a[i]; }
      forall i | 0 <= i < |b| ensures pass(b[i]) { assert (a + b)[|a| + i] == b[i]; }
    }
  }

  /** Waking changes no count and decides nothing. */
  lemma NotifyKeeps(pass: Check -> bool, s: Shared, added: seq<Check>, threads: seq<Phase>)
    requires Counted(s) && Decides(pass, s, added) && MasterOwed(s) && |threads| == |s.threads|
    requires threads[MASTER] == s.threads[MASTER]
    requires forall i :: 0 <= i < |threads| ==> threads[i] == s.threads[i] || (s.threads[i].Sleeping? && threads[i] == Sleeping(true))
    ensures var s' := s.(threads := threads); Counted(s') && Decides(pass, s', added) && MasterOwed(s')
  {
    TotalSame(Idle, threads, s.threads);
    TotalSame(Inside, threads, s.threads);
    TotalSame(Taken, threads, s.threads);
    forall i | 0 <= i < |threads| ensures PhaseOk(threads[i]) && (Clean(pass, threads[i]) <==> Clean(pass, s.threads[i])) {
      assert PhaseOk(s.threads[i]);
    }
  }

  // ----- the protocol

  /** What can happen next: a thread executes a check, reports its batch, comes in or wakes, or the master adds checks. */
  datatype Step = Executes(t: nat) | Finishes(t: nat) | Enters(t: nat) | Resumes(t: nat) | Adds(checks: seq<Check>)

  /** What comes of it: nothing since it is not possible now, nothing the master sees, the checks it added, or the answer it gets. */
  datatype Outcome = Skipped | Went | Added(checks: seq<Check>) | Returned(result: bool)

  predicate Possible(s: Shared, step: Step) {
    match step
    case Executes(t) => t < |s.threads| && s.threads[t].Working? && s.threads[t].rest != []
    case Finishes(t) => t < |s.threads| && s.threads[t].Working? && s.threads[t].rest == []
    case Enters(t) => t < |s.threads| && s.threads[t] == Outside
    case Resumes(t) => t < |s.threads| && s.threads[t].Sleeping?
    case Adds(_) => |s.threads| > MASTER && s.threads[MASTER] == Outside
  }

  lemma ShareBounds(a: nat, d: nat)
    requires d > 0
    ensures 0 <= a / d && a / d * d <= a < (a / d + 1) * d && (a / d == 0 ==> a < 2 * d)
    ensures forall n :: 0 <= n <= a / d ==> n * d <= a
  {
    DivShrinks(a, d);
    MulDistrib(a / d, 1, d);
    forall n | 0 <= n <= a / d ensures n * d <= a { MulMono(n, a / d, d); }
  }

  /** The size of the next batch: increasingly smaller ones, not smaller than 1 nor larger than the limit. */
  function BatchSize(s: Shared, limit: nat): (n: nat)
    requires s.nTotal >= 0 && s.nIdle >= 0 && s.queue != []
    ensures 1 <= n <= |s.queue|
    // no more than the limit and an equal share for every thread, and one, if that is more; and as many as that allows
    ensures n == 1 || (n <= limit && n * (s.nTotal + s.nIdle + 1) <= |s.queue|)
    ensures n >= limit || (n + 1) * (s.nTotal + s.nIdle + 1) > |s.queue|
  {
    DivShrinks(|s.queue|, s.nTotal + s.nIdle + 1);
    ShareBounds(|s.queue|, s.nTotal + s.nIdle + 1);
    Max(1, Min(limit, |s.queue| / (s.nTotal + s.nIdle + 1)))
  }

  /** The part of `Loop` from the head of the inner loop until the mutex is released: return, wait, or take a batch. */
  function Decided(s: Shared, t: nat, limit: nat): (Shared, Outcome)
    requires t < |s.threads| && s.nTotal >= 0 && s.nIdle >= 0
  {
    if s.queue == [] then
      if t == MASTER && s.nTodo == 0 then
        // reset the status for new work later
        (Moved(s, t, Outside).(nTotal := s.nTotal - 1, fAllOk := true), Returned(s.fAllOk))
      else
        (Moved(s, t, Sleeping(false)).(nIdle := s.nIdle + 1), Went)
    else
      var n := BatchSize(s, limit);
      (Moved(s, t, Working(n, Batch(s.queue, n), s.fAllOk)).(queue := s.queue[..|s.queue| - n]), Went)
  }

  /** Adding one check wakes one waiting worker, whichever, and adding more wakes all. */
  predicate Notified(threads: seq<Phase>, threads': seq<Phase>, n: nat) {
    && |threads'| == |threads|
    && if n == 0 then threads' == threads
       else if n == 1 then
         || (threads' == threads && forall i :: 0 < i < |threads| ==> threads[i] != Sleeping(false))
         || exists i :: 0 < i < |threads| && threads[i] == Sleeping(false) && threads' == threads[i := Sleeping(true)]
       else forall i :: 0 <= i < |threads| ==> threads'[i] == if i > 0 && threads[i].Sleeping? then Sleeping(true) else threads[i]
  }

  /** One step leads from `s` to `s'`, with this outcome. */
  ghost predicate Next(pass: Check -> bool, limit: nat, s: Shared, step: Step, s': Shared, out: Outcome) {
    && s.nTotal >= 0 && s.nIdle >= 0 && |s.threads| > MASTER
    && if !Possible(s, step) then s' == s && out == Skipped
       else match step
         case Executes(t) => s' == Moved(s, t, Executed(pass, s.threads[t])) && out == Went
         case Finishes(t) => (s', out) == Decided(Finished(s, t), t, limit)
         case Enters(t) => (s', out) == Decided(Moved(s, t, Deciding).(nTotal := s.nTotal + 1), t, limit)
         case Resumes(t) => s.nIdle >= 1 && (s', out) == Decided(Moved(s, t, Deciding).(nIdle := s.nIdle - 1), t, limit)
         case Adds(checks) =>
           && s' == s.(queue := s.queue + checks, nTodo := s.nTodo + |checks|, threads := s'.threads)
           && Notified(s.threads, s'.threads, |checks|) && out == Added(checks)
  }

  /** The checks added since the last answer. */
  function After(added: seq<Check>, out: Outcome): seq<Check> {
    match out
    case Added(checks) => added + checks
    case Returned(_) => []
    case _ => added
  }

  /** No thread is in its critical section. */
  ghost predicate Unlocked(s: Shared) {
    forall i :: 0 <= i < |s.threads| ==> !s.threads[i].Deciding?
  }

  /** A step that brings the end of a round nearer, unlike coming in or waking for no reason. */
  predicate Productive(s: Shared, step: Step) {
    Possible(s, step) && (step.Executes? || step.Finishes? || (step.Resumes? && s.threads[step.t].notified))
  }

  /** What `Decided` keeps. */
  lemma DecidedKeeps(pass: Check -> bool, s: Shared, added: seq<Check>, t: nat, limit: nat)
    requires Inv(pass, s, added) && t < |s.threads| && s.threads[t] == Deciding && s.nTotal >= 0 && s.nIdle >= 0
    ensures var (s', out) := Decided(s, t, limit);
            && Inv(pass, s', After(added, out)) && Work(s') <= Work(s) && |s'.threads| == |s.threads| && !s'.threads[t].Deciding?
            && !out.Added? && !out.Skipped?
            && (forall i :: 0 <= i < |s.threads| && i != t ==> s'.threads[i] == s.threads[i])
            && (out.Returned? ==> t == MASTER && s'.threads[t] == Outside && s'.nTodo == 0 && (out.result <==> AllPass(pass, added)))
            && (!out.Returned? ==> s'.threads[t] != Outside)
  {
    hide Inv, Work, Batch, BatchSize;
    if s.queue == [] {
      if t == MASTER && s.nTodo == 0 {
        ReturnKeeps(pass, s, added);
      } else {
        SleepKeeps(pass, s, added, t);
      }
    } else {
      TakeKeeps(pass, s, added, t, BatchSize(s, limit));
    }
  }

  /** A step keeps the invariant, an answer is right, and no step but adding checks takes the end of the round away. */
  ghost predicate StepKeeps(pass: Check -> bool, s: Shared, added: seq<Check>, step: Step, s': Shared, out: Outcome) {
    && Inv(pass, s', After(added, out)) && Unlocked(s') && |s'.threads| == |s.threads| > MASTER
    && (out.Added? <==> step.Adds? && s.threads[MASTER] == Outside)
    && (out.Added? ==> out.checks == step.checks)
    && (out.Returned? ==> s'.threads[MASTER] == Outside && s'.nTodo == 0 && (out.result <==> AllPass(pass, added)))
    && (!out.Returned? && s.threads[MASTER] != Outside ==> s'.threads[MASTER] != Outside)
    && (!out.Added? ==> Work(s') <= Work(s))
    && (Productive(s, step) ==> Work(s') < Work(s))
  }

  lemma FinishesKeeps(pass: Check -> bool, limit: nat, s: Shared, added: seq<Check>, step: Step, s': Shared, out: Outcome)
    requires Inv(pass, s, added) && Unlocked(s) && Next(pass, limit, s, step, s', out) && step.Finishes? && Possible(s, step)
    ensures StepKeeps(pass, s, added, step, s', out)
  {
    hide Inv, Work, Decided;
    FinishKeeps(pass, s, added, step.t);
    DecidedKeeps(pass, Finished(s, step.t), added, step.t, limit);
  }

  lemma EntersKeeps(pass: Check -> bool, limit: nat, s: Shared, added: seq<Check>, step: Step, s': Shared, out: Outcome)
    requires Inv(pass, s, added) && Unlocked(s) && Next(pass, limit, s, step, s', out)
    requires (step.Enters? || step.Resumes?) && Possible(s, step)
    ensures StepKeeps(pass, s, added, step, s', out)
  {
    hide Inv, Work, Decided;
    var p := s.threads[step.t];
    DecidingKeeps(pass, s, added, step.t);
    DecidedKeeps(pass, Moved(s, step.t, Deciding).(nIdle := s.nIdle - Idle(p), nTotal := s.nTotal + 1 - Inside(p)), added, step.t, limit);
  }

  lemma AddsKeeps(pass: Check -> bool, limit: nat, s: Shared, added: seq<Check>, step: Step, s': Shared, out: Outcome)
    requires Inv(pass, s, added) && Unlocked(s) && Next(pass, limit, s, step, s', out) && step.Adds? && Possible(s, step)
    ensures StepKeeps(pass, s, added, step, s', out)
  {
    var s1 := s.(queue := s.queue + step.checks, nTodo := s.nTodo + |step.checks|);
    AddKeeps(pass, s, added, step.checks);
    hide Counted, Decides, AllPass, NoLostWakeup;
    NotifyKeeps(pass, s1, added + step.checks, s'.threads);
    WorkerWoken(s1.queue, s.threads, s'.threads, |step.checks|);
    assert s' == s1.(threads := s'.threads);
  }

  /** After adding checks some worker is awake, if there is any. */
  lemma WorkerWoken(queue: seq<Check>, threads: seq<Phase>, threads': seq<Phase>, n: nat)
    requires Notified(threads, threads', n) && forall i :: 0 <= i < |threads| ==> !threads[i].Deciding?
    ensures n > 0 ==> NoLostWakeup(queue, threads')
  {
    if n == 1 && threads' != threads {
      var i :| 0 < i < |threads| && threads[i] == Sleeping(false) && threads' == threads[i := Sleeping(true)];
      assert Awake(threads'[i]);
    } else if n > 0 {
      assert forall i :: 0 < i < |threads'| && !threads'[i].Outside? ==> Awake(threads'[i]);
    }
  }

  /** Every step. */
  lemma NextKeeps(pass: Check -> bool, limit: nat, s: Shared, added: seq<Check>, step: Step, s': Shared, out: Outcome)
    requires Inv(pass, s, added) && Unlocked(s) && Next(pass, limit, s, step, s', out)
    ensures StepKeeps(pass, s, added, step, s', out)
  {
    hide Inv, Work, Decided, Notified;
    if Possible(s, step) {
      match step {
        case Executes(t) => ExecuteKeeps(pass, s, added, t);
        case Finishes(_) => FinishesKeeps(pass, limit, s, added, step, s', out);
        case Enters(_) => EntersKeeps(pass, limit, s, added, step, s', out);
        case Resumes(_) => EntersKeeps(pass, limit, s, added, step, s', out);
        case Adds(_) => AddsKeeps(pass, limit, s, added, step, s', out);
      }
    }
  }

  // ----- runs

  /** `trace` holds the states before and after every step, `outs` the outcomes. */
  ghost predicate IsRun(pass: Check -> bool, limit: nat, steps: seq<Step>, trace: seq<Shared>, outs: seq<Outcome>) {
    && |trace| == |steps| + 1 && |outs| == |steps|
    && forall i :: 0 <= i < |steps| ==> Next(pass, limit, trace[i], steps[i], trace[i + 1], outs[i])
  }

  /** The checks added since the last answer. */
  function Since(outs: seq<Outcome>): seq<Check> {
    if outs == [] then [] else After(Since(outs[..|outs| - 1]), outs[|outs| - 1])
  }

  /** The state of a new queue. */
  function Start(nWorkers: nat): Shared {
    Shared([], 0, 0, true, 0, seq(nWorkers + 1, _ => Outside))
  }

  lemma StartOk(pass: Check -> bool, nWorkers: nat)
    ensures Inv(pass, Start(nWorkers), []) && Unlocked(Start(nWorkers))
  {
    var threads := Start(nWorkers).threads;
    TotalZero(Idle, threads);
    TotalZero(Inside, threads);
    TotalZero(Taken, threads);
  }

  /** Over every interleaving: the invariant holds in every state, and every Wait that returns answers for exactly the
      checks added since the answer before. */
  lemma {:induction false} EveryRun(pass: Check -> bool, limit: nat, steps: seq<Step>, trace: seq<Shared>, outs: seq<Outcome>, n: nat)
    requires IsRun(pass, limit, steps, trace, outs) && Inv(pass, trace[0], []) && Unlocked(trace[0]) && n <= |steps|
    ensures Inv(pass, trace[n], Since(outs[..n])) && Unlocked(trace[n])
    ensures forall i :: 0 <= i < n && outs[i].Returned? ==> (outs[i].result <==> AllPass(pass, Since(outs[..i])))
    ensures forall i :: 0 <= i < n && outs[i].Added? ==> steps[i] == Adds(outs[i].checks)
    decreases n
  {
    hide Inv, Next, Unlocked, AllPass;
    if n > 0 {
      EveryRun(pass, limit, steps, trace, outs, n - 1);
      NextKeeps(pass, limit, trace[n - 1], Since(outs[..n - 1]), steps[n - 1], trace[n], outs[n - 1]);
      assert outs[..n][..n - 1] == outs[..n - 1];
    } else {
      assert outs[..0] == [];
    }
  }

  /** How many of the first `n` steps bring the end nearer. */
  function Productives(trace: seq<Shared>, steps: seq<Step>, n: nat): nat
    requires n <= |steps| < |trace|
  {
    if n == 0 then 0 else Productives(trace, steps, n - 1) + if Productive(trace[n - 1], steps[n - 1]) then 1 else 0
  }

  /** While the master waits, every productive step is paid for by what is left to do. */
  lemma {:induction false} WaitingCosts(pass: Check -> bool, limit: nat, steps: seq<Step>, trace: seq<Shared>, outs: seq<Outcome>, added: seq<Check>, n: nat)
    requires IsRun(pass, limit, steps, trace, outs) && Inv(pass, trace[0], added) && Unlocked(trace[0]) && n <= |steps|
    requires trace[0].threads[MASTER] != Outside && forall i :: 0 <= i < n ==> !outs[i].Returned?
    ensures Inv(pass, trace[n], added) && Unlocked(trace[n]) && trace[n].threads[MASTER] != Outside
    ensures Work(trace[n]) + Productives(trace, steps, n) <= Work(trace[0])
    decreases n
  {
    hide Inv, Next, Unlocked, Work, Productive;
    if n > 0 {
      WaitingCosts(pass, limit, steps, trace, outs, added, n - 1);
      NextKeeps(pass, limit, trace[n - 1], added, steps[n - 1], trace[n], outs[n - 1]);
    }
  }

  /** Every fair interleaving ends: once the master waits, whatever else happens, Wait has returned after as many
      productive steps as there is work. */
  lemma WaitEnds(pass: Check -> bool, limit: nat, steps: seq<Step>, trace: seq<Shared>, outs: seq<Outcome>, added: seq<Check>)
    requires IsRun(pass, limit, steps, trace, outs) && Inv(pass, trace[0], added) && Unlocked(trace[0])
    requires trace[0].threads[MASTER] != Outside && Productives(trace, steps, |steps|) > Work(trace[0])
    ensures exists i :: 0 <= i < |outs| && outs[i].Returned?
  {
    hide Inv, Unlocked, Work, Productives;
    if forall i :: 0 <= i < |steps| ==> !outs[i].Returned? {
      WaitingCosts(pass, limit, steps, trace, outs, added, |steps|);
    }
  }

  /** And as long as it has not returned some productive step is possible, so no interleaving gets stuck. */
  lemma MasterCanGoOn(pass: Check -> bool, s: Shared, added: seq<Check>) returns (step: Step)
    requires Inv(pass, s, added) && Unlocked(s) && s.threads[MASTER] != Outside
    ensures Productive(s, step)
  {
    var t: nat := MASTER;
    if s.threads[MASTER] == Sleeping(false) {
      TotalZero(Taken, s.threads);
      t :| 0 <= t < |s.threads| && Taken(s.threads[t]) != 0;
    }
    step := if s.threads[t].Sleeping? then Resumes(t) else if s.threads[t].rest != [] then Executes(t) else Finishes(t);
  }

  // ----- the object

  class Queue {
    const pass: Check -> bool
    const nBatchSize: nat
    var queue: seq<Check>
    var nIdle: int
    var nTotal: int
    var fAllOk: bool
    var nTodo: int
    var threads: seq<Phase>
    /** Everything added since the last Wait. */
    ghost var added: seq<Check>

    function S(): Shared
      reads this
    {
      Shared(queue, nIdle, nTotal, fAllOk, nTodo, threads)
    }

    /** Between any two critical sections. */
    ghost predicate Valid()
      reads this
    {
      Inv(pass, S(), added) && Unlocked(S())
    }

    /** What every step leaves. */
    twostate predicate Stepped(step: Step, out: Outcome)
      reads this
    {
      Next(pass, nBatchSize, old(S()), step, S(), out) && added == After(old(added), out)
    }

    constructor (pass: Check -> bool, nBatchSize: nat, nWorkers: nat)
      ensures Valid() && added == [] && S() == Start(nWorkers) && this.pass == pass && this.nBatchSize == nBatchSize
    {
      this.pass, this.nBatchSize := pass, nBatchSize;
      queue, nIdle, nTotal, fAllOk, nTodo, added := [], 0, 0, true, 0, [];
      threads := seq(nWorkers + 1, _ => Outside);
      new;
      StartOk(pass, nWorkers);
    }

    /** Outside of the lock: one check of the batch of `t`. */
    method Execute(t: nat)
      requires Valid() && Possible(S(), Executes(t))
      modifies this`threads
      ensures Valid() && Stepped(Executes(t), Went)
    {
      hide Inv;
      QueueCounts(pass, S(), added);
      threads := threads[t := Executed(pass, threads[t])];
      NextKeeps(pass, nBatchSize, old(S()), added, Executes(t), S(), Went);
    }

    /** Take a batch off the end of the queue. */
    method TakeBatch(nNow: nat) returns (vChecks: seq<Check>)
      requires nNow <= |queue|
      modifies this`queue
      ensures vChecks == Batch(old(queue), nNow) && queue == old(queue)[..|old(queue)| - nNow]
    {
      vChecks := [];
      ghost var n := |queue|;
      for i := 0 to nNow
        invariant |vChecks| == i && queue == old(queue)[..n - i]
        invariant forall k :: 0 <= k < i ==> vChecks[k] == old(queue)[n - 1 - k]
      {
        vChecks := vChecks + [queue[|queue| - 1]];
        queue := queue[..|queue| - 1];
      }
    }

    /** The part of `Loop` from the head of the inner loop until the mutex is released. */
    method Decide(t: nat) returns (out: Outcome)
      requires t < |threads| && nTotal >= 0 && nIdle >= 0
      modifies this`queue, this`nIdle, this`nTotal, this`fAllOk, this`threads
      ensures (S(), out) == Decided(old(S()), t, nBatchSize)
    {
      if queue == [] {
        if t == MASTER && nTodo == 0 {
          out := Returned(fAllOk);
          // reset the status for new work later
          nTotal, fAllOk := nTotal - 1, true;
          threads := threads[t := Outside];
          return;
        }
        nIdle := nIdle + 1;
        threads := threads[t := Sleeping(false)];
        return Went;
      }
      DivShrinks(|queue|, nTotal + nIdle + 1);
      var nNow := Max(1, Min(nBatchSize, |queue| / (nTotal + nIdle + 1)));
      var vChecks := TakeBatch(nNow);
      threads := threads[t := Working(nNow, vChecks, fAllOk)];
      return Went;
    }

    /** A thread comes in: a worker is started, or the master calls Wait. */
    method Enter(t: nat) returns (out: Outcome)
      requires Valid() && Possible(S(), Enters(t))
      modifies this`queue, this`nIdle, this`nTotal, this`fAllOk, this`threads, this`added
      ensures Valid() && Stepped(Enters(t), out)
    {
      hide Inv, Decided;
      QueueCounts(pass, S(), added);
      nTotal := nTotal + 1;
      threads := threads[t := Deciding];
      out := Decide(t);
      NextKeeps(pass, nBatchSize, old(S()), added, Enters(t), S(), out);
      added := After(added, out);
    }

    /** A waiting thread wakes up, notified or not. */
    method Resume(t: nat) returns (out: Outcome)
      requires Valid() && Possible(S(), Resumes(t))
      modifies this`queue, this`nIdle, this`nTotal, this`fAllOk, this`threads, this`added
      ensures Valid() && Stepped(Resumes(t), out)
    {
      hide Inv, Decided;
      QueueCounts(pass, S(), added);
      SleeperCounts(pass, S(), added, t);
      nIdle := nIdle - 1;
      threads := threads[t := Deciding];
      out := Decide(t);
      NextKeeps(pass, nBatchSize, old(S()), added, Resumes(t), S(), out);
      added := After(added, out);
    }

    /** A thread has executed its batch. */
    method Finish(t: nat) returns (out: Outcome)
      requires Valid() && Possible(S(), Finishes(t))
      modifies this`queue, this`nIdle, this`nTotal, this`fAllOk, this`nTodo, this`threads, this`added
      ensures Valid() && Stepped(Finishes(t), out)
    {
      hide Inv, Decided;
      QueueCounts(pass, S(), added);
      fAllOk := fAllOk && threads[t].ok;
      nTodo := nTodo - threads[t].nNow;
      threads := threads[t := Deciding];
      if nTodo == 0 && t != MASTER {
        // the last element was processed; inform the master
        if threads[MASTER].Sleeping? {
          threads := threads[MASTER := Sleeping(true)];
        }
      }
      assert S() == Finished(old(S()), t);
      out := Decide(t);
      NextKeeps(pass, nBatchSize, old(S()), added, Finishes(t), S(), out);
      added := After(added, out);
    }

    /** `Add`: the master, not waiting, adds checks and wakes as many workers as are of use. */
    method Add(checks: seq<Check>)
      requires Valid() && Possible(S(), Adds(checks))
      modifies this`queue, this`nTodo, this`threads, this`added
      ensures Valid() && Stepped(Adds(checks), Added(checks))
    {
      hide Inv, Notified;
      QueueCounts(pass, S(), added);
      queue := queue + checks;
      nTodo := nTodo + |checks|;
      Notify(|checks|);
      NextKeeps(pass, nBatchSize, old(S()), added, Adds(checks), S(), Added(checks));
      added := added + checks;
    }

    /** condWorker.notify_one wakes any one of those that wait, condWorker.notify_all all of them. */
    method Notify(n: nat)
      modifies this`threads
      ensures Notified(old(threads), threads, n)
    {
      if n == 1 {
        if i :| 0 < i < |threads| && threads[i] == Sleeping(false) {
          threads := threads[i := Sleeping(true)];
        }
      } else if n > 1 {
        var i := 1;
        while i < |threads|
          invariant |threads| == old(|threads|)
          invariant forall j :: 0 <= j < |threads| ==> threads[j] == if 0 < j < i && old(threads)[j].Sleeping? then Sleeping(true) else old(threads)[j]
        {
          if threads[i].Sleeping? {
            threads := threads[i := Sleeping(true)];
          }
          i := i + 1;
        }
      }
    }

    /** `IsIdle`.  After Wait, and before anything is added, it holds whatever the workers do: the
        assertion in the constructor of CCheckQueueControl. */
    method IsIdle() returns (idle: bool)
      requires Valid()
      ensures threads[MASTER] == Outside && added == [] ==> idle
      ensures idle ==> queue == [] && forall i :: 0 <= i < |threads| ==> !threads[i].Working?
    {
      idle := nTotal == nIdle && nTodo == 0 && fAllOk;
      if nTodo == 0 {
        NothingTaken(pass, S(), added);
        TotalDifference(threads);
      }
    }

    /** One step of an interleaving; a step that is not possible now is skipped. */
    method Perform(step: Step) returns (out: Outcome)
      requires Valid()
      modifies this
      ensures Valid() && Stepped(step, out)
    {
      hide Inv, Next;
      if !Possible(S(), step) {
        SkippedIsNext(pass, nBatchSize, S(), added, step);
        return Skipped;
      }
      match step {
        case Executes(t) =>
          Execute(t);
          out := Went;
        case Finishes(t) =>
          out := Finish(t);
        case Enters(t) =>
          out := Enter(t);
        case Resumes(t) =>
          out := Resume(t);
        case Adds(checks) =>
          Add(checks);
          out := Added(checks);
      }
    }
  }

  lemma SkippedIsNext(pass: Check -> bool, limit: nat, s: Shared, added: seq<Check>, step: Step)
    requires Inv(pass, s, added) && !Possible(s, step)
    ensures Next(pass, limit, s, step, s, Skipped)
  {
    QueueCounts(pass, s, added);
  }

  /** A run of a new queue over any interleaving: the states it goes through and the outcome of every step. */
  method Run(pass: Check -> bool, nBatchSize: nat, nWorkers: nat, steps: seq<Step>) returns (trace: seq<Shared>, outs: seq<Outcome>)
    ensures IsRun(pass, nBatchSize, steps, trace, outs) && trace[0] == Start(nWorkers)
    ensures forall i :: 0 <= i < |outs| && outs[i].Returned? ==> (outs[i].result <==> AllPass(pass, Since(outs[..i])))
  {
    hide Inv, Next, Since, AllPass, Unlocked, After;
    var q := new Queue(pass, nBatchSize, nWorkers);
    trace, outs := [q.S()], [];
    for i := 0 to |steps|
      invariant q.Valid() && fresh(q) && q.pass == pass && q.nBatchSize == nBatchSize && |trace| == i + 1 && |outs| == i
      invariant trace[0] == Start(nWorkers) && trace[i] == q.S()
      invariant forall j :: 0 <= j < i ==> Next(pass, nBatchSize, trace[j], steps[j], trace[j + 1], outs[j])
    {
      var out := q.Perform(steps[i]);
      trace, outs := trace + [q.S()], outs + [out];
    }
    StartOk(pass, nWorkers);
    EveryRun(pass, nBatchSize, steps, trace, outs, |steps|);
  }

  lemma {:induction false} TotalDifference(threads: seq<Phase>)
    requires forall i :: 0 <= i < |threads| ==> threads[i].Outside? || threads[i].Sleeping?
    ensures Total(Idle, threads) == Total(Inside, threads)
    decreases |threads|
  {
    if threads != [] {
      TotalDifference(threads[..|threads| - 1]);
    }
  }

  function Max(a: nat, b: nat): nat { if a >= b then a else b }
  function Min(a: nat, b: nat): nat { if a <= b then a else b }

  lemma QueueCounts(pass: Check -> bool, s: Shared, added: seq<Check>)
    requires Inv(pass, s, added)
    ensures s.nTotal >= 0 && s.nIdle >= 0 && |s.threads| > MASTER
  {
  }

  /** A thread that waits is counted. */
  lemma SleeperCounts(pass: Check -> bool, s: Shared, added: seq<Check>, t: nat)
    requires Inv(pass, s, added) && t < |s.threads| && s.threads[t].Sleeping?
    ensures s.nIdle >= 1
  {
    TotalZero(Idle, s.threads);
    assert Idle(s.threads[t]) == 1;
  }
}
