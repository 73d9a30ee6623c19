/** The parallel check queue: one master and any number of workers under one
    mutex. Each locked section is one step; between them a thread holds its own
    batch. Thread 0 is the master. Which waiting worker a notification reaches,
    and spurious wake-ups, are choices of the step. */
module CheckQueue {
  import opened Numbers

  type Check = nat

  /** Where a thread is. `now` is the size of the batch it holds or has finished;
      `Holding` is the middle of a locked section. */
  datatype Thread =
    | Outside
    | AtLock(now: nat, ok: bool)
    | Holding
    | Waiting(notified: bool)
    | Working(now: nat, ok: bool, left: seq<Check>)

  /** `added` are the checks added since the last Wait returned, and `verdicts`
      pairs the checks of every finished Wait with what it returned. */
  datatype State = State(
    queue: seq<Check>,
    idle: int,
    total: int,
    allOk: bool,
    todo: int,
    quit: bool,
    batchSize: nat,
    threads: seq<Thread>,
    added: seq<Check>,
    verdicts: seq<(seq<Check>, bool)>)

  datatype Step =
    | Add(checks: seq<Check>, woken: nat)
    | Start(t: nat)
    | Enter(t: nat)
    | Wake(t: nat)
    | Execute(t: nat)

  type Eval = Check -> bool

  predicate AllTrue(checks: seq<Check>, eval: Eval) {
    forall c :: c in checks ==> eval(c)
  }

  function Initial(threads: nat, quit: bool, batchSize: nat): State {
    State([], 0, 0, true, 0, quit, batchSize, seq(1 + threads, _ => Outside), [], [])
  }

  // ----- the locked sections

  function BatchSize(s: State): int
    requires s.total + s.idle + 1 != 0
  {
    Max(1, Min(s.batchSize, |s.queue| / (s.total + s.idle + 1)))
  }

  /** The batch in the order in which it is taken from the back of the queue. */
  function Popped(queue: seq<Check>, n: nat): seq<Check>
    requires n <= |queue|
  {
    if n == 0 then [] else [queue[|queue| - 1]] + Popped(queue[..|queue| - 1], n - 1)
  }

  /** The loop head with the lock held: return, wait or take a batch. */
  predicate CanSettle(s: State, t: nat) {
    && t < |s.threads|
    && (s.queue != [] ==> s.total + s.idle + 1 != 0 && BatchSize(s) <= |s.queue|)
  }

  function Settle(s: State, t: nat): State
    requires CanSettle(s, t)
  {
    if s.queue == [] then
      if (t == 0 || s.quit) && s.todo == 0 then
        var r := s.(total := s.total - 1, threads := s.threads[t := Outside]);
        if t == 0 then r.(allOk := true, added := [], verdicts := s.verdicts + [(s.added, s.allOk)]) else r
      else s.(idle := s.idle + 1, threads := s.threads[t := Waiting(false)])
    else
      var n := BatchSize(s);
      s.(queue := s.queue[..|s.queue| - n], threads := s.threads[t := Working(n, s.allOk, Popped(s.queue, n))])
  }

  function NotifyMaster(s: State): State
    requires |s.threads| > 0
  {
    if s.threads[0].Waiting? then s.(threads := s.threads[0 := Waiting(true)]) else s
  }

  /** The clean-up after a batch, or the first entry. */
  function CleanUp(s: State, t: nat): State
    requires t < |s.threads| && s.threads[t].AtLock?
  {
    var a := s.threads[t];
    if a.now > 0 then
      var c := s.(allOk := s.allOk && a.ok, todo := s.todo - a.now, threads := s.threads[t := Holding]);
      if c.todo == 0 && t != 0 then NotifyMaster(c) else c
    else s.(total := s.total + 1, threads := s.threads[t := Holding])
  }

  /** Back from the wait, with the lock. */
  function Resume(s: State, t: nat): State
    requires t < |s.threads|
  {
    s.(idle := s.idle - 1, threads := s.threads[t := Holding])
  }

  function NotifyWorkers(threads: seq<Thread>, count: nat, woken: nat): seq<Thread> {
    if count == 0 || threads == [] then threads
    else if count == 1 then
      if 0 < woken < |threads| && threads[woken].Waiting? then threads[woken := Waiting(true)] else threads
    else
      seq(|threads|, i requires 0 <= i < |threads| =>
        if i > 0 && threads[i].Waiting? then Waiting(true) else threads[i])
  }

  // ----- steps

  predicate Enabled(s: State, a: Step) {
    match a
    case Add(_, _) => |s.threads| > 0 && s.threads[0].Outside?
    case Start(t) => t < |s.threads| && s.threads[t].Outside?
    case Enter(t) => t < |s.threads| && s.threads[t].AtLock? && CanSettle(CleanUp(s, t), t)
    case Wake(t) => t < |s.threads| && s.threads[t].Waiting? && CanSettle(Resume(s, t), t)
    case Execute(t) => t < |s.threads| && s.threads[t].Working?
  }

  function Execution(w: Thread, eval: Eval): Thread
    requires w.Working?
  {
    if w.left == [] then AtLock(w.now, w.ok)
    else Working(w.now, w.ok && eval(w.left[0]), w.left[1..])
  }

  function Next(s: State, a: Step, eval: Eval): State
    requires Enabled(s, a)
  {
    match a
    case Add(checks, woken) =>
      s.(queue := s.queue + checks, todo := s.todo + |checks|, added := s.added + checks,
         threads := NotifyWorkers(s.threads, |checks|, woken))
    case Start(t) => s.(threads := s.threads[t := AtLock(0, true)])
    case Enter(t) => Settle(CleanUp(s, t), t)
    case Wake(t) => Settle(Resume(s, t), t)
    case Execute(t) => s.(threads := s.threads[t := Execution(s.threads[t], eval)])
  }

  // ----- the invariant

  function Sum(threads: seq<Thread>, f: Thread -> int): int {
    if threads == [] then 0 else f(threads[0]) + Sum(threads[1..], f)
  }

  function InFlight(w: Thread): int {
    match w
    case AtLock(now, _) => now
    case Working(now, _, _) => now
    case _ => 0
  }

  function Inside(w: Thread): int {
    match w
    case AtLock(now, _) => if now > 0 then 1 else 0
    case Working(_, _, _) => 1
    case Waiting(_) => 1
    case Holding => 1
    case Outside => 0
  }

  function Idle(w: Thread): int {
    if w.Waiting? then 1 else 0
  }

  predicate PendingOk(w: Thread, eval: Eval) {
    match w
    case AtLock(now, ok) => now > 0 ==> ok
    case Working(_, ok, left) => ok && AllTrue(left, eval)
    case _ => true
  }

  predicate AllPendingOk(threads: seq<Thread>, eval: Eval) {
    forall i :: 0 <= i < |threads| ==> PendingOk(threads[i], eval)
  }

  /** The counters are exact, and the checks added since the last Wait are all true
      just when nothing failed so far and nothing queued or in flight will fail. */
  ghost predicate Balanced(s: State, eval: Eval) {
    && |s.threads| > 0
    && s.todo == |s.queue| + Sum(s.threads, InFlight)
    && s.total == Sum(s.threads, Inside)
    && s.idle == Sum(s.threads, Idle)
    && (forall i :: 0 <= i < |s.threads| && s.threads[i].Working? ==> s.threads[i].now > 0)
    && (AllTrue(s.added, eval) <==> s.allOk && AllTrue(s.queue, eval) && AllPendingOk(s.threads, eval))
    && (forall i :: 0 <= i < |s.verdicts| ==> s.verdicts[i].1 == AllTrue(s.verdicts[i].0, eval))
  }

  /** A master that waits without a pending wake-up has work to wait for. */
  ghost predicate NoLostWakeUp(s: State) {
    |s.threads| > 0 && (s.threads[0] == Waiting(false) ==> s.queue == [] && s.todo > 0)
  }

  ghost predicate Inv(s: State, eval: Eval) {
    Balanced(s, eval) && NoLostWakeUp(s)
  }

  lemma {:induction false} SumUpdate(threads: seq<Thread>, f: Thread -> int, t: nat, w: Thread)
    requires t < |threads|
    ensures Sum(threads[t := w], f) == Sum(threads, f) - f(threads[t]) + f(w)
  {
    if t == 0 {
      assert threads[0 := w][1..] == threads[1..];
    } else {
      SumUpdate(threads[1..], f, t - 1, w);
      assert threads[t := w][1..] == threads[1..][t - 1 := w];
    }
  }

  lemma {:induction false} SumSame(a: seq<Thread>, b: seq<Thread>, f: Thread -> int)
    requires |a| == |b| && forall i :: 0 <= i < |a| ==> f(a[i]) == f(b[i])
    ensures Sum(a, f) == Sum(b, f)
  {
    if a != [] {
      SumSame(a[1..], b[1..], f);
    }
  }

  lemma {:induction false} SumNonNegative(threads: seq<Thread>, f: Thread -> int)
    requires forall w :: f(w) >= 0
    ensures Sum(threads, f) >= 0
    ensures Sum(threads, f) == 0 ==> forall i :: 0 <= i < |threads| ==> f(threads[i]) == 0
  {
    if threads != [] {
      SumNonNegative(threads[1..], f);
      assert forall i :: 0 <= i < |threads| ==> i == 0 || threads[i] == threads[1..][i - 1];
    }
  }

  lemma {:induction false} PoppedAll(queue: seq<Check>, n: nat, eval: Eval)
    requires n <= |queue|
    ensures |Popped(queue, n)| == n
    ensures AllTrue(queue, eval) <==> AllTrue(queue[..|queue| - n], eval) && AllTrue(Popped(queue, n), eval)
  {
    if n > 0 {
      var init := queue[..|queue| - 1];
      PoppedAll(init, n - 1, eval);
      assert queue == init + [queue[|queue| - 1]];
      assert init[..|init| - (n - 1)] == queue[..|queue| - n];
    }
  }

  lemma AllPendingUpdate(threads: seq<Thread>, t: nat, w: Thread, eval: Eval)
    requires t < |threads| && PendingOk(w, eval)
    ensures AllPendingOk(threads, eval) <==> PendingOk(threads[t], eval) && AllPendingOk(threads[t := w], eval)
  {
    forall i | 0 <= i < |threads| && i != t ensures threads[t := w][i] == threads[i] {
    }
  }

  lemma Sums(threads: seq<Thread>, t: nat, w: Thread)
    requires t < |threads|
    ensures Sum(threads[t := w], InFlight) == Sum(threads, InFlight) - InFlight(threads[t]) + InFlight(w)
    ensures Sum(threads[t := w], Inside) == Sum(threads, Inside) - Inside(threads[t]) + Inside(w)
    ensures Sum(threads[t := w], Idle) == Sum(threads, Idle) - Idle(threads[t]) + Idle(w)
    ensures Sum(threads, InFlight) >= 0 && Sum(threads, Inside) >= 0 && Sum(threads, Idle) >= 0
  {
    SumUpdate(threads, InFlight, t, w);
    SumUpdate(threads, Inside, t, w);
    SumUpdate(threads, Idle, t, w);
    SumNonNegative(threads, InFlight);
    SumNonNegative(threads, Inside);
    SumNonNegative(threads, Idle);
  }

  lemma NotifyBalanced(s: State, eval: Eval)
    requires Balanced(s, eval)
    ensures Balanced(NotifyMaster(s), eval) && NotifyMaster(s).threads[0] != Waiting(false)
    ensures forall i :: 0 <= i < |s.threads| && !s.threads[i].Waiting? ==> NotifyMaster(s).threads[i] == s.threads[i]
  {
    Sums(s.threads, 0, Waiting(true));
    AllPendingUpdate(s.threads, 0, Waiting(true), eval);
  }

  lemma CleanUpInv(s: State, t: nat, eval: Eval)
    requires Inv(s, eval) && t < |s.threads| && s.threads[t].AtLock?
    ensures Inv(CleanUp(s, t), eval) && CleanUp(s, t).threads[t] == Holding
    ensures |CleanUp(s, t).threads| == |s.threads|
  {
    var a := s.threads[t];
    Sums(s.threads, t, Holding);
    AllPendingUpdate(s.threads, t, Holding, eval);
    if a.now > 0 {
      var c := s.(allOk := s.allOk && a.ok, todo := s.todo - a.now, threads := s.threads[t := Holding]);
      Sums(c.threads, t, Holding);
      assert Balanced(c, eval);
      if c.todo == 0 && t != 0 {
        NotifyBalanced(c, eval);
      }
    }
  }

  lemma ResumeInv(s: State, t: nat, eval: Eval)
    requires Inv(s, eval) && t < |s.threads| && s.threads[t].Waiting?
    ensures Inv(Resume(s, t), eval) && Resume(s, t).threads[t] == Holding
  {
    Sums(s.threads, t, Holding);
    AllPendingUpdate(s.threads, t, Holding, eval);
  }

  /** With nothing queued and nothing left to do, no thread holds a check. */
  lemma NothingPending(s: State, eval: Eval)
    requires Balanced(s, eval) && s.queue == [] && s.todo == 0
    ensures AllPendingOk(s.threads, eval)
    ensures s.allOk == AllTrue(s.added, eval)
  {
    SumNonNegative(s.threads, InFlight);
    forall i | 0 <= i < |s.threads| ensures PendingOk(s.threads[i], eval) {
      assert InFlight(s.threads[i]) == 0;
    }
  }

  lemma BatchFits(s: State, t: nat, eval: Eval)
    requires Balanced(s, eval) && t < |s.threads| && s.threads[t] == Holding && s.queue != []
    ensures s.total + s.idle + 1 >= 2 && 1 <= BatchSize(s) <= |s.queue|
    ensures var n, d := BatchSize(s), s.total + s.idle + 1;
      && (n > 1 ==> n <= s.batchSize && n * d <= |s.queue|)
      && (n >= s.batchSize || (n + 1) * d > |s.queue|)
  {
    Sums(s.threads, t, Outside);
    SumNonNegative(s.threads[t := Outside], Inside);
    QuotientFits(|s.queue|, s.total + s.idle + 1);
    ShareFits(s.batchSize, |s.queue|, s.total + s.idle + 1);
  }

  /** The largest share of at most `limit` of which there are d in n, but at least one. */
  lemma ShareFits(limit: nat, n: nat, d: int)
    requires d >= 1
    ensures var k := Max(1, Min(limit, n / d));
      (k > 1 ==> k <= limit && k * d <= n) && (k >= limit || (k + 1) * d > n)
  {
    var q, r, k := n / d, n % d, Max(1, Min(limit, n / d));
    assert n == q * d + r;
    if k <= q {
      MulMonotone(k, q, d);
    }
    if q <= k {
      MulMonotone(q + 1, k + 1, d);
      assert (q + 1) * d == q * d + d;
    }
  }

  lemma QuotientFits(n: nat, d: int)
    requires d >= 1
    ensures 0 <= n / d <= n
  {
    var q, r := n / d, n % d;
    assert n == q * d + r;
    MulAtLeast(q, d);
  }

  lemma MulAtLeast(q: nat, d: int)
    requires d >= 1
    ensures q * d >= q
  {
  }

  lemma SettleInv(s: State, t: nat, eval: Eval)
    requires Inv(s, eval) && t < |s.threads| && s.threads[t] == Holding
    ensures CanSettle(s, t)
    ensures Inv(Settle(s, t), eval)
  {
    if s.queue == [] {
      if (t == 0 || s.quit) && s.todo == 0 {
        NothingPending(s, eval);
        Sums(s.threads, t, Outside);
        AllPendingUpdate(s.threads, t, Outside, eval);
      } else {
        Sums(s.threads, t, Waiting(false));
        AllPendingUpdate(s.threads, t, Waiting(false), eval);
      }
    } else {
      BatchFits(s, t, eval);
      TakeInv(s, t, BatchSize(s), eval);
    }
  }

  /** A thread that finds nothing to do leaves if it is the master or has to quit, and nothing is
      in flight; otherwise it waits. One that finds checks takes the last ones of the queue. */
  lemma SettleDoes(s: State, t: nat, eval: Eval)
    requires Inv(s, eval) && t < |s.threads| && s.threads[t] == Holding
    ensures CanSettle(s, t)
    ensures var r := Settle(s, t);
      && |r.threads| == |s.threads|
      && (s.queue == [] ==> r.threads[t] == if s.todo == 0 && (t == 0 || s.quit) then Outside else Waiting(false))
      && (s.queue != [] ==>
            && r.threads[t].Working? && 0 < r.threads[t].now == |r.threads[t].left| && r.threads[t].ok == s.allOk
            && r.queue == s.queue[..|s.queue| - r.threads[t].now]
            && (forall i :: 0 <= i < r.threads[t].now ==> r.threads[t].left[i] == s.queue[|s.queue| - 1 - i]))
  {
    SettleInv(s, t, eval);
    if s.queue != [] {
      BatchFits(s, t, eval);
      PoppedAll(s.queue, BatchSize(s), eval);
      PoppedAre(s.queue, BatchSize(s));
    }
  }

  lemma {:induction false} PoppedAre(queue: seq<Check>, n: nat)
    requires n <= |queue|
    ensures |Popped(queue, n)| == n && forall i :: 0 <= i < n ==> Popped(queue, n)[i] == queue[|queue| - 1 - i]
  {
    if n > 0 {
      PoppedAre(queue[..|queue| - 1], n - 1);
    }
  }

  lemma TakeInv(s: State, t: nat, n: nat, eval: Eval)
    requires Inv(s, eval) && t < |s.threads| && s.threads[t] == Holding && 1 <= n <= |s.queue|
    ensures var w := Working(n, s.allOk, Popped(s.queue, n));
      Inv(s.(queue := s.queue[..|s.queue| - n], threads := s.threads[t := w]), eval)
  {
    var w := Working(n, s.allOk, Popped(s.queue, n));
    Sums(s.threads, t, w);
    PoppedAll(s.queue, n, eval);
    forall i | 0 <= i < |s.threads| ensures s.threads[t := w][i] == if i == t then w else s.threads[i] {
    }
    assert PendingOk(s.threads[t], eval);
    assert AllPendingOk(s.threads[t := w], eval) <==> PendingOk(w, eval) && AllPendingOk(s.threads, eval) by {
      if AllPendingOk(s.threads[t := w], eval) {
        assert PendingOk(s.threads[t := w][t], eval);
        forall i | 0 <= i < |s.threads| ensures PendingOk(s.threads[i], eval) {
          assert i != t ==> PendingOk(s.threads[t := w][i], eval);
        }
      }
    }
  }

  lemma AddInv(s: State, checks: seq<Check>, woken: nat, eval: Eval)
    requires Inv(s, eval) && s.threads[0].Outside?
    ensures Inv(Next(s, Add(checks, woken), eval), eval)
  {
    var threads := NotifyWorkers(s.threads, |checks|, woken);
    assert |threads| == |s.threads|;
    forall i | 0 <= i < |threads| ensures threads[i] == s.threads[i] || (threads[i].Waiting? && s.threads[i].Waiting?) {
    }
    SumSame(threads, s.threads, InFlight);
    SumSame(threads, s.threads, Inside);
    SumSame(threads, s.threads, Idle);
    assert AllPendingOk(threads, eval) <==> AllPendingOk(s.threads, eval) by {
      forall i | 0 <= i < |threads| ensures PendingOk(threads[i], eval) <==> PendingOk(s.threads[i], eval) {
      }
    }
    assert AllTrue(s.queue + checks, eval) <==> AllTrue(s.queue, eval) && AllTrue(checks, eval) by {
      AllTrueConcat(s.queue, checks, eval);
    }
    AllTrueConcat(s.added, checks, eval);
  }

  /** Adding one check notifies the worker chosen, adding more notifies every waiting worker;
      nobody else is touched. */
  lemma AddNotifies(s: State, checks: seq<Check>, woken: nat, eval: Eval)
    requires |s.threads| > 0 && s.threads[0].Outside?
    ensures var r := Next(s, Add(checks, woken), eval);
      && |r.threads| == |s.threads|
      && (|checks| >= 2 ==> forall t :: 0 < t < |r.threads| ==> r.threads[t] != Waiting(false))
      && (|checks| == 1 && 0 < woken < |s.threads| && s.threads[woken].Waiting? ==> r.threads[woken] == Waiting(true))
      && (forall t :: 0 <= t < |r.threads| && r.threads[t] != s.threads[t] ==>
            t > 0 && s.threads[t] == Waiting(false) && (|checks| >= 2 || (|checks| == 1 && t == woken)))
  {
  }

  lemma AllTrueConcat(a: seq<Check>, b: seq<Check>, eval: Eval)
    ensures AllTrue(a + b, eval) <==> AllTrue(a, eval) && AllTrue(b, eval)
  {
    forall c ensures c in a + b <==> c in a || c in b {
    }
  }

  lemma ExecuteInv(s: State, t: nat, eval: Eval)
    requires Inv(s, eval) && t < |s.threads| && s.threads[t].Working?
    ensures Inv(Next(s, Execute(t), eval), eval)
  {
    var w := s.threads[t];
    var x := Execution(w, eval);
    Sums(s.threads, t, x);
    assert PendingOk(x, eval) <==> PendingOk(w, eval) by {
      if w.left != [] {
        assert w.left == [w.left[0]] + w.left[1..];
        AllTrueConcat([w.left[0]], w.left[1..], eval);
      }
    }
    assert AllPendingOk(s.threads[t := x], eval) <==> AllPendingOk(s.threads, eval) by {
      forall i | 0 <= i < |s.threads| ensures PendingOk(s.threads[t := x][i], eval) <==> PendingOk(s.threads[i], eval) {
      }
    }
  }

  lemma StepInv(s: State, a: Step, eval: Eval)
    requires Inv(s, eval) && Enabled(s, a)
    ensures Inv(Next(s, a, eval), eval)
  {
    match a
    case Add(checks, woken) => AddInv(s, checks, woken, eval);
    case Start(t) =>
      Sums(s.threads, t, AtLock(0, true));
      AllPendingUpdate(s.threads, t, AtLock(0, true), eval);
    case Enter(t) =>
      CleanUpInv(s, t, eval);
      SettleInv(CleanUp(s, t), t, eval);
    case Wake(t) =>
      ResumeInv(s, t, eval);
      SettleInv(Resume(s, t), t, eval);
    case Execute(t) => ExecuteInv(s, t, eval);
  }

  ghost predicate IsRun(s: State, steps: seq<Step>, eval: Eval)
    decreases |steps|
  {
    steps == [] || (Enabled(s, steps[0]) && IsRun(Next(s, steps[0], eval), steps[1..], eval))
  }

  ghost function Run(s: State, steps: seq<Step>, eval: Eval): State
    requires IsRun(s, steps, eval)
    decreases |steps|
  {
    if steps == [] then s else Run(Next(s, steps[0], eval), steps[1..], eval)
  }

  lemma {:induction false} RunInv(s: State, steps: seq<Step>, eval: Eval)
    requires Inv(s, eval) && IsRun(s, steps, eval)
    ensures Inv(Run(s, steps, eval), eval)
    decreases |steps|
  {
    if steps != [] {
      StepInv(s, steps[0], eval);
      RunInv(Next(s, steps[0], eval), steps[1..], eval);
    }
  }

  lemma {:induction false} SumZero(threads: seq<Thread>, f: Thread -> int)
    requires f(Outside) == 0 && forall i :: 0 <= i < |threads| ==> threads[i] == Outside
    ensures Sum(threads, f) == 0
  {
    if threads != [] {
      SumZero(threads[1..], f);
    }
  }

  lemma InitialInv(workers: nat, quit: bool, batchSize: nat, eval: Eval)
    ensures Inv(Initial(workers, quit, batchSize), eval)
  {
    var s := Initial(workers, quit, batchSize);
    SumZero(s.threads, InFlight);
    SumZero(s.threads, Inside);
    SumZero(s.threads, Idle);
  }

  /** Over every interleaving from a new queue: the count of unfinished checks is
      exact, every Wait has returned true exactly when all checks added since the
      Wait before it are true, and a master that is blocked without a pending
      wake-up has a worker with a batch in flight. */
  lemma QueueIsCorrect(workers: nat, quit: bool, batchSize: nat, steps: seq<Step>, eval: Eval)
    requires IsRun(Initial(workers, quit, batchSize), steps, eval)
    ensures var s := Run(Initial(workers, quit, batchSize), steps, eval);
      && s.todo == |s.queue| + Sum(s.threads, InFlight)
      && (forall i :: 0 <= i < |s.verdicts| ==> s.verdicts[i].1 == AllTrue(s.verdicts[i].0, eval))
      && |s.threads| > 0
      && (s.threads[0] == Waiting(false) ==> exists t :: 0 < t < |s.threads| && InFlight(s.threads[t]) > 0)
  {
    var s0 := Initial(workers, quit, batchSize);
    InitialInv(workers, quit, batchSize, eval);
    RunInv(s0, steps, eval);
    var s := Run(s0, steps, eval);
    if s.threads[0] == Waiting(false) {
      var t := SomeoneWorks(s.threads);
    }
  }

  lemma {:induction false} SomeoneWorks(threads: seq<Thread>) returns (t: nat)
    requires Sum(threads, InFlight) > 0
    ensures t < |threads| && InFlight(threads[t]) > 0
  {
    if InFlight(threads[0]) > 0 {
      t := 0;
    } else {
      var u := SomeoneWorks(threads[1..]);
      t := u + 1;
    }
  }

  // ----- a Wait ends

  /** Steps that threads take on their own: no new work, no spurious wake-up. */
  predicate Progress(s: State, a: Step) {
    && Enabled(s, a)
    && match a
       case Enter(_) => true
       case Execute(_) => true
       case Wake(t) => s.threads[t] == Waiting(true)
       case _ => false
  }

  function Weight(w: Thread): int {
    match w
    case Outside => 0
    case AtLock(_, _) => 2
    case Holding => 1
    case Waiting(notified) => if notified then 1 else 0
    case Working(_, _, left) => 3 + |left|
  }

  function Measure(s: State): int {
    4 * |s.queue| + Sum(s.threads, Weight)
  }

  lemma SettleShrinks(s: State, t: nat, eval: Eval)
    requires Inv(s, eval) && t < |s.threads| && s.threads[t] == Holding
    ensures CanSettle(s, t) && Measure(Settle(s, t)) < Measure(s)
  {
    SettleInv(s, t, eval);
    SumUpdate(s.threads, Weight, t, Outside);
    SumUpdate(s.threads, Weight, t, Waiting(false));
    if s.queue != [] {
      BatchFits(s, t, eval);
      var n := BatchSize(s);
      PoppedAll(s.queue, n, eval);
      SumUpdate(s.threads, Weight, t, Working(n, s.allOk, Popped(s.queue, n)));
    }
  }

  lemma CleanUpShrinks(s: State, t: nat)
    requires t < |s.threads| && s.threads[t].AtLock?
    ensures Measure(CleanUp(s, t)) <= Measure(s)
  {
    SumUpdate(s.threads, Weight, t, Holding);
    if s.threads[0].Waiting? {
      SumUpdate(s.threads[t := Holding], Weight, 0, Waiting(true));
    }
  }

  lemma ProgressShrinks(s: State, a: Step, eval: Eval)
    requires Inv(s, eval) && Progress(s, a)
    ensures 0 <= Measure(Next(s, a, eval)) < Measure(s)
  {
    SumNonNegative(Next(s, a, eval).threads, Weight);
    match a
    case Enter(t) =>
      CleanUpInv(s, t, eval);
      SettleShrinks(CleanUp(s, t), t, eval);
      CleanUpShrinks(s, t);
    case Wake(t) =>
      ResumeInv(s, t, eval);
      SettleShrinks(Resume(s, t), t, eval);
      SumUpdate(s.threads, Weight, t, Holding);
    case Execute(t) => SumUpdate(s.threads, Weight, t, Execution(s.threads[t], eval));
  }

  ghost predicate NoHolder(s: State) {
    forall i :: 0 <= i < |s.threads| ==> s.threads[i] != Holding
  }

  lemma StepNoHolder(s: State, a: Step, eval: Eval)
    requires NoHolder(s) && Enabled(s, a)
    ensures NoHolder(Next(s, a, eval))
  {
    match a
    case Enter(t) => SettleNoHolder(CleanUp(s, t), t);
    case Wake(t) => SettleNoHolder(Resume(s, t), t);
    case _ =>
  }

  lemma SettleNoHolder(s: State, t: nat)
    requires CanSettle(s, t) && forall i :: 0 <= i < |s.threads| && i != t ==> s.threads[i] != Holding
    ensures NoHolder(Settle(s, t))
  {
  }

  lemma CanGoOn(s: State, t: nat, eval: Eval) returns (a: Step)
    requires Inv(s, eval) && t < |s.threads|
    requires s.threads[t].AtLock? || s.threads[t].Working? || s.threads[t] == Waiting(true)
    ensures Progress(s, a)
  {
    match s.threads[t]
    case AtLock(_, _) =>
      CleanUpInv(s, t, eval);
      SettleInv(CleanUp(s, t), t, eval);
      a := Enter(t);
    case Waiting(_) =>
      ResumeInv(s, t, eval);
      SettleInv(Resume(s, t), t, eval);
      a := Wake(t);
    case Working(_, _, _) =>
      a := Execute(t);
  }

  /** As long as the master has not returned, some thread can move on its own. */
  lemma NeverStuck(s: State, eval: Eval)
    requires Inv(s, eval) && NoHolder(s) && !s.threads[0].Outside?
    ensures exists a :: Progress(s, a)
  {
    var t := 0;
    if s.threads[0] == Waiting(false) {
      t := SomeoneWorks(s.threads);
    }
    var a := CanGoOn(s, t, eval);
  }

  ghost predicate ProgressRun(s: State, steps: seq<Step>, eval: Eval)
    decreases |steps|
  {
    steps == [] || (Progress(s, steps[0]) && ProgressRun(Next(s, steps[0], eval), steps[1..], eval))
  }

  /** Threads that move on their own do so at most `Measure` times. */
  lemma {:induction false} ProgressEnds(s: State, steps: seq<Step>, eval: Eval)
    requires Inv(s, eval) && ProgressRun(s, steps, eval)
    ensures |steps| <= Measure(s)
    decreases |steps|
  {
    SumNonNegative(s.threads, Weight);
    if steps != [] {
      StepInv(s, steps[0], eval);
      ProgressShrinks(s, steps[0], eval);
      ProgressEnds(Next(s, steps[0], eval), steps[1..], eval);
    }
  }

  /** What has become of the Wait that the master was in at `s`. */
  ghost predicate Answered(s: State, r: State, eval: Eval) {
    && |s.threads| > 0 && |r.threads| > 0
    && (s.threads[0].Outside? ==> r.threads[0].Outside?)
    && if s.threads[0].Outside? || !r.threads[0].Outside? then r.verdicts == s.verdicts && r.added == s.added
       else r.verdicts == s.verdicts + [(s.added, AllTrue(s.added, eval))]
  }

  lemma SettleAnswers(s: State, t: nat, eval: Eval)
    requires Inv(s, eval) && t < |s.threads| && s.threads[t] == Holding
    ensures CanSettle(s, t) && Answered(s, Settle(s, t), eval)
  {
    SettleInv(s, t, eval);
    if s.queue == [] && s.todo == 0 {
      NothingPending(s, eval);
    }
  }

  lemma StepAnswers(s: State, a: Step, eval: Eval)
    requires Inv(s, eval) && Progress(s, a)
    ensures Answered(s, Next(s, a, eval), eval)
  {
    match a
    case Enter(t) =>
      CleanUpInv(s, t, eval);
      SettleAnswers(CleanUp(s, t), t, eval);
    case Wake(t) =>
      ResumeInv(s, t, eval);
      SettleAnswers(Resume(s, t), t, eval);
    case Execute(t) =>
  }

  lemma {:induction false} ProgressAnswers(s: State, steps: seq<Step>, eval: Eval)
    requires Inv(s, eval) && NoHolder(s) && ProgressRun(s, steps, eval)
    ensures IsRun(s, steps, eval)
    ensures var r := Run(s, steps, eval); Inv(r, eval) && NoHolder(r) && Answered(s, r, eval)
    decreases |steps|
  {
    if steps != [] {
      var n := Next(s, steps[0], eval);
      StepInv(s, steps[0], eval);
      StepNoHolder(s, steps[0], eval);
      StepAnswers(s, steps[0], eval);
      ProgressAnswers(n, steps[1..], eval);
    }
  }

  lemma {:induction false} RunNoHolder(s: State, steps: seq<Step>, eval: Eval)
    requires NoHolder(s) && IsRun(s, steps, eval)
    ensures NoHolder(Run(s, steps, eval))
    decreases |steps|
  {
    if steps != [] {
      StepNoHolder(s, steps[0], eval);
      RunNoHolder(Next(s, steps[0], eval), steps[1..], eval);
    }
  }

  /** Every Wait returns, whatever the schedule: after any run from a new queue the
      threads can move on their own only so often, and when none of them can any
      more the master is outside. The Wait it was in has then said whether all
      checks added to it are true. */
  lemma WaitReturns(workers: nat, quit: bool, batchSize: nat, steps: seq<Step>, own: seq<Step>, eval: Eval)
    requires IsRun(Initial(workers, quit, batchSize), steps, eval)
    requires ProgressRun(Run(Initial(workers, quit, batchSize), steps, eval), own, eval)
    ensures var s := Run(Initial(workers, quit, batchSize), steps, eval);
      && |own| <= Measure(s)
      && IsRun(s, own, eval)
      && var r := Run(s, own, eval);
      && |s.threads| > 0 && |r.threads| > 0
      && ((forall a :: !Progress(r, a)) ==>
            && r.threads[0].Outside?
            && (!s.threads[0].Outside? ==> r.verdicts == s.verdicts + [(s.added, AllTrue(s.added, eval))]))
  {
    var s0 := Initial(workers, quit, batchSize);
    InitialInv(workers, quit, batchSize, eval);
    RunInv(s0, steps, eval);
    RunNoHolder(s0, steps, eval);
    var s := Run(s0, steps, eval);
    ProgressEnds(s, own, eval);
    ProgressAnswers(s, own, eval);
    var r := Run(s, own, eval);
    if !r.threads[0].Outside? {
      NeverStuck(r, eval);
    }
  }
}
