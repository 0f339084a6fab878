/** The parallel check queue: one master and any number of workers take batches of checks from a common
    stack. Every critical section of the mutex is one atomic step; threads interleave in any order. */
module CheckQueueProtocol {

  /** A check and what evaluating it yields. */
  datatype Check = Check(id: nat, ok: bool)

  /** Where a thread is: outside the loop, waiting on its condition variable, or working on a batch. */
  datatype Thread =
    | Out
    | Waiting(notified: bool)
    | Working(rest: seq<Check>, nNow: nat, fOk: bool)

  /** The state guarded by the mutex, and the threads. Thread 0 is the master. */
  datatype State = State(queue: seq<Check>, nIdle: int, nTotal: int, fAllOk: bool, nTodo: int, threads: seq<Thread>)

  datatype Step =
    | Add(checks: seq<Check>, wake: nat)
    | Section(i: nat)
    | Evaluate(i: nat)

  datatype Event = Added(checks: seq<Check>) | Returned(ok: bool)

  ghost predicate AllOk(cs: seq<Check>) {
    forall c <- cs :: c.ok
  }

  function Sleeping(ts: seq<Thread>): (s: set<nat>)
    ensures forall i :: i in s <==> 1 <= i < |ts| && ts[i] == Waiting(false)
  {
    set i: nat | 1 <= i < |ts| && ts[i] == Waiting(false)
  }

  /** Only the master adds, while it is not in Wait. A single notification reaches some sleeping worker,
      if there is one. A waiting thread may wake up at any time, even without a reason. */
  predicate Enabled(s: State, step: Step) {
    && |s.threads| > 0
    && match step
       case Add(checks, wake) =>
         s.threads[0].Out? && (|checks| == 1 && Sleeping(s.threads) != {} ==> wake in Sleeping(s.threads))
       case Section(i) => i < |s.threads| && (s.threads[i].Working? ==> s.threads[i].rest == [])
       case Evaluate(i) => i < |s.threads| && s.threads[i].Working? && s.threads[i].rest != []
  }

  function NotifyAll(ts: seq<Thread>): (r: seq<Thread>)
    ensures |r| == |ts|
    ensures forall i | 0 <= i < |ts| :: r[i] == if i > 0 && ts[i].Waiting? then Waiting(true) else ts[i]
  {
    seq(|ts|, i requires 0 <= i < |ts| => if i > 0 && ts[i].Waiting? then Waiting(true) else ts[i])
  }

  function Notify(ts: seq<Thread>, i: nat): (r: seq<Thread>)
    ensures |r| == |ts|
  {
    if i < |ts| && ts[i].Waiting? then ts[i := Waiting(true)] else ts
  }

  /** The checks popped from the back of the queue, the last one first. */
  function Popped(queue: seq<Check>, n: nat): (r: seq<Check>)
    requires n <= |queue|
    ensures |r| == n && forall i | 0 <= i < n :: r[i] == queue[|queue| - 1 - i]
  {
    seq(n, i requires 0 <= i < n => queue[|queue| - 1 - i])
  }

  lemma Grows(d: int, q: int)
    requires d > 0 && q >= 0
    ensures d * q >= q
  {
  }

  lemma ShareFits(n: nat, d: int)
    requires d > 0
    ensures 0 <= n / d <= n
  {
    Grows(d, n / d);
  }

  lemma Share(n: nat, d: int)
    requires d > 0
    ensures n / d * d <= n < (n / d + 1) * d
  {
    assert n == n / d * d + n % d;
    assert (n / d + 1) * d == n / d * d + d;
  }

  /** A share q of n, cut to a batch, and one if that is nothing. */
  lemma Cut(n: nat, d: int, q: nat, most: nat)
    requires d > 0 && q * d <= n < (q + 1) * d
    ensures var size := if most < q then most else q; var k := if size < 1 then 1 else size;
      (k > 1 ==> k * d <= n) && (k < most ==> (k + 1) * d > n)
  {
    var size := if most < q then most else q;
    assert (q - size) * d >= 0;
    if q == 0 { assert (0 + 1) * d == d && (1 + 1) * d == 2 * d; }
  }

  /** How many checks to take: a share of the queue, but at least one and at most nBatchSize. */
  function BatchSize(s: State, nBatchSize: nat): (n: nat)
    requires s.nTotal + s.nIdle + 1 > 0 && s.queue != []
    ensures 1 <= n <= |s.queue| && (nBatchSize >= 1 ==> n <= nBatchSize)
    // More than one check is no more than a fair share; less than a full batch leaves no room for one more.
    ensures n > 1 ==> n * (s.nTotal + s.nIdle + 1) <= |s.queue|
    ensures n < nBatchSize ==> (n + 1) * (s.nTotal + s.nIdle + 1) > |s.queue|
  {
    ShareFits(|s.queue|, s.nTotal + s.nIdle + 1);
    Share(|s.queue|, s.nTotal + s.nIdle + 1);
    var share := |s.queue| / (s.nTotal + s.nIdle + 1);
    Cut(|s.queue|, s.nTotal + s.nIdle + 1, share, nBatchSize);
    var size := if nBatchSize < share then nBatchSize else share;
    if size < 1 then 1 else size
  }

  /** The first part of a critical section: account for the batch done, or come in, or wake up. */
  function Account(s: State, i: nat): (r: State)
    requires i < |s.threads|
    ensures |r.threads| == |s.threads| && r.queue == s.queue
  {
    match s.threads[i]
    case Working(_, nNow, fOk) =>
      var s1 := s.(fAllOk := s.fAllOk && fOk, nTodo := s.nTodo - nNow);
      if s1.nTodo == 0 && i > 0 then s1.(threads := Notify(s.threads, 0)) else s1
    case Out => s.(nTotal := s.nTotal + 1)
    case Waiting(_) => s.(nIdle := s.nIdle - 1)
  }

  /** Whether thread i leaves the loop, once it has accounted for its batch. */
  predicate Leaves(s: State, i: nat) {
    s.queue == [] && i == 0 && s.nTodo == 0
  }

  /** The second part: leave, wait, or take a batch. */
  function Proceed(s: State, i: nat, nBatchSize: nat): (r: State)
    requires i < |s.threads| && s.nTotal + s.nIdle + 1 > 0
    ensures |r.threads| == |s.threads|
  {
    if Leaves(s, i) then
      s.(nTotal := s.nTotal - 1, fAllOk := true, threads := s.threads[i := Out])
    else if s.queue == [] then
      s.(nIdle := s.nIdle + 1, threads := s.threads[i := Waiting(false)])
    else
      var nNow := BatchSize(s, nBatchSize);
      s.(queue := s.queue[..|s.queue| - nNow], threads := s.threads[i := Working(Popped(s.queue, nNow), nNow, s.fAllOk)])
  }

  /** A thread inside the loop is counted. */
  predicate Countable(s: State, step: Step)
    requires Enabled(s, step)
  {
    s.nTotal >= 0 && s.nIdle >= 0 && (step.Section? && !s.threads[step.i].Out? ==> s.nTotal > 0)
  }

  /** One step of one thread. */
  function Next(s: State, step: Step, nBatchSize: nat): (r: State)
    requires Enabled(s, step) && Countable(s, step)
    ensures |r.threads| == |s.threads|
  {
    match step
    case Add(checks, wake) =>
      s.(queue := s.queue + checks, nTodo := s.nTodo + |checks|,
         threads := if |checks| == 0 then s.threads
                    else if |checks| == 1 then Notify(s.threads, if wake == 0 then |s.threads| else wake)
                    else NotifyAll(s.threads))
    case Section(i) => Proceed(Account(s, i), i, nBatchSize)
    case Evaluate(i) =>
      var t := s.threads[i];
      s.(threads := s.threads[i := Working(t.rest[1..], t.nNow, t.fOk && t.rest[0].ok)])
  }

  /** What a step lets the caller of the queue see. */
  function Events(s: State, step: Step): seq<Event>
    requires Enabled(s, step)
  {
    match step
    case Add(checks, _) => [Added(checks)]
    case Section(i) =>
      var s1 := Account(s, i);
      if Leaves(s1, i) then [Returned(s1.fAllOk)] else []
    case Evaluate(_) => []
  }

  function Start(n: nat): State {
    State([], 0, 0, true, 0, seq(n, _ => Out))
  }

  predicate IsIdle(s: State) {
    s.nTotal == s.nIdle && s.nTodo == 0 && s.fAllOk
  }

  /* What the caller may rely on, told by the events alone. */

  /** The checks added since Wait last returned. */
  function Pending(log: seq<Event>): seq<Check> {
    if log == [] then []
    else
      match log[|log| - 1]
      case Added(checks) => Pending(log[..|log| - 1]) + checks
      case Returned(_) => []
  }

  /** Every return tells whether all checks added since the previous one are fine. */
  ghost predicate Honest(log: seq<Event>) {
    log == [] ||
    (var front, last := log[..|log| - 1], log[|log| - 1];
     Honest(front) && (last.Returned? ==> last.ok == AllOk(Pending(front))))
  }

  /* Sums over the threads. */

  function Sum(ts: seq<Thread>, f: Thread -> nat): nat {
    if ts == [] then 0 else Sum(ts[..|ts| - 1], f) + f(ts[|ts| - 1])
  }

  lemma {:induction false} SumUpdate(ts: seq<Thread>, f: Thread -> nat, i: nat, t: Thread)
    requires i < |ts|
    ensures Sum(ts[i := t], f) == Sum(ts, f) - f(ts[i]) + f(t)
    ensures Sum(ts, f) >= f(ts[i])
  {
    var front := ts[..|ts| - 1];
    if i == |ts| - 1 {
      assert ts[i := t][..|ts| - 1] == front;
    } else {
      assert ts[i := t][..|ts| - 1] == front[i := t];
      SumUpdate(front, f, i, t);
    }
  }

  lemma {:induction false} SumSame(ts: seq<Thread>, us: seq<Thread>, f: Thread -> nat)
    requires |ts| == |us| && forall i | 0 <= i < |ts| :: f(ts[i]) == f(us[i])
    ensures Sum(ts, f) == Sum(us, f)
  {
    if ts != [] { SumSame(ts[..|ts| - 1], us[..|us| - 1], f); }
  }

  lemma {:induction false} SumZero(ts: seq<Thread>, f: Thread -> nat)
    ensures Sum(ts, f) == 0 <==> forall i | 0 <= i < |ts| :: f(ts[i]) == 0
  {
    if ts != [] { SumZero(ts[..|ts| - 1], f); }
  }

  function Idles(t: Thread): nat { if t.Waiting? then 1 else 0 }

  function Busies(t: Thread): nat { if t.Working? then 1 else 0 }

  /** Checks claimed by a thread and not yet accounted for. */
  function Holds(t: Thread): nat { if t.Working? then t.nNow else 0 }

  /* The invariant. */

  ghost predicate ThreadOk(t: Thread) {
    t.Working? ==> t.fOk && AllOk(t.rest)
  }

  ghost predicate ThreadsOk(ts: seq<Thread>) {
    forall i | 0 <= i < |ts| :: ThreadOk(ts[i])
  }

  ghost predicate Batches(ts: seq<Thread>) {
    forall i | 0 <= i < |ts| :: ts[i].Working? ==> ts[i].nNow >= 1
  }

  /** The counters count, and the result is decided by what is known to have failed and by what is left. */
  ghost predicate Counted(s: State, added: seq<Check>) {
    && |s.threads| > 0
    && s.nIdle == Sum(s.threads, Idles)
    && s.nTotal == s.nIdle + Sum(s.threads, Busies)
    && s.nTodo == |s.queue| + Sum(s.threads, Holds)
    && s.nTodo <= |added|
    && Batches(s.threads)
    && (AllOk(added) <==> s.fAllOk && AllOk(s.queue) && ThreadsOk(s.threads))
  }

  /** A master that sleeps has nothing to take, and if it was not notified some check is still unaccounted for. */
  ghost predicate MasterOk(s: State) {
    |s.threads| > 0 && (s.threads[0].Waiting? ==> s.queue == [] && (!s.threads[0].notified ==> s.nTodo > 0))
  }

  ghost predicate Inv(s: State, added: seq<Check>) {
    Counted(s, added) && MasterOk(s)
  }

  function AddedAfter(s: State, step: Step, added: seq<Check>): seq<Check>
    requires Enabled(s, step)
  {
    match step
    case Add(checks, _) => added + checks
    case Section(i) => if Leaves(Account(s, i), i) then [] else added
    case Evaluate(_) => added
  }

  lemma StartOk(n: nat)
    requires n > 0
    ensures Inv(Start(n), [])
  {
    var s := Start(n);
    SumZero(s.threads, Idles);
    SumZero(s.threads, Busies);
    SumZero(s.threads, Holds);
  }

  lemma CountersOk(s: State, added: seq<Check>, step: Step)
    requires Inv(s, added) && Enabled(s, step)
    ensures Countable(s, step)
    ensures step.Section? ==> s.nTotal >= Idles(s.threads[step.i]) + Busies(s.threads[step.i]) && s.nIdle >= Idles(s.threads[step.i])
    ensures step.Section? ==> s.nTodo >= |s.queue| + Holds(s.threads[step.i])
  {
    if step.Section? {
      SumUpdate(s.threads, Idles, step.i, Out);
      SumUpdate(s.threads, Busies, step.i, Out);
      SumUpdate(s.threads, Holds, step.i, Out);
    }
  }

  /** Replacing one thread. */
  lemma Replace(ts: seq<Thread>, i: nat, t: Thread)
    requires i < |ts|
    ensures Sum(ts[i := t], Idles) == Sum(ts, Idles) - Idles(ts[i]) + Idles(t)
    ensures Sum(ts[i := t], Busies) == Sum(ts, Busies) - Busies(ts[i]) + Busies(t)
    ensures Sum(ts[i := t], Holds) == Sum(ts, Holds) - Holds(ts[i]) + Holds(t)
    ensures Batches(ts) && (t.Working? ==> t.nNow >= 1) ==> Batches(ts[i := t])
    ensures ThreadOk(ts[i]) && ThreadOk(t) ==> (ThreadsOk(ts) <==> ThreadsOk(ts[i := t]))
    ensures !ThreadOk(t) ==> !ThreadsOk(ts[i := t])
    ensures !ThreadOk(ts[i]) ==> !ThreadsOk(ts)
  {
    SumUpdate(ts, Idles, i, t);
    SumUpdate(ts, Busies, i, t);
    SumUpdate(ts, Holds, i, t);
    var us := ts[i := t];
    forall k | 0 <= k < |ts| ensures us[k] == if k == i then t else ts[k] {}
    if ThreadsOk(us) && ThreadOk(ts[i]) {
      forall k | 0 <= k < |ts| ensures ThreadOk(ts[k]) { assert ThreadOk(us[k]); }
    }
    assert ThreadsOk(us) ==> ThreadOk(us[i]);
  }

  /** Waking threads changes nothing that is counted. */
  lemma Woken(ts: seq<Thread>, us: seq<Thread>)
    requires |ts| == |us|
    requires forall k | 0 <= k < |ts| :: us[k] == ts[k] || (us[k].Waiting? && ts[k].Waiting?)
    ensures Sum(us, Idles) == Sum(ts, Idles)
    ensures Sum(us, Busies) == Sum(ts, Busies)
    ensures Sum(us, Holds) == Sum(ts, Holds)
    ensures Batches(us) <==> Batches(ts)
    ensures ThreadsOk(us) <==> ThreadsOk(ts)
  {
    SumSame(us, ts, Idles);
    SumSame(us, ts, Busies);
    SumSame(us, ts, Holds);
    forall k | 0 <= k < |ts| ensures ThreadOk(us[k]) <==> ThreadOk(ts[k]) {}
  }

  /** A single check wakes exactly one sleeping worker, if there is one; several wake all of them. The
      master is not woken, and no other thread is disturbed. */
  lemma AddWakes(s: State, checks: seq<Check>, wake: nat, nBatchSize: nat, i: nat)
    requires Enabled(s, Add(checks, wake)) && Countable(s, Add(checks, wake)) && i < |s.threads|
    ensures var r := Next(s, Add(checks, wake), nBatchSize);
      && r.queue == s.queue + checks
      && r.threads[0].Out?
      && (checks == [] || s.threads[i] != Waiting(false) ==> r.threads[i] == s.threads[i])
      && (|checks| == 1 ==> Sleeping(r.threads) == Sleeping(s.threads) - {wake})
      && (|checks| == 1 ==> |Sleeping(r.threads)| == if Sleeping(s.threads) == {} then 0 else |Sleeping(s.threads)| - 1)
      && (|checks| > 1 && s.threads[i].Waiting? ==> r.threads[i] == Waiting(true))
  {
  }

  lemma AddKeeps(s: State, added: seq<Check>, checks: seq<Check>, wake: nat, nBatchSize: nat)
    requires Inv(s, added) && Enabled(s, Add(checks, wake)) && Countable(s, Add(checks, wake))
    ensures Inv(Next(s, Add(checks, wake), nBatchSize), added + checks)
  {
    var r := Next(s, Add(checks, wake), nBatchSize);
    Woken(s.threads, r.threads);
    assert AllOk(added + checks) <==> AllOk(added) && AllOk(checks);
    assert AllOk(s.queue + checks) <==> AllOk(s.queue) && AllOk(checks);
  }

  lemma EvaluateKeeps(s: State, added: seq<Check>, i: nat, nBatchSize: nat)
    requires Inv(s, added) && Enabled(s, Evaluate(i)) && Countable(s, Evaluate(i))
    ensures Inv(Next(s, Evaluate(i), nBatchSize), added)
  {
    var t := s.threads[i];
    var u := Working(t.rest[1..], t.nNow, t.fOk && t.rest[0].ok);
    assert t.rest == [t.rest[0]] + t.rest[1..];
    assert AllOk(t.rest) <==> t.rest[0].ok && AllOk(t.rest[1..]);
    assert ThreadOk(t) <==> ThreadOk(u);
    Replace(s.threads, i, u);
  }

  /** In the middle of a critical section of thread i: it is neither waiting nor working, and not yet gone. */
  ghost predicate Midway(s: State, i: nat, added: seq<Check>) {
    && i < |s.threads|
    && var others := s.threads[i := Out];
    && s.nIdle == Sum(others, Idles)
    && s.nTotal == s.nIdle + Sum(others, Busies) + 1
    && s.nTodo == |s.queue| + Sum(others, Holds)
    && s.nTodo <= |added|
    && Batches(others)
    && (AllOk(added) <==> s.fAllOk && AllOk(s.queue) && ThreadsOk(others))
    && (i > 0 ==> MasterOk(s))
  }

  lemma AccountKeeps(s: State, added: seq<Check>, i: nat)
    requires Inv(s, added) && Enabled(s, Section(i))
    ensures Midway(Account(s, i), i, added)
  {
    var t := s.threads[i];
    Replace(s.threads, i, Out);
    var r := Account(s, i);
    if r.threads != s.threads {
      assert r.threads == s.threads[0 := Waiting(true)];
      Woken(s.threads[i := Out], r.threads[i := Out]);
    }
  }

  lemma ProceedKeeps(s: State, added: seq<Check>, i: nat, nBatchSize: nat)
    requires Midway(s, i, added)
    ensures s.nTotal + s.nIdle + 1 > 0
    ensures Inv(Proceed(s, i, nBatchSize), if Leaves(s, i) then [] else added)
    ensures Leaves(s, i) ==> s.fAllOk == AllOk(added)
  {
    var others := s.threads[i := Out];
    var r := Proceed(s, i, nBatchSize);
    assert r.threads == others[i := r.threads[i]];
    Replace(others, i, r.threads[i]);
    if Leaves(s, i) {
      NobodyHolds(others);
    } else if s.queue != [] {
      var t := r.threads[i];
      PoppedOk(s.queue, t.nNow);
    }
  }

  lemma NobodyHolds(ts: seq<Thread>)
    requires Batches(ts) && Sum(ts, Holds) == 0
    ensures ThreadsOk(ts) && Sum(ts, Busies) == 0
  {
    SumZero(ts, Holds);
    SumZero(ts, Busies);
    assert forall i | 0 <= i < |ts| :: Holds(ts[i]) == 0 ==> !ts[i].Working?;
  }

  lemma PoppedOk(queue: seq<Check>, n: nat)
    requires n <= |queue|
    ensures AllOk(queue) <==> AllOk(queue[..|queue| - n]) && AllOk(Popped(queue, n))
  {
    var front, batch := queue[..|queue| - n], Popped(queue, n);
    forall c ensures c in queue <==> c in front || c in batch {
      if c in queue {
        var k :| 0 <= k < |queue| && queue[k] == c;
        if k < |queue| - n { assert front[k] == c; } else { assert batch[|queue| - 1 - k] == c; }
      }
    }
  }

  /** Every step keeps the invariant, and a return tells the truth. */
  lemma StepKeeps(s: State, added: seq<Check>, step: Step, nBatchSize: nat)
    requires Inv(s, added) && Enabled(s, step)
    ensures Countable(s, step)
    ensures Inv(Next(s, step, nBatchSize), AddedAfter(s, step, added))
    ensures forall e <- Events(s, step) :: e.Returned? ==> e.ok == AllOk(added)
  {
    hide Inv, AllOk, Counted;
    CountersOk(s, added, step);
    match step
    case Add(checks, wake) => AddKeeps(s, added, checks, wake, nBatchSize);
    case Section(i) =>
      AccountKeeps(s, added, i);
      ProceedKeeps(Account(s, i), added, i, nBatchSize);
    case Evaluate(i) => EvaluateKeeps(s, added, i, nBatchSize);
  }

  /* Whole runs. */

  /** Whether a schedule can be followed from s. */
  ghost predicate Runs(s: State, steps: seq<Step>, nBatchSize: nat)
    decreases |steps|
  {
    steps == [] || (Enabled(s, steps[0]) && Countable(s, steps[0]) && Runs(Next(s, steps[0], nBatchSize), steps[1..], nBatchSize))
  }

  /** The state and the events after a schedule. */
  ghost function After(s: State, steps: seq<Step>, nBatchSize: nat): State
    requires Runs(s, steps, nBatchSize)
    decreases |steps|
  {
    if steps == [] then s else After(Next(s, steps[0], nBatchSize), steps[1..], nBatchSize)
  }

  ghost function Log(s: State, steps: seq<Step>, nBatchSize: nat): seq<Event>
    requires Runs(s, steps, nBatchSize)
    decreases |steps|
  {
    if steps == [] then []
    else Events(s, steps[0]) + Log(Next(s, steps[0], nBatchSize), steps[1..], nBatchSize)
  }

  /** What one more event makes of a log. */
  lemma {:induction false} LogNext(log: seq<Event>, e: Event)
    ensures Pending(log + [e]) == if e.Added? then Pending(log) + e.checks else []
    ensures Honest(log + [e]) <==> Honest(log) && (e.Returned? ==> e.ok == AllOk(Pending(log)))
  {
    hide AllOk;
    assert (log + [e])[..|log|] == log;
  }

  lemma EventsAdd(s: State, step: Step, added: seq<Check>)
    requires Enabled(s, step)
    ensures var es := Events(s, step);
      && |es| <= 1
      && AddedAfter(s, step, added) == if es == [] then added else if es[0].Added? then added + es[0].checks else []
  {
    hide Account;
  }

  /** One step extends an honest log to an honest log. */
  lemma {:induction false} StepHonest(s: State, log: seq<Event>, step: Step, nBatchSize: nat)
    requires Honest(log) && Inv(s, Pending(log)) && Enabled(s, step)
    ensures Countable(s, step)
    ensures Honest(log + Events(s, step))
    ensures Inv(Next(s, step, nBatchSize), Pending(log + Events(s, step)))
  {
    hide *;
    StepKeeps(s, Pending(log), step, nBatchSize);
    EventsAdd(s, step, Pending(log));
    var es := Events(s, step);
    if es == [] {
      assert log + es == log;
    } else {
      assert es == [es[0]];
      LogNext(log, es[0]);
    }
  }

  lemma {:induction false} RunHonest(s: State, log: seq<Event>, steps: seq<Step>, nBatchSize: nat)
    requires Honest(log) && Inv(s, Pending(log)) && Runs(s, steps, nBatchSize)
    ensures Honest(log + Log(s, steps, nBatchSize))
    ensures Inv(After(s, steps, nBatchSize), Pending(log + Log(s, steps, nBatchSize)))
    decreases |steps|
  {
    hide Inv, Next, Honest, Pending;
    if steps == [] {
      assert log + [] == log;
    } else {
      var next, es := Next(s, steps[0], nBatchSize), Events(s, steps[0]);
      StepHonest(s, log, steps[0], nBatchSize);
      RunHonest(next, log + es, steps[1..], nBatchSize);
      assert log + es + Log(next, steps[1..], nBatchSize) == log + Log(s, steps, nBatchSize);
    }
  }

  /** However the threads interleave, every Wait returns true exactly when all checks added since the
      previous return are fine, and the queue reports idle exactly when nothing is left to do and none
      of those checks failed; so it is idle from a return until the next Add. */
  lemma EveryRunHonest(n: nat, steps: seq<Step>, nBatchSize: nat)
    requires n > 0 && Runs(Start(n), steps, nBatchSize)
    ensures var s, log := After(Start(n), steps, nBatchSize), Log(Start(n), steps, nBatchSize);
      && Honest(log)
      && (IsIdle(s) <==> s.nTodo == 0 && AllOk(Pending(log)))
      && (Pending(log) == [] ==> IsIdle(s))
  {
    StartOk(n);
    RunHonest(Start(n), [], steps, nBatchSize);
    var s, log := After(Start(n), steps, nBatchSize), Log(Start(n), steps, nBatchSize);
    assert [] + log == log;
    IdleExactly(s, Pending(log));
  }

  lemma IdleExactly(s: State, added: seq<Check>)
    requires Inv(s, added)
    ensures IsIdle(s) <==> s.nTodo == 0 && AllOk(added)
    ensures added == [] ==> IsIdle(s)
  {
    if s.nTodo == 0 { NobodyHolds(s.threads); }
  }

  /** No lost wake-up: if the master sleeps and was not notified, some worker holds a batch. */
  lemma SomebodyWorks(s: State, added: seq<Check>) returns (i: nat)
    requires Inv(s, added) && s.threads[0] == Waiting(false)
    ensures 0 < i < |s.threads| && s.threads[i].Working?
  {
    SumZero(s.threads, Holds);
    var k :| 0 <= k < |s.threads| && Holds(s.threads[k]) != 0;
    i := k;
  }

  /* Progress. */

  /** How much a thread may still do before it has to be woken up. */
  function Effort(t: Thread): nat {
    match t
    case Out => 1
    case Waiting(notified) => if notified then 1 else 0
    case Working(rest, _, _) => 2 + |rest|
  }

  function Measure(s: State): nat {
    4 * |s.queue| + Sum(s.threads, Effort)
  }

  /** While the master is in Wait, some step is enabled that is not just a spurious wake-up. */
  lemma NeverStuck(s: State, added: seq<Check>) returns (step: Step)
    requires Inv(s, added) && !s.threads[0].Out?
    ensures Enabled(s, step) && (step.Section? ==> s.threads[step.i] != Waiting(false))
  {
    var i := 0;
    if s.threads[0] == Waiting(false) { i := SomebodyWorks(s, added); }
    step := if s.threads[i].Working? && s.threads[i].rest != [] then Evaluate(i) else Section(i);
  }

  /** Accounting for a batch may wake the master, and no one else. */
  lemma {:induction false} AccountEffort(s: State, i: nat, u: Thread)
    requires i < |s.threads|
    ensures var ts, k := Account(s, i).threads, if s.threads[i].Working? then 1 else 0;
      && Sum(ts[i := u], Effort) <= Sum(s.threads, Effort) - Effort(s.threads[i]) + Effort(u) + k
      && (forall j | 0 <= j < |ts| :: ts[j].Out? <==> s.threads[j].Out?)
      && (!s.threads[i].Working? ==> ts == s.threads)
  {
    hide Sum;
    SumUpdate(s.threads, Effort, i, u);
    var ts := Account(s, i).threads;
    if ts != s.threads {
      SumUpdate(s.threads[i := u], Effort, 0, Waiting(true));
      assert ts[i := u] == s.threads[i := u][0 := Waiting(true)];
    }
  }

  lemma {:induction false} SectionCounts(s: State, i: nat, nBatchSize: nat)
    requires Enabled(s, Section(i)) && Countable(s, Section(i)) && !s.threads[0].Out? && !Leaves(Account(s, i), i)
    ensures var r := Next(s, Section(i), nBatchSize);
      && !r.threads[0].Out?
      && (r != s ==> Measure(r) < Measure(s))
      && (s.threads[i] != Waiting(false) ==> r != s)
  {
    hide Sum, BatchSize;
    var r := Next(s, Section(i), nBatchSize);
    AccountEffort(s, i, r.threads[i]);
    assert r.threads == Account(s, i).threads[i := r.threads[i]];
    if s.threads[i] == Waiting(false) && s.queue == [] {
      assert r.threads == s.threads;
    }
  }

  lemma {:induction false} EvaluateCounts(s: State, i: nat, nBatchSize: nat)
    requires Enabled(s, Evaluate(i)) && Countable(s, Evaluate(i)) && !s.threads[0].Out?
    ensures var r := Next(s, Evaluate(i), nBatchSize);
      !r.threads[0].Out? && r != s && Measure(r) < Measure(s)
  {
    hide Sum;
    var r := Next(s, Evaluate(i), nBatchSize);
    SumUpdate(s.threads, Effort, i, r.threads[i]);
    assert |r.threads[i].rest| < |s.threads[i].rest|;
  }

  /** While the master is in Wait, every step uses up some of the measure, unless it changes nothing. */
  lemma {:induction false} StepsCount(s: State, step: Step, nBatchSize: nat)
    requires Enabled(s, step) && Countable(s, step) && !s.threads[0].Out? && Events(s, step) == []
    ensures var r := Next(s, step, nBatchSize);
      && !r.threads[0].Out?
      && (r != s ==> Measure(r) < Measure(s))
      && ((step.Section? ==> s.threads[step.i] != Waiting(false)) ==> r != s)
  {
    hide Measure, Next, Account, Leaves;
    if step.Section? {
      SectionCounts(s, step.i, nBatchSize);
    } else if step.Evaluate? {
      EvaluateCounts(s, step.i, nBatchSize);
    }
  }

  /** Wait returns: no schedule can make more steps than the measure allows, not counting those that
      change nothing. */
  lemma {:induction false} WaitEnds(s: State, added: seq<Check>, steps: seq<Step>, nBatchSize: nat)
    requires Inv(s, added) && !s.threads[0].Out? && Runs(s, steps, nBatchSize)
    requires Log(s, steps, nBatchSize) == []
    ensures Changes(s, steps, nBatchSize) + Measure(After(s, steps, nBatchSize)) <= Measure(s)
    decreases |steps|
  {
    hide Inv, Next, Measure;
    if steps != [] {
      var next := Next(s, steps[0], nBatchSize);
      assert |Events(s, steps[0])| <= |Log(s, steps, nBatchSize)|;
      StepKeeps(s, added, steps[0], nBatchSize);
      StepsCount(s, steps[0], nBatchSize);
      WaitEnds(next, AddedAfter(s, steps[0], added), steps[1..], nBatchSize);
    }
  }

  /** The number of steps of a schedule that change the state. */
  ghost function Changes(s: State, steps: seq<Step>, nBatchSize: nat): nat
    requires Runs(s, steps, nBatchSize)
    decreases |steps|
  {
    if steps == [] then 0
    else
      var next := Next(s, steps[0], nBatchSize);
      (if next != s then 1 else 0) + Changes(next, steps[1..], nBatchSize)
  }
}
