/** The check queue as an object. Each method is one critical section, or the evaluation of one check
    outside the mutex; they are called in the order in which the threads get to run. */
module CheckQueue {
  import opened CheckQueueProtocol

  class CheckQueue {
    var queue: seq<Check>
    var nIdle: int
    var nTotal: int
    var fAllOk: bool
    var nTodo: int
    const nBatchSize: nat
    var threads: seq<Thread>

    ghost function View(): State
      reads this
    {
      State(queue, nIdle, nTotal, fAllOk, nTodo, threads)
    }

    constructor (nBatchSizeIn: nat, n: nat)
      ensures View() == Start(n) && nBatchSize == nBatchSizeIn
    {
      queue, nIdle, nTotal, fAllOk, nTodo := [], 0, 0, true, 0;
      nBatchSize := nBatchSizeIn;
      threads := seq(n, _ => Out);
    }

    /** The master adds a batch of checks and wakes as many workers as may be useful. */
    method Add(vChecks: seq<Check>, wake: nat)
      requires Enabled(View(), Step.Add(vChecks, wake)) && Countable(View(), Step.Add(vChecks, wake))
      modifies this
      ensures View() == Next(old(View()), Step.Add(vChecks, wake), nBatchSize)
    {
      for i := 0 to |vChecks|
        invariant queue == old(queue) + vChecks[..i]
        invariant View().(queue := old(queue)) == old(View())
      {
        assert vChecks[..i + 1] == vChecks[..i] + [vChecks[i]];
        queue := queue + [vChecks[i]];
      }
      assert vChecks[..|vChecks|] == vChecks;
      nTodo := nTodo + |vChecks|;
      if |vChecks| == 1 {
        threads := Notify(threads, if wake == 0 then |threads| else wake);
      } else if |vChecks| > 1 {
        threads := NotifyAll(threads);
      }
    }

    /** What a thread does first in its critical section: it accounts for its batch, comes in or wakes up. */
    method AccountFor(i: nat)
      requires i < |threads|
      modifies this
      ensures View() == Account(old(View()), i)
    {
      var fMaster := i == 0;
      var t := threads[i];
      if t.Working? {
        fAllOk := fAllOk && t.fOk;
        nTodo := nTodo - t.nNow;
        if nTodo == 0 && !fMaster {
          threads := Notify(threads, 0);
        }
      } else if t.Out? {
        nTotal := nTotal + 1;
      } else {
        nIdle := nIdle - 1;
      }
    }

    /** The critical section of Loop for thread i; the master is thread 0. It returns from the loop, goes
        to wait, or leaves with a batch. */
    method LoopSection(i: nat) returns (returned: bool, fRet: bool)
      requires Enabled(View(), Section(i)) && Countable(View(), Section(i))
      modifies this
      ensures View() == Next(old(View()), Section(i), nBatchSize)
      ensures Events(old(View()), Section(i)) == if returned then [Returned(fRet)] else []
    {
      returned, fRet := false, false;
      var fMaster := i == 0;
      AccountFor(i);
      if queue == [] {
        if fMaster && nTodo == 0 {
          nTotal := nTotal - 1;
          returned, fRet := true, fAllOk;
          fAllOk := true;
          threads := threads[i := Out];
        } else {
          nIdle := nIdle + 1;
          threads := threads[i := Waiting(false)];
        }
        return;
      }
      TakeBatch(i);
    }

    method TakeBatch(i: nat)
      requires i < |threads| && queue != [] && nTotal + nIdle + 1 > 0
      modifies this
      ensures View() == Proceed(old(View()), i, nBatchSize)
    {
      var share := |queue| / (nTotal + nIdle + 1);
      var nNow := if nBatchSize < share then nBatchSize else share;
      if nNow < 1 { nNow := 1; }
      ShareFits(|queue|, nTotal + nIdle + 1);
      var vChecks: seq<Check> := [];
      for k := 0 to nNow
        invariant queue == old(queue)[..|old(queue)| - k]
        invariant vChecks == Popped(old(queue), k)
        invariant View().(queue := old(queue)) == old(View())
      {
        vChecks := vChecks + [queue[|queue| - 1]];
        queue := queue[..|queue| - 1];
      }
      threads := threads[i := Working(vChecks, nNow, fAllOk)];
    }

    /** Thread i evaluates the next check of its batch, unless a failure is known already. */
    method Execute(i: nat)
      requires Enabled(View(), Evaluate(i)) && Countable(View(), Evaluate(i))
      modifies this
      ensures View() == Next(old(View()), Evaluate(i), nBatchSize)
    {
      var t := threads[i];
      var fOk := t.fOk;
      if fOk { fOk := t.rest[0].ok; }
      threads := threads[i := Working(t.rest[1..], t.nNow, fOk)];
    }

    method QueryIdle() returns (idle: bool)
      ensures idle == IsIdle(View())
    {
      idle := nTotal == nIdle && nTodo == 0 && fAllOk;
    }
  }

  /** Lets one thread take its step. */
  method Take(q: CheckQueue, step: Step) returns (seen: seq<Event>)
    requires Enabled(q.View(), step) && Countable(q.View(), step)
    modifies q
    ensures q.View() == Next(old(q.View()), step, q.nBatchSize) && seen == Events(old(q.View()), step)
  {
    seen := [];
    if step.Add? {
      q.Add(step.checks, step.wake);
      seen := [Added(step.checks)];
    } else if step.Section? {
      var returned, fRet := q.LoopSection(step.i);
      if returned { seen := [Returned(fRet)]; }
    } else {
      q.Execute(step.i);
    }
  }

  /** Follows any schedule of n threads on a fresh queue; the log it returns is honest. */
  method Follow(nBatchSize: nat, n: nat, steps: seq<Step>) returns (q: CheckQueue, log: seq<Event>, idle: bool)
    requires n > 0 && Runs(Start(n), steps, nBatchSize)
    ensures q.View() == After(Start(n), steps, nBatchSize) && log == Log(Start(n), steps, nBatchSize)
    ensures Honest(log)
    ensures idle <==> q.nTodo == 0 && AllOk(Pending(log))
    ensures Pending(log) == [] ==> idle
  {
    hide Next, Honest, Pending, Events;
    q := new CheckQueue(nBatchSize, n);
    log := [];
    for k := 0 to |steps|
      invariant fresh(q) && q.nBatchSize == nBatchSize
      invariant Runs(q.View(), steps[k..], nBatchSize)
      invariant After(Start(n), steps, nBatchSize) == After(q.View(), steps[k..], nBatchSize)
      invariant Log(Start(n), steps, nBatchSize) == log + Log(q.View(), steps[k..], nBatchSize)
    {
      assert steps[k..][0] == steps[k] && steps[k..][1..] == steps[k + 1..];
      ghost var s, es := q.View(), Events(q.View(), steps[k]);
      ghost var before := log;
      var seen := Take(q, steps[k]);
      log := log + seen;
      assert before + es + Log(q.View(), steps[k + 1..], nBatchSize) == before + (es + Log(q.View(), steps[k + 1..], nBatchSize));
    }
    EveryRunHonest(n, steps, nBatchSize);
    idle := q.QueryIdle();
  }
}
