/** ThreadPool with its fields updated in place. Each method is one critical section, or one
    access outside the mutex, and moves the pool as PoolMachine says. */
module ThreadPool {
  import opened Wrappers
  import opened PoolMachine

  class ThreadPool {
    var threadNum: nat
    var tasks: seq<nat>
    var threads: seq<Worker>
    var callers: seq<Caller>
    var terminate: bool
    var active: int
    var control: Control
    ghost var submitted: nat
    ghost var taken: seq<nat>
    ghost var returned: seq<nat>

    ghost function View(): State
      reads this
    {
      State(threadNum, tasks, threads, callers, terminate, active, control, submitted, taken, returned)
    }

    ghost predicate Valid()
      reads this
    {
      Inv(View())
    }

    constructor (callers: nat)
      ensures Valid() && View() == Initial(callers)
    {
      threadNum, tasks, threads := 1, [], [];
      this.callers := seq(callers, _ => Away);
      terminate, active, control := false, 0, Free;
      submitted, taken, returned := 0, [], [];
      new;
      InitialInv(callers);
    }

    method SetThreadNum(num: nat) returns (ok: bool)
      requires Valid()
      modifies this
      ensures Valid() && View() == Next(old(View()), Init(num))
      ensures ok <==> old(threads) == []
      ensures threadNum == if ok then num else old(threadNum)
    {
      StepKeepsInv(View(), Init(num));
      if threads != [] {
        return false;
      }
      threadNum := num;
      return true;
    }

    method GetJobNum() returns (n: nat)
      requires Valid()
      ensures n == |tasks| && n + |taken| == submitted
    {
      n := |tasks|;
      assert |taken + tasks| == submitted;
    }

    method Start() returns (ok: bool)
      requires Valid() && Enabled(View(), Action.Start)
      modifies this
      ensures Valid() && View() == Next(old(View()), Action.Start)
      ensures ok <==> old(threads) == []
      ensures threads == if ok then seq(threadNum, _ => Top) else old(threads)
      ensures terminate == old(terminate) && tasks == old(tasks)
    {
      hide Inv;
      StepKeepsInv(View(), Action.Start);
      if threads != [] {
        return false;
      }
      var i := 0;
      while i < threadNum
        invariant 0 <= i <= threadNum && threads == seq(i, _ => Top)
        invariant View() == old(View()).(workers := threads)
      {
        threads := threads + [Top];
        i := i + 1;
      }
      return true;
    }

    /** `target` is whom notify_one wakes. */
    method Exec(task: nat, target: Target)
      requires Valid() && task == submitted && MayNotify(View(), target)
      modifies this
      ensures Valid() && View() == Next(old(View()), Action.Exec(target))
      ensures tasks == old(tasks) + [task]
      ensures threads == if target.TheWorker? then old(threads)[target.w := Woken] else old(threads)
      ensures callers == if target.TheCaller? then old(callers)[target.c := Signalled] else old(callers)
    {
      hide Inv;
      StepKeepsInv(View(), Action.Exec(target));
      tasks := tasks + [task];
      submitted := submitted + 1;
      match target {
        case Nobody =>
        case TheWorker(w) => threads := threads[w := Woken];
        case TheCaller(c) => callers := callers[c := Signalled];
      }
    }

    method NotifyEverybody()
      modifies this`threads, this`callers
      ensures View() == NotifyAll(old(View()))
    {
      threads := WakeWorkers(threads);
      callers := WakeCallers(callers);
    }

    /** get, from taking the mutex to releasing it. None: it returns false or goes to wait. */
    method Get(w: nat) returns (task: Option<nat>)
      requires w < |threads|
      modifies this`threads, this`tasks, this`taken
      ensures View() == PoolMachine.Get(old(View()), w)
      ensures task == if terminate || old(tasks) == [] then None else Some(old(tasks)[0])
    {
      if terminate {
        threads := threads[w := Top];
        return None;
      }
      if tasks == [] {
        threads := threads[w := Asleep];
        return None;
      }
      task := Some(tasks[0]);
      taken := taken + [tasks[0]];
      threads := threads[w := Claimed(tasks[0])];
      tasks := tasks[1..];
    }

    /** The next step of run() in thread w. */
    method Run(w: nat)
      requires Valid() && Enabled(View(), Work(w))
      modifies this
      ensures Valid() && View() == Next(old(View()), Work(w))
    {
      hide Inv;
      StepKeepsInv(View(), Work(w));
      match threads[w] {
        case Top => threads := threads[w := if terminate then Exited else Entering];
        case Claimed(t) =>
          active := active + 1;
          threads := threads[w := Running(t)];
        case Running(t) =>
          returned := returned + [t];
          threads := threads[w := Ran(t)];
        case Ran(_) =>
          active := active - 1;
          threads := threads[w := Leaving];
        case Leaving =>
          threads := threads[w := Top];
          if active == 0 && tasks == [] {
            NotifyEverybody();
          }
        case Entering => var _ := Get(w);
        case Asleep => var _ := Get(w);
        case Woken => var _ := Get(w);
      }
    }

    /** One turn of the loop of run() that finds a task, with no other thread in between. */
    method RunTurn(w: nat)
      requires Valid() && w < |threads| && threads[w] == Top && !terminate && tasks != []
      modifies this
      ensures Valid() && |threads| == old(|threads|) && threads[w] == Top
      ensures tasks == old(tasks[1..]) && taken == old(taken + [tasks[0]]) && returned == old(returned + [tasks[0]])
      ensures active == old(active) && !terminate && submitted == old(submitted)
    {
      hide Inv, WakeWorkers, WakeCallers;
      Run(w);
      Run(w);
      Run(w);
      Run(w);
      Run(w);
      assert threads[w] == Leaving;
      Run(w);
    }

    /** The loop of run() in one thread while no other thread moves: every queued task is
        taken and returns, in order, and then the thread goes to sleep. */
    method RunAlone(w: nat)
      requires Valid() && w < |threads| && threads[w] == Top && !terminate
      modifies this
      ensures Valid() && |threads| == old(|threads|) && threads[w] == Asleep && tasks == []
      ensures taken == old(taken + tasks) && returned == old(returned + tasks)
      ensures active == old(active) && !terminate && submitted == old(submitted)
    {
      hide Inv;
      while tasks != []
        invariant Valid() && |threads| == old(|threads|) && threads[w] == Top
        invariant taken + tasks == old(taken + tasks) && returned + tasks == old(returned + tasks)
        invariant active == old(active) && !terminate && submitted == old(submitted)
        decreases |tasks|
      {
        RunTurn(w);
      }
      Run(w);
      Run(w);
    }

    /** The call, or its return from the wait. It is over when `done`. */
    method WaitForAllDone(c: nat) returns (done: bool)
      requires Valid() && c < |callers|
      modifies this
      ensures Valid() && View() == Next(old(View()), Action.WaitForAllDone(c))
      ensures done <==> tasks == []
    {
      hide Inv;
      StepKeepsInv(View(), Action.WaitForAllDone(c));
      done := tasks == [];
      callers := callers[c := if done then Away else Sleeping];
    }

    method BeginStop()
      requires Valid() && control == Free
      modifies this
      ensures Valid() && View() == Next(old(View()), Stop)
      ensures terminate && tasks == old(tasks) && Asleep !in threads && Sleeping !in callers
    {
      hide Inv;
      StepKeepsInv(View(), Stop);
      terminate := true;
      NotifyEverybody();
      control := Joining(0);
    }

    /** The rest of stop, once every thread has left run(). */
    method FinishStop()
      requires Valid() && control == Joining(0) && forall w :: 0 <= w < |threads| ==> threads[w] == Exited
      modifies this
      ensures Valid() && View() == old(View()).(workers := [], control := Free)
      ensures active == 0 && multiset(taken) == multiset(returned)
    {
      hide Inv;
      var i := 0;
      while i < |threads|
        invariant 0 <= i <= |threads| && Valid()
        invariant View() == old(View()).(control := Joining(i))
      {
        StepKeepsInv(View(), Join);
        i := i + 1;
        control := Joining(i);
      }
      StopReturnsQuiet(View());
      StepKeepsInv(View(), Clear);
      threads := [];
      control := Free;
    }
  }
}
