/** A `down` that must wait gives up the lock before it gives up the processor: the window between the two, in which
    its waker may already run. */
module SleepWake {
  import opened Semaphore
  import opened KernelSemaphore

  /** Where a task is: outside `down`, past the unlock but not yet in `schedule`, or off the processor. */
  datatype Place = Outside | Unlocked | Asleep

  datatype View = View(state: TaskState, place: Place)

  datatype Kernel<T> = Kernel(sem: Sem<T>, views: map<T, View>)

  datatype Step<T> = EnterDown(task: T) | Schedule(task: T) | UpBy(task: T)

  function Start<T(==)>(init: nat, tasks: set<T>): Kernel<T> {
    Kernel(Sem(init, []), map task | task in tasks :: View(Running, Outside))
  }

  ghost predicate Enabled<T>(kernel: Kernel<T>, step: Step<T>) {
    && step.task in kernel.views
    && kernel.views[step.task].place == if step.Schedule? then Unlocked else Outside
  }

  /** `wake_up_process`: a task that is off the processor comes back and returns from `down`; one that is not there
      yet is only marked runnable. */
  function Wake(view: View): View {
    View(Running, if view.place == Asleep then Outside else view.place)
  }

  /** `schedule`: only a task still marked interruptible leaves the processor. */
  function Yield(view: View): View {
    if view.state == Interruptible then view.(place := Asleep) else view.(place := Outside)
  }

  ghost function Apply<T>(kernel: Kernel<T>, step: Step<T>): Kernel<T>
    requires Enabled(kernel, step)
  {
    match step
    case EnterDown(task) =>
      var sem := Down(kernel.sem, task);
      Kernel(sem, if sem.value < 0 then kernel.views[task := View(Interruptible, Unlocked)] else kernel.views)
    case Schedule(task) =>
      kernel.(views := kernel.views[task := Yield(kernel.views[task])])
    case UpBy(_) =>
      match Woken(kernel.sem)
      case None => kernel.(sem := Up(kernel.sem))
      case Some(woken) =>
        Kernel(Up(kernel.sem), if woken in kernel.views then kernel.views[woken := Wake(kernel.views[woken])]
                               else kernel.views)
  }

  /** What every step keeps: the queue holds exactly the tasks still marked interruptible, none of them twice and
      none of them outside `down`, and whoever is off the processor is one of them. */
  ghost predicate Consistent<T>(kernel: Kernel<T>) {
    && Balanced(kernel.sem)
    && (forall i, j :: 0 <= i < j < |kernel.sem.waiting| ==> kernel.sem.waiting[i] != kernel.sem.waiting[j])
    && (forall task :: task in kernel.sem.waiting ==> task in kernel.views)
    && (forall task :: task in kernel.views ==>
          (task in kernel.sem.waiting <==> kernel.views[task].state == Interruptible))
    && (forall task :: task in kernel.views && kernel.views[task].state == Interruptible ==>
          kernel.views[task].place != Outside)
    && (forall task :: task in kernel.views && kernel.views[task].place == Asleep ==>
          kernel.views[task].state == Interruptible)
  }

  lemma ApplyKeepsConsistent<T>(kernel: Kernel<T>, step: Step<T>)
    requires Consistent(kernel) && Enabled(kernel, step)
    ensures Consistent(Apply(kernel, step))
  {
    match step {
      case EnterDown(task) =>
      case Schedule(task) =>
      case UpBy(_) =>
    }
  }

  ghost predicate IsRun<T>(init: nat, tasks: set<T>, run: seq<Kernel<T>>, steps: seq<Step<T>>) {
    && |run| == |steps| + 1
    && run[0] == Start(init, tasks)
    && forall k :: 0 <= k < |steps| ==> Enabled(run[k], steps[k]) && run[k + 1] == Apply(run[k], steps[k])
  }

  lemma {:induction false} AlwaysConsistent<T>(init: nat, tasks: set<T>, run: seq<Kernel<T>>, steps: seq<Step<T>>,
                                               k: nat)
    requires IsRun(init, tasks, run, steps) && k <= |steps|
    ensures Consistent(run[k])
  {
    if k > 0 {
      AlwaysConsistent(init, tasks, run, steps, k - 1);
      ApplyKeepsConsistent(run[k - 1], steps[k - 1]);
    }
  }

  /** A task woken before it reached `schedule`: runnable, queued no more, and still on its way. */
  ghost predicate WokenEarly<T>(kernel: Kernel<T>, task: T) {
    && task in kernel.views
    && kernel.views[task] == View(Running, Unlocked)
    && task !in kernel.sem.waiting
  }

  lemma OthersLeaveWoken<T>(kernel: Kernel<T>, step: Step<T>, task: T)
    requires Consistent(kernel) && Enabled(kernel, step) && WokenEarly(kernel, task) && step != Schedule(task)
    ensures WokenEarly(Apply(kernel, step), task)
  {
    match step {
      case EnterDown(other) =>
        assert other != task;
      case Schedule(_) =>
      case UpBy(_) =>
    }
  }

  /** Whatever the others do before it gets there, it is still runnable when it reaches `schedule`. */
  lemma {:induction false} WokenStaysWoken<T>(init: nat, tasks: set<T>, run: seq<Kernel<T>>, steps: seq<Step<T>>,
                                              task: T, from: nat, j: nat)
    requires IsRun(init, tasks, run, steps) && from <= j <= |steps| && WokenEarly(run[from], task)
    requires forall i :: from <= i < j ==> steps[i] != Schedule(task)
    ensures WokenEarly(run[j], task)
  {
    if from < j {
      WokenStaysWoken(init, tasks, run, steps, task, from, j - 1);
      AlwaysConsistent(init, tasks, run, steps, j - 1);
      OthersLeaveWoken(run[j - 1], steps[j - 1], task);
    }
  }

  /** Step `k` wakes whoever waited longest. */
  ghost predicate Wakes<T>(run: seq<Kernel<T>>, steps: seq<Step<T>>, k: nat, task: T)
    requires k < |steps| < |run|
  {
    steps[k].UpBy? && run[k].sem.waiting != [] && run[k].sem.waiting[0] == task
  }

  lemma WokenAt<T>(init: nat, tasks: set<T>, run: seq<Kernel<T>>, steps: seq<Step<T>>, k: nat, task: T)
    requires IsRun(init, tasks, run, steps) && k < |steps| && Wakes(run, steps, k, task)
    ensures task in run[k].views && task in run[k + 1].views
    ensures if run[k].views[task].place == Asleep then run[k + 1].views[task] == View(Running, Outside)
            else WokenEarly(run[k + 1], task)
  {
    AlwaysConsistent(init, tasks, run, steps, k);
    AlwaysConsistent(init, tasks, run, steps, k + 1);
    assert run[k].sem.waiting[0] in run[k].sem.waiting;
  }

  // ---------- waiting, step by step ----------

  /** A task that finds no free permit is marked and queued, and still has to give up the processor; one that finds a
      permit goes on. */
  lemma EnteringMayWait<T>(init: nat, tasks: set<T>, run: seq<Kernel<T>>, steps: seq<Step<T>>, j: nat, task: T)
    requires IsRun(init, tasks, run, steps) && j < |steps| && steps[j] == EnterDown(task)
    ensures task in run[j + 1].views
    ensures if run[j].sem.value <= 0 then
              task in run[j + 1].sem.waiting && run[j + 1].views[task] == View(Interruptible, Unlocked)
            else
              task !in run[j + 1].sem.waiting && run[j + 1].views[task].place == Outside
  {
    AlwaysConsistent(init, tasks, run, steps, j);
    AlwaysConsistent(init, tasks, run, steps, j + 1);
  }

  /** Step `j` took the task past the lock without a permit. */
  ghost predicate HadToWait<T>(run: seq<Kernel<T>>, steps: seq<Step<T>>, j: nat, task: T)
    requires j < |steps| < |run|
  {
    steps[j] == EnterDown(task) && run[j].sem.value <= 0
  }

  lemma OnItsWayStep<T>(kernel: Kernel<T>, step: Step<T>, task: T)
    requires Consistent(kernel) && Enabled(kernel, step) && task in kernel.views
    ensures task in Apply(kernel, step).views
    ensures Apply(kernel, step).views[task].place == Unlocked <==>
              || (step == EnterDown(task) && kernel.sem.value <= 0)
              || (kernel.views[task].place == Unlocked && step != Schedule(task))
  {
    match step {
      case EnterDown(_) =>
      case Schedule(_) =>
      case UpBy(_) =>
    }
  }

  /** A task is between unlock and `schedule` exactly if it had to wait and has not run `schedule` since. */
  lemma {:induction false} OnItsWay<T>(init: nat, tasks: set<T>, run: seq<Kernel<T>>, steps: seq<Step<T>>, k: nat,
                                       task: T)
    requires IsRun(init, tasks, run, steps) && k <= |steps| && task in tasks
    ensures task in run[k].views
    ensures run[k].views[task].place == Unlocked <==>
              exists j :: 0 <= j < k && HadToWait(run, steps, j, task) && NotScheduled(steps, j + 1, k, task)
  {
    if k > 0 {
      OnItsWay(init, tasks, run, steps, k - 1, task);
      AlwaysConsistent(init, tasks, run, steps, k - 1);
      OnItsWayStep(run[k - 1], steps[k - 1], task);
      if HadToWait(run, steps, k - 1, task) {
        assert NotScheduled(steps, k, k, task);
      }
      if run[k - 1].views[task].place == Unlocked && steps[k - 1] != Schedule(task) {
        var j :| 0 <= j < k - 1 && HadToWait(run, steps, j, task) && NotScheduled(steps, j + 1, k - 1, task);
        assert NotScheduled(steps, j + 1, k, task);
      }
      forall j | 0 <= j < k && HadToWait(run, steps, j, task) && NotScheduled(steps, j + 1, k, task)
        ensures run[k].views[task].place == Unlocked
      {
        assert j < k - 1 ==> NotScheduled(steps, j + 1, k - 1, task) && steps[k - 1] != Schedule(task);
      }
    }
  }

  ghost predicate NotScheduled<T>(steps: seq<Step<T>>, from: nat, to: nat, task: T)
    requires to <= |steps|
  {
    forall i :: from <= i < to ==> steps[i] != Schedule(task)
  }

  /** A task that is still queued when it runs `schedule` leaves the processor; one that is not stays on it. */
  lemma QueuedFallAsleep<T>(init: nat, tasks: set<T>, run: seq<Kernel<T>>, steps: seq<Step<T>>, j: nat, task: T)
    requires IsRun(init, tasks, run, steps) && j < |steps| && steps[j] == Schedule(task)
    ensures task in run[j + 1].views
    ensures run[j + 1].views[task].place == if task in run[j].sem.waiting then Asleep else Outside
    ensures run[j + 1].sem == run[j].sem
  {
    AlwaysConsistent(init, tasks, run, steps, j);
  }

  lemma OthersLeaveAsleep<T>(kernel: Kernel<T>, step: Step<T>, task: T)
    requires Consistent(kernel) && Enabled(kernel, step)
    requires task in kernel.views && kernel.views[task].place == Asleep
    requires !(step.UpBy? && kernel.sem.waiting != [] && kernel.sem.waiting[0] == task)
    ensures step.task != task
    ensures task in Apply(kernel, step).views && Apply(kernel, step).views[task].place == Asleep
  {
    match step {
      case EnterDown(_) =>
      case Schedule(_) =>
      case UpBy(_) =>
    }
  }

  /** Once off the processor, a task takes no step until some `up` wakes it. */
  lemma {:induction false} AsleepUntilWoken<T>(init: nat, tasks: set<T>, run: seq<Kernel<T>>, steps: seq<Step<T>>,
                                               j: nat, k: nat, task: T)
    requires IsRun(init, tasks, run, steps) && j <= k <= |steps|
    requires task in run[j].views && run[j].views[task].place == Asleep
    requires forall i :: j <= i < k ==> !Wakes(run, steps, i, task)
    ensures task in run[k].views && run[k].views[task].place == Asleep
    ensures k < |steps| ==> steps[k].task != task
  {
    if j < k {
      AsleepUntilWoken(init, tasks, run, steps, j, k - 1, task);
      AlwaysConsistent(init, tasks, run, steps, k - 1);
      assert !Wakes(run, steps, k - 1, task);
      OthersLeaveAsleep(run[k - 1], steps[k - 1], task);
    }
  }

  /** No wake-up is lost, in any run: whoever is off the processor is still queued, so that some `up` will find it, and
      is back outside `down` once it does. */
  lemma NoWakeUpIsLost<T>(init: nat, tasks: set<T>, run: seq<Kernel<T>>, steps: seq<Step<T>>, k: nat, task: T)
    requires IsRun(init, tasks, run, steps) && k <= |steps|
    requires task in run[k].views && run[k].views[task].place == Asleep
    ensures task in run[k].sem.waiting
    ensures k < |steps| && Wakes(run, steps, k, task) ==>
              task in run[k + 1].views && run[k + 1].views[task].place == Outside
  {
    AlwaysConsistent(init, tasks, run, steps, k);
    if k < |steps| && Wakes(run, steps, k, task) {
      WokenAt(init, tasks, run, steps, k, task);
    }
  }

  /** A task that step `k` wakes before it reached `schedule` comes straight back from it at step `j`, whatever the
      others do in between. */
  lemma WokenReturns<T>(init: nat, tasks: set<T>, run: seq<Kernel<T>>, steps: seq<Step<T>>, k: nat, j: nat, task: T)
    requires IsRun(init, tasks, run, steps) && k < j < |steps|
    requires Wakes(run, steps, k, task) && task in run[k].views && run[k].views[task].place == Unlocked
    requires steps[j] == Schedule(task) && forall i :: k < i < j ==> steps[i] != Schedule(task)
    ensures task in run[j + 1].views && run[j + 1].views[task].place == Outside
  {
    WokenAt(init, tasks, run, steps, k, task);
    WokenStaysWoken(init, tasks, run, steps, task, k + 1, j);
  }
}
