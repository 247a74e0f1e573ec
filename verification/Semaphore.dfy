/** The kernel's counting semaphore: the value it stands for, and the linked wait queue that implements it. */
module Semaphore {
  import opened Options

  // ---------- the semaphore as a value ----------

  /** A negative value counts the waiting tasks; they are served first in, first out. */
  datatype Sem<T> = Sem(value: int, waiting: seq<T>)

  function Down<T>(sem: Sem<T>, current: T): Sem<T> {
    Sem(sem.value - 1, if sem.value - 1 < 0 then sem.waiting + [current] else sem.waiting)
  }

  function Up<T>(sem: Sem<T>): Sem<T> {
    Sem(sem.value + 1, if sem.value + 1 <= 0 && sem.waiting != [] then sem.waiting[1..] else sem.waiting)
  }

  /** Whom an `up` wakes. */
  function Woken<T>(sem: Sem<T>): Option<T> {
    if sem.value + 1 <= 0 && sem.waiting != [] then Some(sem.waiting[0]) else None
  }

  /** The queue is as long as the value is negative. */
  ghost predicate Balanced<T>(sem: Sem<T>) {
    |sem.waiting| == if sem.value < 0 then -sem.value else 0
  }

  /** Permits nobody holds. */
  function Free<T>(sem: Sem<T>): int {
    sem.value + |sem.waiting|
  }

  /** A `down` takes a free permit, or queues up when there is none. */
  lemma DownTakesOrWaits<T>(sem: Sem<T>, current: T)
    requires Balanced(sem)
    ensures Balanced(Down(sem, current)) && Free(sem) >= 0
    ensures Free(sem) > 0 ==>
              Down(sem, current).waiting == sem.waiting == [] && Free(Down(sem, current)) == Free(sem) - 1
    ensures Free(sem) == 0 ==> Down(sem, current).waiting == sem.waiting + [current] && Free(Down(sem, current)) == 0
  {
  }

  /** An `up` hands its permit to whoever has waited longest, or frees it when nobody waits. */
  lemma UpHandsOnOrFrees<T>(sem: Sem<T>)
    requires Balanced(sem)
    ensures Balanced(Up(sem)) && Free(sem) >= 0
    ensures sem.waiting == [] ==> Woken(sem) == None && Up(sem).waiting == [] && Free(Up(sem)) == Free(sem) + 1
    ensures sem.waiting != [] ==>
              && Woken(sem) == Some(sem.waiting[0]) && Up(sem).waiting == sem.waiting[1..]
              && Free(Up(sem)) == Free(sem) == 0
  {
  }

  // ---------- runs of one semaphore ----------

  datatype Call<T> = DownBy(task: T) | UpByAnyone

  /** The semaphore after the first `k` calls. */
  function After<T>(init: int, calls: seq<Call<T>>, k: nat): Sem<T>
    requires k <= |calls|
  {
    if k == 0 then Sem(init, [])
    else
      var before := After(init, calls, k - 1);
      match calls[k - 1]
      case DownBy(task) => Down(before, task)
      case UpByAnyone => Up(before)
  }

  function Downs<T>(calls: seq<Call<T>>, k: nat): nat
    requires k <= |calls|
  {
    if k == 0 then 0 else Downs(calls, k - 1) + if calls[k - 1].DownBy? then 1 else 0
  }

  function Ups<T>(calls: seq<Call<T>>, k: nat): nat
    requires k <= |calls|
  {
    if k == 0 then 0 else Ups(calls, k - 1) + if calls[k - 1].UpByAnyone? then 1 else 0
  }

  /** The tasks that had to wait, in the order they came. */
  function Blocked<T>(init: int, calls: seq<Call<T>>, k: nat): seq<T>
    requires k <= |calls|
  {
    if k == 0 then []
    else
      Blocked(init, calls, k - 1) +
      if calls[k - 1].DownBy? && After(init, calls, k - 1).value - 1 < 0 then [calls[k - 1].task] else []
  }

  /** The tasks woken, in the order they were. */
  function Wakes<T>(init: int, calls: seq<Call<T>>, k: nat): seq<T>
    requires k <= |calls|
  {
    if k == 0 then []
    else
      var woken := Woken(After(init, calls, k - 1));
      Wakes(init, calls, k - 1) + if calls[k - 1].UpByAnyone? && woken.Some? then [woken.value] else []
  }

  lemma {:induction false} ValueCounts<T>(init: int, calls: seq<Call<T>>, k: nat)
    requires k <= |calls|
    ensures After(init, calls, k).value == init + Ups(calls, k) - Downs(calls, k)
  {
    if k > 0 {
      ValueCounts(init, calls, k - 1);
    }
  }

  /** One more call, on those blocked, woken and waiting so far. */
  lemma DownKeepsOrder<T>(sem: Sem<T>, blocked: seq<T>, wakes: seq<T>, current: T)
    requires blocked == wakes + sem.waiting
    ensures blocked + (if sem.value - 1 < 0 then [current] else []) == wakes + Down(sem, current).waiting
  {
  }

  lemma UpKeepsOrder<T>(sem: Sem<T>, blocked: seq<T>, wakes: seq<T>)
    requires blocked == wakes + sem.waiting
    ensures blocked == wakes + (if Woken(sem).Some? then [Woken(sem).value] else []) + Up(sem).waiting
  {
  }

  /** On every run from any initial value: the value counts the calls, and tasks are woken in the order they blocked. */
  lemma {:induction false} WakesInOrder<T>(init: int, calls: seq<Call<T>>, k: nat)
    requires k <= |calls|
    ensures After(init, calls, k).value == init + Ups(calls, k) - Downs(calls, k)
    ensures Blocked(init, calls, k) == Wakes(init, calls, k) + After(init, calls, k).waiting
  {
    ValueCounts(init, calls, k);
    if k > 0 {
      WakesInOrder(init, calls, k - 1);
      var sem := After(init, calls, k - 1);
      var blocked, wakes := Blocked(init, calls, k - 1), Wakes(init, calls, k - 1);
      match calls[k - 1] {
        case DownBy(current) =>
          DownKeepsOrder(sem, blocked, wakes, current);
          assert Wakes(init, calls, k) == wakes;
        case UpByAnyone =>
          UpKeepsOrder(sem, blocked, wakes);
          assert Blocked(init, calls, k) == blocked;
      }
    }
  }

  /** The queue is as long as the value is negative, on every run, exactly when the initial value is not negative. */
  lemma BalancedForever<T>(init: int, calls: seq<Call<T>>)
    ensures (forall k :: 0 <= k <= |calls| ==> Balanced(After(init, calls, k))) <==> init >= 0
  {
    if init >= 0 {
      forall k | 0 <= k <= |calls|
        ensures Balanced(After(init, calls, k))
      {
        BalancedSoFar(init, calls, k);
      }
    } else {
      assert !Balanced(After(init, calls, 0));
    }
  }

  lemma {:induction false} BalancedSoFar<T>(init: int, calls: seq<Call<T>>, k: nat)
    requires init >= 0 && k <= |calls|
    ensures Balanced(After(init, calls, k))
  {
    if k > 0 {
      BalancedSoFar(init, calls, k - 1);
    }
  }

  /** As many `down`s have got through as there were, or as permits allow if that is fewer. */
  lemma PermitsAreKept<T>(init: int, calls: seq<Call<T>>, k: nat)
    requires init >= 0 && k <= |calls|
    ensures var through := Downs(calls, k) - |After(init, calls, k).waiting|;
      through == if Downs(calls, k) <= init + Ups(calls, k) then Downs(calls, k) else init + Ups(calls, k)
  {
    WakesInOrder(init, calls, k);
    BalancedSoFar(init, calls, k);
  }
}
