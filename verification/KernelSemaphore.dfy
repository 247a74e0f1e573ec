/** The semaphore system calls on the kernel's own structures: a linked queue of waiting tasks, spliced in place. */
module KernelSemaphore {
  import opened Semaphore

  datatype TaskState = Running | Interruptible

  class Task {
    var state: TaskState

    constructor ()
      ensures state == Running
    {
      state := Running;
    }
  }

  class QueueNode {
    var task: Task
    var next: QueueNode?

    constructor (task: Task)
      ensures this.task == task && next == null
    {
      this.task, next := task, null;
    }
  }

  class SemaphoreStruct {
    var value: int
    var queueHead: QueueNode?
    var queueTail: QueueNode?
    /** The queued nodes from head to tail. */
    ghost var nodes: seq<QueueNode>

    ghost predicate Valid()
      reads this, nodes
    {
      && (nodes == [] ==> queueHead == null && queueTail == null)
      && (nodes != [] ==> queueHead == nodes[0] && queueTail == nodes[|nodes| - 1] && queueTail.next == null)
      && (forall i :: 0 <= i < |nodes| - 1 ==> nodes[i].next == nodes[i + 1])
      && forall i, j :: 0 <= i < j < |nodes| ==> nodes[i] != nodes[j]
    }

    /** The semaphore this structure stands for. */
    ghost function Contents(): Sem<Task>
      reads this, nodes
    {
      Sem(value, seq(|nodes|, i requires 0 <= i < |nodes| reads this, nodes => nodes[i].task))
    }

    /** `cs1550_seminit`. */
    constructor (value: int)
      ensures Valid() && Contents() == Sem(value, [])
    {
      this.value := value;
      queueHead, queueTail, nodes := null, null, [];
    }

    /** `cs1550_down` up to the unlock; the caller goes on to `schedule` if it was queued. */
    method DownLocked(current: Task) returns (mustSchedule: bool)
      requires Valid()
      modifies this, queueTail, current
      ensures Valid() && Contents() == Down(old(Contents()), current)
      ensures mustSchedule <==> old(value) <= 0
      ensures mustSchedule ==> current.state == Interruptible
      ensures !mustSchedule ==> current.state == old(current.state)
    {
      value := value - 1;
      mustSchedule := value < 0;
      if value < 0 {
        var newNode := new QueueNode(current);
        if queueHead == null {
          queueHead := newNode;
        } else {
          queueTail.next := newNode;
        }
        queueTail := newNode;
        nodes := nodes + [newNode];
        current.state := Interruptible;
      }
      assert Contents().waiting == Down(old(Contents()), current).waiting;
    }

    /** `cs1550_up`: whoever was queued longest, if anybody, is taken off the queue and made runnable. */
    method UpLocked() returns (woken: Task?)
      requires Valid()
      modifies this, if queueHead == null then {} else {queueHead.task}
      ensures Valid() && Contents() == Up(old(Contents()))
      ensures match Woken(old(Contents()))
              case None => woken == null
              case Some(task) => woken == task && task.state == Running
    {
      value := value + 1;
      woken := null;
      if value <= 0 {
        if queueHead != null {
          var nodeToWake := queueHead;
          queueHead := queueHead.next;
          if queueHead == null {
            queueTail := null;
          }
          nodes := nodes[1..];
          woken := nodeToWake.task;
          woken.state := Running;
        }
      }
      assert Contents().waiting == Up(old(Contents())).waiting;
    }
  }
}
