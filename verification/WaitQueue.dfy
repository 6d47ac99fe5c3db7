// The wait queues of src/mutex.c: tasks chained through next_wait.
module WaitQueue {
  import opened Common
  import opened Tasks
  import opened SyncSpec

  class Task {
    var state: TaskState
    var next_wait: Task?

    constructor ()
      ensures state == Ready && next_wait == null
    {
      state, next_wait := Ready, null;
    }
  }

  ghost function After(q: seq<Task>, i: nat): Task? {
    if i + 1 < |q| then q[i + 1] else null
  }

  // The chain from head is exactly q.
  ghost predicate Chain(q: seq<Task>, head: Task?)
    reads q
  {
    && Distinct(q)
    && head == (if q == [] then null else q[0])
    && forall i {:trigger q[i].next_wait} | 0 <= i < |q| :: q[i].next_wait == After(q, i)
  }

  lemma DistinctAppend<T>(q: seq<T>, t: T)
    requires Distinct(q) && t !in q
    ensures Distinct(q + [t])
  {
  }

  // add_to_wait_queue; queue is the new content of *queue.
  method Add(head: Task?, task: Task, ghost q: seq<Task>) returns (queue: Task?)
    requires Chain(q, head) && task !in q
    modifies task`next_wait, q`next_wait
    ensures Chain(q + [task], queue)
  {
    DistinctAppend(q, task);
    task.next_wait := null;
    if head == null {
      return task;
    }
    queue := head;
    var current: Task := head;
    ghost var i := 0;
    hide Distinct;
    while current.next_wait != null
      invariant 0 <= i < |q| && current == q[i]
      invariant forall j | 0 <= j < |q| :: q[j].next_wait == After(q, j)
      invariant task.next_wait == null
      decreases |q| - i
    {
      current := current.next_wait;
      i := i + 1;
    }
    current.next_wait := task;
    Relinked(q, i, task);
  }

  lemma Relinked(q: seq<Task>, i: nat, task: Task)
    requires i + 1 == |q| && q[i].next_wait == task && task.next_wait == null
    requires forall j | 0 <= j < i :: q[j].next_wait == After(q, j)
    ensures forall j | 0 <= j < |q| + 1 :: (q + [task])[j].next_wait == After(q + [task], j)
  {
  }

  // remove_from_wait_queue
  method Remove(head: Task?, ghost q: seq<Task>) returns (task: Task?, queue: Task?)
    requires Chain(q, head)
    modifies q`next_wait
    ensures task == null <==> q == []
    ensures q == [] ==> queue == null
    ensures q != [] ==> task == q[0] && task.next_wait == null && Chain(q[1..], queue)
  {
    if head == null {
      return null, null;
    }
    task := head;
    queue := task.next_wait;
    assert forall i | 1 <= i < |q| :: q[i] != task;
    task.next_wait := null;
    assert forall i | 1 <= i < |q| :: q[i].next_wait == After(q, i) == After(q[1..], i - 1);
  }

  // A queue of blocked tasks.
  ghost predicate Waiting(q: seq<Task>, head: Task?)
    reads q
  {
    Chain(q, head) && forall i | 0 <= i < |q| :: q[i].state == Blocked
  }

  // What every blocking region does to its caller.
  method Sleep(head: Task?, current: Task, ghost q: seq<Task>) returns (queue: Task?)
    requires Waiting(q, head) && current !in q
    modifies current, q`next_wait
    ensures Waiting(q + [current], queue) && current.state == Blocked
  {
    assert forall i | 0 <= i < |q| :: q[i] != current;
    hide Chain;
    current.state := Blocked;
    queue := Add(head, current, q);
  }

  // What every waking region does to the queue it wakes from.
  method Wake(head: Task?, ghost q: seq<Task>) returns (task: Task?, queue: Task?)
    requires Waiting(q, head)
    modifies q
    ensures q == [] <==> task == null
    ensures q == [] ==> Waiting([], queue)
    ensures q != [] ==> task == q[0] && task.next_wait == null && task.state == Ready && Waiting(q[1..], queue)
  {
    task, queue := Remove(head, q);
    if task != null {
      assert forall i | 0 <= i < |q[1..]| :: q[1..][i] == q[i + 1] != task;
      task.state := Ready;
    }
  }
}
