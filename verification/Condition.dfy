// condition_t (src/condition.c).
module Conditions {
  import opened Common
  import opened Tasks
  import opened SyncSpec
  import opened Widths
  import opened WaitQueue
  import opened Mutexes

  lemma WaitingFacts(q: seq<Task>, head: Task?)
    requires Waiting(q, head)
    ensures (head == null <==> q == []) && Distinct(q)
  {
  }

  class Condition {
    var waiting_tasks: Task?
    ghost var queue: seq<Task>

    ghost predicate Valid()
      reads this, queue
    {
      Waiting(queue, waiting_tasks)
    }

    // condition_init
    constructor ()
      ensures Valid() && queue == []
    {
      waiting_tasks, queue := null, [];
    }

    method Enqueue(current: Task)
      requires Valid() && current !in queue
      modifies this, current, queue
      ensures Valid() && queue == old(queue) + [current] && current.state == Blocked
    {
      hide Waiting;
      waiting_tasks := Sleep(waiting_tasks, current, queue);
      queue := queue + [current];
    }

    // The interrupt-disabled region of condition_wait: the caller joins the
    // queue and gives up the mutex in one atomic step.
    method Wait(mutex: Mutex, current: Task)
      requires Valid() && mutex.Valid()
      requires current !in queue && current !in mutex.queue
      requires forall t | t in mutex.queue :: t !in queue
      modifies this, mutex, current, queue, mutex.queue
      ensures Valid() && mutex.Valid()
      ensures queue == old(queue) + [current] && current.state == Blocked
      ensures mutex.State() == SyncSpec.Unlock(old(mutex.State()), current)
    {
      hide Chain;
      ghost var others := mutex.queue;
      Enqueue(current);
      assert mutex.queue == others && mutex.waiting_tasks == old(mutex.waiting_tasks) && mutex.locked < W32 && mutex.recursive_count < W32;
      assert forall i | 0 <= i < |others| :: others[i] in others && others[i].state == old(others[i].state);
      assert forall i | 0 <= i < |others| :: others[i].next_wait == old(others[i].next_wait);
      assert Waiting(others, mutex.waiting_tasks);
      assert mutex.Valid();
      assert forall t | t in queue :: t !in others;
      mutex.Unlock(current);
    }

    // condition_signal
    method Signal() returns (ghost woken: Option<Task>)
      requires Valid()
      modifies this, queue
      ensures Valid() && queue == SyncSpec.Signal(old(queue))
      ensures woken == if old(queue) == [] then None else Some(old(queue)[0])
      ensures woken.Some? ==> woken.value.state == Ready && woken.value.next_wait == null
    {
      woken := if queue == [] then None else Some(queue[0]);
      hide Waiting;
      var waiting;
      waiting, waiting_tasks := Wake(waiting_tasks, queue);
      queue := SyncSpec.Signal(queue);
    }

    // condition_broadcast
    method Broadcast()
      requires Valid()
      modifies this, queue
      ensures Valid() && queue == []
      ensures forall t | t in old(queue) :: t.state == Ready && t.next_wait == null
    {
      ghost var was := queue;
      ghost var n: nat := 0;
      WaitingFacts(queue, waiting_tasks);
      hide Waiting, Distinct;
      while waiting_tasks != null
        invariant Valid() && n <= |was| && queue == was[n..] && (waiting_tasks == null <==> queue == [])
        invariant forall i | 0 <= i < n :: was[i].state == Ready && was[i].next_wait == null
        decreases |was| - n
      {
        Suffix(was, n);
        ghost var woken := Signal();
        WaitingFacts(queue, waiting_tasks);
        n := n + 1;
      }
    }
  }

  lemma Suffix(q: seq<Task>, n: nat)
    requires Distinct(q) && n < |q|
    ensures q[n..][0] == q[n] && q[n..][1..] == q[n + 1..]
    ensures forall i | 0 <= i < n :: q[i] !in q[n..]
    ensures forall t | t in q[n..] :: t in q
  {
  }
}
