// mutex_t and its plain and recursive operations (src/mutex.c).  Each method
// is one interrupt-disabled region; task_yield, which follows a blocking
// region, belongs to the scheduler.
module Mutexes {
  import opened Common
  import opened Tasks
  import opened SyncSpec
  import opened Widths
  import opened WaitQueue

  ghost function Known(t: Task?): Option<Task> {
    if t == null then None else var known: Task := t; Some(known)
  }

  class Mutex {
    var locked: nat
    var owner: Task?
    var waiting_tasks: Task?
    var recursive_count: nat
    ghost var queue: seq<Task>

    ghost predicate Valid()
      reads this, queue
    {
      && locked < W32 && recursive_count < W32
      && Waiting(queue, waiting_tasks)
    }

    ghost function State(): MutexState<Task>
      reads this
    {
      MutexState(locked != 0, Known(owner), queue, recursive_count)
    }

    // mutex_init and recursive_mutex_init
    constructor ()
      ensures Valid() && State() == NewMutex()
    {
      locked, owner, waiting_tasks, recursive_count := 0, null, null, 0;
      queue := [];
    }

    // The common blocking tail of both lock functions.
    method Block(current: Task)
      requires Valid() && current !in queue
      modifies this, current, queue`next_wait
      ensures Valid() && current.state == Blocked
      ensures State() == old(State()).(queue := old(queue) + [current])
    {
      hide Waiting;
      waiting_tasks := Sleep(waiting_tasks, current, queue);
      queue := queue + [current];
    }

    method Lock(current: Task)
      requires Valid() && current !in queue
      modifies this, current, queue`next_wait
      ensures Valid() && State() == SyncSpec.Lock(old(State()), current)
      ensures current.state == if old(locked) == 0 then old(current.state) else Blocked
    {
      if locked == 0 {
        locked, owner := 1, current;
        return;
      }
      Block(current);
    }

    method TryLock(current: Task) returns (taken: bool)
      requires Valid() && current !in queue
      modifies this
      ensures Valid() && State() == SyncSpec.TryLock(old(State()), current)
      ensures taken <==> old(locked) == 0
    {
      if locked == 0 {
        locked, owner := 1, current;
        return true;
      }
      taken := false;
    }

    // Gives the lock to the first waiter, if there is one.
    method HandOver() returns (woken: Task?)
      requires Valid()
      modifies this`owner, this`waiting_tasks, this`queue, queue
      ensures Valid() && (woken == null <==> old(queue) == [])
      ensures woken != null ==> woken == old(queue)[0] && woken.state == Ready && woken.next_wait == null
      ensures woken != null ==> owner == woken && queue == old(queue)[1..]
      ensures woken == null ==> owner == old(owner) && queue == []
    {
      hide Waiting;
      woken, waiting_tasks := Wake(waiting_tasks, queue);
      queue := SyncSpec.Signal(queue);
      if woken != null {
        owner := woken;
      }
    }

    method Unlock(current: Task)
      requires Valid() && current !in queue
      modifies this, queue
      ensures Valid() && State() == SyncSpec.Unlock(old(State()), current)
      ensures old(State()).owner == Some(current) && old(queue) != [] ==> old(queue)[0].state == Ready
    {
      if owner != current {
        return;
      }
      var waiting := HandOver();
      if waiting == null {
        locked, owner := 0, null;
      }
    }

    method RecursiveLock(current: Task)
      requires Valid() && current !in queue
      modifies this, current, queue`next_wait
      ensures Valid() && State() == SyncSpec.RecursiveLock(old(State()), current)
      ensures current.state == if old(owner) == current || old(locked) == 0 then old(current.state) else Blocked
    {
      if owner == current {
        recursive_count := Inc32(recursive_count);
        return;
      }
      if locked == 0 {
        locked, owner, recursive_count := 1, current, 1;
        return;
      }
      Block(current);
    }

    method RecursiveUnlock(current: Task)
      requires Valid() && current !in queue
      modifies this, queue
      ensures Valid() && State() == SyncSpec.RecursiveUnlock(old(State()), current)
      ensures old(owner) == current && Dec32(old(recursive_count)) == 0 && old(queue) != [] ==>
                old(queue)[0].state == Ready && old(queue)[0].next_wait == null
    {
      if owner != current {
        return;
      }
      recursive_count := Dec32(recursive_count);
      if recursive_count > 0 {
        return;
      }
      var waiting := HandOver();
      if waiting != null {
        recursive_count := 1;
      } else {
        locked, owner, recursive_count := 0, null, 0;
      }
    }
  }
}
