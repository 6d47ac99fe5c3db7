// semaphore_t (src/semaphore.c).
module Semaphores {
  import opened Common
  import opened Tasks
  import opened SyncSpec
  import opened Widths
  import opened WaitQueue

  class Semaphore {
    var count: int
    var waiting_tasks: Task?
    ghost var queue: seq<Task>

    ghost predicate Valid()
      reads this, queue
    {
      -MAX_INT - 1 <= count <= MAX_INT && Waiting(queue, waiting_tasks)
    }

    ghost function State(): SemState<Task>
      reads this
    {
      SemState(count, queue)
    }

    // semaphore_init
    constructor (initial: int)
      requires -MAX_INT - 1 <= initial <= MAX_INT
      ensures Valid() && State() == SemState(initial, [])
    {
      count, waiting_tasks, queue := initial, null, [];
    }

    method Wait(current: Task)
      requires Valid() && current !in queue
      modifies this, current, queue`next_wait
      ensures Valid() && State() == SemWait(old(State()), current)
      ensures current.state == if old(count) > 0 then old(current.state) else Blocked
    {
      if count > 0 {
        count := count - 1;
        return;
      }
      hide Waiting;
      waiting_tasks := Sleep(waiting_tasks, current, queue);
      queue := queue + [current];
    }

    method TryWait() returns (taken: bool)
      requires Valid()
      modifies this`count
      ensures Valid() && State() == SemTryWait(old(State()))
      ensures taken <==> old(count) > 0
    {
      if count > 0 {
        count := count - 1;
        return true;
      }
      taken := false;
    }

    method Post()
      requires Valid()
      modifies this, queue
      ensures Valid() && State() == SemPost(old(State()))
      ensures old(queue) != [] ==> old(queue)[0].state == Ready && old(queue)[0].next_wait == null
    {
      hide Waiting;
      var waiting;
      waiting, waiting_tasks := Wake(waiting_tasks, queue);
      queue := Signal(queue);
      if waiting == null {
        count := IncSigned(count);
      }
    }
  }
}
