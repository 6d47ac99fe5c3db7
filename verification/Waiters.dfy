// Who waits on a condition variable and who has been signalled but has not
// yet run again, for the two users of condition_wait in src/pipe.c and
// src/msg_queue.c.
module Waiters {
  import opened Common

  type TaskId = nat

  datatype Waiters = Waiters(queue: seq<TaskId>, signalled: set<TaskId>)

  const NOBODY := Waiters([], {})

  // condition_signal
  function Signal(w: Waiters): Waiters {
    if w.queue == [] then w else Waiters(w.queue[1..], w.signalled + {w.queue[0]})
  }

  // A task runs again, or for the first time; and it waits.
  function Run(w: Waiters, t: TaskId): Waiters {
    w.(signalled := w.signalled - {t})
  }

  function Wait(w: Waiters, t: TaskId): Waiters {
    Waiters(w.queue + [t], w.signalled - {t})
  }

  // Tasks below n, each at one place.
  ghost predicate Sound(w: Waiters, n: nat) {
    && Distinct(w.queue)
    && (forall t | t in w.queue :: t < n && t !in w.signalled)
    && (forall t | t in w.signalled :: t < n)
  }

  lemma SignalSound(w: Waiters, n: nat)
    requires Sound(w, n)
    ensures Sound(Signal(w), n)
    ensures w.queue != [] ==> Signal(w).signalled != {} && |Signal(w).signalled| == |w.signalled| + 1
    ensures w.queue != [] ==> |Signal(w).queue| == |w.queue| - 1
    ensures w.queue == [] ==> Signal(w) == w
    ensures forall t | t !in w.queue :: t !in Signal(w).queue
  {
    if w.queue != [] {
      DropFirst(w.queue);
      assert forall t | t in w.queue[1..] :: t in w.queue;
      assert w.queue[0] in Signal(w).signalled;
    }
  }

  lemma WaitSound(w: Waiters, t: TaskId, n: nat)
    requires Sound(w, n) && t < n && t !in w.queue
    ensures Sound(Wait(w, t), n) && Sound(Run(w, t), n)
    ensures t in w.signalled ==> |Run(w, t).signalled| == |w.signalled| - 1
    ensures t !in w.signalled ==> Run(w, t) == w
  {
  }

  lemma FirstTwo(q: seq<TaskId>)
    requires Distinct(q)
    ensures |q| >= 2 ==> q[0] != q[1]
  {
  }

  // At most one of one task waits.
  lemma Alone(w: Waiters, n: nat)
    requires Sound(w, n) && n <= 1
    ensures |w.queue| <= 1 && (w.queue != [] ==> w.signalled == {})
  {
    assert forall i | 0 <= i < |w.queue| :: w.queue[i] in w.queue && w.queue[i] == 0;
    assert forall t | t in w.signalled :: t == 0 && t !in w.queue;
    FirstTwo(w.queue);
    assert w.queue != [] ==> w.queue[0] == 0 && forall t :: t !in w.signalled;
  }
}
