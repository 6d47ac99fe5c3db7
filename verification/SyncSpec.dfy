// What each interrupt-disabled region of src/mutex.c, src/condition.c and
// src/semaphore.c does, as functions over any type of task.
module SyncSpec {
  import opened Common
  import opened Widths

  // mutex_t; count is the 32-bit recursive_count.
  datatype MutexState<T> = MutexState(locked: bool, owner: Option<T>, queue: seq<T>, count: nat)

  // Unsigned 32-bit arithmetic.
  function Inc32(n: nat): nat {
    if n + 1 == W32 then 0 else n + 1
  }

  function Dec32(n: nat): nat {
    if n == 0 then W32 - 1 else n - 1
  }

  function NewMutex<T>(): MutexState<T> {
    MutexState(false, None, [], 0)
  }

  // mutex_lock: blocked says that the caller now waits.
  function Lock<T>(m: MutexState<T>, t: T): MutexState<T> {
    if !m.locked then m.(locked := true, owner := Some(t)) else m.(queue := m.queue + [t])
  }

  function TryLock<T>(m: MutexState<T>, t: T): MutexState<T> {
    if !m.locked then m.(locked := true, owner := Some(t)) else m
  }

  // mutex_unlock: ownership goes to the longest waiter.
  function Unlock<T(==)>(m: MutexState<T>, t: T): MutexState<T> {
    if m.owner != Some(t) then m
    else if m.queue != [] then m.(owner := Some(m.queue[0]), queue := m.queue[1..])
    else m.(locked := false, owner := None)
  }

  function RecursiveLock<T(==)>(m: MutexState<T>, t: T): MutexState<T> {
    if m.owner == Some(t) then m.(count := Inc32(m.count))
    else if !m.locked then m.(locked := true, owner := Some(t), count := 1)
    else m.(queue := m.queue + [t])
  }

  function RecursiveUnlock<T(==)>(m: MutexState<T>, t: T): MutexState<T> {
    if m.owner != Some(t) then m
    else
      var count := Dec32(m.count);
      if count > 0 then m.(count := count)
      else if m.queue != [] then m.(owner := Some(m.queue[0]), queue := m.queue[1..], count := 1)
      else m.(locked := false, owner := None, count := 0)
  }

  // condition_signal and the queue side of semaphore_post.
  function Signal<T>(queue: seq<T>): seq<T> {
    if queue == [] then [] else queue[1..]
  }

  // semaphore_t; count is a signed 32-bit integer.
  datatype SemState<T> = SemState(count: int, queue: seq<T>)

  // Signed 32-bit arithmetic.
  function IncSigned(n: int): int {
    if n == MAX_INT then -MAX_INT - 1 else n + 1
  }

  function DecSigned(n: int): int {
    if n == -MAX_INT - 1 then MAX_INT else n - 1
  }

  function SemWait<T>(s: SemState<T>, t: T): SemState<T> {
    if s.count > 0 then s.(count := s.count - 1) else s.(queue := s.queue + [t])
  }

  function SemTryWait<T>(s: SemState<T>): SemState<T> {
    if s.count > 0 then s.(count := s.count - 1) else s
  }

  function SemPost<T>(s: SemState<T>): SemState<T> {
    if s.queue != [] then s.(queue := s.queue[1..]) else s.(count := IncSigned(s.count))
  }
}
