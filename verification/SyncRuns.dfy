// Whole runs of any number of tasks over one mutex or one semaphore, each
// interrupt-disabled region being one step (src/mutex.c, src/semaphore.c).
module SyncRuns {
  import opened Common
  import opened SyncSpec
  import opened Widths

  type TaskId = nat

  datatype Call = LockCall(t: TaskId) | TryCall(t: TaskId) | UnlockCall(t: TaskId)

  // The mutex with its history: the tasks in the order in which they asked
  // for the lock (a failed try does not count as asking), and in the order
  // in which they got it.
  datatype Run = Run(m: MutexState<TaskId>, asked: seq<TaskId>, granted: seq<TaskId>)

  // A task that waits cannot call anything.
  predicate Enabled(m: MutexState<TaskId>, c: Call) {
    c.t !in m.queue
  }

  function Step(r: Run, c: Call): Run {
    match c
    case LockCall(t) =>
      Run(Lock(r.m, t), r.asked + [t], if r.m.locked then r.granted else r.granted + [t])
    case TryCall(t) =>
      if r.m.locked then r else Run(TryLock(r.m, t), r.asked + [t], r.granted + [t])
    case UnlockCall(t) =>
      if r.m.owner == Some(t) && r.m.queue != [] then Run(Unlock(r.m, t), r.asked, r.granted + [r.m.queue[0]])
      else r.(m := Unlock(r.m, t))
  }

  // After a series of calls, from r.
  function After(r: Run, calls: seq<Call>): Run
    decreases |calls|
  {
    if calls == [] then r else After(Step(r, calls[0]), calls[1..])
  }

  // Every call is made by a task that does not wait.
  ghost predicate Possible(r: Run, calls: seq<Call>)
    decreases |calls|
  {
    calls != [] ==> Enabled(r.m, calls[0]) && Possible(Step(r, calls[0]), calls[1..])
  }

  // A plain lock by the task that owns the mutex already.
  ghost predicate Relock(m: MutexState<TaskId>, c: Call) {
    c.LockCall? && m.owner == Some(c.t)
  }

  ghost predicate Relocks(r: Run, calls: seq<Call>)
    decreases |calls|
  {
    calls != [] && (Relock(r.m, calls[0]) || Relocks(Step(r, calls[0]), calls[1..]))
  }

  const START := Run(NewMutex(), [], [])

  // An unlocked mutex has no owner and no waiters; the waiters are distinct
  // from each other and from the owner; the lock was granted in the order in
  // which it was asked for.
  ghost predicate Orderly(r: Run) {
    && (!r.m.locked ==> r.m.owner == None && r.m.queue == [])
    && (r.m.locked ==> r.m.owner.Some? && r.m.owner.value !in r.m.queue
                       && r.granted != [] && r.granted[|r.granted| - 1] == r.m.owner.value)
    && Distinct(r.m.queue)
    && r.asked == r.granted + r.m.queue
  }

  // The owner waits for itself.
  ghost predicate SelfWaits(m: MutexState<TaskId>) {
    m.locked && m.owner.Some? && m.owner.value in m.queue
  }

  lemma UnlockOrderly(r: Run, t: TaskId)
    requires Orderly(r) && r.m.owner == Some(t) && r.m.queue != []
    ensures Orderly(Step(r, UnlockCall(t)))
  {
    var q := r.m.queue;
    DropFirst(q);
    assert r.granted + ([q[0]] + q[1..]) == (r.granted + [q[0]]) + q[1..];
    hide Distinct;
  }

  // A call keeps order if and only if it is no lock by the owner; such a
  // lock makes the owner wait for itself.
  lemma StepOrderly(r: Run, c: Call)
    requires Orderly(r) && Enabled(r.m, c)
    ensures Orderly(Step(r, c)) <==> !Relock(r.m, c)
    ensures Relock(r.m, c) ==> SelfWaits(Step(r, c).m)
  {
    match c
    case LockCall(t) =>
      assert (r.granted + r.m.queue) + [t] == r.granted + (r.m.queue + [t]);
      assert t in r.m.queue + [t];
    case TryCall(t) =>
    case UnlockCall(t) =>
      if r.m.owner == Some(t) && r.m.queue != [] {
        UnlockOrderly(r, t);
      }
  }

  // The owner's unlock hands the mutex to the longest waiter, or frees it.
  lemma UnlockGives(r: Run, t: TaskId)
    requires Orderly(r) && r.m.owner == Some(t)
    ensures var r' := Step(r, UnlockCall(t));
            && r'.m.locked == (r.m.queue != []) && r'.asked == r.asked
            && if r.m.queue == [] then r'.m.owner == None && r'.m.queue == [] && r'.granted == r.granted
               else r'.m.owner == Some(r.m.queue[0]) && [r.m.queue[0]] + r'.m.queue == r.m.queue
                    && r'.granted == r.granted + [r.m.queue[0]]
  {
  }

  // Once the owner waits for itself, no calls by any tasks free the mutex:
  // nobody is granted it again, and nobody leaves the queue.
  lemma {:induction false} SelfWaitIsForever(r: Run, calls: seq<Call>)
    requires SelfWaits(r.m) && Possible(r, calls)
    ensures var r' := After(r, calls);
            SelfWaits(r'.m) && r'.m.owner == r.m.owner && r'.granted == r.granted && r.m.queue <= r'.m.queue
    decreases |calls|
  {
    if calls != [] {
      SelfWaitIsForever(Step(r, calls[0]), calls[1..]);
    }
  }

  lemma {:induction false} RunsOrderly(r: Run, calls: seq<Call>)
    requires Orderly(r) && Possible(r, calls)
    ensures Orderly(After(r, calls)) <==> !Relocks(r, calls)
    decreases |calls|
  {
    if calls != [] {
      StepOrderly(r, calls[0]);
      if Relock(r.m, calls[0]) {
        SelfWaitIsForever(Step(r, calls[0]), calls[1..]);
      } else {
        RunsOrderly(Step(r, calls[0]), calls[1..]);
      }
    }
  }

  // Over every run of any number of tasks: order holds if and only if no
  // owner ever locked its mutex again.
  lemma MutexRunsOrderly(calls: seq<Call>)
    requires Possible(START, calls)
    ensures Orderly(After(START, calls)) <==> !Relocks(START, calls)
  {
    RunsOrderly(START, calls);
  }

  // ---------- recursive mutex ----------

  // How many locks each task has taken and not yet given back.
  type Depths = map<TaskId, nat>

  function DepthOf(d: Depths, t: TaskId): nat {
    if t in d then d[t] else 0
  }

  // Also the order of asking, where nested locks do not count, and granting.
  datatype RecRun = RecRun(m: MutexState<TaskId>, depths: Depths, asked: seq<TaskId>, granted: seq<TaskId>)

  function Deeper(d: Depths, t: TaskId): Depths {
    d[t := DepthOf(d, t) + 1]
  }

  function Shallower(d: Depths, t: TaskId): Depths {
    d[t := if DepthOf(d, t) == 0 then 0 else DepthOf(d, t) - 1]
  }

  function RecLock(r: RecRun, t: TaskId): RecRun {
    var m' := RecursiveLock(r.m, t);
    if r.m.owner == Some(t) then r.(m := m', depths := Deeper(r.depths, t))
    else if r.m.locked then r.(m := m', asked := r.asked + [t])
    else RecRun(m', Deeper(r.depths, t), r.asked + [t], r.granted + [t])
  }

  // When ownership changes, the lock call of the new owner returns.
  function RecUnlock(r: RecRun, t: TaskId): RecRun {
    var m' := RecursiveUnlock(r.m, t);
    if r.m.owner != Some(t) then r
    else
      var d' := Shallower(r.depths, t);
      if m'.queue != r.m.queue then
        RecRun(m', if m'.owner.Some? then Deeper(d', m'.owner.value) else d', r.asked,
               if m'.owner.Some? then r.granted + [m'.owner.value] else r.granted)
      else r.(m := m', depths := d')
  }

  function RecStep(r: RecRun, c: Call): RecRun
    requires !c.TryCall?
  {
    if c.LockCall? then RecLock(r, c.t) else RecUnlock(r, c.t)
  }

  ghost predicate RecEnabled(m: MutexState<TaskId>, c: Call) {
    c.t !in m.queue && !c.TryCall?
  }

  ghost predicate RecPossible(r: RecRun, calls: seq<Call>)
    decreases |calls|
  {
    calls != [] ==> RecEnabled(r.m, calls[0]) && RecPossible(RecStep(r, calls[0]), calls[1..])
  }

  // What holds after every run, however deep locks are nested.
  ghost predicate RecOrderly(r: RecRun) {
    && (if r.m.locked then r.m.owner.Some? else r.m.owner == None && r.m.queue == [])
    && (r.m.owner.Some? ==> r.m.owner.value !in r.m.queue
                            && r.granted != [] && r.granted[|r.granted| - 1] == r.m.owner.value)
    && Distinct(r.m.queue) && r.asked == r.granted + r.m.queue && r.m.count < W32
  }

  // The 32-bit counter is the owner's number of unmatched locks, and nobody
  // else has any.
  ghost predicate Counted(r: RecRun) {
    && (r.m.owner.Some? ==> r.m.count == DepthOf(r.depths, r.m.owner.value) > 0)
    && forall t | t in r.depths && r.m.owner != Some(t) :: r.depths[t] == 0
  }

  // A lock nested when the counter holds its largest value.
  ghost predicate TooDeep(m: MutexState<TaskId>, c: Call) {
    c.LockCall? && m.owner == Some(c.t) && m.count + 1 == W32
  }

  lemma RecStepOrderly(r: RecRun, c: Call)
    requires RecOrderly(r) && RecEnabled(r.m, c)
    ensures RecOrderly(RecStep(r, c))
  {
    if c.LockCall? {
      assert (r.granted + r.m.queue) + [c.t] == r.granted + (r.m.queue + [c.t]);
    } else if r.m.queue != [] {
      var q := r.m.queue;
      DropFirst(q);
      assert r.granted + ([q[0]] + q[1..]) == (r.granted + [q[0]]) + q[1..];
    }
  }

  // Every call keeps the count right, except one nested too deep.
  lemma RecStepCounted(r: RecRun, c: Call)
    requires RecOrderly(r) && Counted(r) && RecEnabled(r.m, c)
    ensures Counted(RecStep(r, c)) <==> !TooDeep(r.m, c)
  {
    if TooDeep(r.m, c) {
      assert RecStep(r, c).m.count == 0;
    } else if r.m.queue != [] {
      DropFirst(r.m.queue);
    }
  }

  // Order, and the right count, in every state a run passes through.
  ghost predicate AlwaysOrderly(r: RecRun, calls: seq<Call>)
    requires RecPossible(r, calls)
    decreases |calls|
  {
    RecOrderly(r) && (calls != [] ==> AlwaysOrderly(RecStep(r, calls[0]), calls[1..]))
  }

  ghost predicate AlwaysCounted(r: RecRun, calls: seq<Call>)
    requires RecPossible(r, calls)
    decreases |calls|
  {
    Counted(r) && (calls != [] ==> AlwaysCounted(RecStep(r, calls[0]), calls[1..]))
  }

  // No task ever holds 2^32 unmatched locks.
  ghost predicate NeverTooDeep(r: RecRun, calls: seq<Call>)
    requires RecPossible(r, calls)
    decreases |calls|
  {
    && (forall t | t in r.depths :: r.depths[t] < W32)
    && (calls != [] ==> NeverTooDeep(RecStep(r, calls[0]), calls[1..]))
  }

  lemma {:induction false} RecRunsFrom(r: RecRun, calls: seq<Call>)
    requires RecOrderly(r) && RecPossible(r, calls)
    ensures AlwaysOrderly(r, calls)
    ensures Counted(r) ==> (AlwaysCounted(r, calls) <==> NeverTooDeep(r, calls))
    decreases |calls|
  {
    if calls != [] {
      var r' := RecStep(r, calls[0]);
      RecStepOrderly(r, calls[0]);
      RecRunsFrom(r', calls[1..]);
      if Counted(r) {
        RecStepCounted(r, calls[0]);
        if TooDeep(r.m, calls[0]) {
          assert r'.depths[calls[0].t] == W32;
        }
      }
      hide RecOrderly;
    }
  }

  const REC_START := RecRun(NewMutex(), map[], [], [])

  // Over every run of a recursive mutex: first come, first served; and the
  // counter is right at every moment if and only if nobody ever nests 2^32
  // locks.
  lemma RecursiveRuns(calls: seq<Call>)
    requires RecPossible(REC_START, calls)
    ensures AlwaysOrderly(REC_START, calls)
    ensures AlwaysCounted(REC_START, calls) <==> NeverTooDeep(REC_START, calls)
  {
    RecRunsFrom(REC_START, calls);
  }

  // Only the last unlock gives the mutex away.
  lemma OnlyLastUnlockReleases(r: RecRun, t: TaskId)
    requires RecOrderly(r) && Counted(r) && r.m.owner == Some(t)
    ensures RecursiveUnlock(r.m, t).owner != Some(t) <==> DepthOf(r.depths, t) == 1
  {
  }

  // ---------- semaphore ----------

  datatype SemCall = WaitCall(t: TaskId) | TryWaitCall(t: TaskId) | PostCall(t: TaskId)

  datatype SemRun = SemRun(s: SemState<TaskId>, posts: nat, granted: seq<TaskId>, waited: seq<TaskId>)

  function SemStep(r: SemRun, c: SemCall): SemRun {
    match c
    case WaitCall(t) =>
      SemRun(SemWait(r.s, t), r.posts, if r.s.count > 0 then r.granted + [t] else r.granted, r.waited + [t])
    case TryWaitCall(t) =>
      if r.s.count > 0 then SemRun(SemTryWait(r.s), r.posts, r.granted + [t], r.waited + [t]) else r
    case PostCall(_) =>
      SemRun(SemPost(r.s), r.posts + 1, if r.s.queue != [] then r.granted + [r.s.queue[0]] else r.granted, r.waited)
  }

  function SemAfter(initial: int, calls: seq<SemCall>): SemRun {
    if calls == [] then SemRun(SemState(initial, []), 0, [], [])
    else SemStep(SemAfter(initial, calls[..|calls| - 1]), calls[|calls| - 1])
  }

  // What was put in and not granted.
  function Net(initial: int, calls: seq<SemCall>): int {
    var r := SemAfter(initial, calls);
    initial + r.posts - |r.granted|
  }

  // At no moment was more put in and not granted than the counter can hold.
  ghost predicate NeverOverflows(initial: int, calls: seq<SemCall>) {
    Net(initial, calls) <= MAX_INT && (calls != [] ==> NeverOverflows(initial, calls[..|calls| - 1]))
  }

  lemma SemQueue(p: SemRun, c: SemCall)
    requires p.waited == p.granted + p.s.queue && (p.s.count > 0 ==> p.s.queue == [])
    ensures var r := SemStep(p, c); r.waited == r.granted + r.s.queue && (r.s.count > 0 ==> r.s.queue == [])
  {
    if c.PostCall? && p.s.queue != [] {
      assert p.s.queue == [p.s.queue[0]] + p.s.queue[1..];
    }
  }

  // Over every run: a positive count means nobody waits, waits are granted
  // in order, and the count is what was put in minus what was granted if and
  // only if that never exceeded 2^31 - 1; each time it does the count falls
  // 2^32 behind.
  lemma {:induction false} SemaphoreConserves(initial: int, calls: seq<SemCall>)
    requires -MAX_INT - 1 <= initial <= MAX_INT
    ensures var r := SemAfter(initial, calls);
            && (r.s.count > 0 ==> r.s.queue == []) && r.waited == r.granted + r.s.queue
            && -MAX_INT - 1 <= r.s.count <= MAX_INT
            && r.s.count <= Net(initial, calls) && (Net(initial, calls) - r.s.count) % W32 == 0
            && (r.s.count == Net(initial, calls) <==> NeverOverflows(initial, calls))
            && (initial >= 0 && NeverOverflows(initial, calls) ==> r.s.count >= 0)
  {
    if calls != [] {
      var before, c := calls[..|calls| - 1], calls[|calls| - 1];
      SemaphoreConserves(initial, before);
      var p := SemAfter(initial, before);
      SemQueue(p, c);
    }
  }
}
