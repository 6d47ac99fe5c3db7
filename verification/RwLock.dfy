// The reader/writer lock (src/rwlock.c, lines 1-117) as a transition system
// over any number of tasks.  A step is one interrupt-disabled region of the
// mutex and condition operations it calls, or one access to the lock's own
// fields.
module RwLock {
  import opened Common
  import opened SyncSpec
  import opened Widths

  type TaskId = nat

  // Where a task is.  The letters R and W say read or write, U unlock.
  datatype Pc =
    | Idle                                   // in no call
    | RTest | RWait | RRelock | RInc | RExit // rwlock_read_lock
    | RTryTest | WTryTest | TryFail          // the two trylocks
    | RUDec | RUSignal | RUExit              // rwlock_read_unlock
    | WTest | WWait | WRelock | WSet | WExit // rwlock_write_lock
    | WUTest | WUSignal | WUBroadcast | WUExit // rwlock_write_unlock

  // rwlock_t and the tasks; readers and writers are the queues of the two
  // condition variables.  The rest is history: who holds the lock for
  // reading, as often as it does, and for writing, how often a task gave back
  // a read lock it did not hold, and whether the counter, a signed 32-bit
  // integer, ever wrapped.
  datatype Rw = Rw(m: MutexState<TaskId>, readers: seq<TaskId>, writers: seq<TaskId>,
                   count: int, active: bool, owner: Option<TaskId>, pc: map<TaskId, Pc>,
                   reading: multiset<TaskId>, writing: set<TaskId>, misused: nat, wrapped: bool)

  datatype Action = ReadLock | ReadTry | ReadUnlock | WriteLock | WriteTry | WriteUnlock | Go

  ghost predicate Waits(s: Rw, t: TaskId) {
    t in s.m.queue || t in s.readers || t in s.writers
  }

  // Only a task that does not wait takes a step; in no call it may make any,
  // whatever it holds.
  ghost predicate Can(s: Rw, t: TaskId, a: Action) {
    t in s.pc && !Waits(s, t) && (a.Go? <==> !s.pc[t].Idle?)
  }

  // mutex_lock(&rwlock->mutex); next is where the task goes on once it owns
  // the mutex.
  ghost function Acquire(s: Rw, t: TaskId, next: Pc): (r: Rw)
    ensures r.pc == s.pc[t := next]
  {
    s.(m := Lock(s.m, t), pc := s.pc[t := next])
  }

  ghost function Release(s: Rw, t: TaskId, next: Pc): (r: Rw)
    ensures r.pc == s.pc[t := next]
  {
    s.(m := Unlock(s.m, t), pc := s.pc[t := next])
  }

  ghost function At(s: Rw, t: TaskId, next: Pc): (r: Rw)
    ensures r.pc == s.pc[t := next]
  {
    s.(pc := s.pc[t := next])
  }

  ghost function Try(s: Rw, t: TaskId, next: Pc): Rw {
    if s.m.locked then s else s.(m := TryLock(s.m, t), pc := s.pc[t := next])
  }

  ghost function Get(s: Rw, t: TaskId): Rw {
    s.(count := IncSigned(s.count), reading := s.reading + multiset{t}, wrapped := s.wrapped || s.count == MAX_INT)
  }

  // readers_count goes down for whoever asks.
  ghost function GiveBack(s: Rw, t: TaskId): Rw {
    s.(count := DecSigned(s.count), reading := s.reading - multiset{t},
       misused := if t in s.reading then s.misused else s.misused + 1,
       wrapped := s.wrapped || s.count == -MAX_INT - 1)
  }

  ghost function Step(s: Rw, t: TaskId, a: Action): Rw
    requires Can(s, t, a)
  {
    match a
    case ReadLock => Acquire(s, t, RTest)
    case ReadTry => Try(s, t, RTryTest)
    case ReadUnlock => Acquire(s, t, RUDec)
    case WriteLock => Acquire(s, t, WTest)
    case WriteTry => Try(s, t, WTryTest)
    case WriteUnlock => Acquire(s, t, WUTest)
    case Go =>
      match s.pc[t]
      case RTest => At(s, t, if s.active then RWait else RInc)
      case RWait => Release(s.(readers := s.readers + [t]), t, RRelock)
      case RRelock => Acquire(s, t, RTest)
      case RInc => At(Get(s, t), t, RExit)
      case RExit => Release(s, t, Idle)
      case RTryTest => At(s, t, if s.active then TryFail else RInc)
      case WTryTest => At(s, t, if s.count > 0 || s.active then TryFail else WSet)
      case TryFail => Release(s, t, Idle)
      case RUDec => At(GiveBack(s, t), t, if DecSigned(s.count) == 0 then RUSignal else RUExit)
      case RUSignal => At(s.(writers := Signal(s.writers)), t, RUExit)
      case RUExit => Release(s, t, Idle)
      case WTest => At(s, t, if s.count > 0 || s.active then WWait else WSet)
      case WWait => Release(s.(writers := s.writers + [t]), t, WRelock)
      case WRelock => Acquire(s, t, WTest)
      case WSet => At(s.(active := true, owner := Some(t), writing := s.writing + {t}), t, WExit)
      case WExit => Release(s, t, Idle)
      case WUTest =>
        if s.owner == Some(t) then At(s.(active := false, owner := None, writing := s.writing - {t}), t, WUSignal)
        else At(s, t, WUExit)
      case WUSignal => At(s.(writers := Signal(s.writers)), t, WUBroadcast)
      case WUBroadcast => At(s.(readers := []), t, WUExit)
      case WUExit => Release(s, t, Idle)
      case Idle => s
  }

  ghost predicate Initial(s: Rw) {
    && s.m == NewMutex() && s.readers == [] && s.writers == []
    && s.count == 0 && !s.active && s.owner == None
    && s.reading == multiset{} && s.writing == {} && s.misused == 0 && !s.wrapped
    && forall t | t in s.pc :: s.pc[t].Idle?
  }

  // The states that runs of n steps lead to, with any number of tasks.
  ghost predicate Reaches(n: nat, s: Rw) {
    if n == 0 then Initial(s)
    else exists p, t, a :: Reaches(n - 1, p) && Can(p, t, a) && s == Step(p, t, a)
  }

  // ---------- the mutex around the fields ----------

  // Between mutex_lock and mutex_unlock.
  predicate Inside(p: Pc) {
    !p.Idle? && !p.RRelock? && !p.WRelock?
  }

  ghost predicate MutexInv(s: Rw) {
    && (if s.m.locked then s.m.owner.Some? else s.m.owner == None && s.m.queue == [])
    && (s.m.owner.Some? ==> s.m.owner.value in s.pc && Inside(s.pc[s.m.owner.value]) && s.m.owner.value !in s.m.queue)
    && (forall t | t in s.pc && Inside(s.pc[t]) :: s.m.owner == Some(t) || t in s.m.queue)
    && (forall t | t in s.m.queue :: t in s.pc && (s.pc[t].RTest? || s.pc[t].RUDec? || s.pc[t].WTest? || s.pc[t].WUTest?))
    && Distinct(s.m.queue)
    && (forall t | t in s.readers :: t in s.pc && s.pc[t].RRelock?)
    && (forall t | t in s.writers :: t in s.pc && s.pc[t].WRelock?)
    && Distinct(s.readers) && Distinct(s.writers)
  }

  // ---------- who holds the lock ----------

  // What a task at p has learnt about the fields while it owned the mutex.
  predicate Knows(p: Pc, active: bool, count: int) {
    match p
    case RInc => !active
    case RWait => active
    case WSet => !active && count <= 0
    case WWait => active || count > 0
    case RUSignal => count == 0
    case WUSignal => !active
    case WUBroadcast => !active
    case _ => true
  }

  // Unless it has wrapped, the counter is the number of read locks held, less
  // those given back by tasks that did not hold one; writer_owner is the one task that holds the
  // lock for writing.
  ghost predicate HolderInv(s: Rw) {
    && -MAX_INT - 1 <= s.count <= MAX_INT
    && (!s.wrapped ==> s.count == |s.reading| - s.misused && (s.active ==> s.count <= 0))
    && (s.active <==> s.owner.Some?)
    && s.writing == (if s.owner.Some? then {s.owner.value} else {})
    // what the tasks inside know
    && (forall t | t in s.pc :: Knows(s.pc[t], s.active, s.count))
  }

  // ---------- no wakeup is lost ----------

  // t will wake every waiting reader.
  ghost predicate WillBroadcast(s: Rw, t: TaskId) {
    t in s.pc && (s.pc[t].WUSignal? || s.pc[t].WUBroadcast?)
  }

  // t will wake a waiting writer, or is a writer that will look again.
  ghost predicate WillServe(s: Rw, t: TaskId) {
    && t in s.pc
    && (s.pc[t].RUSignal? || s.pc[t].WUSignal? || s.pc[t].WSet? || s.pc[t].WTest?
        || (s.pc[t].WRelock? && t !in s.writers))
  }

  ghost predicate ReadersServed(s: Rw) {
    s.readers != [] ==> s.active || exists t :: WillBroadcast(s, t)
  }

  ghost predicate WritersServed(s: Rw) {
    s.writers != [] ==> s.wrapped || s.active || s.count > 0 || exists t :: WillServe(s, t)
  }

  // ---------- every step keeps the invariants ----------

  // A task that runs inside is the mutex's owner; all others inside wait for
  // the mutex.
  lemma Sole(s: Rw, u: TaskId)
    requires MutexInv(s) && u in s.pc && !Waits(s, u) && Inside(s.pc[u])
    ensures s.m.locked && s.m.owner == Some(u)
    ensures forall t | t in s.pc && t != u && Inside(s.pc[t]) :: t in s.m.queue
  {
  }

  lemma SignalTail<T>(q: seq<T>)
    requires Distinct(q)
    ensures Distinct(Signal(q)) && (q != [] ==> q[0] !in Signal(q))
    ensures forall t | t in Signal(q) :: t in q
    ensures forall t | t in q && t !in Signal(q) :: t == q[0]
  {
    if q != [] {
      assert forall i | 0 <= i < |Signal(q)| :: Signal(q)[i] == q[i + 1];
      assert q == [q[0]] + Signal(q);
    }
  }

  lemma AcquireMutexInv(s: Rw, t: TaskId, next: Pc)
    requires MutexInv(s) && t in s.pc && !Waits(s, t) && !Inside(s.pc[t])
    requires next.RTest? || next.RUDec? || next.WTest? || next.WUTest?
    ensures MutexInv(Acquire(s, t, next))
  {
  }

  lemma ReleaseMutexInv(s: Rw, t: TaskId, next: Pc)
    requires MutexInv(s) && t in s.pc && !Waits(s, t) && Inside(s.pc[t]) && !Inside(next)
    ensures MutexInv(Release(s, t, next)) && t !in Release(s, t, next).m.queue
  {
    SignalTail(s.m.queue);
  }

  // condition_wait: the caller, having let the mutex go, is in a queue.
  lemma ParkMutexInv(s: Rw, t: TaskId)
    requires MutexInv(s) && t in s.pc && !Waits(s, t)
    ensures s.pc[t].RRelock? ==> MutexInv(s.(readers := s.readers + [t]))
    ensures s.pc[t].WRelock? ==> MutexInv(s.(writers := s.writers + [t]))
  {
  }

  // A move inside the section, which may shorten the condition queues.
  lemma MoveMutexInv(s: Rw, s': Rw, t: TaskId)
    requires MutexInv(s) && t in s.pc && !Waits(s, t) && Inside(s.pc[t])
    requires s'.m == s.m && s'.pc.Keys == s.pc.Keys && s'.pc == s.pc[t := s'.pc[t]] && Inside(s'.pc[t])
    requires s'.readers == s.readers || s'.readers == []
    requires s'.writers == s.writers || s'.writers == Signal(s.writers)
    ensures MutexInv(s')
  {
    SignalTail(s.writers);
  }

  lemma TryMutexInv(s: Rw, t: TaskId, next: Pc)
    requires MutexInv(s) && t in s.pc && !Waits(s, t) && !Inside(s.pc[t]) && Inside(next)
    ensures MutexInv(Try(s, t, next))
  {
  }

  lemma MutexInvGo(s: Rw, t: TaskId)
    requires MutexInv(s) && Can(s, t, Go)
    ensures MutexInv(Step(s, t, Go))
  {
    hide MutexInv;
    var s' := Step(s, t, Go);
    match s.pc[t]
    case RRelock => AcquireMutexInv(s, t, RTest);
    case WRelock => AcquireMutexInv(s, t, WTest);
    case RExit => ReleaseMutexInv(s, t, Idle);
    case TryFail => ReleaseMutexInv(s, t, Idle);
    case RUExit => ReleaseMutexInv(s, t, Idle);
    case WExit => ReleaseMutexInv(s, t, Idle);
    case WUExit => ReleaseMutexInv(s, t, Idle);
    case RWait =>
      ReleaseMutexInv(s, t, RRelock);
      ParkMutexInv(Release(s, t, RRelock), t);
    case WWait =>
      ReleaseMutexInv(s, t, WRelock);
      ParkMutexInv(Release(s, t, WRelock), t);
    case _ =>
      StaysInside(s, t);
      OneMoves(s, t, Go);
      MoveMutexInv(s, s', t);
  }

  lemma StaysInside(s: Rw, t: TaskId)
    requires Can(s, t, Go) && Inside(s.pc[t])
    requires !s.pc[t].RExit? && !s.pc[t].TryFail? && !s.pc[t].RUExit? && !s.pc[t].WExit? && !s.pc[t].WUExit?
    requires !s.pc[t].RWait? && !s.pc[t].WWait?
    ensures var s' := Step(s, t, Go);
            && s'.m == s.m && t in s'.pc && Inside(s'.pc[t])
            && (s'.readers == s.readers || s'.readers == [])
            && (s'.writers == s.writers || s'.writers == Signal(s.writers))
  {
  }

  lemma MutexInvStep(s: Rw, t: TaskId, a: Action)
    requires MutexInv(s) && Can(s, t, a)
    ensures MutexInv(Step(s, t, a))
  {
    hide MutexInv;
    match a
    case ReadLock => AcquireMutexInv(s, t, RTest);
    case ReadTry => TryMutexInv(s, t, RTryTest);
    case ReadUnlock => AcquireMutexInv(s, t, RUDec);
    case WriteLock => AcquireMutexInv(s, t, WTest);
    case WriteTry => TryMutexInv(s, t, WTryTest);
    case WriteUnlock => AcquireMutexInv(s, t, WUTest);
    case Go => MutexInvGo(s, t);
  }

  // Tasks that wait for the mutex have learnt nothing yet.
  lemma OthersKnowNothing(s: Rw, t: TaskId)
    requires MutexInv(s) && t in s.pc && !Waits(s, t) && Inside(s.pc[t])
    ensures forall u, active, count | u in s.pc && u != t :: Knows(s.pc[u], active, count)
  {
    Sole(s, t);
  }

  ghost predicate WritesField(s: Rw, t: TaskId, a: Action)
    requires t in s.pc
  {
    a.Go? && (s.pc[t].RInc? || s.pc[t].RUDec? || s.pc[t].WSet? || s.pc[t].WUTest?)
  }

  lemma FieldHolderInv(s: Rw, t: TaskId)
    requires MutexInv(s) && HolderInv(s) && Can(s, t, Go) && WritesField(s, t, Go)
    ensures HolderInv(Step(s, t, Go))
  {
    OthersKnowNothing(s, t);
    hide MutexInv;
    FieldMoves(s, t);
    FieldsRight(s, t);
    hide Step, Can;
  }

  // What those steps make of the fields.
  lemma FieldsRight(s: Rw, t: TaskId)
    requires HolderInv(s) && Can(s, t, Go) && WritesField(s, t, Go)
    ensures var s' := Step(s, t, Go);
            && -MAX_INT - 1 <= s'.count <= MAX_INT && (s'.active <==> s'.owner.Some?)
            && (!s'.wrapped ==> s'.count == |s'.reading| - s'.misused && (s'.active ==> s'.count <= 0))
            && s'.writing == (if s'.owner.Some? then {s'.owner.value} else {})
            && t in s'.pc && Knows(s'.pc[t], s'.active, s'.count)
  {
    assert Knows(s.pc[t], s.active, s.count);
  }

  // What all the other steps have in common.
  lemma QuietStep(s: Rw, t: TaskId, a: Action)
    requires Can(s, t, a) && !WritesField(s, t, a) && Knows(s.pc[t], s.active, s.count)
    ensures var s' := Step(s, t, a);
            && t in s'.pc && s'.count == s.count && s'.active == s.active && s'.owner == s.owner
            && s'.reading == s.reading && s'.writing == s.writing && s'.misused == s.misused && s'.wrapped == s.wrapped
            && Knows(s'.pc[t], s.active, s.count)
  {
  }

  lemma HolderInvStep(s: Rw, t: TaskId, a: Action)
    requires MutexInv(s) && HolderInv(s) && Can(s, t, a)
    ensures HolderInv(Step(s, t, a))
  {
    if WritesField(s, t, a) {
      FieldHolderInv(s, t);
    } else {
      hide MutexInv, Can, Step;
      OneMoves(s, t, a);
      QuietStep(s, t, a);
    }
  }

  lemma ReadersQueue(s: Rw, t: TaskId, a: Action)
    requires Can(s, t, a)
    ensures Step(s, t, a).readers ==
            if a.Go? && s.pc[t].RWait? then s.readers + [t]
            else if a.Go? && s.pc[t].WUBroadcast? then []
            else s.readers
  {
    hide Lock, Unlock, TryLock, Waits;
  }

  // A step that makes the lock inactive, or is on the way to the broadcast,
  // leads there.
  lemma LeadsToBroadcast(s: Rw, t: TaskId, a: Action)
    requires Can(s, t, a) && (s.active || (a.Go? && (s.pc[t].WUSignal? || s.pc[t].RWait?)))
    requires Knows(s.pc[t], s.active, s.count)
    ensures var s' := Step(s, t, a); s'.active || WillBroadcast(s', t)
  {
  }

  lemma ReadersServedStep(s: Rw, t: TaskId, a: Action)
    requires Can(s, t, a) && ReadersServed(s) && Knows(s.pc[t], s.active, s.count)
    ensures ReadersServed(Step(s, t, a))
  {
    var s' := Step(s, t, a);
    OneMoves(s, t, a);
    ReadersQueue(s, t, a);
    if s.active || (a.Go? && (s.pc[t].WUSignal? || s.pc[t].RWait?)) {
      LeadsToBroadcast(s, t, a);
    }
    assert a.Go? || s.pc[t].Idle?;
    hide Step, Can;
    if s'.readers != [] && !s'.active && !WillBroadcast(s', t) {
      var w :| WillBroadcast(s, w);
      assert WillBroadcast(s', w);
    }
  }

  lemma FieldMoves(s: Rw, t: TaskId)
    requires Can(s, t, Go) && WritesField(s, t, Go)
    ensures var s' := Step(s, t, Go); s'.pc.Keys == s.pc.Keys && s'.pc == s.pc[t := s'.pc[t]]
  {
  }

  lemma CallMoves(s: Rw, t: TaskId, a: Action)
    requires Can(s, t, a) && !a.Go?
    ensures var s' := Step(s, t, a); s'.pc.Keys == s.pc.Keys && s'.pc == s.pc[t := s'.pc[t]]
  {
  }

  lemma GoMoves(s: Rw, t: TaskId)
    requires Can(s, t, Go) && !WritesField(s, t, Go)
    ensures var s' := Step(s, t, Go); s'.pc.Keys == s.pc.Keys && s'.pc == s.pc[t := s'.pc[t]]
  {
    hide Get, GiveBack, Acquire, Release, At;
    var next := GoSets(s, t);
    hide Step;
  }

  lemma GoSets(s: Rw, t: TaskId) returns (next: Pc)
    requires Can(s, t, Go) && !WritesField(s, t, Go)
    ensures Step(s, t, Go).pc == s.pc[t := next]
  {
    hide Get, GiveBack, Acquire, Release, At;
    var s' := Step(s, t, Go);
    next := if t in s'.pc then s'.pc[t] else Idle;
  }

  lemma OneMoves(s: Rw, t: TaskId, a: Action)
    requires Can(s, t, a)
    ensures var s' := Step(s, t, a); s'.pc.Keys == s.pc.Keys && s'.pc == s.pc[t := s'.pc[t]]
  {
    hide Step;
    if WritesField(s, t, a) {
      FieldMoves(s, t);
    } else {
      if a.Go? {
        GoMoves(s, t);
      } else {
        CallMoves(s, t, a);
      }
    }
  }

  // A step signals the first waiting writer, adds its own task to the
  // waiting writers, or leaves them.
  lemma WritersQueue(s: Rw, t: TaskId, a: Action)
    requires Can(s, t, a)
    ensures Step(s, t, a).writers ==
            if a.Go? && s.pc[t].WWait? then s.writers + [t]
            else if a.Go? && (s.pc[t].RUSignal? || s.pc[t].WUSignal?) then Signal(s.writers)
            else s.writers
  {
  }

  // Somebody else who will serve still will.
  lemma ServerStays(s: Rw, t: TaskId, a: Action, w: TaskId)
    requires Can(s, t, a) && WillServe(s, w) && w != t
    ensures WillServe(Step(s, t, a), w)
  {
    OneMoves(s, t, a);
    WritersQueue(s, t, a);
    assert forall u | u in Signal(s.writers) :: u in s.writers;
    hide Step;
  }

  // And whoever served by this step has served, or has set the lock.
  lemma ServedNow(s: Rw, t: TaskId, a: Action)
    requires Can(s, t, a) && WillServe(s, t) && Knows(s.pc[t], s.active, s.count)
    ensures var s' := Step(s, t, a);
            s'.wrapped || s'.active || s'.count > 0 || WillServe(s', t)
            || (a.Go? && (s.pc[t].RUSignal? || s.pc[t].WUSignal?) && s'.writers == Signal(s.writers))
  {
  }

  // While the lock is neither free to write nor to be freed, the step that
  // changes this serves.
  lemma FreedServes(s: Rw, t: TaskId, a: Action)
    requires Can(s, t, a) && (s.wrapped || s.active || s.count > 0)
    ensures var s' := Step(s, t, a); s'.wrapped || s'.active || s'.count > 0 || WillServe(s', t)
  {
  }

  lemma WritersServedStep(s: Rw, t: TaskId, a: Action)
    requires Can(s, t, a) && MutexInv(s) && HolderInv(s) && WritersServed(s)
    ensures WritersServed(Step(s, t, a))
  {
    var s' := Step(s, t, a);
    assert Knows(s.pc[t], s.active, s.count);
    assert Distinct(s.writers) && forall u | u in s.writers :: u in s.pc && s.pc[u].WRelock?;
    OneMoves(s, t, a);
    WritersQueue(s, t, a);
    hide MutexInv, HolderInv, Step, Can;
    if s'.writers != [] && !s'.wrapped && !s'.active && s'.count <= 0 && !WillServe(s', t) {
      SignalTail(s.writers);
      if s.wrapped || s.active || s.count > 0 {
        FreedServes(s, t, a);
      } else if s.writers != [] {
        var w :| WillServe(s, w);
        if w != t {
          ServerStays(s, t, a, w);
        } else {
          ServedNow(s, t, a);
          assert WillServe(s', s.writers[0]);
        }
      }
    }
  }

  // ---------- every run ----------

  ghost predicate Inv(s: Rw) {
    MutexInv(s) && HolderInv(s) && ReadersServed(s) && WritersServed(s)
  }

  lemma InitialInv(s: Rw)
    requires Initial(s)
    ensures Inv(s)
  {
  }

  lemma InvStep(s: Rw, t: TaskId, a: Action)
    requires Inv(s) && Can(s, t, a)
    ensures Inv(Step(s, t, a))
  {
    assert Knows(s.pc[t], s.active, s.count);
    hide MutexInv, HolderInv, ReadersServed, WritersServed, Can, Step;
    MutexInvStep(s, t, a);
    HolderInvStep(s, t, a);
    ReadersServedStep(s, t, a);
    WritersServedStep(s, t, a);
  }

  lemma {:induction false} RunsKeepInv(n: nat, s: Rw)
    requires Reaches(n, s)
    ensures Inv(s)
  {
    hide Inv, Step, Can, Initial;
    if n == 0 {
      InitialInv(s);
    } else {
      var p, t, a :| Reaches(n - 1, p) && Can(p, t, a) && s == Step(p, t, a);
      RunsKeepInv(n - 1, p);
      InvStep(p, t, a);
    }
  }

  // Over every run: at most one task holds the lock for writing, and it is
  // the one writer_owner names; and, unless the counter has wrapped, it is
  // the number of read locks held if and only if no task ever gave back one
  // it did not hold, in which case nobody reads while somebody writes.
  lemma Exclusion(n: nat, s: Rw)
    requires Reaches(n, s)
    ensures (s.active <==> s.owner.Some?) && s.writing == if s.owner.Some? then {s.owner.value} else {}
    ensures !s.wrapped ==> (s.count == |s.reading| <==> s.misused == 0)
    ensures !s.wrapped && s.misused == 0 && s.writing != {} ==> s.count == 0 && s.reading == multiset{}
  {
    RunsKeepInv(n, s);
    hide Reaches;
  }

  // The counter wraps exactly where what it should be leaves its range.
  lemma WrapsIff(n: nat, s: Rw, t: TaskId, a: Action)
    requires Reaches(n, s) && Can(s, t, a) && !s.wrapped
    ensures var s' := Step(s, t, a);
            s'.wrapped <==> !(-MAX_INT - 1 <= |s'.reading| - s'.misused <= MAX_INT)
  {
    RunsKeepInv(n, s);
    hide Reaches, MutexInv, ReadersServed, WritersServed;
    if WritesField(s, t, a) {
      FieldsRight(s, t);
    } else {
      assert Knows(s.pc[t], s.active, s.count);
      QuietStep(s, t, a);
      hide Step;
    }
  }

  // Whenever nobody is inside an internal-mutex section, a waiting reader
  // means that some task holds the lock for writing, and a waiting writer
  // that some task holds the lock or that a writer has been signalled and
  // has yet to look again.
  lemma NoLostWakeup(n: nat, s: Rw)
    requires Reaches(n, s) && forall t | t in s.pc :: !Inside(s.pc[t])
    ensures s.readers != [] ==> s.writing != {}
    ensures s.writers != [] ==> s.wrapped || s.writing != {} || s.reading != multiset{}
                                || exists t :: t in s.pc && s.pc[t].WRelock? && !Waits(s, t)
  {
    RunsKeepInv(n, s);
    hide Reaches;
    if s.writers != [] && !s.wrapped && !s.active && s.count <= 0 {
      var w :| WillServe(s, w);
      assert s.pc[w].WRelock?;
      NotQueued(s, w);
    }
  }

  lemma NotQueued(s: Rw, w: TaskId)
    requires MutexInv(s) && w in s.pc && s.pc[w].WRelock? && w !in s.writers
    ensures !Waits(s, w)
  {
  }

  // No deadlock of its own: while any task waits, some task that does not
  // wait is in the middle of a call, or some task holds the lock.
  lemma NeverStuck(n: nat, s: Rw, t: TaskId)
    requires Reaches(n, s) && Waits(s, t)
    ensures s.wrapped || s.writing != {} || s.reading != multiset{} || exists u :: u in s.pc && !Waits(s, u) && !s.pc[u].Idle?
  {
    RunsKeepInv(n, s);
    if s.m.locked {
      var u := s.m.owner.value;
      assert u in s.pc && !Waits(s, u) && !s.pc[u].Idle?;
    } else {
      assert forall u | u in s.pc :: !Inside(s.pc[u]);
      NoLostWakeup(n, s);
    }
  }
}
