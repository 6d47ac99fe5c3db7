// Any number of mutexes, semaphores and condition variables shared by any
// number of tasks, each interrupt-disabled region being one step
// (src/mutex.c, src/semaphore.c, src/condition.c).
module SyncSystem {
  import opened Common
  import Spec = SyncSpec

  type TaskId = nat
  type ObjId = nat

  datatype Obj =
    | MutexObj(m: Spec.MutexState<TaskId>)
    | SemObj(s: Spec.SemState<TaskId>)
    | CondObj(waiting: seq<TaskId>)

  function Queue(o: Obj): seq<TaskId> {
    match o
    case MutexObj(m) => m.queue
    case SemObj(s) => s.queue
    case CondObj(waiting) => waiting
  }

  // blocked: the tasks whose state is TASK_BLOCKED.  The rest is where
  // condition_wait stands: relock has the tasks that have still to call
  // mutex_lock, and on which mutex; back the tasks that have called it and not
  // given that mutex up since.
  datatype World = World(objs: map<ObjId, Obj>, blocked: set<TaskId>, relock: map<TaskId, ObjId>,
                         back: set<(TaskId, ObjId)>)

  datatype Op =
    | Lock(id: ObjId) | TryLock(id: ObjId) | Unlock(id: ObjId) | RecursiveLock(id: ObjId) | RecursiveUnlock(id: ObjId)
    | SemWait(id: ObjId) | SemTryWait(id: ObjId) | SemPost(id: ObjId)
    | CondWait(id: ObjId, mutex: ObjId) | Signal(id: ObjId) | Broadcast(id: ObjId)

  ghost predicate Can(w: World, t: TaskId, op: Op) {
    && t !in w.blocked && op.id in w.objs && (t in w.relock ==> op == Lock(w.relock[t]))
    && match op
       case SemWait(id) => w.objs[id].SemObj?
       case SemTryWait(id) => w.objs[id].SemObj?
       case SemPost(id) => w.objs[id].SemObj?
       case CondWait(id, mutex) => w.objs[id].CondObj? && mutex in w.objs && w.objs[mutex].MutexObj?
       case Signal(id) => w.objs[id].CondObj?
       case Broadcast(id) => w.objs[id].CondObj?
       case _ => w.objs[op.id].MutexObj?
  }

  // Where a region does not touch the queue, where it puts its caller to
  // sleep, and where it wakes the first waiter.
  ghost function Set(w: World, id: ObjId, o: Obj): World {
    w.(objs := w.objs[id := o])
  }

  ghost function Sleep(w: World, id: ObjId, o: Obj, t: TaskId): World {
    w.(objs := w.objs[id := o], blocked := w.blocked + {t})
  }

  ghost function Wake(w: World, id: ObjId, o: Obj): World
    requires id in w.objs
  {
    var q := Queue(w.objs[id]);
    w.(objs := w.objs[id := o], blocked := if q == [] then w.blocked else w.blocked - {q[0]})
  }

  ghost function UnlockStep(w: World, t: TaskId, id: ObjId): World
    requires id in w.objs && w.objs[id].MutexObj?
  {
    var m := w.objs[id].m;
    var o := MutexObj(Spec.Unlock(m, t));
    if m.owner == Some(t) then Wake(w, id, o) else Set(w, id, o)
  }

  ghost function MutexStep(w: World, t: TaskId, op: Op): World
    requires Can(w, t, op) && w.objs[op.id].MutexObj?
  {
    var id, m := op.id, w.objs[op.id].m;
    match op
    case Lock(_) => if m.locked then Sleep(w, id, MutexObj(Spec.Lock(m, t)), t) else Set(w, id, MutexObj(Spec.Lock(m, t)))
    case TryLock(_) => Set(w, id, MutexObj(Spec.TryLock(m, t)))
    case Unlock(_) => UnlockStep(w, t, id)
    case RecursiveLock(_) =>
      var o := MutexObj(Spec.RecursiveLock(m, t));
      if m.owner != Some(t) && m.locked then Sleep(w, id, o, t) else Set(w, id, o)
    case _ =>
      var o := MutexObj(Spec.RecursiveUnlock(m, t));
      if m.owner == Some(t) && Spec.Dec32(m.count) == 0 then Wake(w, id, o) else Set(w, id, o)
  }

  ghost function SemStep(w: World, t: TaskId, op: Op): World
    requires Can(w, t, op) && w.objs[op.id].SemObj?
  {
    var id, s := op.id, w.objs[op.id].s;
    match op
    case SemWait(_) => if s.count > 0 then Set(w, id, SemObj(Spec.SemWait(s, t))) else Sleep(w, id, SemObj(Spec.SemWait(s, t)), t)
    case SemTryWait(_) => Set(w, id, SemObj(Spec.SemTryWait(s)))
    case _ => Wake(w, id, SemObj(Spec.SemPost(s)))
  }

  ghost function CondStep(w: World, t: TaskId, op: Op): World
    requires Can(w, t, op) && w.objs[op.id].CondObj?
  {
    var id, q := op.id, w.objs[op.id].waiting;
    match op
    case CondWait(_, mutex) => UnlockStep(Sleep(w, id, CondObj(q + [t]), t), t, mutex)
    case Signal(_) => Wake(w, id, CondObj(Spec.Signal(q)))
    case _ => w.(objs := w.objs[id := CondObj([])], blocked := w.blocked - set u | u in q)
  }

  // The region itself.
  ghost function Region(w: World, t: TaskId, op: Op): World
    requires Can(w, t, op)
  {
    match w.objs[op.id]
    case MutexObj(_) => MutexStep(w, t, op)
    case SemObj(_) => SemStep(w, t, op)
    case CondObj(_) => CondStep(w, t, op)
  }

  ghost function Step(w: World, t: TaskId, op: Op): World
    requires Can(w, t, op)
  {
    var w' := Region(w, t, op);
    match op
    case CondWait(_, mutex) => w'.(relock := w.relock[t := mutex], back := w.back - {(t, mutex)})
    case Lock(id) => if t in w.relock then w'.(relock := w.relock - {t}, back := w.back + {(t, id)}) else w'
    case Unlock(id) => w'.(back := w.back - {(t, id)})
    case RecursiveUnlock(id) => w'.(back := w.back - {(t, id)})
    case _ => w'
  }

  // ---------- what each region does, field by field ----------

  // Of all objects only id becomes o; the blocked tasks are these.
  ghost predicate Only(w: World, id: ObjId, o: Obj, blocked: set<TaskId>, w': World) {
    && id in w.objs && w'.objs.Keys == w.objs.Keys && w'.objs[id] == o && w'.blocked == blocked
    && forall i | i in w.objs && i != id :: w'.objs[i] == w.objs[i]
  }

  // The mutex of the owner goes to the longest waiter, who may run again; or
  // it is free, if nobody waits.  For anybody else nothing happens.
  ghost predicate Freed(w: World, t: TaskId, id: ObjId, w': World)
    requires id in w.objs && w.objs[id].MutexObj?
  {
    var m := w.objs[id].m;
    if m.owner != Some(t) then Only(w, id, w.objs[id], w.blocked, w')
    else if m.queue == [] then Only(w, id, MutexObj(m.(locked := false, owner := None)), w.blocked, w')
    else Only(w, id, MutexObj(m.(owner := Some(m.queue[0]), queue := m.queue[1..])), w.blocked - {m.queue[0]}, w')
  }

  lemma FreedBy(w: World, t: TaskId, id: ObjId)
    requires id in w.objs && w.objs[id].MutexObj?
    ensures Freed(w, t, id, UnlockStep(w, t, id))
  {
  }

  lemma MutexDoes(w: World, t: TaskId, op: Op)
    requires Can(w, t, op) && w.objs[op.id].MutexObj? && w.objs[op.id].m.count < 0x1_0000_0000
    ensures var id, m, w' := op.id, w.objs[op.id].m, Step(w, t, op);
            match op
            case Lock(_) =>
              if m.locked then Only(w, id, MutexObj(m.(queue := m.queue + [t])), w.blocked + {t}, w')
              else Only(w, id, MutexObj(m.(locked := true, owner := Some(t))), w.blocked, w')
            case TryLock(_) =>
              Only(w, id, if m.locked then MutexObj(m) else MutexObj(m.(locked := true, owner := Some(t))), w.blocked, w')
            case Unlock(_) => Freed(w, t, id, w')
            case RecursiveLock(_) =>
              if m.owner == Some(t) then Only(w, id, MutexObj(m.(count := (m.count + 1) % 0x1_0000_0000)), w.blocked, w')
              else if m.locked then Only(w, id, MutexObj(m.(queue := m.queue + [t])), w.blocked + {t}, w')
              else Only(w, id, MutexObj(m.(locked := true, owner := Some(t), count := 1)), w.blocked, w')
            case _ =>
              if m.owner != Some(t) then Only(w, id, MutexObj(m), w.blocked, w')
              else if m.count != 1 then Only(w, id, MutexObj(m.(count := (m.count - 1) % 0x1_0000_0000)), w.blocked, w')
              else if m.queue == [] then
                Only(w, id, MutexObj(m.(locked := false, owner := None, count := 0)), w.blocked, w')
              else Only(w, id, MutexObj(m.(owner := Some(m.queue[0]), queue := m.queue[1..], count := 1)),
                        w.blocked - {m.queue[0]}, w')
  {
  }

  lemma OtherDoes(w: World, t: TaskId, op: Op)
    requires Can(w, t, op) && !w.objs[op.id].MutexObj?
    ensures var id, o, w' := op.id, w.objs[op.id], Step(w, t, op);
            match op
            case SemWait(_) =>
              if o.s.count > 0 then Only(w, id, SemObj(o.s.(count := o.s.count - 1)), w.blocked, w')
              else Only(w, id, SemObj(o.s.(queue := o.s.queue + [t])), w.blocked + {t}, w')
            case SemTryWait(_) =>
              Only(w, id, if o.s.count > 0 then SemObj(o.s.(count := o.s.count - 1)) else o, w.blocked, w')
            case SemPost(_) =>
              if o.s.queue != [] then
                Only(w, id, SemObj(o.s.(queue := o.s.queue[1..])), w.blocked - {o.s.queue[0]}, w')
              else
                Only(w, id, SemObj(o.s.(count := if o.s.count == 0x7FFF_FFFF then -0x8000_0000 else o.s.count + 1)),
                     w.blocked, w')
            case Signal(_) =>
              if o.waiting == [] then Only(w, id, o, w.blocked, w')
              else Only(w, id, CondObj(o.waiting[1..]), w.blocked - {o.waiting[0]}, w')
            case Broadcast(_) => Only(w, id, CondObj([]), w.blocked - (set u | u in o.waiting), w')
            case CondWait(_, mutex) =>
              && w'.relock == w.relock[t := mutex]
              && exists v :: Only(w, id, CondObj(o.waiting + [t]), w.blocked + {t}, v) && Freed(v, t, mutex, w')
            case _ => true
  {
    if op.CondWait? {
      var v := Sleep(w, op.id, CondObj(w.objs[op.id].waiting + [t]), t);
      assert Only(w, op.id, CondObj(w.objs[op.id].waiting + [t]), w.blocked + {t}, v);
      FreedBy(v, t, op.mutex);
    }
  }

  // Who is between condition_wait's two halves, and who is back.
  lemma HistoryDoes(w: World, t: TaskId, op: Op)
    requires Can(w, t, op)
    ensures var w' := Step(w, t, op);
            if op.CondWait? then w'.relock == w.relock[t := op.mutex] && w'.back == w.back - {(t, op.mutex)}
            else if t in w.relock then w'.relock == w.relock - {t} && w'.back == w.back + {(t, w.relock[t])}
            else
              && w'.relock == w.relock
              && w'.back == if op.Unlock? || op.RecursiveUnlock? then w.back - {(t, op.id)} else w.back
  {
  }

  ghost predicate Waits(w: World, t: TaskId, id: ObjId) {
    id in w.objs && t in Queue(w.objs[id])
  }

  // A task is blocked exactly when it waits somewhere, and then it waits in
  // one place, once.
  ghost predicate OneQueue(w: World) {
    && (forall t :: t in w.blocked <==> exists id :: Waits(w, t, id))
    && (forall t, i, j | Waits(w, t, i) && Waits(w, t, j) :: i == j)
    && (forall id | id in w.objs :: Distinct(Queue(w.objs[id])))
  }

  lemma SetKeeps(w: World, id: ObjId, o: Obj)
    requires OneQueue(w) && id in w.objs && Queue(o) == Queue(w.objs[id])
    ensures OneQueue(Set(w, id, o))
  {
    var w' := Set(w, id, o);
    assert forall t, i :: Waits(w', t, i) <==> Waits(w, t, i);
  }

  lemma SleepKeeps(w: World, id: ObjId, o: Obj, t: TaskId)
    requires OneQueue(w) && id in w.objs && t !in w.blocked && Queue(o) == Queue(w.objs[id]) + [t]
    ensures OneQueue(Sleep(w, id, o, t))
  {
    var w' := Sleep(w, id, o, t);
    assert !Waits(w, t, id);
    assert Queue(o)[|Queue(o)| - 1] == t;
    assert forall u, i :: Waits(w', u, i) <==> Waits(w, u, i) || (u == t && i == id);
  }

  lemma InRest(q: seq<TaskId>, u: TaskId)
    requires Distinct(q) && q != []
    ensures u in q[1..] <==> u in q && u != q[0]
  {
    DropFirst(q);
  }

  lemma WakeKeeps(w: World, id: ObjId, o: Obj)
    requires OneQueue(w) && id in w.objs && Queue(o) == Spec.Signal(Queue(w.objs[id]))
    ensures OneQueue(Wake(w, id, o))
  {
    var q := Queue(w.objs[id]);
    if q == [] {
      SetKeeps(w, id, o);
    } else {
      var w' := Wake(w, id, o);
      DropFirst(q);
      assert Waits(w, q[0], id);
      assert Queue(o) == q[1..];
      forall u, i
        ensures Waits(w', u, i) <==> Waits(w, u, i) && u != q[0]
      {
        if i == id {
          InRest(q, u);
          assert w'.objs[i] == o;
        } else {
          assert Waits(w', u, i) <==> Waits(w, u, i);
        }
      }
    }
  }

  lemma BroadcastKeeps(w: World, id: ObjId)
    requires OneQueue(w) && id in w.objs
    ensures OneQueue(w.(objs := w.objs[id := CondObj([])], blocked := w.blocked - set u | u in Queue(w.objs[id])))
  {
    var w' := w.(objs := w.objs[id := CondObj([])], blocked := w.blocked - set u | u in Queue(w.objs[id]));
    assert forall u, i :: Waits(w', u, i) <==> Waits(w, u, i) && i != id;
    assert forall u :: u in Queue(w.objs[id]) <==> Waits(w, u, id);
  }

  lemma UnlockKeeps(w: World, t: TaskId, id: ObjId)
    requires OneQueue(w) && id in w.objs && w.objs[id].MutexObj?
    ensures OneQueue(UnlockStep(w, t, id))
  {
    var m := w.objs[id].m;
    var o := MutexObj(Spec.Unlock(m, t));
    if m.owner == Some(t) {
      WakeKeeps(w, id, o);
    } else {
      SetKeeps(w, id, o);
    }
  }

  lemma MutexKeeps(w: World, t: TaskId, op: Op)
    requires OneQueue(w) && Can(w, t, op) && w.objs[op.id].MutexObj?
    ensures OneQueue(MutexStep(w, t, op))
  {
    hide OneQueue;
    var id, m := op.id, w.objs[op.id].m;
    match op
    case Lock(_) =>
      var o := MutexObj(Spec.Lock(m, t));
      if m.locked {
        SleepKeeps(w, id, o, t);
      } else {
        SetKeeps(w, id, o);
      }
    case TryLock(_) =>
      SetKeeps(w, id, MutexObj(Spec.TryLock(m, t)));
    case Unlock(_) =>
      UnlockKeeps(w, t, id);
    case RecursiveLock(_) =>
      var o := MutexObj(Spec.RecursiveLock(m, t));
      if m.owner != Some(t) && m.locked {
        SleepKeeps(w, id, o, t);
      } else {
        SetKeeps(w, id, o);
      }
    case _ =>
      var o := MutexObj(Spec.RecursiveUnlock(m, t));
      if m.owner == Some(t) && Spec.Dec32(m.count) == 0 {
        WakeKeeps(w, id, o);
      } else {
        SetKeeps(w, id, o);
      }
  }

  lemma SemKeeps(w: World, t: TaskId, op: Op)
    requires OneQueue(w) && Can(w, t, op) && w.objs[op.id].SemObj?
    ensures OneQueue(SemStep(w, t, op))
  {
    hide OneQueue;
    var id, s := op.id, w.objs[op.id].s;
    match op
    case SemWait(_) =>
      var o := SemObj(Spec.SemWait(s, t));
      if s.count > 0 {
        SetKeeps(w, id, o);
      } else {
        SleepKeeps(w, id, o, t);
      }
    case SemTryWait(_) =>
      SetKeeps(w, id, SemObj(Spec.SemTryWait(s)));
    case _ =>
      WakeKeeps(w, id, SemObj(Spec.SemPost(s)));
  }

  lemma CondKeeps(w: World, t: TaskId, op: Op)
    requires OneQueue(w) && Can(w, t, op) && w.objs[op.id].CondObj?
    ensures OneQueue(CondStep(w, t, op))
  {
    hide OneQueue;
    var id, q := op.id, w.objs[op.id].waiting;
    match op
    case CondWait(_, mutex) =>
      SleepKeeps(w, id, CondObj(q + [t]), t);
      UnlockKeeps(Sleep(w, id, CondObj(q + [t]), t), t, mutex);
    case Signal(_) =>
      WakeKeeps(w, id, CondObj(Spec.Signal(q)));
    case _ =>
      BroadcastKeeps(w, id);
  }

  // ---------- condition_wait comes back with its mutex ----------

  // t is the owner, or waits for the mutex.
  ghost predicate Owns(o: Obj, t: TaskId) {
    o.MutexObj? && (o.m.owner == Some(t) || t in o.m.queue)
  }

  ghost predicate MutexOk(o: Obj) {
    o.MutexObj? && o.m.owner.Some? ==> o.m.locked
  }

  // What a region on one mutex does to those who own it or wait for it.
  ghost predicate Kept(o: Obj, o': Obj, t: TaskId, gives: bool) {
    && (o.MutexObj? <==> o'.MutexObj?) && (MutexOk(o) ==> MutexOk(o'))
    && (MutexOk(o) ==> forall u | Owns(o, u) && !(gives && u == t) :: Owns(o', u))
  }

  lemma LockKept(m: Spec.MutexState<TaskId>, t: TaskId)
    ensures Kept(MutexObj(m), MutexObj(Spec.Lock(m, t)), t, false) && Owns(MutexObj(Spec.Lock(m, t)), t)
    ensures Kept(MutexObj(m), MutexObj(Spec.TryLock(m, t)), t, false)
    ensures Kept(MutexObj(m), MutexObj(Spec.RecursiveLock(m, t)), t, false)
  {
    assert (m.queue + [t])[|m.queue|] == t;
    assert forall u | u in m.queue :: u in m.queue + [t];
  }

  lemma UnlockKept(m: Spec.MutexState<TaskId>, t: TaskId)
    ensures Kept(MutexObj(m), MutexObj(Spec.Unlock(m, t)), t, true)
    ensures Kept(MutexObj(m), MutexObj(Spec.RecursiveUnlock(m, t)), t, true)
  {
    if m.queue != [] {
      assert m.queue == [m.queue[0]] + m.queue[1..];
    }
  }

  // op gives up mutex id.
  predicate GivesUp(op: Op, id: ObjId) {
    op == Unlock(id) || op == RecursiveUnlock(id) || (op.CondWait? && op.mutex == id)
  }

  lemma RegionKept(w: World, t: TaskId, op: Op)
    requires Can(w, t, op)
    ensures var w' := Region(w, t, op);
            && w'.objs.Keys == w.objs.Keys && w'.relock == w.relock && w'.back == w.back
            && forall id | id in w.objs :: Kept(w.objs[id], w'.objs[id], t, GivesUp(op, id))
    ensures op.Lock? ==> Owns(Region(w, t, op).objs[op.id], t)
  {
    match w.objs[op.id]
    case MutexObj(m) =>
      LockKept(m, t);
      UnlockKept(m, t);
    case SemObj(_) =>
    case CondObj(_) =>
      if op.CondWait? {
        UnlockKept(w.objs[op.mutex].m, t);
      }
  }

  ghost predicate Returning(w: World) {
    && (forall id | id in w.objs :: MutexOk(w.objs[id]))
    && (forall p | p in w.back :: p.1 in w.objs && Owns(w.objs[p.1], p.0))
    && (forall t | t in w.relock :: w.relock[t] in w.objs && w.objs[w.relock[t]].MutexObj?)
  }

  lemma ReturningStep(w: World, t: TaskId, op: Op)
    requires Returning(w) && Can(w, t, op)
    ensures Returning(Step(w, t, op))
  {
    RegionKept(w, t, op);
    hide Region;
    var w' := Step(w, t, op);
    assert w'.objs == Region(w, t, op).objs;
    forall p | p in w'.back
      ensures p.1 in w'.objs && Owns(w'.objs[p.1], p.0)
    {
      if p in w.back {
        assert Kept(w.objs[p.1], w'.objs[p.1], t, GivesUp(op, p.1));
      }
    }
  }

  // All queues empty, and nobody in condition_wait.
  ghost predicate Initial(w: World) {
    && w.blocked == {} && w.relock == map[] && w.back == {}
    && forall id | id in w.objs :: Queue(w.objs[id]) == [] && MutexOk(w.objs[id])
  }

  // The worlds that runs of n steps lead to.
  ghost predicate Reaches(n: nat, w: World) {
    if n == 0 then Initial(w) else exists p, t, op :: Reaches(n - 1, p) && Can(p, t, op) && w == Step(p, t, op)
  }

  lemma OneQueueStep(w: World, t: TaskId, op: Op)
    requires OneQueue(w) && Can(w, t, op)
    ensures OneQueue(Step(w, t, op))
  {
    match w.objs[op.id] {
      case MutexObj(_) => MutexKeeps(w, t, op);
      case SemObj(_) => SemKeeps(w, t, op);
      case CondObj(_) => CondKeeps(w, t, op);
    }
    OneQueueOf(Region(w, t, op), Step(w, t, op));
  }

  lemma OneQueueOf(w: World, w': World)
    requires OneQueue(w) && w'.objs == w.objs && w'.blocked == w.blocked
    ensures OneQueue(w')
  {
    assert forall t, id :: Waits(w', t, id) <==> Waits(w, t, id);
  }

  lemma {:induction false} RunsKeep(n: nat, w: World)
    requires Reaches(n, w)
    ensures OneQueue(w) && Returning(w)
  {
    hide Step, Can;
    if n > 0 {
      var p, t, op :| Reaches(n - 1, p) && Can(p, t, op) && w == Step(p, t, op);
      RunsKeep(n - 1, p);
      hide OneQueue, Returning;
      OneQueueStep(p, t, op);
      ReturningStep(p, t, op);
    }
  }

  // Over every run: each blocked task waits in exactly one queue of all, in
  // one place, and no task that may run waits in any.
  lemma RunsKeepOneQueue(n: nat, w: World)
    requires Reaches(n, w)
    ensures OneQueue(w)
  {
    RunsKeep(n, w);
  }

  // Over every run: a task whose condition_wait has called mutex_lock and
  // which runs again owns that mutex, until it gives it up itself.
  lemma WaitReturnsOwner(n: nat, w: World, t: TaskId, id: ObjId)
    requires Reaches(n, w) && (t, id) in w.back && t !in w.blocked
    ensures id in w.objs && w.objs[id].MutexObj? && w.objs[id].m.owner == Some(t)
  {
    RunsKeep(n, w);
    hide Reaches;
    assert !Waits(w, t, id);
  }
}
