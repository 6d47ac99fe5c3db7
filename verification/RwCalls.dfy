// The calls of the reader/writer lock as a whole (src/rwlock.c:20-117): what
// each leaves behind, and what the calls of a run add up to.
module RwCalls {
  import opened Common
  import opened SyncSpec
  import opened Widths
  import opened RwLock

  // ---------- one call, alone ----------

  // Task t takes k steps in the middle of a call.
  ghost predicate Alone(s: Rw, t: TaskId, k: nat, s': Rw)
    decreases k
  {
    if k == 0 then s' == s else Can(s, t, Go) && Alone(Step(s, t, Go), t, k - 1, s')
  }

  // Task t makes call a, or goes on with its call, until it is back or
  // waits, nobody else taking a step.
  ghost predicate Leads(s: Rw, t: TaskId, a: Action, s': Rw) {
    && Can(s, t, a) && t in s'.pc && (s'.pc[t].Idle? || Waits(s', t))
    && exists k :: Alone(Step(s, t, a), t, k, s')
  }

  lemma {:induction false} AloneEnds(s: Rw, t: TaskId, k: nat, x: Rw, l: nat, y: Rw)
    requires Alone(s, t, k, x) && Alone(s, t, l, y) && t in x.pc && t in y.pc
    requires (x.pc[t].Idle? || Waits(x, t)) && (y.pc[t].Idle? || Waits(y, t))
    ensures x == y
    decreases k
  {
    hide Step, Waits;
    if k > 0 && l > 0 {
      AloneEnds(Step(s, t, Go), t, k - 1, x, l - 1, y);
    }
  }

  // There is only one state it can lead to.
  lemma LeadsToOne(s: Rw, t: TaskId, a: Action, x: Rw, y: Rw)
    requires Leads(s, t, a, x) && Leads(s, t, a, y)
    ensures x == y
  {
    hide Step, Waits;
    var k :| Alone(Step(s, t, a), t, k, x);
    var l :| Alone(Step(s, t, a), t, l, y);
    AloneEnds(Step(s, t, a), t, k, x, l, y);
  }

  // Nobody is inside a section of the lock's mutex, and t may start or go on.
  ghost predicate Quiet(s: Rw, t: TaskId) {
    && !s.m.locked && s.m.owner == None && s.m.queue == [] && t !in s.readers && t !in s.writers
    && t in s.pc && (s.pc[t].Idle? || s.pc[t].RRelock? || s.pc[t].WRelock?)
  }

  // n as a signed 32-bit integer.
  function Signed(n: int): int {
    (n + 0x8000_0000) % W32 - 0x8000_0000
  }

  // t holds the lock for reading once more.
  ghost predicate GotRead(s: Rw, t: TaskId, s': Rw) {
    s' == s.(count := Signed(s.count + 1), reading := s.reading + multiset{t}, pc := s.pc[t := Idle],
             wrapped := s.wrapped || s.count == MAX_INT)
  }

  // t holds the lock for writing.
  ghost predicate GotWrite(s: Rw, t: TaskId, s': Rw) {
    s' == s.(active := true, owner := Some(t), writing := s.writing + {t}, pc := s.pc[t := Idle])
  }

  // What a call leaves: whoever cannot have the lock waits last in its queue,
  // or is refused; a read lock given back wakes the first waiting writer once
  // the counter is 0; a write lock given back by its owner leaves nobody
  // writing, wakes the first waiting writer and all waiting readers; given
  // back by anybody else it leaves everything as it was.
  ghost predicate Leaves(s: Rw, t: TaskId, a: Action, s': Rw)
    requires t in s.pc
  {
    match a
    case ReadTry => if s.active then s' == s else GotRead(s, t, s')
    case WriteTry => if s.active || s.count > 0 then s' == s else GotWrite(s, t, s')
    case ReadUnlock =>
      var count := Signed(s.count - 1);
      s' == s.(count := count, reading := s.reading - multiset{t},
               writers := if count == 0 && s.writers != [] then s.writers[1..] else s.writers,
               misused := s.misused + if t in s.reading then 0 else 1,
               wrapped := s.wrapped || s.count == -0x8000_0000)
    case WriteUnlock =>
      s' == if s.owner == Some(t)
            then s.(active := false, owner := None, writing := s.writing - {t}, readers := [],
                    writers := if s.writers != [] then s.writers[1..] else [])
            else s
    case _ =>
      if a.ReadLock? || s.pc[t].RRelock? then
        if s.active then s' == s.(readers := s.readers + [t], pc := s.pc[t := RRelock]) else GotRead(s, t, s')
      else if s.active || s.count > 0 then s' == s.(writers := s.writers + [t], pc := s.pc[t := WRelock])
      else GotWrite(s, t, s')
  }

  // t owns the mutex of s and is at p.
  ghost function In(s: Rw, t: TaskId, p: Pc): Rw {
    s.(m := s.m.(locked := true, owner := Some(t)), pc := s.pc[t := p])
  }

  lemma AloneCons(s: Rw, t: TaskId, k: nat, s': Rw)
    requires Can(s, t, Go) && Alone(Step(s, t, Go), t, k, s')
    ensures Alone(s, t, k + 1, s')
  {
    hide Step, Can;
  }

  lemma AlonePc(s: Rw, t: TaskId, p: Pc, q: Pc)
    requires t in s.pc
    ensures s.pc[t := p][t := q] == s.pc[t := q] && (s.pc[t] == q ==> s.pc[t := q] == s.pc)
  {
  }

  lemma Enters(s: Rw, t: TaskId, a: Action)
    requires Quiet(s, t) && (a.Go? <==> !s.pc[t].Idle?)
    ensures Can(s, t, a)
    ensures Step(s, t, a) == In(s, t, match a
              case ReadLock => RTest case ReadTry => RTryTest case ReadUnlock => RUDec
              case WriteLock => WTest case WriteTry => WTryTest case WriteUnlock => WUTest
              case Go => if s.pc[t].RRelock? then RTest else WTest)
  {
  }

  // The last step of a call.
  lemma Exits(s: Rw, t: TaskId, p: Pc)
    requires Quiet(s, t) && (p.RExit? || p.TryFail? || p.RUExit? || p.WExit? || p.WUExit?)
    ensures Alone(In(s, t, p), t, 1, s.(pc := s.pc[t := Idle]))
  {
    AlonePc(s, t, p, Idle);
    var b, r := In(s, t, p), s.(pc := s.pc[t := Idle]);
    assert Can(b, t, Go) && Step(b, t, Go) == r;
    hide Can, Step;
    assert Alone(r, t, 0, r);
    AloneCons(b, t, 0, r);
  }

  lemma Parks(s: Rw, t: TaskId, p: Pc)
    requires Quiet(s, t) && (p.RWait? || p.WWait?)
    ensures Alone(In(s, t, p), t, 1, if p.RWait? then s.(readers := s.readers + [t], pc := s.pc[t := RRelock])
                                     else s.(writers := s.writers + [t], pc := s.pc[t := WRelock]))
  {
    AlonePc(s, t, p, if p.RWait? then RRelock else WRelock);
    var b := In(s, t, p);
    var r := Step(b, t, Go);
    assert Can(b, t, Go) && r == if p.RWait? then s.(readers := s.readers + [t], pc := s.pc[t := RRelock])
                                 else s.(writers := s.writers + [t], pc := s.pc[t := WRelock]);
    hide Can, Step;
    assert Alone(r, t, 0, r);
    AloneCons(b, t, 0, r);
  }

  // A step inside that keeps the mutex: r has the fields as they are then.
  lemma Inner(s: Rw, t: TaskId, p: Pc, r: Rw, q: Pc, k: nat, s': Rw)
    requires Quiet(s, t) && Inside(p) && Step(In(s, t, p), t, Go) == In(r, t, q) && Alone(In(r, t, q), t, k, s')
    ensures Alone(In(s, t, p), t, k + 1, s')
  {
    assert Can(In(s, t, p), t, Go);
    hide Can, Step;
    AloneCons(In(s, t, p), t, k, s');
  }

  lemma ReadTests(s: Rw, t: TaskId, p: Pc)
    requires Quiet(s, t) && (p.RTest? || p.RTryTest?)
    ensures Step(In(s, t, p), t, Go) == In(s, t, if !s.active then RInc else if p.RTest? then RWait else TryFail)
  {
    AlonePc(s, t, p, if !s.active then RInc else if p.RTest? then RWait else TryFail);
  }

  lemma WriteTests(s: Rw, t: TaskId, p: Pc)
    requires Quiet(s, t) && (p.WTest? || p.WTryTest?)
    ensures Step(In(s, t, p), t, Go) ==
            In(s, t, if !s.active && s.count <= 0 then WSet else if p.WTest? then WWait else TryFail)
  {
    AlonePc(s, t, p, if !s.active && s.count <= 0 then WSet else if p.WTest? then WWait else TryFail);
  }

  lemma ReadGranted(s: Rw, t: TaskId, r: Rw)
    requires Quiet(s, t) && -0x8000_0000 <= s.count <= MAX_INT && GotRead(s, t, r)
    ensures Alone(In(s, t, RInc), t, 2, r)
  {
    var got := r.(pc := s.pc);
    AlonePc(s, t, RInc, RExit);
    assert Step(In(s, t, RInc), t, Go) == In(got, t, RExit);
    hide Step, Can;
    Exits(got, t, RExit);
    Inner(s, t, RInc, got, RExit, 1, r);
  }

  lemma WriteGranted(s: Rw, t: TaskId, r: Rw)
    requires Quiet(s, t) && GotWrite(s, t, r)
    ensures Alone(In(s, t, WSet), t, 2, r)
  {
    var got := r.(pc := s.pc);
    AlonePc(s, t, WSet, WExit);
    assert Step(In(s, t, WSet), t, Go) == In(got, t, WExit);
    hide Step, Can;
    Exits(got, t, WExit);
    Inner(s, t, WSet, got, WExit, 1, r);
  }

  lemma ReadSide(s: Rw, t: TaskId, p: Pc) returns (r: Rw)
    requires Quiet(s, t) && (p.RTest? || p.RTryTest?) && -0x8000_0000 <= s.count <= MAX_INT
    ensures exists k :: Alone(In(s, t, p), t, k, r)
    ensures if !s.active then GotRead(s, t, r)
            else if p.RTest? then r == s.(readers := s.readers + [t], pc := s.pc[t := RRelock])
            else r == s.(pc := s.pc[t := Idle])
  {
    hide Step, Can, Alone;
    ReadTests(s, t, p);
    if !s.active {
      r := s.(count := Signed(s.count + 1), reading := s.reading + multiset{t}, pc := s.pc[t := Idle],
              wrapped := s.wrapped || s.count == MAX_INT);
      ReadGranted(s, t, r);
      Inner(s, t, p, s, RInc, 2, r);
    } else if p.RTest? {
      r := s.(readers := s.readers + [t], pc := s.pc[t := RRelock]);
      Parks(s, t, RWait);
      Inner(s, t, p, s, RWait, 1, r);
    } else {
      r := s.(pc := s.pc[t := Idle]);
      Exits(s, t, TryFail);
      Inner(s, t, p, s, TryFail, 1, r);
    }
  }

  lemma WriteSide(s: Rw, t: TaskId, p: Pc) returns (r: Rw)
    requires Quiet(s, t) && (p.WTest? || p.WTryTest?)
    ensures exists k :: Alone(In(s, t, p), t, k, r)
    ensures if !s.active && s.count <= 0 then GotWrite(s, t, r)
            else if p.WTest? then r == s.(writers := s.writers + [t], pc := s.pc[t := WRelock])
            else r == s.(pc := s.pc[t := Idle])
  {
    hide Step, Can, Alone;
    WriteTests(s, t, p);
    if !s.active && s.count <= 0 {
      r := s.(active := true, owner := Some(t), writing := s.writing + {t}, pc := s.pc[t := Idle]);
      WriteGranted(s, t, r);
      Inner(s, t, p, s, WSet, 2, r);
    } else if p.WTest? {
      r := s.(writers := s.writers + [t], pc := s.pc[t := WRelock]);
      Parks(s, t, WWait);
      Inner(s, t, p, s, WWait, 1, r);
    } else {
      r := s.(pc := s.pc[t := Idle]);
      Exits(s, t, TryFail);
      Inner(s, t, p, s, TryFail, 1, r);
    }
  }

  lemma Woken(s: Rw, t: TaskId, r: Rw)
    requires Quiet(s, t) && r == s.(writers := if s.writers != [] then s.writers[1..] else [], pc := s.pc[t := Idle])
    ensures Alone(In(s, t, RUSignal), t, 2, r)
  {
    var woken := r.(pc := s.pc);
    AlonePc(s, t, RUSignal, RUExit);
    assert Step(In(s, t, RUSignal), t, Go) == In(woken, t, RUExit);
    hide Step, Can;
    Exits(woken, t, RUExit);
    Inner(s, t, RUSignal, woken, RUExit, 1, r);
  }

  lemma ReadBack(s: Rw, t: TaskId, r: Rw)
    requires Quiet(s, t) && s.pc[t].Idle? && -0x8000_0000 <= s.count <= MAX_INT && Leaves(s, t, ReadUnlock, r)
    ensures exists k :: Alone(In(s, t, RUDec), t, k, r)
  {
    var less := r.(writers := s.writers);
    var q := if less.count == 0 then RUSignal else RUExit;
    AlonePc(s, t, RUDec, q);
    AlonePc(s, t, RUDec, Idle);
    assert Step(In(s, t, RUDec), t, Go) == In(less, t, q);
    hide Step, Can, Alone;
    if less.count == 0 {
      Woken(less, t, r);
      Inner(s, t, RUDec, less, RUSignal, 2, r);
    } else {
      Exits(less, t, RUExit);
      Inner(s, t, RUDec, less, RUExit, 1, r);
    }
  }

  lemma WokenAll(s: Rw, t: TaskId, r: Rw)
    requires Quiet(s, t)
    requires r == s.(writers := if s.writers != [] then s.writers[1..] else [], readers := [], pc := s.pc[t := Idle])
    ensures Alone(In(s, t, WUSignal), t, 3, r)
  {
    var one, all := r.(pc := s.pc, readers := s.readers), r.(pc := s.pc);
    AlonePc(s, t, WUSignal, WUBroadcast);
    AlonePc(s, t, WUBroadcast, WUExit);
    assert Step(In(s, t, WUSignal), t, Go) == In(one, t, WUBroadcast);
    assert Step(In(one, t, WUBroadcast), t, Go) == In(all, t, WUExit);
    hide Step, Can, Alone;
    Exits(all, t, WUExit);
    Inner(one, t, WUBroadcast, all, WUExit, 1, r);
    Inner(s, t, WUSignal, one, WUBroadcast, 2, r);
  }

  lemma WriteBack(s: Rw, t: TaskId, r: Rw)
    requires Quiet(s, t) && s.pc[t].Idle? && Leaves(s, t, WriteUnlock, r)
    ensures exists k :: Alone(In(s, t, WUTest), t, k, r)
  {
    AlonePc(s, t, WUTest, WUSignal);
    AlonePc(s, t, WUTest, WUExit);
    AlonePc(s, t, WUTest, Idle);
    if s.owner == Some(t) {
      var free := r.(readers := s.readers, writers := s.writers);
      assert Step(In(s, t, WUTest), t, Go) == In(free, t, WUSignal);
      hide Step, Can, Alone;
      WokenAll(free, t, r);
      Inner(s, t, WUTest, free, WUSignal, 3, r);
    } else {
      assert Step(In(s, t, WUTest), t, Go) == In(s, t, WUExit);
      hide Step, Can, Alone;
      Exits(s, t, WUExit);
      Inner(s, t, WUTest, s, WUExit, 1, r);
    }
  }

  // What every call does, made by any task whatever it holds, while nobody
  // is inside.
  lemma CallAlone(s: Rw, t: TaskId, a: Action) returns (s': Rw)
    requires Quiet(s, t) && (a.Go? <==> !s.pc[t].Idle?) && -0x8000_0000 <= s.count <= MAX_INT
    ensures Leads(s, t, a, s') && Leaves(s, t, a, s')
  {
    hide Step, Can, Alone;
    Enters(s, t, a);
    AlonePc(s, t, Idle, Idle);
    match a
    case ReadLock => s' := ReadSide(s, t, RTest);
    case ReadTry => s' := ReadSide(s, t, RTryTest);
    case WriteLock => s' := WriteSide(s, t, WTest);
    case WriteTry => s' := WriteSide(s, t, WTryTest);
    case ReadUnlock =>
      var count := Signed(s.count - 1);
      s' := s.(count := count, reading := s.reading - multiset{t},
               writers := if count == 0 && s.writers != [] then s.writers[1..] else s.writers,
               misused := s.misused + if t in s.reading then 0 else 1,
               wrapped := s.wrapped || s.count == -0x8000_0000);
      ReadBack(s, t, s');
    case WriteUnlock =>
      s' := if s.owner == Some(t)
            then s.(active := false, owner := None, writing := s.writing - {t}, readers := [],
                    writers := if s.writers != [] then s.writers[1..] else [])
            else s;
      WriteBack(s, t, s');
    case Go => if s.pc[t].RRelock? { s' := ReadSide(s, t, RTest); } else { s' := WriteSide(s, t, WTest); }
  }

  // While somebody is inside, a trylock is refused at once.
  lemma TryBusy(s: Rw, t: TaskId, a: Action)
    requires Can(s, t, a) && (a.ReadTry? || a.WriteTry?) && s.m.locked
    ensures Leads(s, t, a, s)
  {
    assert Step(s, t, a) == s && Alone(Step(s, t, a), t, 0, s);
  }

  // ---------- runs ----------

  lemma Next(n: nat, s: Rw, t: TaskId, a: Action)
    requires Reaches(n, s) && Can(s, t, a)
    ensures Reaches(n + 1, Step(s, t, a))
  {
  }

  lemma {:induction false} AloneReached(n: nat, s: Rw, t: TaskId, k: nat, s': Rw)
    requires Reaches(n, s) && Alone(s, t, k, s')
    ensures Reaches(n + k, s')
    decreases k
  {
    hide Step, Can, Reaches;
    if k > 0 {
      Next(n, s, t, Go);
      AloneReached(n + 1, Step(s, t, Go), t, k - 1, s');
    }
  }

  lemma CountFits(n: nat, s: Rw)
    requires Reaches(n, s)
    ensures -0x8000_0000 <= s.count <= MAX_INT
  {
    RunsKeepInv(n, s);
    hide Reaches, MutexInv, ReadersServed, WritersServed;
  }

  // In every state some run leads to, a call nobody interferes with leaves
  // what Leaves says, and a run leads there.
  lemma CallReached(n: nat, s: Rw, t: TaskId, a: Action) returns (m: nat, s': Rw)
    requires Reaches(n, s) && Quiet(s, t) && (a.Go? <==> !s.pc[t].Idle?)
    ensures Leads(s, t, a, s') && Leaves(s, t, a, s') && Reaches(m, s')
  {
    hide Step, Can, Alone, Reaches, Leaves;
    CountFits(n, s);
    s' := CallAlone(s, t, a);
    var k :| Alone(Step(s, t, a), t, k, s');
    Next(n, s, t, a);
    AloneReached(n + 1, Step(s, t, a), t, k, s');
    m := n + 1 + k;
  }

  // Task 0 reads; task 1, which does not, unlocks; then task 2 writes while
  // task 0 still reads.
  lemma UnlockedByAnother() returns (n: nat, s: Rw)
    ensures Reaches(n, s) && !s.wrapped && s.misused == 1 && s.reading == multiset{0} && s.writing == {2}
  {
    hide Step, Can, Alone, Leads;
    var s0 := Rw(NewMutex(), [], [], 0, false, None, map[0 := Idle, 1 := Idle, 2 := Idle], multiset{}, {}, 0, false);
    assert Reaches(0, s0);
    var a, b;
    n, a := CallReached(0, s0, 0, ReadLock);
    n, b := CallReached(n, a, 1, ReadUnlock);
    n, s := CallReached(n, b, 2, WriteLock);
  }

  // ---------- a writer lets go ----------

  // n steps of any tasks lead from s to s'.
  ghost predicate Later(n: nat, s: Rw, s': Rw) {
    if n == 0 then s' == s else exists t, a :: Can(s, t, a) && Later(n - 1, Step(s, t, a), s')
  }

  lemma LaterNone(s: Rw)
    ensures Later(0, s, s)
  {
  }

  lemma LaterCons(n: nat, s: Rw, t: TaskId, a: Action, s': Rw)
    requires Can(s, t, a) && Later(n, Step(s, t, a), s')
    ensures Later(n + 1, s, s')
  {
  }

  // Steps a section still takes at most.
  function Rank(p: Pc): nat {
    match p
    case WUTest => 4
    case RTest | RTryTest | WTest | WTryTest | RUDec | WUSignal => 3
    case RInc | WSet | RUSignal | WUBroadcast => 2
    case _ => 1
  }

  // Nobody else takes the lock from the writer, or gives it back.
  lemma WriterStays(s: Rw, t: TaskId, u: TaskId)
    requires HolderInv(s) && Can(s, u, Go) && s.owner == Some(t) && u != t
    ensures Step(s, u, Go).owner == Some(t) && Step(s, u, Go).writing == s.writing
  {
    assert Knows(s.pc[u], s.active, s.count);
    if !WritesField(s, u, Go) {
      QuietStep(s, u, Go);
    }
  }

  // The steps that let the mutex go.
  predicate LetsGo(p: Pc) {
    p.RExit? || p.TryFail? || p.RUExit? || p.WExit? || p.WUExit? || p.RWait? || p.WWait?
  }

  lemma HandsOn(s: Rw, u: TaskId)
    requires Can(s, u, Go) && LetsGo(s.pc[u]) && s.m.owner == Some(u) && s.m.queue != []
    ensures Step(s, u, Go).m == s.m.(owner := Some(s.m.queue[0]), queue := s.m.queue[1..])
  {
  }

  lemma ComesCloser(s: Rw, u: TaskId)
    requires Can(s, u, Go) && Inside(s.pc[u]) && !LetsGo(s.pc[u])
    ensures u in Step(s, u, Go).pc && Rank(Step(s, u, Go).pc[u]) < Rank(s.pc[u])
  {
    hide Acquire, Release, Get, GiveBack;
  }

  // A section comes closer to its end, or hands the mutex on.
  lemma SectionStep(s: Rw, u: TaskId)
    requires u in s.pc && Can(s, u, Go) && Inside(s.pc[u]) && s.m.owner == Some(u) && s.m.queue != []
    ensures var s' := Step(s, u, Go);
            || (s'.m == s.m && u in s'.pc && Rank(s'.pc[u]) < Rank(s.pc[u]))
            || s'.m == s.m.(owner := Some(s.m.queue[0]), queue := s.m.queue[1..])
  {
    hide Step, Can, Rank;
    if LetsGo(s.pc[u]) {
      HandsOn(s, u);
    } else {
      StaysInside(s, u);
      ComesCloser(s, u);
    }
  }

  // One step of whoever owns the mutex before t does.
  lemma Ahead(s: Rw, t: TaskId) returns (u: TaskId)
    requires Inv(s) && t in s.m.queue && t in s.pc && s.pc[t].WUTest? && s.owner == Some(t)
    ensures s.m.owner == Some(u) && Can(s, u, Go)
    ensures var s' := Step(s, u, Go);
            && Inv(s') && s'.owner == Some(t) && s'.writing == s.writing && t in s'.pc && s'.pc[t].WUTest?
            && (t in s'.m.queue || s'.m.owner == Some(t))
            && (|s'.m.queue| < |s.m.queue|
                || (s'.m == s.m && u in s'.pc && u in s.pc && Rank(s'.pc[u]) < Rank(s.pc[u])))
  {
    u := s.m.owner.value;
    assert u != t && !Waits(s, u) && Can(s, u, Go) && Inside(s.pc[u]);
    hide MutexInv, Step, Can, Waits, ReadersServed, WritersServed, Knows, Rank;
    WriterStays(s, t, u);
    SectionStep(s, u);
    InvStep(s, u, Go);
    OneMoves(s, u, Go);
    assert s.m.queue == [s.m.queue[0]] + s.m.queue[1..];
  }

  lemma LastStep(s: Rw, t: TaskId)
    requires Inv(s) && t in s.pc && s.pc[t].WUTest? && s.owner == Some(t) && s.m.owner == Some(t)
    ensures Can(s, t, Go) && Step(s, t, Go).writing == {} && !Step(s, t, Go).active
  {
    hide ReadersServed, WritersServed;
  }

  lemma Drains(s: Rw, t: TaskId) returns (k: nat, s': Rw)
    requires Inv(s) && t in s.pc && s.pc[t].WUTest? && s.owner == Some(t) && (t in s.m.queue || s.m.owner == Some(t))
    ensures Later(k, s, s') && s'.writing == {} && !s'.active
    decreases |s.m.queue|, if s.m.owner.Some? && s.m.owner.value in s.pc then Rank(s.pc[s.m.owner.value]) else 0
  {
    hide Step, Can, Later, Inv, Rank;
    if s.m.owner == Some(t) {
      LastStep(s, t);
      s' := Step(s, t, Go);
      k := 1;
      LaterNone(s');
      LaterCons(0, s, t, Go, s');
    } else {
      var u := Ahead(s, t);
      k, s' := Drains(Step(s, u, Go), t);
      LaterCons(k, s, u, Go, s');
      k := k + 1;
    }
  }

  // Whoever holds the lock for writing and calls its unlock, in any state
  // some run leads to: there are steps after which nobody writes.
  lemma WriterLetsGo(n: nat, s: Rw, t: TaskId) returns (k: nat, s': Rw)
    requires Reaches(n, s) && t in s.writing && t in s.pc && s.pc[t].Idle?
    ensures Can(s, t, WriteUnlock) && Later(k, Step(s, t, WriteUnlock), s') && s'.writing == {} && !s'.active
  {
    RunsKeepInv(n, s);
    assert Can(s, t, WriteUnlock);
    InvStep(s, t, WriteUnlock);
    hide Reaches, Inv, Later, ReadersServed, WritersServed;
    k, s' := Drains(Step(s, t, WriteUnlock), t);
  }

  // ---------- what the calls of a run add up to ----------

  // A call that has come back with, or given back, the lock.
  datatype Event = ReadGot(t: TaskId) | ReadGiven(t: TaskId) | WriteGot(t: TaskId) | WriteGiven(t: TaskId)

  // What a task at p has done and not yet come back with.
  ghost function Done(p: Pc, t: TaskId): seq<Event> {
    match p
    case RExit => [ReadGot(t)]
    case RUSignal | RUExit => [ReadGiven(t)]
    case WExit => [WriteGot(t)]
    case WUSignal | WUBroadcast | WUExit => [WriteGiven(t)]
    case _ => []
  }

  // Runs of n steps that lead to s, with the calls that have come back.
  ghost predicate Logs(n: nat, log: seq<Event>, s: Rw) {
    if n == 0 then Initial(s) && log == []
    else exists p, before, t, a ::
      Logs(n - 1, before, p) && Can(p, t, a) && s == Step(p, t, a) && log == before + Returned(p, t, s)
  }

  // The step from p to s takes t out of its call.
  ghost function Returned(p: Rw, t: TaskId, s: Rw): seq<Event> {
    if t in p.pc && t in s.pc && s.pc[t].Idle? then Done(p.pc[t], t) else []
  }

  // Read locks granted, less those given back by tasks that held one.
  ghost function Readers(log: seq<Event>): multiset<TaskId> {
    if log == [] then multiset{}
    else
      var before, e := Readers(log[..|log| - 1]), log[|log| - 1];
      if e.ReadGot? then before + multiset{e.t} else if e.ReadGiven? then before - multiset{e.t} else before
  }

  ghost function Writers(log: seq<Event>): set<TaskId> {
    if log == [] then {}
    else
      var before, e := Writers(log[..|log| - 1]), log[|log| - 1];
      if e.WriteGot? then before + {e.t} else if e.WriteGiven? then before - {e.t} else before
  }

  lemma OneMore(log: seq<Event>, e: Event)
    ensures Readers(log + [e]) ==
            if e.ReadGot? then Readers(log) + multiset{e.t}
            else if e.ReadGiven? then Readers(log) - multiset{e.t} else Readers(log)
    ensures Writers(log + [e]) ==
            if e.WriteGot? then Writers(log) + {e.t} else if e.WriteGiven? then Writers(log) - {e.t} else Writers(log)
    ensures Readers(log + []) == Readers(log) && Writers(log + []) == Writers(log)
  {
    assert (log + [e])[..|log|] == log && log + [] == log;
  }

  // What the owner of the mutex has done.
  ghost function Pending(s: Rw): seq<Event> {
    if s.m.owner.Some? && s.m.owner.value in s.pc then Done(s.pc[s.m.owner.value], s.m.owner.value) else []
  }

  ghost predicate Adds(log: seq<Event>, s: Rw) {
    s.reading == Readers(log + Pending(s)) && s.writing == Writers(log + Pending(s))
  }

  // A step of a task outside comes back with nothing.
  lemma OutsideStep(s: Rw, t: TaskId, a: Action)
    requires MutexInv(s) && Can(s, t, a) && !Inside(s.pc[t])
    ensures var s' := Step(s, t, a);
            && Returned(s, t, s') == [] && Pending(s') == Pending(s)
            && s'.reading == s.reading && s'.writing == s.writing
  {
  }

  // A task that lets the mutex go comes back with what it has done, and its
  // successor has done nothing.
  lemma ExitStep(s: Rw, t: TaskId)
    requires MutexInv(s) && Can(s, t, Go) && LetsGo(s.pc[t]) && s.m.owner == Some(t)
    ensures var s' := Step(s, t, Go);
            && Returned(s, t, s') == Done(s.pc[t], t) == Pending(s) && Pending(s') == []
            && s'.reading == s.reading && s'.writing == s.writing
  {
  }

  // The four steps that grant the lock or give it back.
  lemma ReadFieldStep(s: Rw, t: TaskId)
    requires Can(s, t, Go) && (s.pc[t].RInc? || s.pc[t].RUDec?)
    ensures var s' := Step(s, t, Go);
            && t in s'.pc && !s'.pc[t].Idle? && s'.m == s.m && s'.writing == s.writing && Done(s.pc[t], t) == []
            && Done(s'.pc[t], t) == [if s.pc[t].RInc? then ReadGot(t) else ReadGiven(t)]
            && s'.reading == if s.pc[t].RInc? then s.reading + multiset{t} else s.reading - multiset{t}
  {
    hide Acquire, Release, Try;
  }

  lemma WriteFieldStep(s: Rw, t: TaskId)
    requires HolderInv(s) && Can(s, t, Go) && (s.pc[t].WSet? || s.pc[t].WUTest?)
    ensures var s' := Step(s, t, Go);
            && t in s'.pc && !s'.pc[t].Idle? && s'.m == s.m && s'.reading == s.reading && Done(s.pc[t], t) == []
            && Done(s'.pc[t], t) == [if s.pc[t].WSet? then WriteGot(t) else WriteGiven(t)]
            && s'.writing == if s.pc[t].WSet? then s.writing + {t} else s.writing - {t}
  {
    hide Acquire, Release, Try, Get, GiveBack;
  }

  lemma PlainStep(s: Rw, t: TaskId)
    requires Can(s, t, Go) && Inside(s.pc[t]) && !LetsGo(s.pc[t]) && !WritesField(s, t, Go)
    ensures var s' := Step(s, t, Go); t in s'.pc && !s'.pc[t].Idle? && Done(s'.pc[t], t) == Done(s.pc[t], t)
  {
    hide Get, GiveBack, Release, Acquire;
  }

  // One that stays inside has done more or not.
  lemma InsideStep(s: Rw, t: TaskId)
    requires HolderInv(s) && Can(s, t, Go) && Inside(s.pc[t]) && !LetsGo(s.pc[t]) && s.m.owner == Some(t)
    ensures var s' := Step(s, t, Go);
            && Returned(s, t, s') == []
            && (if !WritesField(s, t, Go) then Pending(s') == Pending(s) else
                  Pending(s) == [] && Pending(s') == [if s.pc[t].RInc? then ReadGot(t)
                    else if s.pc[t].RUDec? then ReadGiven(t) else if s.pc[t].WSet? then WriteGot(t) else WriteGiven(t)])
            && s'.reading == (if s.pc[t].RInc? then s.reading + multiset{t}
                              else if s.pc[t].RUDec? then s.reading - multiset{t} else s.reading)
            && s'.writing == (if s.pc[t].WSet? then s.writing + {t}
                              else if s.pc[t].WUTest? then s.writing - {t} else s.writing)
  {
    assert Knows(s.pc[t], s.active, s.count);
    hide Step, Can, HolderInv, Done;
    if s.pc[t].RInc? || s.pc[t].RUDec? {
      ReadFieldStep(s, t);
    } else if s.pc[t].WSet? || s.pc[t].WUTest? {
      WriteFieldStep(s, t);
    } else {
      PlainStep(s, t);
      StaysInside(s, t);
      QuietStep(s, t, Go);
    }
  }

  lemma AddsStep(log: seq<Event>, s: Rw, t: TaskId, a: Action)
    requires Inv(s) && Can(s, t, a) && Adds(log, s)
    ensures Adds(log + Returned(s, t, Step(s, t, a)), Step(s, t, a))
  {
    var s' := Step(s, t, a);
    if !Inside(s.pc[t]) {
      hide Step, Can, Inv;
      OutsideStep(s, t, a);
      assert log + [] == log;
    } else {
      Sole(s, t);
      assert a.Go?;
      hide Step, Can, MutexInv, HolderInv, Done, Pending;
      if LetsGo(s.pc[t]) {
        ExitStep(s, t);
        assert (log + Returned(s, t, s')) + [] == log + Pending(s);
      } else {
        InsideStep(s, t);
        assert log + [] == log;
        if Pending(s') != Pending(s) {
          OneMore(log, Pending(s')[0]);
        }
      }
    }
  }

  lemma {:induction false} LogReached(n: nat, log: seq<Event>, s: Rw)
    requires Logs(n, log, s)
    ensures Reaches(n, s)
  {
    hide Step, Can, Initial;
    if n > 0 {
      var p, before, t, a :| Logs(n - 1, before, p) && Can(p, t, a) && s == Step(p, t, a)
                             && log == before + Returned(p, t, s);
      LogReached(n - 1, before, p);
    }
  }

  lemma {:induction false} RunsAddUp(n: nat, log: seq<Event>, s: Rw)
    requires Logs(n, log, s)
    ensures Adds(log, s)
  {
    hide Step, Can, Initial, Adds, Inv;
    if n == 0 {
      NothingYet(s);
    } else {
      var p, before, t, a :| Logs(n - 1, before, p) && Can(p, t, a) && s == Step(p, t, a)
                             && log == before + Returned(p, t, s);
      RunsAddUp(n - 1, before, p);
      LogReached(n - 1, before, p);
      RunsKeepInv(n - 1, p);
      AddsStep(before, p, t, a);
    }
  }

  lemma NothingYet(s: Rw)
    requires Initial(s)
    ensures Adds([], s)
  {
  }

  // Over every run, whenever nobody is inside: the read locks held are those
  // granted less those given back, and so is the write lock.
  lemma HeldIsGranted(n: nat, log: seq<Event>, s: Rw)
    requires Logs(n, log, s) && !s.m.locked
    ensures s.reading == Readers(log) && s.writing == Writers(log)
  {
    LogReached(n, log, s);
    RunsKeepInv(n, s);
    RunsAddUp(n, log, s);
    assert log + [] == log;
  }
}
