// Wakeups between the readers and writers of a pipe (src/pipe.c:70-169): one
// signal for every region that moves bytes.  A region is what a caller does
// from owning the lock until it waits or leaves.
module PipeWakeups {
  import opened Common
  import opened Waiters
  import opened Pipe

  // size of the ring, and how many tasks read and write.
  datatype Setting = Setting(size: nat, readers: nat, writers: nat)

  // What a waiting or signalled task still wants to move is in want.
  datatype State = State(count: nat, readers: Waiters, writers: Waiters, wantRead: map<TaskId, nat>,
                         wantWrite: map<TaskId, nat>)

  const START := State(0, NOBODY, NOBODY, map[], map[])

  // A region of reader or writer t; n is what it wants if it begins a call.
  datatype Event = Read(t: TaskId, n: nat) | Write(t: TaskId, n: nat)

  function Left(want: map<TaskId, nat>, w: Waiters, t: TaskId, n: nat): nat {
    if t in w.signalled && t in want then want[t] else n
  }

  ghost predicate Can(s: State, e: Event, c: Setting) {
    match e
    case Read(t, _) => t < c.readers && t !in s.readers.queue
    case Write(t, _) => t < c.writers && t !in s.writers.queue && s.count <= c.size
  }

  function Step(s: State, e: Event, c: Setting): State
    requires s.count <= c.size
  {
    match e
    case Read(t, n) =>
      var want := Left(s.wantRead, s.readers, t, n);
      var k := Min(want, s.count);
      State(s.count - k,
            if k < want then Wait(s.readers, t) else Run(s.readers, t),
            if k > 0 then Signal(s.writers) else s.writers,
            s.wantRead[t := want - k], s.wantWrite)
    case Write(t, n) =>
      var want := Left(s.wantWrite, s.writers, t, n);
      var k := Min(want, c.size - s.count);
      State(s.count + k,
            if k > 0 then Signal(s.readers) else s.readers,
            if k < want then Wait(s.writers, t) else Run(s.writers, t),
            s.wantRead, s.wantWrite[t := want - k])
  }

  ghost predicate Reaches(c: Setting, n: nat, s: State) {
    if n == 0 then s == START
    else exists p, e :: Reaches(c, n - 1, p) && p.count <= c.size && Can(p, e, c) && s == Step(p, e, c)
  }

  // Whoever waits has nothing to do, or somebody who was signalled is about
  // to look.
  ghost predicate NoneLost(s: State, c: Setting) {
    && (s.readers.queue != [] ==> s.count == 0 || s.readers.signalled != {})
    && (s.writers.queue != [] ==> s.count == c.size || s.writers.signalled != {})
  }

  ghost predicate NeverLost(c: Setting) {
    forall n, s | Reaches(c, n, s) :: NoneLost(s, c)
  }

  // One reader and one writer; or nobody on one side; or bytes that move one
  // at a time.
  predicate Enough(c: Setting) {
    (c.readers <= 1 && c.writers <= 1) || c.readers == 0 || c.writers == 0 || c.size <= 1
  }

  // Whoever waits or is signalled wants something.
  ghost predicate Wanting(w: Waiters, want: map<TaskId, nat>) {
    forall t | t in w.queue || t in w.signalled :: t in want && want[t] > 0
  }

  ghost predicate Inv(s: State, c: Setting) {
    && s.count <= c.size && Sound(s.readers, c.readers) && Sound(s.writers, c.writers)
    && Wanting(s.readers, s.wantRead) && Wanting(s.writers, s.wantWrite)
    && NoneLost(s, c)
    && (c.writers == 0 ==> s.count == 0)
    && (c.readers <= 1 && s.readers.queue != [] ==> s.count == 0)
    && (c.writers <= 1 && s.writers.queue != [] ==> s.count == c.size)
    && (c.readers == 0 && s.writers.queue != [] ==> s.count == c.size)
  }

  lemma SignalWanting(w: Waiters, want: map<TaskId, nat>)
    requires Wanting(w, want)
    ensures Wanting(Signal(w), want)
  {
  }

  lemma RanWanting(w: Waiters, want: map<TaskId, nat>, t: TaskId, left: nat)
    requires Wanting(w, want) && t !in w.queue
    ensures left > 0 ==> Wanting(Wait(w, t), want[t := left])
    ensures Wanting(Run(w, t), want[t := left])
    ensures t in w.signalled ==> t in want && want[t] > 0
  {
  }

  lemma ReadKeeps(s: State, t: TaskId, n: nat, c: Setting)
    requires Enough(c) && Inv(s, c) && Can(s, Read(t, n), c)
    ensures Inv(Step(s, Read(t, n), c), c)
  {
    hide Sound, Signal, Wanting;
    var want := Left(s.wantRead, s.readers, t, n);
    SignalSound(s.writers, c.writers);
    SignalWanting(s.writers, s.wantWrite);
    WaitSound(s.readers, t, c.readers);
    RanWanting(s.readers, s.wantRead, t, want - Min(want, s.count));
    if c.writers <= 1 {
      Alone(s.writers, c.writers);
    }
  }

  lemma WriteKeeps(s: State, t: TaskId, n: nat, c: Setting)
    requires Enough(c) && Inv(s, c) && Can(s, Write(t, n), c)
    ensures Inv(Step(s, Write(t, n), c), c)
  {
    hide Sound, Signal, Wanting;
    var want := Left(s.wantWrite, s.writers, t, n);
    SignalSound(s.readers, c.readers);
    SignalWanting(s.readers, s.wantRead);
    WaitSound(s.writers, t, c.writers);
    RanWanting(s.writers, s.wantWrite, t, want - Min(want, c.size - s.count));
    if c.readers <= 1 {
      Alone(s.readers, c.readers);
    }
  }

  lemma {:induction false} RunsKeepInv(c: Setting, n: nat, s: State)
    requires Enough(c) && Reaches(c, n, s)
    ensures Inv(s, c)
  {
    if n > 0 {
      var p, e :| Reaches(c, n - 1, p) && p.count <= c.size && Can(p, e, c) && s == Step(p, e, c);
      RunsKeepInv(c, n - 1, p);
      hide Inv, Step;
      match e
      case Read(t, k) => ReadKeeps(p, t, k, c);
      case Write(t, k) => WriteKeeps(p, t, k, c);
    }
  }

  lemma Next(c: Setting, n: nat, s: State, e: Event)
    requires Reaches(c, n, s) && s.count <= c.size && Can(s, e, c)
    ensures Reaches(c, n + 1, Step(s, e, c))
  {
  }

  lemma Start(c: Setting)
    ensures Reaches(c, 0, START)
  {
  }

  // Two readers wait for a byte each; two bytes come with one signal; the
  // first reader takes one and is done.
  lemma ReaderLost(c: Setting)
    requires c.size >= 2 && c.readers >= 2 && c.writers >= 1
    ensures !NeverLost(c)
  {
    hide Reaches;
    Start(c);
    var a := Step(START, Read(0, 1), c);
    Next(c, 0, START, Read(0, 1));
    var b := Step(a, Read(1, 1), c);
    Next(c, 1, a, Read(1, 1));
    var d := Step(b, Write(0, 2), c);
    Next(c, 2, b, Write(0, 2));
    var s := Step(d, Read(0, 1), c);
    Next(c, 3, d, Read(0, 1));
    assert s.readers.queue == [1] && s.count == 1 && s.readers.signalled == {};
  }

  // And the same on the other side of a full pipe.
  lemma WriterLost(c: Setting)
    requires c.size >= 2 && c.readers >= 1 && c.writers >= 2
    ensures !NeverLost(c)
  {
    hide Reaches;
    Start(c);
    var f := Step(START, Write(0, c.size), c);
    Next(c, 0, START, Write(0, c.size));
    var a := Step(f, Write(0, 1), c);
    Next(c, 1, f, Write(0, 1));
    var b := Step(a, Write(1, 1), c);
    Next(c, 2, a, Write(1, 1));
    var d := Step(b, Read(0, 2), c);
    Next(c, 3, b, Read(0, 2));
    var s := Step(d, Write(0, 1), c);
    Next(c, 4, d, Write(0, 1));
    assert s.writers.queue == [1] && s.count == c.size - 1 && s.writers.signalled == {};
  }

  // No wakeup is ever lost if and only if there is at most one reader and at
  // most one writer, or one side is missing, or the pipe holds one byte.
  lemma NeverLostIff(c: Setting)
    ensures NeverLost(c) <==> Enough(c)
  {
    if Enough(c) {
      forall n, s | Reaches(c, n, s)
        ensures NoneLost(s, c)
      {
        RunsKeepInv(c, n, s);
      }
    } else if c.readers >= 2 {
      ReaderLost(c);
    } else {
      WriterLost(c);
    }
  }

  // ---------- the methods take such steps ----------

  // An open pipe with its readers and writers.
  class Watched {
    const pipe: Pipe
    ghost const setting: Setting
    ghost var state: State

    ghost predicate Valid()
      reads this, pipe
    {
      && pipe.Valid() && !pipe.readerClosed && !pipe.writerClosed
      && setting.size == pipe.size && state.count == pipe.count
    }

    constructor (size: nat, ghost readers: nat, ghost writers: nat)
      requires size > 0
      ensures Valid() && state == START && setting == Setting(size, readers, writers) && fresh(pipe) && fresh(pipe.buffer)
    {
      pipe := new Pipe(size);
      setting, state := Setting(size, readers, writers), START;
    }

    // What a region leaves behind is what Step says: it waits exactly when it
    // joins the queue, and signals the other side once if it moved anything.
    method WriteRegion(ghost t: TaskId, src: seq<byte>, written: nat) returns (written': nat, outcome: Outcome)
      requires Valid() && written <= |src| && Can(state, Write(t, |src| - written), setting)
      requires Left(state.wantWrite, state.writers, t, |src| - written) == |src| - written
      modifies this, pipe`writePos, pipe`count, pipe.buffer
      ensures Valid() && state == Step(old(state), Write(t, |src| - written), setting)
      ensures outcome == Waits <==> t in state.writers.queue
      ensures outcome == Waits ==> state.wantWrite[t] == |src| - written'
    {
      var signals;
      ghost var was := state;
      written', outcome, signals := pipe.Write(src, written);
      state := State(pipe.count,
                     if signals > 0 then Signal(was.readers) else was.readers,
                     if outcome == Waits then Wait(was.writers, t) else Run(was.writers, t),
                     was.wantRead, was.wantWrite[t := |src| - written']);
    }

    method ReadRegion(ghost t: TaskId, n: nat) returns (got: seq<byte>, outcome: Outcome)
      requires Valid() && Can(state, Read(t, n), setting) && Left(state.wantRead, state.readers, t, n) == n
      modifies this, pipe`readPos, pipe`count
      ensures Valid() && state == Step(old(state), Read(t, n), setting)
      ensures outcome == Waits <==> t in state.readers.queue
      ensures outcome == Waits ==> state.wantRead[t] == n - |got|
    {
      var signals;
      ghost var was := state;
      got, outcome, signals := pipe.Read(n);
      state := State(pipe.count,
                     if outcome == Waits then Wait(was.readers, t) else Run(was.readers, t),
                     if signals > 0 then Signal(was.writers) else was.writers,
                     was.wantRead[t := n - |got|], was.wantWrite);
    }
  }
}
