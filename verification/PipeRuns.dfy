// Runs of any number of pipe writers and readers, one region of Pipe at a
// time in any order.
module PipeRuns {
  import opened Common
  import opened Pipe

  datatype Writer = Writer(src: seq<byte>, written: nat)

  datatype Sent = Sent(writer: nat, byte: byte)

  // Region of writer w, or of a reader still wanting n bytes; a writer
  // begins by bringing its buffer.
  datatype Event = Begin(src: seq<byte>) | WriteRegion(w: nat) | ReadRegion(n: nat)

  datatype Sys = Sys(contents: seq<byte>, sent: seq<Sent>, received: seq<byte>, writers: seq<Writer>)

  // What a region does; Session ties it to Pipe.Write and Pipe.Read.
  ghost function Step(s: Sys, e: Event, size: nat): Sys {
    match e
    case Begin(src) => s.(writers := s.writers + [Writer(src, 0)])
    case WriteRegion(w) =>
      if w < |s.writers| && s.writers[w].written <= |s.writers[w].src| && |s.contents| <= size then
        var Writer(src, written) := s.writers[w];
        var written' := Min(|src|, written + size - |s.contents|);
        var chunk := src[written..written'];
        s.(contents := s.contents + chunk, sent := s.sent + Tagged(w, chunk), writers := s.writers[w := Writer(src, written')])
      else s
    case ReadRegion(n) =>
      var k := Min(n, |s.contents|);
      s.(contents := s.contents[k..], received := s.received + s.contents[..k])
  }

  ghost function Tagged(w: nat, bs: seq<byte>): (t: seq<Sent>)
    ensures |t| == |bs|
  {
    if bs == [] then [] else [Sent(w, bs[0])] + Tagged(w, bs[1..])
  }

  ghost function Bytes(log: seq<Sent>): seq<byte> {
    if log == [] then [] else [log[0].byte] + Bytes(log[1..])
  }

  ghost function From(log: seq<Sent>, w: nat): seq<byte> {
    if log == [] then [] else (if log[0].writer == w then [log[0].byte] else []) + From(log[1..], w)
  }

  ghost function Run(events: seq<Event>, size: nat): Sys {
    if events == [] then Sys([], [], [], [])
    else Step(Run(events[..|events| - 1], size), events[|events| - 1], size)
  }

  lemma {:induction false} BytesAppend(a: seq<Sent>, b: seq<Sent>)
    ensures Bytes(a + b) == Bytes(a) + Bytes(b)
  {
    if a == [] {
      assert a + b == b;
    } else {
      assert (a + b)[1..] == a[1..] + b;
      BytesAppend(a[1..], b);
    }
  }

  lemma {:induction false} FromAppend(a: seq<Sent>, b: seq<Sent>, w: nat)
    ensures From(a + b, w) == From(a, w) + From(b, w)
  {
    if a == [] {
      assert a + b == b;
    } else {
      assert (a + b)[0] == a[0] && (a + b)[1..] == a[1..] + b;
      FromAppend(a[1..], b, w);
      var x, y, z := [a[0].byte], From(a[1..], w), From(b, w);
      assert x + (y + z) == (x + y) + z && [] + (y + z) == ([] + y) + z;
    }
  }

  lemma {:induction false} LogTagged(v: nat, bs: seq<byte>, w: nat)
    ensures Bytes(Tagged(v, bs)) == bs && From(Tagged(v, bs), w) == if v == w then bs else []
  {
    if bs != [] {
      LogTagged(v, bs[1..], w);
    }
  }

  // What every region keeps: the ring holds exactly the bytes written and
  // not yet read, in order, and each writer's bytes went in in its order,
  // each once.
  ghost predicate Orderly(s: Sys, size: nat) {
    && |s.contents| <= size
    && Bytes(s.sent) == s.received + s.contents
    && (forall w | 0 <= w < |s.writers| :: s.writers[w].written <= |s.writers[w].src|
          && From(s.sent, w) == s.writers[w].src[..s.writers[w].written])
    && (forall w | w >= |s.writers| :: From(s.sent, w) == [])
  }

  lemma Logged(log: seq<Sent>, w: nat, chunk: seq<byte>)
    ensures Bytes(log + Tagged(w, chunk)) == Bytes(log) + chunk
    ensures From(log + Tagged(w, chunk), w) == From(log, w) + chunk
    ensures forall v: nat | v != w :: From(log + Tagged(w, chunk), v) == From(log, v)
  {
    var t := Tagged(w, chunk);
    BytesAppend(log, t);
    FromAppend(log, t, w);
    LogTagged(w, chunk, w);
    forall v: nat | v != w
      ensures From(log + t, v) == From(log, v)
    {
      FromAppend(log, t, v);
      LogTagged(w, chunk, v);
    }
  }

  lemma WriteOrderly(s: Sys, w: nat, size: nat)
    requires Orderly(s, size) && w < |s.writers|
    ensures Orderly(Step(s, WriteRegion(w), size), size)
  {
    hide Bytes, From, Tagged;
    var Writer(src, written) := s.writers[w];
    var written' := Min(|src|, written + size - |s.contents|);
    var chunk := src[written..written'];
    Logged(s.sent, w, chunk);
    assert src[..written'] == src[..written] + chunk;
    assert s.received + s.contents + chunk == s.received + (s.contents + chunk);
  }

  lemma StepOrderly(s: Sys, e: Event, size: nat)
    requires Orderly(s, size)
    ensures Orderly(Step(s, e, size), size)
  {
    match e
    case Begin(src) =>
      hide Bytes, From;
    case WriteRegion(w) =>
      if w < |s.writers| {
        WriteOrderly(s, w, size);
      }
    case ReadRegion(n) =>
      hide Bytes, From;
  }

  // Over every run.
  lemma {:induction false} RunsConserve(events: seq<Event>, size: nat)
    ensures Orderly(Run(events, size), size)
  {
    if events != [] {
      var before := events[..|events| - 1];
      RunsConserve(before, size);
      StepOrderly(Run(before, size), events[|events| - 1], size);
    }
  }

  // ---------- the methods make such runs ----------

  // A pipe with its history, and what each writer brought.
  class Session {
    const pipe: Pipe
    var writers: seq<Writer>
    ghost var events: seq<Event>

    ghost predicate Valid()
      reads this, pipe, pipe.buffer
    {
      && pipe.Valid()
      && Run(events, pipe.size).contents == pipe.Contents() && Run(events, pipe.size).writers == writers
    }

    constructor (size: nat)
      requires size > 0
      ensures Valid() && events == [] && fresh(pipe) && fresh(pipe.buffer)
    {
      pipe := new Pipe(size);
      writers, events := [], [];
    }

    lemma Next(e: Event)
      ensures Run(events + [e], pipe.size) == Step(Run(events, pipe.size), e, pipe.size)
    {
      assert (events + [e])[..|events|] == events;
    }

    method Begin(src: seq<byte>) returns (w: nat)
      requires Valid()
      modifies this
      ensures Valid() && events == old(events) + [Event.Begin(src)] && w == |old(writers)|
    {
      hide Run;
      Next(Event.Begin(src));
      w := |writers|;
      writers := writers + [Writer(src, 0)];
      events := events + [Event.Begin(src)];
    }

    method WriteRegion(w: nat) returns (outcome: Outcome)
      requires Valid() && w < |writers|
      modifies this, pipe`writePos, pipe`count, pipe.buffer
      ensures Valid() && events == old(events) + [Event.WriteRegion(w)]
      ensures |writers| == |old(writers)| && (outcome.Done? <==> writers[w].written == |writers[w].src|)
    {
      RunsConserve(events, pipe.size);
      Next(Event.WriteRegion(w));
      hide Run;
      var written, signals;
      written, outcome, signals := pipe.Write(writers[w].src, writers[w].written);
      writers := writers[w := Writer(writers[w].src, written)];
      events := events + [Event.WriteRegion(w)];
    }

    method ReadRegion(n: nat) returns (got: seq<byte>, outcome: Outcome)
      requires Valid()
      modifies this, pipe`readPos, pipe`count
      ensures Valid() && events == old(events) + [Event.ReadRegion(n)]
      ensures Run(events, pipe.size).received == old(Run(events, pipe.size).received) + got
    {
      Next(Event.ReadRegion(n));
      hide Run;
      var signals;
      got, outcome, signals := pipe.Read(n);
      events := events + [Event.ReadRegion(n)];
    }
  }
}
