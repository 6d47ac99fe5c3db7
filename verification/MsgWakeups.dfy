// Wakeups between the senders and receivers of a message queue
// (src/msg_queue.c:75-177): one signal for every message sent or received,
// none from a receiver that finds no message of its type.  A region is what
// a caller does from owning the lock until it waits or leaves; no wait times
// out.
module MsgWakeups {
  import opened Common
  import opened Waiters
  import opened MsgQueue

  // Slots of the ring, how many tasks send and receive, and what is sent,
  // as it is stored, and which types are asked for.
  datatype Setting = Setting(slots: nat, senders: nat, receivers: nat, sent: set<Msg>, asked: set<int>)

  // asks: what a waiting or signalled
  // receiver wants.
  datatype State = State(msgs: seq<Msg>, senders: Waiters, receivers: Waiters, asks: map<TaskId, int>)

  const START := State([], NOBODY, NOBODY, map[])

  // A region of a task; mtype is what a receiver asks for if it begins a
  // call.
  datatype Event = Send(t: TaskId, m: Msg) | Receive(t: TaskId, mtype: int)

  function Asked(s: State, t: TaskId, mtype: int): int {
    if t in s.receivers.signalled && t in s.asks then s.asks[t] else mtype
  }

  ghost predicate Can(s: State, e: Event, c: Setting) {
    match e
    case Send(t, m) => t < c.senders && t !in s.senders.queue && m in c.sent
    case Receive(t, m) => t < c.receivers && t !in s.receivers.queue && m in c.asked
  }

  ghost function Step(s: State, e: Event, c: Setting): State {
    match e
    case Send(t, m) =>
      if |s.msgs| >= c.slots then s.(senders := Wait(s.senders, t))
      else State(s.msgs + [m], Run(s.senders, t), Signal(s.receivers), s.asks)
    case Receive(t, m) =>
      var a := Asked(s, t, m);
      if s.msgs == [] then s.(receivers := Wait(s.receivers, t), asks := s.asks[t := a])
      else
        var k := First(s.msgs, a);
        if k == |s.msgs| then s.(receivers := Run(s.receivers, t))
        else State(Without(s.msgs, k), Signal(s.senders), Run(s.receivers, t), s.asks)
  }

  ghost predicate Reaches(c: Setting, n: nat, s: State) {
    if n == 0 then s == START else exists p, e :: Reaches(c, n - 1, p) && Can(p, e, c) && s == Step(p, e, c)
  }

  // Whoever waits has nothing to do, or somebody who was signalled is about
  // to look.
  ghost predicate NoneLost(s: State, c: Setting) {
    && (s.receivers.queue != [] ==> s.msgs == [] || s.receivers.signalled != {})
    && (s.senders.queue != [] ==> |s.msgs| >= c.slots || s.senders.signalled != {})
  }

  ghost predicate NeverLost(c: Setting) {
    forall n, s | Reaches(c, n, s) :: NoneLost(s, c)
  }

  // One receiver; or every message is for every receiver; or nothing can be
  // sent.
  ghost predicate Enough(c: Setting) {
    c.receivers <= 1 || c.senders == 0 || c.slots == 0 || forall m, a | m in c.sent && a in c.asked :: Matches(m, a)
  }

  // There are as many signalled receivers as messages while others wait, or
  // no message if there is one receiver; and as many signalled senders as
  // free slots.
  ghost predicate Inv(s: State, c: Setting) {
    && Sound(s.senders, c.senders) && Sound(s.receivers, c.receivers)
    && |s.msgs| <= c.slots && (forall m | m in s.msgs :: m in c.sent)
    && (forall t | t in s.receivers.queue || t in s.receivers.signalled :: t in s.asks && s.asks[t] in c.asked)
    && (s.senders.queue != [] ==> c.slots - |s.msgs| <= |s.senders.signalled|)
    && (c.senders == 0 ==> s.msgs == [])
    && (s.receivers.queue != [] ==>
          if c.receivers <= 1 then s.msgs == [] else |s.msgs| <= |s.receivers.signalled|)
  }

  lemma InvNoneLost(s: State, c: Setting)
    requires Inv(s, c)
    ensures NoneLost(s, c)
  {
  }

  lemma SendKeeps(s: State, t: TaskId, m: Msg, c: Setting)
    requires Enough(c) && Inv(s, c) && Can(s, Send(t, m), c)
    ensures Inv(Step(s, Send(t, m), c), c)
  {
    SignalSound(s.receivers, c.receivers);
    WaitSound(s.senders, t, c.senders);
    if c.receivers <= 1 {
      Alone(s.receivers, c.receivers);
    }
    hide Sound;
  }

  // What a receiver takes out is one message of those queued.
  lemma TakenFrom(msgs: seq<Msg>, k: nat)
    requires k < |msgs|
    ensures |Without(msgs, k)| == |msgs| - 1 && forall m | m in Without(msgs, k) :: m in msgs
  {
  }

  // When every receiver takes every message, none leaves with nothing.
  lemma Taken(s: State, a: int, c: Setting)
    requires s.msgs != [] && (forall m | m in s.msgs :: m in c.sent) && a in c.asked
    requires forall m, b | m in c.sent && b in c.asked :: Matches(m, b)
    ensures First(s.msgs, a) < |s.msgs|
  {
    assert s.msgs[0] in s.msgs;
  }

  lemma ReceiveKeeps(s: State, t: TaskId, m: int, c: Setting)
    requires Enough(c) && Inv(s, c) && Can(s, Receive(t, m), c)
    ensures Inv(Step(s, Receive(t, m), c), c)
  {
    hide Sound, First, Signal, Matches, Without;
    var a := Asked(s, t, m);
    SignalSound(s.senders, c.senders);
    WaitSound(s.receivers, t, c.receivers);
    if c.receivers <= 1 {
      Alone(s.receivers, c.receivers);
    } else if s.msgs != [] && c.senders != 0 && c.slots != 0 {
      Taken(s, a, c);
    }
    if First(s.msgs, a) < |s.msgs| {
      TakenFrom(s.msgs, First(s.msgs, a));
    }
  }

  lemma {:induction false} RunsKeepInv(c: Setting, n: nat, s: State)
    requires Enough(c) && Reaches(c, n, s)
    ensures Inv(s, c)
  {
    if n > 0 {
      var p, e :| Reaches(c, n - 1, p) && Can(p, e, c) && s == Step(p, e, c);
      RunsKeepInv(c, n - 1, p);
      hide Inv, Step, Enough;
      match e
      case Send(t, m) => SendKeeps(p, t, m, c);
      case Receive(t, m) => ReceiveKeeps(p, t, m, c);
    }
  }

  lemma Next(c: Setting, n: nat, s: State, e: Event)
    requires Reaches(c, n, s) && Can(s, e, c)
    ensures Reaches(c, n + 1, Step(s, e, c))
  {
  }

  // Two receivers wait; the message signals the first, which finds nothing
  // of its type and leaves.
  lemma ReceiverLost(c: Setting, m: Msg, a: int)
    requires c.receivers >= 2 && c.senders >= 1 && c.slots >= 1
    requires m in c.sent && a in c.asked && !Matches(m, a)
    ensures !NeverLost(c)
  {
    var p := Step(START, Receive(0, a), c);
    Next(c, 0, START, Receive(0, a));
    var q := Step(p, Receive(1, a), c);
    Next(c, 1, p, Receive(1, a));
    var r := Step(q, Send(0, m), c);
    Next(c, 2, q, Send(0, m));
    var s := Step(r, Receive(0, a), c);
    Next(c, 3, r, Receive(0, a));
    assert s.receivers.queue == [1] && s.msgs == [m] && s.receivers.signalled == {};
  }

  // No wakeup is ever lost if and only if there is at most one receiver, or
  // every type sent is taken by every receiver, or nothing can be sent.
  lemma NeverLostIff(c: Setting)
    ensures NeverLost(c) <==> Enough(c)
  {
    if Enough(c) {
      forall n, s | Reaches(c, n, s)
        ensures NoneLost(s, c)
      {
        RunsKeepInv(c, n, s);
        InvNoneLost(s, c);
      }
    } else {
      var m, a :| m in c.sent && a in c.asked && !Matches(m, a);
      ReceiverLost(c, m, a);
    }
  }

  // ---------- the methods take such steps ----------

  // A message queue with its senders and receivers.
  class Watched {
    const mq: MsgQueue
    ghost const setting: Setting
    ghost var state: State

    ghost predicate Valid()
      reads this, mq, mq.buffer
    {
      mq.Valid() && setting.slots == mq.maxMsgs && state.msgs == mq.Contents()
    }

    constructor (mq: MsgQueue, ghost setting: Setting)
      requires mq.Valid() && mq.Contents() == [] && setting.slots == mq.maxMsgs
      ensures Valid() && state == START && this.mq == mq && this.setting == setting
    {
      this.mq, this.setting, state := mq, setting, START;
    }

    // A region of msgq_send; false says that it waits.
    method SendRegion(ghost t: TaskId, msg: seq<byte>, size: nat, ghost m: Msg) returns (ok: bool)
      requires Valid() && size <= |msg| && size <= mq.maxSize
      requires mq.count < mq.maxMsgs ==> m == Stored(mq.buffer[mq.tail], msg, size)
      requires Can(state, Send(t, m), setting)
      modifies this, mq, mq.buffer
      ensures Valid() && state == Step(old(state), Send(t, m), setting)
    {
      ghost var was := state;
      ok := mq.Send(msg, size);
      if ok {
        state := State(mq.Contents(), Run(was.senders, t), Signal(was.receivers), was.asks);
      } else {
        state := was.(senders := Wait(was.senders, t));
      }
    }

    // A region of msgq_receive: on an empty queue it waits.
    method ReceiveRegion(ghost t: TaskId, mtype: int, size: nat) returns (ok: bool, msg: seq<byte>)
      requires Valid() && size <= mq.maxSize && Can(state, Receive(t, mtype), setting) && Asked(state, t, mtype) == mtype
      modifies this, mq, mq.buffer
      ensures Valid() && state == Step(old(state), Receive(t, mtype), setting)
    {
      ghost var was := state;
      ok, msg := mq.Receive(mtype, size);
      if ok {
        state := State(mq.Contents(), Signal(was.senders), Run(was.receivers, t), was.asks);
      } else if mq.count == 0 {
        state := was.(receivers := Wait(was.receivers, t), asks := was.asks[t := mtype]);
      } else {
        state := was.(receivers := Run(was.receivers, t));
      }
    }
  }
}
