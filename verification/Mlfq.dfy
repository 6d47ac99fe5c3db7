// The multilevel feedback queue (src/scheduler_mlfq.c): eight intrusive
// queues.  Ghost field chains[i] is the content of queue i.
module Mlfq {
  import opened Widths
  import opened Common
  import opened Tasks

  const QUEUES := 8
  const BOOST_PERIOD := 100

  class Task {
    var state: TaskState
    var next: Task?
    var hasParams: bool
    var currentQueue: nat
    var timeSlice: nat
  }

  datatype Queue = Queue(head: Task?, tail: Task?, quantum: nat, count: nat)

  // 1 << i
  function Shift(i: nat): nat
    requires i < QUEUES
  {
    [1, 2, 4, 8, 16, 32, 64, 128][i]
  }

  function Quantum(base: nat, i: nat): nat
    requires i < QUEUES
  {
    Shift(i) * base % W32
  }

  // The first queue has the base quantum and each next one twice that of the
  // one before, in 32 bits.
  lemma QuantumDoubles(base: nat, i: nat)
    requires i < QUEUES
    ensures Quantum(base, 0) == base % W32
    ensures i > 0 ==> Quantum(base, i) == 2 * Quantum(base, i - 1) % W32
  {
    if i > 0 {
      assert Shift(i) == 2 * Shift(i - 1);
      hide Shift;
      var x := Shift(i - 1) * base;
      assert Shift(i) * base == 2 * x;
      TwiceModulo(x);
    }
  }

  lemma TwiceModulo(x: nat)
    ensures 2 * x % W32 == 2 * (x % W32) % W32
  {
    var q, r := x / W32, x % W32;
    assert 2 * x == 2 * r + 2 * q * W32;
    assert (2 * r + 2 * q * W32) / W32 == 2 * r / W32 + 2 * q;
  }

  // ---------- one queue ----------

  ghost function After(c: seq<Task>, p: nat): Task? {
    if p + 1 < |c| then c[p + 1] else null
  }

  // Head, tail, count and links say exactly c.
  ghost predicate Linked(q: Queue, c: seq<Task>)
    reads c`next
  {
    && Distinct(c) && q.count == |c|
    && q.head == (if c == [] then null else c[0])
    && q.tail == (if c == [] then null else c[|c| - 1])
    && forall p {:trigger c[p].next} | 0 <= p < |c| :: c[p].next == After(c, p)
  }

  // The tasks of a queue have at most its quantum left.
  ghost predicate Sliced(c: seq<Task>, quantum: nat)
    reads c`hasParams, c`timeSlice
  {
    forall t | t in c :: t.hasParams && t.timeSlice <= quantum
  }

  // Queue q holds c and gives each task at most the quantum.
  ghost predicate Holds(q: Queue, c: seq<Task>, quantum: nat)
    reads c
  {
    Linked(q, c) && q.quantum == quantum && Sliced(c, quantum)
  }

  lemma QuantumIs(q: Queue, c: seq<Task>, quantum: nat)
    requires Holds(q, c, quantum)
    ensures q.quantum == quantum && Distinct(c) && (q.head == null <==> c == [])
  {
  }

  method Append(q: Queue, task: Task, ghost c: seq<Task>) returns (q': Queue)
    requires Holds(q, c, q.quantum) && task !in c && task.hasParams && task.timeSlice <= q.quantum
    modifies task`next, c`next
    ensures Holds(q', c + [task], q.quantum)
  {
    task.next := null;
    if q.head == null {
      q' := q.(head := task, tail := task);
    } else {
      q.tail.next := task;
      q' := q.(tail := task);
    }
    q' := q'.(count := q'.count + 1);
    ghost var d := c + [task];
    assert forall p | 0 <= p < |c| :: d[p] == c[p];
    assert Distinct(d);
  }

  method TakeHead(q: Queue, ghost c: seq<Task>) returns (task: Task, q': Queue)
    requires Holds(q, c, q.quantum) && c != []
    modifies c`next
    ensures task == c[0] && task.next == null && task.hasParams && Holds(q', c[1..], q.quantum)
  {
    task := q.head;
    q' := q.(head := task.next);
    if q'.head == null {
      q' := q'.(tail := null);
    }
    task.next := null;
    q' := q'.(count := q'.count - 1);
    assert forall p | 0 <= p < |c[1..]| :: c[1..][p] == c[p + 1] && After(c[1..], p) == After(c, p + 1);
  }

  ghost function Position(c: seq<Task>, t: Task): (p: nat)
    ensures p <= |c| && (p < |c| ==> c[p] == t) && t !in c[..p]
  {
    if c == [] || c[0] == t then 0 else 1 + Position(c[1..], t)
  }

  ghost function Without(c: seq<Task>, t: Task): seq<Task> {
    var p := Position(c, t);
    if p < |c| then c[..p] + c[p + 1..] else c
  }

  lemma WithoutAt(c: seq<Task>, t: Task, p: nat)
    requires Distinct(c) && p < |c| && c[p] == t
    ensures |Without(c, t)| == |c| - 1 && t !in Without(c, t) && Distinct(Without(c, t))
    ensures forall r | 0 <= r < |c| - 1 :: Without(c, t)[r] == c[if r < p then r else r + 1]
  {
    assert Position(c, t) == p;
    var d := c[..p] + c[p + 1..];
    assert Without(c, t) == d;
    hide Position, Without;
    assert forall r | 0 <= r < |d| :: d[r] == c[if r < p then r else r + 1];
    assert t !in d && Distinct(d);
  }

  lemma WithoutNone(c: seq<Task>, t: Task)
    requires t !in c
    ensures Without(c, t) == c
  {
  }

  // Skipping c[p] leaves a queue of the rest.
  lemma Skipped(q: Queue, q': Queue, c: seq<Task>, t: Task, p: nat)
    requires Distinct(c) && p < |c| && c[p] == t && q.count == |c|
    requires forall r {:trigger c[r].next} | 0 <= r < |c| && r != p :: c[r].next == if r == p - 1 then After(c, p) else After(c, r)
    requires q.head == c[0] && q.tail == c[|c| - 1]
    requires q' == Queue(if p == 0 then After(c, 0) else q.head, if p == |c| - 1 then if p == 0 then null else c[p - 1] else q.tail, q.quantum, q.count - 1)
    ensures Linked(q', Without(c, t))
  {
    WithoutAt(c, t, p);
    var d := Without(c, t);
    hide Without, Distinct;
    forall r | 0 <= r < |d|
      ensures d[r].next == After(d, r)
    {
      var s := if r < p then r else r + 1;
      assert d[r] == c[s];
      if r + 1 < |d| {
        assert d[r + 1] == c[if r + 1 < p then r + 1 else r + 2];
      }
    }
  }

  lemma LastIs(c: seq<Task>, p: nat)
    requires Distinct(c) && p < |c|
    ensures c[|c| - 1] == c[p] <==> p == |c| - 1
  {
  }

  method Search(q: Queue, task: Task, ghost c: seq<Task>) returns (prev: Task?, curr: Task?, ghost p: nat)
    requires Linked(q, c)
    ensures p <= |c| && curr == (if p < |c| then c[p] else null) && prev == (if p == 0 then null else c[p - 1])
    ensures if p < |c| then c[p] == task else task !in c
  {
    prev := null;
    curr := q.head;
    p := 0;
    while curr != null && curr != task
      invariant p <= |c| && curr == (if p < |c| then c[p] else null)
      invariant prev == (if p == 0 then null else c[p - 1])
      invariant forall r | 0 <= r < p :: c[r] != task
      decreases |c| - p
    {
      prev := curr;
      curr := curr.next;
      p := p + 1;
    }
  }

  method UnlinkAt(q: Queue, prev: Task?, curr: Task, ghost c: seq<Task>, ghost p: nat) returns (q': Queue)
    requires Linked(q, c) && p < |c| && curr == c[p] && prev == (if p == 0 then null else c[p - 1])
    modifies c`next
    ensures q'.quantum == q.quantum && Linked(q', Without(c, curr))
  {
    LastIs(c, p);
    assert Distinct(c);
    assert forall r | 0 <= r < |c| && r != p - 1 && p > 0 :: c[r] != prev;
    q' := q;
    hide Distinct, Without;
    if prev != null {
      prev.next := curr.next;
    } else {
      q' := q'.(head := curr.next);
    }
    if q'.tail == curr {
      q' := q'.(tail := prev);
    }
    q' := q'.(count := q'.count - 1);
    Skipped(q, q', c, curr, p);
  }

  // The search and removal of scheduler_mlfq_update_queue.
  method Unlink(q: Queue, task: Task, ghost c: seq<Task>) returns (q': Queue)
    requires Holds(q, c, q.quantum)
    modifies c`next
    ensures Holds(q', Without(c, task), q.quantum)
    ensures task !in Without(c, task)
  {
    hide Linked, Distinct, Without;
    QuantumIs(q, c, q.quantum);
    var prev, curr;
    ghost var p;
    prev, curr, p := Search(q, task, c);
    q' := q;
    if curr != null {
      WithoutAt(c, task, p);
      WithoutSubset(c, task);
      q' := UnlinkAt(q, prev, curr, c, p);
    } else {
      WithoutNone(c, task);
    }
  }

  lemma WithoutSubset(c: seq<Task>, t: Task)
    ensures forall x | x in Without(c, t) :: x in c
  {
  }

  // ---------- the eight queues ----------

  // All the tasks, queue after queue.
  ghost function Flatten(cs: seq<seq<Task>>): seq<Task> {
    if cs == [] then [] else cs[0] + Flatten(cs[1..])
  }

  // Every task is in the queue it names, and the queues hold nothing else.
  ghost predicate Covers(cs: seq<seq<Task>>, tasks: set<Task>)
    reads tasks`currentQueue
  {
    && |cs| == QUEUES
    && (forall i, t | 0 <= i < QUEUES && t in cs[i] :: t in tasks && t.currentQueue == i)
    && (forall t | t in tasks :: t.currentQueue < QUEUES && t in cs[t.currentQueue])
  }

  lemma CoversAppend(cs: seq<seq<Task>>, tasks: set<Task>, i: nat, t: Task)
    requires Covers(cs, tasks) && i < QUEUES && t !in tasks && t.currentQueue == i
    ensures Covers(cs[i := cs[i] + [t]], tasks + {t})
  {
    var ds := cs[i := cs[i] + [t]];
    assert ds[i][|cs[i]|] == t;
    assert forall x | x in cs[i] :: x in ds[i];
  }

  lemma CoversTail(cs: seq<seq<Task>>, tasks: set<Task>, i: nat)
    requires Covers(cs, tasks) && i < QUEUES && cs[i] != [] && Distinct(cs[i])
    ensures Covers(cs[i := cs[i][1..]], tasks - {cs[i][0]})
  {
    var c, ds := cs[i], cs[i := cs[i][1..]];
    assert c[0] !in c[1..];
    forall t | t in tasks - {c[0]}
      ensures t in ds[t.currentQueue]
    {
      if t.currentQueue == i {
        var p :| 0 <= p < |c| && c[p] == t;
        assert ds[i][p - 1] == t;
      }
    }
    forall j, t | 0 <= j < QUEUES && t in ds[j]
      ensures t in tasks - {c[0]} && t.currentQueue == j
    {
      assert t in cs[j];
    }
  }

  // No queue but i has a task of c.
  ghost predicate OthersApart(cs: seq<seq<Task>>, i: nat, c: seq<Task>) {
    forall j, p | 0 <= j < |cs| && j != i && 0 <= p < |cs[j]| :: cs[j][p] !in c
  }

  lemma CoversApart(cs: seq<seq<Task>>, tasks: set<Task>, i: nat)
    requires Covers(cs, tasks) && i < QUEUES
    ensures |cs| == QUEUES && (forall t | t in cs[i] :: t in tasks) && OthersApart(cs, i, cs[i])
  {
    forall j, p | 0 <= j < |cs| && j != i && 0 <= p < |cs[j]|
      ensures cs[j][p] !in cs[i]
    {
      var t := cs[j][p];
      assert t in cs[j] && t.currentQueue == j;
    }
  }

  lemma CoversApartNew(cs: seq<seq<Task>>, tasks: set<Task>, i: nat, t: Task)
    requires Covers(cs, tasks) && i < QUEUES && t !in tasks
    ensures t !in cs[i] && OthersApart(cs, i, cs[i] + [t])
  {
    CoversApart(cs, tasks, i);
    forall j, p | 0 <= j < |cs| && j != i && 0 <= p < |cs[j]|
      ensures cs[j][p] !in cs[i] + [t]
    {
      var x := cs[j][p];
      assert x in cs[j] && x in tasks;
    }
  }

  lemma CoversWithout(cs: seq<seq<Task>>, tasks: set<Task>, i: nat, t: Task)
    requires Covers(cs, tasks) && i < QUEUES && Distinct(cs[i]) && t in cs[i]
    ensures Covers(cs[i := Without(cs[i], t)], tasks - {t})
  {
    var p :| 0 <= p < |cs[i]| && cs[i][p] == t;
    WithoutAt(cs[i], t, p);
    var ds := cs[i := Without(cs[i], t)];
    hide Without, Distinct;
    forall j, x | 0 <= j < QUEUES && x in ds[j]
      ensures x in tasks - {t} && x.currentQueue == j
    {
      assert x in cs[j];
      assert t.currentQueue == i;
    }
    forall x | x in tasks - {t}
      ensures x in ds[x.currentQueue]
    {
      if x.currentQueue == i {
        var r :| 0 <= r < |cs[i]| && cs[i][r] == x;
        assert x == ds[i][if r < p then r else r - 1];
      }
    }
  }

  lemma AllSomewhere(cs: seq<seq<Task>>, tasks: set<Task>)
    requires Covers(cs, tasks)
    ensures |cs| == QUEUES && Collected(cs, 1) == cs
    ensures forall t | t in tasks :: t !in cs[0] <==> t in set j, t | 1 <= j < QUEUES && t in cs[j] :: t
  {
    FlattenAppend(cs[..0], cs[0]);
    assert cs[..1] == cs[..0] + [cs[0]] && Flatten(cs[..0]) == [] && [] + cs[0] == cs[0];
    assert forall j | 0 <= j < QUEUES :: Collected(cs, 1)[j] == cs[j];
  }

  ghost function Elements(c: seq<Task>): set<Task> {
    set t | t in c
  }

  lemma ElementsNext(c: seq<Task>, k: nat)
    requires k <= |c|
    ensures Elements(c[..0]) == {} && c[..|c|] == c
    ensures k < |c| ==> Elements(c[..k + 1]) == Elements(c[..k]) + {c[k]}
  {
    if k < |c| {
      assert c[..k + 1] == c[..k] + [c[k]];
    }
  }

  // After k turns of the inner boost loop on queue i.
  ghost function Drained(cs: seq<seq<Task>>, i: nat, k: nat): seq<seq<Task>>
    requires |cs| == QUEUES && 0 < i < QUEUES && k <= |cs[i]|
  {
    cs[i := cs[i][k..]][0 := cs[0] + cs[i][..k]]
  }

  lemma DrainedStart(cs: seq<seq<Task>>, i: nat)
    requires |cs| == QUEUES && 0 < i < QUEUES
    ensures Drained(cs, i, 0) == cs
  {
    assert cs[i][0..] == cs[i] && cs[0] + cs[i][..0] == cs[0];
  }

  lemma DrainedStep(cs: seq<seq<Task>>, i: nat, k: nat)
    requires |cs| == QUEUES && 0 < i < QUEUES && k < |cs[i]|
    ensures var ds := Drained(cs, i, k);
      && |ds| == QUEUES && ds[i] != [] && ds[i][0] == cs[i][k] && (ds[i][1..] == [] <==> k + 1 == |cs[i]|)
      && Drained(cs, i, k + 1) == ds[i := ds[i][1..]][0 := ds[0] + [ds[i][0]]]
  {
    assert cs[i][k..][1..] == cs[i][k + 1..] && cs[i][..k + 1] == cs[i][..k] + [cs[i][k]];
    assert cs[0] + cs[i][..k + 1] == cs[0] + cs[i][..k] + [cs[i][k]];
    assert Drained(cs, i, k + 1) == cs[i := cs[i][k + 1..]][0 := cs[0] + cs[i][..k + 1]];
  }

  // After the outer boost loop has drained the queues below i.
  ghost function Collected(cs: seq<seq<Task>>, i: nat): seq<seq<Task>>
    requires |cs| == QUEUES && 1 <= i <= QUEUES
  {
    seq(QUEUES, j requires 0 <= j < QUEUES => if j == 0 then Flatten(cs[..i]) else if j < i then [] else cs[j])
  }

  lemma CollectedStep(cs: seq<seq<Task>>, i: nat)
    requires |cs| == QUEUES && 1 <= i < QUEUES
    ensures var ds := Collected(cs, i); |ds| == QUEUES && ds[i] == cs[i] && Drained(ds, i, |cs[i]|) == Collected(cs, i + 1)
  {
    FlattenAppend(cs[..i], cs[i]);
    assert cs[..i + 1] == cs[..i] + [cs[i]];
    var ds, es := Collected(cs, i), Collected(cs, i + 1);
    assert ds[i] == cs[i] && ds[i][|ds[i]|..] == [] && ds[i][..|ds[i]|] == ds[i];
    assert Drained(ds, i, |cs[i]|) == ds[i := []][0 := ds[0] + cs[i]];
    assert forall j | 0 <= j < QUEUES :: es[j] == if j == 0 then ds[0] + cs[i] else if j == i then [] else ds[j];
  }

  lemma CollectedAll(cs: seq<seq<Task>>)
    requires |cs| == QUEUES
    ensures Collected(cs, QUEUES) == [Flatten(cs)] + seq(QUEUES - 1, j => [])
  {
    assert cs[..QUEUES] == cs;
  }

  // The queue below i; the last one has none.
  function Below(i: nat): (n: nat)
    ensures i < QUEUES ==> n < QUEUES
  {
    if i + 1 < QUEUES then i + 1 else QUEUES - 1
  }

  lemma BelowIs(i: nat)
    ensures Below(i) == if i + 1 >= QUEUES then QUEUES - 1 else i + 1
  {
  }

  // The queues once task t of queue i has been demoted.
  ghost function Demoted(cs: seq<seq<Task>>, i: nat, t: Task): seq<seq<Task>>
    requires |cs| == QUEUES && i < QUEUES
  {
    var ds := cs[i := Without(cs[i], t)];
    ds[Below(i) := ds[Below(i)] + [t]]
  }

  lemma DemotedIs(cs: seq<seq<Task>>, i: nat, t: Task)
    requires |cs| == QUEUES && i < QUEUES
    ensures var ds := cs[i := Without(cs[i], t)]; Demoted(cs, i, t) == ds[Below(i) := ds[Below(i)] + [t]]
  {
  }

  lemma {:induction false} FlattenAppend(cs: seq<seq<Task>>, c: seq<Task>)
    ensures Flatten(cs + [c]) == Flatten(cs) + c
  {
    if cs == [] {
      assert cs + [c] == [c];
      assert Flatten([c]) == c + Flatten([]);
    } else {
      assert (cs + [c])[1..] == cs[1..] + [c];
      FlattenAppend(cs[1..], c);
    }
  }

  class Scheduler {
    var queues: seq<Queue>
    var boostCounter: nat
    const base: nat               // BASE_QUANTUM
    ghost var chains: seq<seq<Task>>
    ghost var tasks: set<Task>

    ghost predicate Consistent()
      reads this, tasks
    {
      && |queues| == QUEUES && Covers(chains, tasks)
      && forall i | 0 <= i < QUEUES :: Holds(queues[i], chains[i], Quantum(base, i))
    }

    ghost predicate Valid()
      reads this, tasks
    {
      Consistent() && boostCounter < BOOST_PERIOD
    }

    constructor (base: nat)
      ensures Valid() && this.base == base && tasks == {} && boostCounter == 0
    {
      queues := seq(QUEUES, i requires 0 <= i < QUEUES => Queue(null, null, Quantum(base, i), 0));
      this.base := base;
      boostCounter := 0;
      chains := seq(QUEUES, i => []);
      tasks := {};
    }

    // mlfq_enqueue for a task that already names queue i.
    method Enqueue(i: nat, task: Task)
      requires Consistent() && i < QUEUES && task !in tasks
      requires task.hasParams && task.currentQueue == i && task.timeSlice <= queues[i].quantum
      modifies `queues, `chains, `tasks, task`next, tasks`next
      ensures Consistent() && tasks == old(tasks) + {task}
      ensures chains == old(chains)[i := old(chains)[i] + [task]]
    {
      hide Covers, Holds, Quantum;
      CoversApart(chains, tasks, i);
      CoversApartNew(chains, tasks, i, task);
      CoversAppend(chains, tasks, i, task);
      QuantumIs(queues[i], chains[i], Quantum(base, i));
      var q := Append(queues[i], task, chains[i]);
      queues := queues[i := q];
      chains := chains[i := chains[i] + [task]];
      tasks := tasks + {task};
    }

    // mlfq_dequeue; null from an empty queue.
    method Dequeue(i: nat) returns (task: Task?)
      requires Consistent() && i < QUEUES
      modifies `queues, `chains, `tasks, tasks`next
      ensures Consistent()
      ensures task == null <==> old(chains)[i] == []
      ensures task == null ==> tasks == old(tasks) && chains == old(chains)
      ensures task != null ==> task == old(chains)[i][0] && tasks == old(tasks) - {task} && task.hasParams
      ensures task != null ==> chains == old(chains)[i := old(chains)[i][1..]]
    {
      hide Covers, Holds, Quantum;
      CoversApart(chains, tasks, i);
      QuantumIs(queues[i], chains[i], Quantum(base, i));
      if queues[i].head == null {
        return null;
      }
      CoversTail(chains, tasks, i);
      var q;
      task, q := TakeHead(queues[i], chains[i]);
      queues := queues[i := q];
      chains := chains[i := chains[i][1..]];
      tasks := tasks - {task};
    }

    // scheduler_mlfq_init_task of a task that is in no queue; oom says that
    // malloc fails, and then the task stays outside.
    method InitTask(task: Task, oom: bool)
      requires Valid() && task !in tasks
      modifies `queues, `chains, `tasks, task, tasks`next
      ensures Valid() && task.state == old(task.state)
      ensures oom ==> chains == old(chains) && tasks == old(tasks) && unchanged(task)
      ensures !oom ==> tasks == old(tasks) + {task} && task.timeSlice == Quantum(base, 0)
                       && chains == old(chains)[0 := old(chains)[0] + [task]]
    {
      if oom {
        return;
      }
      QuantumIs(queues[0], chains[0], Quantum(base, 0));
      task.hasParams, task.currentQueue, task.timeSlice := true, 0, queues[0].quantum;
      Enqueue(0, task);
    }

    lemma Heads()
      requires Consistent()
      ensures |chains| == |queues| == QUEUES && forall i | 0 <= i < QUEUES :: queues[i].head == null <==> chains[i] == []
    {
      forall i | 0 <= i < QUEUES
        ensures queues[i].head == null <==> chains[i] == []
      {
        QuantumIs(queues[i], chains[i], Quantum(base, i));
      }
    }

    // The head of queue i goes to the end of queue 0 with a full slice.
    method Promote(i: nat)
      requires Consistent() && 0 < i < QUEUES && chains[i] != []
      modifies `queues, `chains, `tasks, tasks
      ensures Consistent() && tasks == old(tasks)
      ensures var t := old(chains)[i][0];
        && chains == old(chains)[i := old(chains)[i][1..]][0 := old(chains)[0] + [t]]
        && t in tasks && t.state == old(t.state) && t.timeSlice == Quantum(base, 0)
        && forall x | x in tasks && x != t :: x.state == old(x.state) && x.timeSlice == old(x.timeSlice)
    {
      hide Covers, Holds, Quantum;
      CoversApart(chains, tasks, i);
      var task := Dequeue(i);
      Join(task, 0);
    }

    // A task taken out joins queue i with a full slice.
    method Join(task: Task, i: nat)
      requires Consistent() && task !in tasks && task.hasParams && i < QUEUES
      modifies `queues, `chains, `tasks, task, tasks`next
      ensures Consistent() && tasks == old(tasks) + {task}
      ensures chains == old(chains)[i := old(chains)[i] + [task]]
      ensures task.currentQueue == i && task.timeSlice == Quantum(base, i) && task.state == old(task.state)
    {
      hide Covers, Holds, Quantum;
      Heads();
      QuantumIs(queues[i], chains[i], Quantum(base, i));
      task.currentQueue := i;
      task.timeSlice := queues[i].quantum;
      Enqueue(i, task);
    }

    // The inner loop of scheduler_mlfq_boost: queue i is appended to queue 0.
    method Drain(i: nat) returns (ghost moved: set<Task>)
      requires Consistent() && 0 < i < QUEUES
      modifies `queues, `chains, `tasks, tasks
      ensures Consistent() && tasks == old(tasks) && moved == Elements(old(chains)[i])
      ensures chains == Drained(old(chains), i, |old(chains)[i]|)
      ensures forall t | t in tasks :: t.state == old(t.state)
      ensures forall t | t in tasks :: t.timeSlice == if t in moved then Quantum(base, 0) else old(t.timeSlice)
    {
      hide Covers, Holds, Quantum, Drained, Elements;
      ghost var was := chains;
      ghost var k: nat := 0;
      moved := {};
      Heads();
      DrainedStart(was, i);
      ElementsNext(was[i], |was[i]|);
      while queues[i].head != null
        invariant Consistent() && tasks == old(tasks) && k <= |was[i]|
        invariant chains == Drained(was, i, k) && (queues[i].head == null <==> k == |was[i]|)
        invariant moved == Elements(was[i][..k])
        invariant forall t | t in tasks :: t.state == old(t.state)
        invariant forall t | t in tasks :: t.timeSlice == if t in moved then Quantum(base, 0) else old(t.timeSlice)
        decreases |was[i]| - k
      {
        DrainedStep(was, i, k);
        Promote(i);
        Heads();
        moved := moved + {was[i][k]};
        ElementsNext(was[i], k);
        k := k + 1;
      }
    }

    // scheduler_mlfq_boost: queue 0 becomes all the queues in order.
    method Boost()
      requires Consistent()
      modifies this, tasks
      ensures Valid() && tasks == old(tasks) && boostCounter == 0
      ensures chains == [Flatten(old(chains))] + seq(QUEUES - 1, i => [])
      ensures forall t | t in tasks :: t.state == old(t.state)
      ensures forall t | t in tasks :: t.timeSlice == if t in old(chains)[0] then old(t.timeSlice) else Quantum(base, 0)
      ensures forall t | t in tasks :: t.currentQueue == 0
    {
      ghost var was := chains;
      ghost var moved := {};
      var i := 1;
      hide Covers, Holds, Quantum, Drained;
      AllSomewhere(was, tasks);
      while i < QUEUES
        invariant 1 <= i <= QUEUES && Consistent() && tasks == old(tasks)
        invariant chains == Collected(was, i) && moved == set j, t | 1 <= j < i && t in was[j] :: t
        invariant forall t | t in tasks :: t.state == old(t.state)
        invariant forall t | t in tasks :: t.timeSlice == if t in moved then Quantum(base, 0) else old(t.timeSlice)
      {
        CollectedStep(was, i);
        ghost var m := Drain(i);
        moved := moved + m;
        i := i + 1;
      }
      boostCounter := 0;
      CollectedAll(was);
      AllInFirst();
    }

    // Where only queue 0 has tasks, every task names it.
    lemma AllInFirst()
      requires Consistent() && |chains| == QUEUES && forall i | 0 < i < QUEUES :: chains[i] == []
      ensures forall t | t in tasks :: t.currentQueue == 0
    {
    }

    // scheduler_mlfq_update_queue: a task out of time goes to the end of the
    // next queue, or of the last one, with a full slice; any other stays.
    method UpdateQueue(task: Task)
      requires Valid() && (task in tasks || !task.hasParams)
      modifies `queues, `chains, `tasks, task, tasks`next
      ensures Valid() && tasks == old(tasks)
      ensures !old(task.hasParams) || old(task.timeSlice) > 0 ==> chains == old(chains) && forall t | t in tasks :: unchanged(t)
      ensures old(task.hasParams) && old(task.timeSlice) == 0 ==>
        (old(task.currentQueue) < QUEUES && chains == Demoted(old(chains), old(task.currentQueue), task)
         && task.currentQueue == (if old(task.currentQueue) == 7 then 7 else old(task.currentQueue) + 1)
         && task.timeSlice == Quantum(base, task.currentQueue)
         && task.state == old(task.state))
    {
      if !task.hasParams {
        return;
      }
      if task.timeSlice == 0 {
        Demote(task, task.currentQueue);
      }
    }

    method Demote(task: Task, i: nat)
      requires Consistent() && task in tasks && i == task.currentQueue
      modifies `queues, `chains, `tasks, task, tasks`next
      ensures Consistent() && tasks == old(tasks) && i < QUEUES
      ensures |old(chains)| == QUEUES && chains == Demoted(old(chains), i, task)
      ensures task.currentQueue == Below(i) && task.timeSlice == Quantum(base, Below(i))
      ensures task.state == old(task.state)
    {
      hide Covers, Holds, Quantum, Without, Below, Demoted;
      Placed(task);
      Heads();
      BelowIs(i);
      var nextQueue := i + 1;
      if nextQueue >= QUEUES {
        nextQueue := QUEUES - 1;
      }
      Remove(i, task);
      Join(task, nextQueue);
      DemotedIs(old(chains), i, task);
    }

    method Remove(i: nat, task: Task)
      requires Consistent() && task in tasks && i == task.currentQueue
      modifies `queues, `chains, `tasks, tasks`next
      ensures Consistent() && i < QUEUES && tasks == old(tasks) - {task} && task.hasParams
      ensures |old(chains)| == QUEUES && chains == old(chains)[i := Without(old(chains)[i], task)]
    {
      hide Covers, Holds, Quantum, Without;
      Placed(task);
      CoversApart(chains, tasks, i);
      QuantumIs(queues[i], chains[i], Quantum(base, i));
      CoversWithout(chains, tasks, i, task);
      var q := Unlink(queues[i], task, chains[i]);
      queues := queues[i := q];
      chains := chains[i := Without(chains[i], task)];
      tasks := tasks - {task};
    }

    lemma Placed(task: Task)
      requires Consistent() && task in tasks
      ensures |chains| == QUEUES && task.currentQueue < QUEUES && task in chains[task.currentQueue] && task.hasParams
    {
      assert Holds(queues[task.currentQueue], chains[task.currentQueue], Quantum(base, task.currentQueue));
    }

    // scheduler_mlfq_tick for the running task: it pays one tick, and every
    // BOOST_PERIOD such ticks all tasks go back to queue 0.
    method Tick(current: Task?)
      requires Valid() && (current == null || !current.hasParams || current in tasks)
      modifies this, tasks
      ensures Valid() && tasks == old(tasks)
      ensures current == null || !old(current.hasParams) ==> unchanged(this) && forall t | t in tasks :: unchanged(t)
      ensures current != null && old(current.hasParams) && old(boostCounter) + 1 < BOOST_PERIOD ==>
        && boostCounter == old(boostCounter) + 1 && chains == old(chains)
        && current.timeSlice == (if old(current.timeSlice) > 0 then old(current.timeSlice) - 1 else 0)
        && current.state == old(current.state) && current.currentQueue == old(current.currentQueue)
        && forall t | t in tasks && t != current :: unchanged(t)
      ensures current != null && old(current.hasParams) && old(boostCounter) + 1 == BOOST_PERIOD ==>
        && boostCounter == 0 && chains == [Flatten(old(chains))] + seq(QUEUES - 1, i => [])
        && forall t | t in tasks ::
          && t.state == old(t.state) && t.currentQueue == 0
          && t.timeSlice == if t !in old(chains)[0] then Quantum(base, 0)
                            else if t == current && old(t.timeSlice) > 0 then old(t.timeSlice) - 1
                            else old(t.timeSlice)
    {
      if current != null && current.hasParams {
        if current.timeSlice > 0 {
          Pay(current);
        }
        boostCounter := boostCounter + 1;
        if boostCounter >= BOOST_PERIOD {
          Boost();
        }
      }
    }

    method Pay(current: Task)
      requires Consistent() && current in tasks && current.timeSlice > 0
      modifies current`timeSlice
      ensures Consistent() && current.timeSlice == old(current.timeSlice) - 1
    {
      current.timeSlice := current.timeSlice - 1;
    }

    // scheduler_mlfq_next: the first ready task in queue order, then in
    // order of arrival.
    method Next() returns (task: Task?)
      requires Valid()
      ensures task == null ==> forall t | t in tasks :: t.state != Ready
      ensures task != null ==> task in tasks && task.state == Ready && task.currentQueue < QUEUES
      ensures task != null ==> forall j, t | 0 <= j < task.currentQueue && t in chains[j] :: t.state != Ready
      ensures task != null ==> forall t | t in chains[task.currentQueue][..Position(chains[task.currentQueue], task)] :: t.state != Ready
    {
      var i: nat := 0;
      task := null;
      while i < QUEUES
        invariant i <= QUEUES && task == null && forall j, t | 0 <= j < i && t in chains[j] :: t.state != Ready
      {
        task := FirstReady(queues[i], chains[i]);
        if task != null {
          return;
        }
        i := i + 1;
      }
    }
  }

  method FirstReady(q: Queue, ghost c: seq<Task>) returns (task: Task?)
    requires Linked(q, c)
    ensures task == null ==> forall t | t in c :: t.state != Ready
    ensures task != null ==> task in c && task.state == Ready && forall t | t in c[..Position(c, task)] :: t.state != Ready
  {
    task := q.head;
    ghost var p: nat := 0;
    while task != null
      invariant p <= |c| && task == (if p < |c| then c[p] else null)
      invariant forall r | 0 <= r < p :: c[r].state != Ready
      decreases |c| - p
    {
      if task.state == Ready {
        assert Position(c, task) == p;
        return;
      }
      task := task.next;
      p := p + 1;
    }
  }
}