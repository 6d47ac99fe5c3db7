// The typed message queue (src/msg_queue.c): a ring of message slots from
// whose middle a receiver may take the first message of a type.
module MsgQueue {
  import opened Common
  import opened Widths
  import opened Ring

  // What a slot holds, byte by byte.
  datatype Msg = Msg(bytes: seq<byte>)

  const LONG := 4   // sizeof(long)

  // msg->type, a little-endian long at the front.
  function TypeOf(m: Msg): (t: int)
    requires |m.bytes| >= LONG
    ensures -MAX_INT - 1 <= t <= MAX_INT
  {
    var b0: int, b1: int, b2: int, b3: int := m.bytes[0], m.bytes[1], m.bytes[2], m.bytes[3];
    var v := b0 + 0x100 * b1 + 0x1_0000 * b2 + 0x100_0000 * b3;
    if v > MAX_INT then v - W32 else v
  }

  // The bytes of a long, least significant first.
  function LongBytes(t: int): (s: seq<byte>)
    requires -MAX_INT - 1 <= t <= MAX_INT
    ensures |s| == LONG
  {
    var v := t % W32;
    [v % 0x100, v / 0x100 % 0x100, v / 0x1_0000 % 0x100, v / 0x100_0000]
  }

  lemma Quarters(v: nat)
    requires v < W32
    ensures v % 0x100 + 0x100 * (v / 0x100 % 0x100) + 0x1_0000 * (v / 0x1_0000 % 0x100) + 0x100_0000 * (v / 0x100_0000) == v
  {
    assert v / 0x1_0000 == v / 0x100 / 0x100 && v / 0x100_0000 == v / 0x1_0000 / 0x100;
  }

  // A message that starts with a long has that long as its type.
  lemma TypeOfLong(t: int, body: seq<byte>)
    requires -MAX_INT - 1 <= t <= MAX_INT
    ensures TypeOf(Msg(LongBytes(t) + body)) == t
    ensures LongBytes(1) == [1, 0, 0, 0] && LongBytes(-2) == [0xFE, 0xFF, 0xFF, 0xFF]
  {
    Quarters(t % W32);
  }

  // What sending the first size bytes of msg leaves in a slot.
  function Stored(slot: Msg, msg: seq<byte>, size: nat): (m: Msg)
    requires size <= |msg| && size <= |slot.bytes|
    ensures |m.bytes| == |slot.bytes| && m.bytes[..size] == msg[..size] && m.bytes[size..] == slot.bytes[size..]
  {
    Msg(Over(slot.bytes, 0, msg[..size]))
  }

  // Its type is that of the message if the type is sent at all.
  lemma StoredType(slot: Msg, msg: seq<byte>, size: nat)
    requires LONG <= size <= |msg| && size <= |slot.bytes|
    ensures TypeOf(Stored(slot, msg, size)) == TypeOf(Msg(msg))
  {
    var m := Stored(slot, msg, size);
    assert forall i | 0 <= i < LONG :: m.bytes[i] == m.bytes[..size][i] == msg[..size][i] == msg[i];
  }

  // The unsigned (s - 1 + n) % n of the source.
  function Back(s: nat, n: nat): (p: nat)
    requires s < n
    ensures p < n
  {
    (s - 1 + n) % W32 % n
  }

  lemma Reduce(x: nat, m: nat)
    requires 0 < m && x < 2 * m
    ensures x % m == if x < m then x else x - m
  {
  }

  lemma BackOf(s: nat, n: nat, y: nat)
    requires s < n < W32 && y == (if s - 1 + n < W32 then s - 1 + n else s - 1 + n - W32)
    ensures Back(s, n) == y % n
  {
    Reduce(s - 1 + n, W32);
  }

  // It is the slot before, if and only if the sum does not wrap 32 bits.
  lemma BackIs(s: nat, n: nat)
    requires s < n < W32
    ensures Back(s, n) == (if s == 0 then n - 1 else s - 1) <==> s == 0 || s - 1 + n < W32
  {
    hide Back;
    var x := s - 1 + n;
    var y := if x < W32 then x else x - W32;
    BackOf(s, n, y);
    Reduce(y, n);
  }

  // So it steps back from every slot if and only if there are at most 2^31.
  lemma BackFromAll(n: nat)
    requires 0 < n < W32
    ensures (forall s | 0 <= s < n :: Back(s, n) == if s == 0 then n - 1 else s - 1) <==> n <= 0x8000_0000
  {
    forall s | 0 <= s < n
      ensures Back(s, n) == (if s == 0 then n - 1 else s - 1) <==> s == 0 || s - 1 + n < W32
    {
      BackIs(s, n);
    }
    BackIs(n - 1, n);
  }

  lemma StepBack(h: nat, i: nat, n: nat)
    requires h < n && 0 < i <= n && n <= 0x8000_0000
    ensures Back(Slot(h, i, n), n) == Slot(h, i - 1, n)
  {
    hide Back;
    BackIs(Slot(h, i, n), n);
  }

  // ---------- the bounded sequence ----------

  ghost predicate Matches(m: Msg, mtype: int) {
    mtype == 0 || IsOf(m, mtype)
  }

  // The first message a receiver of this type may take, or |s|.
  ghost function First(s: seq<Msg>, mtype: int): (k: nat)
    ensures k <= |s| && (k < |s| ==> Matches(s[k], mtype))
    ensures forall i | 0 <= i < k :: !Matches(s[i], mtype)
  {
    if s == [] || Matches(s[0], mtype) then 0 else 1 + First(s[1..], mtype)
  }

  lemma FirstIs(s: seq<Msg>, mtype: int, k: nat)
    requires k <= |s| && (k < |s| ==> Matches(s[k], mtype)) && forall i | 0 <= i < k :: !Matches(s[i], mtype)
    ensures First(s, mtype) == k
  {
  }

  // A message sent with type t, behind others that a receiver will not take,
  // is what this receiver gets, if and only if it asked for t or for any type.
  lemma SentIsFound(s: seq<Msg>, slot: Msg, t: int, body: seq<byte>, size: nat, mtype: int)
    requires -MAX_INT - 1 <= t <= MAX_INT && LONG <= size <= LONG + |body| && size <= |slot.bytes|
    requires First(s, mtype) == |s|
    ensures var m := Stored(slot, LongBytes(t) + body, size);
            && m.bytes[..size] == (LongBytes(t) + body)[..size]
            && (First(s + [m], mtype) == |s| <==> mtype == 0 || mtype == t)
  {
    var m := Stored(slot, LongBytes(t) + body, size);
    StoredType(slot, LongBytes(t) + body, size);
    TypeOfLong(t, body);
    hide TypeOf, LongBytes, Stored, First;
    FirstIs(s + [m], mtype, if mtype == 0 || mtype == t then |s| else |s| + 1);
  }

  ghost function Without(s: seq<Msg>, k: nat): seq<Msg>
    requires k < |s|
  {
    s[..k] + s[k + 1..]
  }

  lemma ShiftedIs(s: seq<Msg>, k: nat)
    requires k < |s|
    ensures |Without(s, k)| == |s| - 1
    ensures forall i {:trigger ([s[0]] + Without(s, k))[i]} | 0 <= i < |s| :: ([s[0]] + Without(s, k))[i] == if 0 < i <= k then s[i - 1] else s[i]
  {
  }

  ghost predicate IsOf(m: Msg, mtype: int) {
    |m.bytes| >= LONG && TypeOf(m) == mtype
  }

  ghost function OfType(s: seq<Msg>, mtype: int): seq<Msg> {
    if s == [] then [] else (if IsOf(s[0], mtype) then [s[0]] else []) + OfType(s[1..], mtype)
  }

  lemma {:induction false} OfTypeAppend(s: seq<Msg>, t: seq<Msg>, mtype: int)
    ensures OfType(s + t, mtype) == OfType(s, mtype) + OfType(t, mtype)
  {
    if s == [] {
      assert s + t == t;
    } else {
      assert (s + t)[0] == s[0] && (s + t)[1..] == s[1..] + t;
      OfTypeAppend(s[1..], t, mtype);
      var a, b := OfType(s[1..], mtype), OfType(t, mtype);
      assert [s[0]] + (a + b) == ([s[0]] + a) + b && [] + (a + b) == ([] + a) + b;
    }
  }

  // Each type is a queue of its own: a typed receive takes the oldest message
  // of its type and disturbs no other type.
  lemma TypesAreQueues(s: seq<Msg>, mtype: int, other: int)
    requires mtype != 0 && First(s, mtype) < |s|
    ensures var k := First(s, mtype);
      OfType(s, other) == (if other == mtype then [s[k]] else []) + OfType(Without(s, k), other)
  {
    hide OfType, First;
    var k := First(s, mtype);
    var a, b, m := s[..k], s[k + 1..], s[k];
    assert s == a + ([m] + b) && Without(s, k) == a + b;
    OfTypeOne(m, other);
    OfTypeAppend(a, [m] + b, other);
    OfTypeAppend([m], b, other);
    OfTypeAppend(a, b, other);
    if other == mtype {
      NoneOfType(a, mtype);
    }
    Rejoin(OfType(a, other), OfType([m], other), OfType(b, other));
  }

  lemma Rejoin(a: seq<Msg>, m: seq<Msg>, b: seq<Msg>)
    ensures m == [] || a == [] ==> a + (m + b) == m + (a + b)
  {
  }

  lemma OfTypeOne(m: Msg, mtype: int)
    ensures OfType([m], mtype) == if IsOf(m, mtype) then [m] else []
  {
    assert [m][1..] == [];
  }

  lemma {:induction false} NoneOfType(s: seq<Msg>, mtype: int)
    requires forall i | 0 <= i < |s| :: !IsOf(s[i], mtype)
    ensures OfType(s, mtype) == []
  {
    if s != [] {
      NoneOfType(s[1..], mtype);
    }
  }

  class MsgQueue {
    const maxMsgs: nat
    const maxSize: nat
    const buffer: array<Msg>
    var count: nat
    var head: nat
    var tail: nat

    ghost predicate Sized()
      reads buffer
    {
      forall i | 0 <= i < buffer.Length :: |buffer[i].bytes| == maxSize
    }

    ghost predicate Valid()
      reads this, buffer
    {
      && LONG <= maxSize && Sized() && buffer.Length == maxMsgs && maxMsgs <= 0x8000_0000 && count <= maxMsgs
      && (if maxMsgs == 0 then head == tail == 0 else head < maxMsgs && tail == Slot(head, count, maxMsgs))
    }

    ghost function Contents(): (s: seq<Msg>)
      requires Valid()
      reads this, buffer
      ensures |s| == count
    {
      seq(count, i requires 0 <= i < count && Valid() reads this, buffer => buffer[Slot(head, i, maxMsgs)])
    }

    // From slot h on the buffer reads s.
    ghost predicate Spells(h: nat, s: seq<Msg>)
      requires buffer.Length == maxMsgs && h < maxMsgs && |s| <= maxMsgs
      reads buffer
    {
      forall i | 0 <= i < |s| :: buffer[Slot(h, i, maxMsgs)] == s[i]
    }

    lemma ContentsSpelled(s: seq<Msg>)
      requires Valid() && count > 0 && |s| == count
      ensures Spells(head, s) <==> Contents() == s
    {
      forall i | 0 <= i < count
        ensures Contents()[i] == buffer[Slot(head, i, maxMsgs)]
      {
      }
    }

    // The queue msgq_create makes, the buffer holding whatever malloc left.
    constructor (maxMsgs: nat, maxSize: nat, blank: Msg)
      requires maxMsgs <= 0x8000_0000 && LONG <= maxSize == |blank.bytes|
      ensures Valid() && Contents() == [] && this.maxMsgs == maxMsgs && this.maxSize == maxSize && fresh(buffer)
    {
      this.maxMsgs, this.maxSize := maxMsgs, maxSize;
      buffer := new Msg[maxMsgs](_ => blank);
      count, head, tail := 0, 0, 0;
    }

    // msgq_send of the first size bytes of msg; false where the source
    // returns -1.
    method Send(msg: seq<byte>, size: nat) returns (ok: bool)
      requires Valid() && size <= |msg| && size <= maxSize
      modifies this, buffer
      ensures Valid()
      ensures ok <==> old(count) < maxMsgs
      ensures Contents() == if ok then old(Contents()) + [Stored(old(buffer[tail]), msg, size)] else old(Contents())
    {
      if count >= maxMsgs {
        return false;
      }
      buffer[tail] := Stored(buffer[tail], msg, size);
      ModIsSlot(tail, 1, maxMsgs);
      tail := (tail + 1) % maxMsgs;
      count := count + 1;
      return true;
    }

    // The typed search.
    method Search(mtype: int) returns (current: nat, found: bool, ghost k: nat)
      requires Valid() && count > 0
      ensures k == First(Contents(), mtype) && (found <==> k < count)
      ensures found ==> current == Slot(head, k, maxMsgs)
    {
      current := head;
      var left := count;
      k := 0;
      while left > 0
        invariant k + left == count && current == Slot(head, k, maxMsgs)
        invariant forall i | 0 <= i < k :: !Matches(Contents()[i], mtype)
      {
        assert Contents()[k] == buffer[current];
        if mtype == 0 || TypeOf(buffer[current]) == mtype {
          FirstIs(Contents(), mtype, k);
          return current, true, k;
        }
        ModIsSlot(current, 1, maxMsgs);
        current := (current + 1) % maxMsgs;
        left := left - 1;
        k := k + 1;
      }
      FirstIs(Contents(), mtype, k);
      found := false;
    }

    // One memcpy of the shift.
    method MoveUp(to: nat, from: nat)
      requires to < buffer.Length && from < buffer.Length && Sized()
      modifies buffer
      ensures Sized() && forall i | 0 <= i < buffer.Length :: buffer[i] == if i == to then old(buffer[from]) else old(buffer[i])
    {
      buffer[to] := buffer[from];
    }

    // The backward shift: the messages before slot current move one slot up.
    method Shift(current: nat, ghost k: nat, ghost s: seq<Msg>)
      requires Valid() && k < count == |s| && current == Slot(head, k, maxMsgs) && Spells(head, s)
      modifies buffer
      ensures Sized() && Spells(head, [s[0]] + Without(s, k))
    {
      hide Slot, Back, Without, Sized;
      var start := current;
      ghost var j: nat := k;
      while start != head
        invariant j <= k && start == Slot(head, j, maxMsgs) && Sized()
        invariant forall i {:trigger Slot(head, i, maxMsgs)} | 0 <= i < count :: buffer[Slot(head, i, maxMsgs)] == if j < i <= k then s[i - 1] else s[i]
        decreases j
      {
        SlotInjective(head, maxMsgs, j);
        StepBack(head, j, maxMsgs);
        var prev := Back(start, maxMsgs);
        MoveUp(start, prev);
        start := prev;
        j := j - 1;
      }
      SlotInjective(head, maxMsgs, j);
      ShiftedIs(s, k);
    }

    // msgq_receive of size bytes: the first message of the type leaves, the
    // rest keep their order; without one nothing changes.
    method Receive(mtype: int, size: nat) returns (ok: bool, msg: seq<byte>)
      requires Valid() && size <= maxSize
      modifies this, buffer
      ensures Valid()
      ensures var s := old(Contents()); var k := First(s, mtype);
        if k < |s| then ok && |s[k].bytes| == maxSize && msg == s[k].bytes[..size] && Contents() == Without(s, k)
        else !ok && Contents() == s && unchanged(this) && unchanged(buffer)
    {
      msg := [];
      if count == 0 {
        return false, msg;
      }
      var current, found;
      ghost var k;
      current, found, k := Search(mtype);
      if !found {
        return false, msg;
      }
      msg := buffer[current].bytes[..size];
      TakeOut(current, k);
      ok := true;
    }

    method TakeOut(current: nat, ghost k: nat)
      requires Valid() && k < count && current == Slot(head, k, maxMsgs)
      modifies this, buffer
      ensures Valid() && Contents() == Without(old(Contents()), k)
    {
      hide Sized;
      ghost var s, h := Contents(), head;
      ghost var t := Without(s, k);
      ContentsSpelled(s);
      if current != head {
        Shift(current, k, s);
      } else {
        SlotInjective(head, maxMsgs, k);
        assert s == [s[0]] + t;
      }
      ModIsSlot(head, 1, maxMsgs);
      SpellsRest(h, s[0], t);
      head := (head + 1) % maxMsgs;
      count := count - 1;
      if count > 0 {
        ContentsSpelled(t);
      }
    }

    lemma SpellsRest(h: nat, m: Msg, t: seq<Msg>)
      requires buffer.Length == maxMsgs && h < maxMsgs && |t| < maxMsgs && Spells(h, [m] + t)
      ensures Spells(Slot(h, 1, maxMsgs), t)
    {
      forall i | 0 <= i < |t|
        ensures buffer[Slot(Slot(h, 1, maxMsgs), i, maxMsgs)] == t[i]
      {
        assert Slot(Slot(h, 1, maxMsgs), i, maxMsgs) == Slot(h, i + 1, maxMsgs);
        assert t[i] == ([m] + t)[i + 1];
      }
    }
  }
}
