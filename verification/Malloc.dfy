// The heap allocator (src/malloc.c): first fit over a doubly linked list of
// blocks with split, extend and two-sided merge.  Memory is a map from the
// address of a header to the header; the payload starts BLOCK_SIZE bytes
// above it.
module Malloc {
  import opened Widths

  const WORD := 4                 // sizeof(size_t)
  const BLOCK_SIZE := 20          // sizeof(block_t)
  const MAX_REQUEST := 0xFFFF_FFE8

  // ---------- 32-bit sizes ----------

  function Align32(x: nat): (a: nat)
    ensures a < W32 && a % WORD == 0
    ensures x <= W32 - WORD ==> x <= a < x + WORD
    ensures W32 - WORD < x < W32 ==> a == 0
  {
    var y := (x + WORD - 1) % W32;
    y - y % WORD
  }

  // What extend_heap asks of sys_brk for a rounded size.
  function Total(size: nat): nat {
    Align32((size + BLOCK_SIZE) % W32)
  }

  // The rounded request and the rounded request with its header fit in
  // size_t exactly up to MAX_REQUEST.
  lemma RequestFits(x: nat)
    requires x < W32
    ensures x <= MAX_REQUEST <==> Align32(x) >= x && Total(Align32(x)) == Align32(x) + BLOCK_SIZE
  {
  }

  // Beyond it the sum wraps, and sys_brk is asked for no more than a header.
  lemma RequestWraps(x: nat)
    requires MAX_REQUEST < x < W32
    ensures Total(Align32(x)) <= BLOCK_SIZE
  {
    RequestFits(x);
  }

  lemma RoundedUp(x: nat)
    requires 0 < x <= MAX_REQUEST
    ensures Align32(x) >= x && Align32(x) % WORD == 0 && Total(Align32(x)) == Align32(x) + BLOCK_SIZE
  {
    RequestFits(x);
  }

  // ---------- the block list ----------

  datatype Header = Header(size: nat, next: nat, prev: nat, free: bool)

  datatype Blk = Blk(addr: nat, size: nat, free: bool)

  function End(b: Blk): nat {
    b.addr + BLOCK_SIZE + b.size
  }

  // Blocks cover the heap from base to brk without gap or overlap.
  ghost predicate Tiles(s: seq<Blk>, base: nat, brk: nat) {
    && 0 < base && base % WORD == 0 && (if s == [] then brk == base else s[0].addr == base && End(s[|s| - 1]) == brk)
    && (forall i, j | 0 <= i < j < |s| && j == i + 1 :: End(s[i]) == s[j].addr)
    && (forall i | 0 <= i < |s| :: s[i].size > 0 && s[i].size % WORD == 0)
  }

  ghost predicate NoAdjacentFree(s: seq<Blk>) {
    forall i, j | 0 <= i < j < |s| && j == i + 1 :: !(s[i].free && s[j].free)
  }

  // Tiling blocks lie in address order ...
  lemma {:induction false} Ordered(s: seq<Blk>, base: nat, brk: nat, i: nat, j: nat)
    requires Tiles(s, base, brk) && i < j < |s|
    ensures End(s[i]) <= s[j].addr
  {
    if i + 1 < j {
      Ordered(s, base, brk, i, j - 1);
      assert End(s[j - 1]) == s[j].addr;
    }
  }

  // ... and inside the heap.
  lemma Inside(s: seq<Blk>, base: nat, brk: nat, i: nat)
    requires Tiles(s, base, brk) && i < |s|
    ensures base <= s[i].addr && End(s[i]) <= brk
  {
    if i > 0 {
      Ordered(s, base, brk, 0, i);
    }
    if i < |s| - 1 {
      Ordered(s, base, brk, i, |s| - 1);
    }
  }

  lemma Start(s: seq<Blk>, base: nat, brk: nat)
    requires Tiles(s, base, brk)
    ensures 0 < base <= brk
  {
    if s != [] {
      Inside(s, base, brk, 0);
    }
  }

  lemma NonNull(s: seq<Blk>, base: nat, brk: nat)
    requires Tiles(s, base, brk)
    ensures forall i | 0 <= i < |s| :: s[i].addr > 0
  {
    forall i | 0 <= i < |s|
      ensures s[i].addr > 0
    {
      Inside(s, base, brk, i);
    }
  }

  // So a block is known by its address.
  lemma Distinct(s: seq<Blk>, base: nat, brk: nat)
    requires Tiles(s, base, brk)
    ensures forall i, j | 0 <= i < j < |s| :: s[i].addr < s[j].addr
  {
    forall i, j | 0 <= i < j < |s|
      ensures s[i].addr < s[j].addr
    {
      Ordered(s, base, brk, i, j);
    }
  }

  ghost function NextAddr(s: seq<Blk>, i: nat): nat
    requires i < |s|
  {
    if i + 1 < |s| then s[i + 1].addr else 0
  }

  ghost function PrevAddr(s: seq<Blk>, i: nat): nat
    requires i < |s|
  {
    if i > 0 then s[i - 1].addr else 0
  }

  ghost predicate HeaderOk(mem: map<nat, Header>, s: seq<Blk>, i: nat)
    requires i < |s|
  {
    s[i].addr in mem && mem[s[i].addr] == Header(s[i].size, NextAddr(s, i), PrevAddr(s, i), s[i].free)
  }

  // The headers in memory spell out s.
  ghost predicate Reflects(mem: map<nat, Header>, start: nat, end: nat, s: seq<Blk>) {
    && start == (if s == [] then 0 else s[0].addr) && end == (if s == [] then 0 else s[|s| - 1].addr)
    && forall i | 0 <= i < |s| :: HeaderOk(mem, s, i)
  }

  // ---------- what the allocator does to the list ----------

  ghost predicate Fits(b: Blk, size: nat) {
    b.free && b.size >= size
  }

  // The first block that fits, or |s|.
  ghost function FirstFit(s: seq<Blk>, size: nat): (i: nat)
    ensures i <= |s| && (i < |s| ==> Fits(s[i], size)) && (forall k | 0 <= k < i :: !Fits(s[k], size))
  {
    if s == [] || Fits(s[0], size) then 0 else 1 + FirstFit(s[1..], size)
  }

  lemma FirstIs(s: seq<Blk>, size: nat, i: nat)
    requires i <= |s| && (i < |s| ==> Fits(s[i], size)) && (forall k | 0 <= k < i :: !Fits(s[k], size))
    ensures FirstFit(s, size) == i
  {
  }

  ghost function Mark(s: seq<Blk>, i: nat, free: bool): seq<Blk>
    requires i < |s|
  {
    s[i := Blk(s[i].addr, s[i].size, free)]
  }

  // What is left of block i beyond size becomes a free block if it can hold
  // a header and a word.
  ghost function Split(s: seq<Blk>, i: nat, size: nat): seq<Blk>
    requires i < |s| && s[i].size >= size
  {
    var b := s[i];
    if b.size - size >= BLOCK_SIZE + WORD then
      s[..i] + [Blk(b.addr, size, b.free), Blk(b.addr + BLOCK_SIZE + size, b.size - size - BLOCK_SIZE, true)] + s[i + 1..]
    else s
  }

  ghost function Take(s: seq<Blk>, i: nat, size: nat): seq<Blk>
    requires i < |s| && s[i].size >= size
  {
    Split(Mark(s, i, false), i, size)
  }

  // Blocks i and i + 1 become one.
  ghost function Join(s: seq<Blk>, i: nat): seq<Blk>
    requires i + 1 < |s|
  {
    s[..i] + [Blk(s[i].addr, s[i].size + BLOCK_SIZE + s[i + 1].size, s[i].free)] + s[i + 2..]
  }

  ghost function JoinAfter(s: seq<Blk>, i: nat): seq<Blk>
    requires i < |s|
  {
    if i + 1 < |s| && s[i + 1].free then Join(s, i) else s
  }

  ghost function JoinBefore(s: seq<Blk>, i: nat): seq<Blk>
    requires i < |s|
  {
    if i > 0 && s[i - 1].free then Join(s, i - 1) else s
  }

  ghost function Give(s: seq<Blk>, i: nat): seq<Blk>
    requires i < |s|
  {
    JoinBefore(JoinAfter(Mark(s, i, true), i), i)
  }

  // Element by element.
  lemma SplitAt(s: seq<Blk>, i: nat, size: nat)
    requires i < |s| && s[i].size >= size + BLOCK_SIZE + WORD
    ensures |Split(s, i, size)| == |s| + 1
    ensures forall k | 0 <= k < i :: Split(s, i, size)[k] == s[k]
    ensures Split(s, i, size)[i] == Blk(s[i].addr, size, s[i].free)
    ensures Split(s, i, size)[i + 1] == Blk(s[i].addr + BLOCK_SIZE + size, s[i].size - size - BLOCK_SIZE, true)
    ensures forall k | i + 1 < k <= |s| :: Split(s, i, size)[k] == s[k - 1]
  {
  }

  lemma JoinAt(s: seq<Blk>, i: nat)
    requires i + 1 < |s|
    ensures |Join(s, i)| == |s| - 1
    ensures forall k | 0 <= k < i :: Join(s, i)[k] == s[k]
    ensures Join(s, i)[i] == Blk(s[i].addr, s[i].size + BLOCK_SIZE + s[i + 1].size, s[i].free)
    ensures forall k | i < k < |s| - 1 :: Join(s, i)[k] == s[k + 1]
  {
  }

  // ---------- tiling is kept ----------

  lemma MarkTiles(s: seq<Blk>, i: nat, free: bool, base: nat, brk: nat)
    requires Tiles(s, base, brk) && i < |s|
    ensures Tiles(Mark(s, i, free), base, brk)
  {
  }

  lemma SplitMeets(s: seq<Blk>, i: nat, size: nat, base: nat, brk: nat, k: nat)
    requires Tiles(s, base, brk) && i < |s| && s[i].size >= size + BLOCK_SIZE + WORD && k < |s|
    ensures |Split(s, i, size)| == |s| + 1 && End(Split(s, i, size)[k]) == Split(s, i, size)[k + 1].addr
  {
    SplitAt(s, i, size);
    hide Split;
    if k + 1 < |s| {
      assert End(s[k]) == s[k + 1].addr;
    }
    if k > 0 {
      assert End(s[k - 1]) == s[k].addr;
    }
  }

  lemma Rest(a: nat, b: nat)
    requires a >= b + BLOCK_SIZE + WORD && a % WORD == 0 && b % WORD == 0
    ensures (a - b - BLOCK_SIZE) % WORD == 0
  {
  }

  lemma SplitTiles(s: seq<Blk>, i: nat, size: nat, base: nat, brk: nat)
    requires Tiles(s, base, brk) && i < |s| && s[i].size >= size && size > 0 && size % WORD == 0
    ensures Tiles(Split(s, i, size), base, brk)
  {
    if s[i].size >= size + BLOCK_SIZE + WORD {
      var s' := Split(s, i, size);
      SplitAt(s, i, size);
      forall k, j | 0 <= k < j < |s'| && j == k + 1
        ensures End(s'[k]) == s'[j].addr
      {
        SplitMeets(s, i, size, base, brk, k);
      }
      hide Split;
      forall k | 0 <= k < |s'|
        ensures s'[k].size > 0 && s'[k].size % WORD == 0
      {
        if k == i + 1 {
          Rest(s[i].size, size);
        }
      }
      assert End(s'[|s|]) == brk;
    }
  }

  lemma JoinTiles(s: seq<Blk>, base: nat, brk: nat, i: nat)
    requires Tiles(s, base, brk) && i + 1 < |s|
    ensures Tiles(Join(s, i), base, brk)
  {
    var s' := Join(s, i);
    JoinAt(s, i);
    hide Join;
    assert End(s'[i]) == End(s[i + 1]);
    forall k, j | 0 <= k < j < |s'| && j == k + 1
      ensures End(s'[k]) == s'[j].addr
    {
      if k < i {
        assert s'[j].addr == s[j].addr;
      }
    }
  }

  // ---------- neighbours are never both free ----------

  lemma TakeNoAdjacent(s: seq<Blk>, i: nat, size: nat)
    requires NoAdjacentFree(s) && i < |s| && Fits(s[i], size)
    ensures NoAdjacentFree(Take(s, i, size))
  {
    var t := Mark(s, i, false);
    if t[i].size >= size + BLOCK_SIZE + WORD {
      SplitAt(t, i, size);
      var s' := Split(t, i, size);
      hide Split;
      forall k, j | 0 <= k < j < |s'| && j == k + 1
        ensures !(s'[k].free && s'[j].free)
      {
        if k == i + 1 {
          assert s'[j] == s[i + 1];
          assert s[i].free;
        } else if k > i + 1 {
          assert s'[k] == s[k - 1] && s'[j] == s[k];
        }
      }
    }
  }

  lemma GiveNoAdjacent(s: seq<Blk>, i: nat)
    requires NoAdjacentFree(s) && i < |s|
    ensures NoAdjacentFree(Give(s, i))
  {
    var t := Mark(s, i, true);
    var u := JoinAfter(t, i);
    if i + 1 < |t| {
      JoinAt(t, i);
    }
    assert forall k, j | 0 <= k < j < |u| && j == k + 1 && k != i - 1 :: !(u[k].free && u[j].free) by {
      hide Join;
    }
    assert u[i].free && (i > 0 ==> u[i - 1] == s[i - 1]);
    if i > 0 {
      JoinAt(u, i - 1);
    }
    hide Join, JoinAfter, Mark;
    if i > 0 && u[i - 1].free {
      var v := Join(u, i - 1);
      forall k, j | 0 <= k < j < |v| && j == k + 1
        ensures !(v[k].free && v[j].free)
      {
        if k < i - 1 {
          assert v[k] == u[k] && v[j].free ==> u[j].free;
        } else {
          assert v[j] == u[j + 1];
          assert !(u[i].free && u[i + 1].free);
        }
      }
    }
  }

  // ---------- live allocations ----------

  ghost function Live(s: seq<Blk>): set<Blk> {
    set b | b in s && !b.free
  }

  // Bytes [lo, hi) and [lo', hi') do not meet.
  ghost predicate Apart(lo: nat, hi: nat, lo': nat, hi': nat) {
    hi <= lo' || hi' <= lo
  }

  // Two live payloads never overlap, no payload meets any header, and all
  // of them lie inside the heap.
  lemma LiveApart(s: seq<Blk>, base: nat, brk: nat, b: Blk, c: Blk)
    requires Tiles(s, base, brk) && b in s && c in s
    ensures base <= b.addr && End(b) <= brk
    ensures b != c ==> Apart(b.addr + BLOCK_SIZE, End(b), c.addr + BLOCK_SIZE, End(c))
    ensures Apart(b.addr + BLOCK_SIZE, End(b), c.addr, c.addr + BLOCK_SIZE)
  {
    var i :| 0 <= i < |s| && s[i] == b;
    var j :| 0 <= j < |s| && s[j] == c;
    Inside(s, base, brk, i);
    if i < j {
      Ordered(s, base, brk, i, j);
    } else if j < i {
      Ordered(s, base, brk, j, i);
    }
  }

  // When everything has been freed the heap is one free block.
  lemma AllFreed(s: seq<Blk>, base: nat, brk: nat)
    requires Tiles(s, base, brk) && NoAdjacentFree(s) && Live(s) == {}
    ensures s == [] || (|s| == 1 && s[0].free && s[0].addr == base && End(s[0]) == brk)
  {
    if |s| > 1 {
      assert !(s[0].free && s[1].free);
    }
    forall i | 0 <= i < |s|
      ensures s[i].free
    {
      var b := s[i];
      assert b.free || b in Live(s);
    }
  }

  lemma TakeLive(s: seq<Blk>, i: nat, size: nat)
    requires i < |s| && Fits(s[i], size)
    ensures var t := Take(s, i, size); i < |t| && Live(t) == Live(s) + {t[i]}
    ensures Take(s, i, size)[i].addr == s[i].addr && size <= Take(s, i, size)[i].size < size + BLOCK_SIZE + WORD
  {
    var m := Mark(s, i, false);
    var t := Take(s, i, size);
    if m[i].size >= size + BLOCK_SIZE + WORD {
      SplitAt(m, i, size);
    }
    hide Split;
    forall b | b in t && !b.free
      ensures b in s || b == t[i]
    {
      var k :| 0 <= k < |t| && t[k] == b;
    }
    forall b | b in s && !b.free
      ensures b in t
    {
      var k :| 0 <= k < |s| && s[k] == b;
      assert k != i && b == (if |t| == |s| || k < i then t[k] else t[k + 1]);
    }
  }

  lemma JoinLive(s: seq<Blk>, i: nat)
    requires i + 1 < |s| && s[i].free && s[i + 1].free
    ensures Live(Join(s, i)) == Live(s)
  {
    var t := Join(s, i);
    JoinAt(s, i);
    hide Join;
    forall b | b in t && !b.free
      ensures b in s
    {
      var k :| 0 <= k < |t| && t[k] == b;
    }
    forall b | b in s && !b.free
      ensures b in t
    {
      var k :| 0 <= k < |s| && s[k] == b;
      assert b == (if k < i then t[k] else t[k - 1]);
    }
  }

  lemma MarkFreeLive(s: seq<Blk>, i: nat, base: nat, brk: nat)
    requires Tiles(s, base, brk) && i < |s| && !s[i].free
    ensures Live(Mark(s, i, true)) == Live(s) - {s[i]}
  {
    Distinct(s, base, brk);
    var t := Mark(s, i, true);
    forall b | b in t && !b.free
      ensures b in s && b != s[i]
    {
      var k :| 0 <= k < |t| && t[k] == b;
      assert k != i && (k < i || i < k);
    }
    forall b | b in s && !b.free && b != s[i]
      ensures b in t
    {
      var k :| 0 <= k < |s| && s[k] == b;
      assert b == t[k];
    }
  }

  lemma OneLive(s: seq<Blk>, base: nat, brk: nat, b: Blk)
    requires Tiles(s, base, brk) && b in Live(s)
    ensures forall c | c in Live(s) && c.addr == b.addr :: c == b
  {
    Distinct(s, base, brk);
    forall c | c in Live(s) && c.addr == b.addr
      ensures c == b
    {
      var i :| 0 <= i < |s| && s[i] == b;
      var j :| 0 <= j < |s| && s[j] == c;
      assert i <= j && j <= i;
    }
  }

  lemma GiveLive(s: seq<Blk>, i: nat, base: nat, brk: nat)
    requires Tiles(s, base, brk) && i < |s| && !s[i].free
    ensures Live(Give(s, i)) == Live(s) - {s[i]}
  {
    MarkFreeLive(s, i, base, brk);
    var t := Mark(s, i, true);
    if i + 1 < |t| && t[i + 1].free {
      JoinLive(t, i);
      JoinAt(t, i);
    }
    var u := JoinAfter(t, i);
    if i > 0 && u[i - 1].free {
      JoinLive(u, i - 1);
    }
  }

  // ---------- links in memory ----------

  // The header of the split-off part lands on no header.
  lemma SplitRoom(s: seq<Blk>, base: nat, brk: nat, i: nat, size: nat)
    requires Tiles(s, base, brk) && i < |s| && s[i].size >= size + BLOCK_SIZE + WORD
    ensures forall k | 0 <= k < |s| :: s[k].addr != s[i].addr + BLOCK_SIZE + size && s[k].addr > 0
    ensures forall j, k | 0 <= j < k < |s| :: s[j].addr < s[k].addr
  {
    Distinct(s, base, brk);
    forall k | 0 <= k < |s|
      ensures s[k].addr != s[i].addr + BLOCK_SIZE + size && s[k].addr > 0
    {
      Inside(s, base, brk, k);
      if i < k {
        Ordered(s, base, brk, i, k);
      }
    }
  }

  function SplitMem(mem: map<nat, Header>, block: nat, size: nat): map<nat, Header>
    requires block in mem && mem[block].size >= size + BLOCK_SIZE && (mem[block].next == 0 || mem[block].next in mem)
  {
    var rest, h := block + BLOCK_SIZE + size, mem[block];
    var m := mem[rest := Header(h.size - size - BLOCK_SIZE, h.next, block, true)][block := Header(size, rest, h.prev, h.free)];
    if h.next == 0 then m else m[h.next := m[h.next].(prev := rest)]
  }

  lemma SplitNeighbours(s: seq<Blk>, i: nat, size: nat, k: nat)
    requires i < |s| && s[i].size >= size + BLOCK_SIZE + WORD && k < |s|
    ensures var t, k', rest := Split(s, i, size), if k <= i then k else k + 1, s[i].addr + BLOCK_SIZE + size;
      && |t| == |s| + 1 && t[k'] == (if k == i then Blk(s[i].addr, size, s[i].free) else s[k])
      && NextAddr(t, k') == (if k == i then rest else NextAddr(s, k))
      && PrevAddr(t, k') == (if k == i + 1 then rest else PrevAddr(s, k))
  {
    SplitAt(s, i, size);
    hide Split;
  }

  lemma SplitMemAt(mem: map<nat, Header>, block: nat, size: nat, a: nat)
    requires block in mem && mem[block].size >= size + BLOCK_SIZE && (mem[block].next == 0 || mem[block].next in mem)
    requires a in mem && a != block + BLOCK_SIZE + size && (mem[block].next != block || mem[block].next == 0)
    ensures a in SplitMem(mem, block, size)
    ensures var rest, h := block + BLOCK_SIZE + size, mem[a];
      SplitMem(mem, block, size)[a] == (if a == block then Header(size, rest, h.prev, h.free)
                                        else if a == mem[block].next && a != 0 then h.(prev := rest) else h)
  {
  }

  // Every old block keeps its header but for the links to the new one.
  lemma SplitHeader(mem: map<nat, Header>, start: nat, end: nat, s: seq<Blk>, base: nat, brk: nat, i: nat, size: nat,
        k: nat)
    requires Tiles(s, base, brk) && Reflects(mem, start, end, s)
    requires i < |s| && s[i].size >= size + BLOCK_SIZE + WORD && k < |s|
    ensures HeaderOk(mem, s, i) && (mem[s[i].addr].next == 0 || mem[s[i].addr].next in mem)
    ensures |Split(s, i, size)| == |s| + 1
    ensures HeaderOk(SplitMem(mem, s[i].addr, size), Split(s, i, size), if k <= i then k else k + 1)
  {
    SplitNeighbours(s, i, size, k);
    SplitRoom(s, base, brk, i, size);
    hide Split, Tiles;
    assert HeaderOk(mem, s, i) && HeaderOk(mem, s, k);
    if i + 1 < |s| {
      assert HeaderOk(mem, s, i + 1);
    }
    assert k < i ==> s[k].addr < s[i].addr;
    assert k > i ==> s[i].addr < s[k].addr;
    assert i + 1 < |s| && k != i + 1 ==> s[k].addr != s[i + 1].addr;
    SplitMemAt(mem, s[i].addr, size, s[k].addr);
    hide Reflects, SplitMem;
  }

  lemma SplitReflects(mem: map<nat, Header>, start: nat, end: nat, s: seq<Blk>, base: nat, brk: nat, i: nat, size: nat)
    requires Tiles(s, base, brk) && Reflects(mem, start, end, s)
    requires i < |s| && s[i].size >= size + BLOCK_SIZE + WORD
    ensures HeaderOk(mem, s, i) && (mem[s[i].addr].next == 0 || mem[s[i].addr].next in mem)
    ensures mem[s[i].addr].next != 0 ==> mem[s[i].addr].next != s[i].addr + BLOCK_SIZE + size && mem[s[i].addr].next != s[i].addr
    ensures var end' := if mem[s[i].addr].next == 0 then s[i].addr + BLOCK_SIZE + size else end;
      Reflects(SplitMem(mem, s[i].addr, size), start, end', Split(s, i, size))
  {
    SplitAt(s, i, size);
    SplitRoom(s, base, brk, i, size);
    SplitHeader(mem, start, end, s, base, brk, i, size, i);
    var t, mem' := Split(s, i, size), SplitMem(mem, s[i].addr, size);
    forall k | 0 <= k < |t|
      ensures HeaderOk(mem', t, k)
    {
      if k == i + 1 {
        hide Split;
        assert i + 1 < |s| ==> s[i].addr < s[i + 1].addr;
      } else {
        SplitHeader(mem, start, end, s, base, brk, i, size, if k <= i then k else k - 1);
      }
    }
    hide Split, Tiles, SplitMem;
  }

  function JoinMem(mem: map<nat, Header>, block: nat): map<nat, Header>
    requires block in mem && mem[block].next in mem && (mem[mem[block].next].next == 0 || mem[mem[block].next].next in mem)
  {
    var h, n := mem[block], mem[mem[block].next];
    var m := mem[block := Header(h.size + BLOCK_SIZE + n.size, n.next, h.prev, h.free)];
    if n.next == 0 then m else m[n.next := m[n.next].(prev := block)]
  }

  lemma JoinNeighbours(s: seq<Blk>, i: nat, k: nat)
    requires i + 1 < |s| && k < |s| && k != i + 1
    ensures var t, k' := Join(s, i), if k <= i then k else k - 1;
      && |t| == |s| - 1 && t[k'] == (if k == i then Blk(s[i].addr, s[i].size + BLOCK_SIZE + s[i + 1].size, s[i].free) else s[k])
      && NextAddr(t, k') == (if k == i then NextAddr(s, i + 1) else NextAddr(s, k))
      && PrevAddr(t, k') == (if k == i + 2 then s[i].addr else PrevAddr(s, k))
  {
    JoinAt(s, i);
    hide Join;
  }

  lemma JoinLinks(mem: map<nat, Header>, start: nat, end: nat, s: seq<Blk>, base: nat, brk: nat, i: nat)
    requires Tiles(s, base, brk) && Reflects(mem, start, end, s) && i + 1 < |s|
    ensures HeaderOk(mem, s, i) && HeaderOk(mem, s, i + 1) && (i + 2 < |s| ==> HeaderOk(mem, s, i + 2))
    ensures forall j, k | 0 <= j < k < |s| :: s[j].addr < s[k].addr
    ensures NextAddr(s, i + 1) == 0 <==> i + 2 == |s|
  {
    Distinct(s, base, brk);
    Inside(s, base, brk, |s| - 1);
    if i + 2 < |s| {
      assert s[i].addr < s[i + 2].addr;
    }
  }

  lemma JoinHeader(mem: map<nat, Header>, start: nat, end: nat, s: seq<Blk>, base: nat, brk: nat, i: nat, k: nat)
    requires Tiles(s, base, brk) && Reflects(mem, start, end, s)
    requires i + 1 < |s| && k < |s| && k != i + 1
    ensures HeaderOk(mem, s, i) && HeaderOk(mem, s, i + 1) && (i + 2 < |s| ==> HeaderOk(mem, s, i + 2))
    ensures |Join(s, i)| == |s| - 1
    ensures HeaderOk(JoinMem(mem, s[i].addr), Join(s, i), if k <= i then k else k - 1)
  {
    JoinNeighbours(s, i, k);
    JoinLinks(mem, start, end, s, base, brk, i);
    assert HeaderOk(mem, s, k);
    hide Join, Tiles, Reflects;
    assert k < i ==> s[k].addr < s[i].addr;
    assert k > i ==> s[i].addr < s[k].addr;
    assert i + 2 < |s| && k != i + 2 ==> s[k].addr != s[i + 2].addr;
  }

  lemma JoinHeaders(mem: map<nat, Header>, start: nat, end: nat, s: seq<Blk>, base: nat, brk: nat, i: nat)
    requires Tiles(s, base, brk) && Reflects(mem, start, end, s) && i + 1 < |s|
    ensures HeaderOk(mem, s, i) && HeaderOk(mem, s, i + 1) && (i + 2 < |s| ==> HeaderOk(mem, s, i + 2))
    ensures forall k | 0 <= k < |Join(s, i)| :: HeaderOk(JoinMem(mem, s[i].addr), Join(s, i), k)
  {
    JoinAt(s, i);
    JoinLinks(mem, start, end, s, base, brk, i);
    forall k | 0 <= k < |Join(s, i)|
      ensures HeaderOk(JoinMem(mem, s[i].addr), Join(s, i), k)
    {
      JoinHeader(mem, start, end, s, base, brk, i, if k <= i then k else k + 1);
    }
  }

  lemma JoinReflects(mem: map<nat, Header>, start: nat, end: nat, s: seq<Blk>, base: nat, brk: nat, i: nat)
    requires Tiles(s, base, brk) && Reflects(mem, start, end, s) && i + 1 < |s|
    ensures HeaderOk(mem, s, i) && HeaderOk(mem, s, i + 1) && (i + 2 < |s| ==> HeaderOk(mem, s, i + 2))
    ensures NextAddr(s, i + 1) == 0 <==> i + 2 == |s|
    ensures 0 < s[i].addr < s[i + 1].addr && (i + 2 < |s| ==> s[i].addr < s[i + 2].addr)
    ensures Reflects(JoinMem(mem, s[i].addr), start, if i + 2 == |s| then s[i].addr else end, Join(s, i))
  {
    JoinAt(s, i);
    JoinLinks(mem, start, end, s, base, brk, i);
    JoinHeaders(mem, start, end, s, base, brk, i);
    Inside(s, base, brk, i);
    hide Join, Tiles, JoinMem, HeaderOk;
    assert s[i].addr < s[i + 1].addr;
  }

  lemma MarkReflects(mem: map<nat, Header>, start: nat, end: nat, s: seq<Blk>, base: nat, brk: nat, i: nat, free: bool)
    requires Tiles(s, base, brk) && Reflects(mem, start, end, s) && i < |s|
    ensures HeaderOk(mem, s, i)
    ensures Reflects(mem[s[i].addr := mem[s[i].addr].(free := free)], start, end, Mark(s, i, free))
  {
    Distinct(s, base, brk);
    hide Tiles;
    assert HeaderOk(mem, s, i);
    var t, mem' := Mark(s, i, free), mem[s[i].addr := mem[s[i].addr].(free := free)];
    forall k | 0 <= k < |s|
      ensures HeaderOk(mem', t, k)
    {
      assert HeaderOk(mem, s, k);
      assert k != i ==> s[k].addr != s[i].addr by {
        assert k < i ==> s[k].addr < s[i].addr;
      }
    }
  }

  function ExtendMem(mem: map<nat, Header>, end: nat, block: nat, size: nat): map<nat, Header>
    requires end == 0 || end in mem
  {
    var m := mem[block := Header(size, 0, end, false)];
    if end == 0 then m else m[end := m[end].(next := block)]
  }

  lemma ExtendReflects(mem: map<nat, Header>, start: nat, end: nat, s: seq<Blk>, base: nat, brk: nat, size: nat)
    requires Tiles(s, base, brk) && Reflects(mem, start, end, s)
    ensures end == 0 <==> s == []
    ensures end == 0 || (end in mem && end != brk)
    ensures Reflects(ExtendMem(mem, end, brk, size), if end == 0 then brk else start, brk, s + [Blk(brk, size, false)])
  {
    Distinct(s, base, brk);
    if s != [] {
      Inside(s, base, brk, |s| - 1);
      assert HeaderOk(mem, s, |s| - 1);
    }
    var t, mem' := s + [Blk(brk, size, false)], ExtendMem(mem, end, brk, size);
    forall k | 0 <= k < |t|
      ensures HeaderOk(mem', t, k)
    {
      if k < |s| {
        Inside(s, base, brk, k);
        assert HeaderOk(mem, s, k);
        assert k < |s| - 1 ==> s[k].addr < s[|s| - 1].addr;
      }
    }
  }

  // A successful malloc: first fit or a new block at the break, no other
  // block touched, and one more live block holding at least size bytes.
  ghost predicate Granted(s: seq<Blk>, brk: nat, t: seq<Blk>, brk': nat, p: nat, size: nat) {
    var want := Align32(size);
    var i := FirstFit(s, want);
    && (if i < |s| then t == Take(s, i, want) && brk' == brk
        else t == s + [Blk(brk, want, false)] && brk' == brk + BLOCK_SIZE + want)
    && exists b: Blk :: b !in Live(s) && Live(t) == Live(s) + {b} && b.addr + BLOCK_SIZE == p && b.size >= size
  }

  // The block taken keeps its place and is cut to the size asked for if what
  // is over holds a header and a word; what is over is then a free block.
  lemma TakenSizes(s: seq<Blk>, i: nat, size: nat)
    requires i < |s| && s[i].size >= size
    ensures var t := Take(s, i, size);
            && i < |t| && t[i].addr == s[i].addr && !t[i].free
            && (forall k | 0 <= k < i :: t[k] == s[k])
            && if s[i].size >= size + 24 then
                 && |t| == |s| + 1 && t[i].size == size
                 && t[i + 1] == Blk(s[i].addr + 20 + size, s[i].size - size - 20, true)
                 && forall k | i < k < |s| :: t[k + 1] == s[k]
               else
                 |t| == |s| && t[i].size == s[i].size && forall k | i < k < |s| :: t[k] == s[k]
  {
    var m := Mark(s, i, false);
    assert m[i] == Blk(s[i].addr, s[i].size, false) && forall k | 0 <= k < |s| && k != i :: m[k] == s[k];
    hide Mark;
    if s[i].size >= size + 24 {
      SplitAt(m, i, size);
    }
  }

  // Every payload address is a multiple of the word size.
  lemma {:induction false} Aligned(s: seq<Blk>, base: nat, brk: nat, i: nat)
    requires Tiles(s, base, brk) && i < |s|
    ensures (s[i].addr + BLOCK_SIZE) % WORD == 0
  {
    if i > 0 {
      Aligned(s, base, brk, i - 1);
      assert End(s[i - 1]) == s[i].addr;
    }
  }

  // A wrapped request reaches past every address the heap can have.
  lemma Oversize(base: nat, brk: nat, addr: nat, size: nat)
    requires 0 < base <= addr && base % WORD == 0 && brk < W32 && size > MAX_REQUEST
    ensures addr + BLOCK_SIZE + size > brk
  {
  }

  lemma TakeTiles(s: seq<Blk>, i: nat, size: nat, base: nat, brk: nat)
    requires Tiles(s, base, brk) && i < |s| && s[i].size >= size && size > 0 && size % WORD == 0
    ensures Tiles(Take(s, i, size), base, brk)
  {
    MarkTiles(s, i, false, base, brk);
    SplitTiles(Mark(s, i, false), i, size, base, brk);
  }

  lemma TakeGrants(s: seq<Blk>, base: nat, brk: nat, i: nat, want: nat)
    requires Tiles(s, base, brk) && i < |s| && Fits(s[i], want)
    ensures var t := Take(s, i, want);
      && i < |t| && t[i] !in Live(s) && Live(t) == Live(s) + {t[i]} && t[i].addr == s[i].addr && t[i].size >= want
  {
    TakeLive(s, i, want);
    FreshLive(s, base, brk, i, Take(s, i, want)[i]);
  }

  lemma GrantedFit(s: seq<Blk>, base: nat, brk: nat, size: nat)
    requires Tiles(s, base, brk) && NoAdjacentFree(s) && 0 < size <= MAX_REQUEST && FirstFit(s, Align32(size)) < |s|
    ensures var want := Align32(size); var i := FirstFit(s, want);
      && Tiles(Take(s, i, want), base, brk) && NoAdjacentFree(Take(s, i, want))
      && Granted(s, brk, Take(s, i, want), brk, s[i].addr + BLOCK_SIZE, size)
      && s[i].addr + BLOCK_SIZE + size <= brk
  {
    hide Align32, Total, FirstFit, Split, Take, Live, Tiles, NoAdjacentFree;
    RoundedUp(size);
    var want := Align32(size);
    var i := FirstFit(s, want);
    TakeNoAdjacent(s, i, want);
    TakeTiles(s, i, want, base, brk);
    TakeGrants(s, base, brk, i, want);
    Inside(s, base, brk, i);
  }

  lemma FreshLive(s: seq<Blk>, base: nat, brk: nat, i: nat, b: Blk)
    requires Tiles(s, base, brk) && i < |s| && s[i].free && b.addr == s[i].addr
    ensures b !in Live(s)
  {
    Distinct(s, base, brk);
    forall c | c in Live(s)
      ensures c != b
    {
      var k :| 0 <= k < |s| && s[k] == c;
      assert k < i || i < k;
    }
  }

  lemma GrantedTop(s: seq<Blk>, base: nat, brk: nat, size: nat)
    requires Tiles(s, base, brk) && NoAdjacentFree(s) && 0 < size <= MAX_REQUEST && FirstFit(s, Align32(size)) == |s|
    ensures var want := Align32(size); var b := Blk(brk, want, false);
      && want >= size && Total(want) == BLOCK_SIZE + want
      && Tiles(s + [b], base, brk + BLOCK_SIZE + want) && NoAdjacentFree(s + [b])
      && Granted(s, brk, s + [b], brk + BLOCK_SIZE + want, brk + BLOCK_SIZE, size)
  {
    RoundedUp(size);
    hide Align32, Total;
    var want := Align32(size);
    var b := Blk(brk, want, false);
    var t := s + [b];
    forall c | c in s
      ensures c != b
    {
      var k :| 0 <= k < |s| && s[k] == c;
      Inside(s, base, brk, k);
    }
    assert b in t;
    assert Live(t) == Live(s) + {b};
  }

  class Heap {
    var mem: map<nat, Header>
    var heapStart: nat
    var heapEnd: nat
    var brk: nat
    const base: nat
    const limit: nat    // sys_brk refuses to go beyond it
    ghost var blocks: seq<Blk>

    ghost predicate Linked()
      reads this
    {
      Tiles(blocks, base, brk) && Reflects(mem, heapStart, heapEnd, blocks)
    }

    ghost predicate Valid()
      reads this
    {
      Linked() && NoAdjacentFree(blocks) && brk <= limit < W32
    }

    constructor (start: nat, limit: nat)
      requires 0 < start <= limit < W32 && start % WORD == 0
      ensures Valid() && blocks == [] && base == brk == start && this.limit == limit
    {
      mem, heapStart, heapEnd, brk := map[], 0, 0, start;
      base, this.limit := start, limit;
      blocks := [];
    }

    // find_free_block: the lowest block that fits.
    method FindFreeBlock(size: nat) returns (block: nat)
      requires Linked()
      ensures var i := FirstFit(blocks, size); block == (if i < |blocks| then blocks[i].addr else 0) && (block == 0 <==> i == |blocks|)
    {
      block := heapStart;
      ghost var i := 0;
      NonNull(blocks, base, brk);
      hide Tiles;
      while block != 0
        invariant i <= |blocks| && block == (if i < |blocks| then blocks[i].addr else 0)
        invariant forall k | 0 <= k < i :: !Fits(blocks[k], size)
        decreases |blocks| - i
      {
        assert HeaderOk(mem, blocks, i);
        if mem[block].free && mem[block].size >= size {
          FirstIs(blocks, size, i);
          return;
        }
        block := mem[block].next;
        i := i + 1;
      }
      FirstIs(blocks, size, i);
    }

    // split_block: what the block does not need becomes a free block after it.
    method SplitBlock(block: nat, size: nat, ghost i: nat)
      requires Linked() && i < |blocks| && blocks[i].addr == block && blocks[i].size >= size
      modifies `mem, `heapEnd, `blocks
      ensures blocks == Split(old(blocks), i, size)
      ensures Reflects(mem, heapStart, heapEnd, blocks)
    {
      hide Tiles;
      assert HeaderOk(mem, blocks, i);
      if mem[block].size - size >= BLOCK_SIZE + WORD {
        var rest := block + BLOCK_SIZE + size;
        SplitReflects(mem, heapStart, heapEnd, blocks, base, brk, i, size);
        hide Reflects, Split;
        var h := mem[block];
        mem := mem[rest := Header(h.size - size - BLOCK_SIZE, h.next, block, true)];
        mem := mem[block := mem[block].(size := size, next := rest)];
        if h.next != 0 {
          mem := mem[h.next := mem[h.next].(prev := rest)];
        } else {
          heapEnd := rest;
        }
        blocks := Split(blocks, i, size);
      }
    }

    // extend_heap: a used block at the break, if sys_brk moves it.
    method ExtendHeap(size: nat) returns (block: nat)
      requires Linked() && brk <= limit
      modifies this
      ensures brk <= limit && (block == 0 <==> old(brk) + Total(size) > limit)
      ensures block == 0 ==> unchanged(this)
      ensures block != 0 ==> block == old(brk) && brk == old(brk) + Total(size) && blocks == old(blocks) + [Blk(block, size, false)]
      ensures Reflects(mem, heapStart, heapEnd, blocks)
    {
      var total := Align32((size + BLOCK_SIZE) % W32);
      if brk + total > limit {
        return 0;
      }
      ExtendReflects(mem, heapStart, heapEnd, blocks, base, brk, size);
      hide Reflects, Align32;
      block := brk;
      assert block != 0 by {
        Start(blocks, base, brk);
      }
      mem := mem[block := Header(size, 0, heapEnd, false)];
      if heapEnd != 0 {
        mem := mem[heapEnd := mem[heapEnd].(next := block)];
      } else {
        heapStart := block;
      }
      heapEnd := block;
      brk := brk + total;
      blocks := blocks + [Blk(block, size, false)];
    }

    // One half of merge_blocks: the block swallows the one after it.
    method Swallow(block: nat, ghost i: nat)
      requires Linked() && i + 1 < |blocks| && blocks[i].addr == block
      modifies `mem, `heapEnd, `blocks
      ensures Linked() && blocks == Join(old(blocks), i)
    {
      JoinReflects(mem, heapStart, heapEnd, blocks, base, brk, i);
      JoinTiles(blocks, base, brk, i);
      hide Reflects, Join, Tiles;
      var next := mem[block].next;
      mem := mem[block := mem[block].(size := mem[block].size + BLOCK_SIZE + mem[next].size)];
      mem := mem[block := mem[block].(next := mem[next].next)];
      if mem[block].next != 0 {
        mem := mem[mem[block].next := mem[mem[block].next].(prev := block)];
      } else {
        heapEnd := block;
      }
      assert heapEnd == if i + 2 == |blocks| then block else old(heapEnd);
      assert mem == JoinMem(old(mem), block);
      blocks := Join(blocks, i);
    }

    // merge_blocks: a freed block swallows a free one after it and is
    // swallowed by a free one before it.
    method MergeBlocks(block: nat, ghost i: nat)
      requires Linked() && i < |blocks| && blocks[i].addr == block
      modifies `mem, `heapEnd, `blocks
      ensures Linked() && blocks == JoinBefore(JoinAfter(old(blocks), i), i)
    {
      Links(i);
      if mem[block].next != 0 && mem[mem[block].next].free {
        Swallow(block, i);
        JoinAt(old(blocks), i);
        Links(i);
      }
      if mem[block].prev != 0 && mem[mem[block].prev].free {
        Swallow(mem[block].prev, i - 1);
      }
    }

    lemma Links(i: nat)
      requires Linked() && i < |blocks|
      ensures HeaderOk(mem, blocks, i)
      ensures i > 0 ==> HeaderOk(mem, blocks, i - 1) && blocks[i - 1].addr != 0
      ensures i + 1 < |blocks| ==> HeaderOk(mem, blocks, i + 1) && blocks[i + 1].addr != 0
    {
      if i > 0 {
        Inside(blocks, base, brk, i - 1);
      }
      if i + 1 < |blocks| {
        Inside(blocks, base, brk, i + 1);
      }
    }

    // The block found is marked and split.
    method TakeBlock(block: nat, size: nat, ghost i: nat)
      requires Linked() && i < |blocks| && blocks[i].addr == block && blocks[i].size >= size
      modifies `mem, `heapEnd, `blocks
      ensures blocks == Take(old(blocks), i, size)
      ensures Reflects(mem, heapStart, heapEnd, blocks)
      ensures base <= block
    {
      Inside(blocks, base, brk, i);
      MarkTiles(blocks, i, false, base, brk);
      MarkReflects(mem, heapStart, heapEnd, blocks, base, brk, i, false);
      hide Tiles, Reflects, Split;
      mem := mem[block := mem[block].(free := false)];
      blocks := Mark(blocks, i, false);
      SplitBlock(block, size, i);
    }

    // A null result means no block fits and sys_brk refuses, and changes
    // nothing.  A result promises all the bytes asked for exactly when the
    // request did not wrap; the payload is then a new live one.
    method Malloc(size: nat) returns (p: nat)
      requires Valid() && size < W32
      modifies this
      ensures var want, s := Align32(size), old(blocks);
        p == 0 <==> size == 0 || (FirstFit(s, want) == |s| && old(brk) + Total(want) > limit)
      ensures p == 0 ==> unchanged(this)
      ensures p != 0 ==> (p + size <= brk <==> size <= MAX_REQUEST)
      ensures p != 0 && size <= MAX_REQUEST ==> Valid() && Granted(old(blocks), old(brk), blocks, brk, p, size)
    {
      if size == 0 {
        return 0;
      }
      hide *;
      var want := Align32(size);
      var block := FindFreeBlock(want);
      if block != 0 {
        UseFit(block, size);
      } else {
        block := UseTop(size);
        if block == 0 {
          return 0;
        }
      }
      return block + BLOCK_SIZE;
    }

    // What malloc does with the block found ...
    method UseFit(block: nat, size: nat)
      requires Valid() && 0 < size < W32
      requires var i := FirstFit(blocks, Align32(size)); i < |blocks| && block == blocks[i].addr
      modifies this
      ensures block + BLOCK_SIZE + size <= brk <==> size <= MAX_REQUEST
      ensures size <= MAX_REQUEST ==> Valid() && Granted(old(blocks), old(brk), blocks, brk, block + BLOCK_SIZE, size)
    {
      ghost var i := FirstFit(blocks, Align32(size));
      if size <= MAX_REQUEST {
        GrantedFit(blocks, base, brk, size);
      }
      Start(blocks, base, brk);
      hide Tiles, NoAdjacentFree, Align32, Reflects, Granted, Take, FirstFit;
      TakeBlock(block, Align32(size), i);
      if size > MAX_REQUEST {
        Oversize(base, brk, block, size);
      }
    }

    // ... and without one.
    method UseTop(size: nat) returns (block: nat)
      requires Valid() && 0 < size < W32 && FirstFit(blocks, Align32(size)) == |blocks|
      modifies this
      ensures block == 0 <==> old(brk) + Total(Align32(size)) > limit
      ensures block == 0 ==> unchanged(this)
      ensures block != 0 ==> (block + BLOCK_SIZE + size <= brk <==> size <= MAX_REQUEST)
      ensures block != 0 && size <= MAX_REQUEST ==> Valid() && Granted(old(blocks), old(brk), blocks, brk, block + BLOCK_SIZE, size)
    {
      if size <= MAX_REQUEST {
        GrantedTop(blocks, base, brk, size);
      }
      Start(blocks, base, brk);
      hide Tiles, NoAdjacentFree, Align32, Reflects, Granted, FirstFit, Total;
      block := ExtendHeap(Align32(size));
      if block != 0 && size > MAX_REQUEST {
        Oversize(base, brk, block, size);
      }
    }

    // Freeing a live payload removes exactly that one; freeing null does
    // nothing.
    method Free(p: nat)
      requires Valid() && (p == 0 || exists b: Blk :: b in Live(blocks) && b.addr + BLOCK_SIZE == p)
      modifies `mem, `heapEnd, `blocks
      ensures Valid()
      ensures p == 0 ==> unchanged(this)
      ensures forall b | b in old(Live(blocks)) && b.addr + BLOCK_SIZE == p :: Live(blocks) == old(Live(blocks)) - {b}
    {
      if p == 0 {
        NonNull(blocks, base, brk);
        return;
      }
      ghost var b: Blk :| b in Live(blocks) && b.addr + BLOCK_SIZE == p;
      ghost var i :| 0 <= i < |blocks| && blocks[i] == b;
      OneLive(blocks, base, brk, b);
      GiveNoAdjacent(blocks, i);
      GiveLive(blocks, i, base, brk);
      hide Tiles, NoAdjacentFree, Reflects, Live, Give;
      Release(p - BLOCK_SIZE, i);
    }

    method Release(block: nat, ghost i: nat)
      requires Linked() && i < |blocks| && blocks[i].addr == block
      modifies `mem, `heapEnd, `blocks
      ensures Linked() && blocks == Give(old(blocks), i)
    {
      MarkTiles(blocks, i, true, base, brk);
      MarkReflects(mem, heapStart, heapEnd, blocks, base, brk, i, true);
      hide Tiles, Reflects, JoinBefore, JoinAfter;
      mem := mem[block := mem[block].(free := true)];
      blocks := Mark(blocks, i, true);
      MergeBlocks(block, i);
    }
  }
}
