// Runs of alloc_block and free_block (src/fs_core.c) with anything that
// leaves the bitmaps alone in between.
module BlockRuns {
  import opened BlockCache
  import opened FsLayout
  import opened FsCore

  // One call and what came of it: block r was handed out, no block was free,
  // block b, in use, was given back, or no bitmap was touched.
  datatype Call = Took(r: nat) | Full | Gave(b: nat) | Other

  // ---------- on the set of free blocks ----------

  ghost predicate Can(free: set<nat>, c: Call) {
    match c
    case Took(r) => r in free && forall b | b in free :: r <= b
    case Full => free == {}
    case Gave(b) => b !in free
    case Other => true
  }

  ghost function Then(free: set<nat>, c: Call): set<nat> {
    match c
    case Took(r) => free - {r}
    case Full => free
    case Gave(b) => free + {b}
    case Other => free
  }

  ghost function FreeAfter(free: set<nat>, calls: seq<Call>): set<nat> {
    if calls == [] then free else Then(FreeAfter(free, calls[..|calls| - 1]), calls[|calls| - 1])
  }

  // Every call was possible when it was made.
  ghost predicate Run(free: set<nat>, calls: seq<Call>) {
    forall i | 0 <= i < |calls| :: Can(FreeAfter(free, calls[..i]), calls[i])
  }

  // A block handed out stays in use until it is given back.
  lemma {:induction false} StaysInUse(free: set<nat>, calls: seq<Call>, i: nat, j: nat)
    requires Run(free, calls) && i < j <= |calls| && calls[i].Took?
    requires forall k | i < k < j :: calls[k] != Gave(calls[i].r)
    ensures calls[i].r !in FreeAfter(free, calls[..j])
    decreases j
  {
    var before := calls[..j];
    assert before[..j - 1] == calls[..j - 1] && before[j - 1] == calls[j - 1];
    if i < j - 1 {
      StaysInUse(free, calls, i, j - 1);
    }
  }

  ghost function Taken(calls: seq<Call>): nat {
    if calls == [] then 0 else Taken(calls[..|calls| - 1]) + if calls[|calls| - 1].Took? then 1 else 0
  }

  ghost function Given(calls: seq<Call>): nat {
    if calls == [] then 0 else Given(calls[..|calls| - 1]) + if calls[|calls| - 1].Gave? then 1 else 0
  }

  lemma {:induction false} FreeCount(free: set<nat>, calls: seq<Call>)
    requires Run(free, calls)
    ensures |FreeAfter(free, calls)| == |free| - Taken(calls) + Given(calls)
  {
    if calls != [] {
      var n := |calls| - 1;
      var before := calls[..n];
      forall i | 0 <= i < n
        ensures Can(FreeAfter(free, before[..i]), before[i])
      {
        assert before[..i] == calls[..i];
      }
      FreeCount(free, before);
      assert Can(FreeAfter(free, before), calls[n]);
    }
  }

  // ---------- on the disk ----------

  // What a reader of the disk sees, and the superblock in memory.
  datatype Disk = Disk(view: seq<Block>, sb: Superblock)

  ghost function Free(d: Disk): set<nat>
    requires Counted(d.view, d.sb)
  {
    FreeBlocks(d.view, d.sb)
  }

  // What the contracts of Mount.Alloc and Mount.Free say of each outcome.
  ghost predicate Next(d: Disk, c: Call, d': Disk) {
    && Counted(d.view, d.sb) && Counted(d'.view, d'.sb)
    && match c
       case Took(r) => Allocated(d.view, d.sb, r, d'.view, d'.sb)
       case Full => d.sb.free_blocks == 0 && d' == d
       case Gave(b) => Freed(d.view, d.sb, b, d'.view, d'.sb)
       case Other => Free(d') == Free(d)
  }

  lemma NextIsThen(d: Disk, c: Call, d': Disk)
    requires Next(d, c, d')
    ensures Can(Free(d), c) && Free(d') == Then(Free(d), c)
  {
  }

  ghost predicate Trace(disks: seq<Disk>, calls: seq<Call>) {
    && |disks| == |calls| + 1 && Counted(disks[0].view, disks[0].sb)
    && forall i | 0 <= i < |calls| :: Next(disks[i], calls[i], disks[i + 1])
  }

  lemma {:induction false} TraceFree(disks: seq<Disk>, calls: seq<Call>, n: nat)
    requires Trace(disks, calls) && n <= |calls|
    ensures Counted(disks[n].view, disks[n].sb)
    ensures Free(disks[n]) == FreeAfter(Free(disks[0]), calls[..n])
    ensures Run(Free(disks[0]), calls[..n])
    decreases n
  {
    hide Next, Counted;
    if n > 0 {
      TraceFree(disks, calls, n - 1);
      assert Next(disks[n - 1], calls[n - 1], disks[n]);
      NextCounted(disks[n - 1], calls[n - 1], disks[n]);
      NextIsThen(disks[n - 1], calls[n - 1], disks[n]);
      assert calls[..n][..n - 1] == calls[..n - 1];
      forall i | 0 <= i < n
        ensures Can(FreeAfter(Free(disks[0]), calls[..n][..i]), calls[..n][i])
      {
        assert calls[..n][..i] == calls[..i];
        if i < n - 1 {
          assert calls[..n - 1][..i] == calls[..i];
        }
      }
    }
  }

  lemma NextCounted(d: Disk, c: Call, d': Disk)
    requires Next(d, c, d')
    ensures Counted(d.view, d.sb) && Counted(d'.view, d'.sb)
  {
  }

  // Over every run no block is handed out twice without being given back in
  // between.
  lemma NeverTwice(disks: seq<Disk>, calls: seq<Call>, i: nat, j: nat)
    requires Trace(disks, calls) && i < j < |calls| && calls[i].Took? && calls[j] == calls[i]
    ensures exists k :: i < k < j && calls[k] == Gave(calls[i].r)
  {
    hide Counted, Next;
    TraceFree(disks, calls, |calls|);
    assert calls[..|calls|] == calls;
    var free := Free(disks[0]);
    assert Can(FreeAfter(free, calls[..j]), calls[j]);
    if forall k | i < k < j :: calls[k] != Gave(calls[i].r) {
      StaysInUse(free, calls, i, j);
    }
  }

  // Blocks are neither lost nor made: the counter is what it was at first,
  // less the blocks handed out, plus those given back.
  lemma CountConserved(disks: seq<Disk>, calls: seq<Call>)
    requires Trace(disks, calls)
    ensures disks[|calls|].sb.free_blocks == disks[0].sb.free_blocks - Taken(calls) + Given(calls)
  {
    TraceFree(disks, calls, |calls|);
    assert calls[..|calls|] == calls;
    FreeCount(Free(disks[0]), calls);
  }

  // ---------- the methods make such runs ----------

  // A mount with its history.
  class History {
    const mp: Mount
    ghost var disks: seq<Disk>
    ghost var calls: seq<Call>

    ghost predicate Valid()
      reads this, mp, mp.cache, mp.cache.Repr
    {
      && mp.Valid() && this !in mp.cache.Repr && Trace(disks, calls)
      && disks[|calls|] == Disk(mp.cache.view, mp.sb)
    }

    constructor (mp: Mount)
      requires mp.Valid()
      ensures Valid() && this.mp == mp && calls == []
    {
      this.mp := mp;
      disks, calls := [Disk(mp.cache.view, mp.sb)], [];
    }

    ghost method Note(c: Call)
      requires mp.Valid() && this !in mp.cache.Repr && Trace(disks, calls)
      requires Next(disks[|calls|], c, Disk(mp.cache.view, mp.sb))
      modifies this
      ensures Valid() && calls == old(calls) + [c]
    {
      hide Next, Counted;
      disks := disks + [Disk(mp.cache.view, mp.sb)];
      calls := calls + [c];
    }

    method Alloc() returns (r: nat)
      requires Valid()
      modifies this, mp, mp.cache.Repr
      ensures Valid() && fresh(mp.cache.Repr - old(mp.cache.Repr))
      ensures calls == old(calls) + [if r == 0 then Full else Took(r)]
    {
      r := mp.Alloc();
      hide Allocated;
      Note(if r == 0 then Full else Took(r));
    }

    // The caller gives back a block that is in use; then, and only then, the
    // counter stays right (FsCore.GaveBack).
    method Release(b: nat)
      requires Valid() && b < Total(mp.sb) && BitmapOf(mp.sb, b) < |mp.cache.view| && b !in FreeBlocks(mp.cache.view, mp.sb) && b != 0
      modifies this, mp, mp.cache.Repr
      ensures Valid() && fresh(mp.cache.Repr - old(mp.cache.Repr))
      ensures calls == old(calls) + [Gave(b)]
    {
      mp.Free(b);
      Note(Gave(b));
    }
  }
}
