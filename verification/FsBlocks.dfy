// Which blocks fs_write takes (src/fs_file.c:179-206): a file's pointers
// against the blocks that stop being free.
module FsBlocks {
  import opened BlockCache
  import opened FsLayout
  import opened FsCore
  import opened FsInode
  import opened FsFile

  // The blocks a file lies on, its indirect block included.
  ghost function BlocksOf(view: seq<Block>, inode: Inode): set<nat> {
    set i | 0 <= i <= SLOTS && Ptr(view, inode, i) != 0 :: Ptr(view, inode, i)
  }

  // From a to b: pointers that are there stay; new ones appear in these slots
  // alone and point to blocks that were free; the blocks that stop being free
  // are those b points to, and come before all that stay free.
  ghost predicate Fills(view: seq<Block>, sb: Superblock, a: Inode, slots: set<nat>, view': seq<Block>, sb': Superblock,
        b: Inode) {
    && Layout(sb, |view|) && Layout(sb', |view'|)
    && (forall i | 0 <= i <= SLOTS && Ptr(view, a, i) != 0 :: Ptr(view', b, i) == Ptr(view, a, i))
    && (forall i | 0 <= i <= SLOTS && Ptr(view, a, i) == 0 && Ptr(view', b, i) != 0 ::
          i in slots && Ptr(view', b, i) in FreeBlocks(view, sb))
    && FreeBlocks(view', sb') == FreeBlocks(view, sb) - BlocksOf(view', b)
    && (forall t, u | t in FreeBlocks(view, sb) && t !in FreeBlocks(view', sb') && u in FreeBlocks(view', sb') :: t < u)
    && Frame(view, sb, a, view', sb', b)
  }

  // And what stays: the superblock but for its counter, block 0 unless the
  // superblock was written to it, the rest of the inode, and every data block
  // that b does not lie on.
  ghost predicate Frame(view: seq<Block>, sb: Superblock, a: Inode, view': seq<Block>, sb': Superblock, b: Inode) {
    && 0 < sb.inodes_per_group && sb' == sb.(free_blocks := sb'.free_blocks) && |view'| == |view| && |view| > 0
    && ((view'[0] == view[0] && sb' == sb) || view'[0] == SbImage(sb'))
    && SameRest(a, b)
    && forall d | 0 < d < |view| && DataBlock(sb, d) && d !in BlocksOf(view', b) :: view'[d] == view[d]
  }

  lemma FrameNothing(view: seq<Block>, sb: Superblock, a: Inode)
    requires 0 < sb.inodes_per_group && |view| > 0
    ensures Frame(view, sb, a, view, sb, a)
  {
  }

  lemma FrameTwice(v: seq<Block>, s: Superblock, a: Inode, v': seq<Block>, s': Superblock, b: Inode,
                   v'': seq<Block>, s'': Superblock, c: Inode)
    requires Frame(v, s, a, v', s', b) && Frame(v', s', b, v'', s'', c) && BlocksOf(v', b) <= BlocksOf(v'', c)
    ensures Frame(v, s, a, v'', s'', c)
  {
    hide BlocksOf, SbImage, DataBlock;
    forall d | 0 < d < |v| && DataBlock(s, d) && d !in BlocksOf(v'', c)
      ensures v''[d] == v[d]
    {
      SameDataBlock(s, s', d);
    }
  }

  lemma BlocksKept(view: seq<Block>, a: Inode, view': seq<Block>, b: Inode)
    requires forall i | 0 <= i <= SLOTS && Ptr(view, a, i) != 0 :: Ptr(view', b, i) == Ptr(view, a, i)
    ensures BlocksOf(view, a) <= BlocksOf(view', b)
  {
    hide Ptr;
  }

  lemma FillsNothing(view: seq<Block>, sb: Superblock, tab: seq<Inode>, f: nat)
    requires FsInv(view, sb, tab) && f < |tab|
    ensures Fills(view, sb, tab[f], {}, view, sb, tab[f])
  {
    hide Ptr, DataBlock, FreeBlocks, Separate, IsZero, Frame;
    assert FileOk(view, sb, tab[f]);
    assert FreeBlocks(view, sb) == FreeBlocks(view, sb) - BlocksOf(view, tab[f]);
    FrameNothing(view, sb, tab[f]);
  }

  lemma FillsTwice(v: seq<Block>, s: Superblock, a: Inode, slots: set<nat>, v': seq<Block>, s': Superblock, b: Inode,
                   slots': set<nat>, v'': seq<Block>, s'': Superblock, c: Inode)
    requires Fills(v, s, a, slots, v', s', b) && Fills(v', s', b, slots', v'', s'', c)
    ensures Fills(v, s, a, slots + slots', v'', s'', c)
  {
    hide Ptr, FreeBlocks, Layout, Frame;
    BlocksKept(v', b, v'', c);
    FrameTwice(v, s, a, v', s', b, v'', s'', c);
    hide BlocksOf;
    forall i | 0 <= i <= SLOTS && Ptr(v, a, i) == 0 && Ptr(v'', c, i) != 0
      ensures i in slots + slots' && Ptr(v'', c, i) in FreeBlocks(v, s)
    {
      if Ptr(v', b, i) != 0 {
        assert Ptr(v'', c, i) == Ptr(v', b, i);
      }
    }
  }

  lemma FillsMore(v: seq<Block>, s: Superblock, a: Inode, slots: set<nat>, v': seq<Block>, s': Superblock, b: Inode,
                  more: set<nat>)
    requires Fills(v, s, a, slots, v', s', b) && forall i | i in slots && i <= SLOTS && Ptr(v', b, i) != 0 :: i in more
    ensures Fills(v, s, a, more, v', s', b)
  {
    hide Ptr, FreeBlocks, Layout, BlocksOf, Frame;
  }

  // The same pointers and the same bitmap as a state already reached.
  lemma FillsSame(v: seq<Block>, s: Superblock, a: Inode, slots: set<nat>, v': seq<Block>, s': Superblock, b: Inode,
                  v'': seq<Block>, b'': Inode)
    requires Fills(v, s, a, slots, v', s', b) && |v''| == |v'| && FreeBlocks(v'', s') == FreeBlocks(v', s')
    requires forall i | 0 <= i <= SLOTS :: Ptr(v'', b'', i) == Ptr(v', b, i)
    requires Frame(v', s', b, v'', s', b'')
    ensures Fills(v, s, a, slots, v'', s', b'')
  {
    hide Ptr, FreeBlocks, Layout, Frame;
    BlocksKept(v', b, v'', b'');
    BlocksKept(v'', b'', v', b);
    FrameTwice(v, s, a, v', s', b, v'', s', b'');
    hide BlocksOf;
  }

  // Pointing at a block writes no more than the indirect block.
  lemma PointedFrame(view: seq<Block>, sb: Superblock, inode: Inode, i: nat, r: nat, view': seq<Block>, inode': Inode)
    requires Pointed(view, inode, i, r, view', inode') && 0 < sb.inodes_per_group && |view| > 0
    ensures Frame(view, sb, inode, view', sb, inode')
  {
    var d := inode[INDIRECT_WORD];
    assert Ptr(view, inode, SLOTS) == d;
    if d != 0 {
      assert Ptr(view', inode', SLOTS) == d;
      assert d in BlocksOf(view', inode');
    }
    hide Ptr, BlocksOf, SbImage;
  }

  lemma AllocFrame(view: seq<Block>, sb: Superblock, r: nat, v: seq<Block>, s: Superblock, inode: Inode)
    requires Allocated(view, sb, r, v, s) && 0 < sb.inodes_per_group
    ensures Frame(view, sb, inode, v, s, inode)
  {
    hide FreeBlocks, BlocksOf, SbImage;
  }

  lemma PointedKeeps(view: seq<Block>, inode: Inode, i: nat, r: nat, view': seq<Block>, inode': Inode)
    requires Pointed(view, inode, i, r, view', inode')
    ensures BlocksOf(view, inode) <= BlocksOf(view', inode')
  {
    hide Ptr;
    BlocksKept(view, inode, view', inode');
  }

  // alloc_block, and the block's number put in slot i.
  lemma FillsOne(view: seq<Block>, sb: Superblock, tab: seq<Inode>, f: nat, i: nat, r: nat, v: seq<Block>, s: Superblock,
                 view': seq<Block>, inode: Inode)
    requires FsInv(view, sb, tab) && f < |tab| && Allocated(view, sb, r, v, s) && r != 0
    requires SameBlocks(view, v, tab[f]) && Pointed(v, tab[f], i, r, view', inode)
    requires FreeBlocks(view', s) == FreeBlocks(v, s)
    ensures Fills(view, sb, tab[f], {i}, view', s, inode)
  {
    AllocFrame(view, sb, r, v, s, tab[f]);
    PointedFrame(v, s, tab[f], i, r, view', inode);
    PointedKeeps(v, tab[f], i, r, view', inode);
    FrameTwice(view, sb, tab[f], v, s, tab[f], view', s, inode);
    assert FileOk(view, sb, tab[f]);
    forall j | 0 <= j <= SLOTS
      ensures Ptr(view', inode, j) == if j == i then r else Ptr(view, tab[f], j)
      ensures Ptr(view, tab[f], j) !in FreeBlocks(view, sb) || Ptr(view, tab[f], j) == 0
    {
      SamePtr(view, v, tab[f], j);
    }
    SamePtr(view, v, tab[f], i);
    assert 0 !in FreeBlocks(view, sb);
    hide Ptr, FreeBlocks, FsInv, FileOk, DataBlock, Counted, SameData, Frame;
    assert Ptr(view', inode, i) == r;
    assert r in BlocksOf(view', inode);
    forall b | b in FreeBlocks(view, sb)
      ensures b in BlocksOf(view', inode) <==> b == r
    {
    }
    assert FreeBlocks(view', s) == FreeBlocks(view, sb) - BlocksOf(view', inode);
  }

  // A file that had no block lies on the lowest ones of those that were free.
  lemma FromNothing(view: seq<Block>, sb: Superblock, a: Inode, slots: set<nat>, view': seq<Block>, sb': Superblock,
        b: Inode)
    requires Fills(view, sb, a, slots, view', sb', b) && forall i | 0 <= i <= SLOTS :: Ptr(view, a, i) == 0
    ensures BlocksOf(view', b) + FreeBlocks(view', sb') == FreeBlocks(view, sb)
    ensures BlocksOf(view', b) !! FreeBlocks(view', sb')
    ensures forall t, u | t in BlocksOf(view', b) && u in FreeBlocks(view', sb') :: t < u
  {
    hide Ptr, FreeBlocks, Layout, Frame;
    assert BlocksOf(view', b) <= FreeBlocks(view, sb);
    hide BlocksOf;
  }

  // ---------- the slots a write needs ----------

  // The blocks that hold bytes pos to pos + n - 1, and the indirect block if
  // one of them lies behind it.
  ghost predicate Needs(pos: nat, n: nat, i: nat) {
    0 < n && if i < SLOTS then pos < (i + 1) * BLOCK_SIZE && i * BLOCK_SIZE < pos + n
             else i == SLOTS && DIRECT * BLOCK_SIZE < pos + n
  }

  ghost function Slots(pos: nat, n: nat): set<nat> {
    set i | 0 <= i <= SLOTS && Needs(pos, n, i)
  }

  // What a write of count bytes at pos that got n of them down did.
  ghost predicate Allotted(view: seq<Block>, sb: Superblock, a: Inode, pos: nat, count: nat, n: nat, view': seq<Block>,
        sb': Superblock, b: Inode) {
    && Fills(view, sb, a, Slots(pos, n) + Slots(pos, count) * {SLOTS}, view', sb', b)
    && (forall i | i in Slots(pos, n) :: Ptr(view', b, i) != 0)
    && (n < count ==> (pos + n) / BLOCK_SIZE < SLOTS && Ptr(view', b, (pos + n) / BLOCK_SIZE) == 0
                      && sb'.free_blocks == 0)
  }

  lemma AllottedSame(v: seq<Block>, s: Superblock, a: Inode, pos: nat, count: nat, n: nat, v': seq<Block>,
                     s': Superblock, b: Inode, v'': seq<Block>, b'': Inode)
    requires Allotted(v, s, a, pos, count, n, v', s', b) && |v''| == |v'| && FreeBlocks(v'', s') == FreeBlocks(v', s')
    requires forall i | 0 <= i <= SLOTS :: Ptr(v'', b'', i) == Ptr(v', b, i)
    requires Frame(v', s', b, v'', s', b'')
    ensures Allotted(v, s, a, pos, count, n, v'', s', b'')
  {
    hide Ptr, Fills, FreeBlocks, Frame;
    FillsSame(v, s, a, Slots(pos, n) + Slots(pos, count) * {SLOTS}, v', s', b, v'', b'');
  }

  // The pointers the write will have to fill in.
  ghost function Missing(view: seq<Block>, inode: Inode, pos: nat, count: nat): set<nat> {
    set i | i in Slots(pos, count) && Ptr(view, inode, i) == 0
  }

  // The slots filled in from a to b.
  ghost function Filled(view: seq<Block>, a: Inode, view': seq<Block>, b: Inode): set<nat> {
    set i | 0 <= i <= SLOTS && Ptr(view, a, i) == 0 && Ptr(view', b, i) != 0
  }

  lemma {:induction false} AsMany(slots: set<nat>, view: seq<Block>, inode: Inode, blocks: set<nat>)
    requires forall i | i in slots :: i <= SLOTS && Ptr(view, inode, i) in blocks
    requires forall i, j | i in slots && j in slots && i != j :: Ptr(view, inode, i) != Ptr(view, inode, j)
    requires forall b | b in blocks :: exists i :: i in slots && Ptr(view, inode, i) == b
    ensures |slots| == |blocks|
  {
    hide Ptr;
    if slots == {} {
      assert blocks == {};
    } else {
      var i :| i in slots;
      var b := Ptr(view, inode, i);
      forall c | c in blocks - {b}
        ensures exists j :: j in slots - {i} && Ptr(view, inode, j) == c
      {
        var j :| j in slots && Ptr(view, inode, j) == c;
        assert j in slots - {i};
      }
      AsMany(slots - {i}, view, inode, blocks - {b});
    }
  }

  // One block is taken for every slot filled in.
  lemma OneForEach(view: seq<Block>, sb: Superblock, a: Inode, slots: set<nat>, view': seq<Block>, sb': Superblock,
        b: Inode)
    requires Fills(view, sb, a, slots, view', sb', b) && 0 < sb.inodes_per_group && 0 < sb'.inodes_per_group
    requires FileOk(view, sb, a) && FileOk(view', sb', b)
    ensures |FreeBlocks(view, sb)| == |FreeBlocks(view', sb')| + |Filled(view, a, view', b)|
  {
    var taken := FreeBlocks(view, sb) - FreeBlocks(view', sb');
    var filled := Filled(view, a, view', b);
    hide Ptr, FreeBlocks, Layout, DataBlock, Frame;
    forall i | i in filled
      ensures Ptr(view', b, i) in taken
    {
      assert Ptr(view', b, i) in BlocksOf(view', b);
    }
    forall t | t in taken
      ensures exists i :: i in filled && Ptr(view', b, i) == t
    {
      var i :| 0 <= i <= SLOTS && Ptr(view', b, i) == t;
      assert i in filled;
    }
    AsMany(filled, view', b, taken);
    assert FreeBlocks(view, sb) == FreeBlocks(view', sb') + taken;
  }

  lemma NextNeeded(pos: nat, count: nat, n: nat)
    requires n < count && (pos + n) / BLOCK_SIZE < SLOTS
    ensures (pos + n) / BLOCK_SIZE in Slots(pos, count)
  {
  }

  lemma NeedsMore(pos: nat, n: nat, count: nat)
    requires n <= count
    ensures Slots(pos, n) <= Slots(pos, count)
  {
  }

  // All the bytes get down exactly when there is a free block for every
  // pointer that is missing.
  lemma AllDownIff(view: seq<Block>, sb: Superblock, a: Inode, pos: nat, count: nat, n: nat, view': seq<Block>,
        sb': Superblock, b: Inode)
    requires Allotted(view, sb, a, pos, count, n, view', sb', b) && n <= count
    requires Counted(view, sb) && 0 < sb.inodes_per_group && Counted(view', sb') && 0 < sb'.inodes_per_group
    requires FileOk(view, sb, a) && FileOk(view', sb', b)
    ensures sb'.free_blocks == sb.free_blocks - |Filled(view, a, view', b)|
    ensures n == count ==> Filled(view, a, view', b) == Missing(view, a, pos, count)
    ensures n == count <==> |Missing(view, a, pos, count)| <= sb.free_blocks
  {
    hide Ptr, FreeBlocks, Layout, DataBlock, Needs, Frame;
    OneForEach(view, sb, a, Slots(pos, n) + Slots(pos, count) * {SLOTS}, view', sb', b);
    NeedsMore(pos, n, count);
    var filled, missing := Filled(view, a, view', b), Missing(view, a, pos, count);
    assert filled <= missing;
    if n == count {
      assert missing <= filled;
    } else {
      var i := (pos + n) / BLOCK_SIZE;
      NextNeeded(pos, count, n);
      assert i in missing && i !in filled;
      SubsetSize(filled, missing - {i});
    }
  }
}
