// fs_read and fs_write (src/fs_file.c:64-242) over the mounted file system.
module FsReadWrite {
  import opened Common
  import opened BlockCache
  import opened FsLayout
  import opened FsCore
  import opened FsInode
  import opened FsFile
  import opened FsBlocks

  // ---------- what a step of fs_write keeps ----------

  // The inode table is untouched.
  ghost predicate TableKept(view: seq<Block>, sb: Superblock, view': seq<Block>)
    requires TableFits(sb, |view|)
  {
    |view'| == |view| && forall i | 0 < i <= sb.inodes_count :: view'[InodeBlock(sb, i)] == view[InodeBlock(sb, i)]
  }

  // Only file f changes, its inode in memory becoming inode; the disk's
  // inode table and all other files stay as they are.
  ghost predicate Keeps(view: seq<Block>, sb: Superblock, tab: seq<Inode>, f: nat, view': seq<Block>,
        sb': Superblock, inode: Inode) {
    && FsInv(view, sb, tab) && f < |tab| && FsInv(view', sb', tab[f := inode])
    && sb' == sb.(free_blocks := sb'.free_blocks) && TableKept(view, sb, view')
    && forall g | 0 <= g < |tab| && g != f :: Contents(view', tab[g]) == Contents(view, tab[g])
  }

  lemma KeepsNothing(view: seq<Block>, sb: Superblock, tab: seq<Inode>, f: nat)
    requires FsInv(view, sb, tab) && f < |tab|
    ensures Keeps(view, sb, tab, f, view, sb, tab[f])
  {
    assert tab[f := tab[f]] == tab;
    hide FileOk, Separate, Contents, FreeBlocks, DataBlock, IsZero;
  }

  lemma KeepsTwice(v: seq<Block>, s: Superblock, tab: seq<Inode>, f: nat,
                   v': seq<Block>, s': Superblock, i': Inode, v'': seq<Block>, s'': Superblock, i'': Inode)
    requires Keeps(v, s, tab, f, v', s', i') && Keeps(v', s', tab[f := i'], f, v'', s'', i'')
    ensures Keeps(v, s, tab, f, v'', s'', i'')
  {
    assert tab[f := i'][f := i''] == tab[f := i''];
    forall g | 0 <= g < |tab| && g != f
      ensures Contents(v'', tab[g]) == Contents(v, tab[g])
    {
      assert tab[f := i'][g] == tab[g];
      assert FileOk(v, s, tab[g]);
    }
    forall i | 0 < i <= s.inodes_count
      ensures v''[InodeBlock(s, i)] == v[InodeBlock(s, i)]
    {
      assert InodeBlock(s', i) == InodeBlock(s, i);
    }
    hide FsInv, Contents;
  }

  // The inodes as the disk has them.
  ghost function DiskTab(view: seq<Block>, sb: Superblock): (tab: seq<Inode>)
    requires TableFits(sb, |view|)
    ensures |tab| == sb.inodes_count
  {
    seq(sb.inodes_count, f requires 0 <= f < sb.inodes_count => InodeAt(view, sb, f + 1))
  }

  lemma SameDiskTab(view: seq<Block>, sb: Superblock, view': seq<Block>, sb': Superblock)
    requires TableFits(sb, |view|) && TableKept(view, sb, view') && sb' == sb.(free_blocks := sb'.free_blocks)
    ensures TableFits(sb', |view'|) && DiskTab(view', sb') == DiskTab(view, sb)
  {
    forall i | 0 < i <= sb.inodes_count
      ensures InodeBlock(sb', i) == InodeBlock(sb, i) && InodeOffset(sb', i) == InodeOffset(sb, i)
    {
    }
    forall i | 0 < i <= sb.inodes_count
      ensures InodeAt(view', sb', i) == InodeAt(view, sb, i)
    {
    }
  }

  // A zeroed block in use that no file points to.
  ghost predicate Spare(view: seq<Block>, sb: Superblock, tab: seq<Inode>, r: nat) {
    && FsInv(view, sb, tab) && 0 < r < |view|
    && Unowned(view, tab, r) && DataBlock(sb, r) && r !in FreeBlocks(view, sb) && IsZero(view[r])
  }

  // What a step leaves file f with: the same bytes, and the same pointers
  // except in slot i.
  ghost predicate SameFile(view: seq<Block>, a: Inode, i: nat, view': seq<Block>, b: Inode) {
    && a[SIZE_WORD] == b[SIZE_WORD] <= MAX_BYTES && Contents(view', b) == Contents(view, a)
    && forall j | 0 <= j <= SLOTS && j != i :: Ptr(view', b, j) == Ptr(view, a, j)
  }

  lemma AllocStep(view: seq<Block>, sb: Superblock, tab: seq<Inode>, f: nat, r: nat, view': seq<Block>, sb': Superblock)
    requires FsInv(view, sb, tab) && f < |tab| && Allocated(view, sb, r, view', sb')
    ensures Keeps(view, sb, tab, f, view', sb', tab[f]) && Spare(view', sb', tab, r)
    ensures forall i :: SameFile(view, tab[f], i, view', tab[f])
    ensures SameBlocks(view, view', tab[f])
  {
    InvAfterAlloc(view, sb, tab, f, r, view', sb');
    assert tab[f := tab[f]] == tab;
    assert FileOk(view, sb, tab[f]);
    forall i | 0 <= i <= SLOTS
      ensures Ptr(view', tab[f], i) == Ptr(view, tab[f], i)
    {
      SamePtr(view, view', tab[f], i);
    }
    hide FsInv, Contents, Ptr, Unowned, IsZero;
  }

  // ---------- get or allocate the data block ----------

  // alloc_block as fs_write uses it: no file changes.
  method AllocFor(mp: Mount, ghost tab: seq<Inode>, ghost f: nat) returns (r: word)
    requires mp.Valid() && FsInv(mp.cache.view, mp.sb, tab) && f < |tab|
    modifies mp, mp.cache.Repr
    ensures mp.Valid() && fresh(mp.cache.Repr - old(mp.cache.Repr))
    ensures Keeps(old(mp.cache.view), old(mp.sb), tab, f, mp.cache.view, mp.sb, tab[f])
    ensures forall i :: SameFile(old(mp.cache.view), tab[f], i, mp.cache.view, tab[f])
    ensures SameBlocks(old(mp.cache.view), mp.cache.view, tab[f])
    ensures r == 0 ==> mp.cache.view == old(mp.cache.view) && mp.sb == old(mp.sb) && mp.sb.free_blocks == 0
    ensures r != 0 ==> Allocated(old(mp.cache.view), old(mp.sb), r, mp.cache.view, mp.sb)
                       && Spare(mp.cache.view, mp.sb, tab, r)
  {
    ghost var view, sb := mp.cache.view, mp.sb;
    KeepsNothing(view, sb, tab, f);
    NothingChanges(view, sb, tab, f);
    hide Counted, Allocated, FsInv, Linked, Coherent, Keeps, SameFile, Ptr;
    var b := mp.Alloc();
    if b != 0 {
      AllocStep(view, sb, tab, f, b, mp.cache.view, mp.sb);
      BlockNumber(view, sb, tab, b, mp.cache.view, mp.sb);
    }
    r := b;
  }

  lemma NothingChanges(view: seq<Block>, sb: Superblock, tab: seq<Inode>, f: nat)
    requires FsInv(view, sb, tab) && f < |tab|
    ensures forall i :: SameFile(view, tab[f], i, view, tab[f])
    ensures SameBlocks(view, view, tab[f])
  {
    assert FileOk(view, sb, tab[f]);
  }

  lemma BlockNumber(view: seq<Block>, sb: Superblock, tab: seq<Inode>, r: nat, view': seq<Block>, sb': Superblock)
    requires Allocated(view, sb, r, view', sb')
    ensures r < |view|
  {
  }

  lemma PointStep(view: seq<Block>, sb: Superblock, tab: seq<Inode>, f: nat, i: nat, r: nat, view': seq<Block>,
        inode: Inode)
    requires Spare(view, sb, tab, r) && f < |tab| && Pointed(view, tab[f], i, r, view', inode)
    ensures Keeps(view, sb, tab, f, view', sb, inode) && SameFile(view, tab[f], i, view', inode)
    ensures Ptr(view', inode, i) == r
  {
    InvAfterPoint(view, sb, tab, f, i, r, view', inode);
    assert FileOk(view, sb, tab[f]);
    assert Ptr(view, tab[f], SLOTS) == tab[f][INDIRECT_WORD];
    hide FsInv, Contents, Ptr, Unowned, IsZero, FreeBlocks;
  }

  // The slots that looking up data block i may fill.
  ghost function Reach(i: nat): set<nat> {
    if i < DIRECT then {i} else {i, SLOTS}
  }

  // The result of getting a data block for slot i.
  ghost predicate GotBlock(view: seq<Block>, sb: Superblock, tab: seq<Inode>, f: nat, i: nat,
                           view': seq<Block>, sb': Superblock, inode: Inode, data_block: nat) {
    && Keeps(view, sb, tab, f, view', sb', inode) && i < SLOTS
    && inode[SIZE_WORD] == tab[f][SIZE_WORD] <= MAX_BYTES && Contents(view', inode) == Contents(view, tab[f])
    && Ptr(view', inode, i) == data_block && (data_block == 0 ==> sb'.free_blocks == 0)
    && Fills(view, sb, tab[f], Reach(i), view', sb', inode)
  }

  // Pointing at a block changes no bitmap.
  lemma PointedFree(view: seq<Block>, sb: Superblock, tab: seq<Inode>, f: nat, i: nat, r: nat, view': seq<Block>,
        inode: Inode)
    requires FsInv(view, sb, tab) && f < |tab| && Pointed(view, tab[f], i, r, view', inode)
    ensures Layout(sb, |view|) && |view'| == |view| && FreeBlocks(view', sb) == FreeBlocks(view, sb)
  {
    OnlyIndirectChanges(view, sb, tab, f, view');
  }

  // A block was taken for f and slot i now points to it.
  lemma PointedFills(view: seq<Block>, sb: Superblock, tab: seq<Inode>, f: nat, i: nat, v: seq<Block>, s: Superblock,
        r: nat, view': seq<Block>, inode: Inode)
    requires FsInv(view, sb, tab) && f < |tab| && Allocated(view, sb, r, v, s) && SameBlocks(view, v, tab[f])
    requires Spare(v, s, tab, r) && Pointed(v, tab[f], i, r, view', inode)
    ensures Fills(view, sb, tab[f], {i}, view', s, inode)
  {
    hide FsInv, Pointed, Allocated, SameBlocks, Unowned;
    PointedFree(v, s, tab, f, i, r, view', inode);
    FillsOne(view, sb, tab, f, i, r, v, s, view', inode);
  }

  // Allocation succeeded for f (nothing else of f changed) and slot i now
  // points to the new block.
  lemma GotNew(view: seq<Block>, sb: Superblock, tab: seq<Inode>, f: nat, i: nat, v: seq<Block>, s: Superblock, r: nat,
               view': seq<Block>, inode: Inode)
    requires f < |tab| && Keeps(view, sb, tab, f, v, s, tab[f]) && SameFile(view, tab[f], i, v, tab[f])
    requires Allocated(view, sb, r, v, s) && SameBlocks(view, v, tab[f])
    requires Spare(v, s, tab, r) && i < SLOTS && Pointed(v, tab[f], i, r, view', inode)
    ensures GotBlock(view, sb, tab, f, i, view', s, inode, r)
  {
    hide Contents, Ptr, Unowned, IsZero, FreeBlocks, Fills, Allocated, SameBlocks, FsInv, Pointed;
    assert tab[f := tab[f]] == tab;
    PointStep(v, s, tab, f, i, r, view', inode);
    KeepsTwice(view, sb, tab, f, v, s, tab[f], view', s, inode);
    PointedFills(view, sb, tab, f, i, v, s, r, view', inode);
    FillsMore(view, sb, tab[f], {i}, view', s, inode, Reach(i));
  }

  // Nothing changed: there is a block already, or none to be had.
  lemma GotSame(view: seq<Block>, sb: Superblock, tab: seq<Inode>, f: nat, i: nat)
    requires FsInv(view, sb, tab) && f < |tab| && i < SLOTS && (Ptr(view, tab[f], i) == 0 ==> sb.free_blocks == 0)
    ensures GotBlock(view, sb, tab, f, i, view, sb, tab[f], Ptr(view, tab[f], i))
  {
    KeepsNothing(view, sb, tab, f);
    FillsNothing(view, sb, tab, f);
    assert FileOk(view, sb, tab[f]);
    hide Keeps, Ptr, Fills;
    FillsMore(view, sb, tab[f], {}, view, sb, tab[f], Reach(i));
  }

  method MapDirect(mp: Mount, inode: Inode, i: nat, ghost tab: seq<Inode>, ghost f: nat) returns (data_block: word,
        inode': Inode)
    requires mp.Valid() && FsInv(mp.cache.view, mp.sb, tab) && f < |tab| && tab[f] == inode && i < DIRECT
    modifies mp, mp.cache.Repr
    ensures mp.Valid() && fresh(mp.cache.Repr - old(mp.cache.Repr))
    ensures GotBlock(old(mp.cache.view), old(mp.sb), tab, f, i, mp.cache.view, mp.sb, inode', data_block)
  {
    hide GotBlock, Keeps, SameFile, FsInv, Counted, Linked, Coherent, Allocated, SameBlocks, Contents;
    ghost var view, sb := mp.cache.view, mp.sb;
    inode' := inode;
    if inode[DIRECT_WORD + i] == 0 {
      data_block := AllocFor(mp, tab, f);
      if data_block == 0 {
        GotSame(view, sb, tab, f, i);
        return;
      }
      inode' := inode[DIRECT_WORD + i := data_block];
      PointDirect(mp.cache.view, inode, i, data_block);
      GotNew(view, sb, tab, f, i, mp.cache.view, mp.sb, data_block, mp.cache.view, inode');
    } else {
      GotSame(view, sb, tab, f, i);
    }
    data_block := inode'[DIRECT_WORD + i];
  }

  lemma EntryStep(view: seq<Block>, sb: Superblock, tab: seq<Inode>, f: nat, i: nat, v: seq<Block>, s: Superblock,
        r: word)
    requires f < |tab| && Keeps(view, sb, tab, f, v, s, tab[f]) && SameFile(view, tab[f], i, v, tab[f])
    requires Allocated(view, sb, r, v, s) && SameBlocks(view, v, tab[f]) && Spare(v, s, tab, r)
    requires DIRECT <= i < SLOTS && 0 < tab[f][INDIRECT_WORD] < |view| && Ptr(view, tab[f], i) == 0
    ensures var d := tab[f][INDIRECT_WORD];
            && v[d] == view[d] && |v| == |view|
            && GotBlock(view, sb, tab, f, i, WithEntry(v, d, i - DIRECT, r), s, tab[f], r)
            && Counted(WithEntry(v, d, i - DIRECT, r), s)
  {
    assert Ptr(view, tab[f], SLOTS) == tab[f][INDIRECT_WORD];
    SamePtr(view, v, tab[f], i);
    PointEntry(v, tab[f], i, r);
    hide Ptr, Spare, SameFile;
    GotNew(view, sb, tab, f, i, v, s, r, WithEntry(v, tab[f][INDIRECT_WORD], i - DIRECT, r), tab[f]);
  }

  // An indirect block is there, so the entry can be looked up or filled in.
  method MapEntry(mp: Mount, inode: Inode, i: nat, ghost tab: seq<Inode>, ghost f: nat) returns (data_block: word)
    requires mp.Valid() && FsInv(mp.cache.view, mp.sb, tab) && f < |tab| && tab[f] == inode
    requires DIRECT <= i < SLOTS && 0 < inode[INDIRECT_WORD] < |mp.cache.view|
    modifies mp, mp.cache.Repr
    ensures mp.Valid() && fresh(mp.cache.Repr - old(mp.cache.Repr))
    ensures GotBlock(old(mp.cache.view), old(mp.sb), tab, f, i, mp.cache.view, mp.sb, inode, data_block)
  {
    hide GotBlock, FsInv, Counted, Linked, Coherent, Bytes, Unowned, Contents, Fills;
    var d := inode[INDIRECT_WORD];
    var buffer := mp.cache.ReadBlock(d);
    var indirect := Words(buffer);
    assert indirect[i - DIRECT] == Ptr(mp.cache.view, inode, i);
    if indirect[i - DIRECT] == 0 {
      data_block := FillEntry(mp, inode, i, indirect, tab, f);
    } else {
      GotSame(mp.cache.view, mp.sb, tab, f, i);
      data_block := indirect[i - DIRECT];
    }
  }

  method FillEntry(mp: Mount, inode: Inode, i: nat, indirect: seq<word>, ghost tab: seq<Inode>,
        ghost f: nat) returns (r: word)
    requires mp.Valid() && FsInv(mp.cache.view, mp.sb, tab) && f < |tab| && tab[f] == inode
    requires DIRECT <= i < SLOTS && 0 < inode[INDIRECT_WORD] < |mp.cache.view| && Ptr(mp.cache.view, inode, i) == 0
    requires indirect == Words(mp.cache.view[inode[INDIRECT_WORD]])
    modifies mp, mp.cache.Repr
    ensures mp.Valid() && fresh(mp.cache.Repr - old(mp.cache.Repr))
    ensures GotBlock(old(mp.cache.view), old(mp.sb), tab, f, i, mp.cache.view, mp.sb, inode, r)
  {
    hide GotBlock, Keeps, SameFile, FsInv, Counted, Linked, Coherent, SameBlocks, Ptr, Words, Bytes, Spare, Allocated,
         Contents;
    ghost var view, sb := mp.cache.view, mp.sb;
    r := AllocFor(mp, tab, f);
    if r == 0 {
      GotSame(view, sb, tab, f, i);
      return;
    }
    EntryStep(view, sb, tab, f, i, mp.cache.view, mp.sb, r);
    mp.cache.WriteBlock(inode[INDIRECT_WORD], Bytes(indirect[i - DIRECT := r]));
  }

  // The file has an indirect block and still the same bytes.
  ghost predicate HasIndirect(view: seq<Block>, sb: Superblock, tab: seq<Inode>, f: nat, view': seq<Block>,
        sb': Superblock, inode: Inode) {
    && Keeps(view, sb, tab, f, view', sb', inode) && 0 < inode[INDIRECT_WORD] < |view'|
    && inode[SIZE_WORD] == tab[f][SIZE_WORD] <= MAX_BYTES && Contents(view', inode) == Contents(view, tab[f])
    && Fills(view, sb, tab[f], {SLOTS}, view', sb', inode)
  }

  lemma IndirectNew(view: seq<Block>, sb: Superblock, tab: seq<Inode>, f: nat, v: seq<Block>, s: Superblock, r: word)
    requires f < |tab| && Keeps(view, sb, tab, f, v, s, tab[f]) && SameFile(view, tab[f], SLOTS, v, tab[f])
    requires Allocated(view, sb, r, v, s) && SameBlocks(view, v, tab[f])
    requires Spare(v, s, tab, r) && tab[f][INDIRECT_WORD] == 0
    ensures HasIndirect(view, sb, tab, f, v, s, tab[f][INDIRECT_WORD := r])
  {
    var inode := tab[f][INDIRECT_WORD := r];
    assert tab[f := tab[f]] == tab;
    PointIndirect(v, tab[f], r);
    PointStep(v, s, tab, f, SLOTS, r, v, inode);
    KeepsTwice(view, sb, tab, f, v, s, tab[f], v, s, inode);
    PointedFills(view, sb, tab, f, SLOTS, v, s, r, v, inode);
    hide Keeps, Contents, Ptr, Fills, Allocated;
  }

  lemma IndirectOld(view: seq<Block>, sb: Superblock, tab: seq<Inode>, f: nat)
    requires FsInv(view, sb, tab) && f < |tab| && tab[f][INDIRECT_WORD] != 0
    ensures HasIndirect(view, sb, tab, f, view, sb, tab[f])
  {
    KeepsNothing(view, sb, tab, f);
    assert FileOk(view, sb, tab[f]);
    assert Ptr(view, tab[f], SLOTS) == tab[f][INDIRECT_WORD];
    FillsNothing(view, sb, tab, f);
    hide Keeps, Ptr, Fills;
    FillsMore(view, sb, tab[f], {}, view, sb, tab[f], {SLOTS});
  }

  lemma GotThroughIndirect(view: seq<Block>, sb: Superblock, tab: seq<Inode>, f: nat, i: nat,
                           v: seq<Block>, s: Superblock, view': seq<Block>, sb': Superblock, inode: Inode, data_block: nat)
    requires HasIndirect(view, sb, tab, f, v, s, inode)
    requires DIRECT <= i && GotBlock(v, s, tab[f := inode], f, i, view', sb', inode, data_block)
    ensures GotBlock(view, sb, tab, f, i, view', sb', inode, data_block)
  {
    hide Contents, Ptr, Fills, FsInv, TableKept;
    KeepsTwice(view, sb, tab, f, v, s, inode, view', sb', inode);
    assert tab[f := inode][f] == inode && {SLOTS} + Reach(i) == Reach(i);
    FillsTwice(view, sb, tab[f], {SLOTS}, v, s, inode, Reach(i), view', sb', inode);
  }

  method EnsureIndirect(mp: Mount, inode: Inode, ghost tab: seq<Inode>, ghost f: nat) returns (ok: bool, inode': Inode)
    requires mp.Valid() && FsInv(mp.cache.view, mp.sb, tab) && f < |tab| && tab[f] == inode
    modifies mp, mp.cache.Repr
    ensures mp.Valid() && fresh(mp.cache.Repr - old(mp.cache.Repr))
    ensures ok ==> HasIndirect(old(mp.cache.view), old(mp.sb), tab, f, mp.cache.view, mp.sb, inode')
    ensures !ok ==> inode' == inode && forall i | DIRECT <= i < SLOTS ::
                      GotBlock(old(mp.cache.view), old(mp.sb), tab, f, i, mp.cache.view, mp.sb, inode, 0)
  {
    hide GotBlock, Keeps, SameFile, FsInv, Counted, Linked, Coherent, Spare, HasIndirect, Allocated, SameBlocks;
    ghost var view, sb := mp.cache.view, mp.sb;
    if inode[INDIRECT_WORD] != 0 {
      IndirectOld(view, sb, tab, f);
      return true, inode;
    }
    var r := AllocFor(mp, tab, f);
    if r == 0 {
      forall i | DIRECT <= i < SLOTS
        ensures GotBlock(view, sb, tab, f, i, mp.cache.view, mp.sb, inode, 0)
      {
        assert Ptr(view, inode, i) == 0;
        GotSame(view, sb, tab, f, i);
      }
      return false, inode;
    }
    inode' := inode[INDIRECT_WORD := r];
    IndirectNew(view, sb, tab, f, mp.cache.view, mp.sb, r);
    ok := true;
  }

  method MapIndirect(mp: Mount, inode: Inode, i: nat, ghost tab: seq<Inode>, ghost f: nat) returns (data_block: word,
        inode': Inode)
    requires mp.Valid() && FsInv(mp.cache.view, mp.sb, tab) && f < |tab| && tab[f] == inode && DIRECT <= i < SLOTS
    modifies mp, mp.cache.Repr
    ensures mp.Valid() && fresh(mp.cache.Repr - old(mp.cache.Repr))
    ensures GotBlock(old(mp.cache.view), old(mp.sb), tab, f, i, mp.cache.view, mp.sb, inode', data_block)
  {
    hide GotBlock, FsInv, Counted, Linked, Coherent, Contents, Ptr;
    ghost var view, sb := mp.cache.view, mp.sb;
    var ok;
    ok, inode' := EnsureIndirect(mp, inode, tab, f);
    if !ok {
      return 0, inode';
    }
    ghost var v, s := mp.cache.view, mp.sb;
    data_block := MapEntry(mp, inode', i, tab[f := inode'], f);
    GotThroughIndirect(view, sb, tab, f, i, v, s, mp.cache.view, mp.sb, inode', data_block);
  }

  // The block-pointer part of one turn of the loop in fs_write.
  method MapBlock(mp: Mount, inode: Inode, i: nat, ghost tab: seq<Inode>, ghost f: nat) returns (data_block: word,
        inode': Inode)
    requires mp.Valid() && FsInv(mp.cache.view, mp.sb, tab) && f < |tab| && tab[f] == inode && i < SLOTS
    modifies mp, mp.cache.Repr
    ensures mp.Valid() && fresh(mp.cache.Repr - old(mp.cache.Repr))
    ensures GotBlock(old(mp.cache.view), old(mp.sb), tab, f, i, mp.cache.view, mp.sb, inode', data_block)
  {
    if i < DIRECT {
      data_block, inode' := MapDirect(mp, inode, i, tab, f);
    } else {
      data_block, inode' := MapIndirect(mp, inode, i, tab, f);
    }
  }

  // ---------- write one chunk ----------

  // The loop state of fs_write: file f holds bytes, with inode in memory.
  ghost predicate Writing(view: seq<Block>, sb: Superblock, tab: seq<Inode>, f: nat, view': seq<Block>, sb': Superblock,
                          inode: Inode, bytes: seq<byte>) {
    && Keeps(view, sb, tab, f, view', sb', inode)
    && inode[SIZE_WORD] <= MAX_BYTES && Contents(view', inode) == bytes
  }

  lemma GotReady(view: seq<Block>, sb: Superblock, tab: seq<Inode>, f: nat, i: nat,
                 view': seq<Block>, sb': Superblock, inode: Inode, data_block: nat)
    requires GotBlock(view, sb, tab, f, i, view', sb', inode, data_block) && data_block != 0
    ensures data_block == Ptr(view', inode, i) && 0 < data_block < |view'| && inode[SIZE_WORD] == tab[f][SIZE_WORD]
  {
    assert FileOk(view', sb', tab[f := inode][f]);
  }

  lemma GotNothing(view: seq<Block>, sb: Superblock, tab: seq<Inode>, f: nat, i: nat, pos: nat,
                   view': seq<Block>, sb': Superblock, inode: Inode)
    requires GotBlock(view, sb, tab, f, i, view', sb', inode, 0) && pos <= tab[f][SIZE_WORD]
    ensures Writing(view, sb, tab, f, view', sb', inode, Overlay(Contents(view, tab[f]), pos, []))
    ensures sb'.free_blocks == 0 && pos <= inode[SIZE_WORD]
    ensures Fills(view, sb, tab[f], Reach(i), view', sb', inode) && Ptr(view', inode, i) == 0
  {
    hide FsInv, Fills, Ptr, Contents, TableKept;
    var s := Contents(view, tab[f]);
    assert Overlay(s, pos, []) == s;
  }

  // A chunk changes a block the file lies on.
  lemma ChunkFrame(view: seq<Block>, sb: Superblock, inode: Inode, pos: nat, c: seq<byte>)
    requires ChunkFits(view, inode, pos, c) && 0 < sb.inodes_per_group
    requires Ptr(ChunkView(view, inode, pos, c), Grown(inode, pos + |c|), pos / BLOCK_SIZE)
             == Ptr(view, inode, pos / BLOCK_SIZE)
    ensures Frame(view, sb, inode, ChunkView(view, inode, pos, c), sb, Grown(inode, pos + |c|))
  {
    hide Ptr, DataBlock, SbImage, Over;
    var d := Ptr(view, inode, pos / BLOCK_SIZE);
    var view' := ChunkView(view, inode, pos, c);
    assert d in BlocksOf(view', Grown(inode, pos + |c|));
    assert forall b | 0 <= b < |view| && b != d :: view'[b] == view[b];
  }

  // A chunk changes no pointer and no bitmap.
  lemma ChunkFills(view: seq<Block>, sb: Superblock, tab: seq<Inode>, f: nat, pos: nat, c: seq<byte>,
                   v: seq<Block>, s: Superblock, inode: Inode, data_block: nat)
    requires GotBlock(view, sb, tab, f, pos / BLOCK_SIZE, v, s, inode, data_block) && ChunkFits(v, inode, pos, c)
    ensures var v', inode' := ChunkView(v, inode, pos, c), Grown(inode, pos + |c|);
            && Fills(view, sb, tab[f], Reach(pos / BLOCK_SIZE), v', s, inode')
            && Ptr(v', inode', pos / BLOCK_SIZE) == data_block
  {
    var tab' := tab[f := inode];
    var v', inode' := ChunkView(v, inode, pos, c), Grown(inode, pos + |c|);
    assert tab'[f] == inode && FileOk(v, s, tab'[f]) && DataBlock(s, Ptr(v, inode, pos / BLOCK_SIZE));
    assert BitmapsKept(v, s, v');
    SameBitmaps(v, s, v');
    forall i | 0 <= i <= SLOTS
      ensures Ptr(v', inode', i) == Ptr(v, inode, i)
    {
      ChunkPtr(v, s, inode, pos, c, i);
    }
    ChunkFrame(v, s, inode, pos, c);
    hide Ptr, Fills, FreeBlocks, FsInv, ChunkView, ChunkFits, Grown, Frame;
    FillsSame(view, sb, tab[f], Reach(pos / BLOCK_SIZE), v, s, inode, v', inode');
  }

  lemma ChunkKeeps(v: seq<Block>, s: Superblock, tab: seq<Inode>, f: nat, pos: nat, c: seq<byte>)
    requires FsInv(v, s, tab) && f < |tab| && ChunkFits(v, tab[f], pos, c)
    ensures Keeps(v, s, tab, f, ChunkView(v, tab[f], pos, c), s, Grown(tab[f], pos + |c|))
  {
    InvAfterChunk(v, s, tab, f, pos, c);
    assert FileOk(v, s, tab[f]) && DataBlock(s, Ptr(v, tab[f], pos / BLOCK_SIZE));
    hide Ptr, Contents, FsInv, Grown;
  }

  lemma ChunkStep(view: seq<Block>, sb: Superblock, tab: seq<Inode>, f: nat, pos: nat, c: seq<byte>,
                  v: seq<Block>, s: Superblock, inode: Inode, data_block: nat)
    requires GotBlock(view, sb, tab, f, pos / BLOCK_SIZE, v, s, inode, data_block)
    requires ChunkFits(v, inode, pos, c) && pos <= tab[f][SIZE_WORD]
    ensures Writing(view, sb, tab, f, ChunkView(v, inode, pos, c), s, Grown(inode, pos + |c|),
                    Overlay(Contents(view, tab[f]), pos, c))
    ensures Counted(ChunkView(v, inode, pos, c), s) && pos + |c| <= Grown(inode, pos + |c|)[SIZE_WORD]
  {
    var tab' := tab[f := inode];
    assert FsInv(v, s, tab') && tab'[f] == inode && Keeps(view, sb, tab, f, v, s, inode);
    assert inode[SIZE_WORD] == tab[f][SIZE_WORD] && Contents(v, inode) == Contents(view, tab[f]);
    var view', inode' := ChunkView(v, inode, pos, c), Grown(inode, pos + |c|);
    assert pos + |c| <= inode'[SIZE_WORD] <= MAX_BYTES;
    InvAfterChunk(v, s, tab', f, pos, c);
    assert Counted(view', s);
    hide GotBlock, Keeps, ChunkFits, ChunkView, Contents, FsInv, Grown, Overlay, Ptr;
    ChunkKeeps(v, s, tab', f, pos, c);
    KeepsTwice(view, sb, tab, f, v, s, inode, view', s, inode');
  }

  // The data part of one turn; stack is what the uninitialised buffer holds.
  method WriteChunk(mp: Mount, inode: Inode, data_block: nat, pos: nat, src: seq<byte>, written: nat, stack: Block)
    returns (chunk: nat, inode': Inode)
    requires mp.cache.Valid() && written < |src| && pos + (|src| - written) <= MAX_BYTES && pos <= inode[SIZE_WORD]
    requires 0 < data_block < |mp.cache.view| && data_block == Ptr(mp.cache.view, inode, pos / BLOCK_SIZE)
    modifies mp.cache.Repr
    ensures mp.cache.Valid() && fresh(mp.cache.Repr - old(mp.cache.Repr))
    ensures chunk == (if BLOCK_SIZE - pos % BLOCK_SIZE > |src| - written then |src| - written else BLOCK_SIZE - pos % BLOCK_SIZE)
    ensures ChunkFits(old(mp.cache.view), inode, pos, src[written..written + chunk])
    ensures mp.cache.view == ChunkView(old(mp.cache.view), inode, pos, src[written..written + chunk])
    ensures inode' == Grown(inode, pos + chunk)
  {
    var offset := pos % BLOCK_SIZE;
    var block := stack;
    hide Coherent, Linked, Ptr;
    if offset > 0 || written + BLOCK_SIZE > |src| {
      block := mp.cache.ReadBlock(data_block);
    }
    chunk := BLOCK_SIZE - offset;
    if chunk > |src| - written {
      chunk := |src| - written;
    }
    block := Over(block, offset, src[written..written + chunk]);
    mp.cache.WriteBlock(data_block, block);
    inode' := if pos + chunk > inode[SIZE_WORD] then inode[SIZE_WORD := pos + chunk] else inode;
  }

  lemma OverlayTwice<T>(s: seq<T>, at: nat, a: seq<T>, b: seq<T>)
    requires at <= |s|
    ensures Overlay(Overlay(s, at, a), at + |a|, b) == Overlay(s, at, a + b)
  {
  }

  // One turn of the loop of fs_write; chunk is 0 when it breaks off for lack
  // of space.
  method WriteTurn(mp: Mount, inode: Inode, pos: nat, src: seq<byte>, written: nat, stack: Block,
                   ghost tab: seq<Inode>, ghost f: nat)
    returns (chunk: nat, inode': Inode)
    requires mp.Valid() && FsInv(mp.cache.view, mp.sb, tab) && f < |tab| && tab[f] == inode
    requires pos <= inode[SIZE_WORD] && written < |src| && pos + (|src| - written) <= MAX_BYTES
    modifies mp, mp.cache.Repr
    ensures mp.Valid() && fresh(mp.cache.Repr - old(mp.cache.Repr))
    ensures written + chunk <= |src| && (chunk == 0 ==> mp.sb.free_blocks == 0)
    ensures Writing(old(mp.cache.view), old(mp.sb), tab, f, mp.cache.view, mp.sb, inode',
                    Overlay(old(Contents(mp.cache.view, inode)), pos, src[written..written + chunk]))
    ensures pos + chunk <= inode'[SIZE_WORD]
    ensures Fills(old(mp.cache.view), old(mp.sb), inode, Reach(pos / BLOCK_SIZE), mp.cache.view, mp.sb, inode')
    ensures chunk == 0 ==> Ptr(mp.cache.view, inode', pos / BLOCK_SIZE) == 0
  {
    hide GotBlock, Writing, FsInv, Keeps, Counted, Linked, Coherent, ChunkFits, ChunkView, Contents, Grown, Overlay,
         Ptr, Cache.Valid, Fills;
    ghost var view, sb := mp.cache.view, mp.sb;
    var data_block, got := MapBlock(mp, inode, pos / BLOCK_SIZE, tab, f);
    ghost var v, s := mp.cache.view, mp.sb;
    if data_block == 0 {
      GotNothing(view, sb, tab, f, pos / BLOCK_SIZE, pos, v, s, got);
      return 0, got;
    }
    GotReady(view, sb, tab, f, pos / BLOCK_SIZE, v, s, got, data_block);
    chunk, inode' := FinishTurn(mp, got, data_block, pos, src, written, stack, view, sb, tab, f);
  }

  // The second half of the turn, once the data block is there.
  method FinishTurn(mp: Mount, inode: Inode, data_block: nat, pos: nat, src: seq<byte>, written: nat, stack: Block,
                    ghost view: seq<Block>, ghost sb: Superblock, ghost tab: seq<Inode>, ghost f: nat)
    returns (chunk: nat, inode': Inode)
    requires mp.Valid() && GotBlock(view, sb, tab, f, pos / BLOCK_SIZE, mp.cache.view, mp.sb, inode, data_block)
    requires 0 < data_block < |mp.cache.view| && data_block == Ptr(mp.cache.view, inode, pos / BLOCK_SIZE)
    requires pos <= inode[SIZE_WORD] == tab[f][SIZE_WORD] && written < |src| && pos + (|src| - written) <= MAX_BYTES
    modifies mp.cache.Repr
    ensures mp.Valid() && fresh(mp.cache.Repr - old(mp.cache.Repr))
    ensures 0 < chunk && written + chunk <= |src| && pos + chunk <= inode'[SIZE_WORD]
    ensures Writing(view, sb, tab, f, mp.cache.view, mp.sb, inode',
                    Overlay(Contents(view, tab[f]), pos, src[written..written + chunk]))
    ensures Fills(view, sb, tab[f], Reach(pos / BLOCK_SIZE), mp.cache.view, mp.sb, inode')
  {
    hide GotBlock, Writing, FsInv, Keeps, Counted, Linked, Coherent, ChunkFits, ChunkView, Contents, Grown, Overlay,
         Ptr, Cache.Valid, Fills;
    ghost var v := mp.cache.view;
    chunk, inode' := WriteChunk(mp, inode, data_block, pos, src, written, stack);
    ChunkStep(view, sb, tab, f, pos, src[written..written + chunk], v, mp.sb, inode, data_block);
    ChunkFills(view, sb, tab, f, pos, src[written..written + chunk], v, mp.sb, inode, data_block);
  }

  lemma WritingTwice(v: seq<Block>, s: Superblock, tab: seq<Inode>, f: nat, at: nat, a: seq<byte>, b: seq<byte>,
                     v': seq<Block>, s': Superblock, i': Inode, v'': seq<Block>, s'': Superblock, i'': Inode)
    requires f < |tab| && at <= tab[f][SIZE_WORD] <= MAX_BYTES && i'[SIZE_WORD] <= MAX_BYTES
    requires Writing(v, s, tab, f, v', s', i', Overlay(Contents(v, tab[f]), at, a)) && at + |a| <= i'[SIZE_WORD]
    requires Writing(v', s', tab[f := i'], f, v'', s'', i'', Overlay(Contents(v', i'), at + |a|, b))
    ensures Writing(v, s, tab, f, v'', s'', i'', Overlay(Contents(v, tab[f]), at, a + b))
  {
    KeepsTwice(v, s, tab, f, v', s', i', v'', s'', i'');
    OverlayTwice(Contents(v, tab[f]), at, a, b);
  }

  lemma WritingNothing(view: seq<Block>, sb: Superblock, tab: seq<Inode>, f: nat, at: nat)
    requires FsInv(view, sb, tab) && f < |tab| && at <= tab[f][SIZE_WORD]
    ensures tab[f][SIZE_WORD] <= MAX_BYTES
    ensures Writing(view, sb, tab, f, view, sb, tab[f], Overlay(Contents(view, tab[f]), at, []))
  {
    hide Keeps, Separate, Ptr, DataBlock, FreeBlocks, IsZero;
    KeepsNothing(view, sb, tab, f);
    assert FileOk(view, sb, tab[f]);
    assert Overlay(Contents(view, tab[f]), at, []) == Contents(view, tab[f]);
  }

  // The first written bytes of src are in the file, at pos.
  ghost predicate Wrote(view: seq<Block>, sb: Superblock, tab: seq<Inode>, f: nat, pos: nat, src: seq<byte>,
        written: nat,
                        view': seq<Block>, sb': Superblock, inode: Inode) {
    && FsInv(view, sb, tab) && f < |tab| && pos <= tab[f][SIZE_WORD] <= MAX_BYTES
    && written <= |src| && pos + written <= inode[SIZE_WORD]
    && Writing(view, sb, tab, f, view', sb', inode, Overlay(Contents(view, tab[f]), pos, src[..written]))
  }

  lemma WroteInv(view: seq<Block>, sb: Superblock, tab: seq<Inode>, f: nat, pos: nat, src: seq<byte>, written: nat,
                 view': seq<Block>, sb': Superblock, inode: Inode)
    requires Wrote(view, sb, tab, f, pos, src, written, view', sb', inode)
    ensures FsInv(view', sb', tab[f := inode]) && inode[SIZE_WORD] <= MAX_BYTES && pos + written <= inode[SIZE_WORD]
  {
  }

  lemma WroteMore(view: seq<Block>, sb: Superblock, tab: seq<Inode>, f: nat, pos: nat, src: seq<byte>, written: nat,
                  v: seq<Block>, s: Superblock, i: Inode, chunk: nat, view': seq<Block>, sb': Superblock, inode: Inode)
    requires Wrote(view, sb, tab, f, pos, src, written, v, s, i) && written + chunk <= |src| && i[SIZE_WORD] <= MAX_BYTES
    requires Writing(v, s, tab[f := i], f, view', sb', inode, Overlay(Contents(v, i), pos + written, src[written..written + chunk]))
    requires pos + written + chunk <= inode[SIZE_WORD]
    ensures Wrote(view, sb, tab, f, pos, src, written + chunk, view', sb', inode)
  {
    hide Writing, Overlay, Contents, FsInv, Keeps;
    assert src[..written] + src[written..written + chunk] == src[..written + chunk];
    WritingTwice(view, sb, tab, f, pos, src[..written], src[written..written + chunk], v, s, i, view', sb', inode);
  }

  lemma WroteNothing(view: seq<Block>, sb: Superblock, tab: seq<Inode>, f: nat, pos: nat, src: seq<byte>)
    requires FsInv(view, sb, tab) && f < |tab| && pos <= tab[f][SIZE_WORD]
    ensures Wrote(view, sb, tab, f, pos, src, 0, view, sb, tab[f])
  {
    hide FsInv, Writing, Contents, Overlay;
    WritingNothing(view, sb, tab, f, pos);
    assert src[..0] == [];
  }

  // A turn that wrote a chunk filled slots the bytes so far need.
  lemma FilledMore(view: seq<Block>, sb: Superblock, a: Inode, pos: nat, written: nat, v: seq<Block>, s: Superblock,
                   i: Inode, chunk: nat, view': seq<Block>, sb': Superblock, inode: Inode)
    requires Fills(view, sb, a, Slots(pos, written), v, s, i) && 0 < chunk
    requires Fills(v, s, i, Reach((pos + written) / BLOCK_SIZE), view', sb', inode)
    ensures Fills(view, sb, a, Slots(pos, written + chunk), view', sb', inode)
  {
    hide Fills, Ptr;
    var slots := Slots(pos, written) + Reach((pos + written) / BLOCK_SIZE);
    FillsTwice(view, sb, a, Slots(pos, written), v, s, i, Reach((pos + written) / BLOCK_SIZE), view', sb', inode);
    NeedsMore(pos, written, written + chunk);
    forall j | j in slots && j <= SLOTS
      ensures j in Slots(pos, written + chunk)
    {
    }
    FillsMore(view, sb, a, slots, view', sb', inode, Slots(pos, written + chunk));
  }

  // Every slot below the size is filled.
  lemma SlotsFilled(view: seq<Block>, sb: Superblock, inode: Inode, pos: nat, n: nat)
    requires Layout(sb, |view|) && 0 < sb.inodes_per_group && FileOk(view, sb, inode) && pos + n <= inode[SIZE_WORD]
    ensures forall i | i in Slots(pos, n) :: Ptr(view, inode, i) != 0
  {
    forall i | i in Slots(pos, n)
      ensures Ptr(view, inode, i) != 0
    {
      if i == SLOTS {
        assert Ptr(view, inode, DIRECT) != 0;
      }
    }
  }

  lemma TookAll(view: seq<Block>, sb: Superblock, a: Inode, pos: nat, count: nat, view': seq<Block>, sb': Superblock,
                tab: seq<Inode>, f: nat, inode: Inode)
    requires Fills(view, sb, a, Slots(pos, count), view', sb', inode)
    requires f < |tab| && FsInv(view', sb', tab[f := inode]) && pos + count <= inode[SIZE_WORD]
    ensures Allotted(view, sb, a, pos, count, count, view', sb', inode)
  {
    assert FileOk(view', sb', tab[f := inode][f]);
    SlotsFilled(view', sb', inode, pos, count);
    hide Fills, Ptr, FsInv;
    FillsMore(view, sb, a, Slots(pos, count), view', sb', inode, Slots(pos, count) + Slots(pos, count) * {SLOTS});
  }

  // The turn that found the device full may have taken an indirect block.
  lemma TookSome(view: seq<Block>, sb: Superblock, a: Inode, pos: nat, count: nat, n: nat, v: seq<Block>, s: Superblock,
                 i: Inode, view': seq<Block>, sb': Superblock, tab: seq<Inode>, f: nat, inode: Inode)
    requires Fills(view, sb, a, Slots(pos, n), v, s, i) && n < count && pos + count <= MAX_BYTES
    requires Fills(v, s, i, Reach((pos + n) / BLOCK_SIZE), view', sb', inode)
    requires f < |tab| && FsInv(view', sb', tab[f := inode]) && pos + n <= inode[SIZE_WORD]
    requires Ptr(view', inode, (pos + n) / BLOCK_SIZE) == 0 && sb'.free_blocks == 0
    ensures Allotted(view, sb, a, pos, count, n, view', sb', inode)
  {
    hide Fills, Ptr, FileOk, DataBlock, FreeBlocks, Separate;
    assert FileOk(view', sb', tab[f := inode][f]);
    SlotsFilled(view', sb', inode, pos, n);
    var slots := Slots(pos, n) + Reach((pos + n) / BLOCK_SIZE);
    FillsTwice(view, sb, a, Slots(pos, n), v, s, i, Reach((pos + n) / BLOCK_SIZE), view', sb', inode);
    FillsMore(view, sb, a, slots, view', sb', inode, Slots(pos, n) + Slots(pos, count) * {SLOTS});
  }

  // The loop of fs_write.
  method WriteLoop(mp: Mount, start: Inode, pos: nat, src: seq<byte>, stack: Block, ghost tab: seq<Inode>, ghost f: nat)
    returns (written: nat, inode: Inode)
    requires mp.Valid() && FsInv(mp.cache.view, mp.sb, tab) && f < |tab| && tab[f] == start
    requires pos <= start[SIZE_WORD] && pos + |src| <= MAX_BYTES
    modifies mp, mp.cache.Repr
    ensures mp.Valid() && fresh(mp.cache.Repr - old(mp.cache.Repr))
    ensures written <= |src|
    ensures Wrote(old(mp.cache.view), old(mp.sb), tab, f, pos, src, written, mp.cache.view, mp.sb, inode)
    ensures Allotted(old(mp.cache.view), old(mp.sb), start, pos, |src|, written, mp.cache.view, mp.sb, inode)
  {
    hide Wrote, Writing, FsInv, Keeps, Counted, Linked, Coherent, Contents, Overlay, Cache.Valid, Fills, Allotted, Slots,
         Reach, Ptr;
    ghost var view, sb := mp.cache.view, mp.sb;
    WroteNothing(view, sb, tab, f, pos, src);
    FillsNothing(view, sb, tab, f);
    FillsMore(view, sb, start, {}, view, sb, start, Slots(pos, 0));
    written, inode := 0, start;
    var chunk := 1;
    while written < |src|
      invariant mp.Valid() && fresh(mp.cache.Repr - old(mp.cache.Repr))
      invariant written <= |src|
      invariant Wrote(view, sb, tab, f, pos, src, written, mp.cache.view, mp.sb, inode)
      invariant Fills(view, sb, start, Slots(pos, written), mp.cache.view, mp.sb, inode)
      decreases |src| - written
    {
      ghost var v, s, i := mp.cache.view, mp.sb, inode;
      WroteInv(view, sb, tab, f, pos, src, written, v, s, i);
      chunk, inode := WriteTurn(mp, inode, pos + written, src, written, stack, tab[f := inode], f);
      WroteMore(view, sb, tab, f, pos, src, written, v, s, i, chunk, mp.cache.view, mp.sb, inode);
      if chunk == 0 {
        WroteInv(view, sb, tab, f, pos, src, written, mp.cache.view, mp.sb, inode);
        TookSome(view, sb, start, pos, |src|, written, v, s, i, mp.cache.view, mp.sb, tab, f, inode);
        return;
      }
      FilledMore(view, sb, start, pos, written, v, s, i, chunk, mp.cache.view, mp.sb, inode);
      written := written + chunk;
    }
    WroteInv(view, sb, tab, f, pos, src, written, mp.cache.view, mp.sb, inode);
    TookAll(view, sb, start, pos, |src|, mp.cache.view, mp.sb, tab, f, inode);
  }

  // ---------- writing the inode back ----------

  lemma PutOutsideFiles(view: seq<Block>, sb: Superblock, tab: seq<Inode>, ino: nat, inode: Inode)
    requires FsInv(view, sb, tab) && 0 < ino <= sb.inodes_count
    ensures var view' := PutInode(view, sb, ino, inode);
            && (forall g | 0 <= g < |tab| :: SameBlocks(view, view', tab[g]))
            && Counted(view', sb) && FreeBlocks(view', sb) == FreeBlocks(view, sb)
            && (forall b | b in FreeBlocks(view, sb) :: view'[b] == view[b])
  {
    var view', at := PutInode(view, sb, ino, inode), InodeBlock(sb, ino);
    InodeInBlock(sb, ino);
    assert forall b | 0 <= b < |view| && b != at :: view'[b] == view[b];
    assert forall b | DataBlock(sb, b) :: b != at;
    forall g | 0 <= g < |tab|
      ensures SameBlocks(view, view', tab[g])
    {
      assert FileOk(view, sb, tab[g]);
      hide PutInode, Ptr, DataBlock, FreeBlocks, InodeBlock;
    }
    assert BitmapsKept(view, sb, view');
    SameBitmaps(view, sb, view');
  }

  lemma TimePtr(view: seq<Block>, inode: Inode, now: word, i: nat)
    requires i <= SLOTS
    ensures Ptr(view, inode[MTIME_WORD := now], i) == Ptr(view, inode, i)
  {
  }

  lemma TimeContents(view: seq<Block>, inode: Inode, now: word)
    requires inode[SIZE_WORD] <= MAX_BYTES
    ensures Contents(view, inode[MTIME_WORD := now]) == Contents(view, inode)
  {
    var inode' := inode[MTIME_WORD := now];
    forall k | 0 <= k < inode[SIZE_WORD]
      ensures FileByte(view, inode', k) == FileByte(view, inode, k)
    {
      TimePtr(view, inode, now, k / BLOCK_SIZE);
    }
  }

  // Storing the inode with a new time changes no file's bytes.
  lemma InvAfterPut(view: seq<Block>, sb: Superblock, tab: seq<Inode>, f: nat, now: word)
    requires FsInv(view, sb, tab) && f < |tab|
    ensures var inode := tab[f][MTIME_WORD := now]; var view' := PutInode(view, sb, f + 1, inode);
            && FsInv(view', sb, tab[f := inode]) && inode[SIZE_WORD] == tab[f][SIZE_WORD] <= MAX_BYTES
            && Contents(view', inode) == Contents(view, tab[f])
            && forall g | 0 <= g < |tab| && g != f :: Contents(view', tab[g]) == Contents(view, tab[g])
  {
    var inode := tab[f][MTIME_WORD := now];
    var view' := PutInode(view, sb, f + 1, inode);
    PutOutsideFiles(view, sb, tab, f + 1, inode);
    assert FileOk(view, sb, tab[f]);
    PutKeepsPointers(view, sb, tab, f, now);
    FileOkByPtr(view, sb, tab[f], view', inode);
    forall g | 0 <= g < |tab| && g != f
      ensures Separate(view', inode, tab[g])
    {
      SameSeparate(view, view', tab[f], tab[g]);
      SeparateByPtr(view', tab[f], inode, tab[g], now);
    }
    SameContents(view, view', tab[f]);
    TimeContents(view', tab[f], now);
    assert OneFileChanges(view, sb, tab, f, view', sb, inode) by {
      hide FileOk, Separate, SameBlocks, DataBlock, Ptr, PutInode;
    }
    InvAfterChange(view, sb, tab, f, view', sb, inode);
  }

  lemma PutKeepsPointers(view: seq<Block>, sb: Superblock, tab: seq<Inode>, f: nat, now: word)
    requires FsInv(view, sb, tab) && f < |tab|
    ensures var inode := tab[f][MTIME_WORD := now]; var view' := PutInode(view, sb, f + 1, inode);
            && |view'| == |view| && Layout(sb, |view|) && FreeBlocks(view', sb) == FreeBlocks(view, sb)
            && (forall i | 0 <= i <= SLOTS :: Ptr(view', inode, i) == Ptr(view, tab[f], i))
            && Frame(view, sb, tab[f], view', sb, inode)
  {
    var inode := tab[f][MTIME_WORD := now];
    PutOutsideFiles(view, sb, tab, f + 1, inode);
    forall i | 0 <= i <= SLOTS
      ensures Ptr(PutInode(view, sb, f + 1, inode), inode, i) == Ptr(view, tab[f], i)
    {
      SamePtr(view, PutInode(view, sb, f + 1, inode), tab[f], i);
      TimePtr(PutInode(view, sb, f + 1, inode), tab[f], now, i);
    }
  }

  lemma SeparateByPtr(view: seq<Block>, a: Inode, a': Inode, b: Inode, now: word)
    requires Separate(view, a, b) && a' == a[MTIME_WORD := now]
    ensures Separate(view, a', b)
  {
    forall i | 0 <= i <= SLOTS
      ensures Ptr(view, a', i) == Ptr(view, a, i)
    {
      TimePtr(view, a, now, i);
    }
    hide Ptr;
  }

  lemma DiskTabAfterPut(view: seq<Block>, sb: Superblock, f: nat, inode: Inode)
    requires TableFits(sb, |view|) && f < sb.inodes_count
    ensures DiskTab(PutInode(view, sb, f + 1, inode), sb) == DiskTab(view, sb)[f := inode]
  {
    var view' := PutInode(view, sb, f + 1, inode);
    forall i | 0 < i <= sb.inodes_count
      ensures InodeAt(view', sb, i) == if i == f + 1 then inode else InodeAt(view, sb, i)
    {
      InodeAfterPut(view, sb, f + 1, inode, i);
    }
    hide InodeAt, PutInode;
  }
}
