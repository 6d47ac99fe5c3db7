// Files on direct and single-indirect blocks (src/fs_file.c:64-242), down to
// bytes.
module FsFile {
  import opened Common
  import opened BlockCache
  import opened FsLayout
  import opened FsCore
  import opened FsInode

  const DIRECT := 12
  const PER_BLOCK := 1024            // BLOCK_SIZE / 4
  const SLOTS := 1036                // data blocks of a file in range
  const MAX_BYTES := 4_243_456       // SLOTS * BLOCK_SIZE

  predicate IsZero(b: Block) {
    forall k | 0 <= k < BLOCK_SIZE :: b[k] == 0
  }

  // Slot i < SLOTS points to the i-th data block, slot SLOTS to the indirect
  // block.
  ghost function Ptr(view: seq<Block>, inode: Inode, i: nat): nat
    requires i <= SLOTS
  {
    if i < DIRECT then inode[DIRECT_WORD + i]
    else if i == SLOTS then inode[INDIRECT_WORD]
    else if 0 < inode[INDIRECT_WORD] < |view| then WordAt(view[inode[INDIRECT_WORD]], 4 * (i - DIRECT))
    else 0
  }

  ghost function FileByte(view: seq<Block>, inode: Inode, k: nat): byte
    requires k < MAX_BYTES
  {
    var p := Ptr(view, inode, k / BLOCK_SIZE);
    if 0 < p < |view| then view[p][k % BLOCK_SIZE] else 0
  }

  // What the file holds.
  ghost function Contents(view: seq<Block>, inode: Inode): (s: seq<byte>)
    requires inode[SIZE_WORD] <= MAX_BYTES
    ensures |s| == inode[SIZE_WORD]
  {
    seq(inode[SIZE_WORD], k requires 0 <= k < inode[SIZE_WORD] => FileByte(view, inode, k))
  }

  // A block that may hold file data: on the device and no metadata.
  ghost predicate DataBlock(sb: Superblock, b: nat)
    requires 0 < sb.inodes_per_group
  {
    0 < b < Total(sb) && !IsBitmap(sb, b) && forall i | 0 < i <= sb.inodes_count :: InodeBlock(sb, i) != b
  }

  // Every pointer of the file is 0 or a used data block; every byte below
  // the size lies on a block; no two slots share a block.
  ghost predicate FileOk(view: seq<Block>, sb: Superblock, inode: Inode)
    requires Layout(sb, |view|) && 0 < sb.inodes_per_group
  {
    && inode[SIZE_WORD] <= MAX_BYTES
    && (forall i | 0 <= i <= SLOTS && Ptr(view, inode, i) != 0 ::
          DataBlock(sb, Ptr(view, inode, i)) && Ptr(view, inode, i) !in FreeBlocks(view, sb))
    && (forall i | 0 <= i < SLOTS && i * BLOCK_SIZE < inode[SIZE_WORD] :: Ptr(view, inode, i) != 0)
    && (forall i, j | 0 <= i < j <= SLOTS && Ptr(view, inode, i) != 0 :: Ptr(view, inode, i) != Ptr(view, inode, j))
  }

  // Two files share no block.
  ghost predicate Separate(view: seq<Block>, a: Inode, b: Inode) {
    forall i, j | 0 <= i <= SLOTS && 0 <= j <= SLOTS && Ptr(view, a, i) != 0 :: Ptr(view, a, i) != Ptr(view, b, j)
  }

  // tab is what the inodes say, with the open one as it is in memory.
  ghost predicate FsInv(view: seq<Block>, sb: Superblock, tab: seq<Inode>) {
    && Counted(view, sb) && TableFits(sb, |view|) && |tab| == sb.inodes_count
    && (forall f | 0 <= f < |tab| :: FileOk(view, sb, tab[f]))
    && (forall f, g | 0 <= f < |tab| && 0 <= g < |tab| && f != g :: Separate(view, tab[f], tab[g]))
    && (forall b | b in FreeBlocks(view, sb) :: DataBlock(sb, b) && IsZero(view[b]))
  }

  // ---------- what a file depends on ----------

  ghost predicate SameBlocks(view: seq<Block>, view': seq<Block>, inode: Inode) {
    |view'| == |view| && forall i | 0 <= i <= SLOTS && 0 < Ptr(view, inode, i) < |view| ::
      view'[Ptr(view, inode, i)] == view[Ptr(view, inode, i)]
  }

  lemma SamePtr(view: seq<Block>, view': seq<Block>, inode: Inode, i: nat)
    requires SameBlocks(view, view', inode) && i <= SLOTS
    ensures Ptr(view', inode, i) == Ptr(view, inode, i)
  {
    assert Ptr(view, inode, SLOTS) == inode[INDIRECT_WORD];
  }

  lemma SameContents(view: seq<Block>, view': seq<Block>, inode: Inode)
    requires SameBlocks(view, view', inode) && inode[SIZE_WORD] <= MAX_BYTES
    ensures Contents(view', inode) == Contents(view, inode)
  {
    forall k | 0 <= k < inode[SIZE_WORD]
      ensures FileByte(view', inode, k) == FileByte(view, inode, k)
    {
      SamePtr(view, view', inode, k / BLOCK_SIZE);
    }
  }

  lemma SameDataBlock(sb: Superblock, sb': Superblock, b: nat)
    requires 0 < sb.inodes_per_group && sb' == sb.(free_blocks := sb'.free_blocks)
    ensures DataBlock(sb', b) <==> DataBlock(sb, b)
  {
    assert forall i | 0 < i <= sb.inodes_count :: InodeBlock(sb', i) == InodeBlock(sb, i);
  }

  lemma SameFileOk(view: seq<Block>, sb: Superblock, view': seq<Block>, sb': Superblock, inode: Inode)
    requires Layout(sb, |view|) && 0 < sb.inodes_per_group && FileOk(view, sb, inode)
    requires SameBlocks(view, view', inode) && sb' == sb.(free_blocks := sb'.free_blocks)
    requires FreeBlocks(view', sb') <= FreeBlocks(view, sb)
    ensures FileOk(view', sb', inode)
  {
    forall i | 0 <= i <= SLOTS
      ensures Ptr(view', inode, i) == Ptr(view, inode, i)
      ensures DataBlock(sb', Ptr(view, inode, i)) <==> DataBlock(sb, Ptr(view, inode, i))
    {
      SamePtr(view, view', inode, i);
      SameDataBlock(sb, sb', Ptr(view, inode, i));
    }
    hide Ptr, FreeBlocks, DataBlock, SameBlocks, Layout;
  }

  lemma SameSeparate(view: seq<Block>, view': seq<Block>, a: Inode, b: Inode)
    requires Separate(view, a, b) && SameBlocks(view, view', a) && SameBlocks(view, view', b)
    ensures Separate(view', a, b)
  {
    forall i | 0 <= i <= SLOTS
      ensures Ptr(view', a, i) == Ptr(view, a, i) && Ptr(view', b, i) == Ptr(view, b, i)
    {
      SamePtr(view, view', a, i);
      SamePtr(view, view', b, i);
    }
    hide Ptr;
  }

  lemma SeparateSymmetric(view: seq<Block>, a: Inode, b: Inode)
    requires Separate(view, a, b)
    ensures Separate(view, b, a)
  {
    hide Ptr;
  }

  // ---------- replacing one file ----------

  // One file changes to inode, all others keep their blocks; what is free
  // was free before and is as it was.
  ghost predicate OneFileChanges(view: seq<Block>, sb: Superblock, tab: seq<Inode>, f: nat,
                                 view': seq<Block>, sb': Superblock, inode: Inode) {
    && FsInv(view, sb, tab) && f < |tab|
    && Counted(view', sb') && |view'| == |view| && sb' == sb.(free_blocks := sb'.free_blocks)
    && (forall g | 0 <= g < |tab| && g != f :: SameBlocks(view, view', tab[g]))
    && (forall b | b in FreeBlocks(view', sb') :: b in FreeBlocks(view, sb) && view'[b] == view[b])
    && FileOk(view', sb', inode)
    && (forall g | 0 <= g < |tab| && g != f :: Separate(view', inode, tab[g]))
  }

  lemma FilesOkAfterChange(view: seq<Block>, sb: Superblock, tab: seq<Inode>, f: nat,
                           view': seq<Block>, sb': Superblock, inode: Inode, g: nat)
    requires OneFileChanges(view, sb, tab, f, view', sb', inode) && g < |tab|
    ensures FileOk(view', sb', tab[f := inode][g])
  {
    hide FileOk, Separate, FreeBlocks, SameBlocks;
    if g != f {
      SameFileOk(view, sb, view', sb', tab[g]);
    }
  }

  lemma SeparateAfterChange(view: seq<Block>, sb: Superblock, tab: seq<Inode>, f: nat,
                            view': seq<Block>, sb': Superblock, inode: Inode, g: nat, h: nat)
    requires OneFileChanges(view, sb, tab, f, view', sb', inode) && g < |tab| && h < |tab| && g != h
    ensures Separate(view', tab[f := inode][g], tab[f := inode][h])
  {
    hide FileOk, Separate, FreeBlocks, Counted, SameBlocks;
    if g != f && h != f {
      SameSeparate(view, view', tab[g], tab[h]);
    } else if h == f {
      SeparateSymmetric(view', inode, tab[g]);
    }
  }

  lemma FreeAfterChange(view: seq<Block>, sb: Superblock, tab: seq<Inode>, f: nat,
                        view': seq<Block>, sb': Superblock, inode: Inode)
    requires OneFileChanges(view, sb, tab, f, view', sb', inode)
    ensures TableFits(sb', |view'|) && forall b | b in FreeBlocks(view', sb') :: DataBlock(sb', b) && IsZero(view'[b])
  {
    hide FileOk, Separate, FreeBlocks, SameBlocks, IsZero;
    assert forall i | 0 < i <= sb.inodes_count :: InodeBlock(sb', i) == InodeBlock(sb, i);
    forall b | b in FreeBlocks(view', sb')
      ensures DataBlock(sb', b) && IsZero(view'[b])
    {
      SameDataBlock(sb, sb', b);
    }
  }

  lemma OthersUnchanged(view: seq<Block>, sb: Superblock, tab: seq<Inode>, f: nat,
                        view': seq<Block>, sb': Superblock, inode: Inode)
    requires OneFileChanges(view, sb, tab, f, view', sb', inode)
    ensures forall g | 0 <= g < |tab| && g != f :: tab[g][SIZE_WORD] <= MAX_BYTES && Contents(view', tab[g]) == Contents(view, tab[g])
  {
    forall g | 0 <= g < |tab| && g != f
      ensures tab[g][SIZE_WORD] <= MAX_BYTES && Contents(view', tab[g]) == Contents(view, tab[g])
    {
      assert FileOk(view, sb, tab[g]);
      SameContents(view, view', tab[g]);
    }
  }

  lemma ShapeAfterChange(view: seq<Block>, sb: Superblock, tab: seq<Inode>, f: nat,
                         view': seq<Block>, sb': Superblock, inode: Inode)
    requires OneFileChanges(view, sb, tab, f, view', sb', inode)
    ensures Layout(sb', |view'|) && 0 < sb'.inodes_per_group && |tab| == sb'.inodes_count
  {
    hide FileOk, Separate, SameBlocks;
  }

  lemma InvAfterChange(view: seq<Block>, sb: Superblock, tab: seq<Inode>, f: nat,
                       view': seq<Block>, sb': Superblock, inode: Inode)
    requires OneFileChanges(view, sb, tab, f, view', sb', inode)
    ensures FsInv(view', sb', tab[f := inode])
    ensures forall g | 0 <= g < |tab| && g != f :: Contents(view', tab[g]) == Contents(view, tab[g])
  {
    hide FileOk, Separate, FreeBlocks, Counted, DataBlock, IsZero, Contents, SameBlocks, TableFits;
    OthersUnchanged(view, sb, tab, f, view', sb', inode);
    FreeAfterChange(view, sb, tab, f, view', sb', inode);
    ShapeAfterChange(view, sb, tab, f, view', sb', inode);
    var tab' := tab[f := inode];
    forall g | 0 <= g < |tab|
      ensures FileOk(view', sb', tab'[g])
    {
      FilesOkAfterChange(view, sb, tab, f, view', sb', inode, g);
    }
    forall g, h | 0 <= g < |tab| && 0 <= h < |tab| && g != h
      ensures Separate(view', tab'[g], tab'[h])
    {
      SeparateAfterChange(view, sb, tab, f, view', sb', inode, g, h);
    }
  }

  // No file points to r.
  ghost predicate Unowned(view: seq<Block>, tab: seq<Inode>, r: nat) {
    forall g, i | 0 <= g < |tab| && 0 <= i <= SLOTS :: Ptr(view, tab[g], i) != r
  }

  // Taking a block from the free ones changes no file, and the block taken
  // is a zeroed data block no file points to.
  lemma InvAfterAlloc(view: seq<Block>, sb: Superblock, tab: seq<Inode>, f: nat, r: nat, view': seq<Block>,
        sb': Superblock)
    requires FsInv(view, sb, tab) && f < |tab| && Allocated(view, sb, r, view', sb')
    ensures FsInv(view', sb', tab)
    ensures forall g | 0 <= g < |tab| :: SameBlocks(view, view', tab[g]) && Contents(view', tab[g]) == Contents(view, tab[g])
    ensures Unowned(view', tab, r) && DataBlock(sb', r) && r !in FreeBlocks(view', sb') && IsZero(view'[r])
  {
    forall g | 0 <= g < |tab|
      ensures SameBlocks(view, view', tab[g]) && Contents(view', tab[g]) == Contents(view, tab[g])
      ensures FileOk(view', sb', tab[g])
      ensures g != f ==> Separate(view', tab[f], tab[g])
    {
      AllocKeepsBlocks(view, sb, tab[g], r, view', sb');
      SameContents(view, view', tab[g]);
      SameFileOk(view, sb, view', sb', tab[g]);
      if g != f {
        AllocKeepsBlocks(view, sb, tab[f], r, view', sb');
        SameSeparate(view, view', tab[f], tab[g]);
      }
    }
    SameDataBlock(sb, sb', r);
    AllocFrame(view, sb, r, view', sb');
    AllocUnowned(view, sb, tab, r, view');
    assert OneFileChanges(view, sb, tab, f, view', sb', tab[f]) by {
      hide FileOk, Separate, SameBlocks, DataBlock, IsZero, Contents;
    }
    InvAfterChange(view, sb, tab, f, view', sb', tab[f]);
    assert tab[f := tab[f]] == tab;
  }

  lemma AllocKeepsBlocks(view: seq<Block>, sb: Superblock, inode: Inode, r: nat, view': seq<Block>, sb': Superblock)
    requires Allocated(view, sb, r, view', sb') && 0 < sb.inodes_per_group && FileOk(view, sb, inode)
    ensures SameBlocks(view, view', inode)
  {
    hide Ptr, FreeBlocks, Counted;
  }

  // Blocks that stay free, and the one taken, keep their contents.
  lemma AllocFrame(view: seq<Block>, sb: Superblock, r: nat, view': seq<Block>, sb': Superblock)
    requires Allocated(view, sb, r, view', sb') && 0 < sb.inodes_per_group
    requires forall b | b in FreeBlocks(view, sb) :: DataBlock(sb, b)
    ensures forall b | b in FreeBlocks(view, sb) :: view'[b] == view[b]
  {
  }

  lemma AllocUnowned(view: seq<Block>, sb: Superblock, tab: seq<Inode>, r: nat, view': seq<Block>)
    requires FsInv(view, sb, tab) && r in FreeBlocks(view, sb) && r != 0
    requires forall g | 0 <= g < |tab| :: SameBlocks(view, view', tab[g])
    ensures Unowned(view', tab, r)
  {
    forall g, i | 0 <= g < |tab| && 0 <= i <= SLOTS
      ensures Ptr(view', tab[g], i) != r
    {
      SamePtr(view, view', tab[g], i);
      assert FileOk(view, sb, tab[g]);
    }
  }

  // ---------- pointing a slot at a block ----------

  // The words of an inode that fs_write leaves alone: all but the size, the
  // time and the pointers.
  ghost predicate SameRest(a: Inode, b: Inode) {
    forall w | 0 <= w < |a| && w != SIZE_WORD && w != MTIME_WORD && w != INDIRECT_WORD
               && !(DIRECT_WORD <= w < DIRECT_WORD + DIRECT) :: b[w] == a[w]
  }

  // inode' in view' points where inode does in view, except that slot i,
  // which pointed nowhere, now points to r; data blocks are untouched.
  ghost predicate Pointed(view: seq<Block>, inode: Inode, i: nat, r: nat, view': seq<Block>, inode': Inode) {
    && i <= SLOTS && Ptr(view, inode, i) == 0 && inode'[SIZE_WORD] == inode[SIZE_WORD] && SameRest(inode, inode')
    && (forall j | 0 <= j <= SLOTS :: Ptr(view', inode', j) == if j == i then r else Ptr(view, inode, j))
    && |view'| == |view| && (forall b | 0 <= b < |view| && b != inode[INDIRECT_WORD] :: view'[b] == view[b])
    && (inode[INDIRECT_WORD] == 0 ==> view' == view)
  }

  lemma OnlyIndirectChanges(view: seq<Block>, sb: Superblock, tab: seq<Inode>, f: nat, view': seq<Block>)
    requires FsInv(view, sb, tab) && f < |tab| && |view'| == |view|
    requires forall b | 0 <= b < |view| && b != tab[f][INDIRECT_WORD] :: view'[b] == view[b]
    requires tab[f][INDIRECT_WORD] == 0 ==> view' == view
    ensures Counted(view', sb) && FreeBlocks(view', sb) == FreeBlocks(view, sb)
    ensures forall g | 0 <= g < |tab| && g != f :: SameBlocks(view, view', tab[g])
    ensures forall b | b in FreeBlocks(view, sb) :: view'[b] == view[b]
  {
    var d := tab[f][INDIRECT_WORD];
    assert Ptr(view, tab[f], SLOTS) == d;
    if d != 0 {
      assert FileOk(view, sb, tab[f]);
      assert DataBlock(sb, d) && d !in FreeBlocks(view, sb);
      forall g | 0 <= g < |tab| && g != f
        ensures SameBlocks(view, view', tab[g])
      {
        assert Separate(view, tab[f], tab[g]);
        hide Ptr;
      }
      assert BitmapsKept(view, sb, view');
    }
    hide FileOk, Separate, DataBlock, Ptr;
    SameBitmaps(view, sb, view');
  }

  lemma PointedFile(view: seq<Block>, sb: Superblock, tab: seq<Inode>, f: nat, i: nat, r: nat, view': seq<Block>,
        inode: Inode)
    requires FsInv(view, sb, tab) && f < |tab| && Pointed(view, tab[f], i, r, view', inode)
    requires Unowned(view, tab, r) && DataBlock(sb, r) && r !in FreeBlocks(view, sb)
    requires FreeBlocks(view', sb) == FreeBlocks(view, sb)
    ensures FileOk(view', sb, inode)
  {
    assert FileOk(view, sb, tab[f]);
    hide Ptr, DataBlock, FreeBlocks;
  }

  lemma PointedSeparate(view: seq<Block>, sb: Superblock, tab: seq<Inode>, f: nat, i: nat, r: nat, view': seq<Block>,
        inode: Inode, g: nat)
    requires FsInv(view, sb, tab) && f < |tab| && Pointed(view, tab[f], i, r, view', inode)
    requires Unowned(view, tab, r) && g < |tab| && g != f && SameBlocks(view, view', tab[g])
    ensures Separate(view', inode, tab[g])
  {
    assert Separate(view, tab[f], tab[g]);
    forall j | 0 <= j <= SLOTS
      ensures Ptr(view', tab[g], j) == Ptr(view, tab[g], j)
    {
      SamePtr(view, view', tab[g], j);
    }
    hide Ptr, FileOk;
  }

  lemma PointedContents(view: seq<Block>, sb: Superblock, inode: Inode, i: nat, r: nat, view': seq<Block>,
        inode': Inode)
    requires Layout(sb, |view|) && 0 < sb.inodes_per_group && FileOk(view, sb, inode)
    requires Pointed(view, inode, i, r, view', inode')
    ensures Contents(view', inode') == Contents(view, inode)
  {
    forall k | 0 <= k < inode[SIZE_WORD]
      ensures FileByte(view', inode', k) == FileByte(view, inode, k)
    {
      var j := k / BLOCK_SIZE;
      assert j * BLOCK_SIZE <= k;
      assert Ptr(view, inode, j) != 0;
      assert Ptr(view, inode, SLOTS) == inode[INDIRECT_WORD];
      hide Ptr, DataBlock, FreeBlocks;
    }
  }

  lemma InvAfterPoint(view: seq<Block>, sb: Superblock, tab: seq<Inode>, f: nat, i: nat, r: nat, view': seq<Block>,
        inode: Inode)
    requires FsInv(view, sb, tab) && f < |tab| && Pointed(view, tab[f], i, r, view', inode)
    requires Unowned(view, tab, r) && DataBlock(sb, r) && r !in FreeBlocks(view, sb)
    ensures FsInv(view', sb, tab[f := inode])
    ensures Contents(view', inode) == Contents(view, tab[f])
    ensures forall g | 0 <= g < |tab| && g != f :: Contents(view', tab[g]) == Contents(view, tab[g])
  {
    OnlyIndirectChanges(view, sb, tab, f, view');
    PointedFile(view, sb, tab, f, i, r, view', inode);
    forall g | 0 <= g < |tab| && g != f
      ensures Separate(view', inode, tab[g])
    {
      PointedSeparate(view, sb, tab, f, i, r, view', inode, g);
    }
    PointedContents(view, sb, tab[f], i, r, view', inode);
    InvAfterChange(view, sb, tab, f, view', sb, inode);
  }

  lemma PointDirect(view: seq<Block>, inode: Inode, i: nat, r: word)
    requires i < DIRECT && inode[DIRECT_WORD + i] == 0
    ensures Pointed(view, inode, i, r, view, inode[DIRECT_WORD + i := r])
  {
  }

  lemma PointIndirect(view: seq<Block>, inode: Inode, r: word)
    requires inode[INDIRECT_WORD] == 0 && 0 < r < |view| && IsZero(view[r])
    ensures Pointed(view, inode, SLOTS, r, view, inode[INDIRECT_WORD := r])
  {
    var inode' := inode[INDIRECT_WORD := r];
    forall j | 0 <= j < SLOTS
      ensures Ptr(view, inode', j) == Ptr(view, inode, j)
    {
      if j >= DIRECT {
        var at := 4 * (j - DIRECT);
        assert view[r][at] == 0 && view[r][at + 1] == 0 && view[r][at + 2] == 0 && view[r][at + 3] == 0;
      }
    }
  }

  ghost function WithEntry(view: seq<Block>, d: nat, k: nat, r: word): (view': seq<Block>)
    requires d < |view| && k < PER_BLOCK
    ensures |view'| == |view|
  {
    view[d := Bytes(Words(view[d])[k := r])]
  }

  lemma EntryWord(block: Block, k: nat, r: word, j: nat)
    requires k < PER_BLOCK && j < PER_BLOCK
    ensures WordAt(Bytes(Words(block)[k := r]), 4 * j) == if j == k then r else WordAt(block, 4 * j)
  {
    WordAtBytes(Words(block)[k := r], j);
    hide Bytes, WordAt;
  }

  lemma EntryPtr(view: seq<Block>, inode: Inode, i: nat, r: word, j: nat)
    requires DIRECT <= i < SLOTS && 0 < inode[INDIRECT_WORD] < |view| && j <= SLOTS
    ensures Ptr(WithEntry(view, inode[INDIRECT_WORD], i - DIRECT, r), inode, j) == if j == i then r else Ptr(view, inode, j)
  {
    if DIRECT <= j < SLOTS {
      EntryWord(view[inode[INDIRECT_WORD]], i - DIRECT, r, j - DIRECT);
      hide Bytes, WordAt, Words;
    }
  }

  lemma PointEntry(view: seq<Block>, inode: Inode, i: nat, r: word)
    requires DIRECT <= i < SLOTS && 0 < inode[INDIRECT_WORD] < |view| && Ptr(view, inode, i) == 0
    ensures Pointed(view, inode, i, r, WithEntry(view, inode[INDIRECT_WORD], i - DIRECT, r), inode)
  {
    forall j | 0 <= j <= SLOTS
      ensures Ptr(WithEntry(view, inode[INDIRECT_WORD], i - DIRECT, r), inode, j) == if j == i then r else Ptr(view, inode, j)
    {
      EntryPtr(view, inode, i, r, j);
    }
    hide Ptr, Bytes, Words;
  }

  // ---------- writing into a data block ----------

  // s with t over it from at on, growing if t reaches past the end.
  function Overlay<T>(s: seq<T>, at: nat, t: seq<T>): (r: seq<T>)
    requires at <= |s|
    ensures |r| == if at + |t| > |s| then at + |t| else |s|
  {
    s[..at] + t + if at + |t| < |s| then s[at + |t|..] else []
  }

  // The chunk c is written at byte position pos of file f, all within one
  // block.
  ghost predicate ChunkFits(view: seq<Block>, inode: Inode, pos: nat, c: seq<byte>) {
    && pos <= inode[SIZE_WORD] && pos + |c| <= MAX_BYTES && c != []
    && pos % BLOCK_SIZE + |c| <= BLOCK_SIZE && 0 < Ptr(view, inode, pos / BLOCK_SIZE) < |view|
  }

  ghost function Grown(inode: Inode, end: nat): Inode
    requires end <= MAX_BYTES
  {
    if end > inode[SIZE_WORD] then inode[SIZE_WORD := end] else inode
  }

  ghost function ChunkView(view: seq<Block>, inode: Inode, pos: nat, c: seq<byte>): (view': seq<Block>)
    requires ChunkFits(view, inode, pos, c)
    ensures |view'| == |view|
  {
    var d := Ptr(view, inode, pos / BLOCK_SIZE);
    view[d := Over(view[d], pos % BLOCK_SIZE, c)]
  }

  lemma ChunkPtr(view: seq<Block>, sb: Superblock, inode: Inode, pos: nat, c: seq<byte>, i: nat)
    requires Layout(sb, |view|) && 0 < sb.inodes_per_group && FileOk(view, sb, inode)
    requires ChunkFits(view, inode, pos, c) && i <= SLOTS
    ensures Ptr(ChunkView(view, inode, pos, c), Grown(inode, pos + |c|), i) == Ptr(view, inode, i)
  {
    assert Ptr(view, inode, SLOTS) == inode[INDIRECT_WORD];
    assert Ptr(view, inode, pos / BLOCK_SIZE) != Ptr(view, inode, SLOTS);
  }

  lemma ChunkContents(view: seq<Block>, sb: Superblock, inode: Inode, pos: nat, c: seq<byte>)
    requires Layout(sb, |view|) && 0 < sb.inodes_per_group && FileOk(view, sb, inode)
    requires ChunkFits(view, inode, pos, c)
    ensures Contents(ChunkView(view, inode, pos, c), Grown(inode, pos + |c|)) == Overlay(Contents(view, inode), pos, c)
  {
    var view', inode' := ChunkView(view, inode, pos, c), Grown(inode, pos + |c|);
    var s := Overlay(Contents(view, inode), pos, c);
    forall k | 0 <= k < inode'[SIZE_WORD]
      ensures FileByte(view', inode', k) == s[k]
    {
      ChunkByte(view, sb, inode, pos, c, k);
    }
  }

  lemma ChunkByte(view: seq<Block>, sb: Superblock, inode: Inode, pos: nat, c: seq<byte>, k: nat)
    requires Layout(sb, |view|) && 0 < sb.inodes_per_group && FileOk(view, sb, inode)
    requires ChunkFits(view, inode, pos, c) && k < Grown(inode, pos + |c|)[SIZE_WORD]
    ensures FileByte(ChunkView(view, inode, pos, c), Grown(inode, pos + |c|), k)
            == if pos <= k < pos + |c| then c[k - pos] else FileByte(view, inode, k)
  {
    var i, j := pos / BLOCK_SIZE, k / BLOCK_SIZE;
    ChunkPtr(view, sb, inode, pos, c, j);
    if i != j {
      assert Ptr(view, inode, i) != Ptr(view, inode, j);
    }
  }

  // A chunk reaches no further than the block its position lies in.
  lemma ChunkMapped(view: seq<Block>, sb: Superblock, inode: Inode, pos: nat, c: seq<byte>)
    requires Layout(sb, |view|) && 0 < sb.inodes_per_group && FileOk(view, sb, inode)
    requires ChunkFits(view, inode, pos, c)
    ensures forall i | 0 <= i < SLOTS && i * BLOCK_SIZE < Grown(inode, pos + |c|)[SIZE_WORD] :: Ptr(view, inode, i) != 0
  {
    forall i | 0 <= i < SLOTS && i * BLOCK_SIZE < Grown(inode, pos + |c|)[SIZE_WORD]
      ensures Ptr(view, inode, i) != 0
    {
      if i * BLOCK_SIZE >= inode[SIZE_WORD] {
        assert i == pos / BLOCK_SIZE;
      }
    }
  }

  lemma ChunkFileOk(view: seq<Block>, sb: Superblock, inode: Inode, pos: nat, c: seq<byte>)
    requires Counted(view, sb) && 0 < sb.inodes_per_group && FileOk(view, sb, inode)
    requires ChunkFits(view, inode, pos, c)
    requires FreeBlocks(ChunkView(view, inode, pos, c), sb) == FreeBlocks(view, sb)
    ensures FileOk(ChunkView(view, inode, pos, c), sb, Grown(inode, pos + |c|))
  {
    var view', inode' := ChunkView(view, inode, pos, c), Grown(inode, pos + |c|);
    forall i | 0 <= i <= SLOTS
      ensures Ptr(view', inode', i) == Ptr(view, inode, i)
    {
      ChunkPtr(view, sb, inode, pos, c, i);
    }
    ChunkMapped(view, sb, inode, pos, c);
    FileOkByPtr(view, sb, inode, view', inode');
  }

  // A file's soundness is a matter of its pointers and its size.
  lemma FileOkByPtr(view: seq<Block>, sb: Superblock, inode: Inode, view': seq<Block>, inode': Inode)
    requires Layout(sb, |view|) && |view'| == |view| && 0 < sb.inodes_per_group && FileOk(view, sb, inode)
    requires FreeBlocks(view', sb) == FreeBlocks(view, sb) && inode'[SIZE_WORD] <= MAX_BYTES
    requires forall i | 0 <= i <= SLOTS :: Ptr(view', inode', i) == Ptr(view, inode, i)
    requires forall i | 0 <= i < SLOTS && i * BLOCK_SIZE < inode'[SIZE_WORD] :: Ptr(view, inode, i) != 0
    ensures FileOk(view', sb, inode')
  {
    hide Ptr, DataBlock, FreeBlocks;
  }

  lemma InvAfterChunk(view: seq<Block>, sb: Superblock, tab: seq<Inode>, f: nat, pos: nat, c: seq<byte>)
    requires FsInv(view, sb, tab) && f < |tab| && ChunkFits(view, tab[f], pos, c)
    ensures var view', inode := ChunkView(view, tab[f], pos, c), Grown(tab[f], pos + |c|);
            && FsInv(view', sb, tab[f := inode])
            && Contents(view', inode) == Overlay(Contents(view, tab[f]), pos, c)
            && forall g | 0 <= g < |tab| && g != f :: Contents(view', tab[g]) == Contents(view, tab[g])
  {
    var d, i := Ptr(view, tab[f], pos / BLOCK_SIZE), pos / BLOCK_SIZE;
    var view', inode := ChunkView(view, tab[f], pos, c), Grown(tab[f], pos + |c|);
    assert FileOk(view, sb, tab[f]) && DataBlock(sb, d) && d !in FreeBlocks(view, sb);
    forall g | 0 <= g < |tab| && g != f
      ensures SameBlocks(view, view', tab[g])
      ensures Separate(view', inode, tab[g])
    {
      ChunkSeparate(view, sb, tab, f, pos, c, g);
    }
    ChunkContents(view, sb, tab[f], pos, c);
    assert BitmapsKept(view, sb, view');
    SameBitmaps(view, sb, view');
    ChunkFileOk(view, sb, tab[f], pos, c);
    assert OneFileChanges(view, sb, tab, f, view', sb, inode) by {
      hide FileOk, Separate, SameBlocks, DataBlock, Ptr;
    }
    InvAfterChange(view, sb, tab, f, view', sb, inode);
  }

  lemma ChunkSeparate(view: seq<Block>, sb: Superblock, tab: seq<Inode>, f: nat, pos: nat, c: seq<byte>, g: nat)
    requires FsInv(view, sb, tab) && f < |tab| && ChunkFits(view, tab[f], pos, c) && g < |tab| && g != f
    ensures var view', inode := ChunkView(view, tab[f], pos, c), Grown(tab[f], pos + |c|);
            SameBlocks(view, view', tab[g]) && Separate(view', inode, tab[g])
  {
    var view', inode := ChunkView(view, tab[f], pos, c), Grown(tab[f], pos + |c|);
    var d := Ptr(view, tab[f], pos / BLOCK_SIZE);
    assert Separate(view, tab[f], tab[g]);
    assert SameBlocks(view, view', tab[g]) by {
      hide Ptr, FsInv;
    }
    forall j | 0 <= j <= SLOTS
      ensures Ptr(view', tab[g], j) == Ptr(view, tab[g], j)
      ensures Ptr(view', inode, j) == Ptr(view, tab[f], j)
    {
      SamePtr(view, view', tab[g], j);
      ChunkPtr(view, sb, tab[f], pos, c, j);
    }
    hide Ptr, FsInv, ChunkView, ChunkFits, SameBlocks;
  }
}
