// fs_read and fs_write on file descriptors: files as byte sequences
// (src/fs_file.c:64-242).
module FileSystem {
  import opened Widths
  import opened Common
  import opened BlockCache
  import opened FsLayout
  import opened FsCore
  import opened FsInode
  import opened FsFile
  import opened FsReadWrite
  import FsBlocks

  const MAX_OPEN_FILES := 128

  datatype FileDesc = FileDesc(inode: nat, pos: nat, flags: nat, count: nat)

  // ---------- reading ----------

  // desc->pos + count > inode.size, in 32 bits, for a position below the size.
  function Clip(pos: nat, count: nat, size: nat): (n: nat)
    requires pos < size
  {
    if (pos + count) % W32 > size then size - pos else count
  }

  // The count is clipped to the end of the file exactly when the sum does
  // not wrap around.
  lemma ClipIff(pos: nat, count: word, size: word)
    requires pos < size
    ensures Clip(pos, count, size) == (if count > size - pos then size - pos else count) <==> pos + count < W32
  {
    if pos + count >= W32 {
      DivMod(pos + count, W32, 1, pos + count - W32);
    }
  }

  // The block number lookup of fs_read for direct and single-indirect blocks.
  method Lookup(mp: Mount, inode: Inode, i: nat) returns (data_block: word)
    requires mp.Valid() && i < SLOTS
    requires i >= DIRECT ==> 0 < inode[INDIRECT_WORD] < |mp.cache.view|
    modifies mp.cache.Repr
    ensures mp.Valid() && fresh(mp.cache.Repr - old(mp.cache.Repr)) && mp.cache.view == old(mp.cache.view)
    ensures data_block == Ptr(mp.cache.view, inode, i)
  {
    hide Counted, Linked, Coherent;
    if i < DIRECT {
      data_block := inode[DIRECT_WORD + i];
    } else {
      var buffer := mp.cache.ReadBlock(inode[INDIRECT_WORD]);
      var indirect := Words(buffer);
      data_block := indirect[i - DIRECT];
    }
  }

  lemma ReadReady(view: seq<Block>, sb: Superblock, tab: seq<Inode>, f: nat, pos: nat)
    requires FsInv(view, sb, tab) && f < |tab| && pos < tab[f][SIZE_WORD]
    ensures tab[f][SIZE_WORD] <= MAX_BYTES
    ensures var i := pos / BLOCK_SIZE;
            i < SLOTS && 0 < Ptr(view, tab[f], i) < |view|
            && (i >= DIRECT ==> 0 < tab[f][INDIRECT_WORD] < |view|)
  {
    assert FileOk(view, sb, tab[f]);
  }

  lemma ReadBytes(view: seq<Block>, inode: Inode, pos: nat, n: nat)
    requires inode[SIZE_WORD] <= MAX_BYTES && pos + n <= inode[SIZE_WORD] && pos % BLOCK_SIZE + n <= BLOCK_SIZE
    requires n > 0 && 0 < Ptr(view, inode, pos / BLOCK_SIZE) < |view|
    ensures var block := view[Ptr(view, inode, pos / BLOCK_SIZE)];
            Contents(view, inode)[pos..pos + n] == block[pos % BLOCK_SIZE..pos % BLOCK_SIZE + n]
  {
    var block := view[Ptr(view, inode, pos / BLOCK_SIZE)];
    var s, b := Contents(view, inode)[pos..pos + n], block[pos % BLOCK_SIZE..pos % BLOCK_SIZE + n];
    forall k | 0 <= k < n
      ensures s[k] == b[k]
    {
      assert (pos + k) / BLOCK_SIZE == pos / BLOCK_SIZE && (pos + k) % BLOCK_SIZE == pos % BLOCK_SIZE + k;
      hide Ptr;
    }
  }

  // As much as the block at pos still has, and no more than room.
  function ChunkSize(pos: nat, room: nat): (chunk: nat)
    requires room > 0
    ensures 0 < chunk <= room && pos % BLOCK_SIZE + chunk <= BLOCK_SIZE
  {
    if BLOCK_SIZE - pos % BLOCK_SIZE > room then room else BLOCK_SIZE - pos % BLOCK_SIZE
  }

  method LoadBlock(mp: Mount, inode: Inode, i: nat) returns (block: Block)
    requires mp.Valid() && i < SLOTS && 0 < Ptr(mp.cache.view, inode, i) < |mp.cache.view|
    requires i >= DIRECT ==> 0 < inode[INDIRECT_WORD] < |mp.cache.view|
    modifies mp.cache.Repr
    ensures mp.Valid() && fresh(mp.cache.Repr - old(mp.cache.Repr)) && mp.cache.view == old(mp.cache.view)
    ensures block == mp.cache.view[Ptr(mp.cache.view, inode, i)]
  {
    hide Counted, Linked, Coherent, Ptr;
    var data_block := Lookup(mp, inode, i);
    block := mp.cache.ReadBlock(data_block);
  }

  // One turn of the loop of fs_read, without the copy: the bytes it copies.
  method ReadTurn(mp: Mount, inode: Inode, pos: nat, room: nat, ghost tab: seq<Inode>,
        ghost f: nat) returns (c: seq<byte>)
    requires mp.Valid() && FsInv(mp.cache.view, mp.sb, tab) && f < |tab| && tab[f] == inode && inode[SIZE_WORD] <= MAX_BYTES
    requires room > 0 && pos + room <= inode[SIZE_WORD]
    modifies mp.cache.Repr
    ensures mp.Valid() && fresh(mp.cache.Repr - old(mp.cache.Repr)) && mp.cache.view == old(mp.cache.view)
    ensures 0 < |c| <= room && c == Contents(mp.cache.view, inode)[pos..pos + |c|]
  {
    hide FsInv, Counted, Linked, Coherent, Contents, Ptr, Cache.Valid, TableFits, DiskTab, SliceRead, FileWritten,
         Wrote, PutInode, InodeAt;
    ghost var view := mp.cache.view;
    ReadReady(view, mp.sb, tab, f, pos);
    var block := LoadBlock(mp, inode, pos / BLOCK_SIZE);
    var chunk := ChunkSize(pos, room);
    ReadBytes(view, inode, pos, chunk);
    c := block[pos % BLOCK_SIZE..pos % BLOCK_SIZE + chunk];
  }

  // The loop of fs_read.
  method ReadLoop(mp: Mount, inode: Inode, pos: nat, count: nat, dst: array<byte>, ghost tab: seq<Inode>, ghost f: nat)
    requires mp.Valid() && FsInv(mp.cache.view, mp.sb, tab) && f < |tab| && tab[f] == inode && inode[SIZE_WORD] <= MAX_BYTES
    requires pos + count <= inode[SIZE_WORD] && count <= dst.Length && dst !in mp.cache.Repr
    modifies mp.cache.Repr, dst
    ensures mp.Valid() && fresh(mp.cache.Repr - old(mp.cache.Repr)) && mp.cache.view == old(mp.cache.view)
    ensures dst[..count] == Contents(mp.cache.view, inode)[pos..pos + count]
    ensures dst[count..] == old(dst[count..])
  {
    hide FsInv, Counted, Linked, Coherent, Contents, Ptr, Cache.Valid, TableFits, DiskTab, SliceRead, FileWritten,
         Wrote, PutInode, InodeAt;
    ghost var view := mp.cache.view;
    ghost var bytes := Contents(view, inode);
    var bytes_read := 0;
    while bytes_read < count
      invariant mp.Valid() && fresh(mp.cache.Repr - old(mp.cache.Repr)) && mp.cache.view == view && dst !in mp.cache.Repr
      invariant bytes_read <= count
      invariant dst[..bytes_read] == bytes[pos..pos + bytes_read]
      invariant dst[count..] == old(dst[count..])
    {
      var at := pos + bytes_read;
      var c := ReadTurn(mp, inode, at, count - bytes_read, tab, f);
      assert bytes[pos..pos + bytes_read] + bytes[at..at + |c|] == bytes[pos..at + |c|];
      Copy(dst, bytes_read, c);
      bytes_read := bytes_read + |c|;
    }
  }

  // ---------- the descriptor interface ----------

  class Files {
    const mp: Mount
    var file_descs: seq<FileDesc>

    ghost predicate Valid()
      reads this, mp, mp.cache, mp.cache.Repr
    {
      && mp.Valid() && this !in mp.cache.Repr && |file_descs| == MAX_OPEN_FILES
      && TableFits(mp.sb, |mp.cache.view|) && FsInv(mp.cache.view, mp.sb, Tab())
      && AllOpenOk(file_descs, Tab())
    }

    ghost function Tab(): seq<Inode>
      reads mp, mp.cache
      requires TableFits(mp.sb, |mp.cache.view|)
    {
      DiskTab(mp.cache.view, mp.sb)
    }

    constructor (mp: Mount, file_descs: seq<FileDesc>)
      requires mp.Valid() && |file_descs| == MAX_OPEN_FILES && TableFits(mp.sb, |mp.cache.view|)
      requires FsInv(mp.cache.view, mp.sb, DiskTab(mp.cache.view, mp.sb))
      requires AllOpenOk(file_descs, DiskTab(mp.cache.view, mp.sb))
      ensures Valid() && this.mp == mp && this.file_descs == file_descs
    {
      this.mp, this.file_descs := mp, file_descs;
    }

    predicate IsOpen(fd: int)
      reads this
      requires |file_descs| == MAX_OPEN_FILES
    {
      0 <= fd < MAX_OPEN_FILES && file_descs[fd].count > 0
    }

    // fs_read.  The sum of position and count must not wrap around, see
    // ClipIff.
    method Read(fd: int, dst: array<byte>, count: word) returns (r: int)
      requires Valid() && count <= dst.Length && dst !in mp.cache.Repr
      requires IsOpen(fd) ==> file_descs[fd].pos + count < W32
      modifies this, mp.cache.Repr, dst
      ensures Valid() && fresh(mp.cache.Repr - old(mp.cache.Repr)) && mp.cache.view == old(mp.cache.view)
      ensures !old(IsOpen(fd)) ==> r == -1 && file_descs == old(file_descs) && dst[..] == old(dst[..])
      ensures old(IsOpen(fd)) ==>
                var desc := old(file_descs[fd]); var bytes := Contents(mp.cache.view, Tab()[desc.inode - 1]);
                && r >= 0 && SliceRead(bytes, desc.pos, count, r, old(dst[..]), dst[..])
                && file_descs == old(file_descs)[fd := desc.(pos := desc.pos + r)]
    {
      hide FsInv, Counted, Linked, Coherent, Contents, Ptr, Cache.Valid, TableFits, DiskTab, SliceRead, FileWritten,
           Wrote, PutInode, InodeAt;
      if fd < 0 || fd >= MAX_OPEN_FILES {
        return -1;
      }
      var desc := file_descs[fd];
      if desc.count == 0 {
        return -1;
      }
      var n := ReadOpen(mp, desc, dst, count);
      file_descs := file_descs[fd := desc.(pos := desc.pos + n)];
      r := n;
    }

    // fs_write; now is the clock and stack what the uninitialised block
    // buffer holds.  The write must stay within direct and single-indirect
    // blocks.
    method Write(fd: int, src: seq<byte>, now: word, stack: Block) returns (r: int)
      requires Valid() && (IsOpen(fd) ==> file_descs[fd].pos + |src| <= MAX_BYTES)
      modifies this, mp, mp.cache.Repr
      ensures Valid() && fresh(mp.cache.Repr - old(mp.cache.Repr)) && mp.sb.inodes_count == old(mp.sb.inodes_count)
      ensures !old(IsOpen(fd)) ==>
                r == -1 && file_descs == old(file_descs) && mp.cache.view == old(mp.cache.view) && mp.sb == old(mp.sb)
      ensures old(IsOpen(fd)) ==>
                var desc := old(file_descs[fd]); var f := desc.inode - 1;
                && 0 <= r <= |src|
                && FileWritten(old(mp.cache.view), old(mp.sb), f, desc.pos, src[..r], mp.cache.view, mp.sb)
                && BlocksTaken(old(mp.cache.view), old(mp.sb), f, desc.pos, |src|, r, mp.cache.view, mp.sb)
                && Tab()[f][MTIME_WORD] == now
                && (r == |src| <==>
                    |FsBlocks.Missing(old(mp.cache.view), old(Tab())[f], desc.pos, |src|)| <= old(mp.sb.free_blocks))
                && file_descs == old(file_descs)[fd := desc.(pos := desc.pos + r)]
    {
      hide OpenOk, FsInv, Counted, Linked, Coherent, Contents, Ptr, Cache.Valid, TableFits, DiskTab, SliceRead,
           FileWritten, Wrote, PutInode, InodeAt, BlocksTaken, FsBlocks.Missing, FsBlocks.Filled;
      if fd < 0 || fd >= MAX_OPEN_FILES {
        return -1;
      }
      var desc := file_descs[fd];
      if desc.count == 0 {
        return -1;
      }
      ghost var view, sb := mp.cache.view, mp.sb;
      OpenFacts(view, sb, desc);
      var n := WriteOpen(mp, desc, src, now, stack);
      WholeIff(view, sb, desc.inode - 1, desc.pos, |src|, n, mp.cache.view, mp.sb);
      WrittenInv(view, sb, desc.inode - 1, desc.pos, src[..n], mp.cache.view, mp.sb);
      DescsStay(view, sb, fd, src[..n], file_descs, mp.cache.view, mp.sb);
      assert |src[..n]| == n;
      file_descs := file_descs[fd := desc.(pos := desc.pos + n)];
      r := n;
    }
  }

  // n bytes, as many as asked for or as there are, were copied from position
  // pos to the front of the buffer; the rest of the buffer is untouched.
  ghost predicate SliceRead(bytes: seq<byte>, pos: nat, count: nat, n: nat, was: seq<byte>, buf: seq<byte>) {
    && pos <= |bytes| && n == (if count > |bytes| - pos then |bytes| - pos else count)
    && |buf| == |was| >= n && buf[..n] == bytes[pos..pos + n] && buf[n..] == was[n..]
  }

  // What fs_read does for an open descriptor.
  method ReadOpen(mp: Mount, desc: FileDesc, dst: array<byte>, count: word) returns (n: nat)
    requires mp.Valid() && TableFits(mp.sb, |mp.cache.view|)
    requires FsInv(mp.cache.view, mp.sb, DiskTab(mp.cache.view, mp.sb)) && OpenOk(desc, DiskTab(mp.cache.view, mp.sb))
    requires count <= dst.Length && dst !in mp.cache.Repr && desc.pos + count < W32
    modifies mp.cache.Repr, dst
    ensures mp.Valid() && fresh(mp.cache.Repr - old(mp.cache.Repr)) && mp.cache.view == old(mp.cache.view)
    ensures TableFits(mp.sb, |mp.cache.view|)
    ensures var inode := DiskTab(mp.cache.view, mp.sb)[desc.inode - 1];
            && inode[SIZE_WORD] <= MAX_BYTES && desc.pos + n <= inode[SIZE_WORD]
            && SliceRead(Contents(mp.cache.view, inode), desc.pos, count, n, old(dst[..]), dst[..])
  {
    hide OpenOk, FsInv, Counted, Linked, Coherent, Contents, Ptr, Cache.Valid, TableFits, DiskTab, SliceRead,
         FileWritten, Wrote, PutInode, InodeAt;
    ghost var tab, f := DiskTab(mp.cache.view, mp.sb), desc.inode - 1;
    OpenFacts(mp.cache.view, mp.sb, desc);
    var inode := ReadInode(mp, desc.inode);
    n := ReadFrom(mp, inode, desc.pos, count, dst, tab, f);
  }

  // fs_read from the end-of-file test on.
  method ReadFrom(mp: Mount, inode: Inode, pos: nat, count: word, dst: array<byte>, ghost tab: seq<Inode>, ghost f: nat)
    returns (n: nat)
    requires mp.Valid() && FsInv(mp.cache.view, mp.sb, tab) && f < |tab| && tab[f] == inode && inode[SIZE_WORD] <= MAX_BYTES
    requires pos <= inode[SIZE_WORD] && count <= dst.Length && dst !in mp.cache.Repr && pos + count < W32
    modifies mp.cache.Repr, dst
    ensures mp.Valid() && fresh(mp.cache.Repr - old(mp.cache.Repr)) && mp.cache.view == old(mp.cache.view)
    ensures pos + n <= inode[SIZE_WORD]
    ensures SliceRead(Contents(mp.cache.view, inode), pos, count, n, old(dst[..]), dst[..])
  {
    hide FsInv, Counted, Linked, Coherent;
    if pos >= inode[SIZE_WORD] {
      return 0;
    }
    n := Clip(pos, count, inode[SIZE_WORD]);
    ReadLoop(mp, inode, pos, n, dst, tab, f);
    assert dst[n..] == dst[..][n..];
  }

  // View v' holds the files of view with c written at pos of file f.
  ghost predicate FileWritten(view: seq<Block>, sb: Superblock, f: nat, pos: nat, c: seq<byte>, view': seq<Block>,
        sb': Superblock) {
    && TableFits(sb, |view|) && TableFits(sb', |view'|) && sb'.inodes_count == sb.inodes_count && f < sb.inodes_count
    && var tab, tab' := DiskTab(view, sb), DiskTab(view', sb');
    && FsInv(view, sb, tab) && FsInv(view', sb', tab')
    && pos <= tab[f][SIZE_WORD] <= MAX_BYTES && tab'[f][SIZE_WORD] <= MAX_BYTES
    && Contents(view', tab'[f]) == Overlay(Contents(view, tab[f]), pos, c)
    && forall g | 0 <= g < |tab| && g != f :: tab'[g] == tab[g] && Contents(view', tab[g]) == Contents(view, tab[g])
  }

  // Of count bytes at pos of file f, n were written: no pointer of the file
  // went, and the blocks taken are the ones it now points to in slots that
  // had none.
  ghost predicate BlocksTaken(view: seq<Block>, sb: Superblock, f: nat, pos: nat, count: nat, n: nat, view': seq<Block>,
        sb': Superblock) {
    && TableFits(sb, |view|) && TableFits(sb', |view'|) && sb'.inodes_count == sb.inodes_count && f < sb.inodes_count
    && FsInv(view, sb, DiskTab(view, sb)) && FsInv(view', sb', DiskTab(view', sb'))
    && FsBlocks.Allotted(view, sb, DiskTab(view, sb)[f], pos, count, n, view', sb', DiskTab(view', sb')[f])
  }

  ghost predicate AllottedInTable(view: seq<Block>, sb: Superblock, f: nat, pos: nat, count: nat, n: nat,
                                  view': seq<Block>, sb': Superblock, inode: Inode) {
    && TableFits(sb, |view|) && f < sb.inodes_count
    && FsBlocks.Allotted(view, sb, DiskTab(view, sb)[f], pos, count, n, view', sb', inode)
  }

  // A write gets all its bytes down exactly when there is a free block for
  // every pointer it misses; the counter goes down by the slots filled.
  lemma WholeIff(view: seq<Block>, sb: Superblock, f: nat, pos: nat, count: nat, n: nat, view': seq<Block>,
        sb': Superblock)
    requires BlocksTaken(view, sb, f, pos, count, n, view', sb') && n <= count
    ensures var a, b := DiskTab(view, sb)[f], DiskTab(view', sb')[f];
            && (n == count <==> |FsBlocks.Missing(view, a, pos, count)| <= sb.free_blocks)
            && sb'.free_blocks == sb.free_blocks - |FsBlocks.Filled(view, a, view', b)|
            && (n == count ==> FsBlocks.Filled(view, a, view', b) == FsBlocks.Missing(view, a, pos, count))
  {
    var tab, tab' := DiskTab(view, sb), DiskTab(view', sb');
    assert FileOk(view, sb, tab[f]) && FileOk(view', sb', tab'[f]);
    hide DiskTab, FileOk, Separate, Ptr, DataBlock, IsZero;
    FsBlocks.AllDownIff(view, sb, tab[f], pos, count, n, view', sb', tab'[f]);
  }

  // What a file that had no block lies on afterwards, and what stays free.
  lemma FirstBlocks(view: seq<Block>, sb: Superblock, f: nat, pos: nat, count: nat, n: nat, view': seq<Block>,
        sb': Superblock)
    requires BlocksTaken(view, sb, f, pos, count, n, view', sb')
    requires forall i | 0 <= i <= SLOTS :: Ptr(view, DiskTab(view, sb)[f], i) == 0
    ensures var taken, free := FsBlocks.BlocksOf(view', DiskTab(view', sb')[f]), FreeBlocks(view', sb');
            && taken + free == FreeBlocks(view, sb) && taken !! free && sb'.free_blocks == |free|
            && forall t, u | t in taken && u in free :: t < u
  {
    hide DiskTab, FileOk, Separate, Ptr, DataBlock, IsZero, FreeBlocks;
    FsBlocks.FromNothing(view, sb, DiskTab(view, sb)[f], FsBlocks.Slots(pos, n) + FsBlocks.Slots(pos, count) * {SLOTS},
                         view', sb', DiskTab(view', sb')[f]);
  }

  // Storing the inode moves no pointer and no bit.
  lemma AllottedPut(view: seq<Block>, sb: Superblock, a: Inode, pos: nat, count: nat, n: nat,
                    v: seq<Block>, s: Superblock, tab: seq<Inode>, f: nat, now: word)
    requires FsInv(v, s, tab) && f < |tab| && FsBlocks.Allotted(view, sb, a, pos, count, n, v, s, tab[f])
    ensures var inode := tab[f][MTIME_WORD := now];
            FsBlocks.Allotted(view, sb, a, pos, count, n, PutInode(v, s, f + 1, inode), s, inode)
  {
    hide Contents, PutInode, DiskTab, FileOk, Separate, FsBlocks.Allotted, Ptr, FsBlocks.Frame;
    var inode := tab[f][MTIME_WORD := now];
    PutKeepsPointers(v, s, tab, f, now);
    FsBlocks.AllottedSame(view, sb, a, pos, count, n, v, s, tab[f], PutInode(v, s, f + 1, inode), inode);
  }

  lemma WroteInTable(view: seq<Block>, sb: Superblock, f: nat, pos: nat, src: seq<byte>, written: nat,
                     v: seq<Block>, s: Superblock, inode: Inode)
    requires TableFits(sb, |view|) && Wrote(view, sb, DiskTab(view, sb), f, pos, src, written, v, s, inode)
    ensures |DiskTab(view, sb)| == sb.inodes_count == s.inodes_count && TableFits(s, |v|) && f < sb.inodes_count
    ensures FsInv(v, s, DiskTab(view, sb)[f := inode]) && DiskTab(view, sb)[f := inode][f] == inode
    ensures DiskTab(v, s) == DiskTab(view, sb)
  {
    hide FsInv, Contents, TableFits, DiskTab;
    SameDiskTab(view, sb, v, s);
  }

  lemma TakenIs(view: seq<Block>, sb: Superblock, f: nat, pos: nat, c: seq<byte>, count: nat, n: nat,
                view': seq<Block>, sb': Superblock, b: Inode)
    requires FileWritten(view, sb, f, pos, c, view', sb') && DiskTab(view', sb')[f] == b
    requires AllottedInTable(view, sb, f, pos, count, n, view', sb', b)
    ensures BlocksTaken(view, sb, f, pos, count, n, view', sb')
  {
    hide FsInv, Contents, TableFits, DiskTab, FsBlocks.Allotted, Overlay;
  }

  lemma Finished(view: seq<Block>, sb: Superblock, f: nat, pos: nat, src: seq<byte>, written: nat,
                 v: seq<Block>, s: Superblock, inode: Inode, now: word)
    requires TableFits(sb, |view|) && Wrote(view, sb, DiskTab(view, sb), f, pos, src, written, v, s, inode)
    ensures TableFits(s, |v|) && f < s.inodes_count
    ensures FileWritten(view, sb, f, pos, src[..written], PutInode(v, s, f + 1, inode[MTIME_WORD := now]), s)
  {
    hide FsInv, Contents, PutInode, DiskTab, TableFits, TableKept, Overlay;
    WroteInTable(view, sb, f, pos, src, written, v, s, inode);
    var tab: seq<Inode> := DiskTab(view, sb);
    var tab': seq<Inode> := tab[f := inode];
    var inode': Inode := inode[MTIME_WORD := now];
    assert Keeps(view, sb, tab, f, v, s, inode) && tab'[f] == inode;
    SameDiskTab(view, sb, v, s);
    InvAfterPut(v, s, tab', f, now);
    DiskTabAfterPut(v, s, f, inode');
    assert tab'[f := inode'] == tab[f := inode'];
    assert forall g | 0 <= g < |tab| && g != f :: tab'[g] == tab[g];
  }

  lemma WrittenInv(view: seq<Block>, sb: Superblock, f: nat, pos: nat, c: seq<byte>, view': seq<Block>, sb': Superblock)
    requires FileWritten(view, sb, f, pos, c, view', sb')
    ensures TableFits(sb', |view'|) && FsInv(view', sb', DiskTab(view', sb')) && sb'.inodes_count == sb.inodes_count
  {
  }

  // What was written is what a read at the same place returns; the bytes
  // before and after are the old ones, and so are all other files.
  lemma WrittenReadsBack(view: seq<Block>, sb: Superblock, f: nat, pos: nat, c: seq<byte>, view': seq<Block>,
        sb': Superblock)
    requires FileWritten(view, sb, f, pos, c, view', sb')
    ensures var old_bytes := Contents(view, DiskTab(view, sb)[f]); var bytes := Contents(view', DiskTab(view', sb')[f]);
            && |bytes| == (if pos + |c| > |old_bytes| then pos + |c| else |old_bytes|)
            && bytes[pos..pos + |c|] == c && bytes[..pos] == old_bytes[..pos]
            && forall k | pos + |c| <= k < |old_bytes| :: bytes[k] == old_bytes[k]
  {
    hide FsInv, Contents, DiskTab, TableFits;
  }

  // All descriptors are still within their files afterwards.
  lemma DescsStay(view: seq<Block>, sb: Superblock, fd: nat, c: seq<byte>, descs: seq<FileDesc>,
                  view': seq<Block>, sb': Superblock)
    requires fd < |descs| == MAX_OPEN_FILES && descs[fd].inode > 0
    requires FileWritten(view, sb, descs[fd].inode - 1, descs[fd].pos, c, view', sb')
    requires AllOpenOk(descs, DiskTab(view, sb))
    ensures TableFits(sb', |view'|) && AllOpenOk(descs[fd := descs[fd].(pos := descs[fd].pos + |c|)], DiskTab(view', sb'))
  {
    hide FsInv, Contents, DiskTab;
  }

  // What fs_write does for an open descriptor.
  method WriteOpen(mp: Mount, desc: FileDesc, src: seq<byte>, now: word, stack: Block) returns (written: nat)
    requires mp.Valid() && TableFits(mp.sb, |mp.cache.view|)
    requires FsInv(mp.cache.view, mp.sb, DiskTab(mp.cache.view, mp.sb)) && OpenOk(desc, DiskTab(mp.cache.view, mp.sb))
    requires desc.pos + |src| <= MAX_BYTES
    modifies mp, mp.cache.Repr
    ensures mp.Valid() && fresh(mp.cache.Repr - old(mp.cache.Repr))
    ensures written <= |src|
    ensures FileWritten(old(mp.cache.view), old(mp.sb), desc.inode - 1, desc.pos, src[..written], mp.cache.view, mp.sb)
    ensures BlocksTaken(old(mp.cache.view), old(mp.sb), desc.inode - 1, desc.pos, |src|, written, mp.cache.view, mp.sb)
    ensures DiskTab(mp.cache.view, mp.sb)[desc.inode - 1][MTIME_WORD] == now
  {
    hide OpenOk, FsInv, Counted, Linked, Coherent, Contents, Ptr, Cache.Valid, TableFits, DiskTab, SliceRead,
         FileWritten, Wrote, PutInode, InodeAt;
    ghost var view, sb, f := mp.cache.view, mp.sb, desc.inode - 1;
    ghost var tab := DiskTab(view, sb);
    OpenFacts(view, sb, desc);
    var start := ReadInode(mp, desc.inode);
    var inode;
    written, inode := WriteLoop(mp, start, desc.pos, src, stack, tab, f);
    Store(mp, desc, src, written, inode, now, view, sb);
  }

  // The end of fs_write.
  method Store(mp: Mount, desc: FileDesc, src: seq<byte>, written: nat, inode: Inode, now: word,
               ghost view: seq<Block>, ghost sb: Superblock)
    requires mp.Valid() && TableFits(sb, |view|) && 0 < desc.inode && written <= |src|
    requires Wrote(view, sb, DiskTab(view, sb), desc.inode - 1, desc.pos, src, written, mp.cache.view, mp.sb, inode)
    requires AllottedInTable(view, sb, desc.inode - 1, desc.pos, |src|, written, mp.cache.view, mp.sb, inode)
    modifies mp.cache.Repr
    ensures mp.Valid() && fresh(mp.cache.Repr - old(mp.cache.Repr))
    ensures FileWritten(view, sb, desc.inode - 1, desc.pos, src[..written], mp.cache.view, mp.sb)
    ensures BlocksTaken(view, sb, desc.inode - 1, desc.pos, |src|, written, mp.cache.view, mp.sb)
    ensures DiskTab(mp.cache.view, mp.sb)[desc.inode - 1][MTIME_WORD] == now
  {
    hide FsInv, Counted, Linked, Coherent, Contents, Ptr, Cache.Valid, TableFits, DiskTab, SliceRead, FileWritten,
         Wrote, PutInode, InodeAt, FsBlocks.Allotted, Overlay, BlocksTaken;
    ghost var f, v, s := desc.inode - 1, mp.cache.view, mp.sb;
    Finished(view, sb, f, desc.pos, src, written, v, s, inode, now);
    WroteInTable(view, sb, f, desc.pos, src, written, v, s, inode);
    AllottedPut(view, sb, DiskTab(view, sb)[f], desc.pos, |src|, written, v, s, DiskTab(view, sb)[f := inode], f, now);
    DiskTabAfterPut(v, s, f, inode[MTIME_WORD := now]);
    WriteInode(mp, desc.inode, inode[MTIME_WORD := now]);
    TakenIs(view, sb, f, desc.pos, src[..written], |src|, written, mp.cache.view, mp.sb, inode[MTIME_WORD := now]);
  }

  lemma FileSize(view: seq<Block>, sb: Superblock, tab: seq<Inode>, f: nat)
    requires FsInv(view, sb, tab) && f < |tab|
    ensures tab[f][SIZE_WORD] <= MAX_BYTES
  {
    assert FileOk(view, sb, tab[f]);
  }

  lemma OpenFacts(view: seq<Block>, sb: Superblock, desc: FileDesc)
    requires TableFits(sb, |view|) && FsInv(view, sb, DiskTab(view, sb)) && OpenOk(desc, DiskTab(view, sb))
    ensures 0 < desc.inode <= |DiskTab(view, sb)| == sb.inodes_count
    ensures DiskTab(view, sb)[desc.inode - 1] == InodeAt(view, sb, desc.inode)
    ensures desc.pos <= DiskTab(view, sb)[desc.inode - 1][SIZE_WORD] <= MAX_BYTES
  {
    hide FsInv, InodeAt;
    FileSize(view, sb, DiskTab(view, sb), desc.inode - 1);
  }

  ghost predicate AllOpenOk(descs: seq<FileDesc>, tab: seq<Inode>) {
    forall d | 0 <= d < |descs| && descs[d].count > 0 :: OpenOk(descs[d], tab)
  }

  // An open descriptor is within its file.
  ghost predicate OpenOk(desc: FileDesc, tab: seq<Inode>) {
    0 < desc.inode <= |tab| && desc.pos <= tab[desc.inode - 1][SIZE_WORD]
  }
}
