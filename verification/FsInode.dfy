// Where inodes lie on disk (src/fs_core.c:195-238).
module FsInode {
  import opened Common
  import opened BlockCache
  import opened FsLayout
  import opened FsCore

  // inode_t is 22 words: three 16-bit fields with padding (two words), size,
  // three times, a block count, twelve direct pointers, three indirect ones.
  type Inode = ws: seq<word> | |ws| == 22 witness seq(22, _ => 0)

  const INODE_BYTES := 88
  const SIZE_WORD := 2
  const MTIME_WORD := 4
  const DIRECT_WORD := 7
  const INDIRECT_WORD := 19

  // Inodes are numbered from 1.
  function InodeGroup(sb: Superblock, ino: nat): nat
    requires 0 < ino && 0 < sb.inodes_per_group
  {
    (ino - 1) / sb.inodes_per_group
  }

  function InodeIndex(sb: Superblock, ino: nat): nat
    requires 0 < ino && 0 < sb.inodes_per_group
  {
    (ino - 1) % sb.inodes_per_group
  }

  function InodeBlock(sb: Superblock, ino: nat): nat
    requires 0 < ino && 0 < sb.inodes_per_group
  {
    sb.first_inode + InodeGroup(sb, ino) * sb.inodes_per_group + InodeIndex(sb, ino) * sb.inode_size / BLOCK_SIZE
  }

  function InodeOffset(sb: Superblock, ino: nat): nat
    requires 0 < ino && 0 < sb.inodes_per_group
  {
    InodeIndex(sb, ino) * sb.inode_size % BLOCK_SIZE
  }

  // Inodes fit, and a whole number of them fills a block.
  predicate InodesFit(sb: Superblock) {
    0 < sb.inodes_per_group && INODE_BYTES <= sb.inode_size <= BLOCK_SIZE && BLOCK_SIZE % sb.inode_size == 0
  }

  lemma MulMono(a: nat, b: nat, n: nat)
    requires a <= b
    ensures a * n <= b * n
  {
  }

  // index = a * per + d: the inode starts d places into the a-th block.
  lemma InodeSplit(size: nat, index: nat)
    requires 0 < size <= BLOCK_SIZE && BLOCK_SIZE % size == 0
    ensures var per := BLOCK_SIZE / size;
            && per > 0 && per * size == BLOCK_SIZE
            && index * size / BLOCK_SIZE == index / per
            && index * size % BLOCK_SIZE == index % per * size
            && index % per * size + size <= BLOCK_SIZE
  {
    var per := BLOCK_SIZE / size;
    assert per * size == BLOCK_SIZE;
    var a, d := index / per, index % per;
    assert index == a * per + d;
    assert index * size == a * BLOCK_SIZE + d * size by {
      assert (a * per + d) * size == a * (per * size) + d * size;
    }
    MulMono(d + 1, per, size);
    assert (d + 1) * size == d * size + size;
    DivMod(index * size, BLOCK_SIZE, a, d * size);
  }

  // Counted in bytes, inode number g * inodes_per_group + x + 1 starts x inodes
  // into the table of group g, which is inodes_per_group blocks after that of
  // the group before.
  lemma InodePlace(sb: Superblock, g: nat, x: nat)
    requires InodesFit(sb) && x < sb.inodes_per_group
    ensures var ino := g * sb.inodes_per_group + x + 1;
            InodeBlock(sb, ino) * BLOCK_SIZE + InodeOffset(sb, ino)
            == (sb.first_inode + g * sb.inodes_per_group) * BLOCK_SIZE + x * sb.inode_size
  {
    DivMod(g * sb.inodes_per_group + x, sb.inodes_per_group, g, x);
  }

  lemma InodeInBlock(sb: Superblock, ino: nat)
    requires InodesFit(sb) && 0 < ino
    ensures InodeOffset(sb, ino) + INODE_BYTES <= BLOCK_SIZE
  {
    InodeSplit(sb.inode_size, InodeIndex(sb, ino));
  }

  lemma QuotientSmall(x: nat, per: nat)
    requires per > 0
    ensures x / per <= x
  {
    var q := x / per;
    assert x == q * per + x % per;
    MulMono(1, per, q);
    assert per * q == q * per;
  }

  // Group and index determine the inode.
  lemma SameInode(sb: Superblock, i: nat, j: nat)
    requires 0 < sb.inodes_per_group && 0 < i && 0 < j
    requires InodeGroup(sb, i) == InodeGroup(sb, j) && InodeIndex(sb, i) == InodeIndex(sb, j)
    ensures i == j
  {
    var n := sb.inodes_per_group;
    assert i - 1 == InodeGroup(sb, i) * n + InodeIndex(sb, i);
    assert j - 1 == InodeGroup(sb, j) * n + InodeIndex(sb, j);
  }

  lemma SlotsApart(d: nat, e: nat, size: nat)
    requires d < e
    ensures d * size + size <= e * size
  {
    MulMono(d + 1, e, size);
    assert (d + 1) * size == d * size + size;
  }

  // Inodes in the same block are in the same group and in the same run of
  // indices.
  lemma SameRun(n: nat, g: nat, h: nat, a: nat, b: nat)
    requires a < n && b < n && g * n + a == h * n + b
    ensures g == h && a == b
  {
    DivMod(g * n + a, n, g, a);
    DivMod(g * n + a, n, h, b);
  }

  lemma SplitIndex(x: nat, y: nat, per: nat)
    requires per > 0 && x / per == y / per && x % per == y % per
    ensures x == y
  {
    assert x == x / per * per + x % per;
    assert y == y / per * per + y % per;
  }

  lemma SameBlockRun(sb: Superblock, i: nat, j: nat)
    requires InodesFit(sb) && 0 < i && 0 < j && InodeBlock(sb, i) == InodeBlock(sb, j)
    ensures var per := BLOCK_SIZE / sb.inode_size;
            per > 0 && InodeGroup(sb, i) == InodeGroup(sb, j) && InodeIndex(sb, i) / per == InodeIndex(sb, j) / per
  {
    var per, n := BLOCK_SIZE / sb.inode_size, sb.inodes_per_group;
    var x, y := InodeIndex(sb, i), InodeIndex(sb, j);
    assert x < n && y < n;
    InodeSplit(sb.inode_size, x);
    InodeSplit(sb.inode_size, y);
    QuotientSmall(x, per);
    QuotientSmall(y, per);
    SameRun(n, InodeGroup(sb, i), InodeGroup(sb, j), x / per, y / per);
  }

  // Different inodes never share a byte.
  lemma InodesApart(sb: Superblock, i: nat, j: nat)
    requires InodesFit(sb) && 0 < i && 0 < j && i != j && InodeBlock(sb, i) == InodeBlock(sb, j)
    ensures InodeOffset(sb, i) + INODE_BYTES <= InodeOffset(sb, j) || InodeOffset(sb, j) + INODE_BYTES <= InodeOffset(sb, i)
  {
    hide InodeGroup, InodeIndex, InodeBlock;
    var size := sb.inode_size;
    var per := BLOCK_SIZE / size;
    var x, y := InodeIndex(sb, i), InodeIndex(sb, j);
    SameBlockRun(sb, i, j);
    InodeSplit(size, x);
    InodeSplit(size, y);
    if x % per == y % per {
      SplitIndex(x, y, per);
      SameInode(sb, i, j);
    } else if x % per < y % per {
      SlotsApart(x % per, y % per, size);
    } else {
      SlotsApart(y % per, x % per, size);
    }
  }

  // ---------- reading and writing ----------

  // The inode table is on the device and outside block 0 and the bitmaps.
  ghost predicate TableFits(sb: Superblock, n: nat) {
    && InodesFit(sb)
    && forall i | 0 < i <= sb.inodes_count :: 0 < InodeBlock(sb, i) < n && !IsBitmap(sb, InodeBlock(sb, i))
  }

  ghost function InodeAt(view: seq<Block>, sb: Superblock, ino: nat): Inode
    requires TableFits(sb, |view|) && 0 < ino <= sb.inodes_count
  {
    InodeInBlock(sb, ino);
    var at := InodeOffset(sb, ino);
    Words(view[InodeBlock(sb, ino)][at..at + INODE_BYTES])
  }

  // view with the inode written over its place.
  ghost function PutInode(view: seq<Block>, sb: Superblock, ino: nat, inode: Inode): (view': seq<Block>)
    requires TableFits(sb, |view|) && 0 < ino <= sb.inodes_count
    ensures |view'| == |view|
  {
    InodeInBlock(sb, ino);
    var b := InodeBlock(sb, ino);
    view[b := Over(view[b], InodeOffset(sb, ino), Bytes(inode))]
  }

  // A written inode reads back, and every other one reads as before.
  lemma InodeAfterPut(view: seq<Block>, sb: Superblock, ino: nat, inode: Inode, i: nat)
    requires TableFits(sb, |view|) && 0 < ino <= sb.inodes_count && 0 < i <= sb.inodes_count
    ensures InodeAt(PutInode(view, sb, ino, inode), sb, i) == if i == ino then inode else InodeAt(view, sb, i)
  {
    InodeInBlock(sb, ino);
    InodeInBlock(sb, i);
    var b, at, bytes := InodeBlock(sb, ino), InodeOffset(sb, ino), Bytes(inode);
    var block := Over(view[b], at, bytes);
    hide InodeBlock, InodeOffset, Bytes;
    if i == ino {
      assert block[at..at + INODE_BYTES] == bytes;
      WordsOfBytes(inode);
    } else if InodeBlock(sb, i) == b {
      InodesApart(sb, i, ino);
      var o := InodeOffset(sb, i);
      assert block[o..o + INODE_BYTES] == view[b][o..o + INODE_BYTES];
    }
  }

  // read_inode
  method ReadInode(mp: Mount, ino: nat) returns (inode: Inode)
    requires mp.Valid() && TableFits(mp.sb, |mp.cache.view|) && 0 < ino <= mp.sb.inodes_count
    modifies mp.cache.Repr
    ensures mp.Valid() && fresh(mp.cache.Repr - old(mp.cache.Repr)) && mp.cache.view == old(mp.cache.view)
    ensures inode == InodeAt(mp.cache.view, mp.sb, ino)
  {
    InodeInBlock(mp.sb, ino);
    hide Counted, Linked, Coherent, InodesFit;
    var buffer := mp.cache.ReadBlock(InodeBlock(mp.sb, ino));
    inode := Words(buffer[InodeOffset(mp.sb, ino)..InodeOffset(mp.sb, ino) + INODE_BYTES]);
  }

  // write_inode
  method WriteInode(mp: Mount, ino: nat, inode: Inode)
    requires mp.Valid() && TableFits(mp.sb, |mp.cache.view|) && 0 < ino <= mp.sb.inodes_count
    modifies mp.cache.Repr
    ensures mp.Valid() && fresh(mp.cache.Repr - old(mp.cache.Repr))
    ensures mp.cache.view == old(PutInode(mp.cache.view, mp.sb, ino, inode))
  {
    InodeInBlock(mp.sb, ino);
    ghost var view := mp.cache.view;
    SameBitmaps(view, mp.sb, PutInode(view, mp.sb, ino, inode));
    hide Counted, Linked, Coherent, InodesFit, Bytes;
    var buffer := mp.cache.ReadBlock(InodeBlock(mp.sb, ino));
    buffer := Over(buffer, InodeOffset(mp.sb, ino), Bytes(inode));
    mp.cache.WriteBlock(InodeBlock(mp.sb, ino), buffer);
  }
}
