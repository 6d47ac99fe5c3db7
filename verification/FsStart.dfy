// A freshly formatted device: the file system's invariant has a starting
// state.
module FsStart {
  import opened Common
  import opened BlockCache
  import opened FsLayout
  import opened FsCore
  import opened FsInode
  import opened FsFile
  import opened FsReadWrite
  import opened FsBlocks
  import opened FileSystem

  const BLANK: Block := seq(BLOCK_SIZE, _ => 0)

  // One group of eight blocks: superblock, bitmap, one block of inodes, and
  // five free data blocks; one file, which is empty.
  const SUPER := Superblock(0xEF53, 0, 4096, 8, 5, 1, 0, 0, 2, 128, 1, 8, 32, 0, 0, 0, 0, 0)

  // Bits 0, 1 and 2 are set.
  const BITMAP: Block := [7] + seq(BLOCK_SIZE - 1, _ => 0)

  const FORMATTED: seq<Block> := [BLANK, BITMAP, BLANK, BLANK, BLANK, BLANK, BLANK, BLANK]

  lemma BitmapBits(b: nat)
    requires b < 8
    ensures Used(FORMATTED, SUPER, b) <==> b < 3
  {
    SameBlock(SUPER, b, 0, b);
    assert GroupOf(SUPER, b) == 0 && BitOf(SUPER, b) == b;
    assert FORMATTED[1][b / 8] == 7;
    assert TestBit(7, b) <==> b < 3;
  }

  lemma FormattedCounted()
    ensures Counted(FORMATTED, SUPER) && FreeBlocks(FORMATTED, SUPER) == {3, 4, 5, 6, 7}
  {
    forall b: nat | b < 8
      ensures Used(FORMATTED, SUPER, b) <==> b < 3
    {
      BitmapBits(b);
    }
    hide Used;
    assert FreeBlocks(FORMATTED, SUPER) == {3, 4, 5, 6, 7};
  }

  lemma BlankInode()
    ensures TableFits(SUPER, 8) && InodeBlock(SUPER, 1) == 2 && InodeOffset(SUPER, 1) == 0
    ensures DiskTab(FORMATTED, SUPER) == [seq(22, _ => 0)]
  {
    assert InodeAt(FORMATTED, SUPER, 1) == seq(22, _ => 0);
  }

  lemma Formatted()
    ensures TableFits(SUPER, |FORMATTED|) && FsInv(FORMATTED, SUPER, DiskTab(FORMATTED, SUPER))
    ensures Contents(FORMATTED, DiskTab(FORMATTED, SUPER)[0]) == []
  {
    FormattedCounted();
    BlankInode();
    hide Counted, FreeBlocks, DiskTab, InodeAt;
  }

  lemma NoPointers()
    ensures TableFits(SUPER, |FORMATTED|) && |DiskTab(FORMATTED, SUPER)| == 1
    ensures forall i | 0 <= i <= SLOTS :: Ptr(FORMATTED, DiskTab(FORMATTED, SUPER)[0], i) == 0
  {
    BlankInode();
  }

  lemma LowestOf(all: set<nat>, taken: set<nat>, free: set<nat>, least: nat)
    requires taken + free == all && taken !! free && |free| + 1 == |all|
    requires least in all && forall t, u | t in taken && u in free :: t < u
    requires forall b | b in all :: least <= b
    ensures taken == {least}
  {
    assert |taken + free| == |taken| + |free|;
    var t :| t in taken;
    assert taken == {t} + (taken - {t});
    assert taken == {t};
  }

  lemma SlotsAtStart()
    ensures Slots(0, 20480) == {0, 1, 2, 3, 4} && |Slots(0, 20480)| == 5
    ensures Slots(0, 1) == {0} && |Slots(0, 1)| == 1
  {
    assert Slots(0, 20480) == {0, 1, 2, 3, 4};
  }

  lemma AllMissing(view: seq<Block>, inode: Inode, pos: nat, count: nat)
    requires forall i | 0 <= i <= SLOTS :: Ptr(view, inode, i) == 0
    ensures Missing(view, inode, pos, count) == Slots(pos, count)
  {
    hide Ptr, Needs;
  }

  // A first write, to an empty file with blocks 3 to 7 free: 20480 bytes all
  // get down and fill the device; one byte takes block 3.
  lemma FirstWrite(v: seq<Block>, s: Superblock, count: nat, n: nat, view: seq<Block>, sb: Superblock)
    requires n <= count && BlocksTaken(v, s, 0, 0, count, n, view, sb) && FreeBlocks(v, s) == {3, 4, 5, 6, 7}
    requires forall i | 0 <= i <= SLOTS :: Ptr(v, DiskTab(v, s)[0], i) == 0
    ensures var taken := BlocksOf(view, DiskTab(view, sb)[0]);
            && (count == 20480 ==> n == count && sb.free_blocks == 0 && taken == {3, 4, 5, 6, 7})
            && (count == 1 ==> n == count && sb.free_blocks == 4 && taken == {3})
  {
    hide Ptr, DiskTab, FreeBlocks, TableFits, BlocksOf, Allotted, FileOk, Separate, DataBlock, IsZero, Slots, Missing,
         Filled;
    var all: set<nat> := {3, 4, 5, 6, 7};
    assert |all| == 5 == s.free_blocks;
    SlotsAtStart();
    AllMissing(v, DiskTab(v, s)[0], 0, count);
    WholeIff(v, s, 0, 0, count, n, view, sb);
    FirstBlocks(v, s, 0, 0, count, n, view, sb);
    if count == 20480 {
      assert FreeBlocks(view, sb) == {};
    } else if count == 1 {
      LowestOf(all, BlocksOf(view, DiskTab(view, sb)[0]), FreeBlocks(view, sb), 3);
    }
  }

  // And so it is on the device just formatted.
  lemma FillsDevice(n: nat, view: seq<Block>, sb: Superblock)
    requires n <= 20480 && BlocksTaken(FORMATTED, SUPER, 0, 0, 20480, n, view, sb)
    ensures n == 20480 && sb.free_blocks == 0
    ensures TableFits(sb, |view|) && BlocksOf(view, DiskTab(view, sb)[0]) == {3, 4, 5, 6, 7}
  {
    hide Ptr, DiskTab, FreeBlocks, BlocksOf, Used, FsInv, Allotted;
    NoPointers();
    FormattedCounted();
    FirstWrite(FORMATTED, SUPER, 20480, n, view, sb);
  }
}
