// Block allocation and inode access over the cache (src/fs_core.c:146-238).
module FsCore {
  import opened Widths
  import opened Common
  import opened BlockCache
  import opened FsLayout

  // superblock_t, word by word; the four 16-bit fields make up two words.
  datatype Superblock = Superblock(
    magic: word, version: word, block_size: word, blocks_count: word, free_blocks: word,
    inodes_count: word, free_inodes: word, first_data_block: word, first_inode: word, inode_size: word,
    block_group_nr: word, blocks_per_group: word, inodes_per_group: word, mtime: word, wtime: word,
    mount_counts: word, state_errors: word, checksum: word)

  function SbWords(sb: Superblock): (ws: seq<word>)
    ensures |ws| == 18
  {
    [sb.magic, sb.version, sb.block_size, sb.blocks_count, sb.free_blocks,
     sb.inodes_count, sb.free_inodes, sb.first_data_block, sb.first_inode, sb.inode_size,
     sb.block_group_nr, sb.blocks_per_group, sb.inodes_per_group, sb.mtime, sb.wtime,
     sb.mount_counts, sb.state_errors, sb.checksum]
  }

  function SbImage(sb: Superblock): Block {
    Bytes(SbWords(sb)) + seq(BLOCK_SIZE - 72, _ => 0)
  }

  // Block 0 read back word by word, in the order of superblock_t.
  lemma SbReadBack(sb: Superblock)
    ensures Words(SbImage(sb)[..72]) == SbWords(sb)
    ensures var b := SbImage(sb);
            && WordAt(b, 0) == sb.magic && WordAt(b, 4) == sb.version && WordAt(b, 8) == sb.block_size
            && WordAt(b, 12) == sb.blocks_count && WordAt(b, 16) == sb.free_blocks && WordAt(b, 20) == sb.inodes_count
            && WordAt(b, 24) == sb.free_inodes && WordAt(b, 28) == sb.first_data_block && WordAt(b, 32) == sb.first_inode
            && WordAt(b, 36) == sb.inode_size && WordAt(b, 40) == sb.block_group_nr
            && WordAt(b, 44) == sb.blocks_per_group && WordAt(b, 48) == sb.inodes_per_group
            && WordAt(b, 52) == sb.mtime && WordAt(b, 56) == sb.wtime && WordAt(b, 60) == sb.mount_counts
            && WordAt(b, 64) == sb.state_errors && WordAt(b, 68) == sb.checksum
  {
    hide Bytes, WordAt;
    assert SbImage(sb)[..72] == Bytes(SbWords(sb));
    WordsOfBytes(SbWords(sb));
    SbWord(sb, 0); SbWord(sb, 1); SbWord(sb, 2); SbWord(sb, 3); SbWord(sb, 4); SbWord(sb, 5);
    SbWord(sb, 6); SbWord(sb, 7); SbWord(sb, 8); SbWord(sb, 9); SbWord(sb, 10); SbWord(sb, 11);
    SbWord(sb, 12); SbWord(sb, 13); SbWord(sb, 14); SbWord(sb, 15); SbWord(sb, 16); SbWord(sb, 17);
  }

  lemma SbWord(sb: Superblock, k: nat)
    requires k < 18
    ensures WordAt(SbImage(sb), 4 * k) == SbWords(sb)[k]
  {
    hide Bytes, WordAt;
    WordAtBytes(SbWords(sb), k);
    assert SbImage(sb)[..72] == Bytes(SbWords(sb));
    SameWord(Bytes(SbWords(sb)), SbImage(sb), 4 * k);
  }

  lemma SameWord(a: seq<byte>, b: seq<byte>, at: nat)
    requires at + 4 <= |a| <= |b| && a == b[..|a|]
    ensures WordAt(a, at) == WordAt(b, at)
  {
  }

  function Total(sb: Superblock): nat {
    sb.block_group_nr * sb.blocks_per_group
  }

  predicate IsBitmap(sb: Superblock, b: nat) {
    sb.first_data_block < b <= sb.first_data_block + sb.block_group_nr
  }

  // What mounting promises about the superblock of a device of n blocks.
  predicate Layout(sb: Superblock, n: nat) {
    && 0 < sb.blocks_per_group <= 8 * BLOCK_SIZE && 0 < sb.block_group_nr
    && Total(sb) <= n && sb.first_data_block + sb.block_group_nr < n
  }

  // ---------- the bitmap ----------

  ghost predicate Bit(view: seq<Block>, sb: Superblock, group: nat, bit: nat)
    requires Layout(sb, |view|) && group < sb.block_group_nr && bit < sb.blocks_per_group
  {
    TestBit(view[sb.first_data_block + 1 + group][bit / 8], bit % 8)
  }

  // The group and bit of a block number, and back.
  lemma SplitBlock(sb: Superblock, b: nat)
    requires 0 < sb.blocks_per_group && b < Total(sb)
    ensures b / sb.blocks_per_group < sb.block_group_nr && b % sb.blocks_per_group < sb.blocks_per_group
    ensures b / sb.blocks_per_group * sb.blocks_per_group + b % sb.blocks_per_group == b
  {
    var n, q := sb.blocks_per_group, b / sb.blocks_per_group;
    assert b == q * n + b % n;
    if q >= sb.block_group_nr {
      AtLeast(q, sb.block_group_nr, n);
    }
  }

  lemma AtLeast(q: nat, g: nat, n: nat)
    requires q >= g
    ensures q * n >= g * n
  {
  }

  lemma JoinBlock(sb: Superblock, group: nat, bit: nat)
    requires group < sb.block_group_nr && bit < sb.blocks_per_group
    ensures var b := group * sb.blocks_per_group + bit;
            b < Total(sb) && b / sb.blocks_per_group == group && b % sb.blocks_per_group == bit
  {
    DivMod(group * sb.blocks_per_group + bit, sb.blocks_per_group, group, bit);
    AtLeast(sb.block_group_nr, group + 1, sb.blocks_per_group);
    assert (group + 1) * sb.blocks_per_group == group * sb.blocks_per_group + sb.blocks_per_group;
  }

  function GroupOf(sb: Superblock, b: nat): (group: nat)
    requires 0 < sb.blocks_per_group && b < Total(sb)
    ensures group < sb.block_group_nr
  {
    SplitBlock(sb, b);
    b / sb.blocks_per_group
  }

  function BitOf(sb: Superblock, b: nat): (bit: nat)
    requires 0 < sb.blocks_per_group && b < Total(sb)
    ensures bit < sb.blocks_per_group
  {
    SplitBlock(sb, b);
    b % sb.blocks_per_group
  }

  // Whether the bitmap marks block b as used.
  ghost predicate Used(view: seq<Block>, sb: Superblock, b: nat)
    requires Layout(sb, |view|) && b < Total(sb)
  {
    Bit(view, sb, GroupOf(sb, b), BitOf(sb, b))
  }

  ghost function FreeBlocks(view: seq<Block>, sb: Superblock): set<nat>
    requires Layout(sb, |view|)
  {
    set b | 0 <= b < Total(sb) && !Used(view, sb, b)
  }

  // ---------- flipping one bit ----------

  // bitmap[bit / 8] |= 1 << (bit % 8), or &= ~(1 << (bit % 8))
  function WithBit(bitmap: Block, bit: nat, to: bool): Block
    requires bit < 8 * BLOCK_SIZE
  {
    var b := bitmap[bit / 8];
    bitmap[bit / 8 := if to then SetBit(b, bit % 8) else ClearBit(b, bit % 8)]
  }

  // view' is view with one bit of one bitmap block set or cleared and the
  // superblock written to block 0.
  ghost predicate Flipped(view: seq<Block>, sb: Superblock, group: nat, bit: nat, to: bool, view': seq<Block>)
    requires Layout(sb, |view|) && group < sb.block_group_nr && bit < sb.blocks_per_group
  {
    var at := sb.first_data_block + 1 + group;
    && |view'| == |view|
    && (forall b | 0 < b < |view| && b != at :: view'[b] == view[b])
    && view'[at] == WithBit(view[at], bit, to)
  }

  lemma FlippedBit(view: seq<Block>, sb: Superblock, group: nat, bit: nat, to: bool, view': seq<Block>, g: nat, j: nat)
    requires Layout(sb, |view|) && group < sb.block_group_nr && bit < sb.blocks_per_group
    requires Flipped(view, sb, group, bit, to, view') && g < sb.block_group_nr && j < sb.blocks_per_group
    ensures Bit(view', sb, g, j) <==> if g == group && j == bit then to else Bit(view, sb, g, j)
  {
    var at := sb.first_data_block + 1 + group;
    BitsIndependent(view[at][bit / 8], bit % 8, j % 8);
    if g == group && j / 8 == bit / 8 {
      assert j == bit <==> j % 8 == bit % 8;
    }
  }

  // Block number and group with bit determine each other.
  lemma SameBlock(sb: Superblock, b: nat, group: nat, bit: nat)
    requires 0 < sb.blocks_per_group && b < Total(sb) && group < sb.block_group_nr && bit < sb.blocks_per_group
    ensures b == group * sb.blocks_per_group + bit <==> GroupOf(sb, b) == group && BitOf(sb, b) == bit
  {
    SplitBlock(sb, b);
    if b == group * sb.blocks_per_group + bit {
      DivMod(b, sb.blocks_per_group, group, bit);
    }
  }

  lemma FlippedUsed(view: seq<Block>, sb: Superblock, group: nat, bit: nat, to: bool, view': seq<Block>, b: nat)
    requires Layout(sb, |view|) && group < sb.block_group_nr && bit < sb.blocks_per_group
    requires Flipped(view, sb, group, bit, to, view') && b < Total(sb)
    ensures Used(view', sb, b) <==> if b == group * sb.blocks_per_group + bit then to else Used(view, sb, b)
  {
    SameBlock(sb, b, group, bit);
    hide Bit, Flipped, Total, GroupOf, BitOf;
    FlippedBit(view, sb, group, bit, to, view', GroupOf(sb, b), BitOf(sb, b));
  }

  lemma FlippedFree(view: seq<Block>, sb: Superblock, group: nat, bit: nat, to: bool, view': seq<Block>, b: nat)
    requires Layout(sb, |view|) && group < sb.block_group_nr && bit < sb.blocks_per_group
    requires Flipped(view, sb, group, bit, to, view')
    ensures b in FreeBlocks(view', sb) <==>
            b < Total(sb) && if b == group * sb.blocks_per_group + bit then !to else b in FreeBlocks(view, sb)
  {
    if b < Total(sb) {
      hide Used, Flipped, Total;
      FlippedUsed(view, sb, group, bit, to, view', b);
    }
  }

  lemma FlippedBlocks(view: seq<Block>, sb: Superblock, group: nat, bit: nat, to: bool, view': seq<Block>)
    requires Layout(sb, |view|) && group < sb.block_group_nr && bit < sb.blocks_per_group
    requires Flipped(view, sb, group, bit, to, view')
    ensures var r := group * sb.blocks_per_group + bit;
            r < Total(sb)
            && FreeBlocks(view', sb) == if to then FreeBlocks(view, sb) - {r} else FreeBlocks(view, sb) + {r}
  {
    hide FreeBlocks, Total, Flipped, Used;
    FlippedSize(view, sb, group, bit, to, view');
    JoinBlock(sb, group, bit);
    var f' := FreeBlocks(view', sb);
    forall b: nat
      ensures b in f' <==> b < Total(sb) && if b == group * sb.blocks_per_group + bit then !to else b in FreeBlocks(view, sb)
    {
      FlippedFree(view, sb, group, bit, to, view', b);
    }
    FreeBelow(view, sb);
  }

  lemma FlippedSize(view: seq<Block>, sb: Superblock, group: nat, bit: nat, to: bool, view': seq<Block>)
    requires Layout(sb, |view|) && group < sb.block_group_nr && bit < sb.blocks_per_group
    requires Flipped(view, sb, group, bit, to, view')
    ensures |view'| == |view|
  {
  }

  lemma FreeBelow(view: seq<Block>, sb: Superblock)
    requires Layout(sb, |view|)
    ensures forall b | b in FreeBlocks(view, sb) :: b < Total(sb)
  {
  }

  // ---------- what allocating and freeing do ----------

  // The counter counts the clear bits, and block 0 is never free.
  ghost predicate Counted(view: seq<Block>, sb: Superblock) {
    Layout(sb, |view|) && sb.free_blocks == |FreeBlocks(view, sb)| && Used(view, sb, 0)
  }

  // Block contents other than the bitmaps and block 0 are untouched.
  ghost predicate SameData(sb: Superblock, view: seq<Block>, view': seq<Block>) {
    |view'| == |view| && forall b | 0 < b < |view| && !IsBitmap(sb, b) :: view'[b] == view[b]
  }

  // r is the lowest free block of view, and view' is view with r taken.
  ghost predicate Allocated(view: seq<Block>, sb: Superblock, r: nat, view': seq<Block>, sb': Superblock) {
    && Counted(view, sb) && Counted(view', sb') && sb' == sb.(free_blocks := sb'.free_blocks)
    && r in FreeBlocks(view, sb) && (forall b | b in FreeBlocks(view, sb) :: r <= b)
    && FreeBlocks(view', sb') == FreeBlocks(view, sb) - {r}
    && SameData(sb, view, view') && view'[0] == SbImage(sb')
  }

  // Every bit of the groups before group is set.
  ghost predicate FullBefore(view: seq<Block>, sb: Superblock, group: nat) {
    && Layout(sb, |view|) && group <= sb.block_group_nr
    && forall g, j | 0 <= g < group && 0 <= j < sb.blocks_per_group :: Bit(view, sb, g, j)
  }

  ghost predicate FullUpTo(view: seq<Block>, sb: Superblock, group: nat, bit: nat) {
    && FullBefore(view, sb, group) && group < sb.block_group_nr && bit <= sb.blocks_per_group
    && forall j | 0 <= j < bit :: Bit(view, sb, group, j)
  }

  // Among the first n bits of a bitmap block, bit is the first clear one, or
  // n if there is none.
  ghost predicate FirstZero(bitmap: Block, bit: nat, n: nat)
    requires bit <= n <= 8 * BLOCK_SIZE
  {
    && (forall j | 0 <= j < bit :: TestBit(bitmap[j / 8], j % 8))
    && (bit < n ==> !TestBit(bitmap[bit / 8], bit % 8))
  }

  ghost predicate FirstClear(view: seq<Block>, sb: Superblock, group: nat, bit: nat) {
    FullUpTo(view, sb, group, bit) && bit < sb.blocks_per_group && !Bit(view, sb, group, bit)
  }

  // One group scanned.
  lemma Scanned(view: seq<Block>, sb: Superblock, group: nat, bit: nat)
    requires FullBefore(view, sb, group) && group < sb.block_group_nr && bit <= sb.blocks_per_group
    requires var bitmap := view[sb.first_data_block + 1 + group];
             FirstZero(bitmap, bit, sb.blocks_per_group)
    ensures if bit < sb.blocks_per_group then FirstClear(view, sb, group, bit) else FullBefore(view, sb, group + 1)
  {
  }

  // A positive counter means that some bit is clear.
  lemma SomethingFree(view: seq<Block>, sb: Superblock)
    requires Counted(view, sb)
    ensures sb.free_blocks > 0 ==> !FullBefore(view, sb, sb.block_group_nr)
  {
    if sb.free_blocks > 0 {
      var b :| b in FreeBlocks(view, sb);
      assert !Bit(view, sb, GroupOf(sb, b), BitOf(sb, b));
    }
  }

  // Nothing before the first clear bit is free.
  lemma LowestFree(view: seq<Block>, sb: Superblock, group: nat, bit: nat, b: nat)
    requires FirstClear(view, sb, group, bit) && b in FreeBlocks(view, sb)
    ensures group * sb.blocks_per_group + bit <= b
  {
    var n := sb.blocks_per_group;
    var q, r := GroupOf(sb, b), BitOf(sb, b);
    SplitBlock(sb, b);
    assert !Bit(view, sb, q, r);
    if q > group {
      AtLeast(q, group + 1, n);
      assert (group + 1) * n == group * n + n;
    }
  }

  lemma Took(view: seq<Block>, sb: Superblock, group: nat, bit: nat, view': seq<Block>, sb': Superblock)
    requires Counted(view, sb) && FirstClear(view, sb, group, bit)
    requires sb.free_blocks > 0 && sb' == sb.(free_blocks := sb.free_blocks - 1)
    requires view' == view[sb.first_data_block + 1 + group := WithBit(view[sb.first_data_block + 1 + group], bit, true)][0 := SbImage(sb')]
    ensures Allocated(view, sb, group * sb.blocks_per_group + bit, view', sb')
    ensures group * sb.blocks_per_group + bit != 0
  {
    var r := group * sb.blocks_per_group + bit;
    JoinBlock(sb, group, bit);
    SameBlock(sb, r, group, bit);
    assert !Used(view, sb, r);
    assert Flipped(view, sb, group, bit, true, view');
    FlippedBlocks(view, sb, group, bit, true, view');
    forall b | b in FreeBlocks(view, sb)
      ensures r <= b
    {
      LowestFree(view, sb, group, bit, b);
    }
    SbFreeOnly(view', sb, sb');
    assert 0 !in FreeBlocks(view', sb);
  }

  // The bitmap does not depend on the counter.
  lemma SbFreeOnly(view: seq<Block>, sb: Superblock, sb': Superblock)
    requires Layout(sb, |view|) && sb' == sb.(free_blocks := sb'.free_blocks)
    ensures Layout(sb', |view|) && FreeBlocks(view, sb') == FreeBlocks(view, sb)
    ensures Used(view, sb', 0) <==> 0 !in FreeBlocks(view, sb)
  {
    assert forall b | 0 <= b < Total(sb) :: GroupOf(sb', b) == GroupOf(sb, b) && BitOf(sb', b) == BitOf(sb, b);
    JoinBlock(sb, 0, 0);
  }

  ghost function UpTo(n: nat): (s: set<nat>)
    ensures forall b | 0 <= b < n :: b in s
  {
    if n == 0 then {} else UpTo(n - 1) + {n - 1}
  }

  lemma {:induction false} UpToSize(n: nat)
    ensures |UpTo(n)| <= n
  {
    if n > 0 {
      UpToSize(n - 1);
    }
  }

  lemma {:induction false} SubsetSize(a: set<nat>, b: set<nat>)
    requires a <= b
    ensures |a| <= |b|
  {
    if a != {} {
      var x :| x in a;
      SubsetSize(a - {x}, b - {x});
    }
  }

  lemma FreeAtMost(view: seq<Block>, sb: Superblock)
    requires Layout(sb, |view|)
    ensures |FreeBlocks(view, sb)| <= Total(sb)
  {
    UpToSize(Total(sb));
    SubsetSize(FreeBlocks(view, sb), UpTo(Total(sb)));
  }

  ghost predicate BitmapsKept(view: seq<Block>, sb: Superblock, view': seq<Block>) {
    |view'| == |view| && forall b | 0 < b < |view| && IsBitmap(sb, b) :: view'[b] == view[b]
  }

  lemma SameUsed(view: seq<Block>, sb: Superblock, view': seq<Block>, b: nat)
    requires Layout(sb, |view|) && BitmapsKept(view, sb, view') && b < Total(sb)
    ensures Used(view', sb, b) <==> Used(view, sb, b)
  {
    assert IsBitmap(sb, sb.first_data_block + 1 + GroupOf(sb, b));
    hide GroupOf, BitOf;
  }

  // The bitmaps decide what is free.
  lemma SameBitmaps(view: seq<Block>, sb: Superblock, view': seq<Block>)
    requires Counted(view, sb) && BitmapsKept(view, sb, view')
    ensures Counted(view', sb) && FreeBlocks(view', sb) == FreeBlocks(view, sb)
  {
    var f, f' := FreeBlocks(view, sb), FreeBlocks(view', sb);
    forall b: nat
      ensures b in f' <==> b in f
    {
      if b < Total(sb) {
        SameUsed(view, sb, view', b);
      }
    }
    assert f' == f by {
      hide Used, Total;
    }
    JoinBlock(sb, 0, 0);
    SameUsed(view, sb, view', 0);
  }

  // view' is view after free_block(b).  A number past the last group clears a
  // bit of the block where its bitmap would be.  The counter stays right and
  // block 0 reserved exactly when b is a block of some group, was in use and
  // is not block 0.
  ghost predicate Freed(view: seq<Block>, sb: Superblock, b: nat, view': seq<Block>, sb': Superblock) {
    && Counted(view, sb) && Layout(sb', |view'|) && sb' == sb.(free_blocks := sb'.free_blocks)
    && sb'.free_blocks == sb.free_blocks + 1
    && (if b < Total(sb) then FreeBlocks(view', sb') == FreeBlocks(view, sb) + {b} && SameData(sb, view, view')
        else FreeBlocks(view', sb') == FreeBlocks(view, sb) && BitmapsKept(view, sb, view'))
    && (Counted(view', sb') <==> b < Total(sb) && b !in FreeBlocks(view, sb) && b != 0)
  }

  // Where free_block looks for the bit of b, and what it leaves there.
  function BitmapOf(sb: Superblock, b: nat): nat
    requires 0 < sb.blocks_per_group
  {
    sb.first_data_block + 1 + b / sb.blocks_per_group
  }

  ghost predicate BitCleared(view: seq<Block>, sb: Superblock, b: nat, view': seq<Block>, sb': Superblock) {
    && 0 < sb.blocks_per_group <= 8 * BLOCK_SIZE && BitmapOf(sb, b) < |view|
    && sb.free_blocks + 1 < W32 && sb' == sb.(free_blocks := sb.free_blocks + 1)
    && view' == view[BitmapOf(sb, b) := WithBit(view[BitmapOf(sb, b)], b % sb.blocks_per_group, false)][0 := SbImage(sb')]
  }

  // A number past the last group: no block becomes free, and the counter is
  // one too high.
  lemma GaveNothing(view: seq<Block>, sb: Superblock, b: nat, view': seq<Block>, sb': Superblock)
    requires Counted(view, sb) && b >= Total(sb) && BitCleared(view, sb, b, view', sb')
    ensures Freed(view, sb, b, view', sb')
  {
    PastGroups(sb, b);
    assert BitmapsKept(view, sb, view');
    SameBitmaps(view, sb, view');
    SbFreeOnly(view', sb, sb');
  }

  lemma PastGroups(sb: Superblock, b: nat)
    requires 0 < sb.blocks_per_group && b >= Total(sb)
    ensures b / sb.blocks_per_group >= sb.block_group_nr
  {
    var q := b / sb.blocks_per_group;
    assert b == q * sb.blocks_per_group + b % sb.blocks_per_group;
    if q < sb.block_group_nr {
      AtLeast(sb.block_group_nr, q + 1, sb.blocks_per_group);
    }
  }

  lemma GaveBack(view: seq<Block>, sb: Superblock, b: nat, view': seq<Block>, sb': Superblock)
    requires Counted(view, sb) && BitCleared(view, sb, b, view', sb')
    ensures Freed(view, sb, b, view', sb')
  {
    if b >= Total(sb) {
      GaveNothing(view, sb, b, view', sb');
    } else {
      var group, bit := GroupOf(sb, b), BitOf(sb, b);
      SameBlock(sb, b, group, bit);
      FlippedBlocks(view, sb, group, bit, false, view');
      SbFreeOnly(view', sb, sb');
    }
  }

  // ---------- the mounted file system ----------

  lemma FullNone(view: seq<Block>, sb: Superblock)
    requires Counted(view, sb)
    ensures Layout(sb, |view|) && FullBefore(view, sb, 0)
  {
  }

  class Mount {
    const cache: Cache
    var sb: Superblock

    ghost predicate Valid()
      reads this, cache, cache.Repr
    {
      cache.Valid() && this !in cache.Repr && Counted(cache.view, sb)
    }

    constructor (cache: Cache, sb: Superblock)
      requires cache.Valid() && Counted(cache.view, sb)
      ensures Valid() && this.cache == cache && this.sb == sb
    {
      this.cache := cache;
      this.sb := sb;
    }

    // The inner loop of alloc_block: the first clear bit of a bitmap block.
    method ScanGroup(bitmap: Block, n: nat) returns (bit: nat)
      requires n <= 8 * BLOCK_SIZE
      ensures bit <= n && FirstZero(bitmap, bit, n)
    {
      bit := 0;
      while bit < n && TestBit(bitmap[bit / 8], bit % 8)
        invariant bit <= n
        invariant forall j | 0 <= j < bit :: TestBit(bitmap[j / 8], j % 8)
      {
        bit := bit + 1;
      }
    }

    // The tail of alloc_block and of free_block: the bitmap block, then the
    // superblock, go to the cache.
    method Commit(at: nat, bitmap: Block, free_blocks: word)
      requires cache.Valid() && this !in cache.Repr && at < |cache.view| && |cache.view| > 0
      modifies this, cache.Repr
      ensures cache.Valid() && fresh(cache.Repr - old(cache.Repr))
      ensures sb == old(sb).(free_blocks := free_blocks)
      ensures cache.view == old(cache.view)[at := bitmap][0 := SbImage(sb)]
    {
      cache.WriteBlock(at, bitmap);
      sb := sb.(free_blocks := free_blocks);
      cache.WriteBlock(0, SbImage(sb));
    }

    // The two loops of alloc_block: where the first clear bit is, if any.
    method FindClear() returns (group: nat, bit: nat, bitmap: Block)
      requires Valid()
      modifies cache.Repr
      ensures Valid() && fresh(cache.Repr - old(cache.Repr)) && cache.view == old(cache.view)
      ensures if group < sb.block_group_nr
              then FirstClear(cache.view, sb, group, bit) && bitmap == cache.view[sb.first_data_block + 1 + group]
              else FullBefore(cache.view, sb, sb.block_group_nr)
      ensures sb.free_blocks > 0 ==> group < sb.block_group_nr
    {
      hide Counted, Linked, Coherent, FirstZero, FullBefore, FirstClear;
      SomethingFree(cache.view, sb);
      ghost var view := cache.view;
      group, bit, bitmap := 0, 0, seq(BLOCK_SIZE, _ => 0);
      FullNone(view, sb);
      while group < sb.block_group_nr
        invariant Valid() && cache.view == view && fresh(cache.Repr - old(cache.Repr))
        invariant group <= sb.block_group_nr && Layout(sb, |view|) && FullBefore(view, sb, group)
        decreases sb.block_group_nr - group
      {
        bitmap := cache.ReadBlock(sb.first_data_block + 1 + group);
        bit := ScanGroup(bitmap, sb.blocks_per_group);
        Scanned(view, sb, group, bit);
        if bit < sb.blocks_per_group {
          return;
        }
        group := group + 1;
      }
    }

    // alloc_block
    method Alloc() returns (r: nat)
      requires Valid()
      modifies this, cache.Repr
      ensures Valid() && fresh(cache.Repr - old(cache.Repr))
      ensures r == 0 <==> old(sb).free_blocks == 0
      ensures r == 0 ==> cache.view == old(cache.view) && sb == old(sb)
      ensures r != 0 ==> Allocated(old(cache.view), old(sb), r, cache.view, sb)
    {
      if sb.free_blocks == 0 {
        return 0;
      }
      hide Counted, Linked, Coherent, FirstClear, FullBefore, Allocated;
      var group, bit, bitmap := FindClear();
      r := TakeBit(group, bit, bitmap);
    }

    method TakeBit(group: nat, bit: nat, bitmap: Block) returns (r: nat)
      requires Valid() && sb.free_blocks > 0 && group < sb.block_group_nr
      requires FirstClear(cache.view, sb, group, bit) && bitmap == cache.view[sb.first_data_block + 1 + group]
      modifies this, cache.Repr
      ensures Valid() && fresh(cache.Repr - old(cache.Repr))
      ensures r != 0 && Allocated(old(cache.view), old(sb), r, cache.view, sb)
    {
      ghost var view, was := cache.view, sb;
      assert sb.first_data_block + 1 + group < |view| && bit < sb.blocks_per_group <= 8 * BLOCK_SIZE;
      hide Counted, FirstClear, Allocated, Layout, Linked, Coherent, WithBit, SbImage, Total;
      Commit(sb.first_data_block + 1 + group, WithBit(bitmap, bit, true), sb.free_blocks - 1);
      Took(view, was, group, bit, cache.view, sb);
      r := group * sb.blocks_per_group + bit;
    }

    // free_block; the block where it looks for the bitmap is on the device.
    method Free(b: nat)
      requires Valid() && BitmapOf(sb, b) < |cache.view|
      modifies this, cache.Repr
      ensures cache.Valid() && fresh(cache.Repr - old(cache.Repr)) && this !in cache.Repr
      ensures Freed(old(cache.view), old(sb), b, cache.view, sb)
    {
      ghost var view, was := cache.view, sb;
      FreeAtMost(view, sb);
      assert sb.blocks_per_group != 0 && Total(sb) <= |view| <= MAX_BLOCKS;
      var group, bit := b / sb.blocks_per_group, b % sb.blocks_per_group;
      hide Counted, Linked, Coherent, FreeBlocks, Total, WithBit, SbImage, SameData;
      var bitmap := cache.ReadBlock(sb.first_data_block + 1 + group);
      Commit(sb.first_data_block + 1 + group, WithBit(bitmap, bit, false), sb.free_blocks + 1);
      GaveBack(view, was, b, cache.view, sb);
    }
  }
}
