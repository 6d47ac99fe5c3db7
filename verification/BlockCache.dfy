// The write-back block cache (src/fs_core.c:58-143): a circular doubly
// linked list of cached blocks in front of a device.  One mount, and a
// device that does not fail.
module BlockCache {
  import opened Common
  import opened Widths

  const BLOCK_SIZE := 4096
  const MAX_CACHE_BLOCKS := 1024
  // block_no * BLOCK_SIZE is computed in 32 bits.
  const MAX_BLOCKS := 0x10_0000

  type Block = s: seq<byte> | |s| == BLOCK_SIZE witness seq(BLOCK_SIZE, _ => 0)

  // Where a block lies on the device.
  function Address(block_no: nat): nat {
    block_no * BLOCK_SIZE % W32
  }

  // Blocks have addresses of their own if and only if there are at most 2^20
  // of them.
  lemma AddressesDistinct(n: nat)
    ensures (forall a, b | 0 <= a < b < n :: Address(a) != Address(b)) <==> n <= MAX_BLOCKS
  {
    if n > MAX_BLOCKS {
      assert Address(0) == Address(MAX_BLOCKS);
    }
  }

  class CacheBlock {
    const block_no: nat
    var data: Block
    var dirty: bool
    var next: CacheBlock?
    var prev: CacheBlock?

    constructor (block_no: nat, data: Block, dirty: bool)
      ensures this.block_no == block_no && this.data == data && this.dirty == dirty
    {
      this.block_no, this.data, this.dirty := block_no, data, dirty;
      next, prev := null, null;
    }
  }

  ghost function NextOf(ring: seq<CacheBlock>, i: nat): CacheBlock
    requires i < |ring|
  {
    if i + 1 < |ring| then ring[i + 1] else ring[0]
  }

  ghost function PrevOf(ring: seq<CacheBlock>, i: nat): CacheBlock
    requires i < |ring|
  {
    if i > 0 then ring[i - 1] else ring[|ring| - 1]
  }

  ghost predicate Unique(ring: seq<CacheBlock>) {
    forall i, j | 0 <= i < j < |ring| :: ring[i].block_no != ring[j].block_no
  }

  // The links from head run once around ring, in both directions.
  ghost predicate Linked(ring: seq<CacheBlock>, head: CacheBlock?)
    reads ring`next, ring`prev
  {
    && (forall i, j | 0 <= i < j < |ring| :: ring[i] != ring[j])
    && head == (if ring == [] then null else ring[0])
    && (forall i {:trigger ring[i].next} | 0 <= i < |ring| :: ring[i].next == NextOf(ring, i))
    && (forall i {:trigger ring[i].prev} | 0 <= i < |ring| :: ring[i].prev == PrevOf(ring, i))
  }

  ghost predicate Cached(ring: seq<CacheBlock>, b: nat) {
    exists i :: 0 <= i < |ring| && ring[i].block_no == b
  }

  // view is what a reader of each block should see.
  ghost predicate Coherent(ring: seq<CacheBlock>, device: seq<Block>, view: seq<Block>)
    reads ring`data, ring`dirty
  {
    && |view| == |device| <= MAX_BLOCKS
    && Unique(ring)
    && (forall i | 0 <= i < |ring| ::
          && ring[i].block_no < |device| && ring[i].data == view[ring[i].block_no]
          && (!ring[i].dirty ==> ring[i].data == device[ring[i].block_no]))
    && (forall b | 0 <= b < |device| && !Cached(ring, b) :: view[b] == device[b])
  }

  lemma Uncached(ring: seq<CacheBlock>, device: seq<Block>, view: seq<Block>, b: nat)
    requires Coherent(ring, device, view) && b < |view| && !Cached(ring, b)
    ensures |device| == |view| && device[b] == view[b]
  {
  }

  class Cache {
    var cache_head: CacheBlock?
    var cache_size: nat
    var device: seq<Block>
    ghost var ring: seq<CacheBlock>
    ghost var view: seq<Block>
    ghost var Repr: set<object>

    ghost predicate Valid()
      reads this, Repr
    {
      this in Repr && (forall i | 0 <= i < |ring| :: ring[i] in Repr) && Intact()
    }

    ghost predicate Intact()
      reads this, ring
    {
      Linked(ring, cache_head) && cache_size == |ring| && Coherent(ring, device, view)
    }

    // fs_init, over a given device whose blocks have 32-bit addresses
    constructor (device: seq<Block>)
      requires |device| <= MAX_BLOCKS
      ensures Valid() && ring == [] && view == device && fresh(Repr)
    {
      cache_head, cache_size, this.device, Repr := null, 0, device, {this};
      ring, view := [], device;
    }

    // cache_get_block
    method GetBlock(block_no: nat) returns (cache: CacheBlock?)
      requires Intact()
      ensures cache == null <==> !Cached(ring, block_no)
      ensures cache != null ==> cache in ring && cache.block_no == block_no
    {
      if cache_head == null {
        return null;
      }
      cache := cache_head;
      ghost var i := 0;
      while cache.block_no != block_no
        invariant 0 <= i < |ring| && cache == ring[i]
        invariant forall j | 0 <= j < i :: ring[j].block_no != block_no
        decreases |ring| - i
      {
        cache := cache.next;
        i := i + 1;
        if cache == cache_head {
          return null;
        }
      }
    }

    // The splice in front of the head, that is, at the far end of the ring.
    method Link(cache: CacheBlock)
      requires Linked(ring, cache_head) && cache !in ring
      modifies this`cache_head, this`cache_size, this`ring, cache`next, cache`prev, ring`next, ring`prev
      ensures ring == old(ring) + [cache] && Linked(ring, cache_head) && cache_size == old(cache_size) + 1
    {
      if cache_head != null {
        cache.next := cache_head;
        cache.prev := cache_head.prev;
        cache_head.prev.next := cache;
        cache_head.prev := cache;
      } else {
        cache_head := cache;
        cache.next := cache;
        cache.prev := cache;
      }
      cache_size := cache_size + 1;
      ring := ring + [cache];
    }

    // One turn of the eviction loop.  The block before the head is the one
    // added last.
    method Evict()
      requires Intact() && |ring| > 1
      modifies this`device, this`cache_size, this`ring, ring`next, ring`prev
      ensures Intact() && view == old(view) && ring == old(ring)[..|old(ring)| - 1]
    {
      LastOf(ring, cache_head, device, view);
      hide Coherent, Linked;
      var oldest := cache_head.prev;
      WriteBack(oldest);
      Drop(oldest);
    }

    // The device keeps what the last block of the ring holds.
    method WriteBack(oldest: CacheBlock)
      requires ring != [] && oldest == ring[|ring| - 1] && Coherent(ring, device, view)
      modifies this`device
      ensures Coherent(ring[..|ring| - 1], device, view)
    {
      ghost var was := device;
      if oldest.dirty {
        device := device[oldest.block_no := oldest.data];
      }
      Evicted(ring, was, device, view);
    }

    // Unlinking it then loses nothing.
    method Drop(oldest: CacheBlock)
      requires Linked(ring, cache_head) && cache_size == |ring| > 1 && oldest == ring[|ring| - 1]
      requires Coherent(ring[..|ring| - 1], device, view)
      modifies this`cache_size, this`ring, ring`next, ring`prev
      ensures ring == old(ring)[..|old(ring)| - 1] && Intact()
    {
      ghost var rest := ring[..|ring| - 1];
      Unlink(oldest);
    }

    method Unlink(oldest: CacheBlock)
      requires Linked(ring, cache_head) && cache_size == |ring| > 1 && oldest == ring[|ring| - 1]
      modifies this`cache_size, this`ring, ring`next, ring`prev
      ensures ring == old(ring)[..|old(ring)| - 1] && Linked(ring, cache_head) && cache_size == |ring|
    {
      oldest.prev.next := oldest.next;
      oldest.next.prev := oldest.prev;
      cache_size := cache_size - 1;
      ring := ring[..|ring| - 1];
    }

    // read_block
    method ReadBlock(block_no: nat) returns (buffer: Block)
      requires Valid() && block_no < |view|
      modifies Repr
      ensures Valid() && fresh(Repr - old(Repr)) && view == old(view) && buffer == view[block_no]
      ensures |ring| <= MAX_CACHE_BLOCKS || ring == old(ring)
      // a hit leaves the ring as it is; a miss on a full cache throws out
      // what was added last, starting with the block just read
      ensures if Cached(old(ring), block_no) then ring == old(ring)
              else if |old(ring)| >= MAX_CACHE_BLOCKS then ring == old(ring)[..MAX_CACHE_BLOCKS]
              else |ring| == |old(ring)| + 1 && old(ring) <= ring && ring[|old(ring)|].block_no == block_no
    {
      var cache := GetBlock(block_no);
      if cache != null {
        return cache.data;
      }
      buffer := Miss(block_no);
    }

    // The rest of read_block, for a block that is not cached.
    method Miss(block_no: nat) returns (buffer: Block)
      requires Valid() && block_no < |view| && !Cached(ring, block_no)
      modifies Repr
      ensures Valid() && fresh(Repr - old(Repr)) && view == old(view) && buffer == view[block_no]
      ensures if |old(ring)| >= MAX_CACHE_BLOCKS then ring == old(ring)[..MAX_CACHE_BLOCKS]
              else |ring| == |old(ring)| + 1 && old(ring) <= ring && ring[|old(ring)|].block_no == block_no
    {
      hide Linked, Coherent, Cached;
      Uncached(ring, device, view, block_no);
      buffer := device[block_no];
      var cache := new CacheBlock(block_no, buffer, false);
      Insert(cache);
      Repr := Repr + {cache};
      Shrink();
    }

    // write_block
    method WriteBlock(block_no: nat, buffer: Block)
      requires Valid() && block_no < |view|
      modifies Repr
      ensures Valid() && fresh(Repr - old(Repr)) && view == old(view)[block_no := buffer] && device == old(device)
      ensures |ring| == |old(ring)| + if Cached(old(ring), block_no) then 0 else 1
    {
      var cache := GetBlock(block_no);
      if cache != null {
        Overwrite(cache, buffer);
        return;
      }
      cache := new CacheBlock(block_no, buffer, true);
      Insert(cache);
      Repr := Repr + {cache};
    }

    method Overwrite(cache: CacheBlock, buffer: Block)
      requires Intact() && cache in ring
      modifies this`view, cache`data, cache`dirty
      ensures Intact() && view == old(view)[cache.block_no := buffer]
    {
      hide Linked;
      ghost var k :| 0 <= k < |ring| && ring[k] == cache;
      cache.data := buffer;
      cache.dirty := true;
      view := view[cache.block_no := buffer];
    }

    // A new cached block, clean or not, becomes part of the ring.
    method Insert(cache: CacheBlock)
      requires Intact() && cache !in ring && cache.block_no < |device| && !Cached(ring, cache.block_no)
      requires !cache.dirty ==> cache.data == device[cache.block_no]
      modifies this`cache_head, this`cache_size, this`ring, this`view, cache`next, cache`prev, ring`next, ring`prev
      ensures Intact() && ring == old(ring) + [cache] && view == old(view)[cache.block_no := cache.data]
    {
      hide Linked;
      Added(ring, cache, device, view);
      view := view[cache.block_no := cache.data];
      Link(cache);
    }

    method Shrink()
      requires Intact()
      modifies this`device, this`cache_size, this`ring, ring`next, ring`prev
      ensures Intact() && view == old(view)
      ensures ring == if |old(ring)| > MAX_CACHE_BLOCKS then old(ring)[..MAX_CACHE_BLOCKS] else old(ring)
    {
      hide Linked, Coherent;
      while cache_size > MAX_CACHE_BLOCKS
        invariant Intact() && view == old(view)
        invariant |ring| <= |old(ring)| && ring == old(ring)[..|ring|]
        invariant |ring| >= MAX_CACHE_BLOCKS || ring == old(ring)
        decreases cache_size
      {
        Evict();
      }
    }
  }

  lemma LastOf(ring: seq<CacheBlock>, head: CacheBlock?, device: seq<Block>, view: seq<Block>)
    requires ring != [] && Linked(ring, head) && Coherent(ring, device, view)
    ensures head != null && head.prev == ring[|ring| - 1] && head.prev.block_no < |device|
  {
    assert ring[0].prev == PrevOf(ring, 0);
  }

  lemma CachedAppend(ring: seq<CacheBlock>, cache: CacheBlock, b: nat)
    ensures Cached(ring + [cache], b) <==> Cached(ring, b) || cache.block_no == b
  {
    var all := ring + [cache];
    assert all[|ring|] == cache;
    assert forall i | 0 <= i < |ring| :: all[i] == ring[i];
  }

  // Writing the last block of the ring back and forgetting it changes no
  // view.
  lemma Evicted(ring: seq<CacheBlock>, was: seq<Block>, device: seq<Block>, view: seq<Block>)
    requires ring != [] && Coherent(ring, was, view)
    requires var o := ring[|ring| - 1]; device == if o.dirty then was[o.block_no := o.data] else was
    ensures Coherent(ring[..|ring| - 1], device, view)
  {
    var rest, o := ring[..|ring| - 1], ring[|ring| - 1];
    assert ring == rest + [o];
    forall b | 0 <= b < |device| && !Cached(rest, b)
      ensures view[b] == device[b]
    {
      CachedAppend(rest, o, b);
    }
  }

  // A cached copy of what a reader of its block sees is coherent.
  lemma Added(ring: seq<CacheBlock>, cache: CacheBlock, device: seq<Block>, view: seq<Block>)
    requires Coherent(ring, device, view) && cache.block_no < |device| && !Cached(ring, cache.block_no)
    requires !cache.dirty ==> cache.data == device[cache.block_no]
    ensures Coherent(ring + [cache], device, view[cache.block_no := cache.data])
  {
    forall b | 0 <= b < |device|
      ensures Cached(ring + [cache], b) <==> Cached(ring, b) || cache.block_no == b
    {
      CachedAppend(ring, cache, b);
    }
    assert forall i | 0 <= i < |ring| :: ring[i].block_no != cache.block_no;
  }
}
