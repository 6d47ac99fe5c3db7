// Clock page replacement (src/mm_pra.c) and the frame table it works on.
module Clock {
  import opened Ring
  import opened Widths

  datatype Frame = Frame(vaddr: nat, accessed: bool, dirty: bool, reference: nat)

  const EMPTY := Frame(0, false, false, 0)

  // ---------- the search ----------

  // Places from the hand to the first unaccessed frame, |s| if all were accessed.
  ghost function Gap(s: seq<Frame>, hand: nat, from: nat := 0): (k: nat)
    requires hand < |s| && from <= |s|
    ensures from <= k <= |s|
    ensures k < |s| ==> !s[Slot(hand, k, |s|)].accessed
    ensures forall i | from <= i < k :: s[Slot(hand, i, |s|)].accessed
    decreases |s| - from
  {
    if from == |s| || !s[Slot(hand, from, |s|)].accessed then from else Gap(s, hand, from + 1)
  }

  // The frames the hand passed lose their access bit.
  ghost predicate Swept(s: seq<Frame>, t: seq<Frame>, hand: nat, k: nat)
    requires hand < |s| && k <= |s|
  {
    |t| == |s| && forall i | 0 <= i < |s| :: t[Slot(hand, i, |s|)] == s[Slot(hand, i, |s|)].(accessed := i >= k && s[Slot(hand, i, |s|)].accessed)
  }

  lemma SweptAt(s: seq<Frame>, t: seq<Frame>, hand: nat, k: nat)
    requires hand < |s| && k <= |s| && Swept(s, t, hand, k)
    ensures forall i | 0 <= i < |s| :: t[i].vaddr == s[i].vaddr && t[i].dirty == s[i].dirty
  {
    forall j | 0 <= j < |s|
      ensures t[j].vaddr == s[j].vaddr && t[j].dirty == s[j].dirty
    {
      var i := SlotReaches(hand, j, |s|);
    }
  }

  // ---------- the table ----------

  // No page is in two frames; page 0 marks a free frame.
  ghost predicate DistinctPages(s: seq<Frame>) {
    forall i, j | 0 <= i < j < |s| && s[i].vaddr != 0 :: s[i].vaddr != s[j].vaddr
  }

  ghost function Pages(s: seq<Frame>): set<nat> {
    set f | f in s && f.vaddr != 0 :: f.vaddr
  }

  // The first frame holding this page, |s| if there is none.
  ghost function Holder(s: seq<Frame>, page: nat): (k: nat)
    ensures k <= |s| && (k < |s| ==> s[k].vaddr == page) && forall i | 0 <= i < k :: s[i].vaddr != page
  {
    if s == [] || s[0].vaddr == page then 0 else 1 + Holder(s[1..], page)
  }

  lemma HolderIs(s: seq<Frame>, page: nat, k: nat)
    requires k <= |s| && (k < |s| ==> s[k].vaddr == page) && forall i | 0 <= i < k :: s[i].vaddr != page
    ensures Holder(s, page) == k
  {
  }

  lemma PagesReplaced(s: seq<Frame>, v: nat, f: Frame)
    requires v < |s| && DistinctPages(s) && f.vaddr !in Pages(s)
    ensures DistinctPages(s[v := f])
    ensures Pages(s[v := f]) == Pages(s) - {s[v].vaddr} + (if f.vaddr == 0 then {} else {f.vaddr})
  {
    var t := s[v := f];
    forall i | 0 <= i < |s| && s[i].vaddr != 0
      ensures s[i].vaddr in Pages(s) && (i != v ==> t[i].vaddr in Pages(t) && s[i].vaddr != s[v].vaddr)
    {
      assert s[i] in s;
      assert i != v ==> t[i] in t;
    }
    assert t[v] in t;
  }

  lemma SamePages(s: seq<Frame>, t: seq<Frame>)
    requires |s| == |t| && forall i | 0 <= i < |s| :: t[i].vaddr == s[i].vaddr
    ensures Pages(s) == Pages(t) && (DistinctPages(s) ==> DistinctPages(t))
  {
    forall i | 0 <= i < |s| && s[i].vaddr != 0
      ensures s[i].vaddr in Pages(s) && t[i].vaddr in Pages(t)
    {
      assert s[i] in s && t[i] in t;
    }
  }

  class FrameTable {
    const frames: array<Frame>
    var clockHand: nat

    ghost predicate Valid()
      reads this
    {
      clockHand < frames.Length
    }

    // clock_select: it stops within frame_count + 1 probes, at the first
    // unaccessed frame in circular order, or back at the hand if there was
    // none; it clears the frames it passed and no other, and leaves the hand
    // behind the victim.
    method ClockSelect() returns (victim: nat, ghost probes: nat)
      requires Valid()
      modifies `clockHand, frames
      ensures Valid() && probes <= frames.Length + 1
      ensures var s, h, n := old(frames[..]), old(clockHand), frames.Length; var k := Gap(s, h);
        probes == k + 1 && victim == Slot(h, k, n) && clockHand == Slot(victim, 1, n) && Swept(s, frames[..], h, k)
    {
      ghost var s, h, n := frames[..], clockHand, frames.Length;
      ghost var k: nat := 0;
      while true
        invariant Valid() && k <= n && clockHand == Slot(h, k, n)
        invariant forall i | 0 <= i < k :: s[Slot(h, i, n)].accessed
        invariant Swept(s, frames[..], h, k)
        decreases n - k
      {
        var frame := clockHand;
        ModIsSlot(clockHand, 1, n);
        clockHand := (clockHand + 1) % frames.Length;
        if frames[frame].accessed {
          frames[frame] := frames[frame].(accessed := false);
          k := k + 1;
        } else {
          return frame, k + 1;
        }
      }
    }

    // The search loops of pra_alloc_page, pra_free_page and pra_access_page.
    method FindPage(page: nat) returns (k: nat)
      ensures k == Holder(frames[..], page)
    {
      k := 0;
      while k < frames.Length
        invariant k <= frames.Length && forall i | 0 <= i < k :: frames[i].vaddr != page
      {
        if frames[k].vaddr == page {
          break;
        }
        k := k + 1;
      }
      HolderIs(frames[..], page, k);
    }

    // pra_alloc_page under the clock policy; `page` is what the page
    // allocator will hand out, 0 if it fails, and `unmapped` the page the
    // MMU lost.  Frames t are those the choice of a frame leaves; a success
    // changes frame v of them and nothing else.  After a failure no frame
    // has changed its page, so a page unmapped on the way is still on record.
    method AllocPage(page: nat, swapOk: bool) returns (r: nat, unmapped: nat, ghost v: nat, ghost t: seq<Frame>)
      requires Valid() && DistinctPages(frames[..]) && page !in Pages(frames[..])
      modifies `clockHand, frames
      ensures Valid() && DistinctPages(frames[..])
      ensures var s, h, n := old(frames[..]), old(clockHand), frames.Length;
        if Holder(s, 0) < n then v == Holder(s, 0) && t == s && clockHand == h && unmapped == 0
        else v == Slot(h, Gap(s, h), n) && Swept(s, t, h, Gap(s, h)) && clockHand == Slot(v, 1, n)
      ensures v < |t| && frames[..] == if r == 0 then t else t[v := Frame(r, true, false, 0)]
      ensures r == if page == 0 || (Holder(old(frames[..]), 0) == |t| && t[v].dirty && !swapOk) then 0 else page
      ensures unmapped == if t[v].dirty && !swapOk then 0 else t[v].vaddr
      ensures Pages(frames[..]) == if r == 0 then old(Pages(frames[..])) else old(Pages(frames[..])) - {unmapped} + {r}
      ensures unmapped != 0 ==> (unmapped in Pages(frames[..]) <==> page == 0)
    {
      ghost var s := frames[..];
      unmapped, t := 0, s;
      var frame := FindPage(0);
      v := frame;
      if frame == frames.Length {
        ghost var probes;
        ghost var h := clockHand;
        frame, probes := ClockSelect();
        v, t := frame, frames[..];
        SweptAt(s, t, h, Gap(s, h));
        SamePages(s, t);
        if frames[frame].dirty && !swapOk {
          return 0, 0, v, t;
        }
        unmapped := frames[frame].vaddr;
        assert s[frame].vaddr != 0 && t[frame] in t;
      }
      if page == 0 {
        return 0, unmapped, v, t;
      }
      PagesReplaced(t, frame, Frame(page, true, false, 0));
      frames[frame] := Frame(page, true, false, 0);
      assert frames[..] == t[frame := Frame(page, true, false, 0)];
      assert frames[..][frame] in frames[..];
      r := page;
    }

    // pra_free_page: the page leaves the table and nothing else does.
    method FreePage(addr: nat)
      requires Valid() && DistinctPages(frames[..])
      modifies frames
      ensures Valid() && DistinctPages(frames[..]) && Pages(frames[..]) == old(Pages(frames[..])) - {addr}
      ensures var s := old(frames[..]); var k := Holder(s, addr); frames[..] == if k < |s| then s[k := EMPTY] else s
    {
      ghost var s := frames[..];
      var k := FindPage(addr);
      if k < frames.Length {
        PagesReplaced(s, k, EMPTY);
        frames[k] := EMPTY;
        assert frames[..] == s[k := EMPTY];
      } else {
        assert addr !in Pages(s);
      }
    }

    // pra_access_page under the clock policy: the page's frame, and no other,
    // is marked accessed and counts once more.
    method AccessPage(addr: nat)
      requires Valid() && DistinctPages(frames[..])
      modifies frames
      ensures Valid() && DistinctPages(frames[..]) && Pages(frames[..]) == old(Pages(frames[..]))
      ensures var s := old(frames[..]); var k := Holder(s, addr);
        frames[..] == if k < |s| then s[k := s[k].(accessed := true, reference := (s[k].reference + 1) % W32)] else s
    {
      ghost var s := frames[..];
      var k := FindPage(addr);
      if k < frames.Length {
        frames[k] := frames[k].(accessed := true, reference := (frames[k].reference + 1) % W32);
        SamePages(s, frames[..]);
      }
    }
  }

  // Second chance: an accessed frame is not the victim as long as any frame
  // is not accessed.
  lemma SecondChance(s: seq<Frame>, hand: nat, k: nat, j: nat)
    requires hand < |s| && k < |s| && j < |s| && s[k].accessed && !s[j].accessed
    ensures Slot(hand, Gap(s, hand), |s|) != k
  {
    var i := SlotReaches(hand, j, |s|);
    assert Gap(s, hand) <= i;
  }
}
