// The skip-list index (src/index.c).  Ghost field `all` is the header
// followed by the nodes in key order; the level of a new node is arbitrary.
module SkipList {

  const MAX_LEVEL := 32

  type Key = seq<nat>

  datatype Value = Value(offset: int, len: nat)

  datatype Found = Missing | Present(value: Value)

  datatype Status = OK | ERR_IO

  class Node {
    const key: Key
    const level: nat
    var value: Value
    var forward: seq<Node?>

    constructor (level: nat, key: Key, value: Value)
      ensures this.key == key && this.level == level && this.value == value
      ensures forward == seq(MAX_LEVEL, i => null)
    {
      this.key, this.level, this.value := key, level, value;
      forward := seq(MAX_LEVEL, i => null);
    }
  }

  // ---------- comparators ----------

  type Compare = (Key, Key) -> int

  // The sign of cmp is a total preorder.
  ghost predicate TotalOrder(cmp: Compare) {
    && (forall a, b :: cmp(a, b) < 0 <==> cmp(b, a) > 0)
    && (forall a, b, c :: cmp(a, b) <= 0 && cmp(b, c) <= 0 ==> cmp(a, c) <= 0 && (cmp(a, b) < 0 || cmp(b, c) < 0 ==> cmp(a, c) < 0))
  }

  lemma Trans(cmp: Compare, a: Key, b: Key, c: Key)
    requires TotalOrder(cmp)
    ensures cmp(a, b) < 0 <==> cmp(b, a) > 0
    ensures cmp(a, b) <= 0 && cmp(b, c) <= 0 ==> cmp(a, c) <= 0 && (cmp(a, b) < 0 || cmp(b, c) < 0 ==> cmp(a, c) < 0)
  {
  }

  // ---------- chains ----------

  // The next node after p that is on chain i, or |all|.
  ghost function Next(all: seq<Node>, p: nat, i: nat): (q: nat)
    requires p < |all|
    ensures p < q <= |all|
    ensures q < |all| ==> all[q].level > i
    ensures forall r | p < r < q :: all[r].level <= i
    decreases |all| - p
  {
    if p + 1 == |all| || all[p + 1].level > i then p + 1 else Next(all, p + 1, i)
  }

  // It is the only such index.
  lemma NextIs(all: seq<Node>, p: nat, i: nat, q: nat)
    requires p < |all| && p < q <= |all| && (q < |all| ==> all[q].level > i) && (forall r | p < r < q :: all[r].level <= i)
    ensures Next(all, p, i) == q
  {
    var n := Next(all, p, i);
    assert q < |all| ==> !(p < q < n);
    assert n < |all| ==> !(p < n < q);
  }

  ghost function NodeAt(all: seq<Node>, q: nat): (n: Node?)
  {
    if q < |all| then all[q] else null
  }

  // Chain i links, from the header, exactly the nodes with level > i in order.
  ghost predicate Chain(all: seq<Node>, i: nat)
    reads all`forward
  {
    forall p {:trigger all[p].forward} | 0 <= p < |all| && i < all[p].level :: |all[p].forward| == MAX_LEVEL && i < MAX_LEVEL && all[p].forward[i] == NodeAt(all, Next(all, p, i))
  }

  ghost predicate Sorted(all: seq<Node>, cmp: Compare) {
    forall p, q | 1 <= p < q < |all| :: cmp(all[p].key, all[q].key) < 0
  }

  // Where k is or belongs: the first index whose key is not below k.
  ghost function Rank(all: seq<Node>, cmp: Compare, k: Key, from: nat := 1): (p: nat)
    requires 1 <= from <= |all|
    ensures from <= p <= |all|
    ensures p < |all| ==> cmp(all[p].key, k) >= 0
    ensures forall q | from <= q < p :: cmp(all[q].key, k) < 0
    decreases |all| - from
  {
    if from == |all| || cmp(all[from].key, k) >= 0 then from else Rank(all, cmp, k, from + 1)
  }

  lemma RankIs(all: seq<Node>, cmp: Compare, k: Key, p: nat)
    requires 1 <= p <= |all| && (p < |all| ==> cmp(all[p].key, k) >= 0)
    requires forall q | 1 <= q < p :: cmp(all[q].key, k) < 0
    ensures Rank(all, cmp, k) == p
  {
    var r := Rank(all, cmp, k);
    assert p < |all| ==> !(p < r);
    assert r < |all| ==> !(r < p);
  }

  // From the rank on, no key is below k.
  lemma RankSplits(all: seq<Node>, cmp: Compare, k: Key, q: nat)
    requires 1 <= |all| && TotalOrder(cmp) && Sorted(all, cmp) && Rank(all, cmp, k) <= q < |all|
    ensures cmp(all[q].key, k) >= 0 && (q > Rank(all, cmp, k) ==> cmp(all[q].key, k) > 0)
  {
    var p := Rank(all, cmp, k);
    if q > p {
      assert cmp(all[p].key, all[q].key) < 0;
      hide Sorted;
      Trans(cmp, all[p].key, k, k);
      Trans(cmp, k, all[p].key, all[q].key);
      Trans(cmp, all[q].key, k, k);
      hide TotalOrder;
    }
  }

  // Keys below a key below k are below k.
  lemma BelowAll(all: seq<Node>, cmp: Compare, k: Key, p: nat)
    requires TotalOrder(cmp) && Sorted(all, cmp) && p < |all| && (p > 0 ==> cmp(all[p].key, k) < 0)
    ensures forall q | 1 <= q <= p :: cmp(all[q].key, k) < 0
  {
    forall q | 1 <= q <= p
      ensures cmp(all[q].key, k) < 0
    {
      if q < p {
        assert cmp(all[q].key, all[p].key) < 0;
        hide Sorted;
        Trans(cmp, all[q].key, all[p].key, k);
      }
    }
  }

  lemma BelowRank(all: seq<Node>, cmp: Compare, k: Key, p: nat)
    requires TotalOrder(cmp) && Sorted(all, cmp) && p < |all| && (p > 0 ==> cmp(all[p].key, k) < 0)
    ensures p < Rank(all, cmp, k)
  {
    BelowAll(all, cmp, k, p);
  }

  lemma AboveRank(all: seq<Node>, cmp: Compare, k: Key, q: nat)
    requires 1 <= q <= |all| && (q < |all| ==> cmp(all[q].key, k) >= 0)
    ensures Rank(all, cmp, k) <= q
  {
  }

  // On chain 0 the node after the last one below k is at the rank of k.
  lemma AtRank(all: seq<Node>, cmp: Compare, k: Key, p: nat)
    requires TotalOrder(cmp) && Sorted(all, cmp) && p < |all| && (p > 0 ==> cmp(all[p].key, k) < 0)
    requires forall q | 1 <= q < |all| :: all[q].level >= 1
    requires var q := Next(all, p, 0); q < |all| ==> cmp(all[q].key, k) >= 0
    ensures Next(all, p, 0) == p + 1 == Rank(all, cmp, k)
  {
    BelowAll(all, cmp, k, p);
    hide TotalOrder, Sorted;
    NextIs(all, p, 0, p + 1);
    RankIs(all, cmp, k, p + 1);
  }

  // What the list maps k to.
  ghost function Lookup(all: seq<Node>, cmp: Compare, k: Key): Found
    requires 1 <= |all|
    reads all`value
  {
    var p := Rank(all, cmp, k);
    if p < |all| && cmp(all[p].key, k) == 0 then Present(all[p].value) else Missing
  }

  // ---------- one more node ----------

  ghost function Inserted(all: seq<Node>, x: Node, r: nat): seq<Node>
    requires r <= |all|
  {
    all[..r] + [x] + all[r..]
  }

  lemma InsertedAt(all: seq<Node>, x: Node, r: nat)
    requires r <= |all|
    ensures |Inserted(all, x, r)| == |all| + 1 && Inserted(all, x, r)[r] == x
    ensures forall p | 0 <= p < r :: Inserted(all, x, r)[p] == all[p]
    ensures forall p | r < p <= |all| :: Inserted(all, x, r)[p] == all[p - 1]
  {
  }

  lemma MembersInserted(all: seq<Node>, x: Node, r: nat)
    requires r <= |all|
    ensures forall n | n in Inserted(all, x, r) :: n in all || n == x
  {
  }

  // Header, levels and distinctness survive the insertion.
  lemma ShapeInserted(all: seq<Node>, x: Node, r: nat, hi: nat)
    requires 1 <= r <= |all| && x !in all && 1 <= x.level <= hi
    requires forall p, q | 0 <= p < q < |all| :: all[p] != all[q]
    requires forall p | 1 <= p < |all| :: 1 <= all[p].level <= hi
    ensures |Inserted(all, x, r)| == |all| + 1 && Inserted(all, x, r)[0] == all[0]
    ensures forall p, q | 0 <= p < q <= |all| :: Inserted(all, x, r)[p] != Inserted(all, x, r)[q]
    ensures forall p | 1 <= p <= |all| :: 1 <= Inserted(all, x, r)[p].level <= hi
  {
    InsertedAt(all, x, r);
    var all' := Inserted(all, x, r);
    hide Inserted;
    forall p | 1 <= p <= |all|
      ensures 1 <= all'[p].level <= hi
    {
      assert p == r || all'[p] == all[if p < r then p else p - 1];
    }
    forall p, q | 0 <= p < q <= |all|
      ensures all'[p] != all'[q]
    {
      assert p < r ==> all'[p] == all[p];
      assert r < q ==> all'[q] == all[q - 1];
    }
  }

  // u is the last node before r on chain i.
  ghost predicate Before(all: seq<Node>, r: nat, i: nat, u: nat) {
    u < r <= |all| && all[u].level > i && Next(all, u, i) >= r
  }

  lemma RankOf(all: seq<Node>, r: nat, i: nat, u: nat)
    requires Before(all, r, i, u)
    ensures u < r <= |all|
  {
  }

  lemma BeforeUnique(all: seq<Node>, r: nat, i: nat, u: nat, p: nat)
    requires Before(all, r, i, u) && Before(all, r, i, p)
    ensures u == p
  {
    var n, m := Next(all, u, i), Next(all, p, i);
    assert !(u < p < n);
    assert !(p < u < m);
  }

  lemma BeforeHere(all: seq<Node>, cmp: Compare, k: Key, i: nat, p: nat)
    requires TotalOrder(cmp) && Sorted(all, cmp) && p < |all| && all[p].level > i && (p > 0 ==> cmp(all[p].key, k) < 0)
    requires var q := Next(all, p, i); q < |all| ==> cmp(all[q].key, k) >= 0
    ensures Before(all, Rank(all, cmp, k), i, p)
  {
    BelowRank(all, cmp, k, p);
    AboveRank(all, cmp, k, Next(all, p, i));
  }

  // Where chain i leads from an old node once x stands at r.
  lemma NextAfter(all: seq<Node>, x: Node, r: nat, i: nat, p: nat)
    requires p < |all| && 1 <= r <= |all|
    ensures var q := Next(all, p, i);
      Next(Inserted(all, x, r), if p < r then p else p + 1, i)
        == if p < r <= q && x.level > i then r else if q < r then q else q + 1
  {
    InsertedAt(all, x, r);
    var q := Next(all, p, i);
    var all' := Inserted(all, x, r);
    hide Inserted;
    var p', q' := if p < r then p else p + 1, if p < r <= q && x.level > i then r else if q < r then q else q + 1;
    forall m | p' < m < q'
      ensures all'[m].level <= i
    {
      if m < r {
        assert all'[m] == all[m];
      } else if m > r {
        assert all'[m] == all[m - 1];
      }
    }
    assert q' < |all'| ==> all'[q'].level > i;
    NextIs(all', p', i, q');
  }

  // The new node leads where the last node before it led.
  lemma NextNew(all: seq<Node>, x: Node, r: nat, i: nat, u: nat)
    requires Before(all, r, i, u)
    ensures Next(Inserted(all, x, r), r, i) == Next(all, u, i) + 1
  {
    InsertedAt(all, x, r);
    var q := Next(all, u, i);
    var all' := Inserted(all, x, r);
    hide Inserted;
    forall m | r < m < q + 1
      ensures all'[m].level <= i
    {
      assert all'[m] == all[m - 1];
    }
    assert q < |all| ==> all'[q + 1] == all[q];
    NextIs(all', r, i, q + 1);
  }

  lemma NextNodeAfter(all: seq<Node>, x: Node, r: nat, i: nat, p: nat)
    requires p < |all| && 1 <= r <= |all|
    ensures var q := Next(all, p, i); var all', p' := Inserted(all, x, r), if p < r then p else p + 1;
      p' < |all'| && all'[p'] == all[p] && NodeAt(all', Next(all', p', i)) == if p < r <= q && x.level > i then x else NodeAt(all, q)
  {
    InsertedAt(all, x, r);
    NextAfter(all, x, r, i, p);
    hide Inserted;
  }

  lemma NextNodeNew(all: seq<Node>, x: Node, r: nat, i: nat, u: nat)
    requires Before(all, r, i, u)
    ensures |Inserted(all, x, r)| == |all| + 1
    ensures NodeAt(Inserted(all, x, r), Next(Inserted(all, x, r), r, i)) == NodeAt(all, Next(all, u, i))
  {
    InsertedAt(all, x, r);
    NextNew(all, x, r, i, u);
    hide Inserted;
  }

  // A chain the new node is not on needs no change.
  lemma ChainSkips(all: seq<Node>, x: Node, r: nat, i: nat)
    requires Chain(all, i) && x.level <= i && 1 <= r <= |all|
    ensures Chain(Inserted(all, x, r), i)
  {
    var all' := Inserted(all, x, r);
    InsertedAt(all, x, r);
    forall p' | 0 <= p' < |all'| && i < all'[p'].level
      ensures |all'[p'].forward| == MAX_LEVEL && i < MAX_LEVEL && all'[p'].forward[i] == NodeAt(all', Next(all', p', i))
    {
      ChainSkipsAt(all, x, r, i, p');
    }
  }

  lemma ChainSkipsAt(all: seq<Node>, x: Node, r: nat, i: nat, p': nat)
    requires Chain(all, i) && x.level <= i && 1 <= r <= |all|
    requires |Inserted(all, x, r)| == |all| + 1 && p' <= |all| && i < Inserted(all, x, r)[p'].level
    ensures var n := Inserted(all, x, r)[p'];
      |n.forward| == MAX_LEVEL && i < MAX_LEVEL && n.forward[i] == NodeAt(Inserted(all, x, r), Next(Inserted(all, x, r), p', i))
  {
    InsertedAt(all, x, r);
    hide Inserted;
    assert p' != r;
    var p := if p' < r then p' else p' - 1;
    NextNodeAfter(all, x, r, i, p);
    hide Next, NodeAt;
  }

  // The keys stay sorted when k goes to its rank.
  lemma SortedInserted(all: seq<Node>, cmp: Compare, x: Node)
    requires TotalOrder(cmp) && Sorted(all, cmp) && 1 <= |all|
    requires var r := Rank(all, cmp, x.key); r < |all| ==> cmp(all[r].key, x.key) != 0
    ensures Sorted(Inserted(all, x, Rank(all, cmp, x.key)), cmp)
  {
    var r := Rank(all, cmp, x.key);
    var all' := Inserted(all, x, r);
    InsertedAt(all, x, r);
    hide Inserted;
    forall p, q | 1 <= p < q < |all'|
      ensures cmp(all'[p].key, all'[q].key) < 0
    {
      if p == r {
        RankSplits(all, cmp, x.key, q - 1);
        Trans(cmp, x.key, all[q - 1].key, x.key);
      } else if q != r {
        var p0, q0 := if p < r then p else p - 1, if q < r then q else q - 1;
        assert cmp(all[p0].key, all[q0].key) < 0;
      }
      hide TotalOrder, Sorted;
    }
  }

  lemma NextNodeLinked(all: seq<Node>, x: Node, r: nat, i: nat, u: nat, p: nat)
    requires Before(all, r, i, u) && x.level > i && p < |all| && all[p].level > i
    ensures var all', p' := Inserted(all, x, r), if p < r then p else p + 1;
      p' < |all'| && all'[p'] == all[p] && NodeAt(all', Next(all', p', i)) == if p == u then x else NodeAt(all, Next(all, p, i))
  {
    NextNodeAfter(all, x, r, i, p);
    if p < r && Next(all, p, i) >= r {
      BeforeUnique(all, r, i, u, p);
    }
  }

  // What one round of linking chain i leaves, fs being the old links.
  ghost predicate Relinked(all: seq<Node>, fs: map<Node, seq<Node?>>, x: Node, i: nat, u: nat)
    reads all, x
  {
    && u < |all| && i < MAX_LEVEL && x.level > i
    && (forall p {:trigger all[p].forward} | 0 <= p < |all| && all[p].level > i :: all[p] in fs && |fs[all[p]]| == MAX_LEVEL
         && fs[all[p]][i] == NodeAt(all, Next(all, p, i)) && all[p].forward == if p == u then fs[all[p]][i := x] else fs[all[p]])
    && |x.forward| == MAX_LEVEL && x.forward[i] == NodeAt(all, Next(all, u, i))
  }

  lemma ChainLinkedAt(all: seq<Node>, fs: map<Node, seq<Node?>>, x: Node, r: nat, i: nat, u: nat, p': nat)
    requires Before(all, r, i, u) && Relinked(all, fs, x, i, u) && p' <= |all|
    ensures |Inserted(all, x, r)| == |all| + 1
    ensures var all' := Inserted(all, x, r); var n := all'[p'];
      i < n.level ==> |n.forward| == MAX_LEVEL && n.forward[i] == NodeAt(all', Next(all', p', i))
  {
    hide Inserted, Before, NodeAt, Next;
    RankOf(all, r, i, u);
    InsertedAt(all, x, r);
    if p' == r {
      NextNodeNew(all, x, r, i, u);
    } else {
      var p := if p' < r then p' else p' - 1;
      if all[p].level > i {
        NextNodeLinked(all, x, r, i, u, p);
        assert |all[p].forward| == MAX_LEVEL;
      }
    }
  }

  // Chain i of the longer list, from what one round of linking writes.
  lemma ChainLinked(all: seq<Node>, fs: map<Node, seq<Node?>>, x: Node, r: nat, i: nat, u: nat)
    requires Before(all, r, i, u) && Relinked(all, fs, x, i, u)
    ensures Chain(Inserted(all, x, r), i)
  {
    InsertedAt(all, x, r);
    var all' := Inserted(all, x, r);
    hide Inserted, Before, NodeAt;
    forall p' | 0 <= p' < |all'| && i < all'[p'].level
      ensures |all'[p'].forward| == MAX_LEVEL && all'[p'].forward[i] == NodeAt(all', Next(all', p', i))
    {
      ChainLinkedAt(all, fs, x, r, i, u, p');
    }
    hide Relinked;
    assert i < MAX_LEVEL;
  }

  method Relink(node: Node, prev: Node, i: nat, ghost all: seq<Node>, ghost u: nat, ghost longer: seq<Node>)
    requires i < MAX_LEVEL && Chain(all, i) && u < |all| && prev == all[u] && prev.level > i
    requires forall p, q | 0 <= p < q < |all| :: all[p] != all[q]
    requires node !in all && node.level > i && |node.forward| == MAX_LEVEL
    modifies node`forward, prev`forward
    ensures Relinked(all, old(map n | n in all :: n.forward), node, i, u)
    ensures |node.forward| == MAX_LEVEL
    ensures forall j | 0 <= j < MAX_LEVEL && j != i && old(Chain(all, j)) :: Chain(all, j)
    ensures forall j | 0 <= j < MAX_LEVEL && j != i && old(Chain(longer, j)) :: Chain(longer, j)
  {
    assert prev.forward[i] == NodeAt(all, Next(all, u, i)) && |prev.forward| == MAX_LEVEL;
    hide NodeAt, Next;
    node.forward := node.forward[i := prev.forward[i]];
    prev.forward := prev.forward[i := node];
  }

  // One round of the linking loop puts node on chain i behind prev, and
  // leaves every other chain of either list alone.
  method LinkAt(node: Node, prev: Node, i: nat, ghost all: seq<Node>, ghost r: nat, ghost u: nat)
    requires i < MAX_LEVEL && Chain(all, i) && Before(all, r, i, u) && prev == all[u]
    requires forall p, q | 0 <= p < q < |all| :: all[p] != all[q]
    requires node !in all && node.level > i && |node.forward| == MAX_LEVEL
    modifies node`forward, prev`forward
    ensures Chain(Inserted(all, node, r), i)
    ensures |node.forward| == MAX_LEVEL
    ensures forall j | 0 <= j < MAX_LEVEL && j != i && old(Chain(all, j)) :: Chain(all, j)
    ensures forall j | 0 <= j < MAX_LEVEL && j != i && old(Chain(Inserted(all, node, r), j)) :: Chain(Inserted(all, node, r), j)
  {
    ghost var fs := map n | n in all :: n.forward;
    Relink(node, prev, i, all, u, Inserted(all, node, r));
    ChainLinked(all, fs, node, r, i, u);
  }

  // The linking loop: the new node joins every chain below its level.
  method Splice(node: Node, update: seq<Node>, ghost us: seq<nat>, ghost all: seq<Node>, ghost r: nat)
    requires 1 <= r <= |all| && node.level <= MAX_LEVEL == |update| == |us| && |node.forward| == MAX_LEVEL && node !in all
    requires forall p, q | 0 <= p < q < |all| :: all[p] != all[q]
    requires forall i | 0 <= i < MAX_LEVEL :: Chain(all, i)
    requires forall i | 0 <= i < node.level :: us[i] < |all| && Before(all, r, i, us[i]) && update[i] == all[us[i]]
    modifies node`forward, all`forward
    ensures forall i | 0 <= i < MAX_LEVEL :: Chain(Inserted(all, node, r), i)
  {
    hide Chain, Before, Inserted;
    var i := 0;
    while i < node.level
      invariant 0 <= i <= node.level && |node.forward| == MAX_LEVEL
      invariant forall j | i <= j < MAX_LEVEL :: Chain(all, j)
      invariant forall j | 0 <= j < i :: Chain(Inserted(all, node, r), j)
    {
      LinkAt(node, update[i], i, all, r, us[i]);
      i := i + 1;
    }
    forall j | node.level <= j < MAX_LEVEL
      ensures Chain(Inserted(all, node, r), j)
    {
      ChainSkips(all, node, r, j);
    }
  }

  // ---------- the list as a map ----------

  lemma LookupAt(all: seq<Node>, cmp: Compare, k: Key, p: nat)
    requires TotalOrder(cmp) && Sorted(all, cmp) && 1 <= p < |all| && cmp(all[p].key, k) == 0
    ensures Rank(all, cmp, k) == p && Lookup(all, cmp, k) == Present(all[p].value)
  {
    forall q | 1 <= q < p
      ensures cmp(all[q].key, k) < 0
    {
      assert cmp(all[q].key, all[p].key) < 0;
      hide Sorted;
      Trans(cmp, all[q].key, all[p].key, k);
    }
    hide TotalOrder, Sorted;
    RankIs(all, cmp, k, p);
  }

  lemma LookupMissing(all: seq<Node>, cmp: Compare, k: Key)
    requires 1 <= |all| && TotalOrder(cmp) && Sorted(all, cmp)
    ensures Lookup(all, cmp, k) == Missing <==> forall p | 1 <= p < |all| :: cmp(all[p].key, k) != 0
  {
    if Lookup(all, cmp, k) == Missing {
      forall p | 1 <= p < |all|
        ensures cmp(all[p].key, k) != 0
      {
        if p >= Rank(all, cmp, k) {
          RankSplits(all, cmp, k, p);
        }
      }
    }
  }

  lemma MissingInserted(all: seq<Node>, cmp: Compare, x: Node, r: nat, k: Key)
    requires 1 <= r <= |all| && TotalOrder(cmp) && Sorted(all, cmp) && cmp(x.key, k) != 0 && Lookup(all, cmp, k) == Missing
    requires 1 <= |Inserted(all, x, r)| && Sorted(Inserted(all, x, r), cmp)
    ensures Lookup(Inserted(all, x, r), cmp, k) == Missing
  {
    var all' := Inserted(all, x, r);
    InsertedAt(all, x, r);
    LookupMissing(all, cmp, k);
    LookupMissing(all', cmp, k);
    hide *;
    forall p' | 1 <= p' < |all'|
      ensures cmp(all'[p'].key, k) != 0
    {
      assert p' == r || all'[p'] == all[if p' < r then p' else p' - 1];
    }
  }

  lemma PresentInserted(all: seq<Node>, cmp: Compare, x: Node, r: nat, k: Key)
    requires 1 <= r <= |all| && TotalOrder(cmp) && Lookup(all, cmp, k) != Missing
    requires |Inserted(all, x, r)| == |all| + 1 && Sorted(Inserted(all, x, r), cmp)
    ensures Lookup(Inserted(all, x, r), cmp, k) == Lookup(all, cmp, k)
  {
    var p := Rank(all, cmp, k);
    assert p < |all| && cmp(all[p].key, k) == 0 && Lookup(all, cmp, k) == Present(all[p].value);
    InsertedAt(all, x, r);
    hide *;
    var p' := if p < r then p else p + 1;
    assert Inserted(all, x, r)[p'] == all[p];
    LookupAt(Inserted(all, x, r), cmp, k, p');
  }

  // Inserting at the rank updates the map at the key and nowhere else.
  lemma LookupInserted(all: seq<Node>, cmp: Compare, x: Node, k: Key)
    requires 1 <= |all| && TotalOrder(cmp) && Sorted(all, cmp) && Lookup(all, cmp, x.key) == Missing
    ensures Sorted(Inserted(all, x, Rank(all, cmp, x.key)), cmp)
    ensures |Inserted(all, x, Rank(all, cmp, x.key))| == |all| + 1
    ensures Lookup(Inserted(all, x, Rank(all, cmp, x.key)), cmp, k) == if cmp(x.key, k) == 0 then Present(x.value) else Lookup(all, cmp, k)
  {
    var r := Rank(all, cmp, x.key);
    InsertedAt(all, x, r);
    assert r < |all| ==> cmp(all[r].key, x.key) != 0;
    hide *;
    SortedInserted(all, cmp, x);
    if cmp(x.key, k) == 0 {
      LookupAt(Inserted(all, x, r), cmp, k, r);
    } else if Lookup(all, cmp, k) == Missing {
      MissingInserted(all, cmp, x, r, k);
    } else {
      PresentInserted(all, cmp, x, r, k);
    }
  }

  lemma LookupInsertedAll(all: seq<Node>, cmp: Compare, x: Node)
    requires 1 <= |all| && TotalOrder(cmp) && Sorted(all, cmp) && Lookup(all, cmp, x.key) == Missing
    ensures var all' := Inserted(all, x, Rank(all, cmp, x.key));
      && Sorted(all', cmp) && |all'| == |all| + 1
      && forall k :: Lookup(all', cmp, k) == if cmp(x.key, k) == 0 then Present(x.value) else Lookup(all, cmp, k)
  {
    hide *;
    LookupInserted(all, cmp, x, x.key);
    forall k
      ensures Lookup(Inserted(all, x, Rank(all, cmp, x.key)), cmp, k) == if cmp(x.key, k) == 0 then Present(x.value) else Lookup(all, cmp, k)
    {
      LookupInserted(all, cmp, x, k);
    }
  }

  // Keys that compare equal have the same rank, others are looked up elsewhere.
  lemma SameRank(all: seq<Node>, cmp: Compare, key: Key, k: Key)
    requires 1 <= |all| && TotalOrder(cmp) && Sorted(all, cmp)
    requires var r := Rank(all, cmp, key); r < |all| && cmp(all[r].key, key) == 0
    ensures var p, r := Rank(all, cmp, k), Rank(all, cmp, key); p == r && cmp(all[p].key, k) == 0 <==> cmp(key, k) == 0
  {
    var r := Rank(all, cmp, key);
    Trans(cmp, all[r].key, key, k);
    Trans(cmp, key, all[r].key, k);
    Trans(cmp, k, key, all[r].key);
    Trans(cmp, k, all[r].key, key);
    if cmp(key, k) == 0 {
      LookupAt(all, cmp, k, r);
    }
  }

  class SkipList {
    var header: Node
    var level: nat
    var size: nat
    const compare: Compare
    ghost var all: seq<Node>

    // Everything that does not read forward links.
    ghost predicate Shape()
      reads this
    {
      && 1 <= level <= MAX_LEVEL && 1 <= |all| == size + 1 && all[0] == header && header.level == MAX_LEVEL
      && (forall p | 1 <= p < |all| :: 1 <= all[p].level <= level)
      && (forall p, q | 0 <= p < q < |all| :: all[p] != all[q])
      && TotalOrder(compare) && Sorted(all, compare)
    }

    ghost predicate Valid()
      reads this, all
    {
      Shape() && forall i | 0 <= i < MAX_LEVEL :: Chain(all, i)
    }

    constructor (compare: Compare)
      requires TotalOrder(compare)
      ensures Valid() && this.compare == compare && |all| == 1
    {
      var h := new Node(MAX_LEVEL, [], Value(0, 0));
      header, level, size := h, 1, 0;
      this.compare := compare;
      all := [h];
    }

    // The inner search loop: as far along chain i as keys stay below the key.
    method Advance(start: Node, key: Key, i: nat, ghost from: nat) returns (n: Node, ghost p: nat)
      requires Valid() && i < level
      requires from < |all| && start == all[from] && all[from].level > i && (from > 0 ==> compare(all[from].key, key) < 0)
      ensures p < |all| && n == all[p] && all[p].level > i && |n.forward| == MAX_LEVEL
      ensures p > 0 ==> compare(all[p].key, key) < 0
      ensures n.forward[i] == NodeAt(all, Next(all, p, i))
      ensures n.forward[i] != null ==> compare(n.forward[i].key, key) >= 0
    {
      hide TotalOrder, Sorted;
      n, p := start, from;
      assert Chain(all, i);
      while n.forward[i] != null && compare(n.forward[i].key, key) < 0
        invariant p < |all| && n == all[p] && all[p].level > i && |n.forward| == MAX_LEVEL
        invariant p > 0 ==> compare(all[p].key, key) < 0
        decreases |all| - p
      {
        p := Next(all, p, i);
        n := n.forward[i];
      }
    }

    // The node of the key, or null if there is none.
    method Find(key: Key) returns (node: Node?)
      requires Valid()
      ensures match Lookup(all, compare, key)
        case Present(v) => node != null && node in all && node.value == v && compare(node.key, key) == 0
        case Missing => node == null
    {
      hide TotalOrder, Sorted, Rank;
      var n := header;
      ghost var p: nat := 0;
      var i: nat := level;
      while i > 0
        invariant i <= level && p < |all| && n == all[p] && all[p].level >= i
        invariant p > 0 ==> compare(all[p].key, key) < 0
        invariant i < level ==> |n.forward| == MAX_LEVEL && n.forward[i] == NodeAt(all, Next(all, p, i))
        invariant i < level && n.forward[i] != null ==> compare(n.forward[i].key, key) >= 0
      {
        i := i - 1;
        n, p := Advance(n, key, i, p);
      }
      AtRank(all, compare, key, p);
      node := n.forward[0];
      if node == null || compare(node.key, key) != 0 {
        node := null;
      }
    }

    // For the levels from `from` up, update and us name the last node below the key.
    ghost predicate Placed(key: Key, update: seq<Node>, us: seq<nat>, from: nat)
      requires |all| >= 1
      reads this
    {
      && |update| == |us| == MAX_LEVEL
      && forall i | from <= i < level && i < MAX_LEVEL ::
           us[i] < |all| && Before(all, Rank(all, compare, key), i, us[i]) && update[i] == all[us[i]]
    }

    lemma PlacedNext(key: Key, update: seq<Node>, us: seq<nat>, i: nat, p: nat)
      requires |all| >= 1 && i < MAX_LEVEL && Placed(key, update, us, i + 1)
      requires p < |all| && Before(all, Rank(all, compare, key), i, p)
      ensures Placed(key, update[i := all[p]], us[i := p], i)
    {
      hide Before, Rank;
    }

    // The search loop of insert: for every level in use the last node below
    // the key.
    method Locate(key: Key) returns (update: seq<Node>, node: Node?, ghost us: seq<nat>)
      requires Valid()
      ensures node == NodeAt(all, Rank(all, compare, key)) && Placed(key, update, us, 0)
    {
      hide TotalOrder, Sorted, Rank, Before, Chain, NodeAt, Next;
      var n := header;
      ghost var p: nat := 0;
      update, us := seq(MAX_LEVEL, i => n), seq(MAX_LEVEL, i => 0);
      var i: nat := level;
      assert Placed(key, update, us, i);
      hide Placed;
      while i > 0
        invariant i <= level && p < |all| && n == all[p] && all[p].level >= i && |update| == |us| == MAX_LEVEL
        invariant p > 0 ==> compare(all[p].key, key) < 0
        invariant i < level ==> |n.forward| == MAX_LEVEL && n.forward[i] == NodeAt(all, Next(all, p, i))
        invariant i < level && n.forward[i] != null ==> compare(n.forward[i].key, key) >= 0
        invariant Placed(key, update, us, i)
      {
        i := i - 1;
        n, p := Advance(n, key, i, p);
        NotBelow(p, i, key);
        BeforeHere(all, compare, key, i, p);
        PlacedNext(key, update, us, i, p);
        update, us := update[i := n], us[i := p];
      }
      NotBelow(p, 0, key);
      AtRank(all, compare, key, p);
      node := n.forward[0];
    }

    lemma NotBelow(p: nat, i: nat, key: Key)
      requires p < |all| && i < |all[p].forward| && all[p].forward[i] == NodeAt(all, Next(all, p, i))
      requires all[p].forward[i] != null ==> compare(all[p].forward[i].key, key) >= 0
      ensures var q := Next(all, p, i); q < |all| ==> compare(all[q].key, key) >= 0
    {
    }

    // A key that is there gets the new value.
    method Rebind(node: Node, key: Key, value: Value)
      requires Valid() && var r := Rank(all, compare, key); r < |all| && node == all[r] && compare(node.key, key) == 0
      modifies all`value
      ensures Valid()
      ensures forall k :: Lookup(all, compare, k) == (if compare(key, k) == 0 then Present(value) else old(Lookup(all, compare, k)))
    {
      hide TotalOrder, Sorted, Chain, Rank;
      ghost var r := Rank(all, compare, key);
      node.value := value;
      forall k
        ensures Lookup(all, compare, k) == (if compare(key, k) == 0 then Present(value) else old(Lookup(all, compare, k)))
      {
        SameRank(all, compare, key, k);
      }
    }

    // A key that is not there gets a node of the drawn level.
    method InsertNew(key: Key, value: Value, drawn: nat, found: seq<Node>, ghost us: seq<nat>)
      requires Valid() && 1 <= drawn <= level && Lookup(all, compare, key) == Missing && Placed(key, found, us, 0)
      modifies this, all
      ensures Valid() && size == old(size) + 1 && level == old(level)
      ensures forall k :: Lookup(all, compare, k) == (if compare(key, k) == 0 then Present(value) else old(Lookup(all, compare, k)))
      ensures forall n | n in all :: n in old(all) || fresh(n)
    {
      hide TotalOrder, Sorted, Chain, Before, Rank, Inserted, Lookup, Next, NodeAt;
      ghost var r := Rank(all, compare, key);
      ghost var was := all;
      var node := new Node(drawn, key, value);
      Splice(node, found, us, all, r);
      ShapeInserted(all, node, r, level);
      MembersInserted(all, node, r);
      all := Inserted(all, node, r);
      size := size + 1;
      LookupInsertedAll(was, compare, node);
    }

    // Levels above the ones in use start at the header.
    method Raise(key: Key, drawn: nat, found: seq<Node>, ghost us: seq<nat>) returns (update: seq<Node>,
          ghost vs: seq<nat>)
      requires Valid() && 1 <= drawn <= MAX_LEVEL && Placed(key, found, us, 0)
      modifies `level
      ensures Valid() && drawn <= level && Placed(key, update, vs, 0)
    {
      hide TotalOrder, Sorted, Chain;
      update, vs := found, us;
      if drawn > level {
        var i := level;
        while i < drawn
          invariant level <= i <= drawn && |update| == |vs| == MAX_LEVEL
          invariant forall j | 0 <= j < i :: vs[j] < |all| && Before(all, Rank(all, compare, key), j, vs[j]) && update[j] == all[vs[j]]
        {
          NextIs(all, 0, i, |all|);
          update, vs := update[i := header], vs[i := 0];
          i := i + 1;
        }
        level := drawn;
      }
    }

    // Insert binds the key, whatever level is drawn; it fails only when a
    // new node is needed and cannot be had, and then changes no binding.
    method Insert(key: Key, value: Value, drawn: nat, room: bool) returns (status: Status)
      requires Valid() && 1 <= drawn <= MAX_LEVEL
      modifies this, all
      ensures Valid()
      ensures status == ERR_IO <==> old(Lookup(all, compare, key)) == Missing && !room
      ensures forall k ::
        Lookup(all, compare, k) == (if status == OK && compare(key, k) == 0 then Present(value) else old(Lookup(all, compare, k)))
      ensures size == old(size) + if status == OK && old(Lookup(all, compare, key)) == Missing then 1 else 0
      ensures forall n | n in all :: n in old(all) || fresh(n)
    {
      var update, node := [], null;
      ghost var us;
      update, node, us := Locate(key);
      if node != null && compare(node.key, key) == 0 {
        Rebind(node, key, value);
        return OK;
      }
      hide TotalOrder, Sorted, Chain, Before, Placed, Rank;
      update, us := Raise(key, drawn, update, us);
      if !room {
        return ERR_IO;
      }
      InsertNew(key, value, drawn, update, us);
      return OK;
    }
  }
}
