// The run queue of the fair scheduler (src/scheduler_fair.c): the same
// red-black insertion as src/rbtree.c, keyed by virtual run time.
module FairScheduler {
  import opened Common
  import opened RbTree

  // Put node after every entry whose virtual run time is not larger.
  ghost function Place(order: seq<Node>, node: Node): seq<Node> {
    if order == [] || node.key < order[0].key then [node] + order
    else [order[0]] + Place(order[1..], node)
  }

  // The queue after a series of arrivals.
  ghost function Queue(arrivals: seq<Node>): seq<Node> {
    if arrivals == [] then [] else Place(Queue(arrivals[..|arrivals| - 1]), arrivals[|arrivals| - 1])
  }

  ghost function WithKey(s: seq<Node>, key: int): seq<Node> {
    if s == [] then []
    else if s[0].key == key then [s[0]] + WithKey(s[1..], key)
    else WithKey(s[1..], key)
  }

  lemma {:induction false} WithKeyAppend(s: seq<Node>, t: seq<Node>, key: int)
    ensures WithKey(s + t, key) == WithKey(s, key) + WithKey(t, key)
  {
    if s == [] {
      assert s + t == t;
    } else {
      assert (s + t)[1..] == s[1..] + t;
      WithKeyAppend(s[1..], t, key);
    }
  }

  lemma {:induction false} PlaceAdds(order: seq<Node>, node: Node)
    ensures multiset(Place(order, node)) == multiset(order) + multiset{node}
  {
    if order != [] && node.key >= order[0].key {
      assert order == [order[0]] + order[1..];
      PlaceAdds(order[1..], node);
    }
  }

  lemma {:induction false} PlaceOrdered(order: seq<Node>, node: Node)
    requires Ordered(order)
    ensures Ordered(Place(order, node))
  {
    if order != [] && node.key >= order[0].key {
      var rest := Place(order[1..], node);
      PlaceOrdered(order[1..], node);
      PlaceAdds(order[1..], node);
      forall i | 0 <= i < |rest|
        ensures order[0].key <= rest[i].key
      {
        assert rest[i] in multiset(order[1..]) + multiset{node};
      }
    }
  }

  // Arrivals with the same virtual run time stay in arrival order.
  lemma {:induction false} PlaceStable(order: seq<Node>, node: Node, key: int)
    requires Ordered(order)
    ensures WithKey(Place(order, node), key) == WithKey(order, key) + if node.key == key then [node] else []
  {
    if order == [] || node.key < order[0].key {
      WithKeyAppend([node], order, key);
      if node.key == key {
        NoSmaller(order, key);
      }
    } else {
      var rest := Place(order[1..], node);
      PlaceStable(order[1..], node, key);
      assert ([order[0]] + rest)[1..] == rest;
    }
  }

  lemma {:induction false} NoSmaller(order: seq<Node>, key: int)
    requires forall n | n in order :: key < n.key
    ensures WithKey(order, key) == []
  {
    if order != [] {
      assert order[0] in order;
      NoSmaller(order[1..], key);
    }
  }

  // The queue is a stable sort of the arrivals by virtual run time.
  lemma {:induction false} QueueIsStableSort(arrivals: seq<Node>, key: int)
    ensures Ordered(Queue(arrivals)) && multiset(Queue(arrivals)) == multiset(arrivals)
    ensures WithKey(Queue(arrivals), key) == WithKey(arrivals, key)
  {
    if arrivals != [] {
      var k := |arrivals| - 1;
      assert arrivals == arrivals[..k] + [arrivals[k]];
      QueueIsStableSort(arrivals[..k], key);
      PlaceAdds(Queue(arrivals[..k]), arrivals[k]);
      PlaceOrdered(Queue(arrivals[..k]), arrivals[k]);
      PlaceStable(Queue(arrivals[..k]), arrivals[k], key);
      WithKeyAppend(arrivals[..k], [arrivals[k]], key);
    }
  }

  // Hence its head is the first arrival among those with the least virtual
  // run time.
  lemma HeadIsFirstMinimum(arrivals: seq<Node>)
    requires arrivals != []
    ensures Queue(arrivals) != []
    ensures var head := Queue(arrivals)[0];
            && (forall n | n in arrivals :: head.key <= n.key)
            && WithKey(arrivals, head.key) != [] && WithKey(arrivals, head.key)[0] == head
  {
    QueueIsStableSort(arrivals, 0);
    assert |multiset(arrivals)| == |arrivals|;
    var head := Queue(arrivals)[0];
    QueueIsStableSort(arrivals, head.key);
    forall n | n in arrivals
      ensures head.key <= n.key
    {
      assert n in multiset(Queue(arrivals));
    }
  }

  lemma {:induction false} InsertedIsPlaced(order: seq<Node>, node: Node, at: nat, order': seq<Node>)
    requires InsertedAt(order, node, at, order')
    ensures order' == Place(order, node)
  {
    if at > 0 {
      assert order'[1..] == order[1..][..at - 1] + [node] + order[1..][at - 1..];
      InsertedIsPlaced(order[1..], node, at - 1, order'[1..]);
    }
  }

  class FairQueue {
    const root: Root
    ghost var tree: Tree
    ghost var nodes: set<Node>
    ghost var arrivals: seq<Node>

    ghost predicate Valid()
      reads this, root, nodes
    {
      nodes == Nodes(tree) && Whole(tree, root) && InOrder(tree) == Queue(arrivals)
    }

    constructor ()
      ensures Valid() && arrivals == [] && nodes == {} && fresh(root)
    {
      root := new Root();
      tree, nodes, arrivals := Leaf, {}, [];
    }

    // enqueue_task_fair for a task that has scheduler data.
    method Enqueue(se: Node)
      requires Valid() && se !in nodes
      modifies this, root, nodes, se
      ensures Valid() && arrivals == old(arrivals) + [se] && nodes == old(nodes) + {se}
    {
      ghost var t := Enter(se, root, tree, arrivals);
      hide Whole, InOrder, Nodes, Queue;
      tree, nodes, arrivals := t, nodes + {se}, arrivals + [se];
    }

    // scheduler_pick_next_fair: the task of the first entity.
    method PickNext() returns (task: Option<Payload>)
      requires Valid()
      ensures task == if arrivals == [] then None else Some(Queue(arrivals)[0].item.payload)
    {
      var left := First();
      task := if left == null then None else Some(left.item.payload);
    }

    method First() returns (next: Node?)
      requires Valid()
      ensures next == null <==> arrivals == []
      ensures next != null ==> next == Queue(arrivals)[0]
    {
      next := Leftmost(root, tree);
      QueueIsStableSort(arrivals, 0);
      assert |multiset(arrivals)| == |arrivals| && |multiset(InOrder(tree))| == |InOrder(tree)|;
    }

    // scheduler_min_vruntime
    method MinVruntime() returns (v: int)
      requires Valid()
      ensures arrivals == [] ==> v == 0
      ensures arrivals != [] ==> exists n :: n in arrivals && n.key == v
      ensures forall n | n in arrivals :: v <= n.key
    {
      var left := First();
      if left == null {
        return 0;
      }
      HeadIsFirstMinimum(arrivals);
      QueueIsStableSort(arrivals, 0);
      assert left in multiset(Queue(arrivals));
      v := left.key;
    }
  }

  method Enter(se: Node, root: Root, ghost w: Tree, ghost arrivals: seq<Node>) returns (ghost w': Tree)
    requires Whole(w, root) && InOrder(w) == Queue(arrivals) && se !in Nodes(w)
    modifies root, se, Nodes(w)
    ensures Whole(w', root) && Nodes(w') == Nodes(w) + {se} && InOrder(w') == Queue(arrivals + [se])
  {
    QueueIsStableSort(arrivals, 0);
    assert (arrivals + [se])[..|arrivals|] == arrivals;
    ghost var at;
    w', at := Insert(se, root, w);
    InsertedIsPlaced(InOrder(w), se, at, InOrder(w'));
  }

  // The walk down the left edge that both readers share.
  method Leftmost(root: Root, ghost w: Tree) returns (node: Node?)
    requires Whole(w, root)
    ensures node == null <==> InOrder(w) == []
    ensures node != null ==> node == InOrder(w)[0]
  {
    node := root.node;
    ghost var ctx, t := Top, w;
    FocusFields(ctx, t, node, root);
    if node == null {
      return;
    }
    FocusDown(ctx, t, node, root);
    while node.left != null
      invariant node != null && t.T? && node == t.n && Focus(ctx, t, node, root)
      invariant Focus(LeftHole(t, ctx), t.l, node.left, root)
      invariant InOrder(t)[0] == InOrder(w)[0] && InOrder(w) != []
      decreases t
    {
      FocusFields(LeftHole(t, ctx), t.l, node.left, root);
      assert InOrder(t.l)[0] == InOrder(t)[0];
      ctx, t := LeftHole(t, ctx), t.l;
      node := node.left;
      FocusDown(ctx, t, node, root);
    }
    FocusFields(LeftHole(t, ctx), t.l, node.left, root);
  }
}
