// The epoll interest set (src/epoll.c): a red-black tree keyed by file
// descriptor that behaves as a finite map from descriptor to event.
module Epoll {
  import opened RbTree
  import opened RbErase

  const EPOLL_CTL_ADD := 1
  const EPOLL_CTL_DEL := 2
  const EPOLL_CTL_MOD := 3

  datatype Errno = Success | EExist | ENoEnt | ENoMem | EInval | EBadF | EMFile

  ghost predicate Increasing(s: seq<Node>) {
    forall i, j | 0 <= i < j < |s| :: s[i].key < s[j].key
  }

  lemma {:induction false} InOrderNodes(t: Tree)
    ensures (set n | n in InOrder(t)) == Nodes(t)
  {
    if t.T? {
      InOrderNodes(t.l);
      InOrderNodes(t.r);
    }
  }

  // The items behind a set of nodes say exactly what the map says.
  ghost predicate Describes(nodes: set<Node>, items: set<Item>, interest: map<int, Payload>)
    reads items
  {
    && (forall n | n in nodes :: n.item in items && n.key in interest && n.item.payload == interest[n.key])
    && (forall m, n | m in nodes && n in nodes && (m.item == n.item || m.key == n.key) :: m == n)
    && (forall fd | fd in interest :: exists n :: n in nodes && n.key == fd)
  }

  lemma OneMore(nodes: set<Node>, items: set<Item>, interest: map<int, Payload>, epi: Node)
    requires Describes(nodes, items, interest)
    requires epi.key !in interest && epi.item !in items
    ensures Describes(nodes + {epi}, items + {epi.item}, interest[epi.key := epi.item.payload])
  {
    var interest' := interest[epi.key := epi.item.payload];
    forall fd | fd in interest'
      ensures exists n :: n in nodes + {epi} && n.key == fd
    {
      if fd == epi.key {
        assert epi in nodes + {epi};
      } else {
        var n :| n in nodes && n.key == fd;
        assert n in nodes + {epi};
      }
    }
  }

  lemma OneFewer(nodes: set<Node>, items: set<Item>, interest: map<int, Payload>, epi: Node)
    requires Describes(nodes, items, interest) && epi in nodes
    ensures Describes(nodes - {epi}, items - {epi.item}, interest - {epi.key})
  {
    forall fd | fd in interest - {epi.key}
      ensures exists n :: n in nodes - {epi} && n.key == fd
    {
      var n :| n in nodes && n.key == fd;
      assert n in nodes - {epi};
    }
  }

  // A red-black tree in strict key order holds the map.
  ghost predicate Holds(t: Tree, root: Root, nodes: set<Node>, items: set<Item>, interest: map<int, Payload>)
    reads root, nodes, items
  {
    nodes == Nodes(t) && Whole(t, root) && Increasing(InOrder(t)) && Describes(nodes, items, interest)
  }

  // calloc and the assignment of epi->fd and epi->event.
  method NewItem(fd: int, event: Payload) returns (epi: Node)
    ensures fresh(epi) && fresh(epi.item) && epi.key == fd && epi.item.payload == event
  {
    var item := new Item(event);
    epi := new Node(fd, item);
  }

  class EventPoll {
    const rbr: Root
    ghost var tree: Tree
    ghost var nodes: set<Node>
    ghost var items: set<Item>
    // The abstract value: which descriptors are watched, and for what.
    ghost var interest: map<int, Payload>

    ghost predicate Valid()
      reads this, rbr, nodes, items
    {
      Holds(tree, rbr, nodes, items, interest)
    }

    constructor ()
      ensures Valid() && interest == map[] && nodes == {} && items == {} && fresh(rbr)
    {
      rbr := new Root();
      tree := Leaf;
      nodes, items, interest := {}, {}, map[];
    }

    method Find(fd: int) returns (epi: Node?)
      requires Valid()
      ensures epi != null <==> fd in interest
      ensures epi != null ==> epi in nodes && epi.key == fd && epi.item in items && epi.item.payload == interest[fd]
    {
      epi := Search(fd, rbr, tree);
    }

    // case EPOLL_CTL_ADD; oom says that calloc fails.
    method CtlAdd(found: Node?, fd: int, event: Payload, oom: bool) returns (error: Errno)
      requires Valid() && (found != null <==> fd in interest)
      modifies this, rbr, nodes
      ensures Valid() && fresh(nodes - old(nodes)) && fresh(items - old(items))
      ensures error == if fd in old(interest) then EExist else if oom then ENoMem else Success
      ensures interest == if error == Success then old(interest)[fd := event] else old(interest)
    {
      hide Holds;
      if found != null {
        return EExist;
      }
      if oom {
        return ENoMem;
      }
      var epi := NewItem(fd, event);
      ghost var t := Add(epi, rbr, tree, nodes, items, interest);
      tree, nodes, items, interest := t, nodes + {epi}, items + {epi.item}, interest[fd := event];
      error := Success;
    }

    // case EPOLL_CTL_MOD
    method CtlMod(found: Node?, fd: int, event: Payload) returns (error: Errno)
      requires Valid() && (found != null <==> fd in interest)
      requires found != null ==> found in nodes && found.key == fd && found.item in items
      modifies this, items
      ensures Valid() && nodes == old(nodes) && items == old(items)
      ensures error == if fd in old(interest) then Success else ENoEnt
      ensures interest == if error == Success then old(interest)[fd := event] else old(interest)
    {
      if found == null {
        return ENoEnt;
      }
      hide Holds;
      Modify(found, event, rbr, tree, nodes, items, interest);
      interest := interest[fd := event];
      error := Success;
    }

    // case EPOLL_CTL_DEL; the item freed is found.
    method CtlDel(found: Node?, fd: int) returns (error: Errno)
      requires Valid() && (found != null <==> fd in interest)
      requires found != null ==> found in nodes && found.key == fd && found.item in items
      modifies this, rbr, nodes
      ensures Valid()
      ensures nodes == (if found != null then old(nodes) - {found} else old(nodes)) && items <= old(items)
      ensures error == if fd in old(interest) then Success else ENoEnt
      ensures interest == if error == Success then old(interest) - {fd} else old(interest)
    {
      hide Holds;
      if found == null {
        return ENoEnt;
      }
      ghost var t := Remove(found, rbr, tree, nodes, items, interest);
      tree, nodes, items, interest := t, nodes - {found}, items - {found.item}, interest - {fd};
      error := Success;
    }

    // epoll_ctl behind the test of the descriptor.
    method Ctl(op: int, fd: int, event: Payload, oom: bool) returns (error: Errno)
      requires Valid()
      modifies this, rbr, nodes, items
      ensures Valid() && fresh(nodes - old(nodes)) && fresh(items - old(items))
      ensures op == EPOLL_CTL_ADD ==> error == if fd in old(interest) then EExist else if oom then ENoMem else Success
      ensures op == EPOLL_CTL_MOD || op == EPOLL_CTL_DEL ==> error == if fd in old(interest) then Success else ENoEnt
      ensures op != EPOLL_CTL_ADD && op != EPOLL_CTL_MOD && op != EPOLL_CTL_DEL ==> error == EInval
      ensures interest == (
                if error != Success then old(interest)
                else if op == EPOLL_CTL_DEL then old(interest) - {fd}
                else old(interest)[fd := event])
    {
      var epi := Find(fd);
      hide Holds;
      if op == EPOLL_CTL_ADD {
        error := CtlAdd(epi, fd, event, oom);
      } else if op == EPOLL_CTL_MOD {
        error := CtlMod(epi, fd, event);
      } else if op == EPOLL_CTL_DEL {
        error := CtlDel(epi, fd);
      } else {
        error := EInval;
      }
    }

    // The drain loop of epoll_close.
    method Close() returns (ghost freed: seq<Node>)
      requires Valid()
      modifies this, rbr, nodes
      ensures Valid() && rbr.node == null && interest == map[] && nodes == {}
      ensures FreedOnce(freed, {}, old(nodes))
    {
      hide Holds, FreedOnce;
      freed := [];
      StartFree(nodes);
      var node := rbr.node;
      RootHeld(tree, rbr, nodes, items, interest);
      while node != null
        invariant Valid() && node == rbr.node && nodes <= old(nodes)
        invariant if node == null then nodes == {} && interest == map[] else node in nodes
        invariant FreedOnce(freed, nodes, old(nodes))
        decreases nodes
      {
        FreeOne(freed, nodes, old(nodes), node);
        freed := freed + [node];
        ghost var t := Remove(node, rbr, tree, nodes, items, interest);
        tree, nodes, items, interest := t, nodes - {node}, items - {node.item}, interest - {node.key};
        node := rbr.node;
        RootHeld(tree, rbr, nodes, items, interest);
      }
    }
  }

  // Of all nodes, those in freed have gone, each once, and left remain.
  ghost predicate FreedOnce(freed: seq<Node>, left: set<Node>, all: set<Node>) {
    multiset(freed) + multiset(left) == multiset(all)
  }

  lemma StartFree(all: set<Node>)
    ensures FreedOnce([], all, all)
  {
  }

  lemma FreeOne(freed: seq<Node>, left: set<Node>, all: set<Node>, node: Node)
    requires FreedOnce(freed, left, all) && node in left
    ensures FreedOnce(freed + [node], left - {node}, all)
  {
    assert multiset(left) == multiset(left - {node}) + multiset{node};
  }

  lemma RootHeld(t: Tree, root: Root, nodes: set<Node>, items: set<Item>, interest: map<int, Payload>)
    requires Holds(t, root, nodes, items, interest)
    ensures if root.node == null then nodes == {} && interest == map[] else root.node in nodes
  {
    if root.node == null {
      assert nodes == {};
      forall fd
        ensures fd !in interest
      {
      }
    }
  }

  // An order with one node less stays strict.
  lemma StillIncreasing(order: seq<Node>, node: Node, at: nat, order': seq<Node>)
    requires Increasing(order) && RemovedAt(order, node, at, order')
    ensures Increasing(order')
  {
    forall i, j | 0 <= i < j < |order'|
      ensures order'[i].key < order'[j].key
    {
      assert order'[i] == order[if i < at then i else i + 1];
      assert order'[j] == order[if j < at then j else j + 1];
    }
  }

  method Remove(epi: Node, root: Root, ghost w: Tree, ghost nodes: set<Node>, ghost items: set<Item>,
                ghost interest: map<int, Payload>) returns (ghost w': Tree)
    requires Holds(w, root, nodes, items, interest) && epi in nodes
    modifies root, nodes
    ensures Holds(w', root, nodes - {epi}, items - {epi.item}, interest - {epi.key})
  {
    hide Whole, Increasing, InOrder, Nodes, Describes;
    ghost var at;
    w', at := Erase(epi, root, w);
    StillIncreasing(InOrder(w), epi, at, InOrder(w'));
    OneFewer(nodes, items, interest, epi);
  }

  // insert_epitem with a key the tree does not hold.
  method InsertItem(epi: Node, root: Root, ghost w: Tree) returns (ghost w': Tree)
    requires Whole(w, root) && Increasing(InOrder(w)) && Misses(InOrder(w), epi.key) && epi !in Nodes(w)
    modifies root, epi, Nodes(w)
    ensures Whole(w', root) && Nodes(w') == Nodes(w) + {epi} && Increasing(InOrder(w'))
  {
    ghost var at;
    w', at := Insert(epi, root, w);
    hide Whole;
    StaysIncreasing(InOrder(w), epi, at, InOrder(w'));
  }

  method Add(epi: Node, root: Root, ghost w: Tree, ghost nodes: set<Node>, ghost items: set<Item>,
             ghost interest: map<int, Payload>) returns (ghost w': Tree)
    requires Holds(w, root, nodes, items, interest)
    requires epi !in nodes && epi.item !in items && epi.key !in interest
    modifies root, epi, nodes
    ensures Holds(w', root, nodes + {epi}, items + {epi.item}, interest[epi.key := epi.item.payload])
  {
    NewKey(w, nodes, items, interest, epi.key);
    hide Whole, Increasing, Misses, InOrder, Nodes, Describes;
    w' := InsertItem(epi, root, w);
    OneMore(nodes, items, interest, epi);
  }

  method Modify(epi: Node, event: Payload, root: Root, ghost w: Tree, ghost nodes: set<Node>, ghost items: set<Item>,
                ghost interest: map<int, Payload>)
    requires Holds(w, root, nodes, items, interest) && epi in nodes
    modifies epi.item
    ensures Holds(w, root, nodes, items, interest[epi.key := event])
  {
    hide Whole, Increasing, InOrder, Nodes;
    epi.item.payload := event;
  }

  ghost predicate Misses(order: seq<Node>, key: int) {
    forall i | 0 <= i < |order| :: order[i].key != key
  }

  lemma NewKey(t: Tree, nodes: set<Node>, items: set<Item>, interest: map<int, Payload>, fd: int)
    requires nodes == Nodes(t) && Increasing(InOrder(t)) && Describes(nodes, items, interest) && fd !in interest
    ensures Misses(InOrder(t), fd)
  {
    InOrderNodes(t);
    forall i | 0 <= i < |InOrder(t)|
      ensures InOrder(t)[i].key != fd
    {
      assert InOrder(t)[i] in (set n | n in InOrder(t));
    }
  }

  // A new key keeps the order strict.
  lemma StaysIncreasing(order: seq<Node>, node: Node, at: nat, order': seq<Node>)
    requires Increasing(order) && InsertedAt(order, node, at, order')
    requires Misses(order, node.key)
    ensures Increasing(order')
  {
  }

  // On the way down from the root of a tree with the given order, no node
  // left behind has key fd.
  ghost predicate Passed(ctx: Ctx, t: Tree, order: seq<Node>, fd: int) {
    && Line(ctx, t) == order && Increasing(order)
    && (forall n | n in Before(ctx) :: n.key != fd)
    && (forall n | n in After(ctx) :: n.key != fd)
  }

  lemma PassOn(ctx: Ctx, t: Tree, order: seq<Node>, fd: int)
    requires t.T? && Passed(ctx, t, order, fd)
    ensures t.n in order
    ensures fd < t.n.key ==> Passed(LeftHole(t, ctx), t.l, order, fd)
    ensures fd > t.n.key ==> Passed(RightHole(t, ctx), t.r, order, fd)
  {
    LineDown(ctx, t);
    SidesIncrease(ctx, t);
    assert t.n in InOrder(t);
  }

  lemma SearchOver(w: Tree, ctx: Ctx, t: Tree, order: seq<Node>, fd: int)
    requires order == InOrder(w) && Passed(ctx, t, order, fd)
    ensures t.Leaf? ==> forall n | n in Nodes(w) :: n.key != fd
    ensures t.T? ==> t.n in Nodes(w)
  {
    InOrderNodes(w);
    if t.Leaf? {
      assert order == Before(ctx) + After(ctx);
      forall n | n in Nodes(w)
        ensures n.key != fd
      {
        assert n in InOrder(w);
      }
    } else {
      assert t.n in InOrder(t);
      assert t.n in order;
    }
  }

  // Seen from the middle node, keys go down to the left and up to the right.
  lemma SidesIncrease(ctx: Ctx, t: Tree)
    requires t.T? && Increasing(Line(ctx, t))
    ensures forall n | n in Before(RightHole(t, ctx)) :: n.key <= t.n.key
    ensures forall n | n in After(LeftHole(t, ctx)) :: n.key >= t.n.key
  {
    var b, a := Before(ctx) + InOrder(t.l), InOrder(t.r) + After(ctx);
    assert Line(ctx, t) == b + [t.n] + a;
    assert Before(RightHole(t, ctx)) == b + [t.n];
    assert After(LeftHole(t, ctx)) == [t.n] + a;
    forall n | n in b
      ensures n.key < t.n.key
    {
      var i :| 0 <= i < |b| && b[i] == n;
      assert Line(ctx, t)[i] == n && Line(ctx, t)[|b|] == t.n;
    }
    forall n | n in a
      ensures n.key > t.n.key
    {
      var i :| 0 <= i < |a| && a[i] == n;
      assert Line(ctx, t)[|b| + 1 + i] == n && Line(ctx, t)[|b|] == t.n;
    }
  }

  // The loop of find_epitem.
  method Search(fd: int, root: Root, ghost w: Tree) returns (epi: Node?)
    requires Whole(w, root) && Increasing(InOrder(w))
    ensures epi != null ==> epi in Nodes(w) && epi.key == fd
    ensures epi == null ==> forall n | n in Nodes(w) :: n.key != fd
  {
    var node := root.node;
    ghost var ctx, t, order := Top, w, InOrder(w);
    assert Line(ctx, t) == order;
    assert Passed(ctx, t, order, fd);
    FocusFields(ctx, t, node, root);
    while node != null
      invariant Focus(ctx, t, node, root) && Passed(ctx, t, order, fd)
      invariant node == null <==> t.Leaf?
      invariant t.T? ==> node == t.n
      decreases t
    {
      hide Passed, Focus, InOrder, Nodes;
      FocusDown(ctx, t, node, root);
      PassOn(ctx, t, order, fd);
      if fd < node.key {
        node := node.left;
        ctx, t := LeftHole(t, ctx), t.l;
      } else if fd > node.key {
        node := node.right;
        ctx, t := RightHole(t, ctx), t.r;
      } else {
        break;
      }
      FocusFields(ctx, t, node, root);
    }
    SearchOver(w, ctx, t, order, fd);
    epi := node;
  }

  // ---------- the instance table, of any length ----------

  ghost predicate Open(instances: array<EventPoll?>, epfd: int)
    reads instances
  {
    0 <= epfd < instances.Length && instances[epfd] != null
  }

  ghost predicate OpenValid(instances: array<EventPoll?>, epfd: int)
    reads instances, if Open(instances, epfd) then Own(instances[epfd]) else {}
  {
    Open(instances, epfd) ==> instances[epfd].Valid()
  }

  ghost function Own(ep: EventPoll): set<object>
    reads ep
  {
    {ep, ep.rbr} + ep.nodes + ep.items
  }

  // find_available_fd: the lowest free descriptor, or -1.
  method FindAvailable(instances: array<EventPoll?>) returns (epfd: int)
    ensures if epfd < 0 then epfd == -1 && forall i | 0 <= i < instances.Length :: instances[i] != null
            else epfd < instances.Length && instances[epfd] == null && forall i | 0 <= i < epfd :: instances[i] != null
  {
    for i := 0 to instances.Length
      invariant forall j | 0 <= j < i :: instances[j] != null
    {
      if instances[i] == null {
        return i;
      }
    }
    epfd := -1;
  }

  // epoll_create
  method EpollCreate(instances: array<EventPoll?>, size: int, oom: bool) returns (epfd: int, error: Errno)
    modifies instances
    ensures var was := old(instances[..]);
            && error == (if size <= 0 then EInval else if null !in was then EMFile else if oom then ENoMem else Success)
            && (error != Success ==> epfd == -1 && instances[..] == was)
            && (error == Success ==>
                  && 0 <= epfd < instances.Length && was[epfd] == null && null !in was[..epfd]
                  && instances[..] == was[epfd := instances[epfd]] && instances[epfd] != null
                  && fresh(Own(instances[epfd])) && instances[epfd].Valid() && instances[epfd].interest == map[])
  {
    if size <= 0 {
      return -1, EInval;
    }
    epfd := FindAvailable(instances);
    if epfd < 0 {
      return -1, EMFile;
    }
    assert instances[..][epfd] == null;
    if oom {
      return -1, ENoMem;
    }
    var ep := new EventPoll();
    instances[epfd] := ep;
    error := Success;
  }

  // epoll_ctl
  method EpollCtl(instances: array<EventPoll?>, epfd: int, op: int, fd: int, event: Payload, oom: bool)
    returns (error: Errno)
    requires OpenValid(instances, epfd)
    modifies if Open(instances, epfd) then Own(instances[epfd]) else {}
    ensures error == EBadF <==> !Open(instances, epfd)
    ensures Open(instances, epfd) ==>
              var ep := instances[epfd]; var was := old(ep.interest);
              && ep.Valid() && fresh(Own(ep) - old(Own(ep)))
              && (op == EPOLL_CTL_ADD ==> error == if fd in was then EExist else if oom then ENoMem else Success)
              && (op == EPOLL_CTL_MOD || op == EPOLL_CTL_DEL ==> error == if fd in was then Success else ENoEnt)
              && (op != EPOLL_CTL_ADD && op != EPOLL_CTL_MOD && op != EPOLL_CTL_DEL ==> error == EInval)
              && ep.interest == (if error != Success then was else if op == EPOLL_CTL_DEL then was - {fd} else was[fd := event])
  {
    if epfd < 0 || epfd >= instances.Length || instances[epfd] == null {
      return EBadF;
    }
    var ep: EventPoll := instances[epfd];
    error := ep.Ctl(op, fd, event, oom);
  }

  // epoll_close: the descriptor is free again and the instance is drained;
  // on a descriptor that is not open nothing happens.
  method EpollClose(instances: array<EventPoll?>, epfd: int) returns (ghost freed: seq<Node>)
    requires OpenValid(instances, epfd)
    requires Open(instances, epfd) ==> instances !in Own(instances[epfd])
    modifies instances, if Open(instances, epfd) then Own(instances[epfd]) else {}
    ensures var was := old(instances[..]);
            if old(Open(instances, epfd)) then
              instances[..] == was[epfd := null] && FreedOnce(freed, {}, old(was[epfd].nodes))
            else instances[..] == was && freed == []
  {
    freed := [];
    if epfd < 0 || epfd >= instances.Length {
      return;
    }
    var ep := instances[epfd];
    if ep != null {
      instances[epfd] := null;
      freed := ep.Close();
    }
  }
}
