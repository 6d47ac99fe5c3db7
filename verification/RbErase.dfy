// rb_erase as the usual unlink followed by rb_erase_color, for the callers
// in src/epoll.c.  A node with two children gives its place to the next
// node in order, which has at most one.
module RbErase {
  import opened RbTree

  // order without the node at position at.
  ghost predicate RemovedAt(order: seq<Node>, node: Node, at: nat, order': seq<Node>) {
    at < |order| && order[at] == node && order' == order[..at] + order[at + 1..]
  }

  // ---------- contexts on contexts ----------

  // ctx continued outward by outer.
  ghost function Append(ctx: Ctx, outer: Ctx): Ctx {
    match ctx
    case Top => outer
    case Left(n, c, s, up) => Left(n, c, s, Append(up, outer))
    case Right(n, c, s, up) => Right(n, c, s, Append(up, outer))
  }

  // Climbing out of the inner part of a context.
  lemma {:induction false} FocusOut(ctx: Ctx, outer: Ctx, t: Tree, h: Node?, root: Root) returns (g: Node?)
    requires Focus(Append(ctx, outer), t, h, root)
    ensures Focus(outer, Plug(ctx, t), g, root)
    decreases ctx
  {
    if ctx.Top? {
      g := h;
    } else {
      FocusUp(Append(ctx, outer), t, h, root);
      g := FocusOut(ctx.up, outer, UpTree(ctx, t), ctx.n, root);
    }
  }

  // And going back in.
  lemma {:induction false} FocusIn(ctx: Ctx, outer: Ctx, t: Tree, g: Node?, root: Root) returns (h: Node?)
    requires Focus(outer, Plug(ctx, t), g, root)
    ensures Focus(Append(ctx, outer), t, h, root)
    decreases ctx
  {
    if ctx.Top? {
      h := g;
    } else {
      var k := FocusIn(ctx.up, outer, UpTree(ctx, t), g, root);
      FocusDown(Append(ctx.up, outer), UpTree(ctx, t), k, root);
      h := if ctx.Left? then ctx.n.left else ctx.n.right;
    }
  }

  lemma {:induction false} LineAppend(ctx: Ctx, outer: Ctx, t: Tree)
    ensures Line(Append(ctx, outer), t) == Line(outer, Plug(ctx, t))
    ensures All(Append(ctx, outer), t) == All(outer, Plug(ctx, t))
    decreases ctx
  {
    if !ctx.Top? {
      LineUp(Append(ctx, outer), t);
      LineAppend(ctx.up, outer, UpTree(ctx, t));
    }
  }

  // The rules look at colours only, so an outer node may be exchanged.
  lemma {:induction false} CtxSameColors(ctx: Ctx, outer: Ctx, outer': Ctx, height: nat)
    requires !outer.Top? && outer'.Right? && outer.Right? && outer' == outer.(n := outer'.n)
    requires CtxRedBlack(Append(ctx, outer), height)
    ensures CtxRedBlack(Append(ctx, outer'), height)
    decreases ctx
  {
    if !ctx.Top? {
      CtxSameColors(ctx.up, outer, outer', height + if ctx.c.Black? then 1 else 0);
    }
  }

  // ---------- unlinking a node with at most one child ----------

  // What is left of t when its top node goes.
  ghost function Rest(t: Tree): Tree
    requires t.T?
  {
    if t.l.Leaf? then t.r else t.l
  }

  ghost predicate OneChild(t: Tree) {
    t.T? && (t.l.Leaf? || t.r.Leaf?)
  }

  // The parent, or the root, points past node to its only child.
  method Bypass(node: Node, child: Node?, parent: Node?, root: Root, ghost ctx: Ctx, ghost t: Tree)
    requires Focus(ctx, t, node, root) && OneChild(t) && t.n == node && Rep(Rest(t), child, node) && parent == ParentOf(ctx)
    modifies root, All(ctx, t)
    ensures Focus(ctx, Rest(t), child, root)
  {
    hide CtxNodes, CtxDistinct, Rep, ContextRep;
    NodesAllocated(t);
    CtxAllocated(ctx);
    RestShape(ctx, t);
    hide Distinct, Nodes, Rest, OneChild;
    Adopt(child, parent, Rest(t), node);
    ReplaceChild(parent, node, child, root, ctx);
  }

  lemma RestShape(ctx: Ctx, t: Tree)
    requires Apart(ctx, t) && OneChild(t)
    ensures Apart(ctx, Rest(t)) && t.n in Nodes(t) && t.n !in CtxNodes(ctx)
    ensures TopOf(Rest(t)) <= Nodes(Rest(t)) <= Nodes(t) && HoleOwner(ctx) <= CtxNodes(ctx)
  {
  }

  // A black node leaves its place one black short; a red one had no child.
  lemma RestShort(ctx: Ctx, t: Tree)
    requires Balanced(ctx, t) && OneChild(t)
    ensures t.c.Black? ==> ShortAt(ctx, Rest(t))
    ensures t.c.Red? ==> Rest(t).Leaf? && Balanced(ctx, Rest(t))
  {
    assert RedBlack(t.l) && RedBlack(t.r);
    assert BlackHeight(t.l) == 0 && BlackHeight(t.r) == 0;
  }

  lemma Gap(b: seq<Node>, l: seq<Node>, n: Node, r: seq<Node>, a: seq<Node>)
    ensures RemovedAt(b + (l + [n] + r) + a, n, |b| + |l|, b + (l + r) + a)
  {
    var order, rest := b + (l + [n] + r) + a, b + (l + r) + a;
    var at := |b| + |l|;
    assert order[..at] == b + l;
    assert order[at + 1..] == r + a;
    assert rest == (b + l) + (r + a);
  }

  lemma RestLine(ctx: Ctx, t: Tree)
    requires OneChild(t)
    ensures RemovedAt(Line(ctx, t), t.n, |Before(ctx)| + |InOrder(t.l)|, Line(ctx, Rest(t)))
  {
    hide RemovedAt, Before, After;
    Gap(Before(ctx), InOrder(t.l), t.n, InOrder(t.r), After(ctx));
    assert InOrder(Rest(t)) == InOrder(t.l) + InOrder(t.r);
  }

  // The closing test of the removed colour.
  method Settle(color: Color, child: Node?, parent: Node?, root: Root, ghost ctx: Ctx, ghost t: Tree)
    returns (ghost w: Tree)
    requires Focus(ctx, t, child, root) && parent == ParentOf(ctx)
    requires if color.Black? then ShortAt(ctx, t) else t.Leaf? && Balanced(ctx, t)
    modifies root, All(ctx, t)
    ensures Whole(w, root) && InOrder(w) == Line(ctx, t) && Nodes(w) == All(ctx, t)
  {
    if color == Black {
      w := EraseColor(child, parent, root, ctx, t);
    } else {
      FocusRoot(ctx, t, child, root);
      PlugRedBlack(ctx, t);
      LinePlug(ctx, t);
      w := Plug(ctx, t);
    }
  }

  // ---------- a node with two children ----------

  // The leftmost node of the right subtree, which comes next in order.
  method Successor(node: Node, root: Root, ghost ctx: Ctx, ghost t: Tree)
    returns (next: Node, ghost rel: Ctx, ghost s: Tree)
    requires Focus(ctx, t, node, root) && Balanced(ctx, t) && t.T? && t.r.T?
    ensures Focus(Append(rel, RightHole(t, ctx)), s, next, root) && Balanced(Append(rel, RightHole(t, ctx)), s)
    ensures s.T? && s.l.Leaf? && Plug(rel, s) == t.r && Before(rel) == []
  {
    FocusDown(ctx, t, node, root);
    FocusFields(RightHole(t, ctx), t.r, node.right, root);
    BalancedDown(ctx, t);
    next := node.right;
    ghost var outer := RightHole(t, ctx);
    rel, s := Top, t.r;
    FocusDown(outer, s, next, root);
    FocusFields(LeftHole(s, outer), s.l, next.left, root);
    while next.left != null
      invariant Focus(Append(rel, outer), s, next, root) && Balanced(Append(rel, outer), s)
      invariant s.T? && Plug(rel, s) == t.r && Before(rel) == []
      invariant next.left == null <==> s.l.Leaf?
      decreases s
    {
      hide Focus, Balanced;
      FocusDown(Append(rel, outer), s, next, root);
      BalancedDown(Append(rel, outer), s);
      FocusFields(LeftHole(s, Append(rel, outer)), s.l, next.left, root);
      next := next.left;
      rel, s := LeftHole(s, rel), s.l;
      FocusDown(Append(rel, outer), s, next, root);
      FocusFields(LeftHole(s, Append(rel, outer)), s.l, next.left, root);
    }
  }

  // next, outside the tree, takes the place, links and colour of node.
  ghost function Instead(next: Node, t: Tree): Tree
    requires t.T?
  {
    T(next, t.c, t.l, t.r)
  }

  method TakeLinks(next: Node, node: Node, ghost t: Tree, ghost p: Node?)
    requires t.T? && Distinct(t) && Rep(t, node, p) && next !in Nodes(t)
    modifies next, TopOf(t.l)`parent, TopOf(t.r)`parent
    ensures Rep(Instead(next, t), next, p)
  {
    NodesAllocated(t);
    assert TopOf(t.l) <= Nodes(t.l) && TopOf(t.r) <= Nodes(t.r) && Nodes(t.l) !! Nodes(t.r);
    assert next !in Nodes(t.l) && next !in Nodes(t.r);
    assert Rep(t.l, node.left, node) && Rep(t.r, node.right, node);
    next.parent, next.left, next.right, next.color := node.parent, node.left, node.right, node.color;
    hide Distinct, Nodes;
    Adopt(next.left, next, t.l, node);
    Adopt(next.right, next, t.r, node);
  }

  lemma InsteadShape(ctx: Ctx, t: Tree, next: Node)
    requires t.T? && Apart(ctx, t) && next !in All(ctx, t)
    ensures Apart(ctx, Instead(next, t))
    ensures TopOf(t.l) <= Nodes(t.l) <= Nodes(t) && TopOf(t.r) <= Nodes(t.r) <= Nodes(t)
    ensures HoleOwner(ctx) <= CtxNodes(ctx)
  {
    assert Nodes(Instead(next, t)) == {next} + Nodes(t.l) + Nodes(t.r);
  }

  method TakePlace(next: Node, node: Node, root: Root, ghost ctx: Ctx, ghost t: Tree)
    requires t.T? && Focus(ctx, t, node, root) && next !in All(ctx, t)
    modifies root, next, All(ctx, t)
    ensures Focus(ctx, Instead(next, t), next, root)
  {
    hide Distinct, Nodes, CtxNodes, CtxDistinct;
    CtxAllocated(ctx);
    InsteadShape(ctx, t, next);
    assert node in Nodes(t) by { FocusFields(ctx, t, node, root); TopInside(t); }
    NodesAllocated(Instead(next, t));
    TakeLinks(next, node, t, ParentOf(ctx));
    assert next.parent == ParentOf(ctx);
    assert ContextRep(ctx, node, root);
    ReplaceChild(next.parent, node, next, root, ctx);
  }

  lemma TopInside(t: Tree)
    requires t.T?
    ensures t.n in Nodes(t)
  {
  }

  // ---------- rb_erase ----------

  // Where a node of the tree is.
  lemma {:induction false} Locate(node: Node, h: Node?, root: Root, ctx: Ctx, t: Tree) returns (c: Ctx, s: Tree)
    requires Focus(ctx, t, h, root) && Balanced(ctx, t) && node in Nodes(t)
    ensures Focus(c, s, node, root) && Balanced(c, s) && s.T? && s.n == node && SameNodes(c, s, ctx, t)
    decreases t
  {
    FocusDown(ctx, t, h, root);
    BalancedDown(ctx, t);
    LineDown(ctx, t);
    if node == t.n {
      c, s := ctx, t;
    } else if node in Nodes(t.l) {
      c, s := Locate(node, t.n.left, root, LeftHole(t, ctx), t.l);
    } else {
      c, s := Locate(node, t.n.right, root, RightHole(t, ctx), t.r);
    }
  }

  lemma LocateWhole(node: Node, root: Root, w: Tree) returns (c: Ctx, s: Tree)
    requires Whole(w, root) && node in Nodes(w)
    ensures Focus(c, s, node, root) && Balanced(c, s) && s.T? && s.n == node
    ensures Line(c, s) == InOrder(w) && All(c, s) == Nodes(w)
  {
    c, s := Locate(node, root.node, root, Top, w);
    assert Line(Top, w) == InOrder(w);
  }

  // A node with at most one child: its place goes to the child.
  method EraseSingle(node: Node, child: Node?, root: Root, ghost ctx: Ctx, ghost t: Tree) returns (ghost w: Tree)
    requires Focus(ctx, t, node, root) && Balanced(ctx, t) && OneChild(t) && Rep(Rest(t), child, node)
    modifies root, All(ctx, t)
    ensures Whole(w, root) && InOrder(w) == Line(ctx, Rest(t)) && Nodes(w) == All(ctx, Rest(t))
  {
    var parent, color := node.parent, node.color;
    RestShort(ctx, t);
    Bypass(node, child, parent, root, ctx, t);
    w := Settle(color, child, parent, root, ctx, Rest(t));
  }

  // A tree whose right subtree lost its first node to the top.
  ghost function Promoted(t: Tree, rel: Ctx, s: Tree): Tree
    requires t.T? && s.T?
  {
    T(s.n, t.c, t.l, Plug(rel, Rest(s)))
  }

  // What the successor leaves behind.
  ghost function Remains(t: Tree, rel: Ctx, s: Tree): Tree
    requires t.T? && s.T?
  {
    T(t.n, t.c, t.l, Plug(rel, Rest(s)))
  }

  lemma {:induction false} PlugApart(ctx: Ctx, t: Tree)
    requires Distinct(Plug(ctx, t))
    ensures Apart(ctx, t)
    decreases ctx
  {
    if !ctx.Top? {
      PlugApart(ctx.up, UpTree(ctx, t));
    }
  }

  lemma PromotedNodes(t: Tree, rel: Ctx, s: Tree)
    requires t.T? && s.T? && s.l.Leaf? && Plug(rel, s) == t.r && Distinct(t)
    ensures s.n in Nodes(t) && s.n !in Nodes(Remains(t, rel, s))
    ensures Nodes(Remains(t, rel, s)) + {s.n} == Nodes(t)
    ensures Nodes(Promoted(t, rel, s)) == Nodes(t) - {t.n}
  {
    hide Distinct;
    assert Distinct(t.r) && Nodes(t.l) !! Nodes(t.r) && t.n !in Nodes(t.l) + Nodes(t.r) by { TopDistinct(t); }
    PlugApart(rel, s);
    LinePlug(rel, s);
    LinePlug(rel, Rest(s));
    assert Nodes(s) == {s.n} + Nodes(Rest(s)) && s.n !in Nodes(Rest(s)) by { TopDistinct(s); }
    assert Nodes(Plug(rel, Rest(s))) == Nodes(t.r) - {s.n};
  }

  lemma TopDistinct(t: Tree)
    requires t.T? && Distinct(t)
    ensures Distinct(t.r) && Nodes(t.l) !! Nodes(t.r) && t.n !in Nodes(t.l) + Nodes(t.r)
  {
  }

  lemma PromotedLine(ctx: Ctx, t: Tree, rel: Ctx, s: Tree)
    requires t.T? && s.T? && s.l.Leaf? && Plug(rel, s) == t.r && Before(rel) == []
    ensures RemovedAt(Line(ctx, t), t.n, |Before(ctx)| + |InOrder(t.l)|, Line(ctx, Promoted(t, rel, s)))
  {
    hide RemovedAt, Before, After;
    LinePlug(rel, s);
    LinePlug(rel, Rest(s));
    var l, b, a := InOrder(t.l), Before(ctx), After(ctx);
    Gap(b, l, t.n, InOrder(t.r), a);
    assert InOrder(s) == [s.n] + InOrder(s.r);
    assert InOrder(t.r) == [s.n] + InOrder(Plug(rel, Rest(s)));
    assert l + InOrder(t.r) == l + [s.n] + InOrder(Plug(rel, Rest(s)));
  }

  // The hole that the successor left, around it everything else with the
  // successor in node's place.
  ghost function Around(ctx: Ctx, t: Tree, rel: Ctx, s: Tree): Ctx
    requires t.T? && s.T?
  {
    Append(rel, RightHole(Promoted(t, rel, s), ctx))
  }

  // Seen from the hole, node is replaced by its successor next.
  method MoveUp(next: Node, node: Node, child: Node?, root: Root, ghost ctx: Ctx, ghost t: Tree, ghost rel: Ctx,
                ghost s: Tree)
    requires t.T? && t.n == node && s.T? && s.n == next
    requires Focus(Append(rel, RightHole(t, ctx)), Rest(s), child, root)
    requires next !in All(ctx, Remains(t, rel, s))
    modifies root, next, All(ctx, Remains(t, rel, s))
    ensures Focus(Around(ctx, t, rel, s), Rest(s), child, root)
  {
    hide Focus, Rest, Append, Plug, All, Apart;
    ghost var outer, x := RightHole(t, ctx), Remains(t, rel, s);
    FocusFields(Append(rel, outer), Rest(s), child, root);
    ghost var g := FocusOut(rel, outer, Rest(s), child, root);
    FocusUp(outer, Plug(rel, Rest(s)), g, root);
    TakePlace(next, node, root, ctx, x);
    ghost var y := Promoted(t, rel, s);
    FocusDown(ctx, y, next, root);
    ghost var h := FocusIn(rel, RightHole(y, ctx), Rest(s), next.right, root);
    FocusFields(Around(ctx, t, rel, s), Rest(s), h, root);
  }

  // A node with two children: its successor goes, then takes its place.
  method EraseDouble(node: Node, root: Root, ghost ctx: Ctx, ghost t: Tree) returns (ghost w: Tree)
    requires Focus(ctx, t, node, root) && Balanced(ctx, t) && t.T? && t.n == node && t.l.T? && t.r.T?
    modifies root, All(ctx, t)
    ensures Whole(w, root) && Nodes(w) == All(ctx, t) - {node}
    ensures RemovedAt(Line(ctx, t), node, |Before(ctx)| + |InOrder(t.l)|, InOrder(w))
  {
    hide Balanced, Line, All, Append, Rest, Promoted, Remains, Around, RemovedAt, Whole, ShortAt, OneChild, Plug, Rep;
    var next;
    ghost var rel, s;
    next, rel, s := Successor(node, root, ctx, t);
    ghost var outer := RightHole(t, ctx);
    DoubleNodes(ctx, t, rel, s);
    hide Focus;
    var child, parent, color := next.right, next.parent, next.color;
    DoubleFields(ctx, t, rel, s, next, root);
    DoubleColors(ctx, t, rel, s);
    PromotedLine(ctx, t, rel, s);
    Bypass(next, child, parent, root, Append(rel, outer), s);
    MoveUp(next, node, child, root, ctx, t, rel, s);
    if parent == node {
      parent := next;
    }
    w := Settle(color, child, parent, root, Around(ctx, t, rel, s), Rest(s));
  }

  lemma DoubleNodes(ctx: Ctx, t: Tree, rel: Ctx, s: Tree)
    requires t.T? && Apart(ctx, t)
    requires s.T? && s.l.Leaf? && Plug(rel, s) == t.r && Before(rel) == []
    ensures s.n in All(ctx, t) && s.n !in All(ctx, Remains(t, rel, s))
    ensures All(ctx, Remains(t, rel, s)) + {s.n} == All(ctx, t) == All(Append(rel, RightHole(t, ctx)), s)
    ensures All(Around(ctx, t, rel, s), Rest(s)) == All(ctx, t) - {t.n}
    ensures Line(Around(ctx, t, rel, s), Rest(s)) == Line(ctx, Promoted(t, rel, s))
    ensures t.n !in CtxNodes(rel)
  {
    assert t.n in Nodes(t) && t.n !in Nodes(t.r);
    PromotedNodes(t, rel, s);
    LinePlug(rel, s);
    LineAppend(rel, RightHole(t, ctx), s);
    LineDown(ctx, t);
    LineAppend(rel, RightHole(Promoted(t, rel, s), ctx), Rest(s));
    LineDown(ctx, Promoted(t, rel, s));
  }

  lemma DoubleFields(ctx: Ctx, t: Tree, rel: Ctx, s: Tree, next: Node, root: Root)
    requires t.T? && s.T? && s.l.Leaf? && t.n !in CtxNodes(rel)
    requires Focus(Append(rel, RightHole(t, ctx)), s, next, root)
    ensures s.n == next && OneChild(s) && Rep(Rest(s), next.right, next)
    ensures next.parent == ParentOf(Append(rel, RightHole(t, ctx))) && next.color == s.c
    ensures ParentOf(Around(ctx, t, rel, s)) == if next.parent == t.n then next else next.parent
  {
  }

  lemma DoubleColors(ctx: Ctx, t: Tree, rel: Ctx, s: Tree)
    requires t.T? && s.T? && s.l.Leaf? && Balanced(Append(rel, RightHole(t, ctx)), s)
    ensures if s.c.Black? then ShortAt(Around(ctx, t, rel, s), Rest(s))
            else Rest(s).Leaf? && Balanced(Around(ctx, t, rel, s), Rest(s))
  {
    var outer := RightHole(t, ctx);
    RestShort(Append(rel, outer), s);
    CtxSameColors(rel, outer, RightHole(Promoted(t, rel, s), ctx), BlackHeight(Rest(s)) + if s.c.Black? then 1 else 0);
  }

  // rb_erase(node, root)
  method Erase(node: Node, root: Root, ghost w: Tree) returns (ghost w': Tree, ghost at: nat)
    requires Whole(w, root) && node in Nodes(w)
    modifies root, Nodes(w)
    ensures Whole(w', root) && Nodes(w') == Nodes(w) - {node}
    ensures RemovedAt(InOrder(w), node, at, InOrder(w'))
  {
    hide Focus, Line, All, RemovedAt, Nodes, Rep, RedBlack, CtxRedBlack, Rest;
    ghost var ctx, t := LocateWhole(node, root, w);
    at := |Before(ctx)| + |InOrder(t.l)|;
    FocusDown(ctx, t, node, root);
    FocusFields(LeftHole(t, ctx), t.l, node.left, root);
    FocusFields(RightHole(t, ctx), t.r, node.right, root);
    if node.left == null {
      SingleFacts(ctx, t, node.right, root);
      w' := EraseSingle(node, node.right, root, ctx, t);
    } else if node.right == null {
      SingleFacts(ctx, t, node.left, root);
      w' := EraseSingle(node, node.left, root, ctx, t);
    } else {
      w' := EraseDouble(node, root, ctx, t);
    }
  }

  lemma SingleFacts(ctx: Ctx, t: Tree, child: Node?, root: Root)
    requires OneChild(t) && Focus(ctx, t, t.n, root) && child == (if t.l.Leaf? then t.n.right else t.n.left)
    ensures Rep(Rest(t), child, t.n)
    ensures All(ctx, Rest(t)) == All(ctx, t) - {t.n}
    ensures RemovedAt(Line(ctx, t), t.n, |Before(ctx)| + |InOrder(t.l)|, Line(ctx, Rest(t)))
  {
    RestLine(ctx, t);
  }
}
