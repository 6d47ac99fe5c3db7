// Red-black tree with parent links (src/rbtree.c).
//
// The nodes are heap objects whose link and colour fields the methods below
// overwrite, as the C does.  A ghost value of type Tree records the shape the
// links spell out and a ghost Ctx (a zipper) records everything around the
// node a fix-up loop is looking at; Rep and ContextRep say that the fields
// of the objects agree with these values.
module RbTree {

  datatype Color = Red | Black

  // What the structure embedding a node carries besides the node: an epoll
  // event mask with its user data, or a task number.
  datatype Payload = Event(events: nat, user: nat) | Task(id: nat)

  class Item {
    var payload: Payload

    constructor (payload: Payload)
      ensures this.payload == payload
    {
      this.payload := payload;
    }
  }

  class Node {
    var parent: Node?
    var left: Node?
    var right: Node?
    var color: Color
    const key: int
    const item: Item

    constructor (key: int, item: Item)
      ensures this.key == key && this.item == item
    {
      parent, left, right, color := null, null, null, Red;
      this.key := key;
      this.item := item;
    }
  }

  class Root {
    var node: Node?

    constructor ()
      ensures node == null
    {
      node := null;
    }
  }

  // ---------- shapes ----------

  datatype Tree = Leaf | T(n: Node, c: Color, l: Tree, r: Tree)

  // A tree with a hole: Left(n, c, s, up) has its hole as left child of n,
  // s is the other child, up is what surrounds n.
  datatype Ctx =
    | Top
    | Left(n: Node, c: Color, sib: Tree, up: Ctx)
    | Right(n: Node, c: Color, sib: Tree, up: Ctx)

  ghost function Nodes(t: Tree): set<Node> {
    match t
    case Leaf => {}
    case T(n, _, l, r) => {n} + Nodes(l) + Nodes(r)
  }

  ghost function CtxNodes(ctx: Ctx): set<Node> {
    if ctx.Top? then {} else {ctx.n} + Nodes(ctx.sib) + CtxNodes(ctx.up)
  }

  ghost function ParentOf(ctx: Ctx): Node? {
    if ctx.Top? then null else ctx.n
  }

  ghost function Plug(ctx: Ctx, t: Tree): Tree {
    match ctx
    case Top => t
    case Left(n, c, s, up) => Plug(up, T(n, c, t, s))
    case Right(n, c, s, up) => Plug(up, T(n, c, s, t))
  }

  ghost predicate Distinct(t: Tree) {
    t.T? ==>
      && t.n !in Nodes(t.l) && t.n !in Nodes(t.r) && Nodes(t.l) !! Nodes(t.r)
      && Distinct(t.l) && Distinct(t.r)
  }

  ghost predicate CtxDistinct(ctx: Ctx) {
    !ctx.Top? ==>
      && ctx.n !in Nodes(ctx.sib) && ctx.n !in CtxNodes(ctx.up)
      && Nodes(ctx.sib) !! CtxNodes(ctx.up)
      && Distinct(ctx.sib) && CtxDistinct(ctx.up)
  }

  ghost predicate Apart(ctx: Ctx, t: Tree) {
    CtxDistinct(ctx) && Distinct(t) && CtxNodes(ctx) !! Nodes(t)
  }

  // The objects reached from h, whose parent link is p, spell out t.
  ghost predicate Rep(t: Tree, h: Node?, p: Node?)
    reads Nodes(t)
  {
    match t
    case Leaf => h == null
    case T(n, c, l, r) =>
      && h == n && n.parent == p && n.color == c
      && Rep(l, n.left, n) && Rep(r, n.right, n)
  }

  // The objects around the hole spell out ctx; the hole's link holds h.
  ghost predicate ContextRep(ctx: Ctx, h: Node?, root: Root)
    reads root, CtxNodes(ctx)
  {
    match ctx
    case Top => root.node == h
    case Left(n, c, s, up) =>
      && n.left == h && n.color == c && n.parent == ParentOf(up)
      && Rep(s, n.right, n) && ContextRep(up, n, root)
    case Right(n, c, s, up) =>
      && n.right == h && n.color == c && n.parent == ParentOf(up)
      && Rep(s, n.left, n) && ContextRep(up, n, root)
  }

  // Focus: the whole structure hanging off root is Plug(ctx, t), seen from
  // the position of t, whose topmost object is h.
  ghost predicate Focus(ctx: Ctx, t: Tree, h: Node?, root: Root)
    reads root, CtxNodes(ctx), Nodes(t)
  {
    Apart(ctx, t) && Rep(t, h, ParentOf(ctx)) && ContextRep(ctx, h, root)
  }

  // ---------- rotations ----------

  ghost function RotL(t: Tree): Tree
    requires t.T? && t.r.T?
  {
    T(t.r.n, t.r.c, T(t.n, t.c, t.l, t.r.l), t.r.r)
  }

  ghost function RotR(t: Tree): Tree
    requires t.T? && t.l.T?
  {
    T(t.l.n, t.l.c, t.l.l, T(t.n, t.c, t.l.r, t.r))
  }

  lemma {:induction false} NodesAllocated(t: Tree)
    ensures forall o | o in Nodes(t) :: allocated(o)
  {
    if t.T? {
      NodesAllocated(t.l);
      NodesAllocated(t.r);
    }
  }

  // The top two levels of a tree, spelled out.
  lemma RotLShape(t: Tree)
    requires t.T? && t.r.T?
    ensures Nodes(t) == {t.n, t.r.n} + Nodes(t.l) + Nodes(t.r.l) + Nodes(t.r.r)
    ensures Nodes(RotL(t)) == Nodes(t)
    ensures Distinct(t) ==> Distinct(RotL(t)) && Distinct(t.r) && Distinct(t.r.l)
    ensures Distinct(t) ==> Nodes(t.l) !! Nodes(t.r.l) !! Nodes(t.r.r) !! {t.n} !! {t.r.n}
  {
    assert Nodes(t.r) == {t.r.n} + Nodes(t.r.l) + Nodes(t.r.r);
    var x := T(t.n, t.c, t.l, t.r.l);
    assert Nodes(x) == {t.n} + Nodes(t.l) + Nodes(t.r.l);
    if Distinct(t) {
      assert Distinct(t.r) && Distinct(x);
    }
  }

  lemma RotRShape(t: Tree)
    requires t.T? && t.l.T?
    ensures Nodes(t) == {t.n, t.l.n} + Nodes(t.l.l) + Nodes(t.l.r) + Nodes(t.r)
    ensures Nodes(RotR(t)) == Nodes(t)
    ensures Distinct(t) ==> Distinct(RotR(t))
  {
    assert Nodes(t.l) == {t.l.n} + Nodes(t.l.l) + Nodes(t.l.r);
    var x := T(t.n, t.c, t.l.r, t.r);
    assert Nodes(x) == {t.n} + Nodes(t.l.r) + Nodes(t.r);
    if Distinct(t) {
      assert Distinct(t.l) && Distinct(x);
    }
  }

  ghost function HoleOwner(ctx: Ctx): set<Node> {
    if ctx.Top? then {} else {ctx.n}
  }

  // The tail of both rotations: whatever pointed at node now points at next.
  method ReplaceChild(parent: Node?, node: Node, next: Node?, root: Root, ghost ctx: Ctx)
    requires parent == ParentOf(ctx)
    requires CtxDistinct(ctx) && node !in CtxNodes(ctx) && ContextRep(ctx, node, root)
    modifies root, HoleOwner(ctx)`left, HoleOwner(ctx)`right
    ensures ContextRep(ctx, next, root)
  {
    if parent != null {
      if node == parent.left {
        parent.left := next;
      } else {
        parent.right := next;
      }
    } else {
      root.node := next;
    }
  }

  ghost function TopOf(t: Tree): set<Node> {
    if t.Leaf? then {} else {t.n}
  }

  // rb_set_parent behind its null test.
  method Adopt(child: Node?, p: Node?, ghost b: Tree, ghost q: Node?)
    requires Distinct(b) && Rep(b, child, q)
    modifies TopOf(b)`parent
    ensures Rep(b, child, p)
  {
    if child != null {
      child.parent := p;
    }
  }

  // The links inside the rotated subtree.
  method RaiseRight(node: Node, right: Node, ghost t: Tree, ghost p: Node?)
    requires t.T? && t.r.T? && right == t.r.n
    requires Distinct(t) && Rep(t, node, p)
    modifies {node, right}`left, {node, right}`right, {node, right}`parent, TopOf(t.r.l)`parent
    ensures Rep(RotL(t), right, p)
  {
    RotLShape(t);
    var parent := node.parent;
    assert Rep(t.r, node.right, node);
    assert Rep(t.r.l, right.left, right);
    assert TopOf(t.r.l) <= Nodes(t.r.l);
    assert node !in Nodes(t.l) && right !in Nodes(t.l) && TopOf(t.r.l) !! Nodes(t.l);
    assert node !in Nodes(t.r.r) && right !in Nodes(t.r.r) && TopOf(t.r.l) !! Nodes(t.r.r);
    assert Rep(t.r.r, right.right, right);
    NodesAllocated(t.l);
    NodesAllocated(t.r.r);
    hide Distinct, Nodes;

    node.right := right.left;
    Adopt(node.right, node, t.r.l, right);
    right.left := node;
    right.parent := parent;
    node.parent := right;
    assert Rep(t.l, node.left, node);
    assert Rep(t.r.l, node.right, node);
    assert Rep(t.r.r, right.right, right);
    assert Rep(T(t.n, t.c, t.l, t.r.l), node, right);
  }

  method RaiseLeft(node: Node, left: Node, ghost t: Tree, ghost p: Node?)
    requires t.T? && t.l.T? && left == t.l.n
    requires Distinct(t) && Rep(t, node, p)
    modifies {node, left}`left, {node, left}`right, {node, left}`parent, TopOf(t.l.r)`parent
    ensures Rep(RotR(t), left, p)
  {
    RotRShape(t);
    var parent := node.parent;
    assert Rep(t.l, node.left, node);
    assert Rep(t.l.r, left.right, left);
    assert TopOf(t.l.r) <= Nodes(t.l.r);
    assert node !in Nodes(t.l.l) && left !in Nodes(t.l.l) && TopOf(t.l.r) !! Nodes(t.l.l);
    assert node !in Nodes(t.r) && left !in Nodes(t.r) && TopOf(t.l.r) !! Nodes(t.r);
    assert Rep(t.l.l, left.left, left);
    NodesAllocated(t.l.l);
    NodesAllocated(t.r);
    hide Distinct, Nodes;
    node.left := left.right;
    Adopt(node.left, node, t.l.r, left);
    left.right := node;
    left.parent := parent;
    node.parent := left;
    assert Rep(t.l.l, left.left, left);
    assert Rep(t.l.r, node.left, node);
    assert Rep(t.r, node.right, node);
    assert Rep(T(t.n, t.c, t.l.r, t.r), node, left);
  }

  lemma {:induction false} CtxAllocated(ctx: Ctx)
    ensures forall o | o in CtxNodes(ctx) :: allocated(o)
  {
    if !ctx.Top? {
      NodesAllocated(ctx.sib);
      CtxAllocated(ctx.up);
    }
  }

  method RotateLeft(node: Node, root: Root, ghost ctx: Ctx, ghost t: Tree)
    requires t.T? && t.r.T? && Focus(ctx, t, node, root)
    modifies root, CtxNodes(ctx), Nodes(t)
    ensures Focus(ctx, RotL(t), t.r.n, root)
  {
    RotLShape(t);
    NodesAllocated(t);
    CtxAllocated(ctx);
    var right, parent := node.right, node.parent;
    assert Rep(t.r, right, node);
    assert HoleOwner(ctx) <= CtxNodes(ctx);
    assert TopOf(t.r.l) <= Nodes(t.r.l);
    hide Distinct, Nodes, CtxNodes, CtxDistinct;
    RaiseRight(node, right, t, parent);
    ReplaceChild(parent, node, right, root, ctx);
  }

  method RotateRight(node: Node, root: Root, ghost ctx: Ctx, ghost t: Tree)
    requires t.T? && t.l.T? && Focus(ctx, t, node, root)
    modifies root, CtxNodes(ctx), Nodes(t)
    ensures Focus(ctx, RotR(t), t.l.n, root)
  {
    RotRShape(t);
    NodesAllocated(t);
    CtxAllocated(ctx);
    var left, parent := node.left, node.parent;
    assert Rep(t.l, left, node);
    assert HoleOwner(ctx) <= CtxNodes(ctx);
    assert TopOf(t.l.r) <= Nodes(t.l.r);
    hide Distinct, Nodes, CtxNodes, CtxDistinct;
    RaiseLeft(node, left, t, parent);
    ReplaceChild(parent, node, left, root, ctx);
  }

  ghost function Paint(t: Tree, c: Color): Tree
    requires t.T?
  {
    T(t.n, c, t.l, t.r)
  }

  // rb_set_color, rb_set_red, rb_set_black.
  method SetColor(node: Node, color: Color, root: Root, ghost ctx: Ctx, ghost t: Tree)
    requires t.T? && Focus(ctx, t, node, root)
    modifies node`color
    ensures Focus(ctx, Paint(t, color), node, root)
  {
    NodesAllocated(t.l);
    NodesAllocated(t.r);
    CtxAllocated(ctx);
    assert Nodes(Paint(t, color)) == Nodes(t);
    node.color := color;
    assert Rep(t.l, node.left, node) && Rep(t.r, node.right, node);
  }

  // ---------- moving the focus ----------

  ghost function UpTree(ctx: Ctx, t: Tree): (up: Tree)
    requires !ctx.Top?
    ensures up.T? && up.n == ctx.n && up.c == ctx.c
  {
    if ctx.Left? then T(ctx.n, ctx.c, t, ctx.sib) else T(ctx.n, ctx.c, ctx.sib, t)
  }

  ghost function LeftHole(t: Tree, ctx: Ctx): Ctx
    requires t.T?
  {
    Left(t.n, t.c, t.r, ctx)
  }

  ghost function RightHole(t: Tree, ctx: Ctx): Ctx
    requires t.T?
  {
    Right(t.n, t.c, t.l, ctx)
  }

  lemma FocusUp(ctx: Ctx, t: Tree, h: Node?, root: Root)
    requires !ctx.Top? && Focus(ctx, t, h, root)
    ensures Focus(ctx.up, UpTree(ctx, t), ctx.n, root)
  {
  }

  lemma FocusDown(ctx: Ctx, t: Tree, h: Node?, root: Root)
    requires t.T? && Focus(ctx, t, h, root)
    ensures h == t.n
    ensures Focus(LeftHole(t, ctx), t.l, t.n.left, root)
    ensures Focus(RightHole(t, ctx), t.r, t.n.right, root)
  {
  }

  lemma {:induction false} RootInContext(ctx: Ctx, h: Node?, root: Root)
    requires ContextRep(ctx, h, root) && !ctx.Top?
    ensures root.node in CtxNodes(ctx)
  {
    if !ctx.up.Top? {
      RootInContext(ctx.up, ctx.n, root);
    }
  }

  // The view from the other child of the focus's parent.
  ghost function Beside(ctx: Ctx, t: Tree): Ctx
    requires !ctx.Top?
  {
    if ctx.Left? then Right(ctx.n, ctx.c, t, ctx.up) else Left(ctx.n, ctx.c, t, ctx.up)
  }

  lemma FocusAcross(ctx: Ctx, t: Tree, h: Node?, root: Root)
    requires !ctx.Top? && Focus(ctx, t, h, root)
    ensures Focus(Beside(ctx, t), ctx.sib, if ctx.Left? then ctx.n.right else ctx.n.left, root)
  {
    FocusUp(ctx, t, h, root);
    FocusDown(ctx.up, UpTree(ctx, t), ctx.n, root);
  }

  // What a focus says about the fields next to it.
  lemma FocusFields(ctx: Ctx, t: Tree, h: Node?, root: Root)
    requires Focus(ctx, t, h, root)
    ensures h == null <==> t.Leaf?
    ensures t.T? ==> h == t.n && h.parent == ParentOf(ctx) && h.color == t.c
    ensures !ctx.Top? ==> ctx.n.parent == ParentOf(ctx.up) && ctx.n.color == ctx.c
    ensures ctx.Left? ==> ctx.n.left == h && (t.T? || ctx.sib.T? ==> ctx.n.right != h)
    ensures ctx.Right? ==> ctx.n.right == h && (t.T? || ctx.sib.T? ==> ctx.n.left != h)
    ensures ctx.Top? <==> root.node == h
  {
    if !ctx.Top? {
      RootInContext(ctx, h, root);
    }
  }

  // ---------- what the tree means ----------

  ghost function InOrder(t: Tree): seq<Node> {
    match t
    case Leaf => []
    case T(n, _, l, r) => InOrder(l) + [n] + InOrder(r)
  }

  ghost function Before(ctx: Ctx): seq<Node> {
    match ctx
    case Top => []
    case Left(n, _, s, up) => Before(up)
    case Right(n, _, s, up) => Before(up) + InOrder(s) + [n]
  }

  ghost function After(ctx: Ctx): seq<Node> {
    match ctx
    case Top => []
    case Left(n, _, s, up) => [n] + InOrder(s) + After(up)
    case Right(n, _, s, up) => After(up)
  }

  // The nodes left to right, seen from a focus; and as a set.
  ghost function Line(ctx: Ctx, t: Tree): seq<Node> {
    Before(ctx) + InOrder(t) + After(ctx)
  }

  ghost function All(ctx: Ctx, t: Tree): set<Node> {
    CtxNodes(ctx) + Nodes(t)
  }

  lemma Reassociate(b: seq<Node>, x: seq<Node>, n: Node, y: seq<Node>, a: seq<Node>)
    ensures b + x + ([n] + y + a) == b + (x + [n] + y) + a == (b + x + [n]) + y + a
  {
  }

  lemma LineUp(ctx: Ctx, t: Tree)
    requires !ctx.Top?
    ensures Line(ctx.up, UpTree(ctx, t)) == Line(ctx, t)
    ensures All(ctx.up, UpTree(ctx, t)) == All(ctx, t)
  {
    var b, a := Before(ctx.up), After(ctx.up);
    if ctx.Left? {
      Reassociate(b, InOrder(t), ctx.n, InOrder(ctx.sib), a);
    } else {
      Reassociate(b, InOrder(ctx.sib), ctx.n, InOrder(t), a);
    }
  }

  lemma LineDown(ctx: Ctx, t: Tree)
    requires t.T?
    ensures Line(LeftHole(t, ctx), t.l) == Line(RightHole(t, ctx), t.r) == Line(ctx, t)
    ensures All(LeftHole(t, ctx), t.l) == All(RightHole(t, ctx), t.r) == All(ctx, t)
  {
    LineUp(LeftHole(t, ctx), t.l);
    LineUp(RightHole(t, ctx), t.r);
  }

  lemma {:induction false} LinePlug(ctx: Ctx, t: Tree)
    ensures InOrder(Plug(ctx, t)) == Line(ctx, t)
    ensures Nodes(Plug(ctx, t)) == All(ctx, t)
    decreases ctx
  {
    if !ctx.Top? {
      LineUp(ctx, t);
      LinePlug(ctx.up, UpTree(ctx, t));
    }
  }

  lemma LineSwap(ctx: Ctx, t: Tree, t': Tree)
    requires InOrder(t) == InOrder(t') && Nodes(t) == Nodes(t')
    ensures Line(ctx, t) == Line(ctx, t') && All(ctx, t) == All(ctx, t')
  {
  }

  lemma Regroup(x: seq<Node>, m: Node, y: seq<Node>, n: Node, z: seq<Node>)
    ensures x + [m] + (y + [n] + z) == (x + [m] + y) + [n] + z
  {
  }

  lemma RotLOrder(t: Tree)
    requires t.T? && t.r.T?
    ensures InOrder(RotL(t)) == InOrder(t)
  {
    Regroup(InOrder(t.l), t.n, InOrder(t.r.l), t.r.n, InOrder(t.r.r));
  }

  lemma RotROrder(t: Tree)
    requires t.T? && t.l.T?
    ensures InOrder(RotR(t)) == InOrder(t)
  {
    Regroup(InOrder(t.l.l), t.l.n, InOrder(t.l.r), t.n, InOrder(t.r));
  }

  ghost function BlackHeight(t: Tree): nat {
    if t.Leaf? then 0 else BlackHeight(t.l) + if t.c.Black? then 1 else 0
  }

  ghost predicate IsBlack(t: Tree) {
    t.T? ==> t.c.Black?
  }

  // No red node has a red child, and every path to a leaf meets the same
  // number of black nodes.
  ghost predicate RedBlack(t: Tree) {
    t.T? ==>
      && RedBlack(t.l) && RedBlack(t.r) && BlackHeight(t.l) == BlackHeight(t.r)
      && (t.c.Red? ==> IsBlack(t.l) && IsBlack(t.r))
  }

  // Everything around the hole obeys the rules once a tree of black height
  // height fills the hole; the outermost node is black.
  ghost predicate CtxRedBlack(ctx: Ctx, height: nat)
    decreases ctx
  {
    !ctx.Top? ==>
      && RedBlack(ctx.sib) && BlackHeight(ctx.sib) == height
      && (ctx.c.Red? ==> IsBlack(ctx.sib) && !ctx.up.Top? && ctx.up.c.Black?)
      && CtxRedBlack(ctx.up, height + if ctx.c.Black? then 1 else 0)
  }

  // Seen from the focus: the tree is a red-black tree with a black root.
  ghost predicate Balanced(ctx: Ctx, t: Tree) {
    && RedBlack(t) && CtxRedBlack(ctx, BlackHeight(t))
    && (IsBlack(t) || (!ctx.Top? && ctx.c.Black?))
  }

  lemma BalancedUp(ctx: Ctx, t: Tree)
    requires !ctx.Top?
    ensures Balanced(ctx, t) <==> Balanced(ctx.up, UpTree(ctx, t))
  {
  }

  lemma BalancedDown(ctx: Ctx, t: Tree)
    requires t.T? && Balanced(ctx, t)
    ensures Balanced(LeftHole(t, ctx), t.l) && Balanced(RightHole(t, ctx), t.r)
  {
  }

  lemma {:induction false} PlugRedBlack(ctx: Ctx, t: Tree)
    ensures Balanced(ctx, t) <==> RedBlack(Plug(ctx, t)) && IsBlack(Plug(ctx, t))
    decreases ctx
  {
    if !ctx.Top? {
      BalancedUp(ctx, t);
      PlugRedBlack(ctx.up, UpTree(ctx, t));
    }
  }

  ghost function Depth(ctx: Ctx): nat {
    if ctx.Top? then 0 else 1 + Depth(ctx.up)
  }

  // The whole tree hanging off root is t, and t is a red-black tree with a
  // black root.
  ghost predicate Whole(t: Tree, root: Root)
    reads root, Nodes(t)
  {
    Focus(Top, t, root.node, root) && RedBlack(t) && IsBlack(t)
  }

  lemma {:induction false} FocusRoot(ctx: Ctx, t: Tree, h: Node?, root: Root)
    requires Focus(ctx, t, h, root)
    ensures Focus(Top, Plug(ctx, t), root.node, root)
    decreases ctx
  {
    if !ctx.Top? {
      FocusUp(ctx, t, h, root);
      FocusRoot(ctx.up, UpTree(ctx, t), ctx.n, root);
    }
  }

  // ---------- insertion ----------

  // A red uncle: the grandparent's red moves up, its children turn black.
  ghost function PushRed(ctx: Ctx, t: Tree): (g: Tree)
    requires !ctx.Top? && !ctx.up.Top? && ctx.up.sib.T?
    ensures g.T? && g.c.Red? && g.n == ctx.up.n
  {
    Paint(UpTree(ctx.up.(sib := Paint(ctx.up.sib, Black)), Paint(UpTree(ctx, t), Black)), Red)
  }

  lemma PushRedKeeps(ctx: Ctx, t: Tree)
    requires !ctx.Top? && ctx.c.Red?
    requires RedBlack(t) && CtxRedBlack(ctx, BlackHeight(t))
    requires !ctx.up.Top? && !IsBlack(ctx.up.sib)
    ensures RedBlack(PushRed(ctx, t)) && CtxRedBlack(ctx.up.up, BlackHeight(PushRed(ctx, t)))
  {
  }

  // A black uncle, the red pair leaning to the left: one rotation ends it.
  ghost function LiftLeft(up: Ctx, p: Tree): (w: Tree)
    requires up.Left? && p.T?
    ensures w.T?
  {
    RotR(T(up.n, Red, Paint(p, Black), up.sib))
  }

  lemma LiftLeftKeeps(up: Ctx, p: Tree)
    requires up.Left? && up.c.Black? && IsBlack(up.sib)
    requires p.T? && p.c.Red? && p.l.T? && p.l.c.Red? && RedBlack(p.l) && RedBlack(p.r) && IsBlack(p.r)
    requires BlackHeight(p.l) == BlackHeight(p.r) && CtxRedBlack(up, BlackHeight(p.l))
    ensures var w := LiftLeft(up, p);
            RedBlack(w.l) && w.l == p.l && CtxRedBlack(LeftHole(w, up.up), BlackHeight(w.l))
  {
  }

  ghost function LiftRight(up: Ctx, p: Tree): (w: Tree)
    requires up.Right? && p.T?
    ensures w.T?
  {
    RotL(T(up.n, Red, up.sib, Paint(p, Black)))
  }

  lemma LiftRightKeeps(up: Ctx, p: Tree)
    requires up.Right? && up.c.Black? && IsBlack(up.sib)
    requires p.T? && p.c.Red? && p.r.T? && p.r.c.Red? && RedBlack(p.r) && RedBlack(p.l) && IsBlack(p.l)
    requires BlackHeight(p.l) == BlackHeight(p.r) && CtxRedBlack(up, BlackHeight(p.l))
    ensures var w := LiftRight(up, p);
            RedBlack(w.r) && w.r == p.r && CtxRedBlack(RightHole(w, up.up), BlackHeight(w.r))
  {
  }

  lemma PushRedLine(ctx: Ctx, t: Tree)
    requires !ctx.Top? && !ctx.up.Top? && ctx.up.sib.T?
    ensures Line(ctx.up.up, PushRed(ctx, t)) == Line(ctx, t)
    ensures All(ctx.up.up, PushRed(ctx, t)) == All(ctx, t)
  {
    LineUp(ctx, t);
    LineUp(ctx.up, UpTree(ctx, t));
    var p, u := UpTree(ctx, t), ctx.up.sib;
    assert InOrder(Paint(p, Black)) == InOrder(p) && Nodes(Paint(p, Black)) == Nodes(p);
    assert InOrder(Paint(u, Black)) == InOrder(u) && Nodes(Paint(u, Black)) == Nodes(u);
    LineSwap(ctx.up.up, UpTree(ctx.up, p), PushRed(ctx, t));
  }

  // What the loop reads before it picks a case.
  lemma Relatives(ctx: Ctx, t: Tree, node: Node?, root: Root)
    requires Focus(ctx, t, node, root) && t.T?
    requires !ctx.Top? && ctx.c.Red? && CtxRedBlack(ctx, BlackHeight(t))
    ensures !ctx.up.Top? && ctx.up.c.Black? && ctx.n.parent == ctx.up.n
    ensures ctx.up.Left? <==> ctx.n == ctx.up.n.left
    ensures var u := if ctx.up.Left? then ctx.up.n.right else ctx.up.n.left;
            && (u == null <==> ctx.up.sib.Leaf?)
            && (u != null ==> u == ctx.up.sib.n && u.color == ctx.up.sib.c && u in All(ctx, t))
    ensures {ctx.n, ctx.up.n} <= All(ctx, t)
    ensures Depth(ctx) == 2 + Depth(ctx.up.up)
  {
    FocusUp(ctx, t, node, root);
    FocusFields(ctx.up, UpTree(ctx, t), ctx.n, root);
  }

  // The uncle case of both mirror images.
  method Recolor(uncle: Node, parent: Node, gparent: Node, root: Root, ghost node: Node, ghost ctx: Ctx, ghost t: Tree)
    requires Focus(ctx, t, node, root) && !ctx.Top? && !ctx.up.Top? && ctx.up.sib.T?
    requires parent == ctx.n && gparent == ctx.up.n && uncle == ctx.up.sib.n
    modifies {uncle, parent, gparent}`color
    ensures Focus(ctx.up.up, PushRed(ctx, t), gparent, root)
  {
    ghost var up, p := ctx.up, UpTree(ctx, t);
    FocusUp(ctx, t, node, root);
    FocusFields(up, p, parent, root);
    FocusAcross(up, p, parent, root);
    hide Focus;
    SetColor(uncle, Black, root, Beside(up, p), up.sib);
    ghost var u := Paint(up.sib, Black);
    FocusAcross(Beside(up, p), u, uncle, root);
    up := up.(sib := u);
    SetColor(parent, Black, root, up, p);
    FocusUp(up, Paint(p, Black), parent, root);
    SetColor(gparent, Red, root, up.up, UpTree(up, Paint(p, Black)));
  }

  // The inner grandchild is rotated outwards first.
  ghost function Lean(ctx: Ctx, t: Tree): (p: Tree)
    requires t.T? && !ctx.Top? && !ctx.up.Top?
    ensures p.T?
  {
    var p := UpTree(ctx, t);
    if ctx.up.Left? && ctx.Right? then RotL(p)
    else if ctx.up.Right? && ctx.Left? then RotR(p)
    else p
  }

  lemma LeanKeeps(ctx: Ctx, t: Tree)
    requires t.T? && !ctx.Top? && !ctx.up.Top?
    ensures Lean(ctx, t).T?
    ensures Line(ctx.up, Lean(ctx, t)) == Line(ctx, t) && All(ctx.up, Lean(ctx, t)) == All(ctx, t)
    ensures Line(ctx.up.up, UpTree(ctx.up, Lean(ctx, t))) == Line(ctx, t)
    ensures All(ctx.up.up, UpTree(ctx.up, Lean(ctx, t))) == All(ctx, t)
  {
    var p := UpTree(ctx, t);
    LineUp(ctx, t);
    if ctx.up.Left? && ctx.Right? {
      RotLOrder(p);
      RotLShape(p);
    } else if ctx.up.Right? && ctx.Left? {
      RotROrder(p);
      RotRShape(p);
    }
    LineSwap(ctx.up, p, Lean(ctx, t));
    LineUp(ctx.up, Lean(ctx, t));
  }

  lemma FixLeftKeeps(ctx: Ctx, t: Tree)
    requires t.T? && t.c.Red? && !ctx.Top? && ctx.c.Red? && ctx.up.Left?
    requires RedBlack(t) && CtxRedBlack(ctx, BlackHeight(t)) && IsBlack(ctx.up.sib)
    ensures var w := LiftLeft(ctx.up, Lean(ctx, t)); var c := LeftHole(w, ctx.up.up);
            && w.l.T? && w.l.c.Red? && RedBlack(w.l) && CtxRedBlack(c, BlackHeight(w.l))
            && Line(c, w.l) == Line(ctx, t) && All(c, w.l) == All(ctx, t)
  {
    LeanKeeps(ctx, t);
    var up, p := ctx.up, Lean(ctx, t);
    var g, g' := UpTree(up, p), T(up.n, Red, Paint(p, Black), up.sib);
    var w := LiftLeft(up, p);
    assert w == RotR(g') && InOrder(g') == InOrder(g) && Nodes(g') == Nodes(g);
    RotROrder(g');
    RotRShape(g');
    LineSwap(up.up, g, w);
    LineDown(up.up, w);
    LiftLeftKeeps(up, p);
  }

  // The rotation case when the parent is a left child.  Afterwards the
  // focus is again on a red node, now below a black one.
  method FixLeft(n: Node, p: Node, gparent: Node, root: Root, ghost ctx: Ctx, ghost t: Tree) returns (node: Node)
    requires Focus(ctx, t, n, root) && t.T? && !ctx.Top? && ctx.up.Left?
    requires p == ctx.n && gparent == ctx.up.n
    modifies root, All(ctx, t)
    ensures var w := LiftLeft(ctx.up, Lean(ctx, t));
            Focus(LeftHole(w, ctx.up.up), w.l, node, root)
  {
    node := n;
    var parent := p;
    LeanKeeps(ctx, t);
    FocusFields(ctx, t, node, root);
    FocusUp(ctx, t, node, root);
    LineUp(ctx, t);
    ghost var up, pt := ctx.up, UpTree(ctx, t);
    assert {node, parent, gparent} <= All(ctx, t);
    hide Focus, Nodes, CtxNodes, InOrder, Line;
    if parent.right == node {
      RotateLeft(parent, root, up, pt);
      pt := RotL(pt);
      FocusDown(up, pt, node, root);
      node, parent := parent, node;
    }
    SetColor(parent, Black, root, up, pt);
    FocusUp(up, Paint(pt, Black), parent, root);
    ghost var g := UpTree(up, Paint(pt, Black));
    SetColor(gparent, Red, root, up.up, g);
    RotateRight(gparent, root, up.up, Paint(g, Red));
    FocusDown(up.up, RotR(Paint(g, Red)), parent, root);
  }

  lemma FixRightKeeps(ctx: Ctx, t: Tree)
    requires t.T? && t.c.Red? && !ctx.Top? && ctx.c.Red? && ctx.up.Right?
    requires RedBlack(t) && CtxRedBlack(ctx, BlackHeight(t)) && IsBlack(ctx.up.sib)
    ensures var w := LiftRight(ctx.up, Lean(ctx, t)); var c := RightHole(w, ctx.up.up);
            && w.r.T? && w.r.c.Red? && RedBlack(w.r) && CtxRedBlack(c, BlackHeight(w.r))
            && Line(c, w.r) == Line(ctx, t) && All(c, w.r) == All(ctx, t)
  {
    LeanKeeps(ctx, t);
    var up, p := ctx.up, Lean(ctx, t);
    var g, g' := UpTree(up, p), T(up.n, Red, up.sib, Paint(p, Black));
    var w := LiftRight(up, p);
    assert w == RotL(g') && InOrder(g') == InOrder(g) && Nodes(g') == Nodes(g);
    RotLOrder(g');
    RotLShape(g');
    LineSwap(up.up, g, w);
    LineDown(up.up, w);
    LiftRightKeeps(up, p);
  }

  // The rotation case when the parent is a right child.  Afterwards the
  // focus is again on a red node, now below a black one.
  method FixRight(n: Node, p: Node, gparent: Node, root: Root, ghost ctx: Ctx, ghost t: Tree) returns (node: Node)
    requires Focus(ctx, t, n, root) && t.T? && !ctx.Top? && ctx.up.Right?
    requires p == ctx.n && gparent == ctx.up.n
    modifies root, All(ctx, t)
    ensures var w := LiftRight(ctx.up, Lean(ctx, t));
            Focus(RightHole(w, ctx.up.up), w.r, node, root)
  {
    node := n;
    var parent := p;
    LeanKeeps(ctx, t);
    FocusFields(ctx, t, node, root);
    FocusUp(ctx, t, node, root);
    LineUp(ctx, t);
    ghost var up, pt := ctx.up, UpTree(ctx, t);
    assert {node, parent, gparent} <= All(ctx, t);
    hide Focus, Nodes, CtxNodes, InOrder, Line;
    if parent.left == node {
      RotateRight(parent, root, up, pt);
      pt := RotR(pt);
      FocusDown(up, pt, node, root);
      node, parent := parent, node;
    }
    SetColor(parent, Black, root, up, pt);
    FocusUp(up, Paint(pt, Black), parent, root);
    ghost var g := UpTree(up, Paint(pt, Black));
    SetColor(gparent, Red, root, up.up, g);
    RotateLeft(gparent, root, up.up, Paint(g, Red));
    FocusDown(up.up, RotL(Paint(g, Red)), parent, root);
  }

  // The loop invariant of rb_insert_color: a red node whose subtree and
  // surroundings obey the rules, except that its parent may be red as well.
  ghost predicate RedAt(ctx: Ctx, t: Tree) {
    t.T? && t.c.Red? && RedBlack(t) && CtxRedBlack(ctx, BlackHeight(t))
  }

  // Two views of the same nodes in the same order.
  ghost predicate SameNodes(ctx: Ctx, t: Tree, ctx': Ctx, t': Tree) {
    Line(ctx, t) == Line(ctx', t') && All(ctx, t) == All(ctx', t')
  }

  // One turn of the loop in rb_insert_color.
  method InsertStep(n: Node, root: Root, ghost ctx: Ctx, ghost t: Tree)
    returns (node: Node, ghost ctx': Ctx, ghost t': Tree)
    requires Focus(ctx, t, n, root) && RedAt(ctx, t)
    requires n.parent != null && n.parent == ctx.n && ctx.n.color == ctx.c == Red
    modifies root, All(ctx, t)
    ensures Focus(ctx', t', node, root) && RedAt(ctx', t') && SameNodes(ctx', t', ctx, t)
    ensures Depth(ctx') < Depth(ctx)
  {
    var parent: Node := n.parent;
    var gparent: Node? := parent.parent;
    Relatives(ctx, t, n, root);
    hide Focus, RedBlack, BlackHeight, CtxRedBlack, Line, PushRed, Lean, Nodes, LiftLeft, LiftRight, InOrder, CtxNodes;
    if parent == gparent.left {
      var uncle := gparent.right;
      if uncle != null && uncle.color == Red {
        PushRedKeeps(ctx, t);
        PushRedLine(ctx, t);
        Recolor(uncle, parent, gparent, root, n, ctx, t);
        return gparent, ctx.up.up, PushRed(ctx, t);
      }
      FixLeftKeeps(ctx, t);
      node := FixLeft(n, parent, gparent, root, ctx, t);
      t' := LiftLeft(ctx.up, Lean(ctx, t));
      ctx', t' := LeftHole(t', ctx.up.up), t'.l;
    } else {
      var uncle := gparent.left;
      if uncle != null && uncle.color == Red {
        PushRedKeeps(ctx, t);
        PushRedLine(ctx, t);
        Recolor(uncle, parent, gparent, root, n, ctx, t);
        return gparent, ctx.up.up, PushRed(ctx, t);
      }
      FixRightKeeps(ctx, t);
      node := FixRight(n, parent, gparent, root, ctx, t);
      t' := LiftRight(ctx.up, Lean(ctx, t));
      ctx', t' := RightHole(t', ctx.up.up), t'.r;
    }
  }

  // Restores the rules around a red node n that may have a red parent.
  method InsertColor(n: Node, root: Root, ghost ctx0: Ctx, ghost t0: Tree) returns (ghost w: Tree)
    requires Focus(ctx0, t0, n, root) && RedAt(ctx0, t0)
    modifies root, All(ctx0, t0)
    ensures Whole(w, root)
    ensures InOrder(w) == Line(ctx0, t0) && Nodes(w) == All(ctx0, t0)
  {
    var node: Node := n;
    ghost var ctx, t := ctx0, t0;
    FocusFields(ctx, t, node, root);
    while node.parent != null && node.parent.color == Red
      invariant Focus(ctx, t, node, root) && RedAt(ctx, t) && SameNodes(ctx, t, ctx0, t0)
      invariant node.parent == ParentOf(ctx) && (!ctx.Top? ==> ctx.n.color == ctx.c)
      decreases Depth(ctx)
    {
      hide Focus, RedAt, Line, All;
      node, ctx, t := InsertStep(node, root, ctx, t);
      FocusFields(ctx, t, node, root);
    }
    w := Blacken(node, root, ctx, t);
  }

  // The closing rb_set_black(root->rb_node).
  method Blacken(ghost node: Node, root: Root, ghost ctx: Ctx, ghost t: Tree) returns (ghost w: Tree)
    requires Focus(ctx, t, node, root) && t.T?
    requires RedBlack(t) && CtxRedBlack(ctx, BlackHeight(t)) && (IsBlack(t) || ctx.Top? || ctx.c.Black?)
    modifies All(ctx, t)`color
    ensures Whole(w, root)
    ensures InOrder(w) == Line(ctx, t) && Nodes(w) == All(ctx, t)
  {
    FocusRoot(ctx, t, node, root);
    PlugRedBlack(ctx, t);
    LinePlug(ctx, t);
    w := Plug(ctx, t);
    FocusFields(Top, w, root.node, root);
    FocusFields(ctx, t, node, root);
    SetColor(root.node, Black, root, Top, w);
    w := Paint(w, Black);
  }

  // ---------- erasure ----------

  // The loop invariant of rb_erase_color: the subtree at the focus is one
  // black short, and its top node may be red with a red child.
  ghost predicate ShortAt(ctx: Ctx, t: Tree) {
    && (t.T? ==> RedBlack(t.l) && RedBlack(t.r) && BlackHeight(t.l) == BlackHeight(t.r))
    && (IsBlack(t) ==> RedBlack(t))
    && CtxRedBlack(ctx, BlackHeight(t) + 1)
  }

  // A red sibling is rotated above the parent.
  ghost function RaisedLeft(ctx: Ctx): Ctx
    requires ctx.Left? && ctx.sib.T?
  {
    Left(ctx.n, Red, ctx.sib.l, Left(ctx.sib.n, Black, ctx.sib.r, ctx.up))
  }

  lemma RaisedLeftKeeps(ctx: Ctx, t: Tree)
    requires ctx.Left? && !IsBlack(ctx.sib) && IsBlack(t) && ShortAt(ctx, t)
    ensures var c := RaisedLeft(ctx);
            ShortAt(c, t) && c.sib.T? && c.sib.c.Black? && SameNodes(c, t, ctx, t)
  {
    var c, s := RaisedLeft(ctx), ctx.sib;
    LineUp(ctx, t);
    LineUp(c, t);
    LineUp(c.up, UpTree(c, t));
    var p := T(ctx.n, Red, t, Paint(s, Black));
    assert InOrder(p) == InOrder(UpTree(ctx, t)) && Nodes(p) == Nodes(UpTree(ctx, t));
    RotLOrder(p);
    RotLShape(p);
    LineSwap(ctx.up, UpTree(ctx, t), RotL(p));
    assert UpTree(c.up, UpTree(c, t)) == RotL(p);
  }

  method RaiseSiblingLeft(other: Node, parent: Node, root: Root, ghost node: Node?, ghost ctx: Ctx, ghost t: Tree)
    requires Focus(ctx, t, node, root) && ctx.Left? && ctx.sib.T?
    requires other == ctx.sib.n && parent == ctx.n
    modifies root, All(ctx, t)
    ensures Focus(RaisedLeft(ctx), t, node, root)
  {
    ghost var s := ctx.sib;
    FocusAcross(ctx, t, node, root);
    FocusFields(ctx, t, node, root);
    FocusFields(Beside(ctx, t), s, parent.right, root);
    LineUp(ctx, t);
    assert {other, parent} <= All(ctx, t);
    hide Focus, Nodes, CtxNodes;
    SetColor(other, Black, root, Beside(ctx, t), s);
    FocusUp(Beside(ctx, t), Paint(s, Black), other, root);
    ghost var p := T(ctx.n, ctx.c, t, Paint(s, Black));
    SetColor(parent, Red, root, ctx.up, p);
    RotateLeft(parent, root, ctx.up, Paint(p, Red));
    ghost var w := RotL(Paint(p, Red));
    FocusDown(ctx.up, w, other, root);
    FocusDown(LeftHole(w, ctx.up), w.l, other.left, root);
  }

  // The sibling after its red left child, if that is the only one, has been
  // rotated above it.
  ghost function NephewOutLeft(s: Tree): (s': Tree)
    requires s.T? && (IsBlack(s.r) ==> s.l.T?) && (!IsBlack(s.r) ==> s.r.T?)
    ensures s'.T? && s'.r.T?
  {
    if IsBlack(s.r) then RotR(T(s.n, Red, Paint(s.l, Black), s.r)) else s
  }

  ghost function BorrowedLeft(ctx: Ctx, t: Tree): Tree
    requires ctx.Left? && ctx.sib.T? && !(IsBlack(ctx.sib.l) && IsBlack(ctx.sib.r))
  {
    var s := NephewOutLeft(ctx.sib);
    RotL(T(ctx.n, Black, t, T(s.n, ctx.c, s.l, Paint(s.r, Black))))
  }

  lemma NephewOutLeftKeeps(s: Tree)
    requires s.T? && s.c.Black? && RedBlack(s) && !(IsBlack(s.l) && IsBlack(s.r))
    ensures var s' := NephewOutLeft(s);
            && RedBlack(s'.l) && RedBlack(s'.r.l) && RedBlack(s'.r.r) && !IsBlack(s'.r)
            && BlackHeight(s'.l) == BlackHeight(s'.r.l) == BlackHeight(s'.r.r)
            && BlackHeight(s'.l) + 1 == BlackHeight(s)
            && InOrder(s') == InOrder(s) && Nodes(s') == Nodes(s)
  {
    if IsBlack(s.r) {
      var x := T(s.n, Red, Paint(s.l, Black), s.r);
      assert InOrder(x) == InOrder(s) && Nodes(x) == Nodes(s);
      RotROrder(x);
      RotRShape(x);
    }
  }

  lemma BorrowedLeftLine(ctx: Ctx, t: Tree)
    requires ctx.Left? && ctx.sib.T? && ctx.sib.c.Black? && RedBlack(ctx.sib)
    requires !(IsBlack(ctx.sib.l) && IsBlack(ctx.sib.r))
    ensures SameNodes(ctx.up, BorrowedLeft(ctx, t), ctx, t)
  {
    NephewOutLeftKeeps(ctx.sib);
    var s := NephewOutLeft(ctx.sib);
    var s' := T(s.n, ctx.c, s.l, Paint(s.r, Black));
    assert InOrder(Paint(s.r, Black)) == InOrder(s.r) && Nodes(Paint(s.r, Black)) == Nodes(s.r);
    assert InOrder(s') == InOrder(s) && Nodes(s') == Nodes(s);
    var x := T(ctx.n, Black, t, s');
    assert InOrder(x) == InOrder(UpTree(ctx, t)) && Nodes(x) == Nodes(UpTree(ctx, t));
    RotLOrder(x);
    RotLShape(x);
    LineUp(ctx, t);
    LineSwap(ctx.up, UpTree(ctx, t), RotL(x));
  }

  lemma BorrowedLeftKeeps(ctx: Ctx, t: Tree)
    requires ctx.Left? && IsBlack(t) && ShortAt(ctx, t)
    requires ctx.sib.T? && ctx.sib.c.Black? && !(IsBlack(ctx.sib.l) && IsBlack(ctx.sib.r))
    ensures var w := BorrowedLeft(ctx, t);
            && RedBlack(w) && CtxRedBlack(ctx.up, BlackHeight(w)) && (IsBlack(w) || (!ctx.up.Top? && ctx.up.c.Black?))
            && SameNodes(ctx.up, w, ctx, t)
  {
    BorrowedLeftLine(ctx, t);
    NephewOutLeftKeeps(ctx.sib);
    var s := NephewOutLeft(ctx.sib);
    var l, r := T(ctx.n, Black, t, s.l), Paint(s.r, Black);
    assert BorrowedLeft(ctx, t) == T(s.n, ctx.c, l, r);
    assert RedBlack(l) && RedBlack(r) && BlackHeight(l) == BlackHeight(r) == BlackHeight(t) + 1;
  }

  // The sibling's only red child is the one next to the short side.
  method TurnNephewLeft(other: Node, root: Root, ghost ctx: Ctx, ghost s: Tree)
    requires Focus(ctx, s, other, root) && s.T? && IsBlack(s.r) && s.l.T?
    modifies root, All(ctx, s)
    ensures Focus(ctx, NephewOutLeft(s), s.l.n, root)
  {
    FocusDown(ctx, s, other, root);
    FocusFields(LeftHole(s, ctx), s.l, other.left, root);
    assert {other, s.l.n} <= All(ctx, s);
    hide Focus, Nodes, CtxNodes;
    SetColor(other.left, Black, root, LeftHole(s, ctx), s.l);
    FocusUp(LeftHole(s, ctx), Paint(s.l, Black), s.l.n, root);
    ghost var x := T(s.n, s.c, Paint(s.l, Black), s.r);
    SetColor(other, Red, root, ctx, x);
    RotateRight(other, root, ctx, Paint(x, Red));
  }

  // The sibling lends its colour and a black node.
  method LendLeft(other: Node, parent: Node, root: Root, ghost node: Node?, ghost ctx: Ctx, ghost t: Tree)
    requires Focus(ctx, t, node, root) && ctx.Left? && parent == ctx.n
    requires ctx.sib.T? && other == ctx.sib.n && ctx.sib.r.T?
    modifies root, All(ctx, t)
    ensures var s := ctx.sib; var w := RotL(T(ctx.n, Black, t, T(s.n, ctx.c, s.l, Paint(s.r, Black))));
            Focus(ctx.up, w, s.n, root)
  {
    ghost var s := ctx.sib;
    ghost var across := Beside(ctx, t);
    FocusAcross(ctx, t, node, root);
    FocusFields(ctx, t, node, root);
    FocusFields(across, s, parent.right, root);
    LineUp(ctx, t);
    LineUp(across, s);
    assert {other, parent, s.r.n} <= All(ctx, t);
    hide Focus, Nodes, CtxNodes;
    SetColor(other, parent.color, root, across, s);
    s := Paint(s, ctx.c);
    FocusUp(across, s, other, root);
    ghost var p := T(ctx.n, ctx.c, t, s);
    SetColor(parent, Black, root, ctx.up, p);
    p := Paint(p, Black);
    FocusDown(ctx.up, p, parent, root);
    FocusDown(RightHole(p, ctx.up), s, parent.right, root);
    FocusFields(RightHole(s, RightHole(p, ctx.up)), s.r, other.right, root);
    SetColor(other.right, Black, root, RightHole(s, RightHole(p, ctx.up)), s.r);
    FocusUp(RightHole(s, RightHole(p, ctx.up)), Paint(s.r, Black), other.right, root);
    s := T(s.n, s.c, s.l, Paint(s.r, Black));
    FocusUp(RightHole(p, ctx.up), s, other, root);
    RotateLeft(parent, root, ctx.up, T(p.n, Black, t, s));
  }

  // The last case: afterwards nothing is short any more.
  method BorrowLeft(o: Node, parent: Node, root: Root, ghost node: Node?, ghost ctx: Ctx, ghost t: Tree)
    requires Focus(ctx, t, node, root) && ctx.Left? && parent == ctx.n
    requires ctx.sib.T? && ctx.sib.c.Black? && RedBlack(ctx.sib)
    requires o == ctx.sib.n && !(IsBlack(ctx.sib.l) && IsBlack(ctx.sib.r))
    modifies root, All(ctx, t)
    ensures var w := BorrowedLeft(ctx, t);
            Focus(ctx.up, w, w.n, root)
  {
    var other := o;
    ghost var s := ctx.sib;
    ghost var across := Beside(ctx, t);
    FocusAcross(ctx, t, node, root);
    FocusFields(ctx, t, node, root);
    FocusFields(across, s, parent.right, root);
    FocusDown(across, s, other, root);
    FocusFields(RightHole(s, across), s.r, other.right, root);
    NephewOutLeftKeeps(s);
    LineUp(ctx, t);
    LineUp(across, s);
    hide Focus, Nodes, CtxNodes, RedBlack;
    if other.right == null || other.right.color == Black {
      TurnNephewLeft(other, root, across, s);
      s := NephewOutLeft(s);
      FocusFields(across, s, ctx.sib.l.n, root);
      other := parent.right;
    }
    FocusAcross(across, s, other, root);
    LendLeft(other, parent, root, node, Left(ctx.n, ctx.c, s, ctx.up), t);
  }

  // The mirror images.

  // A red sibling is rotated above the parent.
  ghost function RaisedRight(ctx: Ctx): Ctx
    requires ctx.Right? && ctx.sib.T?
  {
    Right(ctx.n, Red, ctx.sib.r, Right(ctx.sib.n, Black, ctx.sib.l, ctx.up))
  }

  lemma RaisedRightKeeps(ctx: Ctx, t: Tree)
    requires ctx.Right? && !IsBlack(ctx.sib) && IsBlack(t) && ShortAt(ctx, t)
    ensures var c := RaisedRight(ctx);
            ShortAt(c, t) && c.sib.T? && c.sib.c.Black? && SameNodes(c, t, ctx, t)
  {
    var c, s := RaisedRight(ctx), ctx.sib;
    LineUp(ctx, t);
    LineUp(c, t);
    LineUp(c.up, UpTree(c, t));
    var p := T(ctx.n, Red, Paint(s, Black), t);
    assert InOrder(p) == InOrder(UpTree(ctx, t)) && Nodes(p) == Nodes(UpTree(ctx, t));
    RotROrder(p);
    RotRShape(p);
    LineSwap(ctx.up, UpTree(ctx, t), RotR(p));
    assert UpTree(c.up, UpTree(c, t)) == RotR(p);
  }

  method RaiseSiblingRight(other: Node, parent: Node, root: Root, ghost node: Node?, ghost ctx: Ctx, ghost t: Tree)
    requires Focus(ctx, t, node, root) && ctx.Right? && ctx.sib.T?
    requires other == ctx.sib.n && parent == ctx.n
    modifies root, All(ctx, t)
    ensures Focus(RaisedRight(ctx), t, node, root)
  {
    ghost var s := ctx.sib;
    FocusAcross(ctx, t, node, root);
    FocusFields(ctx, t, node, root);
    FocusFields(Beside(ctx, t), s, parent.left, root);
    LineUp(ctx, t);
    assert {other, parent} <= All(ctx, t);
    hide Focus, Nodes, CtxNodes;
    SetColor(other, Black, root, Beside(ctx, t), s);
    FocusUp(Beside(ctx, t), Paint(s, Black), other, root);
    ghost var p := T(ctx.n, ctx.c, Paint(s, Black), t);
    SetColor(parent, Red, root, ctx.up, p);
    RotateRight(parent, root, ctx.up, Paint(p, Red));
    ghost var w := RotR(Paint(p, Red));
    FocusDown(ctx.up, w, other, root);
    FocusDown(RightHole(w, ctx.up), w.r, other.right, root);
  }

  // The sibling after its red right child, if that is the only one, has been
  // rotated above it.
  ghost function NephewOutRight(s: Tree): (s': Tree)
    requires s.T? && (IsBlack(s.l) ==> s.r.T?) && (!IsBlack(s.l) ==> s.l.T?)
    ensures s'.T? && s'.l.T?
  {
    if IsBlack(s.l) then RotL(T(s.n, Red, s.l, Paint(s.r, Black))) else s
  }

  ghost function BorrowedRight(ctx: Ctx, t: Tree): Tree
    requires ctx.Right? && ctx.sib.T? && !(IsBlack(ctx.sib.r) && IsBlack(ctx.sib.l))
  {
    var s := NephewOutRight(ctx.sib);
    RotR(T(ctx.n, Black, T(s.n, ctx.c, Paint(s.l, Black), s.r), t))
  }

  lemma NephewOutRightKeeps(s: Tree)
    requires s.T? && s.c.Black? && RedBlack(s) && !(IsBlack(s.r) && IsBlack(s.l))
    ensures var s' := NephewOutRight(s);
            && RedBlack(s'.r) && RedBlack(s'.l.r) && RedBlack(s'.l.l) && !IsBlack(s'.l)
            && BlackHeight(s'.r) == BlackHeight(s'.l.r) == BlackHeight(s'.l.l)
            && BlackHeight(s'.r) + 1 == BlackHeight(s)
            && InOrder(s') == InOrder(s) && Nodes(s') == Nodes(s)
  {
    if IsBlack(s.l) {
      var x := T(s.n, Red, s.l, Paint(s.r, Black));
      assert InOrder(x) == InOrder(s) && Nodes(x) == Nodes(s);
      RotLOrder(x);
      RotLShape(x);
    }
  }

  lemma BorrowedRightLine(ctx: Ctx, t: Tree)
    requires ctx.Right? && ctx.sib.T? && ctx.sib.c.Black? && RedBlack(ctx.sib)
    requires !(IsBlack(ctx.sib.r) && IsBlack(ctx.sib.l))
    ensures SameNodes(ctx.up, BorrowedRight(ctx, t), ctx, t)
  {
    NephewOutRightKeeps(ctx.sib);
    var s := NephewOutRight(ctx.sib);
    var s' := T(s.n, ctx.c, Paint(s.l, Black), s.r);
    assert InOrder(Paint(s.l, Black)) == InOrder(s.l) && Nodes(Paint(s.l, Black)) == Nodes(s.l);
    assert InOrder(s') == InOrder(s) && Nodes(s') == Nodes(s);
    var x := T(ctx.n, Black, s', t);
    assert InOrder(x) == InOrder(UpTree(ctx, t)) && Nodes(x) == Nodes(UpTree(ctx, t));
    RotROrder(x);
    RotRShape(x);
    LineUp(ctx, t);
    LineSwap(ctx.up, UpTree(ctx, t), RotR(x));
  }

  lemma BorrowedRightKeeps(ctx: Ctx, t: Tree)
    requires ctx.Right? && IsBlack(t) && ShortAt(ctx, t)
    requires ctx.sib.T? && ctx.sib.c.Black? && !(IsBlack(ctx.sib.r) && IsBlack(ctx.sib.l))
    ensures var w := BorrowedRight(ctx, t);
            && RedBlack(w) && CtxRedBlack(ctx.up, BlackHeight(w)) && (IsBlack(w) || (!ctx.up.Top? && ctx.up.c.Black?))
            && SameNodes(ctx.up, w, ctx, t)
  {
    BorrowedRightLine(ctx, t);
    NephewOutRightKeeps(ctx.sib);
    var s := NephewOutRight(ctx.sib);
    var r, l := T(ctx.n, Black, s.r, t), Paint(s.l, Black);
    assert BorrowedRight(ctx, t) == T(s.n, ctx.c, l, r);
    assert RedBlack(r) && RedBlack(l) && BlackHeight(r) == BlackHeight(l) == BlackHeight(t) + 1;
  }

  // The sibling's only red child is the one next to the short side.
  method TurnNephewRight(other: Node, root: Root, ghost ctx: Ctx, ghost s: Tree)
    requires Focus(ctx, s, other, root) && s.T? && IsBlack(s.l) && s.r.T?
    modifies root, All(ctx, s)
    ensures Focus(ctx, NephewOutRight(s), s.r.n, root)
  {
    FocusDown(ctx, s, other, root);
    FocusFields(RightHole(s, ctx), s.r, other.right, root);
    assert {other, s.r.n} <= All(ctx, s);
    hide Focus, Nodes, CtxNodes;
    SetColor(other.right, Black, root, RightHole(s, ctx), s.r);
    FocusUp(RightHole(s, ctx), Paint(s.r, Black), s.r.n, root);
    ghost var x := T(s.n, s.c, s.l, Paint(s.r, Black));
    SetColor(other, Red, root, ctx, x);
    RotateLeft(other, root, ctx, Paint(x, Red));
  }

  // The sibling lends its colour and a black node.
  method LendRight(other: Node, parent: Node, root: Root, ghost node: Node?, ghost ctx: Ctx, ghost t: Tree)
    requires Focus(ctx, t, node, root) && ctx.Right? && parent == ctx.n
    requires ctx.sib.T? && other == ctx.sib.n && ctx.sib.l.T?
    modifies root, All(ctx, t)
    ensures var s := ctx.sib; var w := RotR(T(ctx.n, Black, T(s.n, ctx.c, Paint(s.l, Black), s.r), t));
            Focus(ctx.up, w, s.n, root)
  {
    ghost var s := ctx.sib;
    ghost var across := Beside(ctx, t);
    FocusAcross(ctx, t, node, root);
    FocusFields(ctx, t, node, root);
    FocusFields(across, s, parent.left, root);
    LineUp(ctx, t);
    LineUp(across, s);
    assert {other, parent, s.l.n} <= All(ctx, t);
    hide Focus, Nodes, CtxNodes;
    SetColor(other, parent.color, root, across, s);
    s := Paint(s, ctx.c);
    FocusUp(across, s, other, root);
    ghost var p := T(ctx.n, ctx.c, s, t);
    SetColor(parent, Black, root, ctx.up, p);
    p := Paint(p, Black);
    FocusDown(ctx.up, p, parent, root);
    FocusDown(LeftHole(p, ctx.up), s, parent.left, root);
    FocusFields(LeftHole(s, LeftHole(p, ctx.up)), s.l, other.left, root);
    SetColor(other.left, Black, root, LeftHole(s, LeftHole(p, ctx.up)), s.l);
    FocusUp(LeftHole(s, LeftHole(p, ctx.up)), Paint(s.l, Black), other.left, root);
    s := T(s.n, s.c, Paint(s.l, Black), s.r);
    FocusUp(LeftHole(p, ctx.up), s, other, root);
    RotateRight(parent, root, ctx.up, T(p.n, Black, s, t));
  }

  // The last case: afterwards nothing is short any more.
  method BorrowRight(o: Node, parent: Node, root: Root, ghost node: Node?, ghost ctx: Ctx, ghost t: Tree)
    requires Focus(ctx, t, node, root) && ctx.Right? && parent == ctx.n
    requires ctx.sib.T? && ctx.sib.c.Black? && RedBlack(ctx.sib)
    requires o == ctx.sib.n && !(IsBlack(ctx.sib.r) && IsBlack(ctx.sib.l))
    modifies root, All(ctx, t)
    ensures var w := BorrowedRight(ctx, t);
            Focus(ctx.up, w, w.n, root)
  {
    var other := o;
    ghost var s := ctx.sib;
    ghost var across := Beside(ctx, t);
    FocusAcross(ctx, t, node, root);
    FocusFields(ctx, t, node, root);
    FocusFields(across, s, parent.left, root);
    FocusDown(across, s, other, root);
    FocusFields(LeftHole(s, across), s.l, other.left, root);
    NephewOutRightKeeps(s);
    LineUp(ctx, t);
    LineUp(across, s);
    hide Focus, Nodes, CtxNodes, RedBlack;
    if other.left == null || other.left.color == Black {
      TurnNephewRight(other, root, across, s);
      s := NephewOutRight(s);
      FocusFields(across, s, ctx.sib.r.n, root);
      other := parent.left;
    }
    FocusAcross(across, s, other, root);
    LendRight(other, parent, root, node, Right(ctx.n, ctx.c, s, ctx.up), t);
  }

  // ---------- the erasure loop ----------

  ghost function WithSib(ctx: Ctx, s: Tree): (c: Ctx)
    requires !ctx.Top?
    ensures !c.Top? && c.n == ctx.n && c.c == ctx.c && c.sib == s && c.up == ctx.up
    ensures c.Left? <==> ctx.Left?
  {
    if ctx.Left? then Left(ctx.n, ctx.c, s, ctx.up) else Right(ctx.n, ctx.c, s, ctx.up)
  }

  // A sibling with no red child turns red: now the parent is short.
  ghost function Sunk(ctx: Ctx, t: Tree): Tree
    requires !ctx.Top? && ctx.sib.T?
  {
    UpTree(WithSib(ctx, Paint(ctx.sib, Red)), t)
  }

  lemma SunkKeeps(ctx: Ctx, t: Tree)
    requires !ctx.Top? && IsBlack(t) && ShortAt(ctx, t)
    requires ctx.sib.T? && ctx.sib.c.Black? && IsBlack(ctx.sib.l) && IsBlack(ctx.sib.r)
    ensures ShortAt(ctx.up, Sunk(ctx, t)) && SameNodes(ctx.up, Sunk(ctx, t), ctx, t)
  {
    var s := ctx.sib;
    assert InOrder(Paint(s, Red)) == InOrder(s) && Nodes(Paint(s, Red)) == Nodes(s);
    LineUp(ctx, t);
    LineSwap(ctx.up, UpTree(ctx, t), Sunk(ctx, t));
  }

  method Sink(other: Node, root: Root, ghost node: Node?, ghost ctx: Ctx, ghost t: Tree)
    requires Focus(ctx, t, node, root) && !ctx.Top? && ctx.sib.T? && other == ctx.sib.n
    modifies other`color
    ensures Focus(ctx.up, Sunk(ctx, t), ctx.n, root)
  {
    FocusAcross(ctx, t, node, root);
    FocusFields(ctx, t, node, root);
    FocusFields(Beside(ctx, t), ctx.sib, if ctx.Left? then ctx.n.right else ctx.n.left, root);
    hide Focus;
    SetColor(other, Red, root, Beside(ctx, t), ctx.sib);
    FocusUp(Beside(ctx, t), Paint(ctx.sib, Red), other, root);
  }

  // Everything mended: look at the whole tree again.
  lemma Mended(ctx: Ctx, t: Tree, h: Node, root: Root)
    requires Focus(ctx, t, h, root) && t.T? && Balanced(ctx, t)
    ensures var w := Plug(ctx, t);
            && Focus(Top, w, root.node, root) && w.T? && RedBlack(w) && IsBlack(w) && SameNodes(Top, w, ctx, t)
  {
    FocusRoot(ctx, t, h, root);
    PlugRedBlack(ctx, t);
    LinePlug(ctx, t);
  }

  // What a turn reads about the sibling and its children.
  lemma SiblingFields(ctx: Ctx, t: Tree, h: Node?, root: Root)
    requires Focus(ctx, t, h, root) && !ctx.Top? && ShortAt(ctx, t)
    ensures ctx.sib.T? && ctx.sib.n in All(ctx, t) && ctx.n in All(ctx, t)
    ensures var o := ctx.sib.n;
            && o == (if ctx.Left? then ctx.n.right else ctx.n.left) && o.color == ctx.sib.c
            && (o.left == null || o.left.color == Black <==> IsBlack(ctx.sib.l))
            && (o.right == null || o.right.color == Black <==> IsBlack(ctx.sib.r))
    ensures ctx.n.left == h <==> ctx.Left?
    ensures ctx.n.parent == ParentOf(ctx.up)
  {
    var s, c := ctx.sib, Beside(ctx, t);
    FocusAcross(ctx, t, h, root);
    FocusFields(ctx, t, h, root);
    FocusFields(c, s, s.n, root);
    FocusDown(c, s, s.n, root);
    FocusFields(LeftHole(s, c), s.l, s.n.left, root);
    FocusFields(RightHole(s, c), s.r, s.n.right, root);
  }

  // One turn of the loop in rb_erase_color, the short side on the left; done
  // says that the C leaves the loop by break.
  method EraseStepLeft(n: Node?, p: Node, root: Root, ghost c: Ctx, ghost t: Tree)
    returns (node: Node?, parent: Node?, done: bool, ghost ctx': Ctx, ghost t': Tree)
    requires Focus(c, t, n, root) && c.Left? && p == c.n && IsBlack(t) && ShortAt(c, t)
    modifies root, All(c, t)
    ensures Focus(ctx', t', node, root) && SameNodes(ctx', t', c, t)
    ensures !done ==> parent == ParentOf(ctx') && ShortAt(ctx', t') && (IsBlack(t') ==> Depth(ctx') < Depth(c))
    ensures done ==> ctx'.Top? && t'.T? && RedBlack(t') && IsBlack(t')
  {
    ghost var ctx := c;
    parent := p;
    SiblingFields(ctx, t, n, root);
    var other := parent.right;
    if other.color == Red {
      RaisedLeftKeeps(ctx, t);
      RaiseSiblingLeft(other, p, root, n, ctx, t);
      ctx := RaisedLeft(ctx);
      SiblingFields(ctx, t, n, root);
      other := parent.right;
    }
    if (other.left == null || other.left.color == Black) && (other.right == null || other.right.color == Black) {
      SunkKeeps(ctx, t);
      Sink(other, root, n, ctx, t);
      node, ctx', t' := parent, ctx.up, Sunk(ctx, t);
      FocusFields(ctx', t', node, root);
      parent := node.parent;
      done := false;
    } else {
      BorrowedLeftKeeps(ctx, t);
      ghost var w := BorrowedLeft(ctx, t);
      BorrowLeft(other, p, root, n, ctx, t);
      Mended(ctx.up, w, w.n, root);
      node, done, ctx', t' := root.node, true, Top, Plug(ctx.up, w);
    }
  }

  // One turn of the loop in rb_erase_color, the short side on the right; done
  // says that the C leaves the loop by break.
  method EraseStepRight(n: Node?, p: Node, root: Root, ghost c: Ctx, ghost t: Tree)
    returns (node: Node?, parent: Node?, done: bool, ghost ctx': Ctx, ghost t': Tree)
    requires Focus(c, t, n, root) && c.Right? && p == c.n && IsBlack(t) && ShortAt(c, t)
    modifies root, All(c, t)
    ensures Focus(ctx', t', node, root) && SameNodes(ctx', t', c, t)
    ensures !done ==> parent == ParentOf(ctx') && ShortAt(ctx', t') && (IsBlack(t') ==> Depth(ctx') < Depth(c))
    ensures done ==> ctx'.Top? && t'.T? && RedBlack(t') && IsBlack(t')
  {
    ghost var ctx := c;
    parent := p;
    SiblingFields(ctx, t, n, root);
    var other := parent.left;
    if other.color == Red {
      RaisedRightKeeps(ctx, t);
      RaiseSiblingRight(other, p, root, n, ctx, t);
      ctx := RaisedRight(ctx);
      SiblingFields(ctx, t, n, root);
      other := parent.left;
    }
    if (other.right == null || other.right.color == Black) && (other.left == null || other.left.color == Black) {
      SunkKeeps(ctx, t);
      Sink(other, root, n, ctx, t);
      node, ctx', t' := parent, ctx.up, Sunk(ctx, t);
      FocusFields(ctx', t', node, root);
      parent := node.parent;
      done := false;
    } else {
      BorrowedRightKeeps(ctx, t);
      ghost var w := BorrowedRight(ctx, t);
      BorrowRight(other, p, root, n, ctx, t);
      Mended(ctx.up, w, w.n, root);
      node, done, ctx', t' := root.node, true, Top, Plug(ctx.up, w);
    }
  }

  // Where rb_erase_color ends: one last blackening mends the tree.
  ghost predicate NearlyMended(ctx: Ctx, t: Tree) {
    if ctx.Top? then t.T? ==> RedBlack(Paint(t, Black)) else !IsBlack(t) && ShortAt(ctx, t)
  }

  // The closing if (node) rb_set_black(node).
  method BlackenNode(node: Node?, root: Root, ghost ctx: Ctx, ghost t: Tree) returns (ghost w: Tree)
    requires Focus(ctx, t, node, root) && NearlyMended(ctx, t)
    modifies All(ctx, t)
    ensures Whole(w, root)
    ensures InOrder(w) == Line(ctx, t) && Nodes(w) == All(ctx, t)
  {
    FocusFields(ctx, t, node, root);
    w := t;
    if node != null {
      SetColor(node, Black, root, ctx, t);
      w := Paint(t, Black);
      assert InOrder(w) == InOrder(t) && Nodes(w) == Nodes(t);
      LineSwap(ctx, t, w);
      Mended(ctx, w, node, root);
    }
    LinePlug(ctx, w);
    w := Plug(ctx, w);
  }

  // rb_erase_color(node, parent, root): the subtree at node is one black
  // short; afterwards nothing is.
  method EraseColor(n: Node?, p: Node?, root: Root, ghost ctx0: Ctx, ghost t0: Tree) returns (ghost w: Tree)
    requires Focus(ctx0, t0, n, root) && p == ParentOf(ctx0) && ShortAt(ctx0, t0)
    modifies root, All(ctx0, t0)
    ensures Whole(w, root)
    ensures InOrder(w) == Line(ctx0, t0) && Nodes(w) == All(ctx0, t0)
  {
    var node, parent, done := n, p, false;
    ghost var ctx, t := ctx0, t0;
    FocusFields(ctx, t, node, root);
    while (node == null || node.color == Black) && node != root.node
      invariant Focus(ctx, t, node, root) && SameNodes(ctx, t, ctx0, t0)
      invariant node == root.node <==> ctx.Top?
      invariant node == null || node.color == Black <==> IsBlack(t)
      invariant parent == ParentOf(ctx) && ShortAt(ctx, t)
      decreases IsBlack(t), Depth(ctx)
    {
      hide Focus, Line, All, ShortAt, RedBlack;
      SiblingFields(ctx, t, node, root);
      if parent.left == node {
        node, parent, done, ctx, t := EraseStepLeft(node, parent, root, ctx, t);
      } else {
        node, parent, done, ctx, t := EraseStepRight(node, parent, root, ctx, t);
      }
      if done {
        break;
      }
      FocusFields(ctx, t, node, root);
    }
    w := BlackenNode(node, root, ctx, t);
  }

  // ---------- search and insertion by key ----------

  ghost predicate Ordered(s: seq<Node>) {
    forall i, j | 0 <= i < j < |s| :: s[i].key <= s[j].key
  }

  // Going down from the root for key: everything already passed on the left
  // is at most key, everything passed on the right is above it.
  ghost predicate Descending(ctx: Ctx, t: Tree, key: int) {
    && Ordered(Line(ctx, t))
    && (forall n | n in Before(ctx) :: n.key <= key)
    && (forall n | n in After(ctx) :: key < n.key)
    && Balanced(ctx, t)
  }

  lemma DescendLeft(ctx: Ctx, t: Tree, key: int)
    requires t.T? && Descending(ctx, t, key) && key < t.n.key
    ensures Descending(LeftHole(t, ctx), t.l, key)
  {
    LineDown(ctx, t);
    var k := |Before(ctx) + InOrder(t.l)|;
    assert Line(ctx, t) == Before(ctx) + InOrder(t.l) + ([t.n] + InOrder(t.r) + After(ctx));
    forall n | n in After(LeftHole(t, ctx))
      ensures key < n.key
    {
      var j :| 0 <= j < |After(LeftHole(t, ctx))| && After(LeftHole(t, ctx))[j] == n;
      assert Line(ctx, t)[k] == t.n && Line(ctx, t)[k + j] == n;
    }
  }

  lemma DescendRight(ctx: Ctx, t: Tree, key: int)
    requires t.T? && Descending(ctx, t, key) && t.n.key <= key
    ensures Descending(RightHole(t, ctx), t.r, key)
  {
    LineDown(ctx, t);
    var b := Before(RightHole(t, ctx));
    assert Line(ctx, t) == b + InOrder(t.r) + After(ctx);
    forall n | n in b
      ensures n.key <= key
    {
      var i :| 0 <= i < |b| && b[i] == n;
      assert Line(ctx, t)[i] == n && Line(ctx, t)[|b| - 1] == t.n;
    }
  }

  // rb_link_node: a red leaf where the descent ended.
  method LinkNode(node: Node, parent: Node?, onLeft: bool, root: Root, ghost ctx: Ctx)
    requires Focus(ctx, Leaf, null, root) && node !in CtxNodes(ctx)
    requires parent == ParentOf(ctx) && (onLeft <==> ctx.Left?)
    modifies root, node, CtxNodes(ctx)
    ensures Focus(ctx, T(node, Red, Leaf, Leaf), node, root)
  {
    CtxAllocated(ctx);
    assert HoleOwner(ctx) <= CtxNodes(ctx);
    node.parent := parent;
    node.left, node.right := null, null;
    node.color := Red;
    if parent == null {
      root.node := node;
    } else if onLeft {
      parent.left := node;
    } else {
      parent.right := node;
    }
    assert ContextRep(ctx, node, root);
  }

  // The descent of insert_epitem and enqueue_task_fair, past every node
  // whose key is not larger.
  method FindSlot(key: int, root: Root, ghost w: Tree) returns (parent: Node?, onLeft: bool, ghost ctx: Ctx)
    requires Whole(w, root) && Ordered(InOrder(w))
    ensures Focus(ctx, Leaf, null, root) && Descending(ctx, Leaf, key)
    ensures Line(ctx, Leaf) == InOrder(w) && All(ctx, Leaf) == Nodes(w)
    ensures parent == ParentOf(ctx) && (onLeft <==> ctx.Left?)
  {
    ghost var t := w;
    var p := root.node;
    parent, onLeft, ctx := null, false, Top;
    assert Line(ctx, t) == InOrder(w);
    hide Line, InOrder, Nodes, CtxNodes, Rep, ContextRep, RedBlack;
    while p != null
      invariant Focus(ctx, t, p, root) && Descending(ctx, t, key)
      invariant Line(ctx, t) == InOrder(w) && All(ctx, t) == Nodes(w)
      invariant parent == ParentOf(ctx) && (onLeft <==> ctx.Left?)
      decreases t
    {
      FocusFields(ctx, t, p, root);
      hide Focus, Descending;
      parent := p;
      FocusDown(ctx, t, p, root);
      LineDown(ctx, t);
      if key < parent.key {
        DescendLeft(ctx, t, key);
        p, onLeft := parent.left, true;
        ctx, t := LeftHole(t, ctx), t.l;
      } else {
        DescendRight(ctx, t, key);
        p, onLeft := parent.right, false;
        ctx, t := RightHole(t, ctx), t.r;
      }
    }
    FocusFields(ctx, t, p, root);
  }

  // order with node put in at position at: the first place after every key
  // that is not larger.
  ghost predicate InsertedAt(order: seq<Node>, node: Node, at: nat, order': seq<Node>) {
    && at <= |order| && order' == order[..at] + [node] + order[at..]
    && (forall i | 0 <= i < at :: order[i].key <= node.key)
    && (forall i | at <= i < |order| :: node.key < order[i].key)
  }

  lemma SlotOrder(order: seq<Node>, ctx: Ctx, node: Node)
    requires order == Line(ctx, Leaf) && Descending(ctx, Leaf, node.key)
    ensures InsertedAt(order, node, |Before(ctx)|, Line(ctx, T(node, Red, Leaf, Leaf)))
    ensures Ordered(Line(ctx, T(node, Red, Leaf, Leaf)))
  {
    assert order == Before(ctx) + After(ctx);
  }

  method Insert(node: Node, root: Root, ghost w: Tree) returns (ghost w': Tree, ghost at: nat)
    requires Whole(w, root) && Ordered(InOrder(w)) && node !in Nodes(w)
    modifies root, node, Nodes(w)
    ensures Whole(w', root) && Nodes(w') == Nodes(w) + {node}
    ensures InsertedAt(InOrder(w), node, at, InOrder(w')) && Ordered(InOrder(w'))
  {
    var parent, onLeft;
    ghost var ctx;
    parent, onLeft, ctx := FindSlot(node.key, root, w);
    ghost var t := T(node, Red, Leaf, Leaf);
    SlotOrder(InOrder(w), ctx, node);
    at := |Before(ctx)|;
    assert All(ctx, t) == Nodes(w) + {node};
    hide Whole, Focus, Ordered, InsertedAt, InOrder, Line, Before;
    LinkNode(node, parent, onLeft, root, ctx);
    w' := InsertColor(node, root, ctx, t);
  }

  // ---------- height ----------

  ghost function Height(t: Tree): nat {
    if t.Leaf? then 0 else 1 + if Height(t.l) > Height(t.r) then Height(t.l) else Height(t.r)
  }

  ghost function Pow2(n: nat): nat {
    if n == 0 then 1 else 2 * Pow2(n - 1)
  }

  lemma {:induction false} HeightBound(t: Tree)
    requires RedBlack(t)
    ensures Height(t) <= 2 * BlackHeight(t) + if IsBlack(t) then 0 else 1
    ensures Pow2(BlackHeight(t)) <= |InOrder(t)| + 1
  {
    if t.T? {
      HeightBound(t.l);
      HeightBound(t.r);
    }
  }

  lemma {:induction false} Pow2Grows(m: nat, n: nat)
    requires m <= n
    ensures Pow2(m) <= Pow2(n)
    ensures Pow2(n) * Pow2(n) == Pow2(2 * n)
    decreases n
  {
    if n > 0 {
      Pow2Grows(if m < n then m else m - 1, n - 1);
      assert Pow2(2 * n) == 2 * Pow2(2 * n - 1) == 4 * Pow2(2 * (n - 1));
      assert Pow2(n) * Pow2(n) == 4 * (Pow2(n - 1) * Pow2(n - 1));
    }
  }

  lemma SquareGrows(b: nat, n: nat)
    requires b <= n
    ensures b * b <= n * n
  {
    assert b * b <= b * n;
  }

  // The height is at most twice the binary logarithm of the size plus one.
  lemma Logarithmic(t: Tree)
    requires RedBlack(t) && IsBlack(t)
    ensures Pow2(Height(t)) <= (|InOrder(t)| + 1) * (|InOrder(t)| + 1)
  {
    HeightBound(t);
    var b, n := Pow2(BlackHeight(t)), |InOrder(t)| + 1;
    Pow2Grows(Height(t), 2 * BlackHeight(t));
    Pow2Grows(0, BlackHeight(t));
    SquareGrows(b, n);
  }
}
