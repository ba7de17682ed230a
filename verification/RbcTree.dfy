module RbcTree {
  import opened ColouredTree
  import opened Powers

  // The (left, right) pair of links of a node; a macro parameter is one of the two names.
  datatype Kids<T> = Kids(left: T, right: T) {
    function At(s: Side): T {
      if s.Left? then left else right
    }

    function With(s: Side, c: T): Kids<T> {
      if s.Left? then Kids(c, right) else Kids(left, c)
    }
  }

  class Node<K> {
    const key: K
    var kids: Kids<Node?<K>>
    var parent: Node?<K>
    var red: bool
    var count: nat

    constructor (key: K)
      ensures this.key == key
    {
      this.key := key;
      kids, parent, red, count := Kids(null, null), null, false, 0;
    }
  }

  type Shape<K> = Tree<Node<K>>
  type Way<K> = Path<Node<K>>

  function Root<K>(t: Shape<K>): Node?<K> {
    if t.Leaf? then null else t.node
  }

  function Above<K>(p: Way<K>): Node?<K> {
    if p.Top? then null else p.node
  }

  function Only<K>(n: Node?<K>): set<Node<K>> {
    if n == null then {} else {n}
  }

  // The fields below (and in) the root of `t` say what `t` says; the root's own parent link is left open.
  ghost predicate Links<K>(t: Shape<K>)
    reads Nodes(t)
  {
    match t
    case Leaf => true
    case Bin(l, n, red, r) =>
      && n.kids == Kids(Root(l), Root(r)) && n.red == red && n.count == Size(t)
      && Linked(l, n) && Linked(r, n)
      && Links(l) && Links(r)
  }

  ghost predicate Linked<K>(t: Shape<K>, parent: Node?<K>)
    reads Nodes(t)
  {
    t.Bin? ==> t.node.parent == parent
  }

  // The fields along the path say what `p` says, with `hole` hanging at its end and counted as `k` nodes.
  ghost predicate PathLinks<K>(p: Way<K>, hole: Node?<K>, k: nat)
    reads PathNodes(p)
    decreases p
  {
    match p
    case Top => true
    case In(s, up, n, red, sib) =>
      && n.kids.At(s) == hole && n.kids.At(s.Other()) == Root(sib) && n.red == red && n.count == k + 1 + Size(sib)
      && n.parent == Above(up)
      && Linked(sib, n) && Links(sib)
      && PathLinks(up, n, k + 1 + Size(sib))
  }

  // The node that is the root of the whole when `hole` hangs at the end of the path.
  function Head<K>(p: Way<K>, hole: Node?<K>): Node?<K>
    decreases p
  {
    match p
    case Top => hole
    case In(_, up, n, _, _) => Head(up, n)
  }

  // Cutting a tree at a position and putting it back are the same statement about the heap.
  lemma {:induction false} Cut<K>(p: Way<K>, t: Shape<K>)
    ensures Nodes(Plug(p, t)) == PathNodes(p) + Nodes(t)
    ensures Root(Plug(p, t)) == Head(p, Root(t))
    ensures Links(Plug(p, t)) && Linked(Plug(p, t), null)
       <==> PathLinks(p, Root(t), Size(t)) && Links(t) && Linked(t, Above(p))
    decreases p
  {
    PlugNodes(p, t);
    if p.In? {
      hide Links, PathLinks, Nodes, PathNodes;
      Cut(p.up, Make(p.side, t, p.node, p.red, p.sib));
      CutOne(p, t, Make(p.side, t, p.node, p.red, p.sib));
    }
  }

  lemma {:induction false} CutOne<K>(p: Way<K>, t: Shape<K>, u: Shape<K>)
    requires p.In? && u == Make(p.side, t, p.node, p.red, p.sib)
    ensures PathLinks(p.up, p.node, Size(u)) && Links(u) && Linked(u, Above(p.up))
       <==> PathLinks(p, Root(t), Size(t)) && Links(t) && Linked(t, p.node)
  {
    hide Links, PathLinks;
    LinksMake(p.side, t, p.node, p.red, p.sib);
    PathParts(p, Root(t), Size(t));
  }

  // What the fields of one node say about its two subtrees.
  ghost predicate Holds<K>(n: Node<K>, s: Side, near: Node?<K>, red: bool, far: Node?<K>, count: int)
    reads n
  {
    n.kids.At(s) == near && n.kids.At(s.Other()) == far && n.red == red && n.count == count
  }

  lemma LinksMake<K>(s: Side, near: Shape<K>, n: Node<K>, red: bool, far: Shape<K>)
    ensures Links(Make(s, near, n, red, far))
       <==> (Holds(n, s, Root(near), red, Root(far), Size(near) + 1 + Size(far))
             && Linked(near, n) && Linked(far, n) && Links(near) && Links(far))
    ensures Size(Make(s, near, n, red, far)) == Size(near) + 1 + Size(far)
  {
    hide Nodes;
  }

  // PathLinks one step at a time.
  lemma PathParts<K>(p: Way<K>, hole: Node?<K>, k: nat)
    ensures p.Top? ==> PathLinks(p, hole, k)
    ensures p.In? ==>
      (PathLinks(p, hole, k)
       <==> (Holds(p.node, p.side, hole, p.red, Root(p.sib), k + 1 + Size(p.sib))
             && p.node.parent == Above(p.up) && Linked(p.sib, p.node) && Links(p.sib)
             && PathLinks(p.up, p.node, k + 1 + Size(p.sib))))
  {
    hide Links, Size;
  }

  // Links(t) when the root's parent link is not looked at.
  ghost predicate Inner<K>(t: Shape<K>)
    requires t.Bin?
    reads t.node`kids, t.node`red, t.node`count, Nodes(t.left), Nodes(t.right)
  {
    && t.node.kids == Kids(Root(t.left), Root(t.right)) && t.node.red == t.red && t.node.count == Size(t)
    && Linked(t.left, t.node) && Linked(t.right, t.node) && Links(t.left) && Links(t.right)
  }

  lemma LinksParts<K>(t: Shape<K>)
    ensures Links(t) <==> t.Bin? ==> Inner(t)
  {
  }

  lemma Counted<K>(t: Shape<K>)
    requires Links(t)
    ensures t.Bin? ==> t.node in Nodes(t) && t.node.count == Size(t) && t.node.red == t.red
  {
  }

  lemma StepNodes<K>(p: Way<K>)
    requires p.In?
    ensures PathNodes(p) == PathNodes(p.up) + {p.node} + Nodes(p.sib)
  {
  }

  lemma {:induction false} HeadNode<K>(p: Way<K>, hole: Node?<K>)
    ensures p.In? ==> Head(p, hole) in PathNodes(p)
    decreases p
  {
    if p.In? {
      HeadNode(p.up, p.node);
    }
  }

  lemma RootNode<K>(t: Shape<K>)
    ensures t.Bin? ==> t.node in Nodes(t)
  {
  }

  lemma LinkedMake<K>(s: Side, near: Shape<K>, n: Node<K>, red: bool, far: Shape<K>, parent: Node?<K>)
    ensures Linked(Make(s, near, n, red, far), parent) <==> n.parent == parent
    ensures Root(Make(s, near, n, red, far)) == n
  {
  }

  // `t` hangs at the end of `p` and all nodes are different; the counts above believe that it has `k` nodes.
  ghost predicate Hanging<K>(p: Way<K>, t: Shape<K>, k: nat)
    reads PathNodes(p), Nodes(t)
  {
    && PathLinks(p, Root(t), k) && Links(t) && Linked(t, Above(p))
    && PathDistinct(p) && Distinct(t) && PathNodes(p) !! Nodes(t)
  }

  ghost predicate Hangs<K>(p: Way<K>, t: Shape<K>)
    reads PathNodes(p), Nodes(t)
  {
    Hanging(p, t, Size(t))
  }

  class RbcTree<K(!new)> {
    const compare: (K, K) -> int
    var top: Node?<K>
    ghost var shape: Shape<K>

    ghost predicate Rep()
      reads this, Nodes(shape)
    {
      top == Root(shape) && Distinct(shape) && Links(shape) && Linked(shape, null)
    }

    lemma Open(p: Way<K>, t: Shape<K>)
      requires Rep() && shape == Plug(p, t)
      ensures Hangs(p, t) && top == Head(p, Root(t))
    {
      hide Links, PathLinks, Nodes, PathNodes, Plug, Distinct, PathDistinct;
      Cut(p, t);
      PlugNodes(p, t);
    }

    lemma Close(p: Way<K>, t: Shape<K>)
      requires Hangs(p, t) && top == Head(p, Root(t)) && shape == Plug(p, t)
      ensures Rep()
    {
      hide Links, PathLinks, Nodes, PathNodes, Plug, Distinct, PathDistinct;
      Cut(p, t);
      PlugNodes(p, t);
    }

    lemma RepParts()
      requires Rep()
      ensures Distinct(shape) && top == Root(shape)
    {
    }

    // The fields of a node in the tree.
    lemma Read(p: Way<K>, t: Shape<K>)
      requires Rep() && shape == Plug(p, t) && t.Bin?
      ensures t.node in Nodes(shape) && t.node.parent == Above(p)
      ensures t.left.Bin? ==> t.left.node in Nodes(shape)
      ensures t.right.Bin? ==> t.right.node in Nodes(shape)
      ensures t.node.kids == Kids(Root(t.left), Root(t.right))
      ensures t.node.red == t.red && t.node.count == Size(t)
    {
      hide PathLinks, PathNodes, Plug, Distinct, PathDistinct, Rep;
      Open(p, t);
      PlugNodes(p, t);
    }

    method SetRed(n: Node<K>, red: bool, ghost p: Way<K>, ghost t: Shape<K>)
      requires Rep() && shape == Plug(p, t) && t.Bin? && t.node == n
      modifies this`shape, n`red
      ensures Rep() && shape == Plug(p, SetRoot(t, red))
      ensures Nodes(shape) == old(Nodes(shape)) && InOrder(shape) == old(InOrder(shape))
    {
      hide Plug, PathNodes, PathDistinct, PathLinks, Rep;
      Open(p, t);
      n.red := red;
      shape := Plug(p, SetRoot(t, red));
      Close(p, SetRoot(t, red));
      PlugNodes(p, t);
      PlugNodes(p, SetRoot(t, red));
      SameWalk(p, t, SetRoot(t, red));
    }

    // ROTATE_LEFT at x for s == Left; ROTATE_RIGHT is the same text with the names exchanged.
    method Rotate(s: Side, x: Node<K>, ghost p: Way<K>, ghost a: Shape<K>, ghost rx: bool, ghost b: Shape<K>,
                  ghost y: Node<K>, ghost ry: bool, ghost c: Shape<K>)
      requires Rep() && shape == Plug(p, Make(s, a, x, rx, Make(s, b, y, ry, c)))
      modifies this, Nodes(shape)
      ensures Rep() && shape == Plug(p, Make(s, Make(s, a, x, rx, b), y, ry, c))
      ensures Nodes(shape) == old(Nodes(shape)) && InOrder(shape) == old(InOrder(shape))
    {
      hide Plug, Links, PathLinks, Nodes, PathNodes, Distinct, PathDistinct, Rep, Apart, Size, Head, Holds, Linked,
        Make;
      OpenRotation(s, x, p, a, rx, b, y, ry, c);
      RotationNodes(s, p, a, x, rx, b, y, ry, c);
      RotatedWalk(s, p, a, x, rx, b, y, ry, c);
      TurnPieces(s, x, p, a, rx, b, y, ry, c);
      CloseRotation(s, x, p, a, rx, b, y, ry, c);
    }

    // The pieces around the edge x-y, before and after.
    method TurnPieces(s: Side, x: Node<K>, ghost p: Way<K>, ghost a: Shape<K>, ghost rx: bool, ghost b: Shape<K>,
                      ghost y: Node<K>, ghost ry: bool, ghost c: Shape<K>)
      requires Apart(p, a, x, b, y, c)
      requires Holds(x, s, Root(a), rx, y, Size(a) + 1 + Size(b) + 1 + Size(c)) && x.parent == Above(p)
      requires Holds(y, s, Root(b), ry, Root(c), Size(b) + 1 + Size(c))
      requires Linked(a, x) && Linked(b, y) && Linked(c, y) && Links(a) && Links(b) && Links(c)
      requires PathLinks(p, x, Size(a) + 1 + Size(b) + 1 + Size(c)) && top == Head(p, x)
      requires Size(c) == if c.Bin? then c.node.count else 0
      modifies this`top, this`shape, x, y, Only(Root(b)), Only(Above(p))
      ensures shape == Plug(p, Make(s, Make(s, a, x, rx, b), y, ry, c))
      ensures Holds(y, s, x, ry, Root(c), Size(a) + 1 + Size(b) + 1 + Size(c)) && y.parent == Above(p)
      ensures Holds(x, s, Root(a), rx, Root(b), Size(a) + 1 + Size(b)) && x.parent == y
      ensures Linked(a, x) && Linked(b, x) && Linked(c, y) && Links(a) && Links(b) && Links(c)
      ensures PathLinks(p, y, Size(a) + 1 + Size(b) + 1 + Size(c)) && top == Head(p, y)
    {
      hide Plug, Links, PathLinks, Nodes, PathNodes, Distinct, PathDistinct, Apart, Size, Make, Holds;
      ApartSpared(p, a, x, b, y, c);
      ghost var k := Size(a) + 1 + Size(b) + 1 + Size(c);
      LinksParts(b);
      PathParts(p, x, k);
      if p.In? {
        assert allocated(PathNodes(p.up)) && allocated(Nodes(p.sib));
      }
      assert allocated(Nodes(a)) && allocated(Nodes(c));
      assert b.Bin? ==> allocated(Nodes(b.left)) && allocated(Nodes(b.right));
      ghost var turned := Plug(p, Make(s, Make(s, a, x, rx, b), y, ry, c));
      TurnEdge(s, x, Root(a), rx, y, Root(b), ry, Root(c), k, Size(b) + 1 + Size(c),
               p, if p.In? then k + 1 + Size(p.sib) else 0, turned);
      LinksParts(b);
      PathParts(p, y, k);
    }

    // What it does to the fields of the nodes around the edge.
    method TurnEdge(s: Side, x: Node<K>, ghost a: Node?<K>, ghost rx: bool, ghost y: Node<K>, ghost b: Node?<K>,
                    ghost ry: bool, ghost c: Node?<K>, ghost kx: int, ghost ky: int, ghost p: Way<K>, ghost kp: int,
                    ghost turned: Shape<K>)
      requires Holds(x, s, a, rx, y, kx) && Holds(y, s, b, ry, c, ky) && x.parent == Above(p)
      requires p.In? ==> Holds(p.node, p.side, x, p.red, Root(p.sib), kp) && Root(p.sib) != x
      requires x != y && b != x && b != y && Above(p) != x && Above(p) != y && (b == null || b != Above(p))
      requires c != x && c != y && (if c == null then 0 else c.count) < kx
      modifies this`top, this`shape, x, y, Only(b)`parent, Only(Above(p))`kids
      ensures top == (if p.Top? then y else old(top)) && shape == turned
      ensures Holds(y, s, x, ry, c, kx) && Holds(x, s, a, rx, b, kx - (if c == null then 0 else c.count) - 1)
      ensures x.parent == y && y.parent == Above(p) && (b != null ==> b.parent == x)
      ensures p.In? ==> Holds(p.node, p.side, y, p.red, Root(p.sib), kp)
    {
      Turn(s, x, y, b, Above(p), turned);
    }

    // The link surgery of a rotation, as far as the four nodes it writes to.
    method Turn(s: Side, x: Node<K>, ghost y: Node<K>, ghost b: Node?<K>, ghost above: Node?<K>,
                ghost turned: Shape<K>)
      requires x.kids.At(s.Other()) == y && y.kids.At(s) == b && x.parent == above
      requires x != y && b != x && b != y && above != x && above != y && (b == null || b != above)
      requires (if y.kids.At(s.Other()) == null then 0 else y.kids.At(s.Other()).count) < x.count
      modifies this`top, this`shape, x, y, Only(b)`parent, Only(above)`kids
      ensures top == (if above == null then y else old(top)) && shape == turned
      ensures x.kids == old(x.kids).With(s.Other(), b) && y.kids == old(y.kids).With(s, x)
      ensures x.parent == y && y.parent == above && x.red == old(x.red) && y.red == old(y.red)
      ensures b != null ==> b.parent == x
      ensures above != null ==>
        above.kids == old(above.kids).With(if x == old(above.kids).At(s) then s else s.Other(), y)
      ensures y.count == old(x.count)
      ensures x.count == old(x.count) - old(if y.kids.At(s.Other()) == null then 0 else y.kids.At(s.Other()).count) - 1
    {
      var o := s.Other();
      var y' := x.kids.At(o);
      x.kids := x.kids.With(o, y'.kids.At(s));
      if y'.kids.At(s) != null {
        y'.kids.At(s).parent := x;
      }
      y'.parent := x.parent;
      if x.parent == null {
        top := y';
      } else if x == x.parent.kids.At(s) {
        x.parent.kids := x.parent.kids.With(s, y');
      } else {
        x.parent.kids := x.parent.kids.With(o, y');
      }
      y'.kids := y'.kids.With(s, x);
      x.parent := y';
      var n0 := x.count;
      var n1 := if y'.kids.At(o) == null then 0 else y'.kids.At(o).count;
      x.count := n0 - n1 - 1;
      y'.count := n0;
      shape := turned;
    }

    lemma RotationNodes(s: Side, p: Way<K>, a: Shape<K>, x: Node<K>, rx: bool, b: Shape<K>, y: Node<K>, ry: bool,
                        c: Shape<K>)
      ensures (var t := Plug(p, Make(s, a, x, rx, Make(s, b, y, ry, c)));
               x in Nodes(t) && y in Nodes(t) && (p.In? ==> p.node in Nodes(t))
               && Only(Above(p)) <= Nodes(t) && Only(Root(b)) <= Nodes(t)
               && Nodes(t) == Nodes(Plug(p, Make(s, Make(s, a, x, rx, b), y, ry, c))))
    {
      hide Plug, Distinct, PathDistinct;
      PlugNodes(p, Make(s, a, x, rx, Make(s, b, y, ry, c)));
      PlugNodes(p, Make(s, Make(s, a, x, rx, b), y, ry, c));
      NodesMake(s, b, y, ry, c);
      NodesMake(s, a, x, rx, Make(s, b, y, ry, c));
      NodesMake(s, a, x, rx, b);
      NodesMake(s, Make(s, a, x, rx, b), y, ry, c);
    }

    lemma {:induction false} OpenRotation(s: Side, x: Node<K>, p: Way<K>, a: Shape<K>, rx: bool, b: Shape<K>,
                                          y: Node<K>, ry: bool, c: Shape<K>)
      requires Rep() && shape == Plug(p, Make(s, a, x, rx, Make(s, b, y, ry, c)))
      ensures Apart(p, a, x, b, y, c)
      ensures Holds(x, s, Root(a), rx, y, Size(a) + 1 + Size(b) + 1 + Size(c)) && x.parent == Above(p)
      ensures Holds(y, s, Root(b), ry, Root(c), Size(b) + 1 + Size(c))
      ensures Linked(a, x) && Linked(b, y) && Linked(c, y) && Links(a) && Links(b) && Links(c)
      ensures PathLinks(p, x, Size(a) + 1 + Size(b) + 1 + Size(c)) && top == Head(p, x)
      ensures Size(c) == if c.Bin? then c.node.count else 0
    {
      hide Plug, Links, PathLinks, Nodes, PathNodes, Distinct, PathDistinct, Rep, Apart;
      var u := Make(s, b, y, ry, c);
      Open(p, Make(s, a, x, rx, u));
      LinksMake(s, a, x, rx, u);
      LinksMake(s, b, y, ry, c);
      LinkedMake(s, b, y, ry, c, x);
      LinkedMake(s, a, x, rx, u, Above(p));
      ApartRight(s, p, a, x, rx, b, y, ry, c);
      Counted(c);
    }

    lemma {:induction false} CloseRotation(s: Side, x: Node<K>, p: Way<K>, a: Shape<K>, rx: bool, b: Shape<K>,
                                           y: Node<K>, ry: bool, c: Shape<K>)
      requires shape == Plug(p, Make(s, Make(s, a, x, rx, b), y, ry, c))
      requires Apart(p, a, x, b, y, c)
      requires Holds(y, s, x, ry, Root(c), Size(a) + 1 + Size(b) + 1 + Size(c)) && y.parent == Above(p)
      requires Holds(x, s, Root(a), rx, Root(b), Size(a) + 1 + Size(b)) && x.parent == y
      requires Linked(a, x) && Linked(b, x) && Linked(c, y) && Links(a) && Links(b) && Links(c)
      requires PathLinks(p, y, Size(a) + 1 + Size(b) + 1 + Size(c)) && top == Head(p, y)
      ensures Rep()
    {
      hide Plug, Links, PathLinks, Nodes, PathNodes, Distinct, PathDistinct, Rep, Apart;
      var u := Make(s, a, x, rx, b);
      LinksMake(s, u, y, ry, c);
      LinksMake(s, a, x, rx, b);
      LinkedMake(s, a, x, rx, b, y);
      LinkedMake(s, u, y, ry, c, Above(p));
      ApartLeft(s, p, a, x, rx, b, y, ry, c);
      Close(p, Make(s, u, y, ry, c));
    }

    // ---- insert fixup ----

    // `t` hangs red at the end of `p`; all is coloured except that the node above may be red too.
    ghost predicate RedAt(at: Node<K>, p: Way<K>, t: Shape<K>, h: nat)
      reads this, Nodes(shape)
    {
      Rep() && shape == Plug(p, t) && t.Bin? && t.node == at && t.red && Coloured(t, h) && PathColoured(p, h)
    }

    method InsertFixup(node: Node<K>, ghost p0: Way<K>, ghost t0: Shape<K>, ghost h0: nat)
      requires RedAt(node, p0, t0, h0)
      modifies this, Nodes(shape)
      ensures Rep() && RedBlack(shape)
      ensures Nodes(shape) == old(Nodes(shape)) && InOrder(shape) == old(InOrder(shape))
    {
      var at := node;
      ghost var p, t, h := p0, t0, h0;
      ReadPath(p, t);
      while at.parent != null && at.parent.red
        invariant RedAt(at, p, t, h)
        invariant at.parent == Above(p) && (p.In? ==> p.node.red == p.red)
        invariant Nodes(shape) == old(Nodes(shape)) && InOrder(shape) == old(InOrder(shape))
        decreases Depth(p)
      {
        at, p, t, h := InsertFixupStep(at, p, t, h);
        ReadPath(p, t);
      }
      PlugColoured(p, t, h);
      ghost var k := RootBlackHeight(p, h);
      SetRed(top, false, Top, shape);
      assert Coloured(shape, k) || Coloured(shape, k + 1);
    }

    lemma ReadPath(p: Way<K>, t: Shape<K>)
      requires Rep() && shape == Plug(p, t) && t.Bin?
      ensures t.node in Nodes(shape) && t.node.parent == Above(p)
      ensures p.In? ==> p.node in Nodes(shape) && p.node.parent == Above(p.up) && p.node.red == p.red
      ensures p.In? ==> p.node.kids.At(p.side) == t.node && p.node.kids.At(p.side.Other()) == Root(p.sib)
      ensures p.In? ==> p.node.kids.At(p.side.Other()) != t.node
      ensures top == Head(p, t.node)
    {
      hide Plug, Links, PathLinks, Nodes, PathNodes, Distinct, PathDistinct, Rep;
      Read(p, t);
      Open(p, t);
      if p.In? {
        var u := Make(p.side, t, p.node, p.red, p.sib);
        assert Plug(p, t) == Plug(p.up, u) by {
          PlugStep(p, t);
        }
        Read(p.up, u);
        Open(p.up, u);
        NodesMake(p.side, t, p.node, p.red, p.sib);
        RootNode(t);
        RootNode(p.sib);
      }
    }

    method InsertFixupStep(at0: Node<K>, ghost p0: Way<K>, ghost t0: Shape<K>, ghost h0: nat)
      returns (at: Node<K>, ghost p: Way<K>, ghost t: Shape<K>, ghost h: nat)
      requires RedAt(at0, p0, t0, h0) && p0.In? && p0.red
      modifies this, Nodes(shape)
      ensures RedAt(at, p, t, h) && Depth(p) < Depth(p0)
      ensures Nodes(shape) == old(Nodes(shape)) && InOrder(shape) == old(InOrder(shape))
    {
      hide Plug, Links, PathLinks, Nodes, PathNodes, Distinct, PathDistinct, Rep, InOrder;
      ReadPath(p0, t0);
      ghost var up := p0.up;
      ghost var u := Make(p0.side, t0, p0.node, true, p0.sib);
      PlugStep(p0, t0);
      ReadPath(up, u);
      var s := if at0.parent == at0.parent.parent.kids.At(Left) then Left else Right;
      assert s == up.side;
      var y := at0.parent.parent.kids.At(s.Other());
      UncleRed(up, u);
      if y != null && y.red {
        at, p, t, h := InsertRecolour(at0, y, p0, t0, h0);
      } else {
        at, p, t, h := InsertRotate(at0, s, p0, t0, h0);
      }
    }

    lemma UncleRed(p: Way<K>, t: Shape<K>)
      requires Rep() && shape == Plug(p, t) && p.In?
      ensures (Root(p.sib) != null && Root(p.sib).red) == IsRed(p.sib)
    {
      hide Plug, Nodes, PathNodes, Distinct, PathDistinct, Size, InOrder;
      Open(p, t);
    }

    // Uncle red: the two reds under the grandparent become black and the grandparent red.
    method InsertRecolour(at0: Node<K>, y: Node<K>, ghost p0: Way<K>, ghost t0: Shape<K>, ghost h0: nat)
      returns (at: Node<K>, ghost p: Way<K>, ghost t: Shape<K>, ghost h: nat)
      requires RedAt(at0, p0, t0, h0) && p0.In? && p0.red && IsRed(p0.up.sib) && y == Root(p0.up.sib)
      modifies this, Nodes(shape)
      ensures RedAt(at, p, t, h) && Depth(p) < Depth(p0)
      ensures Nodes(shape) == old(Nodes(shape)) && InOrder(shape) == old(InOrder(shape))
    {
      hide Plug, Links, PathLinks, Nodes, PathNodes, Distinct, PathDistinct, Rep, InOrder;
      ghost var In(s, In(s2, g, gn, _, uncle), pn, _, sib) := p0;
      ghost var u := Make(s, t0, pn, true, sib);
      PlugStep(p0, t0);
      PlugStep(p0.up, u);
      ReadPath(p0, t0);
      ReadPath(p0.up, u);
      SetRed(at0.parent, false, p0.up, u);
      ghost var v := SetRoot(u, false);
      PlugFlip(p0.up, v);
      Read(In(s2.Other(), g, gn, false, v), uncle);
      SetRed(y, false, In(s2.Other(), g, gn, false, v), uncle);
      ghost var w := Make(s2, v, gn, false, SetRoot(uncle, false));
      PlugFlip(In(s2.Other(), g, gn, false, v), SetRoot(uncle, false));
      PlugStep(In(s2, g, gn, false, SetRoot(uncle, false)), v);
      Read(g, w);
      SetRed(at0.parent.parent, true, g, w);
      at, p, t, h := at0.parent.parent, g, SetRoot(w, true), h0 + 1;
      assert Coloured(v, h0 + 1);
      assert PathColoured(p0.up, h0);
      assert Coloured(SetRoot(uncle, false), h0 + 1);
    }

    // Uncle black or missing: one or two rotations end the fixup.
    method InsertRotate(at0: Node<K>, s: Side, ghost p0: Way<K>, ghost t0: Shape<K>, ghost h0: nat)
      returns (at: Node<K>, ghost p: Way<K>, ghost t: Shape<K>, ghost h: nat)
      requires RedAt(at0, p0, t0, h0) && p0.In? && p0.red && s == p0.up.side && !IsRed(p0.up.sib)
      modifies this, Nodes(shape)
      ensures RedAt(at, p, t, h) && Depth(p) < Depth(p0)
      ensures Nodes(shape) == old(Nodes(shape)) && InOrder(shape) == old(InOrder(shape))
    {
      hide Plug, Links, PathLinks, Nodes, PathNodes, Distinct, PathDistinct, Rep, InOrder;
      at := at0;
      p, t, h := p0, t0, h0;
      ReadPath(p, t);
      if at == at.parent.kids.At(s.Other()) {
        at, p, t := InsertInnerTurn(at, s, p, t, h);
      }
      ghost var In(_, In(_, g, gn, _, uncle), pn, _, sib) := p;
      ghost var u := Make(s, t, pn, true, sib);
      assert PathColoured(p.up, h) && Coloured(sib, h);
      PlugStep(p, t);
      ReadPath(p, t);
      ReadPath(p.up, u);
      SetRed(at.parent, false, p.up, u);
      ghost var v := SetRoot(u, false);
      PlugStep(p.up, v);
      Read(g, Make(s, v, gn, false, uncle));
      SetRed(at.parent.parent, true, g, Make(s, v, gn, false, uncle));
      MakeFlip(s, v, gn, true, uncle);
      MakeFlip(s, t, pn, false, sib);
      Rotate(s.Other(), at.parent.parent, g, uncle, true, sib, pn, false, t);
      ghost var w := Make(s.Other(), uncle, gn, true, sib);
      MakeFlip(s, t, pn, false, w);
      p := In(s, g, pn, false, w);
      PlugStep(p, t);
    }

    // The new red node is an inner grandchild: turn it outwards first.
    method InsertInnerTurn(at0: Node<K>, s: Side, ghost p0: Way<K>, ghost t0: Shape<K>, ghost h: nat)
      returns (at: Node<K>, ghost p: Way<K>, ghost t: Shape<K>)
      requires RedAt(at0, p0, t0, h) && p0.In? && p0.red && s == p0.up.side && p0.side == s.Other()
      modifies this, Nodes(shape)
      ensures RedAt(at, p, t, h) && p.In? && p.red && p.side == s && p.up == p0.up
      ensures Nodes(shape) == old(Nodes(shape)) && InOrder(shape) == old(InOrder(shape))
    {
      hide Plug, Links, PathLinks, Nodes, PathNodes, Distinct, PathDistinct, Rep, InOrder;
      ReadPath(p0, t0);
      PlugStep(p0, t0);
      at := at0.parent;
      ghost var pn, sib := p0.node, p0.sib;
      ghost var a, b := t0.Child(s), t0.Child(s.Other());
      MakeFlip(s.Other(), t0, pn, true, sib);
      Rotate(s, at, p0.up, sib, true, a, at0, true, b);
      t := Make(s, sib, pn, true, a);
      p := In(s, p0.up, at0, true, b);
      PlugStep(p, t);
    }

    // ---- remove fixup ----

    // `t` hangs at the end of `p` one black node short; a red root makes up for it by turning black.
    ghost predicate Short(x: Node?<K>, p: Way<K>, t: Shape<K>, h: nat)
      reads this, Nodes(shape)
    {
      && Rep() && shape == Plug(p, t) && x == Root(t) && PathColoured(p, h + 1)
      && if IsRed(t) then Coloured(SetRoot(t, false), h + 1) else Coloured(t, h)
    }

    method RemoveFixup(x0: Node?<K>, nullpar: Node?<K>, ghost p0: Way<K>, ghost t0: Shape<K>, ghost h0: nat)
      requires Short(x0, p0, t0, h0) && (x0 == null ==> nullpar == Above(p0))
      modifies this, Nodes(shape)
      ensures Rep() && RedBlack(shape)
      ensures Nodes(shape) == old(Nodes(shape)) && InOrder(shape) == old(InOrder(shape))
    {
      var x := x0;
      ghost var p, t, h, done := p0, t0, h0, false;
      ReadShort(x, p, t, h);
      while x != top && !(x != null && x.red)
        invariant if done then Rep() && RedBlack(shape) && x == top else Short(x, p, t, h)
        invariant !done ==> (x == null ==> nullpar == Above(p))
        invariant Nodes(shape) == old(Nodes(shape)) && InOrder(shape) == old(InOrder(shape))
        decreases if done || IsRed(t) then 0 else 1 + Depth(p)
      {
        ReadShort(x, p, t, h);
        var xparent := if x != null then x.parent else nullpar;
        var s := if x == xparent.kids.At(Left) then Left else Right;
        x, p, t, h, done := RemoveFixupStep(x, xparent, s, p, t, h);
      }
      if done {
        p, t := Top, shape;
      } else {
        ReadShort(x, p, t, h);
      }
      if x != null {
        if !done {
          PlugColoured(p, SetRoot(t, false), if IsRed(t) then h + 1 else h);
        }
        SetRed(x, false, p, t);
      }
    }

    lemma ReadShort(x: Node?<K>, p: Way<K>, t: Shape<K>, h: nat)
      requires Short(x, p, t, h)
      ensures x != null ==> x in Nodes(shape) && x.parent == Above(p) && x.red == IsRed(t)
      ensures p.In? ==> p.node in Nodes(shape) && p.node.red == p.red && p.sib.Bin?
      ensures p.In? ==> p.node.kids.At(p.side) == x && p.node.kids.At(p.side.Other()) == p.sib.node != x
      ensures p.In? ==> p.sib.node.red == p.sib.red && p.sib.node in Nodes(shape)
      ensures x == top <==> p.Top?
    {
      hide Plug, Links, PathLinks, Nodes, PathNodes, Distinct, PathDistinct, Rep;
      Open(p, t);
      PlugNodes(p, t);
      RootNode(t);
      HeadNode(p, x);
      Counted(t);
      PathParts(p, x, Size(t));
      if p.In? {
        Counted(p.sib);
        StepNodes(p);
      }
    }

    method RemoveFixupStep(x0: Node?<K>, xparent: Node<K>, s: Side, ghost p0: Way<K>, ghost t0: Shape<K>, ghost h0: nat)
      returns (x: Node?<K>, ghost p: Way<K>, ghost t: Shape<K>, ghost h: nat, ghost done: bool)
      requires Short(x0, p0, t0, h0) && p0.In? && !IsRed(t0) && xparent == p0.node && s == p0.side
      modifies this, Nodes(shape)
      ensures if done then Rep() && RedBlack(shape) && x == top else Short(x, p, t, h) && x != null
      ensures done || IsRed(t) || Depth(p) < Depth(p0)
      ensures Nodes(shape) == old(Nodes(shape)) && InOrder(shape) == old(InOrder(shape))
    {
      hide Plug, Links, PathLinks, Nodes, PathNodes, Distinct, PathDistinct, Rep, InOrder;
      x, p, t, h, done := x0, p0, t0, h0, false;
      ReadShort(x, p, t, h);
      var o := s.Other();
      var w := xparent.kids.At(o);
      if w != null && w.red {
        p := RemoveRedSibling(x, xparent, w, s, p, t, h);
        ReadShort(x, p, t, h);
        w := xparent.kids.At(o);
      }
      ReadSibling(p, t);
      if !(w.kids.At(s) != null && w.kids.At(s).red) && !(w.kids.At(o) != null && w.kids.At(o).red) {
        x, t, h := RemoveBlackSibling(x, xparent, w, s, p, t, h);
        p := p.up;
      } else {
        if !(w.kids.At(o) != null && w.kids.At(o).red) {
          p := RemoveNearRed(x, xparent, w, s, p, t, h);
          ReadShort(x, p, t, h);
          w := xparent.kids.At(o);
        }
        RemoveFarRed(x, xparent, w, s, p, t, h);
        x, done := top, true;
      }
    }

    // The sibling and its children.
    lemma ReadSibling(p: Way<K>, t: Shape<K>)
      requires Rep() && shape == Plug(p, t) && p.In? && p.sib.Bin?
      ensures p.sib.node.kids == Kids(Root(p.sib.left), Root(p.sib.right)) && p.sib.node in Nodes(shape)
      ensures p.sib.left.Bin? ==> p.sib.left.node.red == p.sib.left.red
      ensures p.sib.right.Bin? ==> p.sib.right.node.red == p.sib.right.red
    {
      hide Plug, Links, PathLinks, Nodes, PathNodes, Distinct, PathDistinct, Rep;
      Open(p, t);
      PathParts(p, Root(t), Size(t));
      StepNodes(p);
      PlugNodes(p, t);
      LinksParts(p.sib);
      RootNode(p.sib);
      Counted(p.sib.left);
      Counted(p.sib.right);
    }

    // Case 1: a red sibling is turned up, so that the sibling becomes black and the parent red.
    method RemoveRedSibling(x: Node?<K>, xparent: Node<K>, w: Node<K>, s: Side, ghost p0: Way<K>, ghost t: Shape<K>,
                            ghost h: nat)
      returns (ghost p: Way<K>)
      requires Short(x, p0, t, h) && p0.In? && xparent == p0.node && s == p0.side && !IsRed(t)
      requires IsRed(p0.sib) && w == p0.sib.node
      modifies this, Nodes(shape)
      ensures Short(x, p, t, h) && p.In? && p.node == xparent && p.side == s && p.red && !IsRed(p.sib)
      ensures Nodes(shape) == old(Nodes(shape)) && InOrder(shape) == old(InOrder(shape))
    {
      hide Plug, Links, PathLinks, Nodes, PathNodes, Distinct, PathDistinct, Rep, InOrder;
      ghost var In(_, up, _, _, sib) := p0;
      ghost var o := s.Other();
      ghost var near, far := sib.Child(s), sib.Child(o);
      ReadShort(x, p0, t, h);
      PlugFlip(p0, t);
      SetRed(w, false, In(o, up, xparent, false, t), sib);
      ghost var u := Make(s, t, xparent, false, SetRoot(sib, false));
      PlugFlip(In(o, up, xparent, false, t), SetRoot(sib, false));
      PlugStep(In(s, up, xparent, false, SetRoot(sib, false)), t);
      SetRed(xparent, true, up, u);
      Rotate(s, xparent, up, t, true, near, w, false, far);
      p := In(s, In(s, up, w, false, far), xparent, true, near);
      PlugStep(p, t);
      PlugStep(p.up, Make(s, t, xparent, true, near));
      MakeChildren(sib, s);
      ColouredMake(s, near, w, true, far, h + 1);
      assert PathColoured(p.up, h + 1);
    }

    // Case 2: both nephews black.
    method RemoveBlackSibling(x0: Node?<K>, xparent: Node<K>, w: Node<K>, s: Side, ghost p: Way<K>, ghost t0: Shape<K>,
                              ghost h0: nat)
      returns (x: Node<K>, ghost t: Shape<K>, ghost h: nat)
      requires Short(x0, p, t0, h0) && p.In? && xparent == p.node && s == p.side && !IsRed(t0)
      requires p.sib.Bin? && !p.sib.red && w == p.sib.node && !IsRed(p.sib.left) && !IsRed(p.sib.right)
      modifies this, Nodes(shape)
      ensures Short(x, p.up, t, h) && (p.red ==> IsRed(t))
      ensures Nodes(shape) == old(Nodes(shape)) && InOrder(shape) == old(InOrder(shape))
    {
      hide Plug, Links, PathLinks, Nodes, PathNodes, Distinct, PathDistinct, Rep, InOrder;
      ghost var In(_, up, _, red, sib) := p;
      ReadShort(x0, p, t0, h0);
      PlugFlip(p, t0);
      SetRed(w, true, In(s.Other(), up, xparent, red, t0), sib);
      PlugFlip(In(s.Other(), up, xparent, red, t0), SetRoot(sib, true));
      t := Make(s, t0, xparent, red, SetRoot(sib, true));
      PlugStep(In(s, up, xparent, red, SetRoot(sib, true)), t0);
      x, h := xparent, if red then h0 else h0 + 1;
      Nephews(p, h0);
      ColouredMake(s, sib.Child(s), w, true, sib.Child(s.Other()), h0);
      MakeChildren(SetRoot(sib, true), s);
      ColouredMake(s, t0, xparent, false, SetRoot(sib, true), h0 + 1);
    }

    // Case 3: only the near nephew red; turn the sibling so that the far one is.
    method RemoveNearRed(x: Node?<K>, xparent: Node<K>, w: Node<K>, s: Side, ghost p0: Way<K>, ghost t: Shape<K>,
                         ghost h: nat)
      returns (ghost p: Way<K>)
      requires Short(x, p0, t, h) && p0.In? && xparent == p0.node && s == p0.side && !IsRed(t)
      requires p0.sib.Bin? && !p0.sib.red && w == p0.sib.node
      requires IsRed(p0.sib.Child(s)) && !IsRed(p0.sib.Child(s.Other()))
      modifies this, Nodes(shape)
      ensures Short(x, p, t, h) && p.In? && p.node == xparent && p.side == s && p.sib.Bin? && !p.sib.red
      ensures IsRed(p.sib.Child(s.Other()))
      ensures Nodes(shape) == old(Nodes(shape)) && InOrder(shape) == old(InOrder(shape))
    {
      hide Plug, Links, PathLinks, Nodes, PathNodes, Distinct, PathDistinct, Rep, InOrder;
      ghost var In(_, up, _, red, sib) := p0;
      var o := s.Other();
      ghost var near, far := sib.Child(s), sib.Child(o);
      ghost var q := In(o, up, xparent, red, t);
      ghost var n, a, b := near.node, near.Child(s), near.Child(o);
      ReadSibling(p0, t);
      PlugFlip(p0, t);
      PlugStep(In(s, q, w, false, far), near);
      MakeChildren(sib, s);
      Read(q, sib);
      SetRed(w.kids.At(s), false, In(s, q, w, false, far), near);
      ghost var u := Make(s, SetRoot(near, false), w, false, far);
      PlugStep(In(s, q, w, false, far), SetRoot(near, false));
      SetRed(w, true, q, u);
      MakeChildren(SetRoot(near, false), s);
      MakeFlip(s, SetRoot(near, false), w, true, far);
      MakeFlip(s, a, n, false, b);
      Rotate(o, w, q, far, true, b, n, false, a);
      ghost var v := Make(o, Make(o, far, w, true, b), n, false, a);
      p := In(s, up, xparent, red, v);
      PlugFlip(q, v);
      Nephews(p0, h);
      ColouredMake(s, a, n, true, b, h);
      MakeChildren(near, s);
      ColouredMake(o, far, w, true, b, h);
      ColouredMake(o, Make(o, far, w, true, b), n, false, a, h + 1);
    }

    // Its colours: the sibling gets that of the parent, the parent and the far nephew become black.
    method PaintFarRed(xparent: Node<K>, w: Node<K>, s: Side, ghost p: Way<K>, ghost t: Shape<K>)
      requires Rep() && shape == Plug(p, t) && p.In? && xparent == p.node && s == p.side
      requires p.sib.Bin? && w == p.sib.node && p.sib.Child(s.Other()).Bin?
      requires xparent in Nodes(shape) && xparent.red == p.red
      modifies this, Nodes(shape)
      ensures Rep()
      ensures shape == Plug(p.up, Make(s, t, xparent, false,
                                       Make(s, p.sib.Child(s), w, p.red, SetRoot(p.sib.Child(s.Other()), false))))
      ensures Nodes(shape) == old(Nodes(shape)) && InOrder(shape) == old(InOrder(shape))
    {
      hide Plug, Links, PathLinks, Nodes, PathNodes, Distinct, PathDistinct, Rep, InOrder;
      ghost var In(_, up, _, red, sib) := p;
      var o := s.Other();
      ghost var near, far := sib.Child(s), sib.Child(o);
      ReadSibling(p, t);
      PlugFlip(p, t);
      ghost var q := In(o, up, xparent, red, t);
      SetRed(w, xparent.red, q, sib);
      PlugFlip(q, SetRoot(sib, red));
      PlugStep(In(s, up, xparent, red, SetRoot(sib, red)), t);
      ghost var u := Make(s, t, xparent, red, SetRoot(sib, red));
      SetRed(xparent, false, up, u);
      MakeChildren(SetRoot(sib, red), s);
      ghost var q' := In(o, In(o, up, xparent, false, t), w, red, near);
      PlugStep(q', far);
      PlugStep(q'.up, Make(o, far, w, red, near));
      MakeFlip(o, far, w, red, near);
      MakeFlip(o, Make(o, far, w, red, near), xparent, false, t);
      Read(q'.up, Make(o, far, w, red, near));
      SetRed(w.kids.At(o), false, q', far);
      ghost var f := SetRoot(far, false);
      PlugStep(q', f);
      PlugStep(q'.up, Make(o, f, w, red, near));
      MakeFlip(o, f, w, red, near);
      MakeFlip(o, Make(o, f, w, red, near), xparent, false, t);
    }

    // Case 4: the far nephew red; one turn at the parent pays the missing black node.
    method RemoveFarRed(x: Node?<K>, xparent: Node<K>, w: Node<K>, s: Side, ghost p: Way<K>, ghost t: Shape<K>,
                        ghost h: nat)
      requires Short(x, p, t, h) && p.In? && xparent == p.node && s == p.side && !IsRed(t)
      requires p.sib.Bin? && !p.sib.red && w == p.sib.node && IsRed(p.sib.Child(s.Other()))
      modifies this, Nodes(shape)
      ensures Rep() && RedBlack(shape)
      ensures Nodes(shape) == old(Nodes(shape)) && InOrder(shape) == old(InOrder(shape))
    {
      hide Plug, Links, PathLinks, Nodes, PathNodes, Distinct, PathDistinct, Rep, InOrder;
      ghost var In(_, up, _, red, sib) := p;
      var o := s.Other();
      ghost var near, far := sib.Child(s), sib.Child(o);
      ReadShort(x, p, t, h);
      PaintFarRed(xparent, w, s, p, t);
      ghost var f := SetRoot(far, false);
      Rotate(s, xparent, up, t, false, near, w, red, f);
      ghost var v := Make(s, Make(s, t, xparent, false, near), w, red, f);
      Nephews(p, h);
      ColouredMake(s, far.Child(s), far.node, true, far.Child(o), h);
      ColouredMake(s, far.Child(s), far.node, false, far.Child(o), h + 1);
      MakeChildren(far, s);
      MakeChildren(f, s);
      ColouredMake(s, t, xparent, false, near, h + 1);
      ColouredMake(s, Make(s, t, xparent, false, near), w, red, f, if red then h + 1 else h + 2);
      PlugColoured(up, v, if red then h + 1 else h + 2);
    }

    // ---- counts ----

    // Write the right count into the node above; from there on the path is right too.
    method SetCount(at: Node<K>, count: nat, ghost q: Way<K>, ghost u: Shape<K>, ghost k: nat)
      requires Hanging(q, u, k) && q.In? && at == q.node && count == Size(u) + 1 + Size(q.sib)
      modifies at`count
      ensures Hanging(q.up, Make(q.side, u, at, q.red, q.sib), k + 1 + Size(q.sib))
    {
      hide Links, PathLinks, Nodes, PathNodes, Distinct, PathDistinct, Size;
      PathParts(q, Root(u), k);
      StepApart(q, u);
      assert allocated(Nodes(u)) && allocated(PathNodes(q.up)) && allocated(Nodes(q.sib));
      at.count := count;
      LinksMake(q.side, u, at, q.red, q.sib);
      LinkedMake(q.side, u, at, q.red, q.sib, Above(q.up));
    }

    // The count of the node above, and what its two children say.
    lemma ReadCounts(q: Way<K>, u: Shape<K>, k: nat)
      requires Hanging(q, u, k) && q.In?
      ensures q.node.count == k + 1 + Size(q.sib) && q.node.parent == Above(q.up)
      ensures q.node.kids.At(q.side) == Root(u) && q.node.kids.At(q.side.Other()) == Root(q.sib)
      ensures Size(u) == if u.Leaf? then 0 else u.node.count
      ensures Size(q.sib) == if q.sib.Leaf? then 0 else q.sib.node.count
    {
      hide Nodes, PathNodes, Distinct, PathDistinct;
    }

    method CountInsertedUp(last: Node?<K>, ghost p0: Way<K>, ghost t0: Shape<K>)
      requires Size(t0) == 1 && Hanging(p0, t0, 0) && last == Above(p0)
      requires shape == Plug(p0, t0) && top == Head(p0, Root(t0))
      modifies Nodes(shape)`count
      ensures Rep()
    {
      hide Plug, Links, PathLinks, Nodes, PathNodes, Distinct, PathDistinct, Hanging, Rep, Size, Head;
      var at := last;
      ghost var q, u, k: nat := p0, t0, 0;
      while at != null
        invariant Hanging(q, u, k) && at == Above(q) && Size(u) == k + 1
        invariant shape == Plug(q, u) && top == Head(q, Root(u))
        decreases Depth(q)
      {
        ReadCounts(q, u, k);
        AboveIn(q, u);
        StepUp(q, u);
        SetCount(at, at.count + 1, q, u, k);
        q, u, k := q.up, Make(q.side, u, at, q.red, q.sib), k + 1 + Size(q.sib);
        at := at.parent;
      }
      RepTop(q, u, k);
    }

    // FIX_COUNT: a count from the children's.
    function CountOf(n: Node<K>): nat
      reads n, Only(n.kids.left), Only(n.kids.right)
    {
      1 + (if n.kids.left == null then 0 else n.kids.left.count)
        + (if n.kids.right == null then 0 else n.kids.right.count)
    }

    method FixCountAndUp(start: Node?<K>, ghost p0: Way<K>, ghost t0: Shape<K>, ghost k0: nat)
      requires Hanging(p0, t0, k0) && start == Above(p0)
      requires shape == Plug(p0, t0) && top == Head(p0, Root(t0))
      modifies Nodes(shape)`count
      ensures Rep()
    {
      hide Plug, Links, PathLinks, Nodes, PathNodes, Distinct, PathDistinct, Hanging, Rep, Size, Head;
      var at := start;
      ghost var q, u, k: nat := p0, t0, k0;
      while at != null
        invariant Hanging(q, u, k) && at == Above(q)
        invariant shape == Plug(q, u) && top == Head(q, Root(u))
        decreases Depth(q)
      {
        ReadCounts(q, u, k);
        AboveIn(q, u);
        StepUp(q, u);
        SetCount(at, CountOf(at), q, u, k);
        q, u, k := q.up, Make(q.side, u, at, q.red, q.sib), k + 1 + Size(q.sib);
        at := at.parent;
      }
      RepTop(q, u, k);
    }

    lemma RepTop(q: Way<K>, u: Shape<K>, k: nat)
      requires Hanging(q, u, k) && q.Top? && shape == Plug(q, u) && top == Head(q, Root(u))
      ensures Rep()
    {
    }

    lemma AboveIn(q: Way<K>, u: Shape<K>)
      requires q.In? && shape == Plug(q, u)
      ensures q.node in Nodes(shape)
    {
      PlugNodes(q, u);
    }

    lemma StepUp(q: Way<K>, u: Shape<K>)
      requires q.In?
      ensures Plug(q, u) == Plug(q.up, Make(q.side, u, q.node, q.red, q.sib))
      ensures Head(q, Root(u)) == Head(q.up, q.node)
      ensures Size(Make(q.side, u, q.node, q.red, q.sib)) == Size(u) + 1 + Size(q.sib)
      ensures Root(Make(q.side, u, q.node, q.red, q.sib)) == q.node
    {
    }

    lemma StepApart(q: Way<K>, u: Shape<K>)
      requires q.In? && PathDistinct(q) && Distinct(u) && PathNodes(q) !! Nodes(u)
      ensures q.node !in Nodes(u) && q.node !in Nodes(q.sib) && q.node !in PathNodes(q.up)
      ensures (var v := Make(q.side, u, q.node, q.red, q.sib);
               PathDistinct(q.up) && Distinct(v) && PathNodes(q.up) !! Nodes(v))
    {
      NodesMake(q.side, u, q.node, q.red, q.sib);
    }

    // ---- linking a node in, taking a node out, putting a node in another's place ----

    method Attach(node: Node<K>, last: Node<K>, s: Side, ghost p: Way<K>)
      requires Rep() && shape == Plug(p, Leaf) && p.In? && last == p.node && s == p.side
      requires node !in Nodes(shape)
      modifies this`shape, Nodes(shape), node
      ensures Rep() && shape == Plug(p, Bin(Leaf, node, true, Leaf))
    {
      hide Plug, Links, PathLinks, Nodes, PathNodes, Distinct, PathDistinct, Rep, Hanging, Head;
      Open(p, Leaf);
      OpenHole(p);
      AboveIn(p, Leaf);
      ghost var t := Bin(Leaf, node, node.red, Leaf);
      PlugNodes(p, Leaf);
      PlugNodes(p, t);
      HeadLeaf(p, node);
      SingleNode(node, node.red);
      AttachLinks(node, last, s, p, Plug(p, t));
      CountInsertedUp(last, p, t);
      SetRed(node, true, p, t);
    }

    lemma OpenHole(p: Way<K>)
      requires Hangs(p, Leaf)
      ensures PathLinks(p, null, 0) && PathDistinct(p)
    {
    }

    lemma HeadLeaf(p: Way<K>, node: Node<K>)
      requires p.In?
      ensures Head(p, null) == Head(p, node)
    {
    }

    lemma EmptyLeaf(p: Way<K>)
      ensures Distinct<Node<K>>(Leaf) && PathNodes(p) !! Nodes<Node<K>>(Leaf)
    {
    }

    lemma SingleNode(node: Node<K>, red: bool)
      ensures Nodes(Bin(Leaf, node, red, Leaf)) == {node} && Size(Bin(Leaf, node, red, Leaf)) == 1
      ensures Nodes<Node<K>>(Leaf) == {}
      ensures Distinct(Bin(Leaf, node, red, Leaf))
    {
    }

    lemma LeafLinks(node: Node<K>)
      requires node.kids == Kids(null, null) && node.count == 1
      ensures Links(Bin(Leaf, node, node.red, Leaf))
    {
      assert Links<K>(Leaf);
    }

    method AttachLinks(node: Node<K>, last: Node<K>, s: Side, ghost p: Way<K>, ghost linked: Shape<K>)
      requires PathLinks(p, null, 0) && PathDistinct(p) && p.In? && last == p.node && s == p.side
      requires node !in PathNodes(p)
      modifies this`shape, node, last`kids
      ensures node.red == old(node.red) && Hanging(p, Bin(Leaf, node, node.red, Leaf), 0) && shape == linked
    {
      hide Plug, Links, PathLinks, Nodes, PathNodes, Distinct, PathDistinct, Size;
      PathParts(p, null, 0);
      SingleNode(node, node.red);
      EmptyLeaf(p);
      StepApart(p, Leaf);
      StepNodes(p);
      assert allocated(PathNodes(p.up)) && allocated(Nodes(p.sib));
      node.parent := last;
      node.kids := Kids(null, null);
      last.kids := last.kids.With(s, node);
      node.count := 1;
      shape := linked;
      PathParts(p, node, 0);
      LeafLinks(node);
      SingleNode(node, node.red);
    }

    ghost function OnlyChild(t: Shape<K>): Shape<K>
      requires t.Bin?
    {
      if t.left.Bin? then t.left else t.right
    }

    // Take out a node that has at most one child.
    method Splice(y: Node<K>, ghost p: Way<K>, ghost t: Shape<K>) returns (x: Node?<K>, nullpar: Node?<K>)
      requires Rep() && shape == Plug(p, t) && t.Bin? && t.node == y && (t.left.Leaf? || t.right.Leaf?)
      modifies this`top, this`shape, Nodes(shape)`kids, Nodes(shape)`parent, Nodes(shape)`count
      ensures Rep() && shape == Plug(p, OnlyChild(t)) && x == Root(OnlyChild(t))
      ensures if x == null then nullpar == Above(p) else nullpar == null
      ensures y.kids == old(y.kids) && y.red == old(y.red)
      ensures y !in Nodes(shape) && Nodes(shape) == old(Nodes(shape)) - {y}
    {
      hide Plug, Links, PathLinks, Nodes, PathNodes, Distinct, PathDistinct, Rep, Hanging, Head, Size;
      Read(p, t);
      ReadPath(p, t);
      ghost var c := OnlyChild(t);
      RepParts();
      Open(p, t);
      SplicedNodes(p, t, c);
      x := if y.kids.left != null then y.kids.left else y.kids.right;
      nullpar := if x == null then y.parent else null;
      ghost var above := Above(p);
      var parent := y.parent;
      SplicePieces(y, x, p, t, c);
      CutNodes(p, c);
      FixCountAndUp(parent, p, c, Size(t));
    }

    lemma CutNodes(p: Way<K>, c: Shape<K>)
      ensures Nodes(Plug(p, c)) == PathNodes(p) + Nodes(c)
    {
      PlugNodes(p, c);
    }

    lemma SplicedNodes(p: Way<K>, t: Shape<K>, c: Shape<K>)
      requires t.Bin? && (t.left.Leaf? || t.right.Leaf?) && c == OnlyChild(t)
      requires Distinct(Plug(p, t))
      ensures Nodes(Plug(p, c)) == Nodes(Plug(p, t)) - {t.node} && t.node in Nodes(Plug(p, t))
      ensures Only(Root(c)) <= Nodes(Plug(p, t)) && Only(Above(p)) <= Nodes(Plug(p, t))
      ensures PathDistinct(p) && Distinct(t) && PathNodes(p) !! Nodes(t)
      ensures PathDistinct(p) && Distinct(c) && PathNodes(p) !! Nodes(c)
      ensures Above(p) != t.node && (c.Bin? ==> c.node != t.node && c.node != Above(p))
    {
      PlugNodes(p, t);
      PlugNodes(p, c);
    }

    method SplicePieces(y: Node<K>, x: Node?<K>, ghost p: Way<K>, ghost t: Shape<K>, ghost c: Shape<K>)
      requires Hangs(p, t) && t.Bin? && t.node == y && (t.left.Leaf? || t.right.Leaf?) && c == OnlyChild(t)
      requires x == Root(c) && top == Head(p, y)
      modifies this`top, this`shape, Only(x)`parent, Only(Above(p))`kids
      ensures Hanging(p, c, Size(t)) && shape == Plug(p, c) && top == Head(p, x)
    {
      hide Plug, Links, PathLinks, Nodes, PathNodes, Distinct, PathDistinct, Size;
      SplicedApart(p, t, c);
      LinksParts(t);
      LinksParts(c);
      PathParts(p, y, Size(t));
      if p.In? {
        assert allocated(PathNodes(p.up)) && allocated(Nodes(p.sib));
      }
      assert c.Bin? ==> allocated(Nodes(c.left)) && allocated(Nodes(c.right));
      SpliceLinks(y, x, Above(p), Plug(p, c));
      LinksParts(c);
      PathParts(p, x, Size(t));
    }

    lemma SplicedApart(p: Way<K>, t: Shape<K>, c: Shape<K>)
      requires t.Bin? && c == OnlyChild(t)
      requires PathDistinct(p) && Distinct(t) && PathNodes(p) !! Nodes(t)
      ensures Distinct(c) && PathNodes(p) !! Nodes(c)
      ensures c.Bin? ==> c.node != t.node && c.node !in Nodes(c.left) && c.node !in Nodes(c.right)
      ensures p.In? ==> p.node != t.node && Root(p.sib) != t.node
      ensures p.In? ==> p.node !in PathNodes(p.up) && p.node !in Nodes(p.sib)
      ensures c.Bin? && p.In? ==> c.node != p.node && c.node !in PathNodes(p.up) && c.node !in Nodes(p.sib)
      ensures c.Bin? && p.In? ==> p.node !in Nodes(c.left) && p.node !in Nodes(c.right)
    {
    }

    // The link surgery, as far as the nodes it writes to.
    method SpliceLinks(y: Node<K>, x: Node?<K>, ghost above: Node?<K>, ghost spliced: Shape<K>)
      requires y.parent == above && x != y && above != y && (x == null || x != above)
      modifies this`top, this`shape, Only(x)`parent, Only(above)`kids
      ensures shape == spliced && top == if above == null then x else old(top)
      ensures x != null ==> x.parent == above
      ensures above != null ==>
        above.kids == old(above.kids).With(if y == old(above.kids).At(Left) then Left else Right, x)
    {
      if x != null {
        x.parent := y.parent;
      }
      if y.parent == null {
        top := x;
      } else if y == y.parent.kids.left {
        y.parent.kids := y.parent.kids.With(Left, x);
      } else {
        y.parent.kids := y.parent.kids.With(Right, x);
      }
      shape := spliced;
    }

    // Put `y`, which is not in the tree, where `z` is.  The source refreshes the counts before it writes the
    // parent links of y's two children; neither looks at what the other writes.
    method Replace(z: Node<K>, y: Node<K>, ghost p: Way<K>, ghost t: Shape<K>)
      requires Rep() && shape == Plug(p, t) && t.Bin? && t.node == z && y !in Nodes(shape)
      modifies this`top, this`shape, Nodes(shape)`kids, Nodes(shape)`parent, Nodes(shape)`count, y
      ensures Rep() && shape == Plug(p, Bin(t.left, y, t.red, t.right))
      ensures z !in Nodes(shape) && Nodes(shape) == old(Nodes(shape)) - {z} + {y}
    {
      hide Plug, Links, PathLinks, Nodes, PathNodes, Distinct, PathDistinct, Rep, Hanging, Head, Size;
      RepParts();
      Open(p, t);
      Read(p, t);
      ghost var u := Bin(t.left, y, t.red, t.right);
      ReplacedNodes(p, t, y, u);
      ReplacePieces(z, y, p, t, u);
      CutNodes(p, u);
      FixCountAndUp(y.parent, p, u, Size(t));
    }

    lemma {:induction false} ReplacedNodes(p: Way<K>, t: Shape<K>, y: Node<K>, u: Shape<K>)
      requires t.Bin? && u == Bin(t.left, y, t.red, t.right) && y !in Nodes(Plug(p, t)) && Distinct(Plug(p, t))
      ensures Nodes(Plug(p, u)) == Nodes(Plug(p, t)) - {t.node} + {y} && t.node !in Nodes(Plug(p, u))
      ensures y !in PathNodes(p) && y !in Nodes(t)
      ensures Only(Root(t.left)) <= Nodes(Plug(p, t)) && Only(Root(t.right)) <= Nodes(Plug(p, t))
      ensures Only(Above(p)) <= Nodes(Plug(p, t))
    {
      PlugNodes(p, t);
      PlugNodes(p, u);
    }

    method ReplacePieces(z: Node<K>, y: Node<K>, ghost p: Way<K>, ghost t: Shape<K>, ghost u: Shape<K>)
      requires Hangs(p, t) && t.Bin? && t.node == z && u == Bin(t.left, y, t.red, t.right)
      requires top == Head(p, z) && y !in PathNodes(p) && y !in Nodes(t)
      modifies this`top, this`shape, y, Only(Above(p))`kids, Only(Root(t.left))`parent, Only(Root(t.right))`parent
      ensures Hanging(p, u, Size(t)) && shape == Plug(p, u) && top == Head(p, y) && y.parent == Above(p)
    {
      hide Plug, Links, PathLinks, Nodes, PathNodes, Distinct, PathDistinct, Size;
      ReplacedApart(p, t, y, u);
      ghost var l, r := t.left, t.right;
      LinksParts(t);
      LinksParts(l);
      LinksParts(r);
      Counted(l);
      Counted(r);
      PathParts(p, z, Size(t));
      if p.In? {
        assert allocated(PathNodes(p.up)) && allocated(Nodes(p.sib));
      }
      assert l.Bin? ==> allocated(Nodes(l.left)) && allocated(Nodes(l.right));
      assert r.Bin? ==> allocated(Nodes(r.left)) && allocated(Nodes(r.right));
      ReplaceLinks(z, y, Above(p), Root(l), Root(r), Plug(p, u));
      LinksParts(l);
      LinksParts(r);
      SizeLeaf(t);
      SizeLeaf(u);
      LinksParts(u);
      PathParts(p, y, Size(t));
    }

    lemma SizeLeaf(t: Shape<K>)
      ensures t.Leaf? ==> Size(t) == 0
      ensures t.Bin? ==> Size(t) == Size(t.left) + 1 + Size(t.right)
      ensures t.Bin? && t.left.Leaf? ==> Size(t.left) == 0
      ensures t.Bin? && t.right.Leaf? ==> Size(t.right) == 0
    {
    }

    lemma ReplacedApart(p: Way<K>, t: Shape<K>, y: Node<K>, u: Shape<K>)
      requires t.Bin? && u == Bin(t.left, y, t.red, t.right)
      requires PathDistinct(p) && Distinct(t) && PathNodes(p) !! Nodes(t) && y !in PathNodes(p) && y !in Nodes(t)
      ensures Distinct(u) && PathNodes(p) !! Nodes(u)
      ensures Clear(p, y, t.left) && Clear(p, y, t.right) && y != t.node
      ensures (var l, r := t.left, t.right;
               (l.Bin? ==>
                 l.node != t.node
                 && (r.Bin? ==> l.node != r.node && l.node !in Nodes(r.left) && l.node !in Nodes(r.right)))
               && (r.Bin? ==> r.node != t.node && (l.Bin? ==> r.node !in Nodes(l.left) && r.node !in Nodes(l.right))))
      ensures p.In? ==> p.node != t.node && p.node != y && Root(p.sib) != t.node
      ensures p.In? ==> y !in PathNodes(p.up) && y !in Nodes(p.sib)
      ensures p.In? ==> p.node !in PathNodes(p.up) && p.node !in Nodes(p.sib)
    {
    }

    // The subtree `c` hangs clear of the path and of `y`.
    ghost predicate Clear(p: Way<K>, y: Node<K>, c: Shape<K>) {
      && (c.Bin? ==> c.node != y && c.node !in Nodes(c.left) && c.node !in Nodes(c.right))
      && (c.Bin? ==> y !in Nodes(c.left) && y !in Nodes(c.right))
      && (c.Bin? && p.In? ==> c.node != p.node && c.node !in PathNodes(p.up) && c.node !in Nodes(p.sib))
      && (c.Bin? && p.In? ==> p.node !in Nodes(c.left) && p.node !in Nodes(c.right))
    }

    method ReplaceLinks(z: Node<K>, y: Node<K>, ghost above: Node?<K>, ghost l: Node?<K>, ghost r: Node?<K>,
                        ghost replaced: Shape<K>)
      requires z.kids == Kids(l, r) && z.parent == above && y != z && above != y && above != z
      requires (l != null ==> l != y && l != z && l != above && l != r) &&
        (r != null ==> r != y && r != z && r != above)
      modifies this`top, this`shape, y, Only(above)`kids, Only(l)`parent, Only(r)`parent
      ensures shape == replaced && top == if above == null then y else old(top)
      ensures y.red == z.red && y.kids == Kids(l, r) && y.parent == above
      ensures y.count == 1 + (if l == null then 0 else l.count) + (if r == null then 0 else r.count)
      ensures (l != null ==> l.parent == y) && (r != null ==> r.parent == y)
      ensures above != null ==>
        above.kids == old(above.kids).With(if z == old(above.kids).At(Left) then Left else Right, y)
    {
      y.red := z.red;
      y.kids := z.kids;
      y.parent := z.parent;
      if y.parent != null {
        if y.parent.kids.left == z {
          y.parent.kids := y.parent.kids.With(Left, y);
        } else {
          y.parent.kids := y.parent.kids.With(Right, y);
        }
      } else {
        top := y;
      }
      y.count := CountOf(y);
      if y.kids.left != null {
        y.kids.left.parent := y;
      }
      if y.kids.right != null {
        y.kids.right.parent := y;
      }
      shape := replaced;
    }

    // ---- iteration ----

    // Follow the links on side `s` to the end.
    method Outermost(s: Side, from: Node<K>, ghost base: Way<K>, ghost t: Shape<K>)
      returns (at: Node<K>, ghost q: Way<K>, ghost u: Shape<K>)
      requires Rep() && shape == Plug(base, t) && t.Bin? && t.node == from
      ensures Rep() && Plug(q, u) == t && u.Bin? && u.node == at && u.Child(s).Leaf? && Before(s, q) == []
      ensures Walk(s, t) != [] && at == Walk(s, t)[0]
    {
      hide Links, PathLinks, Nodes, PathNodes, Distinct, PathDistinct, Rep, Walk;
      at := from;
      q, u := Top, t;
      PlugAppend(q, base, u);
      Read(Append(q, base), u);
      while at.kids.At(s) != null
        invariant Rep() && shape == Plug(base, t)
        invariant Plug(q, u) == t && u.Bin? && u.node == at && Before(s, q) == []
        invariant at.kids.At(s) == Root(u.Child(s))
        decreases u
      {
        at := at.kids.At(s);
        MakeChildren(u, s);
        q, u := In(s, q, u.node, u.red, u.Child(s.Other())), u.Child(s);
        PlugStep(q, u);
        PlugAppend(q, base, u);
        Read(Append(q, base), u);
      }
      FirstOfWalk(s, q, u);
    }

    lemma FirstOfWalk(s: Side, q: Way<K>, u: Shape<K>)
      requires u.Bin? && u.Child(s).Leaf? && Before(s, q) == []
      ensures Walk(s, Plug(q, u)) != [] && Walk(s, Plug(q, u))[0] == u.node
    {
      AtRank(s, q, u);
      EmptyWalk(s, u.Child(s));
    }

    // NEXT for s == Left, PREV for s == Right: the node after `from` when walking away from side s.
    method Next(s: Side, from: Node<K>) returns (out: Node?<K>)
      requires Rep() && from in Nodes(shape)
      ensures from in Walk(s, shape)
      ensures forall i :: 0 <= i < |Walk(s, shape)| && Walk(s, shape)[i] == from ==>
                out == if i + 1 < |Walk(s, shape)| then Walk(s, shape)[i + 1] else null
    {
      RepParts();
      hide Links, PathLinks, Nodes, PathNodes, Distinct, PathDistinct, Rep, Walk, Before, After, Plug;
      var o := s.Other();
      ghost var p, t := Locate(shape, from);
      ghost var i := Rank(s, p, t);
      AtRank(s, p, t);
      forall j | 0 <= j < |Walk(s, shape)| && Walk(s, shape)[j] == from ensures j == i { OnePlace(s, shape, i, j); }
      Read(p, t);
      if from.kids.At(o) != null {
        ghost var c := t.Child(o);
        MakeChildren(t, o);
        ghost var base := In(o, p, from, t.red, t.Child(s));
        PlugStep(base, c);
        ghost var q, u;
        out, q, u := Outermost(s, from.kids.At(o), base, c);
        AtRank(s, q, u);
        EmptyWalk(s, u.Child(s));
        NextInSlice(Walk(s, shape), i, Walk(s, c) + After(s, p), out);
      } else {
        EmptyWalk(s, t.Child(o));
        out := Climb(s, from, p, t);
        assert Walk(s, shape)[i + 1..] == After(s, p);
      }
    }

    lemma EmptyWalk(s: Side, t: Shape<K>)
      ensures t.Leaf? ==> Walk(s, t) == []
    {
    }

    lemma NextInSlice(w: seq<Node<K>>, i: nat, tail: seq<Node<K>>, n: Node<K>)
      requires i < |w| && w[i + 1..] == tail && |tail| > 0 && tail[0] == n
      ensures i + 1 < |w| && w[i + 1] == n
    {
    }

    // Up to the first node that is left on side s.
    method Climb(s: Side, from: Node<K>, ghost p0: Way<K>, ghost t0: Shape<K>) returns (parent: Node?<K>)
      requires Rep() && shape == Plug(p0, t0) && t0.Bin? && t0.node == from
      ensures parent == if After(s, p0) == [] then null else After(s, p0)[0]
    {
      hide Links, PathLinks, Nodes, PathNodes, Distinct, PathDistinct, Rep, Walk, Plug;
      var at := from;
      parent := from.parent;
      ghost var p, t := p0, t0;
      ReadPath(p, t);
      while parent != null && at == parent.kids.At(s.Other())
        invariant Rep() && shape == Plug(p, t) && t.Bin? && t.node == at
        invariant parent == Above(p) && After(s, p) == After(s, p0)
        invariant p.In? ==> p.node.kids.At(p.side) == at && p.node.kids.At(p.side.Other()) != at
        decreases p
      {
        PlugStep(p, t);
        ReadPath(p, t);
        p, t := p.up, Make(p.side, t, p.node, p.red, p.sib);
        ReadPath(p, t);
        at := parent;
        parent := parent.parent;
      }
    }

    // FIRST for s == Left, LAST for s == Right.
    method First(s: Side) returns (out: Node?<K>)
      requires Rep()
      ensures out == if shape.Leaf? then null else Walk(s, shape)[0]
    {
      out := top;
      if out != null {
        ghost var q, u;
        out, q, u := Outermost(s, out, Top, shape);
        AtRank(s, q, u);
      }
    }

    // ---- search ----

    // A comparator: antisymmetric and transitive.
    ghost predicate Comparator() {
      && (forall a, b :: compare(a, b) < 0 <==> compare(b, a) > 0)
      && (forall a, b, c :: compare(a, b) <= 0 && compare(b, c) <= 0 ==> compare(a, c) <= 0)
    }

    // The comparator seen from side s: INFIMUM is SUPREMUM with the sense of the comparator and the sides exchanged.
    function Cmp(s: Side, a: K, b: K): int {
      if s.Left? then compare(a, b) else -compare(a, b)
    }

    ghost predicate Sorted(s: Side, w: seq<Node<K>>) {
      forall i, j :: 0 <= i < j < |w| ==> Cmp(s, w[i].key, w[j].key) < 0
    }

    ghost predicate AllBelow(s: Side, w: seq<Node<K>>, key: K) {
      forall i :: 0 <= i < |w| ==> Cmp(s, w[i].key, key) < 0
    }

    ghost predicate AllAbove(s: Side, key: K, w: seq<Node<K>>, orEqual: bool) {
      forall i :: 0 <= i < |w| ==> Cmp(s, key, w[i].key) < 0 || (orEqual && Cmp(s, key, w[i].key) == 0)
    }

    // The descent for `key` has come to `t`: what lies before is below the key, what lies after is above it.
    ghost predicate Narrowed(s: Side, p: Way<K>, t: Shape<K>, key: K, orEqual: bool) {
      && Comparator() && Sorted(s, Walk(s, Plug(p, t)))
      && AllBelow(s, Before(s, p), key) && AllAbove(s, key, After(s, p), orEqual)
    }

    ghost predicate Valid()
      reads this, Nodes(shape)
    {
      Rep() && RedBlack(shape) && Comparator() && Sorted(Left, InOrder(shape))
    }

    // The keys come in strictly ascending order.
    lemma Ascending(i: nat, j: nat)
      requires Valid() && i < j < |InOrder(shape)|
      ensures compare(InOrder(shape)[i].key, InOrder(shape)[j].key) < 0
    {
      hide InOrder, Rep, RedBlack;
      assert Cmp(Left, InOrder(shape)[i].key, InOrder(shape)[j].key) < 0;
    }

    lemma Senses(a: K, b: K)
      ensures Cmp(Left, a, b) == compare(a, b) && Cmp(Right, a, b) == -compare(a, b)
    {
    }

    lemma SortedWalk(s: Side, t: Shape<K>)
      requires Comparator() && Sorted(Left, InOrder(t))
      ensures Sorted(s, Walk(s, t))
    {
      WalkSize(Left, t);
      WalkSize(Right, t);
      if s.Right? {
        forall i, j | 0 <= i < j < Size(t) ensures Cmp(s, Walk(s, t)[i].key, Walk(s, t)[j].key) < 0 {
          WalkReverse(t, i);
          WalkReverse(t, j);
        }
      }
    }

    lemma Strict(s: Side, a: K, b: K, c: K)
      requires Comparator()
      ensures Cmp(s, a, b) < 0 && Cmp(s, b, c) <= 0 ==> Cmp(s, a, c) < 0
      ensures Cmp(s, a, b) <= 0 && Cmp(s, b, c) < 0 ==> Cmp(s, a, c) < 0
      ensures Cmp(s, a, a) == 0
      ensures Cmp(s, a, b) == 0 <==> Cmp(s, b, a) == 0
      ensures Cmp(s, a, b) < 0 <==> Cmp(s, b, a) > 0
    {
    }

    // Everything before a node is below it and everything after it is above it.
    lemma SortedAt(s: Side, p: Way<K>, t: Shape<K>, key: K)
      requires Comparator() && Sorted(s, Walk(s, Plug(p, t))) && t.Bin?
      ensures Cmp(s, t.node.key, key) <= 0 ==> AllBelow(s, Before(s, p) + Walk(s, t.Child(s)), key)
      ensures Cmp(s, key, t.node.key) <= 0 ==> AllAbove(s, key, Walk(s, t.Child(s.Other())) + After(s, p), false)
    {
      hide Walk, Before, After, Plug;
      AtRank(s, p, t);
      var w, r, n := Walk(s, Plug(p, t)), Rank(s, p, t), t.node;
      var lo, hi := Before(s, p) + Walk(s, t.Child(s)), Walk(s, t.Child(s.Other())) + After(s, p);
      if Cmp(s, n.key, key) <= 0 {
        forall i | 0 <= i < |lo| ensures Cmp(s, lo[i].key, key) < 0 {
          assert lo[i] == w[..r][i] == w[i];
          Strict(s, lo[i].key, n.key, key);
        }
      }
      if Cmp(s, key, n.key) <= 0 {
        forall i | 0 <= i < |hi| ensures Cmp(s, key, hi[i].key) < 0 {
          assert hi[i] == w[r + 1..][i] == w[r + 1 + i];
          Strict(s, key, n.key, hi[i].key);
        }
      }
    }

    // Going down one step on side s, or on the other side.
    lemma StepDown(s: Side, p: Way<K>, t: Shape<K>)
      requires t.Bin?
      ensures (var q := In(s, p, t.node, t.red, t.Child(s.Other()));
               Before(s, q) == Before(s, p) && After(s, q) == [t.node] + (Walk(s, t.Child(s.Other())) + After(s, p))
               && Plug(q, t.Child(s)) == Plug(p, t))
      ensures (var q := In(s.Other(), p, t.node, t.red, t.Child(s));
               Before(s, q) == (Before(s, p) + Walk(s, t.Child(s))) + [t.node] && After(s, q) == After(s, p)
               && Plug(q, t.Child(s.Other())) == Plug(p, t))
    {
      MakeChildren(t, s);
      MakeChildren(t, s.Other());
    }

    // A descent makes at most 2*log2(n + 1) comparisons.
    lemma DescentBound(p: Way<K>, t: Shape<K>, steps: nat)
      requires RedBlack(Plug(p, t)) && steps <= Depth(p) + Height(t)
      ensures Pow2((steps + 1) / 2) <= Size(Plug(p, t)) + 1
    {
      HeightBound(Plug(p, t));
      PlugHeight(p, t);
      Pow2Monotone((steps + 1) / 2, (Height(Plug(p, t)) + 1) / 2);
    }

    lemma NarrowedTop(s: Side, t: Shape<K>, key: K, orEqual: bool)
      requires Comparator() && Sorted(Left, InOrder(t))
      ensures Narrowed(s, Top, t, key, orEqual) && Plug(Top, t) == t && After(s, Path<Node<K>>.Top) == []
    {
      SortedWalk(s, t);
    }

    lemma Narrow(s: Side, p: Way<K>, t: Shape<K>, key: K, orEqual: bool)
      requires Narrowed(s, p, t, key, orEqual) && t.Bin?
      ensures Cmp(s, key, t.node.key) < 0 || (orEqual && Cmp(s, key, t.node.key) == 0) ==>
        (var q := In(s, p, t.node, t.red, t.Child(s.Other()));
         Narrowed(s, q, t.Child(s), key, orEqual) && |After(s, q)| > 0 && After(s, q)[0] == t.node)
      ensures Cmp(s, key, t.node.key) > 0 ==>
        (var q := In(s.Other(), p, t.node, t.red, t.Child(s));
         Narrowed(s, q, t.Child(s.Other()), key, orEqual) && After(s, q) == After(s, p))
      ensures Plug(In(s, p, t.node, t.red, t.Child(s.Other())), t.Child(s)) == Plug(p, t)
      ensures Plug(In(s.Other(), p, t.node, t.red, t.Child(s)), t.Child(s.Other())) == Plug(p, t)
    {
      hide Walk, Before, After, Plug;
      SortedAt(s, p, t, key);
      StepDown(s, p, t);
      Strict(s, key, t.node.key, key);
    }

    // At a leaf the whole walk splits into what is below and what is above.
    lemma NarrowedOut(s: Side, p: Way<K>, key: K, orEqual: bool)
      requires Narrowed(s, p, Leaf, key, orEqual)
      ensures Walk(s, Plug(p, Leaf)) == Before(s, p) + After(s, p)
      ensures forall n :: n in Before(s, p) ==> Cmp(s, n.key, key) < 0
      ensures forall n :: n in After(s, p) ==> Cmp(s, key, n.key) < 0 || (orEqual && Cmp(s, key, n.key) == 0)
    {
      PlugWalk(s, p, Leaf);
    }

    // LOOKUP: the exact match; `steps` counts the comparisons.
    method Lookup(key: K) returns (out: Node?<K>, steps: nat)
      requires Valid()
      ensures out == null ==> forall n :: n in InOrder(shape) ==> compare(key, n.key) != 0
      ensures out != null ==> out in InOrder(shape) && compare(key, out.key) == 0
      ensures Pow2((steps + 1) / 2) <= Size(shape) + 1
    {
      hide Links, PathLinks, Nodes, PathNodes, Distinct, PathDistinct, Rep, Plug, Walk, Before, After, Narrowed,
        Sorted, Comparator, RedBlack;
      var at := top;
      steps := 0;
      ghost var p, t := Top, shape;
      RepParts();
      NarrowedTop(Left, t, key, false);
      while at != null
        invariant Rep() && shape == Plug(p, t) && at == Root(t) && steps == Depth(p)
        invariant Narrowed(Left, p, t, key, false)
        decreases t
      {
        Read(p, t);
        Narrow(Left, p, t, key, false);
        steps := steps + 1;
        if compare(key, at.key) < 0 {
          p, t := In(Left, p, t.node, t.red, t.right), t.left;
          at := at.kids.left;
        } else if compare(key, at.key) > 0 {
          p, t := In(Right, p, t.node, t.red, t.left), t.right;
          at := at.kids.right;
        } else {
          DescentBound(p, t, steps);
          AtRank(Left, p, t);
          return at, steps;
        }
      }
      out := null;
      DescentBound(p, t, steps);
      NarrowedOut(Left, p, key, false);
      forall n | n in InOrder(shape) ensures compare(key, n.key) != 0 {
        Strict(Left, key, n.key, key);
      }
    }

    // SUPREMUM for s == Left (the first node not before the key), INFIMUM for s == Right (the last not after it).
    method Bound(s: Side, key: K) returns (out: Node?<K>, steps: nat)
      requires Valid()
      ensures out == null ==> forall n :: n in Walk(s, shape) ==> Cmp(s, n.key, key) < 0
      ensures out != null ==> out in Walk(s, shape) && Cmp(s, key, out.key) <= 0
      ensures forall n :: n in Walk(s, shape) && Cmp(s, key, n.key) <= 0 ==>
        out != null && (n == out || Cmp(s, out.key, n.key) < 0)
      ensures Pow2((steps + 1) / 2) <= Size(shape) + 1
    {
      hide Links, PathLinks, Nodes, PathNodes, Distinct, PathDistinct, Rep, Plug, Walk, Before, After, Narrowed,
        Sorted, Comparator, RedBlack;
      var at := top;
      out, steps := null, 0;
      ghost var p, t := Top, shape;
      RepParts();
      NarrowedTop(s, t, key, true);
      while at != null
        invariant Rep() && shape == Plug(p, t) && at == Root(t) && steps == Depth(p)
        invariant Narrowed(s, p, t, key, true)
        invariant out == if After(s, p) == [] then null else After(s, p)[0]
        decreases t
      {
        Read(p, t);
        Narrow(s, p, t, key, true);
        steps := steps + 1;
        if Cmp(s, key, at.key) <= 0 {
          out := at;
          p, t := In(s, p, t.node, t.red, t.Child(s.Other())), t.Child(s);
          at := at.kids.At(s);
        } else {
          p, t := In(s.Other(), p, t.node, t.red, t.Child(s)), t.Child(s.Other());
          at := at.kids.At(s.Other());
        }
      }
      DescentBound(p, t, steps);
      NarrowedOut(s, p, key, true);
      LeastAbove(s, shape, Before(s, p), After(s, p), key);
    }

    lemma LeastAbove(s: Side, t: Shape<K>, lo: seq<Node<K>>, hi: seq<Node<K>>, key: K)
      requires Comparator() && Sorted(Left, InOrder(t)) && Walk(s, t) == lo + hi
      requires forall n :: n in lo ==> Cmp(s, n.key, key) < 0
      ensures hi != [] ==> hi[0] in Walk(s, t)
      ensures forall n :: n in Walk(s, t) && Cmp(s, key, n.key) <= 0 ==>
        hi != [] && (n == hi[0] || Cmp(s, hi[0].key, n.key) < 0)
    {
      SortedWalk(s, t);
      if hi != [] {
        assert Walk(s, t)[|lo|] == hi[0];
      }
      forall n | n in Walk(s, t) && Cmp(s, key, n.key) <= 0
        ensures hi != [] && (n == hi[0] || Cmp(s, hi[0].key, n.key) < 0)
      {
        Strict(s, n.key, key, n.key);
        var i :| 0 <= i < |hi| && hi[i] == n;
        assert Walk(s, t)[|lo| + i] == n;
      }
    }

    // ---- index queries ----

    // GET_BY_INDEX: the index-th node, or nothing when there are not that many.
    method GetByIndex(index: nat) returns (out: Node?<K>)
      requires Rep()
      ensures out == if index < |InOrder(shape)| then InOrder(shape)[index] else null
    {
      hide Links, PathLinks, Nodes, PathNodes, Distinct, PathDistinct, Rep, Plug, Walk, Before, After, Size;
      RepParts();
      TopWalk();
      ghost var p, t := Top, shape;
      PlugTop(shape);
      WalkSize(Left, shape);
      if top != null {
        Read(p, t);
      }
      EmptyWalk(Left, shape);
      if top == null || index >= top.count {
        return null;
      }
      var at := top;
      var rest: nat := index;
      while true
        invariant Rep() && shape == Plug(p, t) && t.Bin? && at == t.node
        invariant index == |Before(Left, p)| + rest && rest < Size(t)
        decreases t
      {
        Read(p, t);
        AtRank(Left, p, t);
        StepDown(Left, p, t);
        StepDown(Right, p, t);
        ReadSizes(p, t);
        var leftSize := if at.kids.left == null then 0 else at.kids.left.count;
        if rest < leftSize {
          at := at.kids.left;
          p, t := In(Left, p, t.node, t.red, t.right), t.left;
        } else if rest == leftSize {
          return at;
        } else {
          rest := rest - (leftSize + 1);
          at := at.kids.right;
          p, t := In(Right, p, t.node, t.red, t.left), t.right;
        }
      }
    }

    lemma PlugTop(t: Shape<K>)
      ensures Plug(Top, t) == t
    {
    }

    // The counts of the two children are the lengths of their walks.
    lemma ReadSizes(p: Way<K>, t: Shape<K>)
      requires Rep() && shape == Plug(p, t) && t.Bin?
      ensures (if t.left.Leaf? then 0 else t.left.node.count) == Size(t.left) == |Walk(Left, t.left)|
      ensures (if t.right.Leaf? then 0 else t.right.node.count) == Size(t.right)
      ensures Size(t) == Size(t.left) + 1 + Size(t.right)
      ensures (t.left.Bin? <==> Size(t.left) > 0) && (t.right.Bin? <==> Size(t.right) > 0)
    {
      hide Links, PathLinks, Nodes, PathNodes, Distinct, PathDistinct, Rep, Plug;
      StepDown(Left, p, t);
      StepDown(Right, p, t);
      WalkSize(Left, t.left);
      Read(p, t);
      if t.left.Bin? {
        Read(In(Left, p, t.node, t.red, t.right), t.left);
      }
      if t.right.Bin? {
        Read(In(Right, p, t.node, t.red, t.left), t.right);
      }
    }

    // GET_NODE_INDEX: the place of a node of the tree.
    method GetNodeIndex(node: Node<K>) returns (index: nat)
      requires Rep() && node in Nodes(shape)
      ensures index < |InOrder(shape)| && InOrder(shape)[index] == node
    {
      hide Links, PathLinks, Nodes, PathNodes, Distinct, PathDistinct, Rep, Plug, Walk, Before, After;
      ghost var p, t := Locate(shape, node);
      AtRank(Left, p, t);
      ReadSizes(p, t);
      Read(p, t);
      ReadPath(p, t);
      var at := node;
      index := if at.kids.left == null then 0 else at.kids.left.count;
      while at.parent != null
        invariant Rep() && shape == Plug(p, t) && t.Bin? && at == t.node && at.parent == Above(p)
        invariant index < Size(t) && |Before(Left, p)| + index < |InOrder(shape)|
        invariant InOrder(shape)[|Before(Left, p)| + index] == node
        decreases p
      {
        ReadPath(p, t);
        PlugStep(p, t);
        ghost var u := Make(p.side, t, p.node, p.red, p.sib);
        ReadSizes(p.up, u);
        Read(p.up, u);
        ReadPath(p.up, u);
        BeforeStep(p, t);
        if at.parent.kids.left == at {
        } else {
          if at.parent.kids.left != null {
            index := index + at.parent.kids.left.count;
          }
          index := index + 1;
        }
        at := at.parent;
        p, t := p.up, u;
      }
      TopWalk();
    }

    lemma BeforeStep(p: Way<K>, t: Shape<K>)
      requires p.In?
      ensures |Before(Left, p)| == |Before(Left, p.up)| + if p.side.Left? then 0 else |Walk(Left, p.sib)| + 1
    {
    }

    // A node has one place only, so the two queries are inverse to each other.
    lemma {:induction false} OnePlace(s: Side, t: Shape<K>, i: nat, j: nat)
      requires Distinct(t) && i < |Walk(s, t)| && j < |Walk(s, t)| && Walk(s, t)[i] == Walk(s, t)[j]
      ensures i == j
      decreases t
    {
      var near, far := t.Child(s), t.Child(s.Other());
      var l, n, r := Walk(s, near), t.node, Walk(s, far);
      WalkChild(s, t);
      WalkNodes(s, near, Walk(s, t)[i]);
      WalkNodes(s, far, Walk(s, t)[i]);
      if i < |l| && j < |l| {
        OnePlace(s, near, i, j);
      } else if i > |l| && j > |l| {
        OnePlace(s, far, i - |l| - 1, j - |l| - 1);
      } else if i < |l| || j < |l| {
        assert Walk(s, t)[i] in l;
      }
    }

    // ---- INSERT and REMOVE ----

    // INSERT: either the one node with an equal key, and nothing changes, or the node is added; `i` is its place.
    method Insert(node: Node<K>) returns (collision: Node?<K>, ghost i: nat)
      requires Valid() && node !in Nodes(shape)
      modifies this, Nodes(shape), node
      ensures Valid()
      ensures collision != null ==> shape == old(shape) && top == old(top) && unchanged(node)
      ensures collision != null ==> collision in InOrder(shape) && compare(collision.key, node.key) == 0
      ensures collision == null ==>
        i <= |old(InOrder(shape))| && InOrder(shape) == Inserted(old(InOrder(shape)), i, node)
      ensures collision == null ==> Nodes(shape) == old(Nodes(shape)) + {node}
    {
      hide Links, PathLinks, Nodes, PathNodes, Distinct, PathDistinct, Rep, Plug, Walk, Before, After, Narrowed,
        Sorted, Comparator, RedBlack;
      var last, s;
      ghost var p;
      collision, last, s, p := FindPlace(node.key);
      i := 0;
      if collision == null {
        NarrowedOut(Left, p, node.key, false);
        ghost var lo, hi := Before(Left, p), After(Left, p);
        i := |lo|;
        SortedInsert(lo, hi, node);
        assert InOrder(shape)[..i] == lo && InOrder(shape)[i..] == hi;
        if last == null {
          TopWalk();
          AddFirst(node);
          assert lo + [node] + hi == [node];
        } else {
          AddBelow(node, last, s, p);
        }
      }
    }

    lemma TopWalk()
      ensures Before(Left, Path<Node<K>>.Top) == [] && After(Left, Path<Node<K>>.Top) == []
      ensures Plug<Node<K>>(Top, Leaf) == Leaf && Nodes<Node<K>>(Leaf) == {}
    {
    }

    // The descent of INSERT: a node with an equal key, or the leaf where the new node belongs.
    method FindPlace(key: K) returns (collision: Node?<K>, last: Node?<K>, s: Side, ghost p: Way<K>)
      requires Valid()
      ensures Valid()
      ensures collision != null ==> collision in InOrder(shape) && compare(collision.key, key) == 0
      ensures collision == null ==> shape == Plug(p, Leaf) && last == Above(p) && (p.In? ==> s == p.side)
      ensures collision == null ==> Narrowed(Left, p, Leaf, key, false)
    {
      hide Links, PathLinks, Nodes, PathNodes, Distinct, PathDistinct, Rep, Plug, Walk, Before, After, Narrowed,
        Sorted, Comparator, RedBlack;
      last, s, collision := null, Right, null;
      var at := top;
      p := Top;
      ghost var t := shape;
      RepParts();
      NarrowedTop(Left, t, key, false);
      while at != null
        invariant Rep() && shape == Plug(p, t) && at == Root(t) && last == Above(p)
        invariant p.In? ==> s == p.side
        invariant Narrowed(Left, p, t, key, false)
        decreases t
      {
        Read(p, t);
        Narrow(Left, p, t, key, false);
        Strict(Left, key, at.key, key);
        last := at;
        if compare(at.key, key) > 0 {
          s := Left;
          p, t := In(Left, p, t.node, t.red, t.right), t.left;
          at := at.kids.left;
        } else if compare(at.key, key) < 0 {
          s := Right;
          p, t := In(Right, p, t.node, t.red, t.left), t.right;
          at := at.kids.right;
        } else {
          AtRank(Left, p, t);
          return at, last, s, p;
        }
      }
    }

    ghost function Inserted(w: seq<Node<K>>, i: nat, n: Node<K>): seq<Node<K>>
      requires i <= |w|
    {
      w[..i] + [n] + w[i..]
    }

    lemma SortedInsert(lo: seq<Node<K>>, hi: seq<Node<K>>, node: Node<K>)
      requires Comparator() && Sorted(Left, lo + hi)
      requires forall n :: n in lo ==> Cmp(Left, n.key, node.key) < 0
      requires forall n :: n in hi ==> Cmp(Left, node.key, n.key) < 0
      ensures Sorted(Left, lo + [node] + hi)
    {
      var w, v := lo + hi, lo + [node] + hi;
      assert forall k :: 0 <= k < |lo| ==> v[k] == w[k];
      assert forall k :: |lo| < k < |v| ==> v[k] == w[k - 1];
    }

    method AddFirst(node: Node<K>)
      requires Rep() && shape.Leaf?
      modifies this`top, this`shape, node
      ensures Rep() && RedBlack(shape) && InOrder(shape) == [node] && Nodes(shape) == {node}
    {
      top := node;
      node.red := false;
      node.kids, node.parent := Kids(null, null), null;
      node.count := 1;
      shape := Bin(Leaf, node, false, Leaf);
      LeafLinks(node);
      SingleNode(node, false);
      assert Coloured(shape, 1);
      EmptyWalk(Left, Leaf);
      WalkChild(Left, shape);
    }

    method AddBelow(node: Node<K>, last: Node<K>, s: Side, ghost p: Way<K>)
      requires Rep() && RedBlack(shape) && shape == Plug(p, Leaf) && p.In? && last == p.node && s == p.side
      requires node !in Nodes(shape)
      modifies this, Nodes(shape), node
      ensures Rep() && RedBlack(shape) && InOrder(shape) == Before(Left, p) + [node] + After(Left, p)
      ensures Nodes(shape) == old(Nodes(shape)) + {node}
    {
      hide Links, PathLinks, Nodes, PathNodes, Distinct, PathDistinct, Rep, Plug, Before, After;
      ghost var h :| Coloured(shape, h);
      ghost var k := UnplugColoured(p, Leaf, h);
      ghost var t := Bin(Leaf, node, true, Leaf);
      CutNodes(p, Leaf);
      CutNodes(p, t);
      SingleNode(node, true);
      PlugWalk(Left, p, t);
      Attach(node, last, s, p);
      InsertFixup(node, p, t, k);
    }

    ghost function Without(w: seq<Node<K>>, i: nat): seq<Node<K>>
      requires i < |w|
    {
      w[..i] + w[i + 1..]
    }

    // REMOVE: exactly the node goes, and its own links are cleared.
    method Remove(node: Node<K>) returns (ghost i: nat)
      requires Valid() && node in Nodes(shape)
      modifies this, Nodes(shape)
      ensures Valid() && Nodes(shape) == old(Nodes(shape)) - {node}
      ensures i < |old(InOrder(shape))| && old(InOrder(shape))[i] == node
      ensures InOrder(shape) == Without(old(InOrder(shape)), i)
      ensures node.kids == Kids(null, null) && node.parent == null
    {
      hide Links, PathLinks, Nodes, PathNodes, Distinct, PathDistinct, Rep, Plug, Walk, Before, After, Sorted,
        Comparator, RedBlack;
      ghost var p, t := Locate(shape, node);
      i := Rank(Left, p, t);
      AtRank(Left, p, t);
      Read(p, t);
      ghost var w := InOrder(shape);
      if node.kids.left == null || node.kids.right == null {
        RemoveLow(node, p, t);
      } else {
        RemoveHigh(node, p, t);
      }
      SortedWithout(w, i);
      node.kids := Kids(null, null);
      node.parent := null;
    }

    lemma SortedWithout(w: seq<Node<K>>, i: nat)
      requires Sorted(Left, w) && i < |w|
      ensures Sorted(Left, Without(w, i))
    {
      var v := Without(w, i);
      assert forall k :: 0 <= k < i ==> v[k] == w[k];
      assert forall k :: i <= k < |v| ==> v[k] == w[k + 1];
    }

    // The node itself is taken out.
    method RemoveLow(z: Node<K>, ghost p: Way<K>, ghost t: Shape<K>)
      requires Rep() && RedBlack(shape) && shape == Plug(p, t) && t.Bin? && t.node == z &&
        (t.left.Leaf? || t.right.Leaf?)
      modifies this, Nodes(shape)
      ensures Rep() && RedBlack(shape) && Nodes(shape) == old(Nodes(shape)) - {z}
      ensures Rank(Left, p, t) < |old(InOrder(shape))|
      ensures InOrder(shape) == Without(old(InOrder(shape)), Rank(Left, p, t))
    {
      hide Links, PathLinks, Nodes, PathNodes, Distinct, PathDistinct, Rep, Plug, Walk, Before, After;
      ghost var h :| Coloured(shape, h);
      ghost var k := UnplugColoured(p, t, h);
      ghost var c := OnlyChild(t);
      SplicedColours(t, c, k);
      RankSpliced(p, t, c);
      Read(p, t);
      var fixup := !z.red;
      var x, nullpar := Splice(z, p, t);
      FinishRemove(fixup, x, nullpar, p, c, k);
    }

    lemma RankSpliced(p: Way<K>, t: Shape<K>, c: Shape<K>)
      requires t.Bin? && (t.left.Leaf? || t.right.Leaf?) && c == OnlyChild(t)
      ensures Rank(Left, p, t) < |InOrder(Plug(p, t))|
      ensures InOrder(Plug(p, c)) == Without(InOrder(Plug(p, t)), Rank(Left, p, t))
    {
      hide Walk, Before, After, Plug;
      AtRank(Left, p, t);
      SplicedWalk(p, t, c);
    }

    method FinishRemove(fixup: bool, x: Node?<K>, nullpar: Node?<K>, ghost p: Way<K>, ghost c: Shape<K>, ghost h: nat)
      requires Rep() && shape == Plug(p, c) && x == Root(c) && (x == null ==> nullpar == Above(p)) && PathColoured(p, h)
      requires !fixup ==> Coloured(c, h) && !IsRed(c)
      requires fixup ==> h > 0 && if IsRed(c) then Coloured(SetRoot(c, false), h) else Coloured(c, h - 1)
      modifies this, Nodes(shape)
      ensures Rep() && RedBlack(shape) && Nodes(shape) == old(Nodes(shape)) && InOrder(shape) == old(InOrder(shape))
    {
      hide Links, PathLinks, Nodes, PathNodes, Distinct, PathDistinct, Rep, Plug, Walk, Before, After;
      if fixup {
        RemoveFixup(x, nullpar, p, c, h - 1);
      } else {
        PlugColoured(p, c, h);
      }
    }

    // The node's successor is taken out and put in its place.
    method RemoveHigh(z: Node<K>, ghost p: Way<K>, ghost t: Shape<K>)
      requires Rep() && RedBlack(shape) && shape == Plug(p, t) && t.Bin? && t.node == z && t.left.Bin? && t.right.Bin?
      modifies this, Nodes(shape)
      ensures Rep() && RedBlack(shape) && Nodes(shape) == old(Nodes(shape)) - {z}
      ensures Rank(Left, p, t) < |old(InOrder(shape))|
      ensures InOrder(shape) == Without(old(InOrder(shape)), Rank(Left, p, t))
    {
      hide Links, PathLinks, Nodes, PathNodes, Distinct, PathDistinct, Rep, Plug, Walk, Before, After, Append;
      ghost var h :| Coloured(shape, h);
      ghost var c, base := t.right, In(Right, p, z, t.red, t.left);
      Read(p, t);
      RepParts();
      PlugStep(base, c);
      var y;
      ghost var q, u;
      y, q, u := Outermost(Left, z.kids.right, base, c);
      ghost var r := Append(q, base);
      PlugAppend(q, base, u);
      ghost var k := UnplugColoured(r, u, h);
      SplicedColours(u, u.right, k);
      Read(r, u);
      var fixup := !y.red;
      RankSuccessor(p, t, q, u, y);
      AppendEnd(q, base);
      EndsApart(p, t, q, u);
      var x, nullpar := Splice(y, r, u);
      PlugAppend(q, base, u.right);
      ghost var v := Plug(q, u.right);
      ghost var t1 := Bin(t.left, z, t.red, v);
      PlugStep(base, v);
      Read(p, t1);
      Replace(z, y, p, t1);
      if nullpar == z {
        nullpar := y;
      }
      ghost var base2 := In(Right, p, y, t.red, t.left);
      PlugStep(base2, v);
      PlugAppend(q, base2, u.right);
      AppendEnd(q, base2);
      SwapColours(q, Right, p, z, y, t.red, t.left, k);
      FinishRemove(fixup, x, nullpar, Append(q, base2), u.right, k);
    }

    lemma RankSuccessor(p: Way<K>, t: Shape<K>, q: Way<K>, u: Shape<K>, y: Node<K>)
      requires t.Bin? && t.right == Plug(q, u) && u.Bin? && u.left.Leaf? && u.node == y && Before(Left, q) == []
      ensures Rank(Left, p, t) < |InOrder(Plug(p, t))|
      ensures InOrder(Plug(Append(q, In(Right, p, y, t.red, t.left)), u.right))
        == Without(InOrder(Plug(p, t)), Rank(Left, p, t))
    {
      hide Walk, Before, After, Plug, Append;
      AtRank(Left, p, t);
      SuccessorWalk(p, t, q, u);
    }

    // The node at the end of the path inside the right subtree is not the root of `t`.
    lemma EndsApart(p: Way<K>, t: Shape<K>, q: Way<K>, u: Shape<K>)
      requires t.Bin? && t.right == Plug(q, u) && Distinct(Plug(p, t))
      ensures q.In? ==> q.node != t.node
    {
      PlugNodes(p, t);
      PlugNodes(q, u);
    }
  }
}
