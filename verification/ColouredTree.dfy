/**
 * Values that describe the shape of an intrusive red-black tree: the tree itself, and the path from the root
 * down to one position in it.  The heap layer (module RbcTree) keeps such a tree as a ghost field.
 *
 * `Side` plays the part of the (left, right) pair of macro parameters: a macro expanded with the two names
 * exchanged is the same code at the other side.
 */
module ColouredTree {
  import opened Powers

  datatype Side = Left | Right {
    function Other(): Side {
      if Left? then Right else Left
    }
  }

  datatype Tree<N> = Leaf | Bin(left: Tree<N>, node: N, red: bool, right: Tree<N>) {
    function Child(s: Side): Tree<N>
      requires Bin?
    {
      if s.Left? then left else right
    }
  }

  // The way from the root (Top) to a position: each In holds the node passed, the side on which the position
  // hangs below it, and the sibling subtree.
  datatype Path<N> = Top | In(side: Side, up: Path<N>, node: N, red: bool, sib: Tree<N>)

  function Make<N>(s: Side, near: Tree<N>, n: N, red: bool, far: Tree<N>): Tree<N> {
    if s.Left? then Bin(near, n, red, far) else Bin(far, n, red, near)
  }

  function Plug<N>(p: Path<N>, t: Tree<N>): Tree<N>
    decreases p
  {
    match p
    case Top => t
    case In(s, up, n, red, sib) => Plug(up, Make(s, t, n, red, sib))
  }

  lemma PlugStep<N>(p: Path<N>, t: Tree<N>)
    requires p.In?
    ensures Plug(p, t) == Plug(p.up, Make(p.side, t, p.node, p.red, p.sib))
  {
  }

  // The sibling can be taken for the position and the position for the sibling.
  lemma PlugFlip<N>(p: Path<N>, t: Tree<N>)
    requires p.In?
    ensures Plug(p, t) == Plug(In(p.side.Other(), p.up, p.node, p.red, t), p.sib)
  {
  }

  lemma MakeFlip<N>(s: Side, near: Tree<N>, n: N, red: bool, far: Tree<N>)
    ensures Make(s, near, n, red, far) == Make(s.Other(), far, n, red, near)
  {
  }

  lemma MakeChildren<N>(t: Tree<N>, s: Side)
    requires t.Bin?
    ensures t == Make(s, t.Child(s), t.node, t.red, t.Child(s.Other()))
  {
  }

  // ---- content ----

  // The nodes met when walking away from side `s`: in-order for Left, reverse in-order for Right.
  function Walk<N>(s: Side, t: Tree<N>): seq<N> {
    match t
    case Leaf => []
    case Bin(l, n, _, r) =>
      if s.Left? then Walk(s, l) + [n] + Walk(s, r) else Walk(s, r) + [n] + Walk(s, l)
  }

  function InOrder<N>(t: Tree<N>): seq<N> {
    Walk(Left, t)
  }

  // Left subtree, root, right subtree.
  lemma InOrderParts<N>(l: Tree<N>, n: N, red: bool, r: Tree<N>)
    ensures InOrder(Bin(l, n, red, r)) == InOrder(l) + [n] + InOrder(r)
  {
  }

  function Size<N>(t: Tree<N>): nat {
    match t
    case Leaf => 0
    case Bin(l, _, _, r) => Size(l) + 1 + Size(r)
  }

  function Height<N>(t: Tree<N>): nat {
    match t
    case Leaf => 0
    case Bin(l, _, _, r) => 1 + if Height(l) < Height(r) then Height(r) else Height(l)
  }

  function Before<N>(s: Side, p: Path<N>): seq<N> {
    match p
    case Top => []
    case In(side, up, n, _, sib) => if side == s then Before(s, up) else Before(s, up) + Walk(s, sib) + [n]
  }

  function After<N>(s: Side, p: Path<N>): seq<N> {
    match p
    case Top => []
    case In(side, up, n, _, sib) => if side == s then [n] + Walk(s, sib) + After(s, up) else After(s, up)
  }

  function Depth<N>(p: Path<N>): nat {
    match p
    case Top => 0
    case In(_, up, _, _, _) => Depth(up) + 1
  }

  lemma {:induction false} PlugWalk<N>(s: Side, p: Path<N>, t: Tree<N>)
    ensures Walk(s, Plug(p, t)) == Before(s, p) + Walk(s, t) + After(s, p)
    decreases p
  {
    match p
    case Top =>
    case In(side, up, n, red, sib) =>
      PlugWalk(s, up, Make(side, t, n, red, sib));
      if side == s {
        Regroup(Before(s, up), Walk(s, t), [n], Walk(s, sib), After(s, up));
      } else {
        Regroup(Before(s, up), Walk(s, sib), [n], Walk(s, t), After(s, up));
      }
  }

  lemma Regroup<N>(a: seq<N>, b: seq<N>, c: seq<N>, d: seq<N>, e: seq<N>)
    ensures a + (b + c + d) + e == a + b + (c + d + e)
    ensures a + (b + c + d) + e == (a + b + c) + d + e
    ensures a + (b + c + d) + e == (a + b) + c + (d + e)
  {
  }

  lemma SameWalk<N>(p: Path<N>, t: Tree<N>, u: Tree<N>)
    requires InOrder(t) == InOrder(u)
    ensures InOrder(Plug(p, t)) == InOrder(Plug(p, u))
  {
    PlugWalk(Left, p, t);
    PlugWalk(Left, p, u);
  }

  lemma {:induction false} RotatedWalk<N>(s: Side, p: Path<N>, a: Tree<N>, x: N, rx: bool, b: Tree<N>, y: N, ry: bool,
                                          c: Tree<N>)
    ensures InOrder(Plug(p, Make(s, a, x, rx, Make(s, b, y, ry, c))))
         == InOrder(Plug(p, Make(s, Make(s, a, x, rx, b), y, ry, c)))
  {
    var v, w := Make(s, b, y, ry, c), Make(s, a, x, rx, b);
    var t, u := Make(s, a, x, rx, v), Make(s, w, y, ry, c);
    if s.Left? {
      assert InOrder(v) == InOrder(b) + [y] + InOrder(c);
      assert InOrder(w) == InOrder(a) + [x] + InOrder(b);
      assert InOrder(t) == InOrder(a) + [x] + InOrder(v) == InOrder(w) + [y] + InOrder(c) == InOrder(u);
    } else {
      assert InOrder(v) == InOrder(c) + [y] + InOrder(b);
      assert InOrder(w) == InOrder(b) + [x] + InOrder(a);
      assert InOrder(t) == InOrder(v) + [x] + InOrder(a) == InOrder(c) + [y] + InOrder(w) == InOrder(u);
    }
    SameWalk(p, t, u);
  }

  lemma {:induction false} WalkSize<N>(s: Side, t: Tree<N>)
    ensures |Walk(s, t)| == Size(t)
  {
    if t.Bin? {
      WalkSize(s, t.left);
      WalkSize(s, t.right);
    }
  }

  lemma {:induction false} PlugHeight<N>(p: Path<N>, t: Tree<N>)
    ensures Depth(p) + Height(t) <= Height(Plug(p, t))
    decreases p
  {
    if p.In? {
      PlugHeight(p.up, Make(p.side, t, p.node, p.red, p.sib));
    }
  }

  lemma {:induction false} WalkReverse<N>(t: Tree<N>, i: nat)
    requires i < Size(t)
    ensures |Walk(Left, t)| == |Walk(Right, t)| == Size(t)
    ensures Walk(Right, t)[i] == Walk(Left, t)[Size(t) - 1 - i]
  {
    WalkSize(Left, t);
    WalkSize(Right, t);
    var l, r := t.left, t.right;
    WalkSize(Left, l);
    WalkSize(Right, l);
    WalkSize(Left, r);
    WalkSize(Right, r);
    if i < Size(r) {
      WalkReverse(r, i);
    } else if Size(r) < i {
      WalkReverse(l, i - Size(r) - 1);
    }
  }

  // A path inside a subtree, continued by the path to that subtree.
  function Append<N>(q: Path<N>, base: Path<N>): Path<N> {
    match q
    case Top => base
    case In(s, up, n, red, sib) => In(s, Append(up, base), n, red, sib)
  }

  lemma {:induction false} PlugAppend<N>(q: Path<N>, base: Path<N>, t: Tree<N>)
    ensures Plug(Append(q, base), t) == Plug(base, Plug(q, t))
    decreases q
  {
    if q.In? {
      PlugAppend(q.up, base, Make(q.side, t, q.node, q.red, q.sib));
    }
  }

  lemma {:induction false} AppendWalk<N>(s: Side, q: Path<N>, base: Path<N>)
    ensures Before(s, Append(q, base)) == Before(s, base) + Before(s, q)
    ensures After(s, Append(q, base)) == After(s, q) + After(s, base)
  {
    if q.In? {
      AppendWalk(s, q.up, base);
    }
  }

  lemma AppendEnd<N>(q: Path<N>, base: Path<N>)
    requires base.In?
    ensures Append(q, base).In? && Append(q, base).node == if q.Top? then base.node else q.node
  {
  }

  // How many nodes a walk meets before the root of the subtree at the end of a path.
  function Rank<N>(s: Side, p: Path<N>, t: Tree<N>): nat
    requires t.Bin?
  {
    |Before(s, p)| + |Walk(s, t.Child(s))|
  }

  lemma AtRank<N>(s: Side, p: Path<N>, t: Tree<N>)
    requires t.Bin?
    ensures Rank(s, p, t) < |Walk(s, Plug(p, t))| && Walk(s, Plug(p, t))[Rank(s, p, t)] == t.node
    ensures Walk(s, Plug(p, t))[Rank(s, p, t) + 1..] == Walk(s, t.Child(s.Other())) + After(s, p)
    ensures Walk(s, Plug(p, t))[..Rank(s, p, t)] == Before(s, p) + Walk(s, t.Child(s))
  {
    hide Walk, Before, After, Plug;
    PlugWalk(s, p, t);
    WalkChild(s, t);
    Regroup(Before(s, p), Walk(s, t.Child(s)), [t.node], Walk(s, t.Child(s.Other())), After(s, p));
  }

  lemma WalkChild<N>(s: Side, t: Tree<N>)
    requires t.Bin?
    ensures Walk(s, t) == Walk(s, t.Child(s)) + [t.node] + Walk(s, t.Child(s.Other()))
  {
  }

  // Taking out the root of a subtree with at most one child.
  lemma SplicedWalk<N>(p: Path<N>, t: Tree<N>, c: Tree<N>)
    requires t.Bin? && (t.left.Leaf? || t.right.Leaf?) && c == if t.left.Bin? then t.left else t.right
    ensures Walk(Left, Plug(p, c)) == Before(Left, p) + Walk(Left, t.left) + (Walk(Left, t.right) + After(Left, p))
  {
    PlugWalk(Left, p, c);
  }

  // Taking the first node `u.node` out of the right subtree of `t` and putting it in place of the root of `t`.
  lemma SuccessorWalk<N>(p: Path<N>, t: Tree<N>, q: Path<N>, u: Tree<N>)
    requires t.Bin? && t.right == Plug(q, u) && u.Bin? && u.left.Leaf? && Before(Left, q) == []
    ensures (var r := Append(q, In(Right, p, u.node, t.red, t.left));
             Walk(Left, Plug(r, u.right))
               == Before(Left, p) + Walk(Left, t.left) + (Walk(Left, t.right) + After(Left, p)))
  {
    hide Walk, Before, After, Plug;
    var base := In(Right, p, u.node, t.red, t.left);
    var r := Append(q, base);
    PlugWalk(Left, r, u.right);
    AppendWalk(Left, q, base);
    PlugWalk(Left, q, u);
    WalkChild(Left, u);
    LeafWalk(Left, u.left);
    BaseWalk(p, u.node, t.red, t.left);
    RegroupSuccessor(Before(Left, p) + Walk(Left, t.left), [u.node], Walk(Left, u.right), After(Left, q),
                     After(Left, p));
  }

  lemma RegroupSuccessor<N>(lo: seq<N>, n: seq<N>, x: seq<N>, a: seq<N>, hi: seq<N>)
    ensures (lo + n + []) + x + (a + hi) == lo + (([] + ([] + n + x) + a) + hi)
  {
  }

  lemma LeafWalk<N>(s: Side, t: Tree<N>)
    ensures t.Leaf? ==> Walk(s, t) == []
  {
  }

  lemma BaseWalk<N>(p: Path<N>, n: N, red: bool, l: Tree<N>)
    ensures Before(Left, In(Right, p, n, red, l)) == Before(Left, p) + Walk(Left, l) + [n]
    ensures After(Left, In(Right, p, n, red, l)) == After(Left, p)
  {
  }

  // ---- nodes occur once ----

  function Nodes<N>(t: Tree<N>): set<N> {
    match t
    case Leaf => {}
    case Bin(l, n, _, r) => Nodes(l) + {n} + Nodes(r)
  }

  ghost predicate Distinct<N>(t: Tree<N>) {
    match t
    case Leaf => true
    case Bin(l, n, _, r) =>
      n !in Nodes(l) && n !in Nodes(r) && Nodes(l) !! Nodes(r) && Distinct(l) && Distinct(r)
  }

  function PathNodes<N>(p: Path<N>): set<N> {
    match p
    case Top => {}
    case In(_, up, n, _, sib) => PathNodes(up) + {n} + Nodes(sib)
  }

  ghost predicate PathDistinct<N>(p: Path<N>) {
    match p
    case Top => true
    case In(_, up, n, _, sib) =>
      n !in PathNodes(up) && n !in Nodes(sib) && PathNodes(up) !! Nodes(sib) && PathDistinct(up) && Distinct(sib)
  }

  lemma {:induction false} PlugNodes<N>(p: Path<N>, t: Tree<N>)
    ensures Nodes(Plug(p, t)) == PathNodes(p) + Nodes(t)
    ensures Distinct(Plug(p, t)) <==> PathDistinct(p) && Distinct(t) && PathNodes(p) !! Nodes(t)
    decreases p
  {
    if p.In? {
      PlugNodes(p.up, Make(p.side, t, p.node, p.red, p.sib));
    }
  }

  lemma NodesMake<N>(s: Side, near: Tree<N>, n: N, red: bool, far: Tree<N>)
    ensures Nodes(Make(s, near, n, red, far)) == Nodes(near) + {n} + Nodes(far)
    ensures Distinct(Make(s, near, n, red, far))
       <==> (n !in Nodes(near) && n !in Nodes(far) && Nodes(near) !! Nodes(far) && Distinct(near) && Distinct(far))
  {
  }

  // The pieces around an edge of the tree share no node.
  ghost predicate Apart<N>(p: Path<N>, a: Tree<N>, x: N, b: Tree<N>, y: N, c: Tree<N>) {
    && x != y && x !in PathNodes(p) && y !in PathNodes(p)
    && x !in Nodes(a) && x !in Nodes(b) && x !in Nodes(c)
    && y !in Nodes(a) && y !in Nodes(b) && y !in Nodes(c)
    && PathNodes(p) !! Nodes(a) && PathNodes(p) !! Nodes(b) && PathNodes(p) !! Nodes(c)
    && Nodes(a) !! Nodes(b) && Nodes(a) !! Nodes(c) && Nodes(b) !! Nodes(c)
    && PathDistinct(p) && Distinct(a) && Distinct(b) && Distinct(c)
  }

  lemma ApartRight<N>(s: Side, p: Path<N>, a: Tree<N>, x: N, rx: bool, b: Tree<N>, y: N, ry: bool, c: Tree<N>)
    ensures (var t := Make(s, a, x, rx, Make(s, b, y, ry, c));
             PathDistinct(p) && Distinct(t) && PathNodes(p) !! Nodes(t) <==> Apart(p, a, x, b, y, c))
  {
    hide Nodes, PathNodes, Distinct, PathDistinct;
    NodesMake(s, b, y, ry, c);
    NodesMake(s, a, x, rx, Make(s, b, y, ry, c));
  }

  lemma ApartLeft<N>(s: Side, p: Path<N>, a: Tree<N>, x: N, rx: bool, b: Tree<N>, y: N, ry: bool, c: Tree<N>)
    ensures (var t := Make(s, Make(s, a, x, rx, b), y, ry, c);
             PathDistinct(p) && Distinct(t) && PathNodes(p) !! Nodes(t) <==> Apart(p, a, x, b, y, c))
  {
    hide Nodes, PathNodes, Distinct, PathDistinct;
    NodesMake(s, a, x, rx, b);
    NodesMake(s, Make(s, a, x, rx, b), y, ry, c);
  }

  // None of the nodes that a rotation writes to is in `rest`.
  ghost predicate Spared<N>(p: Path<N>, x: N, b: Tree<N>, y: N, rest: set<N>) {
    x !in rest && y !in rest && (b.Bin? ==> b.node !in rest) && (p.In? ==> p.node !in rest)
  }

  lemma ApartSpared<N>(p: Path<N>, a: Tree<N>, x: N, b: Tree<N>, y: N, c: Tree<N>)
    requires Apart(p, a, x, b, y, c)
    ensures Spared(p, x, b, y, Nodes(a)) && Spared(p, x, b, y, Nodes(c))
    ensures b.Bin? ==> Spared(p, x, b, y, Nodes(b.left)) && Spared(p, x, b, y, Nodes(b.right))
    ensures p.In? ==> Spared(p, x, b, y, PathNodes(p.up)) && Spared(p, x, b, y, Nodes(p.sib))
    ensures x != y && (b.Bin? ==> b.node != x && b.node != y) && (p.In? ==> p.node != x && p.node != y)
    ensures b.Bin? && p.In? ==> b.node != p.node
    ensures (p.In? && p.sib.Bin? ==> p.sib.node != x) && (c.Bin? ==> c.node != x && c.node != y)
  {
  }

  lemma {:induction false} WalkNodes<N>(s: Side, t: Tree<N>, n: N)
    ensures n in Walk(s, t) <==> n in Nodes(t)
  {
    if t.Bin? {
      WalkNodes(s, t.left, n);
      WalkNodes(s, t.right, n);
    }
  }

  // A node of the tree sits at the end of some path.
  lemma Locate<N>(t: Tree<N>, n: N) returns (p: Path<N>, u: Tree<N>)
    requires n in Nodes(t)
    ensures Plug(p, u) == t && u.Bin? && u.node == n
  {
    p, u := LocateBelow(Top, t, n);
  }

  lemma {:induction false} LocateBelow<N>(q: Path<N>, t: Tree<N>, n: N) returns (p: Path<N>, u: Tree<N>)
    requires n in Nodes(t)
    ensures Plug(p, u) == Plug(q, t) && u.Bin? && u.node == n
    decreases t
  {
    if n == t.node {
      p, u := q, t;
    } else if n in Nodes(t.left) {
      p, u := LocateBelow(In(Left, q, t.node, t.red, t.right), t.left, n);
    } else {
      p, u := LocateBelow(In(Right, q, t.node, t.red, t.left), t.right, n);
    }
  }

  // ---- colours ----

  predicate IsRed<N>(t: Tree<N>) {
    t.Bin? && t.red
  }

  function SetRoot<N>(t: Tree<N>, red: bool): Tree<N>
    requires t.Bin?
  {
    Bin(t.left, t.node, red, t.right)
  }

  // No red node has a red child, and every way down from here meets exactly `h` black nodes.
  predicate Coloured<N>(t: Tree<N>, h: nat) {
    match t
    case Leaf => h == 0
    case Bin(l, _, red, r) =>
      if red then !IsRed(l) && !IsRed(r) && Coloured(l, h) && Coloured(r, h)
      else h > 0 && Coloured(l, h - 1) && Coloured(r, h - 1)
  }

  // What the path needs for the whole to be coloured once a subtree of black height `h` hangs at its end.
  predicate PathColoured<N>(p: Path<N>, h: nat) {
    match p
    case Top => true
    case In(_, up, _, red, sib) =>
      && Coloured(sib, h)
      && (red ==> !IsRed(sib) && up.In? && !up.red)
      && PathColoured(up, if red then h else h + 1)
  }

  function RootBlackHeight<N>(p: Path<N>, h: nat): nat {
    match p
    case Top => h
    case In(_, up, _, red, _) => RootBlackHeight(up, if red then h else h + 1)
  }

  // A red-black tree: black root, no red-red edge, equal black heights.
  ghost predicate RedBlack<N>(t: Tree<N>) {
    !IsRed(t) && exists h :: Coloured(t, h)
  }

  // The black nodes above a position.
  function Blacks<N>(p: Path<N>): nat {
    match p
    case Top => 0
    case In(_, up, _, red, _) => Blacks(up) + if red then 0 else 1
  }

  lemma {:induction false} BlacksAbove<N>(p: Path<N>, h: nat)
    ensures RootBlackHeight(p, h) == h + Blacks(p)
  {
    match p
    case Top =>
    case In(_, up, _, red, _) => BlacksAbove(up, if red then h else h + 1);
  }

  // The rules of a red-black tree, for every node and every two ways down: the root is black, a red node has black
  // neighbours, and all ways from the root to an empty place meet equally many black nodes.
  lemma RedBlackRules<N>(t: Tree<N>, p: Path<N>, u: Tree<N>, q: Path<N>)
    requires RedBlack(t) && Plug(p, u) == t && Plug(q, Leaf) == t
    ensures t.Bin? ==> !t.red
    ensures u.Bin? && u.red ==> p.In? && !p.red && (u.left.Bin? ==> !u.left.red) && (u.right.Bin? ==> !u.right.red)
    ensures u.Leaf? ==> Blacks(p) == Blacks(q)
  {
    var h :| Coloured(t, h);
    var k := UnplugColoured(p, u, h);
    var m := UnplugColoured(q, Leaf, h);
    BlacksAbove(p, k);
    BlacksAbove(q, m);
  }

  lemma {:induction false} PlugColoured<N>(p: Path<N>, t: Tree<N>, h: nat)
    requires PathColoured(p, h) && Coloured(t, h)
    requires p.In? && p.red ==> !IsRed(t)
    ensures Coloured(Plug(p, t), RootBlackHeight(p, h))
    ensures p.In? || !IsRed(t) ==> !IsRed(Plug(p, t))
    decreases p
  {
    match p
    case Top =>
    case In(s, up, n, red, sib) =>
      PlugColoured(up, Make(s, t, n, red, sib), if red then h else h + 1);
  }

  lemma {:induction false} UnplugColoured<N>(p: Path<N>, t: Tree<N>, h: nat) returns (k: nat)
    requires Coloured(Plug(p, t), h) && !IsRed(Plug(p, t))
    ensures Coloured(t, k) && PathColoured(p, k) && RootBlackHeight(p, k) == h
    ensures IsRed(t) ==> p.In? && !p.red
    decreases p
  {
    match p
    case Top => k := h;
    case In(s, up, n, red, sib) =>
      k := UnplugColoured(up, Make(s, t, n, red, sib), h);
      k := if red then k else k - 1;
  }

  lemma ColouredMake<N>(s: Side, near: Tree<N>, n: N, red: bool, far: Tree<N>, h: nat)
    ensures Coloured(Make(s, near, n, red, far), h)
       <==> (if red then !IsRed(near) && !IsRed(far) && Coloured(near, h) && Coloured(far, h)
             else h > 0 && Coloured(near, h - 1) && Coloured(far, h - 1))
  {
  }

  // The two nephews of a position that is one black node short, below a black sibling.
  lemma Nephews<N>(p: Path<N>, h: nat)
    requires p.In? && PathColoured(p, h + 1) && p.sib.Bin? && !p.sib.red
    ensures Coloured(p.sib.Child(p.side), h) && Coloured(p.sib.Child(p.side.Other()), h)
    ensures PathColoured(p.up, if p.red then h + 1 else h + 2)
    ensures p.red ==> p.up.In? && !p.up.red
  {
  }

  lemma {:induction false} ColouredUnique<N>(t: Tree<N>, h: nat, k: nat)
    requires Coloured(t, h) && Coloured(t, k)
    ensures h == k
  {
    if t.Bin? {
      if t.red {
        ColouredUnique(t.left, h, k);
      } else {
        ColouredUnique(t.left, h - 1, k - 1);
      }
    }
  }

  // Taking out a node with at most one child, as far as colours go.
  lemma SplicedColours<N>(t: Tree<N>, c: Tree<N>, h: nat)
    requires Coloured(t, h) && t.Bin? && (t.left.Leaf? || t.right.Leaf?)
    requires c == if t.left.Bin? then t.left else t.right
    ensures t.red ==> Coloured(c, h) && !IsRed(c)
    ensures !t.red ==> h > 0 && if IsRed(c) then Coloured(SetRoot(c, false), h) else Coloured(c, h - 1)
  {
  }

  // Which node sits in the middle of a path does not matter for colours.
  lemma {:induction false} SwapColours<N>(q: Path<N>, s: Side, up: Path<N>, n: N, m: N, red: bool, sib: Tree<N>, h: nat)
    ensures PathColoured(Append(q, In(s, up, n, red, sib)), h) == PathColoured(Append(q, In(s, up, m, red, sib)), h)
    decreases q
  {
    if q.In? {
      SwapColours(q.up, s, up, n, m, red, sib, if q.red then h else h + 1);
    }
  }

  // ---- a red-black tree is shallow ----

  lemma {:induction false} BlackHeightBounds<N>(t: Tree<N>, h: nat)
    requires Coloured(t, h)
    ensures Pow2(h) <= Size(t) + 1
    ensures Height(t) <= 2 * h + if IsRed(t) then 1 else 0
  {
    match t
    case Leaf =>
    case Bin(l, n, red, r) =>
      if red {
        BlackHeightBounds(l, h);
        BlackHeightBounds(r, h);
      } else {
        BlackHeightBounds(l, h - 1);
        BlackHeightBounds(r, h - 1);
      }
  }

  // The height is at most 2*log2(n + 1).
  lemma HeightBound<N>(t: Tree<N>)
    requires RedBlack(t)
    ensures Pow2((Height(t) + 1) / 2) <= Size(t) + 1
  {
    var h :| Coloured(t, h);
    BlackHeightBounds(t, h);
    Pow2Monotone((Height(t) + 1) / 2, h);
  }
}
