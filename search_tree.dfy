/** A binary search tree of integers whose nodes own their children.
    `TreeNode` and `BinarySearchTree` are heap objects updated in place;
    a ghost `Shape` records which node sits where, and `Tree` is the value
    that a shape stands for, on which insertion is specified. */
module SearchTree {

  /** The contents of a tree as a value. */
  datatype Tree = Leaf | Node(left: Tree, value: int, right: Tree)

  function Values(t: Tree): set<int> {
    match t
    case Leaf => {}
    case Node(l, x, r) => Values(l) + {x} + Values(r)
  }

  /** Every value in a node's left subtree is smaller than the node's value
      and every value in its right subtree is larger. */
  predicate IsBst(t: Tree) {
    match t
    case Leaf => true
    case Node(l, x, r) =>
      IsBst(l) && IsBst(r) &&
      (forall y :: y in Values(l) ==> y < x) &&
      (forall y :: y in Values(r) ==> x < y)
  }

  function Size(t: Tree): nat {
    match t
    case Leaf => 0
    case Node(l, _, r) => Size(l) + 1 + Size(r)
  }

  function Height(t: Tree): nat {
    match t
    case Leaf => 0
    case Node(l, _, r) => 1 + (if Height(l) < Height(r) then Height(r) else Height(l))
  }

  /** Reference insertion: descend by comparison and put `v` where the
      descent meets an empty child; an equal value stops the descent. */
  function Inserted(t: Tree, v: int): Tree {
    match t
    case Leaf => Node(Leaf, v, Leaf)
    case Node(l, x, r) =>
      if v < x then Node(Inserted(l, v), x, r)
      else if x < v then Node(l, x, Inserted(r, v))
      else t
  }

  /** Every node of `t` is found in `u` at the same position with the same
      value (`u` may have more nodes below). */
  predicate Extends(t: Tree, u: Tree) {
    match t
    case Leaf => true
    case Node(l, x, r) => u.Node? && u.value == x && Extends(l, u.left) && Extends(r, u.right)
  }

  /** Insertion adds exactly `v` to the stored values. */
  lemma {:induction false} InsertValues(t: Tree, v: int)
    ensures Values(Inserted(t, v)) == Values(t) + {v}
  {
    match t
    case Leaf =>
    case Node(l, x, r) =>
      if v < x {
        InsertValues(l, v);
      } else if x < v {
        InsertValues(r, v);
      }
  }

  /** Insertion keeps the search-tree ordering. */
  lemma {:induction false} InsertBst(t: Tree, v: int)
    requires IsBst(t)
    ensures IsBst(Inserted(t, v))
  {
    match t
    case Leaf =>
    case Node(l, x, r) =>
      if v < x {
        InsertBst(l, v);
        InsertValues(l, v);
      } else if x < v {
        InsertBst(r, v);
        InsertValues(r, v);
      }
  }

  /** On a search tree, inserting a value that is already stored changes
      nothing. */
  lemma {:induction false} InsertPresent(t: Tree, v: int)
    requires IsBst(t) && v in Values(t)
    ensures Inserted(t, v) == t
  {
    match t
    case Node(l, x, r) =>
      if v < x {
        InsertPresent(l, v);
      } else if x < v {
        InsertPresent(r, v);
      }
  }

  /** Inserting the same value twice gives the same tree as inserting it once. */
  lemma {:induction false} InsertIdempotent(t: Tree, v: int)
    ensures Inserted(Inserted(t, v), v) == Inserted(t, v)
  {
    match t
    case Leaf =>
    case Node(l, x, r) =>
      if v < x {
        InsertIdempotent(l, v);
      } else if x < v {
        InsertIdempotent(r, v);
      }
  }

  /** Inserting an absent value adds exactly one node. */
  lemma {:induction false} InsertSize(t: Tree, v: int)
    requires v !in Values(t)
    ensures Size(Inserted(t, v)) == Size(t) + 1
  {
    match t
    case Leaf =>
    case Node(l, x, r) =>
      if v < x {
        InsertSize(l, v);
      } else {
        InsertSize(r, v);
      }
  }

  /** Insertion keeps every existing node where it was. */
  lemma {:induction false} InsertExtends(t: Tree, v: int)
    ensures Extends(t, Inserted(t, v))
  {
    match t
    case Leaf =>
    case Node(l, x, r) =>
      if v < x {
        InsertExtends(l, v);
        ExtendsRefl(r);
      } else if x < v {
        ExtendsRefl(l);
        InsertExtends(r, v);
      } else {
        ExtendsRefl(t);
      }
  }

  lemma {:induction false} ExtendsRefl(t: Tree)
    ensures Extends(t, t)
  {
    match t
    case Leaf =>
    case Node(l, _, r) =>
      ExtendsRefl(l);
      ExtendsRefl(r);
  }

  /** A node of the tree; its value never changes, its children do. */
  class TreeNode {
    const value: int
    var left: TreeNode?
    var right: TreeNode?

    constructor (value: int)
      ensures this.value == value && left == null && right == null
    {
      this.value := value;
      left := null;
      right := null;
    }

    /** Recursive insertion below this node. On the nodes of `s` it has the
        same effect as the iterative `BinarySearchTree.Insert`: both produce
        `Inserted` of the tree they start from. */
    method Insert(v: int, ghost s: Shape) returns (ghost s': Shape)
      requires Mirrors(this, s) && Distinct(s)
      modifies Nodes(s)
      ensures Mirrors(this, s') && Distinct(s')
      ensures Erase(s') == Inserted(Erase(s), v)
      ensures Nodes(s) <= Nodes(s') && fresh(Nodes(s') - Nodes(s))
      decreases Height(Erase(s))
    {
      if v < value {
        if left == null {
          NodesAllocated(s);
          var x := new TreeNode(v);
          left := x;
          s' := Br(Br(Nil, x, Nil), this, s.r);
        } else {
          NodesAllocated(s);
          assert Nodes(s.l) !! Nodes(s.r) && this !in Nodes(s.l);
          var l' := left.Insert(v, s.l);
          s' := Br(l', this, s.r);
        }
      } else if value < v {
        if right == null {
          NodesAllocated(s);
          var x := new TreeNode(v);
          right := x;
          s' := Br(s.l, this, Br(Nil, x, Nil));
        } else {
          NodesAllocated(s);
          assert Nodes(s.l) !! Nodes(s.r) && this !in Nodes(s.r);
          var r' := right.Insert(v, s.r);
          s' := Br(s.l, this, r');
        }
      } else {
        s' := s;
      }
    }
  }

  /** Which node sits where: the ghost skeleton of a linked tree. */
  datatype Shape = Nil | Br(l: Shape, node: TreeNode, r: Shape)

  ghost function Nodes(s: Shape): set<TreeNode> {
    match s
    case Nil => {}
    case Br(l, n, r) => Nodes(l) + {n} + Nodes(r)
  }

  /** No node occurs twice in the skeleton, so the nodes form a tree. */
  ghost predicate Distinct(s: Shape) {
    match s
    case Nil => true
    case Br(l, n, r) =>
      Distinct(l) && Distinct(r) && n !in Nodes(l) && n !in Nodes(r) && Nodes(l) !! Nodes(r)
  }

  /** The links starting at `n` follow the skeleton `s`. */
  ghost predicate Mirrors(n: TreeNode?, s: Shape)
    reads Nodes(s)
    decreases s
  {
    match s
    case Nil => n == null
    case Br(l, m, r) => n == m && Mirrors(m.left, l) && Mirrors(m.right, r)
  }

  /** The value a skeleton stands for. */
  ghost function Erase(s: Shape): Tree {
    match s
    case Nil => Leaf
    case Br(l, n, r) => Node(Erase(l), n.value, Erase(r))
  }

  /** Every node of a skeleton already exists, so a node allocated now is
      not one of them. */
  lemma {:induction false} NodesAllocated(s: Shape)
    ensures forall k :: k in Nodes(s) ==> allocated(k)
  {
    match s
    case Nil =>
    case Br(l, _, r) =>
      NodesAllocated(l);
      NodesAllocated(r);
  }

  /** One step of a descent: the node left behind and the sibling subtree
      not taken. */
  datatype Frame = WentLeft(node: TreeNode, right: Shape) | WentRight(left: Shape, node: TreeNode)

  ghost function Fill(f: Frame, s: Shape): Shape {
    match f
    case WentLeft(k, r) => Br(s, k, r)
    case WentRight(l, k) => Br(l, k, s)
  }

  /** The whole skeleton, given the frames of a descent from the root
      (outermost first) and the subtree where the descent stands. */
  ghost function Plug(ctx: seq<Frame>, s: Shape): Shape
    decreases |ctx|
  {
    if ctx == [] then s else Fill(ctx[0], Plug(ctx[1..], s))
  }

  ghost function CtxNodes(ctx: seq<Frame>): set<TreeNode>
    decreases |ctx|
  {
    if ctx == [] then {}
    else
      (match ctx[0]
       case WentLeft(k, r) => {k} + Nodes(r)
       case WentRight(l, k) => Nodes(l) + {k}) + CtxNodes(ctx[1..])
  }

  /** The links from `n` follow the frames of `ctx` down to `hole`. */
  ghost predicate MirrorsCtx(n: TreeNode?, ctx: seq<Frame>, hole: TreeNode?)
    reads CtxNodes(ctx)
    decreases |ctx|
  {
    if ctx == [] then n == hole
    else
      match ctx[0]
      case WentLeft(k, r) => n == k && Mirrors(k.right, r) && MirrorsCtx(k.left, ctx[1..], hole)
      case WentRight(l, k) => n == k && Mirrors(k.left, l) && MirrorsCtx(k.right, ctx[1..], hole)
  }

  /** Every step of the descent went the way a comparison with `v` sends it. */
  ghost predicate Follows(ctx: seq<Frame>, v: int) {
    forall i :: 0 <= i < |ctx| ==>
      (ctx[i].WentLeft? ==> v < ctx[i].node.value) &&
      (ctx[i].WentRight? ==> ctx[i].node.value < v)
  }

  lemma {:induction false} PlugAppend(ctx: seq<Frame>, f: Frame, s: Shape)
    ensures Plug(ctx + [f], s) == Plug(ctx, Fill(f, s))
    decreases |ctx|
  {
    if ctx != [] {
      assert (ctx + [f])[1..] == ctx[1..] + [f];
      PlugAppend(ctx[1..], f, s);
    }
  }

  lemma {:induction false} PlugNodes(ctx: seq<Frame>, s: Shape)
    ensures Nodes(Plug(ctx, s)) == CtxNodes(ctx) + Nodes(s)
    decreases |ctx|
  {
    if ctx != [] {
      PlugNodes(ctx[1..], s);
    }
  }

  /** A distinct skeleton splits into a distinct subtree and frames that
      share none of its nodes. */
  lemma {:induction false} PlugDistinctParts(ctx: seq<Frame>, s: Shape)
    requires Distinct(Plug(ctx, s))
    ensures Distinct(s) && CtxNodes(ctx) !! Nodes(s)
    decreases |ctx|
  {
    if ctx != [] {
      PlugDistinctParts(ctx[1..], s);
      PlugNodes(ctx[1..], s);
    }
  }

  /** Replacing the subtree by one whose nodes are distinct and not in the
      frames keeps the whole skeleton distinct. */
  lemma {:induction false} PlugDistinct(ctx: seq<Frame>, s: Shape, s': Shape)
    requires Distinct(Plug(ctx, s)) && Distinct(s') && CtxNodes(ctx) !! Nodes(s')
    ensures Distinct(Plug(ctx, s'))
    decreases |ctx|
  {
    if ctx != [] {
      PlugDistinct(ctx[1..], s, s');
      PlugNodes(ctx[1..], s);
      PlugNodes(ctx[1..], s');
    }
  }

  /** Extending the descent by one step keeps the links to the frames. */
  lemma {:induction false} MirrorsCtxExtend(n: TreeNode?, ctx: seq<Frame>, h: TreeNode, s: Shape)
    requires MirrorsCtx(n, ctx, h) && Mirrors(h, s) && s.Br?
    ensures MirrorsCtx(n, ctx + [WentLeft(h, s.r)], h.left)
    ensures MirrorsCtx(n, ctx + [WentRight(s.l, h)], h.right)
    decreases |ctx|
  {
    if ctx == [] {
    } else {
      assert (ctx + [WentLeft(h, s.r)])[1..] == ctx[1..] + [WentLeft(h, s.r)];
      assert (ctx + [WentRight(s.l, h)])[1..] == ctx[1..] + [WentRight(s.l, h)];
      match ctx[0]
      case WentLeft(k, _) => MirrorsCtxExtend(k.left, ctx[1..], h, s);
      case WentRight(_, k) => MirrorsCtxExtend(k.right, ctx[1..], h, s);
    }
  }

  /** Links that follow the frames down to `h`, and from `h` follow `s`,
      follow the whole skeleton. */
  lemma {:induction false} MirrorsPlug(n: TreeNode?, ctx: seq<Frame>, h: TreeNode?, s: Shape)
    requires MirrorsCtx(n, ctx, h) && Mirrors(h, s)
    ensures Mirrors(n, Plug(ctx, s))
    decreases |ctx|
  {
    if ctx != [] {
      match ctx[0]
      case WentLeft(k, _) => MirrorsPlug(k.left, ctx[1..], h, s);
      case WentRight(_, k) => MirrorsPlug(k.right, ctx[1..], h, s);
    }
  }

  /** Inserting below the end of a descent for `v` is inserting `v` into the
      whole tree. */
  lemma {:induction false} InsertThroughCtx(ctx: seq<Frame>, s: Shape, s': Shape, v: int)
    requires Follows(ctx, v) && Erase(s') == Inserted(Erase(s), v)
    ensures Erase(Plug(ctx, s')) == Inserted(Erase(Plug(ctx, s)), v)
    decreases |ctx|
  {
    if ctx != [] {
      assert Follows(ctx[1..], v) by {
        forall i | 0 <= i < |ctx[1..]|
          ensures (ctx[1..][i].WentLeft? ==> v < ctx[1..][i].node.value) &&
                  (ctx[1..][i].WentRight? ==> ctx[1..][i].node.value < v)
        {
          assert ctx[1..][i] == ctx[i + 1];
        }
      }
      InsertThroughCtx(ctx[1..], s, s', v);
      assert ctx[0].WentLeft? ==> v < ctx[0].node.value;
    }
  }

  /** The subtree `s` with a new leaf node `x` as its left or right child. */
  ghost function Hung(s: Shape, x: TreeNode, goLeft: bool): Shape
    requires s.Br?
  {
    if goLeft then Br(Br(Nil, x, Nil), s.node, s.r) else Br(s.l, s.node, Br(Nil, x, Nil))
  }

  /** Hanging a fresh node `x` holding `v` at the empty child where the
      descent for `v` ends keeps the skeleton distinct, adds only `x`, and
      gives the tree that reference insertion computes. */
  lemma HungPlug(ctx: seq<Frame>, s: Shape, x: TreeNode, v: int, goLeft: bool)
    requires Distinct(Plug(ctx, s)) && Follows(ctx, v) && s.Br? && x.value == v
    requires x !in Nodes(Plug(ctx, s))
    requires goLeft ==> v < s.node.value && s.l == Nil
    requires !goLeft ==> s.node.value < v && s.r == Nil
    ensures Distinct(Plug(ctx, Hung(s, x, goLeft)))
    ensures Erase(Plug(ctx, Hung(s, x, goLeft))) == Inserted(Erase(Plug(ctx, s)), v)
    ensures Nodes(Plug(ctx, Hung(s, x, goLeft))) == Nodes(Plug(ctx, s)) + {x}
  {
    PlugNodes(ctx, s);
    PlugNodes(ctx, Hung(s, x, goLeft));
    PlugDistinctParts(ctx, s);
    PlugDistinct(ctx, s, Hung(s, x, goLeft));
    InsertThroughCtx(ctx, s, Hung(s, x, goLeft), v);
  }

  /** A descent for `v` from `root` has passed the frames `ctx` and stands
      at `current`, whose links follow the subtree `sub`. */
  ghost predicate Descent(root: TreeNode?, ctx: seq<Frame>, current: TreeNode?, sub: Shape, v: int)
    reads CtxNodes(ctx), Nodes(sub)
  {
    sub.Br? && current == sub.node && Mirrors(current, sub) &&
    MirrorsCtx(root, ctx, current) && Follows(ctx, v)
  }

  /** One more step down, to the left or right child as `v` directs, is
      still a descent for `v` over the same skeleton. */
  lemma Descend(root: TreeNode?, ctx: seq<Frame>, current: TreeNode, sub: Shape, v: int)
    requires Descent(root, ctx, current, sub, v)
    ensures v < current.value && current.left != null ==>
              Descent(root, ctx + [WentLeft(current, sub.r)], current.left, sub.l, v) &&
              Plug(ctx + [WentLeft(current, sub.r)], sub.l) == Plug(ctx, sub)
    ensures current.value < v && current.right != null ==>
              Descent(root, ctx + [WentRight(sub.l, current)], current.right, sub.r, v) &&
              Plug(ctx + [WentRight(sub.l, current)], sub.r) == Plug(ctx, sub)
  {
    assert Mirrors(current.left, sub.l) && Mirrors(current.right, sub.r);
    MirrorsCtxExtend(root, ctx, current, sub);
    PlugAppend(ctx, WentLeft(current, sub.r), sub.l);
    PlugAppend(ctx, WentRight(sub.l, current), sub.r);
  }

  class BinarySearchTree {
    var root: TreeNode?
    ghost var shape: Shape

    ghost predicate Valid()
      reads this, Nodes(shape)
    {
      Mirrors(root, shape) && Distinct(shape) && IsBst(Erase(shape))
    }

    /** The values stored in the tree, arranged as they are linked. */
    ghost function Model(): Tree
      reads this
    {
      Erase(shape)
    }

    constructor ()
      ensures Valid() && Model() == Leaf && root == null
    {
      root := null;
      shape := Nil;
    }

    /** Iterative insertion: walk down from the root and hang a new node at
        the empty child where the walk ends; an equal value ends the walk
        with no change. */
    method Insert(v: int)
      requires Valid()
      modifies this, Nodes(shape)
      ensures Valid()
      ensures Model() == Inserted(old(Model()), v)
      ensures Values(Model()) == Values(old(Model())) + {v}
      ensures old(Nodes(shape)) <= Nodes(shape) && fresh(Nodes(shape) - old(Nodes(shape)))
    {
      InsertValues(Model(), v);
      InsertBst(Model(), v);
      if root == null {
        root := new TreeNode(v);
        shape := Br(Nil, root, Nil);
        return;
      }
      var current := root;
      ghost var sub := shape;
      ghost var ctx: seq<Frame> := [];
      while true
        invariant Valid() && root == old(root) && shape == old(shape)
        invariant Descent(root, ctx, current, sub, v) && shape == Plug(ctx, sub)
        decreases Height(Erase(sub))
      {
        PlugNodes(ctx, sub);
        Descend(root, ctx, current, sub, v);
        if v < current.value {
          if current.left == null {
            var leaf := HangLeaf(current, v, true, ctx, sub);
            return;
          }
          ctx := ctx + [WentLeft(current, sub.r)];
          current := current.left;
          sub := sub.l;
        } else if current.value < v {
          if current.right == null {
            var leaf := HangLeaf(current, v, false, ctx, sub);
            return;
          }
          ctx := ctx + [WentRight(sub.l, current)];
          current := current.right;
          sub := sub.r;
        } else {
          InsertThroughCtx(ctx, sub, sub, v);
          return;
        }
      }
    }

    /** Hang a new node holding `v` as the empty left (or right) child of
        `current`, where the descent for `v` from the root has ended. */
    method HangLeaf(current: TreeNode, v: int, goLeft: bool, ghost ctx: seq<Frame>, ghost sub: Shape)
      returns (leaf: TreeNode)
      requires Valid() && shape == Plug(ctx, sub) && Descent(root, ctx, current, sub, v)
      requires goLeft ==> v < current.value && current.left == null
      requires !goLeft ==> current.value < v && current.right == null
      modifies this, current
      ensures Valid() && root == old(root)
      ensures Model() == Inserted(old(Model()), v)
      ensures fresh(leaf) && leaf.value == v && Nodes(shape) == old(Nodes(shape)) + {leaf}
    {
      assert current !in CtxNodes(ctx) && Distinct(sub) by {
        PlugDistinctParts(ctx, sub);
      }
      assert Mirrors(current.left, sub.l) && Mirrors(current.right, sub.r);
      PlugNodes(ctx, sub);
      NodesAllocated(shape);
      leaf := new TreeNode(v);
      if goLeft {
        current.left := leaf;
      } else {
        current.right := leaf;
      }
      ghost var sub' := Hung(sub, leaf, goLeft);
      shape := Plug(ctx, sub');
      assert Mirrors(root, shape) by {
        // the links above `current` and beside the new node were not touched
        assert MirrorsCtx(root, ctx, current) == old(MirrorsCtx(root, ctx, current));
        assert goLeft ==> Mirrors(current.right, sub.r) == old(Mirrors(current.right, sub.r));
        assert !goLeft ==> Mirrors(current.left, sub.l) == old(Mirrors(current.left, sub.l));
        MirrorsPlug(root, ctx, current, sub');
      }
      assert Distinct(shape) && IsBst(Erase(shape)) && Erase(shape) == Inserted(old(Model()), v) &&
             Nodes(shape) == old(Nodes(shape)) + {leaf} by {
        HungPlug(ctx, sub, leaf, v, goLeft);
        InsertBst(old(Model()), v);
      }
    }

    /** Walk down from the root comparing with `v`; report whether a node
        holding `v` is met before an empty child. */
    method Search(v: int) returns (found: bool)
      requires Valid()
      ensures found == (v in Values(Model()))
    {
      if root == null {
        return false;
      }
      var current := root;
      ghost var sub := shape;
      while true
        invariant sub.Br? && current == sub.node && Mirrors(current, sub)
        invariant IsBst(Erase(sub))
        invariant (v in Values(Model())) == (v in Values(Erase(sub)))
        decreases Height(Erase(sub))
      {
        if v < current.value {
          if current.left == null {
            return false;
          }
          current := current.left;
          sub := sub.l;
        } else if current.value < v {
          if current.right == null {
            return false;
          }
          current := current.right;
          sub := sub.r;
        } else {
          return true;
        }
      }
    }
  }
}
