// src-api/common/avl.c: the tree itself, with its pointers, balance factors and list. Each
// method is proved against the shape the pointers spell out.
module AvlTrees {
  import opened AvlNodes
  import opened AvlOrders
  import opened AvlShapes
  import opened Rings
  import opened Sequences
  import Words

  // What is left of a list when a loop has removed the nodes that drop says.
  function Stays(order: seq<AvlNode>, drop: AvlNode -> bool): (s: seq<AvlNode>)
    ensures |s| <= |order|
  {
    if order == [] then []
    else
      var x := order[|order| - 1];
      Stays(order[..|order| - 1], drop) + if drop(x) then [] else [x]
  }

  lemma StaysNone(all: seq<AvlNode>, p: nat, drop: AvlNode -> bool)
    requires p <= |all|
    ensures Stays(all[p..p], drop) == [] && all[..p] + Stays(all[p..p], drop) == all[..p] && all[..p] + all[p..] == all
  {}

  lemma {:induction false} StaysIn(order: seq<AvlNode>, drop: AvlNode -> bool)
    ensures forall x :: x in Stays(order, drop) <==> x in order && !drop(x)
  {
    if order != [] {
      StaysIn(order[..|order| - 1], drop);
      assert order == order[..|order| - 1] + [order[|order| - 1]];
    }
  }

  class AvlTree {
    const head: AvlNode
    const comp: Comparator
    const allowDups: bool
    var root: AvlNode?
    var count: int
    ghost var pool: set<AvlNode>  // the nodes of the list
    ghost var shape: Shape        // the tree of their groups

    // avl_init
    constructor (comp: Comparator, allowDups: bool)
      requires Total(comp)
      ensures Valid() && Order() == [] && fresh(head)
      ensures this.comp == comp && this.allowDups == allowDups
    {
      this.comp, this.allowDups := comp, allowDups;
      head := new AvlNode.Head();
      root, count := null, 0;
      pool, shape := {}, Leaf;
      new;
      InitHead(head);
    }

    ghost function Groups(): seq<Group>
      reads `shape
    {
      InOrder(shape)
    }

    // The list: every node of the tree, each head followed by its equals.
    ghost function Order(): seq<AvlNode>
      reads `shape
    {
      Join(Groups())
    }

    ghost predicate Valid()
      reads this, pool, head
    {
      && Total(comp) && head !in pool
      && TreeOk(shape) && ListOk(Groups())
    }

    ghost predicate TreeOk(t: Shape)
      reads `root, `pool, pool`left, pool`right, pool`parent, pool`balance
    {
      Hole(Top, t) && Fit(t) && Avl(t)
    }

    // The list fields hold the groups gs.
    ghost predicate ListOk(gs: seq<Group>)
      reads `pool, `count, pool`next, pool`prev, pool`follower, head`next, head`prev
    {
      && Marked(gs) && Sorted(comp, gs) && (allowDups || forall g :: g in gs ==> g.fs == [])
      && (forall x :: x in pool ==> x in Join(gs))
      && Ring(head, pool, Join(gs)) && count == |Join(gs)| % 0x1_0000_0000
    }

    ghost predicate Marked(gs: seq<Group>)
      reads `pool, pool`follower
    {
      forall g :: g in gs ==>
        g.head in pool && !g.head.follower && forall f :: f in g.fs ==> f in pool && f.follower
    }

    ghost predicate Hole(c: Ctx, s: Shape)
      reads `root, `pool, pool`left, pool`right, pool`parent
    {
      && Sep(c, s) && HeadsC(c) <= pool && Heads(s) <= pool
      && root == TopOf(c, Root(s)) && MatchC(c, Root(s)) && Match(s, Par(c))
    }

    method ReplaceChild(parent: AvlNode?, node: AvlNode, repl: AvlNode?, ghost c: Ctx)
      requires MatchC(c, node) && root == TopOf(c, node) && parent == Par(c)
      requires DistinctC(c) && node !in HeadsC(c) && HeadsC(c) <= pool
      modifies `root, HeadsC(c)`left, HeadsC(c)`right
      ensures MatchC(c, repl) && root == TopOf(c, repl)
    {
      forall x | x in HeadsC(c) { ChildWant(c, node, repl, x); }
      if parent == null {
        root := repl;
      } else if parent.left == node {
        parent.left := repl;
      } else {
        parent.right := repl;
      }
    }

    method LinkRight(node: AvlNode, left: AvlNode, ghost c: Ctx, ghost s: Shape)
      requires s.Bin? && s.g.head == node && s.l.Bin? && left == s.l.g.head
      requires Hole(c, s)
      modifies `root, pool`left, pool`right, pool`parent
      ensures Hole(c, RotR(s))
    {
      hide Heads, HeadsC, Distinct, DistinctC, Want, WantC;
      RotRWant(c, s, Par(c));
      var parent := node.parent;
      left.parent := parent;
      node.parent := left;
      ReplaceChild(parent, node, left, c);
      node.left := left.right;
      left.right := node;
      if node.left != null {
        node.left.parent := node;
      }
    }

    method LinkLeft(node: AvlNode, right: AvlNode, ghost c: Ctx, ghost s: Shape)
      requires s.Bin? && s.g.head == node && s.r.Bin? && right == s.r.g.head
      requires Hole(c, s)
      modifies `root, pool`left, pool`right, pool`parent
      ensures Hole(c, RotL(s))
    {
      hide Heads, HeadsC, Distinct, DistinctC, Want, WantC;
      RotLWant(c, s, Par(c));
      var parent := node.parent;
      right.parent := parent;
      node.parent := right;
      ReplaceChild(parent, node, right, c);
      node.right := right.left;
      right.left := node;
      if node.right != null {
        node.right.parent := node;
      }
    }

    method BalanceRight(node: AvlNode, left: AvlNode)
      requires node != left && -2 <= node.balance <= 2 && -2 <= left.balance <= 2
      modifies {node, left}`balance
      ensures node.balance == old(node.balance) + 1 - Min(old(left.balance), 0)
      ensures left.balance == old(left.balance) + 1 + Max(node.balance, 0)
    {
      node.balance := node.balance + 1;
      if left.balance < 0 {
        node.balance := node.balance - left.balance;
      }
      left.balance := left.balance + 1;
      if node.balance > 0 {
        left.balance := left.balance + node.balance;
      }
    }

    method BalanceLeft(node: AvlNode, right: AvlNode)
      requires node != right && -2 <= node.balance <= 2 && -2 <= right.balance <= 2
      modifies {node, right}`balance
      ensures node.balance == old(node.balance) - 1 - Max(old(right.balance), 0)
      ensures right.balance == old(right.balance) - 1 + Min(node.balance, 0)
    {
      node.balance := node.balance - 1;
      if right.balance > 0 {
        node.balance := node.balance - right.balance;
      }
      right.balance := right.balance - 1;
      if node.balance < 0 {
        right.balance := right.balance + node.balance;
      }
    }

    method RotateRight(node: AvlNode, ghost c: Ctx, ghost s: Shape)
      requires s.Bin? && s.g.head == node && s.l.Bin?
      requires Hole(c, s) && Fit(s)
      requires -2 <= Height(s.r) - Height(s.l) <= 2 && -2 <= Height(s.l.r) - Height(s.l.l) <= 2
      modifies `root, pool`left, pool`right, pool`parent
      modifies {node, s.l.g.head}`balance
      ensures Hole(c, RotR(s)) && Fit(RotR(s))
    {
      forall x | x in Heads(s) { RotRBal(s, x); }
      assert node.left == s.l.g.head by { assert Agrees(node, Want(s, Par(c), node)); }
      var left := node.left;
      LinkRight(node, left, c, s);
      BalanceRight(node, left);
      assert Heads(RotR(s)) == Heads(s);
    }

    method RotateLeft(node: AvlNode, ghost c: Ctx, ghost s: Shape)
      requires s.Bin? && s.g.head == node && s.r.Bin?
      requires Hole(c, s) && Fit(s)
      requires -2 <= Height(s.r) - Height(s.l) <= 2 && -2 <= Height(s.r.r) - Height(s.r.l) <= 2
      modifies `root, pool`left, pool`right, pool`parent
      modifies {node, s.r.g.head}`balance
      ensures Hole(c, RotL(s)) && Fit(RotL(s))
    {
      forall x | x in Heads(s) { RotLBal(s, x); }
      assert node.right == s.r.g.head by { assert Agrees(node, Want(s, Par(c), node)); }
      var right := node.right;
      LinkLeft(node, right, c, s);
      BalanceLeft(node, right);
      assert Heads(RotL(s)) == Heads(s);
    }

    // Moving the focus one level up.
    lemma FocusUp(c: Ctx, s: Shape)
      requires !c.Top? && Hole(c, s)
      ensures Hole(c.up, Up(c, s))
      ensures Par(c) in Heads(Up(c, s)) && Heads(s) <= Heads(Up(c, s)) && Heads(Up(c, s)) <= HeadsC(c) + Heads(s)
      ensures s.Bin? ==> s.g.head in Heads(s) && s.g.head.parent == Par(c)
    {
      var u := Up(c, s);
      assert Heads(u) == Heads(s) + {c.g.head} + Heads(Sibling(c));
      assert s.Bin? ==> s.g.head in Heads(s);
      assert Heads(Sibling(c)) !! Heads(s);
      forall x | x in Heads(u) ensures Agrees(x, Want(u, Par(c.up), x)) {
        if x in HeadsC(c) {
          assert Agrees(x, WantC(c, Root(s), x));
        } else {
          assert Agrees(x, Want(s, Par(c), x));
        }
      }
      forall x | x in HeadsC(c.up) ensures Agrees(x, WantC(c.up, c.g.head, x)) {
        assert Agrees(x, WantC(c, Root(s), x));
      }
    }

    lemma FocusDown(c: Ctx, s: Shape)
      requires !c.Top? && Hole(c.up, Up(c, s))
      ensures Hole(c, s)
    {
      var u := Up(c, s);
      assert Heads(u) == Heads(s) + {c.g.head} + Heads(Sibling(c));
      assert HeadsC(c) == HeadsC(c.up) + {c.g.head} + Heads(Sibling(c));
      forall x | x in Heads(s) ensures Agrees(x, Want(s, Par(c), x)) {
        assert Agrees(x, Want(u, Par(c.up), x));
      }
      forall x | x in HeadsC(c) ensures Agrees(x, WantC(c, Root(s), x)) {
        if x in Heads(u) {
          assert Agrees(x, Want(u, Par(c.up), x));
        } else {
          assert Agrees(x, WantC(c.up, c.g.head, x));
        }
      }
    }

    lemma ParentIn(c: Ctx, s: Shape)
      requires !c.Top? && Hole(c, s)
      ensures c.g.head in pool
    {}

    // How the code finds out on which side of its parent a node hangs.
    lemma Side(c: Ctx, s: Shape)
      requires s.Bin? && Hole(c, s)
      ensures s.g.head in Heads(s) && s.g.head.parent == Par(c)
      ensures !c.Top? ==> c.g.head in HeadsC(c) && (s.g.head == c.g.head.left <==> c.InL?)
    {
      assert Agrees(s.g.head, Want(s, Par(c), s.g.head));
      if !c.Top? {
        assert Agrees(c.g.head, WantC(c, s.g.head, c.g.head));
        assert Sibling(c).Bin? ==> Root(Sibling(c)) in Heads(Sibling(c));
      }
    }

    lemma Parts(c: Ctx, s: Shape)
      requires s.Bin? && Hole(c, s) && Fit(s)
      ensures s.g.head.balance == Height(s.r) - Height(s.l) && Fit(s.l) && Fit(s.r)
      ensures s.g.head.left == Root(s.l) && s.g.head.right == Root(s.r)
      ensures s.l.Bin? ==> s.l.g.head.balance == Height(s.l.r) - Height(s.l.l)
      ensures s.r.Bin? ==> s.r.g.head.balance == Height(s.r.r) - Height(s.r.l)
    {
      FitParts(s);
      assert Agrees(s.g.head, Want(s, Par(c), s.g.head));
      if s.l.Bin? {
        FitParts(s.l);
      }
      if s.r.Bin? {
        FitParts(s.r);
      }
    }

    lemma {:induction false} Close(c: Ctx, s: Shape)
      requires Hole(c, s)
      ensures Hole(Top, Plug(c, s))
      decreases c
    {
      if !c.Top? {
        FocusUp(c, s);
        Close(c.up, Up(c, s));
      }
    }

    lemma {:induction false} Open(c: Ctx, s: Shape)
      requires Hole(Top, Plug(c, s))
      ensures Hole(c, s)
      decreases c
    {
      if !c.Top? {
        Open(c.up, Up(c, s));
        FocusDown(c, s);
      }
    }

    // Filling the hole with a tree of the height that everything above expects.
    lemma Finish(c: Ctx, s: Shape)
      requires Hole(c, s) && Fit(s) && FitC(c, Height(s)) && Avl(s) && AvlC(c, Height(s))
      ensures var t := Plug(c, s); Hole(Top, t) && Fit(t) && Avl(t) && Same(c, s, t)
    {
      Close(c, s);
      FitPlug(c, s);
      AvlPlug(c, s);
      SamePlug(c, s);
    }

    // parent->balance += d, once the subtree below it no longer has height h.
    method AddBalance(parent: AvlNode, d: int, ghost c: Ctx, ghost h: nat, ghost s: Shape)
      requires !c.Top? && parent == Par(c) && Hole(c, s) && Fit(s) && FitC(c, h)
      requires -1 <= d <= 1 && AvlC(c, h)
      requires d == ParBal(c, Height(s)) - ParBal(c, h)
      modifies parent`balance
      ensures Hole(c.up, Up(c, s)) && Fit(Up(c, s)) && FitC(c.up, UpHeight(c, h))
      ensures parent.balance == ParBal(c, Height(s))
      ensures unchanged(pool - {parent})
    {
      FitSplit(c, h);
      FocusUp(c, s);
      parent.balance := parent.balance + d;
      FitJoin(c, s);
    }

    // The inner rotation of a double one.
    method InnerLeft(node: AvlNode, ghost c: Ctx, ghost h: nat, ghost s: Shape)
      requires Hole(c, s) && Fit(s) && FitC(c, h)
      requires LeansLeft(s) && node == s.g.head && Height(s.l.l) < Height(s.l.r)
      modifies `root, pool`left, pool`right, pool`parent, pool`balance
      ensures Hole(c, Bin(RotL(s.l), s.g, s.r)) && Fit(Bin(RotL(s.l), s.g, s.r)) && FitC(c, h)
    {
      hide Match, MatchC, Avl, TopOf, InOrder, Want, Agrees;
      ghost var in1 := InL(c, s.g, s.r);
      FocusDown(in1, s.l);
      FitParts(s);
      LeansBounds(s);
      Children(c, s);
      RotateLeft(node.left, in1, s.l);
      FocusUp(in1, RotL(s.l));
      FitJoin(in1, RotL(s.l));
    }

    method InnerRight(node: AvlNode, ghost c: Ctx, ghost h: nat, ghost s: Shape)
      requires Hole(c, s) && Fit(s) && FitC(c, h)
      requires LeansRight(s) && node == s.g.head && Height(s.r.r) < Height(s.r.l)
      modifies `root, pool`left, pool`right, pool`parent, pool`balance
      ensures Hole(c, Bin(s.l, s.g, RotR(s.r))) && Fit(Bin(s.l, s.g, RotR(s.r))) && FitC(c, h)
    {
      hide Match, MatchC, Avl, TopOf, InOrder, Want, Agrees;
      ghost var in1 := InR(c, s.l, s.g);
      FocusDown(in1, s.r);
      FitParts(s);
      LeansBounds(s);
      Children(c, s);
      RotateRight(node.right, in1, s.r);
      FocusUp(in1, RotR(s.r));
      FitJoin(in1, RotR(s.r));
    }

    method DoubleRotateRight(node: AvlNode, ghost c: Ctx, ghost h: nat, ghost s: Shape)
      requires Hole(c, s) && Fit(s) && FitC(c, h)
      requires LeansLeft(s) && node == s.g.head && Height(s.l.l) < Height(s.l.r)
      modifies `root, pool`left, pool`right, pool`parent, pool`balance
      ensures Hole(c, DoubleR(s)) && Fit(DoubleR(s)) && FitC(c, h)
    {
      hide Match, MatchC, Avl, TopOf, InOrder, Want, Agrees;
      LeansBounds(s);
      InnerLeft(node, c, h, s);
      RotateRight(node, c, Bin(RotL(s.l), s.g, s.r));
    }

    method DoubleRotateLeft(node: AvlNode, ghost c: Ctx, ghost h: nat, ghost s: Shape)
      requires Hole(c, s) && Fit(s) && FitC(c, h)
      requires LeansRight(s) && node == s.g.head && Height(s.r.r) < Height(s.r.l)
      modifies `root, pool`left, pool`right, pool`parent, pool`balance
      ensures Hole(c, DoubleL(s)) && Fit(DoubleL(s)) && FitC(c, h)
    {
      hide Match, MatchC, Avl, TopOf, InOrder, Want, Agrees;
      LeansBounds(s);
      InnerRight(node, c, h, s);
      RotateLeft(node, c, Bin(s.l, s.g, RotR(s.r)));
    }

    lemma LeansBounds(s: Shape)
      ensures LeansLeft(s) && Height(s.l.l) < Height(s.l.r) ==>
        && s.l.r.Bin?
        && Height(RotL(s.l)) == Height(s.l) && -2 <= Height(s.l.r) - Height(s.l.l) <= 2
        && -2 <= Height(s.l.r.r) - Height(s.l.r.l) <= 2
        && var t := RotL(s.l); -2 <= Height(t.r) - Height(t.l) <= 2
      ensures LeansRight(s) && Height(s.r.r) < Height(s.r.l) ==>
        && s.r.l.Bin?
        && Height(RotR(s.r)) == Height(s.r) && -2 <= Height(s.r.r) - Height(s.r.l) <= 2
        && -2 <= Height(s.r.l.r) - Height(s.r.l.l) <= 2
        && var t := RotR(s.r); -2 <= Height(t.r) - Height(t.l) <= 2
    {
      if LeansLeft(s) && Height(s.l.l) < Height(s.l.r) {
        DoubleRAvl(s);
      }
      if LeansRight(s) && Height(s.r.r) < Height(s.r.l) {
        DoubleLAvl(s);
      }
    }

    lemma Children(c: Ctx, s: Shape)
      requires Hole(c, s) && s.Bin?
      ensures s.g.head.left == Root(s.l) && s.g.head.right == Root(s.r) && s.g.head in pool
    {
      assert Agrees(s.g.head, Want(s, Par(c), s.g.head));
    }

    lemma ChildParent(c: Ctx, s: Shape, x: AvlNode)
      requires s.Bin? && Hole(c, s) && (x == Root(s.l) || x == Root(s.r))
      ensures x.parent == s.g.head
    {
      var k := if x == Root(s.l) then s.l else s.r;
      assert x in Heads(k) && Want(k, s.g.head, x).parent == s.g.head;
      assert Agrees(x, Want(s, Par(c), x)) && x != s.g.head;
    }

    // The rotation, single or double, that repairs a node leaning left by two.
    method FixLeft(node: AvlNode, ghost c: Ctx, ghost h: nat, ghost s: Shape) returns (ghost t: Shape)
      requires Hole(c, s) && Fit(s) && FitC(c, h) && LeansLeft(s) && node == s.g.head
      modifies `root, pool`left, pool`right, pool`parent, pool`balance
      ensures Hole(c, t) && Fit(t) && FitC(c, h) && Avl(t) && InOrder(t) == InOrder(s)
      ensures Height(t) == if Height(s.l.l) == Height(s.l.r) then Height(s) else Height(s) - 1
      ensures t.Bin? && node.parent == t.g.head
    {
      hide Match, MatchC, Fit, AvlC, InOrder;
      Parts(c, s);
      if node.left.balance <= 0 {
        SingleRAvl(s);
        RotateRight(node, c, s);
        ChildParent(c, RotR(s), node);
        return RotR(s);
      }
      DoubleRAvl(s);
      DoubleROrder(s);
      DoubleRotateRight(node, c, h, s);
      ChildParent(c, DoubleR(s), node);
      return DoubleR(s);
    }

    method FixRight(node: AvlNode, ghost c: Ctx, ghost h: nat, ghost s: Shape) returns (ghost t: Shape)
      requires Hole(c, s) && Fit(s) && FitC(c, h) && LeansRight(s) && node == s.g.head
      modifies `root, pool`left, pool`right, pool`parent, pool`balance
      ensures Hole(c, t) && Fit(t) && FitC(c, h) && Avl(t) && InOrder(t) == InOrder(s)
      ensures Height(t) == if Height(s.r.l) == Height(s.r.r) then Height(s) else Height(s) - 1
      ensures t.Bin? && node.parent == t.g.head
    {
      hide Match, MatchC, Fit, AvlC, InOrder;
      Parts(c, s);
      if node.right.balance >= 0 {
        SingleLAvl(s);
        RotateLeft(node, c, s);
        ChildParent(c, RotL(s), node);
        return RotL(s);
      }
      DoubleLAvl(s);
      DoubleLOrder(s);
      DoubleRotateLeft(node, c, h, s);
      ChildParent(c, DoubleL(s), node);
      return DoubleL(s);
    }

    // The subtree left of parent grew by one. Returns whether the subtree at parent grew too.
    method GrowLeft(parent: AvlNode, ghost c: Ctx, ghost h: nat, ghost s: Shape) returns (more: bool, ghost u: Shape)
      requires c.InL? && parent == Par(c) && Hole(c, s) && Fit(s) && FitC(c, h)
      requires Avl(s) && AvlC(c, h) && Height(s) == h + 1
      requires s.Bin? && Height(s.l) != Height(s.r)
      modifies `root, pool`left, pool`right, pool`parent, pool`balance
      ensures Hole(c.up, u) && Fit(u) && FitC(c.up, UpHeight(c, h))
      ensures Avl(u) && AvlC(c.up, UpHeight(c, h)) && InOrder(u) == InOrder(Up(c, s))
      ensures more ==> u.Bin? && u.g.head == parent && parent.balance != 0
      ensures Height(u) == UpHeight(c, h) + if more then 1 else 0
    {
      hide Match, MatchC, Sep, Fit, FitC, Avl, AvlC, Height, InOrder, Hole;
      u := Up(c, s);
      GrowStep(c, h, s);
      ParentIn(c, s);
      AddBalance(parent, -1, c, h, s);
      if parent.balance == 0 {
        return false, u;
      }
      if parent.balance == -1 {
        return true, u;
      }
      u := FixLeft(parent, c.up, UpHeight(c, h), u);
      more := false;
    }

    method GrowRight(parent: AvlNode, ghost c: Ctx, ghost h: nat, ghost s: Shape) returns (more: bool, ghost u: Shape)
      requires c.InR? && parent == Par(c) && Hole(c, s) && Fit(s) && FitC(c, h)
      requires Avl(s) && AvlC(c, h) && Height(s) == h + 1
      requires s.Bin? && Height(s.l) != Height(s.r)
      modifies `root, pool`left, pool`right, pool`parent, pool`balance
      ensures Hole(c.up, u) && Fit(u) && FitC(c.up, UpHeight(c, h))
      ensures Avl(u) && AvlC(c.up, UpHeight(c, h)) && InOrder(u) == InOrder(Up(c, s))
      ensures more ==> u.Bin? && u.g.head == parent && parent.balance != 0
      ensures Height(u) == UpHeight(c, h) + if more then 1 else 0
    {
      hide Match, MatchC, Sep, Fit, FitC, Avl, AvlC, Height, InOrder, Hole;
      u := Up(c, s);
      GrowStep(c, h, s);
      ParentIn(c, s);
      AddBalance(parent, 1, c, h, s);
      if parent.balance == 0 {
        return false, u;
      }
      if parent.balance == 1 {
        return true, u;
      }
      u := FixRight(parent, c.up, UpHeight(c, h), u);
      more := false;
    }

    method PostInsert(node: AvlNode, ghost c: Ctx, ghost h: nat, ghost s: Shape) returns (ghost t: Shape)
      requires s.Bin? && s.g.head == node && node.balance != 0
      requires Hole(c, s) && Fit(s) && FitC(c, h) && Avl(s) && AvlC(c, h) && Height(s) == h + 1
      modifies `root, pool`left, pool`right, pool`parent, pool`balance
      ensures Hole(Top, t) && Fit(t) && Avl(t) && Same(c, s, t)
      decreases c
    {
      hide Match, MatchC, Sep, Fit, FitC, Avl, AvlC, Height, InOrder, Pre, Post, Hole, Same, Plug, UpHeight;
      Side(c, s);
      Parts(c, s);
      SameTop(c, s);
      var parent := node.parent;
      if parent == null {
        return s;
      }
      var more;
      ghost var u;
      if node == parent.left {
        more, u := GrowLeft(parent, c, h, s);
      } else {
        more, u := GrowRight(parent, c, h, s);
      }
      if more {
        t := PostInsert(parent, c.up, UpHeight(c, h), u);
      } else {
        Finish(c.up, u);
        t := Plug(c.up, u);
      }
      SameStep(c, s, u, t);
    }

    // The subtree left of parent shrank by one. Returns whether the subtree now headed by
    // next shrank too.
    method ShrinkLeft(parent: AvlNode, ghost c: Ctx, ghost h: nat, ghost s: Shape)
      returns (more: bool, next: AvlNode?, ghost u: Shape)
      requires c.InL? && parent == Par(c) && Hole(c, s) && Fit(s) && FitC(c, h)
      requires Avl(s) && AvlC(c, h) && h == Height(s) + 1
      modifies `root, pool`left, pool`right, pool`parent, pool`balance
      ensures Hole(c.up, u) && Fit(u) && FitC(c.up, UpHeight(c, h))
      ensures Avl(u) && AvlC(c.up, UpHeight(c, h)) && InOrder(u) == InOrder(Up(c, s))
      ensures u.Bin? && (more ==> u.g.head == next)
      ensures UpHeight(c, h) == Height(u) + if more then 1 else 0
    {
      hide Match, MatchC, Sep, Fit, FitC, Avl, AvlC, InOrder, Hole;
      u := Up(c, s);
      ShrinkStep(c, h, s);
      ParentIn(c, s);
      AddBalance(parent, 1, c, h, s);
      if parent.balance == 0 {
        return true, parent, u;
      }
      if parent.balance == 1 {
        return false, null, u;
      }
      Parts(c.up, u);
      var level := parent.right.balance;
      u := FixRight(parent, c.up, UpHeight(c, h), u);
      more, next := level != 0, parent.parent;
    }

    method ShrinkRight(parent: AvlNode, ghost c: Ctx, ghost h: nat, ghost s: Shape)
      returns (more: bool, next: AvlNode?, ghost u: Shape)
      requires c.InR? && parent == Par(c) && Hole(c, s) && Fit(s) && FitC(c, h)
      requires Avl(s) && AvlC(c, h) && h == Height(s) + 1
      modifies `root, pool`left, pool`right, pool`parent, pool`balance
      ensures Hole(c.up, u) && Fit(u) && FitC(c.up, UpHeight(c, h))
      ensures Avl(u) && AvlC(c.up, UpHeight(c, h)) && InOrder(u) == InOrder(Up(c, s))
      ensures u.Bin? && (more ==> u.g.head == next)
      ensures UpHeight(c, h) == Height(u) + if more then 1 else 0
    {
      hide Match, MatchC, Sep, Fit, FitC, Avl, AvlC, InOrder, Hole;
      u := Up(c, s);
      ShrinkStep(c, h, s);
      ParentIn(c, s);
      AddBalance(parent, -1, c, h, s);
      if parent.balance == 0 {
        return true, parent, u;
      }
      if parent.balance == -1 {
        return false, null, u;
      }
      Parts(c.up, u);
      var level := parent.left.balance;
      u := FixLeft(parent, c.up, UpHeight(c, h), u);
      more, next := level != 0, parent.parent;
    }

    method PostRemove(node: AvlNode, ghost c: Ctx, ghost h: nat, ghost s: Shape) returns (ghost t: Shape)
      requires s.Bin? && s.g.head == node
      requires Hole(c, s) && Fit(s) && FitC(c, h) && Avl(s) && AvlC(c, h) && h == Height(s) + 1
      modifies `root, pool`left, pool`right, pool`parent, pool`balance
      ensures Hole(Top, t) && Fit(t) && Avl(t) && Same(c, s, t)
      decreases c
    {
      hide Match, MatchC, Sep, Fit, FitC, Avl, AvlC, Height, InOrder, Pre, Post, Hole, Same, Plug, UpHeight;
      Side(c, s);
      SameTop(c, s);
      var parent := node.parent;
      if parent == null {
        return s;
      }
      var more, next;
      ghost var u;
      if node == parent.left {
        more, next, u := ShrinkLeft(parent, c, h, s);
      } else {
        more, next, u := ShrinkRight(parent, c, h, s);
      }
      if more {
        t := PostRemove(next, c.up, UpHeight(c, h), u);
      } else {
        Finish(c.up, u);
        t := Plug(c.up, u);
      }
      SameStep(c, s, u, t);
    }

    // Everything a node owns in the tree is handed to repl: links, place and balance.
    method Substitute(node: AvlNode, repl: AvlNode, ghost c: Ctx, ghost s: Shape, ghost g: Group)
      requires s.Bin? && s.g.head == node && g.head == repl && repl in pool
      requires Hole(c, s) && Fit(s) && FitC(c, Height(s))
      requires repl !in Heads(s) && repl !in HeadsC(c)
      modifies `root, pool`left, pool`right, pool`parent, pool`balance
      ensures Hole(c, Bin(s.l, g, s.r)) && Fit(Bin(s.l, g, s.r)) && FitC(c, Height(s))
    {
      FitParts(s);
      SwapWant(c, s, g, Par(c));
      repl.balance := node.balance;
      assert Fit(Bin(s.l, g, s.r)) && FitC(c, Height(s));
      SubstituteLinks(node, repl, c, s, g);
    }

    method SubstituteLinks(node: AvlNode, repl: AvlNode, ghost c: Ctx, ghost s: Shape, ghost g: Group)
      requires s.Bin? && s.g.head == node && g.head == repl && repl in pool
      requires Hole(c, s) && repl !in Heads(s) && repl !in HeadsC(c)
      modifies `root, pool`left, pool`right, pool`parent
      ensures Hole(c, Bin(s.l, g, s.r))
    {
      SwapWant(c, s, g, Par(c));
      var parent := node.parent;
      repl.parent := parent;
      repl.left := node.left;
      repl.right := node.right;
      if repl.left != null {
        repl.left.parent := repl;
      }
      if repl.right != null {
        repl.right.parent := repl;
      }
      ReplaceChild(parent, node, repl, c);
    }

    // _avl_local_min
    method LocalMin(node: AvlNode, ghost c: Ctx, ghost s: Shape)
      returns (min: AvlNode, ghost d: Ctx, ghost e: Shape)
      requires s.Bin? && s.g.head == node && Hole(c, s)
      requires Fit(s) && FitC(c, Height(s)) && Avl(s) && AvlC(c, Height(s))
      ensures Hole(d, e) && e.Bin? && e.g.head == min && e.l.Leaf?
      ensures Fit(e) && FitC(d, Height(e)) && Avl(e) && AvlC(d, Height(e))
      ensures Pre(d) == Pre(c) && InOrder(e) + Post(d) == InOrder(s) + Post(c)
    {
      min, d, e := node, c, s;
      while min.left != null
        invariant Hole(d, e) && e.Bin? && e.g.head == min
        invariant Fit(e) && FitC(d, Height(e)) && Avl(e) && AvlC(d, Height(e))
        invariant Pre(d) == Pre(c) && InOrder(e) + Post(d) == InOrder(s) + Post(c)
        decreases e
      {
        Parts(d, e);
        Descend(d, e);
        d, e := InL(d, e.g, e.r), e.l;
        min := min.left;
      }
      Parts(d, e);
    }

    // One step down to the left.
    lemma Descend(c: Ctx, s: Shape)
      requires s.Bin? && Hole(c, s) && Fit(s) && FitC(c, Height(s)) && Avl(s) && AvlC(c, Height(s))
      ensures var d := InL(c, s.g, s.r);
        && Hole(d, s.l) && Fit(s.l) && FitC(d, Height(s.l)) && Avl(s.l) && AvlC(d, Height(s.l))
        && Pre(d) == Pre(c) && InOrder(s.l) + Post(d) == InOrder(s) + Post(c)
    {
      hide Match, MatchC, Fit, FitC, Heads;
      var d := InL(c, s.g, s.r);
      FocusDown(d, s.l);
      FitCJoin(d, s.l);
      LeftSeq(InOrder(s.l), s.g, InOrder(s.r), Post(c));
    }

    // The links of a head without children are cut, or handed to its only child, the root of e.
    method Detach(parent: AvlNode?, node: AvlNode, ghost c: Ctx, ghost s: Shape)
      requires s.Bin? && s.g.head == node && s.l.Leaf? && s.r.Leaf? && Hole(c, s) && parent == Par(c)
      modifies `root, HeadsC(c)`left, HeadsC(c)`right
      ensures Hole(c, Leaf) && Fit(Leaf)
    {
      assert node in Heads(s);
      ReplaceChild(parent, node, null, c);
    }

    method Bypass(parent: AvlNode?, node: AvlNode, child: AvlNode, ghost c: Ctx, ghost s: Shape, ghost e: Shape)
      requires s.Bin? && s.g.head == node && e.Bin? && e.g.head == child && (e == s.l || e == s.r)
      requires Hole(c, s) && parent == Par(c)
      modifies `root, HeadsC(c)`left, HeadsC(c)`right, child`parent
      ensures Hole(c, e)
    {
      assert node in Heads(s);
      SpliceWant(c, s, e, Par(c));
      child.parent := parent;
      ReplaceChild(parent, node, child, c);
    }

    // Taking out a head without children.
    method RemoveLeaf(node: AvlNode, ghost c: Ctx, ghost s: Shape) returns (ghost t: Shape)
      requires s.Bin? && s.g.head == node && s.l.Leaf? && s.r.Leaf?
      requires Hole(c, s) && Fit(s) && FitC(c, 1) && Avl(s) && AvlC(c, 1)
      modifies `root, pool`left, pool`right, pool`parent, pool`balance
      ensures Hole(Top, t) && Fit(t) && Avl(t) && Same(c, Leaf, t)
    {
      hide Match, MatchC, Sep, Fit, FitC, AvlC, InOrder, Same;
      Side(c, s);
      SameTop(c, Leaf);
      var parent := node.parent;
      var wasLeft := parent != null && parent.left == node;
      Detach(parent, node, c, s);
      if parent == null {
        return Leaf;
      }
      var more, next;
      ghost var u;
      if wasLeft {
        more, next, u := ShrinkLeft(parent, c, 1, Leaf);
      } else {
        more, next, u := ShrinkRight(parent, c, 1, Leaf);
      }
      if more {
        t := PostRemove(next, c.up, UpHeight(c, 1), u);
      } else {
        Finish(c.up, u);
        t := Plug(c.up, u);
      }
      SameStep(c, Leaf, u, t);
    }

    // Taking out a head whose only child is child, the root of e.
    method Splice(node: AvlNode, child: AvlNode, ghost c: Ctx, ghost s: Shape, ghost e: Shape) returns (ghost t: Shape)
      requires s.Bin? && s.g.head == node && e.Bin? && e.g.head == child
      requires (e == s.l && s.r.Leaf?) || (e == s.r && s.l.Leaf?)
      requires Hole(c, s) && Fit(s) && FitC(c, Height(s)) && Avl(s) && AvlC(c, Height(s))
      modifies `root, pool`left, pool`right, pool`parent, pool`balance
      ensures Hole(Top, t) && Fit(t) && Avl(t) && Same(c, e, t)
    {
      hide Match, MatchC, Sep, AvlC, InOrder, Same;
      Side(c, s);
      Parts(c, s);
      Bypass(node.parent, node, child, c, s, e);
      t := PostRemove(child, c, Height(s), e);
    }

    method RemoveWorker(node: AvlNode, ghost c: Ctx, ghost s: Shape) returns (ghost t: Shape)
      requires s.Bin? && s.g.head == node
      requires Hole(c, s) && Fit(s) && FitC(c, Height(s)) && Avl(s) && AvlC(c, Height(s))
      modifies `root, pool`left, pool`right, pool`parent, pool`balance
      ensures Hole(Top, t) && Fit(t) && Avl(t)
      ensures InOrder(t) == Pre(c) + InOrder(s.l) + InOrder(s.r) + Post(c)
      decreases s.l.Bin? && s.r.Bin?
    {
      hide Match, MatchC, Sep, Fit, FitC, Avl, AvlC, Hole, Pre, Post;
      Parts(c, s);
      if node.left == null && node.right == null {
        t := RemoveLeaf(node, c, s);
      } else if node.left == null {
        t := Splice(node, node.right, c, s, s.r);
      } else if node.right == null {
        t := Splice(node, node.left, c, s, s.l);
      } else {
        t := RemoveInner(node, c, s);
      }
    }

    lemma DescendRight(c: Ctx, s: Shape)
      requires s.Bin? && Hole(c, s) && Fit(s) && FitC(c, Height(s)) && Avl(s) && AvlC(c, Height(s))
      ensures var d := InR(c, s.l, s.g);
        && Hole(d, s.r) && Fit(s.r) && FitC(d, Height(s.r)) && Avl(s.r) && AvlC(d, Height(s.r))
        && Post(d) == Post(c)
    {
      hide Match, MatchC, Fit, FitC, InOrder, Heads;
      var d := InR(c, s.l, s.g);
      FocusDown(d, s.r);
      FitCJoin(d, s.r);
    }

    // Taking out a head with two children: its successor is taken out instead and
    // then put in its place, wherever that place has moved to.
    method RemoveInner(node: AvlNode, ghost c: Ctx, ghost s: Shape) returns (ghost t: Shape)
      requires s.Bin? && s.g.head == node && s.l.Bin? && s.r.Bin? && node.right == s.r.g.head
      requires Hole(c, s) && Fit(s) && FitC(c, Height(s)) && Avl(s) && AvlC(c, Height(s))
      modifies `root, pool`left, pool`right, pool`parent, pool`balance
      ensures Hole(Top, t) && Fit(t) && Avl(t)
      ensures InOrder(t) == Pre(c) + InOrder(s.l) + InOrder(s.r) + Post(c)
      decreases true, 0
    {
      hide Match, MatchC, Sep, Fit, FitC, Avl, AvlC, Hole, InOrder, Pre, Post;
      ghost var right := InR(c, s.l, s.g);
      DescendRight(c, s);
      var min;
      ghost var d, e;
      min, d, e := LocalMin(node.right, right, s.r);
      t := RemoveWorker(min, d, e);
      CutOrder(c, s, d, e, t);
      MinGone(d, e, t);
      ReplacedOrder(c, s, d, e, t);
      t := ReplaceHead(node, min, t, |Pre(c) + InOrder(s.l)|, e.g);
    }

    // What balances say does not depend on where the tree is looked at from.
    lemma Refocus(c: Ctx, s: Shape, d: Ctx, e: Shape)
      requires Hole(c, s) && Fit(s) && FitC(c, Height(s)) && Avl(s) && AvlC(c, Height(s))
      requires Hole(d, e) && Plug(d, e) == Plug(c, s)
      ensures Fit(e) && FitC(d, Height(e)) && Avl(e) && AvlC(d, Height(e))
    {
      FitPlug(c, s);
      AvlPlug(c, s);
      FitOpen(d, e);
      AvlPlug(d, e);
    }

    // repl takes over the place of the head node, the k-th in the tree.
    method ReplaceHead(node: AvlNode, repl: AvlNode, ghost s: Shape, ghost k: nat, ghost g: Group)
        returns (ghost t: Shape)
      requires TreeOk(s)
      requires k < |InOrder(s)| && InOrder(s)[k].head == node && g.head == repl && repl in pool && repl !in Heads(s)
      modifies `root, pool`left, pool`right, pool`parent, pool`balance
      ensures TreeOk(t) && InOrder(t) == InOrder(s)[k := g]
    {
      hide Match, MatchC, Sep, Fit, FitC, Avl, AvlC, InOrder;
      ghost var b, f := Locate(Top, s, k);
      Open(b, f);
      Refocus(Top, s, b, f);
      HeadsPlug(b, f);
      Substitute(node, repl, b, f, g);
      Finish(b, Bin(f.l, g, f.r));
      t := Plug(b, Bin(f.l, g, f.r));
      PutOrder(b, f, g, t, InOrder(s), k);
    }

    // ----- lookup -----

    method FindRec(node: AvlNode, key: Key, ghost c: Ctx, ghost s: Shape)
      returns (r: AvlNode, diff: int, ghost d: Ctx, ghost e: Shape, ghost steps: nat)
      requires Hole(c, s) && s.Bin? && s.g.head == node
      requires Total(comp) && Sorted(comp, InOrder(s)) && Above(comp, key, Pre(c)) && Under(comp, key, Post(c))
      ensures Hole(d, e) && Plug(d, e) == Plug(c, s) && e.Bin? && e.g.head == r && diff == comp(key, r.key)
      ensures Sorted(comp, InOrder(e)) && Above(comp, key, Pre(d)) && Under(comp, key, Post(d))
      ensures (diff < 0 ==> e.l.Leaf?) && (diff > 0 ==> e.r.Leaf?)
      ensures steps <= Height(s)
      decreases s
    {
      diff := comp(key, node.key);
      r, d, e, steps := node, c, s, 1;
      assert node.left == Root(s.l) && node.right == Root(s.r) by { assert Agrees(node, Want(s, Par(c), node)); }
      SortedParts(comp, s);
      if diff < 0 {
        if node.left != null {
          StepLeft(comp, key, s);
          FocusDown(InL(c, s.g, s.r), s.l);
          r, diff, d, e, steps := FindRec(node.left, key, InL(c, s.g, s.r), s.l);
          steps := steps + 1;
        }
      } else if diff > 0 {
        if node.right != null {
          StepRight(comp, key, s);
          FocusDown(InR(c, s.l, s.g), s.r);
          r, diff, d, e, steps := FindRec(node.right, key, InR(c, s.l, s.g), s.r);
          steps := steps + 1;
        }
      }
    }

    // A search from the root, and what it says about the list.
    method Search(key: Key) returns (node: AvlNode, diff: int, ghost d: Ctx, ghost e: Shape, ghost k: nat)
      requires Valid() && root != null
      ensures Plug(d, e) == shape && e.Bin? && e.g.head == node && diff == comp(key, node.key)
      ensures (diff < 0 ==> e.l.Leaf?) && (diff > 0 ==> e.r.Leaf?)
      ensures Total(comp) && Sorted(comp, Groups())
      ensures var gs := Groups();
        && k < |gs| && gs[k] == e.g && gs[..k] == Pre(d) + InOrder(e.l) && gs[k + 1..] == InOrder(e.r) + Post(d)
        && (diff <= 0 ==> Above(comp, key, gs[..k])) && (diff < 0 ==> Under(comp, key, gs[k..]))
        && (diff >= 0 ==> Under(comp, key, gs[k + 1..])) && (diff > 0 ==> Above(comp, key, gs[..k + 1]))
    {
      hide Ring, Marked, Match, MatchC, Join, Fit, Avl;
      ghost var steps;
      node, diff, d, e, steps := FindRec(root, key, Top, shape);
      k := Landing(comp, key, d, e);
    }

    method Find(key: Key) returns (r: AvlNode?)
      requires Valid()
      ensures r == null ==> exists p: nat :: Gap(comp, Order(), key, p)
      ensures r != null ==> exists p: nat :: FirstEqual(comp, Order(), key, p) && Order()[p] == r
    {
      hide Ring, Marked, Match, MatchC, Fit, Avl;
      if root == null {
        EmptyOrder();
        assert Gap(comp, Order(), key, 0);
        return null;
      }
      var node, diff;
      ghost var d, e, k;
      node, diff, d, e, k := Search(key);
      if diff == 0 {
        FirstEqualAt(comp, key, Groups(), k);
        assert Order()[|Join(Groups()[..k])|] == node;
      } else {
        k := if diff < 0 then k else k + 1;
        GapAt(comp, key, Groups(), k);
        assert Gap(comp, Order(), key, |Join(Groups()[..k])|);
      }
      return if diff == 0 then node else null;
    }

    // The neighbours of the i-th node on the ring.
    lemma Neighbours(i: nat)
      requires Valid() && i < |Order()|
      ensures var order := Order();
        && (head.prev == order[i] <==> i + 1 == |order|) && (head.next == order[i] <==> i == 0)
        && (i + 1 < |order| ==> order[i].next == order[i + 1])
        && (0 < i ==> order[i].prev == order[i - 1])
        && (i + 1 == |order| ==> order[i].next == head) && order[i] != head
        && (forall j :: 0 <= j < |order| && j != i ==> order[j] != order[i]) && order[i] in pool
    {
      var order := Order();
      RingLinks(head, pool, order, 0);
      RingLinks(head, pool, order, i);
      RingLinks(head, pool, order, i + 1);
      RingLinks(head, pool, order, |order|);
      assert At(head, order, i + 1) == order[i];
    }

    // Keys at or above a key at or above key are at or above it, and so on.
    lemma Monotone(key: Key, i: nat, j: nat)
      requires Valid() && i <= j < |Order()|
      ensures var a, b := Order()[i].key, Order()[j].key;
        && (comp(key, a) < 0 ==> comp(key, b) < 0) && (comp(key, a) <= 0 ==> comp(key, b) <= 0)
        && (comp(key, b) > 0 ==> comp(key, a) > 0) && (comp(key, b) >= 0 ==> comp(key, a) >= 0)
    {
      var a, b := Order()[i].key, Order()[j].key;
      Ascending(comp, Groups(), i, j);
      Chain(comp, key, a, b);
      Chain(comp, a, b, key);
    }

    // avl_find_lessequal
    method FindLessEqual(key: Key) returns (r: AvlNode?)
      requires Valid()
      ensures r == null ==> forall i :: 0 <= i < |Order()| ==> comp(key, Order()[i].key) < 0
      ensures r != null ==> exists p: nat :: LastBelow(key, p) && Order()[p] == r
    {
      hide Ring, Marked, Sorted, Match, MatchC, Join, InOrder, Fit, Avl;
      if root == null {
        EmptyOrder();
        return null;
      }
      var node: AvlNode;
      var diff;
      ghost var d, e, k;
      node, diff, d, e, k := Search(key);
      GroupPlaces(Groups(), k);
      ghost var i: nat, m: nat := |Join(Groups()[..k])|, 0;
      if diff < 0 {
        var start;
        start, i := StepBack(key, node, i);
        if start == null {
          return null;
        }
        node := start;
      }
      r, m := StepOn(key, node, i);
    }

    // The first loop of avl_find_lessequal: back to a node at most key.
    method StepBack(key: Key, start: AvlNode, ghost at: nat) returns (node: AvlNode?, ghost i: nat)
      requires Valid() && at < |Order()| && start == Order()[at] && comp(key, start.key) < 0
      ensures node == null ==> forall j :: 0 <= j < |Order()| ==> comp(key, Order()[j].key) < 0
      ensures node != null ==> i < |Order()| && node == Order()[i] && comp(key, node.key) >= 0
    {
      hide Valid, Order;
      var n, diff := start, comp(key, start.key);
      i := at;
      while diff < 0
        invariant i < |Order()| && n == Order()[i] && diff == comp(key, n.key)
        decreases i
      {
        Neighbours(i);
        if head.next == n {
          forall j | 0 <= j < |Order()| ensures comp(key, Order()[j].key) < 0 {
            Monotone(key, 0, j);
          }
          return null, 0;
        }
        n := n.prev;
        i := i - 1;
        diff := comp(key, n.key);
      }
      node := n;
    }

    // The second loop: on to the last node at most key.
    method StepOn(key: Key, start: AvlNode, ghost at: nat) returns (node: AvlNode, ghost i: nat)
      requires Valid() && at < |Order()| && start == Order()[at] && comp(key, start.key) >= 0
      ensures LastBelow(key, i) && i < |Order()| && Order()[i] == node
    {
      hide Valid, Order, LastBelow;
      var next, diff := start, comp(key, start.key);
      node, i := start, at;
      ghost var m := at;
      while diff >= 0
        invariant i <= m < |Order()| && node == Order()[i] && comp(key, node.key) >= 0
        invariant next == Order()[m] && diff == comp(key, next.key)
        invariant m <= i + 1 && (diff < 0 ==> m == i + 1)
        decreases |Order()| - m
      {
        node, i := next, m;
        Neighbours(i);
        if head.prev == node {
          break;
        }
        next := node.next;
        m := m + 1;
        diff := comp(key, next.key);
      }
      IsLastBelow(key, i);
    }

    // The last node whose key is at most key.
    ghost predicate LastBelow(key: Key, p: nat)
      reads this
    {
      && p < |Order()| && (forall i :: 0 <= i <= p ==> comp(key, Order()[i].key) >= 0)
      && (forall i :: p < i < |Order()| ==> comp(key, Order()[i].key) < 0)
    }

    lemma IsLastBelow(key: Key, p: nat)
      requires Valid() && p < |Order()| && comp(key, Order()[p].key) >= 0
      requires p + 1 < |Order()| ==> comp(key, Order()[p + 1].key) < 0
      ensures LastBelow(key, p)
    {
      forall i | 0 <= i <= p ensures comp(key, Order()[i].key) >= 0 {
        Monotone(key, i, p);
      }
      forall i | p < i < |Order()| ensures comp(key, Order()[i].key) < 0 {
        Monotone(key, p + 1, i);
      }
    }

    // avl_find_greaterequal
    method FindGreaterEqual(key: Key) returns (r: AvlNode?)
      requires Valid()
      ensures r == null ==> forall i :: 0 <= i < |Order()| ==> comp(key, Order()[i].key) > 0
      ensures r != null ==> exists p: nat :: FirstAbove(key, p) && Order()[p] == r
    {
      hide Ring, Marked, Sorted, Match, MatchC, Join, InOrder, Fit, Avl;
      if root == null {
        EmptyOrder();
        return null;
      }
      var node: AvlNode;
      var diff;
      ghost var d, e, k;
      node, diff, d, e, k := Search(key);
      GroupPlaces(Groups(), k);
      ghost var i: nat, m: nat := |Join(Groups()[..k])|, 0;
      if diff > 0 {
        var start;
        start, i := StepUp(key, node, i);
        if start == null {
          return null;
        }
        node := start;
      }
      r, m := StepDown(key, node, i);
    }

    // The first loop of avl_find_greaterequal: on to a node at least key.
    method StepUp(key: Key, start: AvlNode, ghost at: nat) returns (node: AvlNode?, ghost i: nat)
      requires Valid() && at < |Order()| && start == Order()[at] && comp(key, start.key) > 0
      ensures node == null ==> forall j :: 0 <= j < |Order()| ==> comp(key, Order()[j].key) > 0
      ensures node != null ==> i < |Order()| && node == Order()[i] && comp(key, node.key) <= 0
    {
      hide Valid, Order;
      var n, diff := start, comp(key, start.key);
      i := at;
      while diff > 0
        invariant i < |Order()| && n == Order()[i] && diff == comp(key, n.key)
        decreases |Order()| - i
      {
        Neighbours(i);
        if head.prev == n {
          forall j | 0 <= j < |Order()| ensures comp(key, Order()[j].key) > 0 {
            Monotone(key, j, i);
          }
          return null, 0;
        }
        n := n.next;
        i := i + 1;
        diff := comp(key, n.key);
      }
      node := n;
    }

    // The second loop: back to the first node at least key.
    method StepDown(key: Key, start: AvlNode, ghost at: nat) returns (node: AvlNode, ghost i: nat)
      requires Valid() && at < |Order()| && start == Order()[at] && comp(key, start.key) <= 0
      ensures FirstAbove(key, i) && i < |Order()| && Order()[i] == node
    {
      hide Valid, Order, FirstAbove;
      var next, diff := start, comp(key, start.key);
      node, i := start, at;
      ghost var m := at;
      while diff <= 0
        invariant 0 <= m <= i < |Order()| && node == Order()[i] && comp(key, node.key) <= 0
        invariant next == Order()[m] && diff == comp(key, next.key)
        invariant i <= m + 1 && (diff > 0 ==> i == m + 1)
        decreases m
      {
        node, i := next, m;
        Neighbours(i);
        if head.next == node {
          break;
        }
        next := node.prev;
        m := m - 1;
        diff := comp(key, next.key);
      }
      IsFirstAbove(key, i);
    }

    // The first node whose key is at least key.
    ghost predicate FirstAbove(key: Key, p: nat)
      reads this
    {
      && p < |Order()| && (forall i :: p <= i < |Order()| ==> comp(key, Order()[i].key) <= 0)
      && (forall i :: 0 <= i < p ==> comp(key, Order()[i].key) > 0)
    }

    lemma IsFirstAbove(key: Key, p: nat)
      requires Valid() && p < |Order()| && comp(key, Order()[p].key) <= 0
      requires 0 < p ==> comp(key, Order()[p - 1].key) > 0
      ensures FirstAbove(key, p)
    {
      forall i | 0 <= i < p ensures comp(key, Order()[i].key) > 0 {
        Monotone(key, i, p - 1);
      }
      forall i | p <= i < |Order()| ensures comp(key, Order()[i].key) <= 0 {
        Monotone(key, p, i);
      }
    }

    lemma EmptyOrder()
      requires Valid() && root == null
      ensures Order() == []
    {}

    // A search takes logarithmically many steps: each counts for one level.
    lemma SearchDepth()
      requires Valid()
      ensures Fib(Height(shape) + 2) <= |Groups()| + 1
      ensures Words.Pow2(Height(shape) / 2) <= |Groups()| + 1
    {
      FibonacciBound(shape);
      FibDoubles(Height(shape));
    }

    // The flag of every node is decided by the list alone: a node is a follower
    // exactly when the node before it has an equal key.
    lemma FollowerIff(i: nat)
      requires Valid() && i < |Order()|
      ensures Order()[i].follower <==> 0 < i && comp(Order()[i - 1].key, Order()[i].key) == 0
    {
      hide Ring, NoDup, Join, InOrder, Sorted;
      var gs, order := Groups(), Order();
      RingMembers(head, pool, order);
      var k, j := GroupOf(order[i]);
      GroupPlaces(gs, k);
      EqualBefore(comp, gs, k, j);
      Neighbours(i);
    }

    // The n nodes from place p on, and no others, have a key equal to key.
    ghost predicate EqualRun(key: Key, p: nat, n: nat)
      reads this
    {
      && p + n <= |Order()|
      && (forall i :: 0 <= i < p ==> comp(Order()[i].key, key) < 0)
      && (forall i :: p <= i < p + n ==> comp(Order()[i].key, key) == 0)
      && (forall i :: p + n <= i < |Order()| ==> comp(Order()[i].key, key) > 0)
    }

    // One step of the walk, and its end.
    lemma RunStep(key: Key, p: nat, i: nat)
      requires Valid() && FirstEqual(comp, Order(), key, p) && p <= i < |Order()|
      requires forall j :: p <= j < i ==> comp(Order()[j].key, key) == 0
      requires i == p || Order()[i].follower
      ensures comp(Order()[i].key, key) == 0
    {
      if p < i {
        FollowerIff(i);
        Chain(comp, Order()[i].key, Order()[i - 1].key, key);
        Chain(comp, key, Order()[i - 1].key, Order()[i].key);
      }
    }

    lemma RunEnd(key: Key, p: nat, n: nat)
      requires Valid() && FirstEqual(comp, Order(), key, p) && 1 <= n && p + n <= |Order()|
      requires forall j :: p <= j < p + n ==> comp(Order()[j].key, key) == 0
      requires p + n < |Order()| ==> !Order()[p + n].follower
      ensures EqualRun(key, p, n)
    {
      var q := p + n;
      if q < |Order()| {
        FollowerIff(q);
        forall i | q <= i < |Order()| ensures comp(Order()[i].key, key) > 0 {
          Ascending(comp, Groups(), q - 1, q);
          Ascending(comp, Groups(), q, i);
          Chain(comp, key, Order()[q - 1].key, Order()[q].key);
          Chain(comp, key, Order()[q].key, Order()[i].key);
          Chain(comp, Order()[i].key, key, key);
        }
      }
    }

    // avl_for_each_elements_with_key
    method VisitKey(key: Key) returns (visited: seq<AvlNode>)
      requires Valid()
      ensures exists p: nat :: EqualRun(key, p, |visited|) && visited == Order()[p..p + |visited|]
    {
      hide Valid, Order, Gap;
      var start := Find(key);
      if start == null {
        ghost var q: nat :| Gap(comp, Order(), key, q);
        GapRun(key, q);
        return [];
      }
      ghost var p: nat :| FirstEqual(comp, Order(), key, p) && Order()[p] == start;
      visited := Walk(key, start, p);
    }

    // The loop from the first node of the key.
    method Walk(key: Key, start: AvlNode, ghost p: nat) returns (visited: seq<AvlNode>)
      requires Valid() && FirstEqual(comp, Order(), key, p) && p < |Order()| && Order()[p] == start
      ensures EqualRun(key, p, |visited|) && visited == Order()[p..p + |visited|]
    {
      hide Valid, Order, FirstEqual, EqualRun;
      visited := [];
      var element: AvlNode := start;
      ghost var i := p;
      Neighbours(p);
      while element != head && (element == start || element.follower)
        invariant p <= i <= |Order()| && visited == Order()[p..i]
        invariant element == if i < |Order()| then Order()[i] else head
        invariant i == p || element != start
        invariant forall j :: p <= j < i ==> comp(Order()[j].key, key) == 0
        decreases |Order()| - i
      {
        RunStep(key, p, i);
        Neighbours(i);
        Neighbours(p);
        Slice(Order(), p, i);
        visited := visited + [element];
        element := element.next;
        i := i + 1;
      }
      if i < |Order()| {
        Neighbours(i);
      }
      RunEnd(key, p, i - p);
    }

    // From the first equal node to the last one below or equal lies exactly the group of the
    // key; so a loop over that range visits what VisitKey does.
    lemma RangeIsGroup(key: Key, p: nat, q: nat)
      requires Valid() && FirstEqual(comp, Order(), key, p) && LastBelow(key, q)
      ensures p <= q && EqualRun(key, p, q + 1 - p)
    {
      hide Valid, Join, InOrder;
      var order := Order();
      Strung();
      Chain(comp, key, order[p].key, key);
      forall i | p <= i <= q ensures comp(order[i].key, key) == 0 {
        Monotone(key, p, i);
        Chain(comp, key, order[i].key, key);
      }
      forall i | q < i < |order| ensures comp(order[i].key, key) > 0 {
        Chain(comp, key, order[i].key, key);
      }
    }

    lemma GapRun(key: Key, p: nat)
      requires Gap(comp, Order(), key, p)
      ensures EqualRun(key, p, 0) && Order()[p..p + 0] == []
    {}

    lemma Slice(s: seq<AvlNode>, p: nat, i: nat)
      requires p <= i < |s|
      ensures s[p..i + 1] == s[p..i] + [s[i]]
    {}

    // The list as a chain of next pointers.
    lemma Strung()
      requires Valid()
      ensures Total(comp) && head !in pool && head !in Order() && count == |Order()| % 0x1_0000_0000
      ensures head.next == Place(Order(), 0) && Chained(pool, Order())
    {
      RingLinks(head, pool, Order(), 0);
      RingMembers(head, pool, Order());
      forall i | 0 <= i < |Order()| ensures Order()[i] in pool && Order()[i].next == Place(Order(), i + 1) {
        Neighbours(i);
      }
    }

    // avl_remove_all_elements: the nodes are handed out in order, and the tree is left
    // empty. The 32-bit counter drives the loop, so of 2^32 nodes or more only as many are
    // handed out as it can count.
    method RemoveAll() returns (visited: seq<AvlNode>)
      requires Valid()
      modifies this, head
      ensures visited == old(Order())[..|old(Order())| % 0x1_0000_0000]
      ensures Valid() && Order() == [] && pool == {}
    {
      hide Valid, Join, InOrder, NoDup, Ring;
      ghost var order, all := Order(), pool;
      Strung();
      var element := head.next;
      var ptr := element.next;
      InitHead(head);
      RingLinks(head, {}, [], 0);
      root := null;
      visited := [];
      ghost var n, k := count as int, 0;
      while count > 0
        modifies `count
        invariant Ring(head, {}, []) && count == n - k && 0 <= k <= n <= |order| && visited == order[..k]
        invariant Chained(all, order)
        invariant k < n ==> element == Place(order, k) && ptr == Place(order, k + 1)
      {
        Follow(all, order, k);
        visited := visited + [element];
        element := ptr;
        ptr := ptr.next;
        count := count - 1;
        k := k + 1;
      }
      pool, shape := {}, Leaf;
      EmptyValid();
    }

    // The i-th node of a list, with the head behind the last one.
    ghost function Place(order: seq<AvlNode>, i: nat): AvlNode
    {
      if i < |order| then order[i] else head
    }

    ghost predicate Chained(all: set<AvlNode>, order: seq<AvlNode>)
      reads all`next
    {
      forall i :: 0 <= i < |order| ==> order[i] in all && order[i].next == Place(order, i + 1)
    }

    lemma Follow(all: set<AvlNode>, order: seq<AvlNode>, k: nat)
      requires Chained(all, order) && k < |order|
      ensures order[..k + 1] == order[..k] + [Place(order, k)]
      ensures k + 1 < |order| ==> Place(order, k + 1).next == Place(order, k + 2)
    {}

    lemma EmptyValid()
      requires Total(comp) && root == null && count == 0 && pool == {} && shape == Leaf && Ring(head, {}, [])
      ensures Valid() && Order() == []
    {}

    // ----- insertion -----

    // _avl_insert_before and _avl_insert_after
    method Enlist(prev: AvlNode, next: AvlNode, nw: AvlNode, ghost gs: seq<Group>, ghost t: seq<Group>, ghost p: nat)
      requires ListOk(gs) && p <= |Join(gs)| && prev == At(head, Join(gs), p) && next == At(head, Join(gs), p + 1)
      requires nw !in pool && nw != head && Join(t) == Join(gs)[..p] + [nw] + Join(gs)[p..]
      requires Sorted(comp, t) && (allowDups || forall g :: g in t ==> g.fs == [])
      requires forall g :: g in t ==>
        (g.head in pool || g.head == nw) && !g.head.follower && forall f :: f in g.fs ==>
          (f in pool || f == nw) && f.follower
      modifies `pool, `count, {nw, next}`prev, {nw, prev}`next
      ensures ListOk(t) && pool == old(pool) + {nw}
    {
      hide Ring, Join, Sorted;
      RingMembers(head, pool, Join(gs));
      ListAdd(prev, next, nw, head, pool, Join(gs), p);
      pool := pool + {nw};
      count := (count + 1) % 0x1_0000_0000;
    }

    // _avl_find_last: the last node of the group headed by node
    method FindLast(node: AvlNode, ghost gs: seq<Group>, ghost k: nat) returns (last: AvlNode)
      requires ListOk(gs) && head !in pool && k < |gs| && gs[k].head == node
      ensures 0 < |Join(gs[..k + 1])| <= |Join(gs)| && last == Join(gs)[|Join(gs[..k + 1])| - 1]
    {
      hide Ring, Marked, Join, Sorted;
      ghost var order, p, q := Join(gs), |Join(gs[..k])|, |Join(gs[..k + 1])|;
      GroupPlaces(gs, k);
      last := node;
      ghost var i := p;
      while head.prev != last
        invariant Ring(head, pool, order) && Marked(gs)
        invariant p <= i < q && last == order[i]
        decreases q - i
      {
        RingLinks(head, pool, order, |order|);
        RingLinks(head, pool, order, i + 1);
        assert last == At(head, order, i + 1);
        var next := last.next;
        assert next == order[i + 1];
        FollowerAt(gs, k, i + 1);
        if !next.follower {
          break;
        }
        last := next;
        i := i + 1;
      }
      RingLinks(head, pool, order, |order|);
      RingMembers(head, pool, order);
    }

    // Behind the head of group k, the follower flag tells where the group ends.
    lemma FollowerAt(gs: seq<Group>, k: nat, i: nat)
      requires Marked(gs) && k < |gs|
      requires |Join(gs[..k])| < i <= |Join(gs[..k + 1])| && i < |Join(gs)|
      ensures Join(gs)[i].follower <==> i < |Join(gs[..k + 1])|
    {
      hide Join;
      GroupPlaces(gs, k);
      var p := |Join(gs[..k])|;
      if i < |Join(gs[..k + 1])| {
        assert Join(gs)[p + 1 + (i - p - 1)] == gs[k].fs[i - p - 1];
        assert gs[k] in gs;
      } else {
        assert gs[k + 1] in gs;
      }
    }

    // A node hung below node on the left, where node has no child yet.
    method HangLeft(node: AvlNode, nw: AvlNode, b: SignedChar, ghost d: Ctx, ghost e: Shape) returns (ghost f: Shape)
      requires Hole(d, e) && Fit(e) && FitC(d, Height(e)) && e.Bin? && e.g.head == node && e.l.Leaf?
      requires b == Height(e.r) - 1
      requires nw in pool && nw !in Heads(e) && nw !in HeadsC(d)
      requires nw.parent == node && nw.left == null && nw.right == null && nw.balance == 0
      modifies node`balance, node`left
      ensures f == Bin(Bin(Leaf, Group(nw, []), Leaf), e.g, e.r) && node.balance == b
      ensures Hole(d, f) && Fit(f) && FitC(d, Height(e))
    {
      node.balance := b;
      node.left := nw;
      ghost var g := Bin(Leaf, Group(nw, []), Leaf);
      f := Bin(g, e.g, e.r);
      assert Heads(g) == {nw} && Heads(f) == Heads(e) + {nw} && Distinct(g);
      assert Heads(e) == {node} + Heads(e.r);
      forall x | x in Heads(f) ensures Agrees(x, Want(f, Par(d), x)) {
        if x != nw {
          assert old(Agrees(x, Want(e, Par(d), x)));
        }
      }
      forall x | x in Heads(f) ensures x.balance == BalOf(f, x) {
        if x in Heads(e.r) {
          assert x.balance == BalOf(e, x);
        }
      }
    }

    method HangRight(node: AvlNode, nw: AvlNode, b: SignedChar, ghost d: Ctx, ghost e: Shape) returns (ghost f: Shape)
      requires Hole(d, e) && Fit(e) && FitC(d, Height(e)) && e.Bin? && e.g.head == node && e.r.Leaf?
      requires b == 1 - Height(e.l)
      requires nw in pool && nw !in Heads(e) && nw !in HeadsC(d)
      requires nw.parent == node && nw.left == null && nw.right == null && nw.balance == 0
      modifies node`balance, node`right
      ensures f == Bin(e.l, e.g, Bin(Leaf, Group(nw, []), Leaf)) && node.balance == b
      ensures Hole(d, f) && Fit(f) && FitC(d, Height(e))
    {
      node.balance := b;
      node.right := nw;
      ghost var g := Bin(Leaf, Group(nw, []), Leaf);
      f := Bin(e.l, e.g, g);
      assert Heads(g) == {nw} && Heads(f) == Heads(e) + {nw} && Distinct(g);
      assert Heads(e) == {node} + Heads(e.l);
      forall x | x in Heads(f) ensures Agrees(x, Want(f, Par(d), x)) {
        if x != nw {
          assert old(Agrees(x, Want(e, Par(d), x)));
        }
      }
      forall x | x in Heads(f) ensures x.balance == BalOf(f, x) {
        if x in Heads(e.l) {
          assert x.balance == BalOf(e, x);
        }
      }
    }

    // Into the list in front of the head of group k, as a group of its own.
    method EnlistBefore(node: AvlNode, nw: AvlNode, ghost gs: seq<Group>, ghost k: nat) returns (ghost t: seq<Group>)
      requires Total(comp) && ListOk(gs) && head !in pool && nw !in pool && nw != head && !nw.follower
      requires k < |gs| && gs[k].head == node
      requires Above(comp, nw.key, gs[..k]) && Under(comp, nw.key, gs[k..])
      modifies `pool, `count, nw`next, nw`prev, pool`next, pool`prev, head`next, head`prev
      ensures t == gs[..k] + [Group(nw, [])] + gs[k..] && ListOk(t) && pool == old(pool) + {nw}
    {
      hide Ring, Join, Sorted, Above, Under;
      ghost var p := |Join(gs[..k])|;
      t := gs[..k] + [Group(nw, [])] + gs[k..];
      SortedInsert(comp, gs, k, Group(nw, []));
      JoinInsert(gs, k, nw);
      HeadPlace(gs, k);
      assert forall g :: g in t ==> g in gs || g == Group(nw, []);
      Enlist(node.prev, node, nw, gs, t, p);
    }

    // Into the list behind the last node of group k - 1, as a group of its own.
    method EnlistAfter(last: AvlNode, nw: AvlNode, ghost gs: seq<Group>, ghost k: nat) returns (ghost t: seq<Group>)
      requires Total(comp) && ListOk(gs) && head !in pool && nw !in pool && nw != head && !nw.follower
      requires k <= |gs| && 0 < |Join(gs[..k])| <= |Join(gs)| && last == Join(gs)[|Join(gs[..k])| - 1]
      requires Above(comp, nw.key, gs[..k]) && Under(comp, nw.key, gs[k..])
      modifies `pool, `count, nw`next, nw`prev, pool`next, pool`prev, head`next, head`prev
      ensures t == gs[..k] + [Group(nw, [])] + gs[k..] && ListOk(t) && pool == old(pool) + {nw}
    {
      hide Ring, Join, Sorted, Above, Under;
      ghost var p := |Join(gs[..k])|;
      t := gs[..k] + [Group(nw, [])] + gs[k..];
      SortedInsert(comp, gs, k, Group(nw, []));
      JoinInsert(gs, k, nw);
      RingLinks(head, pool, Join(gs), p);
      AtPool(gs, p);
      AtPool(gs, p + 1);
      Enlist(last, last.next, nw, gs, t, p);
    }

    // Where the head of group k is found on the ring.
    lemma HeadPlace(gs: seq<Group>, k: nat)
      requires ListOk(gs) && k < |gs|
      ensures var order, p := Join(gs), |Join(gs[..k])|;
        && p < |order| && gs[k].head == At(head, order, p + 1) && gs[k].head.prev == At(head, order, p)
        && At(head, order, p) in pool + {head} && gs[k].head in pool
    {
      GroupPlaces(gs, k);
      RingLinks(head, pool, Join(gs), |Join(gs[..k])|);
      AtPool(gs, |Join(gs[..k])|);
      assert gs[k] in gs;
    }

    lemma AtPool(gs: seq<Group>, i: nat)
      requires ListOk(gs) && i <= |Join(gs)| + 1
      ensures At(head, Join(gs), i) in pool + {head}
    {}

    // Into the list right behind the head of group k, as its first follower.
    method EnlistFollower(node: AvlNode, nw: AvlNode, ghost gs: seq<Group>, ghost k: nat) returns (ghost t: seq<Group>)
      requires Total(comp) && ListOk(gs) && head !in pool && nw !in pool && nw != head && nw.follower
      requires k < |gs| && gs[k].head == node && allowDups && comp(nw.key, node.key) == 0
      modifies `pool, `count, nw`next, nw`prev, pool`next, pool`prev, head`next, head`prev
      ensures t == Followed(gs, k, nw) && ListOk(t) && pool == old(pool) + {nw}
    {
      hide Ring, Join, Sorted, Above, Under;
      ghost var p := |Join(gs[..k])| + 1;
      t := Followed(gs, k, nw);
      SortedFollow(comp, gs, k, nw);
      JoinFollow(gs, k, nw);
      GroupPlaces(gs, k);
      RingLinks(head, pool, Join(gs), p);
      AtPool(gs, p);
      AtPool(gs, p + 1);
      Enlist(node, node.next, nw, gs, t, p);
    }

    lemma HeadBalance(d: Ctx, e: Shape)
      requires Hole(d, e) && Fit(e) && e.Bin?
      ensures e.g.head.balance == Height(e.r) - Height(e.l) && e.g.head in pool
    {
      FitParts(e);
    }

    // A new head below node on the left, in the tree; the code's three cases of
    // node->balance (1, and 0 with rebalancing; -1 cannot occur).
    method AttachLeft(node: AvlNode, nw: AvlNode, ghost d: Ctx, ghost e: Shape) returns (ghost t: Shape)
      requires Hole(d, e) && Fit(e) && FitC(d, Height(e)) && Avl(e) && AvlC(d, Height(e))
      requires e.Bin? && e.g.head == node && e.l.Leaf?
      requires nw in pool && nw !in Heads(e) && nw !in HeadsC(d)
      requires nw.parent == node && nw.left == null && nw.right == null && nw.balance == 0
      modifies `root, pool`left, pool`right, pool`parent, pool`balance
      ensures Hole(Top, t) && Fit(t) && Avl(t)
      ensures Same(d, Bin(Bin(Leaf, Group(nw, []), Leaf), e.g, e.r), t)
    {
      hide Hole, Fit, FitC, AvlC, InOrder;
      HeadBalance(d, e);
      ghost var f;
      if node.balance == 1 {
        f := HangLeft(node, nw, 0, d, e);
        Finish(d, f);
        return Plug(d, f);
      }
      f := HangLeft(node, nw, -1, d, e);
      t := PostInsert(node, d, Height(e), f);
    }

    method AttachRight(node: AvlNode, nw: AvlNode, ghost d: Ctx, ghost e: Shape) returns (ghost t: Shape)
      requires Hole(d, e) && Fit(e) && FitC(d, Height(e)) && Avl(e) && AvlC(d, Height(e))
      requires e.Bin? && e.g.head == node && e.r.Leaf?
      requires nw in pool && nw !in Heads(e) && nw !in HeadsC(d)
      requires nw.parent == node && nw.left == null && nw.right == null && nw.balance == 0
      modifies `root, pool`left, pool`right, pool`parent, pool`balance
      ensures Hole(Top, t) && Fit(t) && Avl(t)
      ensures Same(d, Bin(e.l, e.g, Bin(Leaf, Group(nw, []), Leaf)), t)
    {
      hide Hole, Fit, FitC, AvlC, InOrder;
      HeadBalance(d, e);
      ghost var f;
      if node.balance == -1 {
        f := HangRight(node, nw, 0, d, e);
        Finish(d, f);
        return Plug(d, f);
      }
      f := HangRight(node, nw, 1, d, e);
      t := PostInsert(node, d, Height(e), f);
    }

    lemma OpenAll(d: Ctx, e: Shape)
      requires TreeOk(Plug(d, e))
      ensures Hole(d, e) && Fit(e) && FitC(d, Height(e)) && Avl(e) && AvlC(d, Height(e))
      ensures Heads(Plug(d, e)) == Heads(e) + HeadsC(d)
    {
      Open(d, e);
      FitOpen(d, e);
      AvlPlug(d, e);
      HeadsPlug(d, e);
    }

    method InsertLeft(node: AvlNode, nw: AvlNode, ghost d: Ctx, ghost e: Shape, ghost k: nat)
      requires Valid() && nw !in pool && nw != head
      requires Plug(d, e) == shape && e.Bin? && e.g.head == node && e.l.Leaf?
      requires k < |Groups()| && Groups()[k] == e.g && k == |Pre(d) + InOrder(e.l)|
      requires Above(comp, nw.key, Groups()[..k]) && Under(comp, nw.key, Groups()[k..])
      requires nw.parent == node && nw.left == null && nw.right == null && nw.balance == 0 && !nw.follower
      modifies this, pool, head, nw
      ensures Valid() && Groups() == old(Groups())[..k] + [Group(nw, [])] + old(Groups())[k..]
      ensures pool == old(pool) + {nw}
    {
      hide Ring, Marked, Sorted, Match, MatchC, Join, InOrder, Fit, FitC, Avl, AvlC, Height, Above, Under, ListOk;
      OpenAll(d, e);
      ghost var t := EnlistBefore(node, nw, Groups(), k);
      assert Hole(d, e);
      shape := AttachLeft(node, nw, d, e);
      LeftOrder(d, e, Group(nw, []), shape);
    }

    method InsertRight(node: AvlNode, nw: AvlNode, ghost d: Ctx, ghost e: Shape, ghost k: nat)
      requires Valid() && nw !in pool && nw != head
      requires Plug(d, e) == shape && e.Bin? && e.g.head == node && e.r.Leaf?
      requires k < |Groups()| && Groups()[k] == e.g && k == |Pre(d) + InOrder(e.l)|
      requires Above(comp, nw.key, Groups()[..k + 1]) && Under(comp, nw.key, Groups()[k + 1..])
      requires nw.parent == node && nw.left == null && nw.right == null && nw.balance == 0 && !nw.follower
      modifies this, pool, head, nw
      ensures Valid() && Groups() == old(Groups())[..k + 1] + [Group(nw, [])] + old(Groups())[k + 1..]
      ensures pool == old(pool) + {nw}
    {
      hide Ring, Marked, Sorted, Match, MatchC, Join, InOrder, Fit, FitC, Avl, AvlC, Height, Above, Under, ListOk;
      OpenAll(d, e);
      var last := FindLast(node, Groups(), k);
      ghost var t := EnlistAfter(last, nw, Groups(), k + 1);
      assert Hole(d, e);
      shape := AttachRight(node, nw, d, e);
      RightOrder(d, e, Group(nw, []), shape);
    }

    // Same heads, other followers: the pointers do not notice.
    lemma Regroup(d: Ctx, e: Shape, g: Group)
      requires e.Bin? && g.head == e.g.head
      requires Hole(d, e) && Fit(e) && FitC(d, Height(e)) && Avl(e) && AvlC(d, Height(e))
      ensures TreeOk(Plug(d, Bin(e.l, g, e.r)))
    {
      var f := Bin(e.l, g, e.r);
      assert Heads(f) == Heads(e) && Height(f) == Height(e);
      assert forall x :: x in Heads(e) ==> Want(f, Par(d), x) == Want(e, Par(d), x) && BalOf(f, x) == BalOf(e, x);
      Finish(d, f);
    }

    method InsertFollower(node: AvlNode, nw: AvlNode, ghost d: Ctx, ghost e: Shape, ghost k: nat)
      requires Valid() && nw !in pool && nw != head && nw.follower && allowDups
      requires Plug(d, e) == shape && e.Bin? && e.g.head == node && comp(nw.key, node.key) == 0
      requires k < |Groups()| && Groups()[k] == e.g
      requires Groups()[..k] == Pre(d) + InOrder(e.l) && Groups()[k + 1..] == InOrder(e.r) + Post(d)
      modifies this, pool, head, nw
      ensures Valid() && Groups() == Followed(old(Groups()), k, nw) && pool == old(pool) + {nw}
    {
      hide Ring, Marked, Sorted, Match, MatchC, Join, InOrder, Fit, FitC, Avl, AvlC, Height;
      ghost var gs, g := Groups(), Group(node, [nw] + e.g.fs);
      OpenAll(d, e);
      ghost var t := EnlistFollower(node, nw, gs, k);
      assert Hole(d, e);
      Regroup(d, e, g);
      shape := Plug(d, Bin(e.l, g, e.r));
      SamePlug(d, Bin(e.l, g, e.r));
      PutOrder(d, Bin(e.l, g, e.r), g, shape, gs, k);
    }

    // avl_insert
    method Insert(nw: AvlNode) returns (result: int, ghost p: nat)
      requires Valid() && nw !in pool && nw != head
      modifies this, pool, head, nw
      ensures Valid() && (result == 0 || result == -1)
      ensures result == -1 ==>
        !allowDups && FirstEqual(comp, old(Order()), nw.key, p) && Order() == old(Order()) && pool == old(pool)
      ensures result == 0 ==> p <= |old(Order())| && Order() == old(Order())[..p] + [nw] + old(Order())[p..]
      ensures result == 0 ==> pool == old(pool) + {nw}
      ensures result == 0 ==>
        || Gap(comp, old(Order()), nw.key, p)
        || (allowDups && 0 < p && FirstEqual(comp, old(Order()), nw.key, p - 1))
    {
      hide Valid, Join, InOrder, Above, Under, Gap, FirstEqual, Sorted, Pre, Post;
      Reset(nw);
      if root == null {
        InsertFirst(nw);
        EmptyGap(nw.key);
        return 0, 0;
      }
      var node, diff;
      ghost var d, e, k;
      node, diff, d, e, k := Search(nw.key);
      ghost var gs := Groups();
      diff := comp(nw.key, node.key);
      if diff == 0 {
        FirstEqualAt(comp, nw.key, gs, k);
        if !allowDups {
          return -1, |Join(gs[..k])|;
        }
        nw.follower := true;
        InsertFollower(node, nw, d, e, k);
        JoinFollow(gs, k, nw);
        return 0, |Join(gs[..k])| + 1;
      }
      nw.parent := node;
      if diff < 0 {
        InsertLeft(node, nw, d, e, k);
      } else {
        InsertRight(node, nw, d, e, k);
        k := k + 1;
      }
      GapAt(comp, nw.key, gs, k);
      JoinInsert(gs, k, nw);
      return 0, |Join(gs[..k])|;
    }

    lemma EmptyGap(key: Key)
      ensures Gap(comp, [], key, 0)
    {}

    method Reset(nw: AvlNode)
      requires Valid() && nw !in pool && nw != head
      modifies nw`parent, nw`left, nw`right, nw`balance, nw`follower
      ensures Valid()
      ensures nw.parent == null && nw.left == null && nw.right == null && nw.balance == 0 && !nw.follower
    {
      hide Match, MatchC, Fit, Avl, Ring, Marked, Sorted, Join, InOrder;
      nw.parent := null;
      nw.left := null;
      nw.right := null;
      nw.balance := 0;
      nw.follower := false;
    }

    method InsertFirst(nw: AvlNode)
      requires Valid() && nw !in pool && nw != head && root == null
      requires nw.parent == null && nw.left == null && nw.right == null && nw.balance == 0 && !nw.follower
      modifies this, pool, head, nw
      ensures Valid() && old(Order()) == [] && Order() == [nw] && pool == old(pool) + {nw}
      ensures Order() == old(Order())[..0] + [nw] + old(Order())[0..]
    {
      assert shape == Leaf && Order() == [] && pool == {};
      RingLinks(head, pool, [], 0);
      ListAdd(head, head.next, nw, head, pool, [], 0);
      root := nw;
      count := 1;
      pool := {nw};
      shape := Bin(Leaf, Group(nw, []), Leaf);
      JoinOne(Group(nw, []));
      assert Groups() == [Group(nw, [])] && Order() == [nw];
      assert Heads(shape) == {nw};
      assert [][..0] + [nw] + [][0..] == [nw] && {} + {nw} == {nw};
    }

    // ----- removal -----

    // _avl_remove: out of the list, once the tree and the flags already hold the groups t.
    method Delist(node: AvlNode, ghost gs: seq<Group>, ghost t: seq<Group>, ghost p: nat)
      requires Ring(head, pool, Join(gs)) && count == |Join(gs)| % 0x1_0000_0000
      requires head !in pool && (forall x :: x in pool ==> x in Join(gs))
      requires p < |Join(gs)| && Join(gs)[p] == node && Join(t) == Cut(Join(gs), p)
      requires Marked(t) && Sorted(comp, t) && (allowDups || forall g :: g in t ==> g.fs == [])
      modifies `pool, `count, pool`next, pool`prev, head`next, head`prev
      ensures pool == old(pool) - {node} && ListOk(t) && node.next == null && node.prev == null
    {
      hide Ring, NoDup, Join, Sorted;
      ghost var order := Join(gs);
      RingMembers(head, pool, order);
      RingAt(order, p);
      RingAt(order, p + 2);
      CutMembers(order, p);
      ListRemove(node, head, pool, order, p);
      count := (count - 1) % 0x1_0000_0000;
      pool := pool - {node};
      forall g | g in t ensures g.head != node && node !in g.fs {
        InJoin(t, node);
      }
    }

    lemma RingAt(order: seq<AvlNode>, i: nat)
      requires Ring(head, pool, order) && i <= |order| + 1
      ensures At(head, order, i) in pool + {head} && NoDup(order)
    {}

    // What the code sees behind the head of group k.
    lemma BehindHead(gs: seq<Group>, k: nat)
      requires ListOk(gs) && k < |gs|
      ensures var x := gs[k].head;
        && x.next != null
        && (gs[k].fs == [] ==> head.prev == x || !x.next.follower)
        && (gs[k].fs != [] ==> head.prev != x && x.next == gs[k].fs[0] && x.next.follower && x.next in pool)
    {
      var order, p := Join(gs), |Join(gs[..k])|;
      GroupPlaces(gs, k);
      RingLinks(head, pool, order, p + 1);
      RingLinks(head, pool, order, |order|);
      assert gs[k].head == At(head, order, p + 1);
      if p + 1 < |order| {
        FollowerAt(gs, k, p + 1);
        assert At(head, order, p + 2) == order[p + 1];
        assert head.prev == order[|order| - 1];
      }
      if gs[k].fs != [] {
        assert order[p + 1 + 0] == gs[k].fs[0] && gs[k] in gs;
      }
    }

    // The last step of every removal: the tree already holds s, the list follows.
    method Unlist(node: AvlNode, ghost gs: seq<Group>, ghost s: Shape, ghost p: nat)
      requires Ring(head, pool, Join(gs)) && count == |Join(gs)| % 0x1_0000_0000
      requires head !in pool && (forall x :: x in pool ==> x in Join(gs)) && TreeOk(s)
      requires p < |Join(gs)| && Join(gs)[p] == node && Join(InOrder(s)) == Cut(Join(gs), p)
      requires Marked(InOrder(s)) && Sorted(comp, InOrder(s)) && (allowDups || forall g :: g in InOrder(s) ==>
        g.fs == [])
      modifies `pool, `count, pool`next, pool`prev, head`next, head`prev
      ensures pool == old(pool) - {node} && node.next == null && node.prev == null
      ensures ListOk(InOrder(s)) && TreeOk(s)
    {
      hide Join, InOrder, Cut, Sorted, Marked, Ring, Match, Fit, Avl;
      HeadsListed(s);
      Delist(node, gs, InOrder(s), p);
      Listed(InOrder(s));
    }

    lemma Listed(gs: seq<Group>)
      requires ListOk(gs)
      ensures forall x :: x in Join(gs) ==> x in pool
    {}

    // The groups t are marked as they should be, given that gs are.
    lemma UnfollowMarked(gs: seq<Group>, k: nat, j: nat)
      requires ListOk(gs) && k < |gs| && j < |gs[k].fs|
      ensures var t := Unfollowed(gs, k, j); Marked(t) && (allowDups || forall g :: g in t ==> g.fs == [])
    {
      var t := Unfollowed(gs, k, j);
      assert gs[k] in gs;
      assert forall g :: g in t ==> g == t[k] || g in gs;
      assert forall f :: f in t[k].fs ==> f in gs[k].fs;
    }

    // A follower leaves its group; the tree does not notice.
    method RemoveFollower(node: AvlNode, ghost k: nat, ghost j: nat)
      requires Valid() && k < |Groups()| && j < |Groups()[k].fs| && Groups()[k].fs[j] == node
      modifies this, pool, head
      ensures Valid() && Groups() == Unfollowed(old(Groups()), k, j)
      ensures pool == old(pool) - {node} && node.next == null && node.prev == null
    {
      hide Ring, Sorted, Marked, TreeOk, Join, InOrder, Fit, FitC, Avl, AvlC, Height, Cut, Hole;
      ghost var gs := Groups();
      UnfollowOrder(gs, k, j);
      UnfollowSorted(comp, gs, k, j);
      UnfollowMarked(gs, k, j);
      shape := Regrouped(shape, k, Unfollowed(gs, k, j)[k]);
      Unlist(node, gs, shape, |Join(gs[..k])| + 1 + j);
    }

    // Group k of the tree gets other followers.
    lemma Regrouped(s: Shape, k: nat, g: Group) returns (t: Shape)
      requires TreeOk(s) && k < |InOrder(s)| && g.head == InOrder(s)[k].head
      ensures TreeOk(t) && InOrder(t) == InOrder(s)[k := g]
    {
      hide Match, MatchC, Fit, FitC, Avl, AvlC, Height, InOrder;
      var d, e := Locate(Top, s, k);
      OpenAll(d, e);
      Regroup(d, e, g);
      t := Plug(d, Bin(e.l, g, e.r));
      SamePlug(d, Bin(e.l, g, e.r));
      PutOrder(d, Bin(e.l, g, e.r), g, t, InOrder(s), k);
    }

    lemma HeadsListed(s: Shape)
      ensures forall x :: x in Heads(s) ==> x in Join(InOrder(s))
    {
      forall x | x in Heads(s) ensures x in Join(InOrder(s)) {
        HeadsInOrder(s);
        var g :| g in InOrder(s) && g.head == x;
        InJoin(InOrder(s), x);
      }
    }

    // The first follower of group k is no head and in no other place of the list.
    lemma Bystanders(gs: seq<Group>, k: nat)
      requires Total(comp) && ListOk(gs) && k < |gs| && gs[k].fs != []
      ensures var x := gs[k].fs[0];
        && x in pool && x !in gs[k].fs[1..] && (forall g :: g in gs ==> g.head != x)
        && (forall g :: g in gs && g != gs[k] ==> x !in g.fs)
        && (forall i :: 0 <= i < |gs| && i != k ==> gs[i] != gs[k])
      ensures InOrder(shape) == gs ==> gs[k].fs[0] !in Heads(shape)
    {
      hide Ring, Join, InOrder, Total;
      RingMembers(head, pool, Join(gs));
      var x, fs, order, p := gs[k].fs[0], gs[k].fs, Join(gs), |Join(gs[..k])|;
      assert gs[k] in gs && x in fs;
      GroupPlaces(gs, k);
      forall i | 1 <= i < |fs| ensures fs[i] != x {
        assert order[p + 1 + i] == fs[i] && order[p + 1 + 0] == fs[0];
      }
      forall i | 0 <= i < |gs| && i != k ensures x !in gs[i].fs && gs[i] != gs[k] {
        if x in gs[i].fs {
          assert gs[i] in gs;
          Chain(comp, gs[i].head.key, x.key, gs[k].head.key);
          Chain(comp, gs[k].head.key, x.key, gs[i].head.key);
        }
      }
      HeadsInOrder(shape);
    }

    lemma PromoteMarked(gs: seq<Group>, k: nat)
      requires k < |gs| && gs[k].fs != [] && gs[k].fs[0] in pool && !gs[k].fs[0].follower
      requires gs[k].fs[0] !in gs[k].fs[1..]
      requires forall i :: 0 <= i < |gs| && i != k ==>
        gs[i].head in pool && !gs[i].head.follower && forall f :: f in gs[i].fs ==> f in pool && f.follower
      requires forall f :: f in gs[k].fs[1..] ==> f in pool && f.follower
      ensures Marked(Promoted(gs, k))
    {}

    // A head with followers leaves: the first of them takes its place in the tree.
    method RemovePromoting(node: AvlNode, next: AvlNode, ghost k: nat)
      requires Valid() && k < |Groups()| && Groups()[k].head == node
      requires Groups()[k].fs != [] && Groups()[k].fs[0] == next
      modifies this, pool, head
      ensures Valid() && Groups() == Promoted(old(Groups()), k)
      ensures pool == old(pool) - {node} && node.next == null && node.prev == null
    {
      hide Ring, Sorted, TreeOk, Join, InOrder, Fit, FitC, Avl, AvlC, Height, Cut, Hole;
      ghost var gs := Groups();
      PromoteOrder(gs, k);
      PromoteSorted(comp, gs, k);
      Bystanders(gs, k);
      next.follower := false;
      PromoteMarked(gs, k);
      shape := ReplaceHead(node, next, shape, k, Promoted(gs, k)[k]);
      Unlist(node, gs, shape, |Join(gs[..k])|);
    }

    lemma DropMarked(gs: seq<Group>, k: nat)
      requires ListOk(gs) && k < |gs|
      ensures var t := gs[..k] + gs[k + 1..]; Marked(t) && (allowDups || forall g :: g in t ==> g.fs == [])
    {
      assert forall g :: g in gs[..k] + gs[k + 1..] ==> g in gs;
    }

    // A head on its own leaves the tree, and then the list.
    method RemoveSingle(node: AvlNode, ghost k: nat)
      requires Valid() && k < |Groups()| && Groups()[k].head == node && Groups()[k].fs == []
      modifies this, pool, head
      ensures Valid() && Groups() == old(Groups())[..k] + old(Groups())[k + 1..]
      ensures pool == old(pool) - {node} && node.next == null && node.prev == null
    {
      hide Ring, Sorted, Marked, TreeOk, Join, InOrder, Fit, FitC, Avl, AvlC, Height, Cut, Hole;
      ghost var gs := Groups();
      DropGroup(comp, gs, k);
      DropMarked(gs, k);
      shape := TakeOut(node, shape, k);
      Unlist(node, gs, shape, |Join(gs[..k])|);
    }

    // The k-th head leaves the tree.
    method TakeOut(node: AvlNode, ghost s: Shape, ghost k: nat) returns (ghost t: Shape)
      requires TreeOk(s) && k < |InOrder(s)| && InOrder(s)[k].head == node
      modifies `root, pool`left, pool`right, pool`parent, pool`balance
      ensures TreeOk(t) && InOrder(t) == InOrder(s)[..k] + InOrder(s)[k + 1..]
    {
      hide Match, MatchC, Fit, FitC, Avl, AvlC, Height, InOrder;
      ghost var d, e := Locate(Top, s, k);
      OpenAll(d, e);
      t := RemoveWorker(node, d, e);
      Shift(Pre(d), InOrder(e.l), InOrder(e.r), Post(d));
      assert Pre(Top) + InOrder(s)[..k] == InOrder(s)[..k] && InOrder(s)[k + 1..] + Post(Top) == InOrder(s)[k + 1..];
    }

    // Where a node of the tree stands, and what the code can tell from its flag.
    lemma GroupOf(node: AvlNode) returns (k: nat, j: int)
      requires Valid() && node in pool
      ensures k < |Groups()| && -1 <= j < |Groups()[k].fs|
      ensures node == if j == -1 then Groups()[k].head else Groups()[k].fs[j]
      ensures node.follower <==> j != -1
    {
      k, j := Owner(Groups(), node);
      assert Groups()[k] in Groups();
    }

    // avl_remove
    method Remove(node: AvlNode) returns (ghost p: nat)
      requires Valid() && node in pool
      modifies this, pool, head
      ensures Valid() && pool == old(pool) - {node} && node.next == null && node.prev == null
      ensures p < |old(Order())| && old(Order())[p] == node && Order() == Cut(old(Order()), p)
    {
      hide Valid, Join, InOrder, Cut, Promoted, Unfollowed;
      ghost var gs := Groups();
      ghost var k, j := GroupOf(node);
      if !node.follower {
        Behind(k);
        if allowDups && head.prev != node && node.next.follower {
          PromoteOrder(gs, k);
          RemovePromoting(node, node.next, k);
        } else {
          DropGroup(comp, gs, k);
          RemoveSingle(node, k);
        }
        p := |Join(gs[..k])|;
      } else {
        UnfollowOrder(gs, k, j);
        RemoveFollower(node, k, j);
        p := |Join(gs[..k])| + 1 + j;
      }
    }

    // The decision of avl_remove: is there a follower to take over from the head of group k?
    lemma Behind(k: nat)
      requires Valid() && k < |Groups()|
      ensures var x, fs := Groups()[k].head, Groups()[k].fs;
        && x.next != null && (fs != [] <==> allowDups && head.prev != x && x.next.follower)
        && (fs != [] ==> x.next == fs[0])
    {
      BehindHead(Groups(), k);
      assert Groups()[k] in Groups();
    }

    // ----- loops that may remove their current node -----

    // The links of the i-th place of the list, the head behind the last node.
    lemma Links(i: nat)
      requires Valid() && i <= |Order()|
      ensures Place(Order(), i).prev == if i == 0 then head else Order()[i - 1]
      ensures Place(Order(), i).next == if i < |Order()| then Place(Order(), i + 1) else Place(Order(), 0)
    {
      hide Ring, Join, InOrder;
      RingLinks(head, pool, Order(), i);
      RingLinks(head, pool, Order(), 0);
      if i < |Order()| {
        RingLinks(head, pool, Order(), i + 1);
      }
    }

    lemma Members()
      requires Valid()
      ensures NoDup(Order()) && head !in Order() && head !in pool && forall x :: x in Order() <==> x in pool
    {
      hide Join, InOrder;
      RingMembers(head, pool, Order());
    }

    // The walk along the list comes to a place behind last if and only if last is in the tree.
    lemma StopIff(last: AvlNode)
      requires Valid() && last != head
      ensures (exists i :: 0 <= i <= |Order()| && Place(Order(), i).prev == last) <==> last in pool
    {
      hide Valid, Join, InOrder;
      Members();
      var order := Order();
      if last in pool {
        var i :| 0 <= i < |order| && order[i] == last;
        Links(i + 1);
        assert Place(order, i + 1).prev == last;
      }
      forall i | 0 <= i <= |order| ensures Place(order, i).prev == if i == 0 then head else order[i - 1] {
        Links(i);
      }
    }

    // The body of such a loop.
    method Visit(element: AvlNode, drop: AvlNode -> bool, ghost kept: seq<AvlNode>, ghost rest: seq<AvlNode>)
        returns (ghost left: seq<AvlNode>)
      requires Valid() && rest != [] && rest[0] == element && Order() == kept + rest
      modifies this, pool, head
      ensures Valid() && pool <= old(pool) && left == (if drop(element) then kept else kept + [element])
      ensures Order() == left + rest[1..]
    {
      hide Valid, Join, InOrder;
      Members();
      ghost var order, i := Order(), |kept|;
      assert order[i] == element && element in order;
      left := if drop(element) then kept else kept + [element];
      assert kept + rest == kept + [element] + rest[1..];
      if drop(element) {
        ghost var p := Remove(element);
        assert p == i;
        assert Cut(order, i) == kept + rest[1..];
      }
    }

    // avl_for_element_range_safe, with a body that removes the nodes drop says. The last node of
    // the range has to stay: the loop knows its end by it.
    method EachInRange(first: AvlNode, last: AvlNode, ghost p: nat, ghost q: nat, drop: AvlNode -> bool)
        returns (visited: seq<AvlNode>)
      requires Valid() && p <= q < |Order()| && Order()[p] == first && Order()[q] == last && !drop(last)
      modifies this, pool, head
      ensures Valid() && visited == old(Order())[p..q + 1]
      ensures Order() == old(Order())[..p] + Stays(old(Order())[p..q + 1], drop) + old(Order())[q + 1..]
    {
      hide Valid, Order, Stays, NoDup, Walked, Place;
      ghost var all, k, kept := Order(), p, Order()[..p];
      Members();
      WalkStart(all, p, drop);
      Stands(all, kept, [], p, q, k, drop);
      var element: AvlNode, ptr: AvlNode? := first, first.next;
      visited := [];
      while element.prev != last
        modifies this, pool, head
        invariant Valid() && pool <= old(pool) && k <= q + 1
        invariant Order() == kept + all[k..] && Walked(all, kept, visited, p, k, drop)
        invariant element == Place(all, k) && ptr == element.next
        invariant element.prev == last ==> k == q + 1
        decreases q + 1 - k
      {
        Stands(all, kept, visited, p, q, k, drop);
        WalkOn(all, kept, visited, p, k, drop);
        kept := Visit(element, drop, kept, all[k..]);
        visited := visited + [element];
        Stands(all, kept, visited, p, q, k + 1, drop);
        element := ptr;
        ptr := ptr.next;
        k := k + 1;
      }
      WalkEnd(all, kept, visited, p, k, drop);
    }

    // What has been visited from place p on, and what is left of it.
    ghost predicate Walked(all: seq<AvlNode>, kept: seq<AvlNode>, visited: seq<AvlNode>, p: nat, k: nat,
        drop: AvlNode -> bool)
    {
      p <= k <= |all| && kept == all[..p] + Stays(all[p..k], drop) && visited == all[p..k]
    }

    lemma WalkStart(all: seq<AvlNode>, p: nat, drop: AvlNode -> bool)
      requires p <= |all|
      ensures Walked(all, all[..p], [], p, p, drop) && all[..p] + all[p..] == all
    {}

    lemma WalkOn(all: seq<AvlNode>, kept: seq<AvlNode>, visited: seq<AvlNode>, p: nat, k: nat, drop: AvlNode -> bool)
      requires Walked(all, kept, visited, p, k, drop) && k < |all|
      ensures Walked(all, if drop(all[k]) then kept else kept + [all[k]], visited + [all[k]], p, k + 1, drop)
      ensures all[k..] != [] && all[k..][0] == all[k] && all[k..][1..] == all[k + 1..]
    {
      Onward(all, p, k, drop);
    }

    lemma WalkEnd(all: seq<AvlNode>, kept: seq<AvlNode>, visited: seq<AvlNode>, p: nat, k: nat, drop: AvlNode -> bool)
      requires Walked(all, kept, visited, p, k, drop)
      ensures kept == all[..p] + Stays(all[p..k], drop) && visited == all[p..k]
    {}

    // Where the walk stands after k nodes.
    lemma Stands(all: seq<AvlNode>, kept: seq<AvlNode>, visited: seq<AvlNode>, p: nat, q: nat, k: nat, drop: AvlNode -> bool)
      requires Valid() && p <= q && p <= k <= q + 1 && q < |all| && !drop(all[q]) && NoDup(all) && head !in all
      requires Order() == kept + all[k..] && Walked(all, kept, visited, p, k, drop)
      ensures k < |all| ==> Place(all, k) == all[k]
      ensures var x := Place(all, k);
        && (x.prev == all[q] <==> k == q + 1)
        && x.next == if k < |all| then Place(all, k + 1) else Place(Order(), 0)
    {
      hide Valid, Join, InOrder, Ring;
      Links(|kept|);
      StaysIn(all[p..k], drop);
      assert k < |all| ==> all[k..][0] == all[k] && Order()[|kept|] == all[k];
      assert k + 1 < |all| ==> all[k..][1] == all[k + 1] && Order()[|kept| + 1] == all[k + 1];
      if k == q + 1 {
        Onward(all, p, q, drop);
        assert kept[|kept| - 1] == all[q];
      } else if kept != [] {
        var y := kept[|kept| - 1];
        assert y in all[..p] || y in all[p..k];
      }
    }

    lemma Onward(all: seq<AvlNode>, p: nat, k: nat, drop: AvlNode -> bool)
      requires p <= k < |all|
      ensures Stays(all[p..k + 1], drop) == Stays(all[p..k], drop) + if drop(all[k]) then [] else [all[k]]
      ensures all[k..] != [] && all[k..][0] == all[k] && all[k..][1..] == all[k + 1..]
      ensures all[p..k + 1] == all[p..k] + [all[k]]
    {
      assert all[p..k + 1][..k - p] == all[p..k];
    }

    // avl_for_each_element_safe with such a body. The loop asks for the last node of the tree
    // each time, so that one may go as well.
    method EachNode(drop: AvlNode -> bool) returns (visited: seq<AvlNode>)
      requires Valid()
      modifies this, pool, head
      ensures Valid() && visited == old(Order()) && Order() == Stays(old(Order()), drop)
    {
      hide Valid, Join, InOrder, Stays, Ring, NoDup;
      ghost var all, k, kept := Order(), 0, [];
      Members();
      StaysNone(all, 0, drop);
      Ends(all, kept, 0, drop);
      Links(|all|);
      var element: AvlNode, ptr: AvlNode? := head.next, head.next.next;
      visited := [];
      while element.prev != head.prev
        modifies this, pool, head
        invariant Valid() && pool <= old(pool) && k <= |all|
        invariant Order() == kept + all[k..] && kept == Stays(all[..k], drop)
        invariant visited == all[..k] && element == Place(all, k) && ptr == element.next
        invariant element.prev == head.prev <==> k == |all|
        invariant k < |all| ==> ptr == Place(all, k + 1)
        decreases |all| - k
      {
        Onward(all, 0, k, drop);
        kept := Visit(element, drop, kept, all[k..]);
        visited := visited + [element];
        Ends(all, kept, k + 1, drop);
        element := ptr;
        ptr := ptr.next;
        k := k + 1;
      }
      assert all[..k] == all && kept + all[k..] == kept;
    }

    lemma Ends(all: seq<AvlNode>, kept: seq<AvlNode>, k: nat, drop: AvlNode -> bool)
      requires Valid() && k <= |all| && NoDup(all) && head !in all
      requires Order() == kept + all[k..] && kept == Stays(all[..k], drop)
      ensures var x := Place(all, k);
        && x.next != null && (x.prev == head.prev <==> k == |all|)
        && x.next == if k < |all| then Place(all, k + 1) else Place(Order(), 0)
    {
      hide Valid, Join, InOrder, Ring;
      Members();
      Links(|kept|);
      Links(|Order()|);
      assert k < |all| ==> all[k..][0] == all[k] && Order()[|kept|] == all[k];
      assert k + 1 < |all| ==> all[k..][1] == all[k + 1] && Order()[|kept| + 1] == all[k + 1];
    }
  }
}
