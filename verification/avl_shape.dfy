// The value of an AVL tree: a binary tree of groups, where a group is a head node
// together with the followers (equal keys) that the code keeps outside the tree.
// A context is a tree with one hole, read from the hole up to the root.
module AvlShapes {
  import opened AvlNodes
  import Words

  datatype Group = Group(head: AvlNode, fs: seq<AvlNode>)
  datatype Shape = Leaf | Bin(l: Shape, g: Group, r: Shape)
  datatype Ctx =
    | Top
    | InL(up: Ctx, g: Group, r: Shape)
    | InR(up: Ctx, l: Shape, g: Group)

  ghost function Min(a: int, b: int): int { if a < b then a else b }

  ghost function Max(a: int, b: int): int { if a < b then b else a }

  ghost function Height(s: Shape): nat
  {
    if s.Leaf? then 0 else 1 + Max(Height(s.l), Height(s.r))
  }

  ghost function Root(s: Shape): AvlNode? { if s.Leaf? then null else s.g.head }

  ghost function Par(c: Ctx): AvlNode? { if c.Top? then null else c.g.head }

  // The tree with the hole filled, one level up and all the way.
  ghost function Up(c: Ctx, s: Shape): Shape
    requires !c.Top?
  {
    if c.InL? then Bin(s, c.g, c.r) else Bin(c.l, c.g, s)
  }

  ghost function Plug(c: Ctx, s: Shape): Shape
  {
    if c.Top? then s else Plug(c.up, Up(c, s))
  }

  ghost function Sibling(c: Ctx): Shape
    requires !c.Top?
  {
    if c.InL? then c.r else c.l
  }

  // Height of Up(c, s) when s has height h.
  ghost function UpHeight(c: Ctx, h: nat): nat
    requires !c.Top?
  {
    1 + Max(h, Height(Sibling(c)))
  }

  ghost function InOrder(s: Shape): seq<Group>
  {
    if s.Leaf? then [] else InOrder(s.l) + [s.g] + InOrder(s.r)
  }

  ghost function Pre(c: Ctx): seq<Group>
  {
    match c
    case Top => []
    case InL(up, _, _) => Pre(up)
    case InR(up, l, g) => Pre(up) + (InOrder(l) + [g])
  }

  ghost function Post(c: Ctx): seq<Group>
  {
    match c
    case Top => []
    case InL(up, g, r) => ([g] + InOrder(r)) + Post(up)
    case InR(up, _, _) => Post(up)
  }

  // All nodes of a sequence of groups, heads and followers, in list order.
  ghost function Join(gs: seq<Group>): seq<AvlNode>
  {
    if gs == [] then [] else ([gs[0].head] + gs[0].fs) + Join(gs[1..])
  }

  ghost function Heads(s: Shape): set<AvlNode>
  {
    if s.Leaf? then {} else Heads(s.l) + {s.g.head} + Heads(s.r)
  }

  ghost function HeadsC(c: Ctx): set<AvlNode>
  {
    if c.Top? then {} else HeadsC(c.up) + {c.g.head} + Heads(Sibling(c))
  }

  ghost predicate Distinct(s: Shape)
  {
    s.Bin? ==>
      && s.g.head !in Heads(s.l) && s.g.head !in Heads(s.r) && Heads(s.l) !! Heads(s.r)
      && Distinct(s.l) && Distinct(s.r)
  }

  ghost predicate DistinctC(c: Ctx)
  {
    !c.Top? ==>
      && c.g.head !in HeadsC(c.up) && c.g.head !in Heads(Sibling(c)) && HeadsC(c.up) !! Heads(Sibling(c))
      && Distinct(Sibling(c)) && DistinctC(c.up)
  }

  ghost predicate Sep(c: Ctx, s: Shape)
  {
    Distinct(s) && DistinctC(c) && HeadsC(c) !! Heads(s)
  }

  // ----- the pointer fields a shape asks for -----

  datatype Links = Links(left: AvlNode?, right: AvlNode?, parent: AvlNode?)

  ghost function Want(s: Shape, par: AvlNode?, x: AvlNode): Links
    requires x in Heads(s)
  {
    if x == s.g.head then Links(Root(s.l), Root(s.r), par)
    else if x in Heads(s.l) then Want(s.l, s.g.head, x)
    else Want(s.r, s.g.head, x)
  }

  ghost function WantC(c: Ctx, child: AvlNode?, x: AvlNode): Links
    requires x in HeadsC(c)
  {
    if x == c.g.head then
      if c.InL? then Links(child, Root(c.r), Par(c.up)) else Links(Root(c.l), child, Par(c.up))
    else if x in Heads(Sibling(c)) then Want(Sibling(c), c.g.head, x)
    else WantC(c.up, c.g.head, x)
  }

  ghost function TopOf(c: Ctx, child: AvlNode?): AvlNode?
  {
    if c.Top? then child else TopOf(c.up, c.g.head)
  }

  ghost predicate Agrees(x: AvlNode, w: Links)
    reads x`left, x`right, x`parent
  {
    x.left == w.left && x.right == w.right && x.parent == w.parent
  }

  ghost predicate Match(s: Shape, par: AvlNode?)
    reads Heads(s)`left, Heads(s)`right, Heads(s)`parent
  {
    forall x :: x in Heads(s) ==> Agrees(x, Want(s, par, x))
  }

  ghost predicate MatchC(c: Ctx, child: AvlNode?)
    reads HeadsC(c)`left, HeadsC(c)`right, HeadsC(c)`parent
  {
    forall x :: x in HeadsC(c) ==> Agrees(x, WantC(c, child, x))
  }

  // ----- the balance fields a shape asks for, and the AVL condition -----

  ghost function BalOf(s: Shape, x: AvlNode): int
    requires x in Heads(s)
  {
    if x == s.g.head then Height(s.r) - Height(s.l)
    else if x in Heads(s.l) then BalOf(s.l, x)
    else BalOf(s.r, x)
  }

  // Balances above a hole that is to be filled by a tree of height h.
  ghost function BalC(c: Ctx, h: nat, x: AvlNode): int
    requires x in HeadsC(c)
  {
    if x == c.g.head then
      if c.InL? then Height(c.r) - h else h - Height(c.l)
    else if x in Heads(Sibling(c)) then BalOf(Sibling(c), x)
    else BalC(c.up, UpHeight(c, h), x)
  }

  ghost predicate Fit(s: Shape)
    reads Heads(s)`balance
  {
    forall x :: x in Heads(s) ==> x.balance == BalOf(s, x)
  }

  ghost predicate FitC(c: Ctx, h: nat)
    reads HeadsC(c)`balance
  {
    forall x :: x in HeadsC(c) ==> x.balance == BalC(c, h, x)
  }

  ghost predicate Avl(s: Shape)
  {
    s.Bin? ==> -1 <= Height(s.r) - Height(s.l) <= 1 && Avl(s.l) && Avl(s.r)
  }

  ghost predicate AvlC(c: Ctx, h: nat)
  {
    !c.Top? ==> -1 <= Height(Sibling(c)) - h <= 1 && Avl(Sibling(c)) && AvlC(c.up, UpHeight(c, h))
  }

  // ----- rotations on shapes -----

  ghost function RotR(s: Shape): Shape
    requires s.Bin? && s.l.Bin?
  {
    Bin(s.l.l, s.l.g, Bin(s.l.r, s.g, s.r))
  }

  ghost function RotL(s: Shape): Shape
    requires s.Bin? && s.r.Bin?
  {
    Bin(Bin(s.l, s.g, s.r.l), s.r.g, s.r.r)
  }

  lemma RotRWant(c: Ctx, s: Shape, par: AvlNode?)
    requires s.Bin? && s.l.Bin? && Sep(c, s)
    ensures Sep(c, RotR(s)) && Heads(RotR(s)) == Heads(s)
    ensures s.g.head in Heads(s) && s.l.g.head in Heads(s) && s.g.head != s.l.g.head
    ensures s.l.r.Bin? ==>
      s.l.r.g.head in Heads(s) && s.l.r.g.head != s.g.head && s.l.r.g.head != s.l.g.head
    ensures Want(s, par, s.g.head) == Links(s.l.g.head, Root(s.r), par)
    ensures Want(s, par, s.l.g.head) == Links(Root(s.l.l), Root(s.l.r), s.g.head)
    ensures forall x :: x in Heads(s) ==>
      Want(RotR(s), par, x) ==
        if x == s.l.g.head then Links(Root(s.l.l), s.g.head, par)
        else if x == s.g.head then Links(Root(s.l.r), Root(s.r), s.l.g.head)
        else if x == Root(s.l.r) then Want(s, par, x).(parent := s.g.head)
        else Want(s, par, x)
  {
    var a, b, r := s.l.l, s.l.r, s.r;
    var low := Bin(b, s.g, r);
    assert Distinct(s.l) && Distinct(b);
    assert Heads(s) == Heads(a) + {s.l.g.head} + Heads(b) + {s.g.head} + Heads(r);
    assert Heads(low) == Heads(b) + {s.g.head} + Heads(r);
    assert Distinct(low);
    forall x | x in Heads(s)
      ensures Want(RotR(s), par, x) ==
        if x == s.l.g.head then Links(Root(s.l.l), s.g.head, par)
        else if x == s.g.head then Links(Root(s.l.r), Root(s.r), s.l.g.head)
        else if x == Root(s.l.r) then Want(s, par, x).(parent := s.g.head)
        else Want(s, par, x)
    {
      if x in Heads(a) {
        assert Want(s, par, x) == Want(s.l, s.g.head, x) == Want(a, s.l.g.head, x);
      } else if x in Heads(low) {
        assert Want(RotR(s), par, x) == Want(low, s.l.g.head, x);
        if x in Heads(b) {
          assert Want(low, s.l.g.head, x) == Want(b, s.g.head, x);
          assert Want(s, par, x) == Want(s.l, s.g.head, x) == Want(b, s.l.g.head, x);
        }
      }
    }
  }

  lemma RotLWant(c: Ctx, s: Shape, par: AvlNode?)
    requires s.Bin? && s.r.Bin? && Sep(c, s)
    ensures Sep(c, RotL(s)) && Heads(RotL(s)) == Heads(s)
    ensures s.g.head in Heads(s) && s.r.g.head in Heads(s) && s.g.head != s.r.g.head
    ensures s.r.l.Bin? ==>
      s.r.l.g.head in Heads(s) && s.r.l.g.head != s.g.head && s.r.l.g.head != s.r.g.head
    ensures Want(s, par, s.g.head) == Links(Root(s.l), s.r.g.head, par)
    ensures Want(s, par, s.r.g.head) == Links(Root(s.r.l), Root(s.r.r), s.g.head)
    ensures forall x :: x in Heads(s) ==>
      Want(RotL(s), par, x) ==
        if x == s.r.g.head then Links(s.g.head, Root(s.r.r), par)
        else if x == s.g.head then Links(Root(s.l), Root(s.r.l), s.r.g.head)
        else if x == Root(s.r.l) then Want(s, par, x).(parent := s.g.head)
        else Want(s, par, x)
  {
    var a, b, r := s.l, s.r.l, s.r.r;
    var low := Bin(a, s.g, b);
    assert Distinct(s.r) && Distinct(b);
    assert Heads(s) == Heads(a) + {s.g.head} + Heads(b) + {s.r.g.head} + Heads(r);
    assert Heads(low) == Heads(a) + {s.g.head} + Heads(b);
    assert Distinct(low);
    forall x | x in Heads(s)
      ensures Want(RotL(s), par, x) ==
        if x == s.r.g.head then Links(s.g.head, Root(s.r.r), par)
        else if x == s.g.head then Links(Root(s.l), Root(s.r.l), s.r.g.head)
        else if x == Root(s.r.l) then Want(s, par, x).(parent := s.g.head)
        else Want(s, par, x)
    {
      if x in Heads(r) {
        assert Want(s, par, x) == Want(s.r, s.g.head, x) == Want(r, s.r.g.head, x);
      } else if x in Heads(low) {
        assert Want(RotL(s), par, x) == Want(low, s.r.g.head, x);
        if x in Heads(b) {
          assert Want(low, s.r.g.head, x) == Want(b, s.g.head, x);
          assert Want(s, par, x) == Want(s.r, s.g.head, x) == Want(b, s.r.g.head, x);
        }
      }
    }
  }

  lemma ChildWant(c: Ctx, child: AvlNode?, repl: AvlNode?, x: AvlNode)
    requires x in HeadsC(c) && DistinctC(c)
    ensures WantC(c, repl, x) ==
      if x != Par(c) then WantC(c, child, x)
      else if c.InL? then WantC(c, child, x).(left := repl)
      else WantC(c, child, x).(right := repl)
  {}

  // Exact balances of a rotated tree, given exact balances before.
  lemma RotRBal(s: Shape, x: AvlNode)
    requires s.Bin? && s.l.Bin? && Distinct(s) && x in Heads(s)
    ensures x in Heads(RotR(s))
    ensures BalOf(RotR(s), x) ==
      if x == s.g.head then Height(s.r) - Height(s.l.r)
      else if x == s.l.g.head then 1 + Max(Height(s.l.r), Height(s.r)) - Height(s.l.l)
      else BalOf(s, x)
    ensures BalOf(s, s.g.head) == Height(s.r) - Height(s.l)
    ensures s.l.g.head in Heads(s) && BalOf(s, s.l.g.head) == Height(s.l.r) - Height(s.l.l)
  {
    var low := Bin(s.l.r, s.g, s.r);
    assert Distinct(s.l);
    assert Heads(low) == Heads(s.l.r) + {s.g.head} + Heads(s.r);
    assert Heads(s.l) == Heads(s.l.l) + {s.l.g.head} + Heads(s.l.r);
    if x in Heads(s.l.r) {
      assert BalOf(low, x) == BalOf(s.l.r, x) == BalOf(s.l, x);
    }
  }

  lemma RotLBal(s: Shape, x: AvlNode)
    requires s.Bin? && s.r.Bin? && Distinct(s) && x in Heads(s)
    ensures x in Heads(RotL(s))
    ensures BalOf(RotL(s), x) ==
      if x == s.g.head then Height(s.r.l) - Height(s.l)
      else if x == s.r.g.head then Height(s.r.r) - 1 - Max(Height(s.l), Height(s.r.l))
      else BalOf(s, x)
    ensures BalOf(s, s.g.head) == Height(s.r) - Height(s.l)
    ensures s.r.g.head in Heads(s) && BalOf(s, s.r.g.head) == Height(s.r.r) - Height(s.r.l)
  {
    var low := Bin(s.l, s.g, s.r.l);
    assert Distinct(s.r);
    assert Heads(low) == Heads(s.l) + {s.g.head} + Heads(s.r.l);
    assert Heads(s.r) == Heads(s.r.l) + {s.r.g.head} + Heads(s.r.r);
    if x in Heads(s.r.l) {
      assert BalOf(low, x) == BalOf(s.r.l, x) == BalOf(s.r, x);
    }
  }

  // ----- the groups of a tree do not change when it is rotated or refocused -----

  // t holds the groups of s and of everything around it, in the same order.
  ghost predicate Same(c: Ctx, s: Shape, t: Shape)
  {
    InOrder(t) == Pre(c) + InOrder(s) + Post(c)
  }

  lemma SameUp(c: Ctx, s: Shape, t: Shape)
    requires !c.Top?
    ensures Same(c.up, Up(c, s), t) <==> Same(c, s, t)
  {
    if c.InL? {
      assert Pre(c.up) + (InOrder(s) + [c.g] + InOrder(c.r)) + Post(c.up)
          == Pre(c.up) + InOrder(s) + (([c.g] + InOrder(c.r)) + Post(c.up));
    } else {
      assert Pre(c.up) + (InOrder(c.l) + [c.g] + InOrder(s)) + Post(c.up)
          == (Pre(c.up) + (InOrder(c.l) + [c.g])) + InOrder(s) + Post(c.up);
    }
  }

  lemma SameStep(c: Ctx, s: Shape, u: Shape, t: Shape)
    requires !c.Top? && InOrder(u) == InOrder(Up(c, s)) && Same(c.up, u, t)
    ensures Same(c, s, t)
  {
    SameUp(c, s, t);
  }

  lemma {:induction false} SamePlug(c: Ctx, s: Shape)
    ensures Same(c, s, Plug(c, s))
    decreases c
  {
    if c.Top? {
      assert [] + InOrder(s) + [] == InOrder(s);
    } else {
      SamePlug(c.up, Up(c, s));
      SameUp(c, s, Plug(c, s));
    }
  }

  lemma SameTop(c: Ctx, s: Shape)
    ensures c.Top? ==> Same(c, s, s)
  {
    assert [] + InOrder(s) + [] == InOrder(s);
  }

  lemma RotSeq(a: seq<Group>, x: Group, b: seq<Group>, y: Group, c: seq<Group>)
    ensures (a + [x] + b) + [y] + c == a + [x] + (b + [y] + c)
  {}

  lemma RotROrder(s: Shape)
    requires s.Bin? && s.l.Bin?
    ensures InOrder(RotR(s)) == InOrder(s)
  {
    RotSeq(InOrder(s.l.l), s.l.g, InOrder(s.l.r), s.g, InOrder(s.r));
  }

  lemma RotLOrder(s: Shape)
    requires s.Bin? && s.r.Bin?
    ensures InOrder(RotL(s)) == InOrder(s)
  {
    RotROrder(RotL(s));
    assert RotR(RotL(s)) == s;
  }

  // ----- exact balances, one level and all the way up -----

  // The balance of the node above the hole when the hole has height h.
  ghost function ParBal(c: Ctx, h: nat): int
    requires !c.Top?
  {
    if c.InL? then Height(c.r) - h else h - Height(c.l)
  }

  lemma FitSplit(c: Ctx, h: nat)
    requires !c.Top? && DistinctC(c) && FitC(c, h)
    ensures FitC(c.up, UpHeight(c, h)) && Fit(Sibling(c))
    ensures c.g.head in HeadsC(c) && c.g.head.balance == ParBal(c, h)
  {
    assert HeadsC(c) == HeadsC(c.up) + {c.g.head} + Heads(Sibling(c));
    forall x | x in HeadsC(c.up) ensures x.balance == BalC(c.up, UpHeight(c, h), x) {
      assert x.balance == BalC(c, h, x);
    }
    forall x | x in Heads(Sibling(c)) ensures x.balance == BalOf(Sibling(c), x) {
      assert x.balance == BalC(c, h, x);
    }
  }

  lemma FitJoin(c: Ctx, s: Shape)
    requires !c.Top? && Sep(c, s) && Fit(s) && Fit(Sibling(c)) && c.g.head.balance == ParBal(c, Height(s))
    ensures Fit(Up(c, s))
  {
    assert Heads(Up(c, s)) == Heads(s) + {c.g.head} + Heads(Sibling(c));
  }

  lemma SepUp(c: Ctx, s: Shape)
    requires !c.Top?
    ensures Sep(c.up, Up(c, s)) <==> Sep(c, s)
  {
    assert Heads(Up(c, s)) == Heads(s) + {c.g.head} + Heads(Sibling(c));
  }

  lemma {:induction false} FitPlug(c: Ctx, s: Shape)
    requires Sep(c, s) && Fit(s) && FitC(c, Height(s))
    ensures Fit(Plug(c, s))
    decreases c
  {
    if !c.Top? {
      FitSplit(c, Height(s));
      FitJoin(c, s);
      SepUp(c, s);
      FitPlug(c.up, Up(c, s));
    }
  }

  lemma FitCJoin(c: Ctx, s: Shape)
    requires !c.Top? && Sep(c, s) && Fit(Up(c, s)) && FitC(c.up, UpHeight(c, Height(s)))
    ensures Fit(s) && FitC(c, Height(s))
  {
    var u := Up(c, s);
    assert Heads(u) == Heads(s) + {c.g.head} + Heads(Sibling(c));
    forall x | x in Heads(s) ensures x.balance == BalOf(s, x) {
      assert x.balance == BalOf(u, x);
    }
    forall x | x in HeadsC(c) ensures x.balance == BalC(c, Height(s), x) {
      if x in Heads(u) {
        assert x.balance == BalOf(u, x);
      } else {
        assert x.balance == BalC(c.up, UpHeight(c, Height(s)), x);
      }
    }
  }

  lemma {:induction false} FitOpen(c: Ctx, s: Shape)
    requires Sep(c, s) && Fit(Plug(c, s))
    ensures Fit(s) && FitC(c, Height(s))
    decreases c
  {
    if !c.Top? {
      SepUp(c, s);
      FitOpen(c.up, Up(c, s));
      FitCJoin(c, s);
    }
  }

  lemma {:induction false} AvlPlug(c: Ctx, s: Shape)
    ensures Avl(Plug(c, s)) <==> Avl(s) && AvlC(c, Height(s))
    decreases c
  {
    if !c.Top? {
      AvlPlug(c.up, Up(c, s));
    }
  }

  lemma FitParts(s: Shape)
    requires s.Bin? && Distinct(s) && Fit(s)
    ensures s.g.head in Heads(s) && s.g.head.balance == Height(s.r) - Height(s.l)
    ensures Fit(s.l) && Fit(s.r)
  {
    assert s.g.head.balance == BalOf(s, s.g.head);
    forall x | x in Heads(s.l) ensures x.balance == BalOf(s.l, x) {
      assert x.balance == BalOf(s, x);
    }
    forall x | x in Heads(s.r) ensures x.balance == BalOf(s.r, x) {
      assert x.balance == BalOf(s, x);
    }
  }

  // ----- what a rotation does to a tree that leans by two -----

  ghost predicate LeansLeft(s: Shape)
  {
    s.Bin? && Avl(s.l) && Avl(s.r) && Height(s.l) == Height(s.r) + 2
  }

  ghost predicate LeansRight(s: Shape)
  {
    s.Bin? && Avl(s.l) && Avl(s.r) && Height(s.r) == Height(s.l) + 2
  }

  ghost function DoubleR(s: Shape): Shape
    requires s.Bin? && s.l.Bin? && s.l.r.Bin?
  {
    RotR(Bin(RotL(s.l), s.g, s.r))
  }

  ghost function DoubleL(s: Shape): Shape
    requires s.Bin? && s.r.Bin? && s.r.l.Bin?
  {
    RotL(Bin(s.l, s.g, RotR(s.r)))
  }

  lemma SingleRAvl(s: Shape)
    requires LeansLeft(s) && Height(s.l.r) <= Height(s.l.l)
    ensures Avl(RotR(s)) && InOrder(RotR(s)) == InOrder(s)
    ensures Height(RotR(s)) == if Height(s.l.r) == Height(s.l.l) then Height(s) else Height(s) - 1
  {
    RotROrder(s);
  }

  lemma SingleLAvl(s: Shape)
    requires LeansRight(s) && Height(s.r.l) <= Height(s.r.r)
    ensures Avl(RotL(s)) && InOrder(RotL(s)) == InOrder(s)
    ensures Height(RotL(s)) == if Height(s.r.l) == Height(s.r.r) then Height(s) else Height(s) - 1
  {
    RotLOrder(s);
  }

  lemma DoubleROrder(s: Shape)
    requires s.Bin? && s.l.Bin? && s.l.r.Bin?
    ensures InOrder(DoubleR(s)) == InOrder(s)
  {
    var m := Bin(RotL(s.l), s.g, s.r);
    RotLOrder(s.l);
    RotROrder(m);
    assert InOrder(m) == InOrder(RotL(s.l)) + [s.g] + InOrder(s.r);
  }

  lemma DoubleLOrder(s: Shape)
    requires s.Bin? && s.r.Bin? && s.r.l.Bin?
    ensures InOrder(DoubleL(s)) == InOrder(s)
  {
    var m := Bin(s.l, s.g, RotR(s.r));
    RotROrder(s.r);
    RotLOrder(m);
    assert InOrder(m) == InOrder(s.l) + [s.g] + InOrder(RotR(s.r));
  }

  lemma DoubleRAvl(s: Shape)
    requires LeansLeft(s) && Height(s.l.l) < Height(s.l.r)
    ensures Height(RotL(s.l)) == Height(s.l)
    ensures Avl(DoubleR(s)) && Height(DoubleR(s)) == Height(s) - 1
  {
    var x := s.l.r;
    assert Avl(s.l.l) && Avl(x) && Avl(x.l) && Avl(x.r);
    assert Height(x) == 1 + Max(Height(x.l), Height(x.r));
    var lo, hi := Bin(s.l.l, s.l.g, x.l), Bin(x.r, s.g, s.r);
    assert DoubleR(s) == Bin(lo, x.g, hi) && Avl(lo) && Avl(hi);
    assert Height(lo) == Height(hi) == Height(s.l) - 1;
  }

  lemma DoubleLAvl(s: Shape)
    requires LeansRight(s) && Height(s.r.r) < Height(s.r.l)
    ensures Height(RotR(s.r)) == Height(s.r)
    ensures Avl(DoubleL(s)) && Height(DoubleL(s)) == Height(s) - 1
  {
    var x := s.r.l;
    assert Avl(s.r.r) && Avl(x) && Avl(x.l) && Avl(x.r);
    assert Height(x) == 1 + Max(Height(x.l), Height(x.r));
    var lo, hi := Bin(s.l, s.g, x.l), Bin(x.r, s.r.g, s.r.r);
    assert DoubleL(s) == Bin(lo, x.g, hi) && Avl(lo) && Avl(hi);
    assert Height(lo) == Height(hi) == Height(s.r) - 1;
  }

  // ----- heights one level up, when the subtree in the hole grew or shrank by one -----

  lemma GrowStep(c: Ctx, h: nat, s: Shape)
    requires !c.Top? && AvlC(c, h) && Avl(s) && Height(s) == h + 1
    ensures AvlC(c.up, UpHeight(c, h))
    ensures var u, b := Up(c, s), ParBal(c, Height(s));
      && (if c.InL? then -2 <= b <= 0 else 0 <= b <= 2)
      && (b == 0 ==> Avl(u) && Height(u) == UpHeight(c, h))
      && (b != 0 ==> Height(u) == UpHeight(c, h) + 1)
      && (b == -1 || b == 1 ==> Avl(u))
      && (b == -2 ==> LeansLeft(u))
      && (b == 2 ==> LeansRight(u))
  {}

  lemma ShrinkStep(c: Ctx, h: nat, s: Shape)
    requires !c.Top? && AvlC(c, h) && Avl(s) && h == Height(s) + 1
    ensures AvlC(c.up, UpHeight(c, h))
    ensures var u, b := Up(c, s), ParBal(c, Height(s));
      && (if c.InL? then 0 <= b <= 2 else -2 <= b <= 0)
      && (b == 0 ==> Avl(u) && Height(u) + 1 == UpHeight(c, h))
      && (b != 0 ==> Height(u) == UpHeight(c, h))
      && (b == -1 || b == 1 ==> Avl(u))
      && (b == -2 ==> LeansLeft(u))
      && (b == 2 ==> LeansRight(u))
  {}

  // ----- finding a group by its place in the traversal -----

  ghost function HeadsOf(gs: seq<Group>): set<AvlNode>
  {
    set g | g in gs :: g.head
  }

  lemma HeadsOfJoin(a: seq<Group>, b: seq<Group>)
    ensures HeadsOf(a + b) == HeadsOf(a) + HeadsOf(b)
  {}

  lemma {:induction false} HeadsInOrder(s: Shape)
    ensures HeadsOf(InOrder(s)) == Heads(s)
  {
    if s.Bin? {
      HeadsInOrder(s.l);
      HeadsInOrder(s.r);
      HeadsOfJoin(InOrder(s.l), [s.g]);
      HeadsOfJoin(InOrder(s.l) + [s.g], InOrder(s.r));
      assert HeadsOf([s.g]) == {s.g.head};
    }
  }

  lemma {:induction false} HeadsAround(c: Ctx)
    ensures HeadsOf(Pre(c)) + HeadsOf(Post(c)) == HeadsC(c)
  {
    if !c.Top? {
      HeadsAround(c.up);
      HeadsInOrder(Sibling(c));
      assert HeadsOf([c.g]) == {c.g.head};
      if c.InL? {
        HeadsOfJoin([c.g], InOrder(c.r));
        HeadsOfJoin([c.g] + InOrder(c.r), Post(c.up));
      } else {
        HeadsOfJoin(InOrder(c.l), [c.g]);
        HeadsOfJoin(Pre(c.up), InOrder(c.l) + [c.g]);
      }
    }
  }

  // Where place k of the traversal falls: left, at the root, or right.
  lemma PlaceInOrder(s: Shape, k: nat)
    requires s.Bin? && k < |InOrder(s)|
    ensures var gs, n := InOrder(s), |InOrder(s.l)|;
      if k < n then
        gs[k] == InOrder(s.l)[k] && gs[..k] == InOrder(s.l)[..k] && gs[k + 1..] == InOrder(s.l)[k + 1..] + ([s.g] + InOrder(s.r))
      else if k == n then gs[k] == s.g && gs[..k] == InOrder(s.l) && gs[k + 1..] == InOrder(s.r)
      else
        && k - n - 1 < |InOrder(s.r)| && gs[k] == InOrder(s.r)[k - n - 1]
        && gs[..k] == (InOrder(s.l) + [s.g]) + InOrder(s.r)[..k - n - 1] && gs[k + 1..] == InOrder(s.r)[k - n..]
  {}

  lemma {:induction false} Locate(c: Ctx, s: Shape, k: nat) returns (d: Ctx, e: Shape)
    requires k < |InOrder(s)|
    ensures Plug(d, e) == Plug(c, s) && e.Bin? && e.g == InOrder(s)[k]
    ensures Pre(d) + InOrder(e.l) == Pre(c) + InOrder(s)[..k]
    ensures InOrder(e.r) + Post(d) == InOrder(s)[k + 1..] + Post(c)
    decreases s
  {
    var n := |InOrder(s.l)|;
    PlaceInOrder(s, k);
    hide InOrder;
    if k < n {
      d, e := Locate(InL(c, s.g, s.r), s.l, k);
      Shift(InOrder(s.l)[k + 1..], [s.g] + InOrder(s.r), Post(c), []);
    } else if k == n {
      d, e := c, s;
    } else {
      d, e := Locate(InR(c, s.l, s.g), s.r, k - n - 1);
      Shift(Pre(c), InOrder(s.l) + [s.g], InOrder(s.r)[..k - n - 1], []);
    }
  }

  // ----- one group put in the place of another -----

  lemma SwapWant(c: Ctx, s: Shape, g: Group, par: AvlNode?)
    requires s.Bin? && Sep(c, s) && g.head !in Heads(s) && g.head !in HeadsC(c)
    ensures var t := Bin(s.l, g, s.r);
      && Sep(c, t) && Heads(t) == Heads(s) - {s.g.head} + {g.head} && Height(t) == Height(s)
      && s.g.head in Heads(s)
      && Want(s, par, s.g.head) == Links(Root(s.l), Root(s.r), par)
      && (s.l.Bin? ==> Root(s.l) in Heads(s) && Root(s.l) != s.g.head)
      && (s.r.Bin? ==> Root(s.r) in Heads(s) && Root(s.r) != s.g.head && Root(s.l) != Root(s.r))
      && forall x :: x in Heads(t) ==>
           Want(t, par, x) ==
             if x == g.head then Links(Root(s.l), Root(s.r), par)
             else if x == Root(s.l) || x == Root(s.r) then Want(s, par, x).(parent := g.head)
             else Want(s, par, x)
  {
    var t := Bin(s.l, g, s.r);
    assert Heads(s) == Heads(s.l) + {s.g.head} + Heads(s.r);
    assert s.l.Bin? ==> s.l.g.head in Heads(s.l);
    assert s.r.Bin? ==> s.r.g.head in Heads(s.r);
  }

  // A child moved up into the place of its parent.
  lemma SpliceWant(c: Ctx, s: Shape, e: Shape, par: AvlNode?)
    requires s.Bin? && Sep(c, s) && e.Bin? && (e == s.l || e == s.r)
    ensures Sep(c, e) && Heads(e) <= Heads(s) && e.g.head in Heads(e) && s.g.head !in Heads(e)
    ensures forall x :: x in Heads(e) ==>
      Want(e, par, x) == if x == e.g.head then Want(s, par, x).(parent := par) else Want(s, par, x)
  {}

  lemma {:induction false} HeadsPlug(c: Ctx, s: Shape)
    ensures Heads(Plug(c, s)) == HeadsC(c) + Heads(s)
    decreases c
  {
    if !c.Top? {
      HeadsPlug(c.up, Up(c, s));
      assert Heads(Up(c, s)) == Heads(s) + {c.g.head} + Heads(Sibling(c));
    }
  }

  lemma Shift(a: seq<Group>, b: seq<Group>, x: seq<Group>, y: seq<Group>)
    ensures a + b + x + y == (a + b) + (x + y)
    ensures (a + b) + x == a + (b + x)
  {}

  lemma Around(p: seq<Group>, l: seq<Group>, g: Group, r: seq<Group>, q: seq<Group>)
    ensures p + (l + [g] + r) + q == (p + l) + ([g] + (r + q))
  {}

  lemma {:induction false} MinGone(d: Ctx, e: Shape, t: Shape)
    requires e.Bin? && e.l.Leaf? && Sep(d, e) && InOrder(t) == (Pre(d) + InOrder(e.r)) + Post(d)
    ensures e.g.head in Heads(e) && e.g.head !in Heads(t)
  {
    HeadsInOrder(t);
    HeadsInOrder(e.r);
    HeadsAround(d);
    HeadsOfJoin(Pre(d) + InOrder(e.r), Post(d));
    HeadsOfJoin(Pre(d), InOrder(e.r));
    assert Heads(t) == HeadsC(d) + Heads(e.r);
  }

  // The traversal before the successor e.g takes the place of s.g ...
  lemma {:induction false} CutOrder(c: Ctx, s: Shape, d: Ctx, e: Shape, t: Shape)
    requires s.Bin? && e.Bin? && e.l.Leaf? && Pre(d) == Pre(InR(c, s.l, s.g))
    requires InOrder(t) == Pre(d) + InOrder(e.l) + InOrder(e.r) + Post(d)
    ensures InOrder(t) == (Pre(d) + InOrder(e.r)) + Post(d)
    ensures InOrder(t) == (Pre(c) + InOrder(s.l)) + ([s.g] + (InOrder(e.r) + Post(d)))
  {
    assert Pre(d) + [] == Pre(d);
    var a := Pre(c) + InOrder(s.l);
    Shift(Pre(c), InOrder(s.l), [s.g], []);
    Shift(a + [s.g], InOrder(e.r), Post(d), []);
    Shift(a, [s.g], InOrder(e.r) + Post(d), []);
  }

  // ... and after.
  lemma {:induction false} ReplacedOrder(c: Ctx, s: Shape, d: Ctx, e: Shape, t: Shape)
    requires s.Bin? && e.Bin? && e.l.Leaf?
    requires InOrder(e) + Post(d) == InOrder(s.r) + Post(c)
    requires InOrder(t) == (Pre(c) + InOrder(s.l)) + ([s.g] + (InOrder(e.r) + Post(d)))
    ensures var k := |Pre(c) + InOrder(s.l)|;
      && k < |InOrder(t)| && InOrder(t)[k] == s.g
      && InOrder(t)[k := e.g] == Pre(c) + InOrder(s.l) + InOrder(s.r) + Post(c)
  {
    var a, q := Pre(c) + InOrder(s.l), InOrder(e.r) + Post(d);
    assert (a + ([s.g] + q))[|a| := e.g] == a + ([e.g] + q);
    assert InOrder(e) == [e.g] + InOrder(e.r);
    Shift([e.g], InOrder(e.r), Post(d), []);
    Shift(Pre(c), InOrder(s.l), InOrder(s.r), Post(c));
  }

  lemma {:induction false} PutOrder(b: Ctx, f: Shape, g: Group, t: Shape, gs: seq<Group>, k: nat)
    requires k < |gs| && f.Bin? && Same(b, Bin(f.l, g, f.r), t)
    requires Pre(b) + InOrder(f.l) == gs[..k] && InOrder(f.r) + Post(b) == gs[k + 1..]
    ensures InOrder(t) == gs[k := g]
  {
    Around(Pre(b), InOrder(f.l), g, InOrder(f.r), Post(b));
    assert gs[k := g] == gs[..k] + ([g] + gs[k + 1..]);
  }

  lemma InsertSeq(a: seq<Group>, g: Group, b: seq<Group>)
    ensures var gs := a + b; gs[..|a|] + [g] + gs[|a|..] == a + [g] + b
  {}

  lemma LeftNode(e: Shape, g: Group)
    requires e.Bin? && e.l.Leaf?
    ensures InOrder(e.l) == [] && InOrder(Bin(Bin(Leaf, g, Leaf), e.g, e.r)) == [g] + InOrder(e)
  {
    assert InOrder(Bin(Leaf, g, Leaf)) == [g];
    assert InOrder(e) == [e.g] + InOrder(e.r);
  }

  lemma {:induction false} LeftOrder(d: Ctx, e: Shape, g: Group, t: Shape)
    requires e.Bin? && e.l.Leaf? && Same(d, Bin(Bin(Leaf, g, Leaf), e.g, e.r), t)
    ensures var gs, k := InOrder(Plug(d, e)), |Pre(d) + InOrder(e.l)|;
      k <= |gs| && InOrder(t) == gs[..k] + [g] + gs[k..]
  {
    hide InOrder, Plug;
    SamePlug(d, e);
    LeftNode(e, g);
    assert Pre(d) + [] == Pre(d);
    var x := InOrder(e);
    InsertSeq(Pre(d), g, x + Post(d));
    Shift(Pre(d), x, Post(d), []);
    Shift(Pre(d), [g], x + Post(d), []);
    assert Pre(d) + ([g] + x) + Post(d) == Pre(d) + [g] + (x + Post(d));
  }

  lemma {:induction false} RightOrder(d: Ctx, e: Shape, g: Group, t: Shape)
    requires e.Bin? && e.r.Leaf? && Same(d, Bin(e.l, e.g, Bin(Leaf, g, Leaf)), t)
    ensures var gs, k := InOrder(Plug(d, e)), |Pre(d) + InOrder(e.l)| + 1;
      k <= |gs| && InOrder(t) == gs[..k] + [g] + gs[k..]
  {
    SamePlug(d, e);
    assert InOrder(Bin(Leaf, g, Leaf)) == [g];
    assert InOrder(e) == InOrder(e.l) + [e.g];
    assert InOrder(Plug(d, e)) == (Pre(d) + InOrder(e)) + Post(d);
    assert InOrder(Bin(e.l, e.g, Bin(Leaf, g, Leaf))) == InOrder(e) + [g];
  }

  // ----- how high a tree can get -----

  ghost function Fib(n: nat): nat
  {
    if n < 2 then n else Fib(n - 2) + Fib(n - 1)
  }

  lemma {:induction false} FibMonotone(n: nat)
    ensures Fib(n) <= Fib(n + 1)
  {
    if n >= 2 {
      FibMonotone(n - 2);
      FibMonotone(n - 1);
    }
  }

  // An AVL tree of height h holds at least Fib(h + 2) - 1 heads.
  lemma {:induction false} FibonacciBound(s: Shape)
    requires Avl(s)
    ensures Fib(Height(s) + 2) <= |InOrder(s)| + 1
  {
    if s.Bin? {
      FibonacciBound(s.l);
      FibonacciBound(s.r);
      assert |InOrder(s)| == |InOrder(s.l)| + 1 + |InOrder(s.r)|;
      var h := Height(s);
      assert Height(s.l) == h - 1 || Height(s.r) == h - 1;
      assert h == 1 || (h - 2 <= Height(s.l) && h - 2 <= Height(s.r));
      hide InOrder, Avl, Height;
      FibMonotone(h);
      FibMonotone(h + 1);
      assert Fib(h + 2) == Fib(h) + Fib(h + 1);
    }
  }

  lemma {:induction false} FibDoubles(n: nat)
    ensures Words.Pow2(n / 2) <= Fib(n + 2)
  {
    if n >= 2 {
      FibDoubles(n - 2);
      FibMonotone(n);
      FibMonotone(n + 1);
    }
  }

  lemma LeftSeq(a: seq<Group>, g: Group, b: seq<Group>, q: seq<Group>)
    ensures a + (([g] + b) + q) == (a + [g] + b) + q
  {}
}
