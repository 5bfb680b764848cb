// What the comparator says about the traversal of a tree.
module AvlOrders {
  import opened AvlNodes
  import opened AvlShapes
  import opened Rings
  import opened Sequences

  type Comparator = (Key, Key) -> int

  // Three-way comparison by a total preorder.
  ghost predicate Law(comp: Comparator, a: Key, b: Key, c: Key)
  {
    && (comp(a, b) < 0 <==> comp(b, a) > 0)
    && (comp(a, b) <= 0 && comp(b, c) <= 0 ==> comp(a, c) <= 0)
  }

  ghost predicate Total(comp: Comparator)
  {
    forall a, b, c {:trigger Law(comp, a, b, c)} :: Law(comp, a, b, c)
  }

  lemma Chain(comp: Comparator, a: Key, b: Key, c: Key)
    requires Total(comp)
    ensures comp(a, b) < 0 <==> comp(b, a) > 0
    ensures comp(b, c) < 0 <==> comp(c, b) > 0
    ensures comp(a, c) < 0 <==> comp(c, a) > 0
    ensures comp(a, b) <= 0 && comp(b, c) <= 0 ==> comp(a, c) <= 0
    ensures comp(a, b) < 0 && comp(b, c) <= 0 ==> comp(a, c) < 0
    ensures comp(a, b) <= 0 && comp(b, c) < 0 ==> comp(a, c) < 0
    ensures comp(a, b) == 0 <==> comp(b, a) == 0
  {
    assert Law(comp, a, b, c) && Law(comp, b, a, c) && Law(comp, b, c, a) && Law(comp, c, a, b);
    assert Law(comp, a, c, b) && Law(comp, c, b, a);
  }

  // Heads strictly increasing, followers equal to their head.
  ghost predicate Sorted(comp: Comparator, gs: seq<Group>)
  {
    && (forall i, j :: 0 <= i < j < |gs| ==> comp(gs[i].head.key, gs[j].head.key) < 0)
    && (forall g, f :: g in gs && f in g.fs ==> comp(f.key, g.head.key) == 0)
  }

  // key lies strictly above, strictly below, every group of gs.
  ghost predicate Above(comp: Comparator, key: Key, gs: seq<Group>)
  {
    forall g :: g in gs ==> comp(key, g.head.key) > 0
  }

  ghost predicate Under(comp: Comparator, key: Key, gs: seq<Group>)
  {
    forall g :: g in gs ==> comp(key, g.head.key) < 0
  }

  lemma SortedSplit(comp: Comparator, a: seq<Group>, g: Group, b: seq<Group>)
    requires Sorted(comp, a + [g] + b)
    ensures Sorted(comp, a) && Sorted(comp, b)
    ensures forall x :: x in a ==> comp(x.head.key, g.head.key) < 0
    ensures forall x :: x in b ==> comp(g.head.key, x.head.key) < 0
  {
    var gs, n := a + [g] + b, |a|;
    assert gs[n] == g;
    forall x | x in a ensures comp(x.head.key, g.head.key) < 0 {
      var i :| 0 <= i < n && a[i] == x;
      assert gs[i] == x;
    }
    forall x | x in b ensures comp(g.head.key, x.head.key) < 0 {
      var i :| 0 <= i < |b| && b[i] == x;
      assert gs[n + 1 + i] == x;
    }
    SortedPrefix(comp, a, [g] + b);
    SortedSuffix(comp, a + [g], b);
    assert a + [g] + b == a + ([g] + b);
  }

  lemma SortedPrefix(comp: Comparator, a: seq<Group>, b: seq<Group>)
    ensures Sorted(comp, a + b) ==> Sorted(comp, a)
  {
    assert forall i :: 0 <= i < |a| ==> (a + b)[i] == a[i];
  }

  lemma SortedSuffix(comp: Comparator, a: seq<Group>, b: seq<Group>)
    ensures Sorted(comp, a + b) ==> Sorted(comp, b)
  {
    assert forall i :: 0 <= i < |b| ==> b[i] == (a + b)[|a| + i];
  }

  lemma SortedParts(comp: Comparator, s: Shape)
    requires s.Bin? && Sorted(comp, InOrder(s))
    ensures Sorted(comp, InOrder(s.l)) && Sorted(comp, InOrder(s.r))
    ensures forall g :: g in InOrder(s.l) ==> comp(g.head.key, s.g.head.key) < 0
    ensures forall g :: g in InOrder(s.r) ==> comp(s.g.head.key, g.head.key) < 0
  {
    SortedSplit(comp, InOrder(s.l), s.g, InOrder(s.r));
  }

  // One step down from s, to the left or to the right.
  lemma StepLeft(comp: Comparator, key: Key, s: Shape)
    requires Total(comp) && s.Bin? && Sorted(comp, InOrder(s)) && comp(key, s.g.head.key) < 0
    ensures Under(comp, key, [s.g] + InOrder(s.r))
  {
    SortedParts(comp, s);
    forall g | g in InOrder(s.r) ensures comp(key, g.head.key) < 0 {
      Chain(comp, key, s.g.head.key, g.head.key);
    }
  }

  lemma StepRight(comp: Comparator, key: Key, s: Shape)
    requires Total(comp) && s.Bin? && Sorted(comp, InOrder(s)) && comp(key, s.g.head.key) > 0
    ensures Above(comp, key, InOrder(s.l) + [s.g])
  {
    SortedParts(comp, s);
    forall g | g in InOrder(s.l) ensures comp(key, g.head.key) > 0 {
      Chain(comp, g.head.key, s.g.head.key, key);
      Chain(comp, key, s.g.head.key, key);
    }
  }

  lemma StepHere(comp: Comparator, key: Key, s: Shape)
    requires Total(comp) && s.Bin? && Sorted(comp, InOrder(s)) && comp(key, s.g.head.key) == 0
    ensures Above(comp, key, InOrder(s.l)) && Under(comp, key, InOrder(s.r))
  {
    SortedParts(comp, s);
    forall g | g in InOrder(s.l) ensures comp(key, g.head.key) > 0 {
      Chain(comp, g.head.key, s.g.head.key, key);
      Chain(comp, key, s.g.head.key, key);
    }
    forall g | g in InOrder(s.r) ensures comp(key, g.head.key) < 0 {
      Chain(comp, key, s.g.head.key, g.head.key);
    }
  }

  // ----- from groups to nodes -----

  lemma {:induction false} JoinConcat(a: seq<Group>, b: seq<Group>)
    ensures Join(a + b) == Join(a) + Join(b)
  {
    if a == [] {
      assert a + b == b;
    } else {
      assert (a + b)[1..] == a[1..] + b;
      JoinConcat(a[1..], b);
    }
  }

  // The nodes before, in, and behind group k.
  lemma JoinAt(gs: seq<Group>, k: nat)
    requires k < |gs|
    ensures Join(gs) == Join(gs[..k]) + Join(gs[k..])
    ensures Join(gs[k..]) == ([gs[k].head] + gs[k].fs) + Join(gs[k + 1..])
    ensures Join(gs[..k + 1]) == Join(gs[..k]) + ([gs[k].head] + gs[k].fs)
  {
    hide Join;
    JoinCut(gs, k);
    JoinHead(gs, k);
    assert gs[..k + 1] == gs[..k] + [gs[k]];
    JoinConcat(gs[..k], [gs[k]]);
    JoinOne(gs[k]);
  }

  lemma JoinMid(gs: seq<Group>, k: nat)
    requires k < |gs|
    ensures Join(gs) == Join(gs[..k]) + (([gs[k].head] + gs[k].fs) + Join(gs[k + 1..]))
  {
    hide Join;
    JoinCut(gs, k);
    JoinHead(gs, k);
  }

  lemma JoinHead(gs: seq<Group>, k: nat)
    requires k < |gs|
    ensures Join(gs[k..]) == ([gs[k].head] + gs[k].fs) + Join(gs[k + 1..])
  {
    assert gs[k..][1..] == gs[k + 1..];
  }

  lemma JoinOne(g: Group)
    ensures Join([g]) == [g.head] + g.fs
  {
    assert [g][1..] == [];
    assert ([g.head] + g.fs) + [] == [g.head] + g.fs;
  }

  lemma JoinCut(gs: seq<Group>, k: nat)
    requires k <= |gs|
    ensures Join(gs) == Join(gs[..k]) + Join(gs[k..])
  {
    hide Join;
    assert gs == gs[..k] + gs[k..];
    JoinConcat(gs[..k], gs[k..]);
  }

  lemma {:induction false} InJoin(gs: seq<Group>, x: AvlNode)
    ensures x in Join(gs) <==> exists g :: g in gs && (x == g.head || x in g.fs)
  {
    if gs != [] {
      InJoin(gs[1..], x);
      assert gs == [gs[0]] + gs[1..];
    }
  }

  lemma FirstGroup(comp: Comparator, gs: seq<Group>, i: nat)
    requires Total(comp) && Sorted(comp, gs) && gs != [] && i <= |gs[0].fs|
    ensures i < |Join(gs)| && comp(Join(gs)[i].key, gs[0].head.key) == 0
  {
    hide Total;
    Chain(comp, gs[0].head.key, gs[0].head.key, gs[0].head.key);
    assert gs[0] in gs && (0 < i ==> Join(gs)[i] == gs[0].fs[i - 1]);
  }

  lemma LaterGroup(comp: Comparator, gs: seq<Group>, j: nat)
    requires Total(comp) && Sorted(comp, gs) && gs != [] && 1 + |gs[0].fs| <= j < |Join(gs)|
    ensures comp(gs[0].head.key, Join(gs)[j].key) < 0
  {
    var x, rest := Join(gs)[j], gs[1..];
    assert x in Join(rest);
    InJoin(rest, x);
    var b :| b in rest && (x == b.head || x in b.fs);
    var m :| 0 <= m < |rest| && rest[m] == b;
    assert gs[m + 1] == b;
    Chain(comp, x.key, b.head.key, gs[0].head.key);
    Chain(comp, gs[0].head.key, b.head.key, x.key);
  }

  lemma {:induction false} Ascending(comp: Comparator, gs: seq<Group>, i: nat, j: nat)
    requires Total(comp) && Sorted(comp, gs) && i <= j < |Join(gs)|
    ensures comp(Join(gs)[i].key, Join(gs)[j].key) <= 0
    decreases gs
  {
    var n, order := 1 + |gs[0].fs|, Join(gs);
    if i < n {
      FirstGroup(comp, gs, i);
      if j < n {
        FirstGroup(comp, gs, j);
      } else {
        LaterGroup(comp, gs, j);
      }
      Chain(comp, order[j].key, gs[0].head.key, order[i].key);
      Chain(comp, order[i].key, gs[0].head.key, order[j].key);
    } else {
      assert gs == [gs[0]] + gs[1..];
      SortedSuffix(comp, [gs[0]], gs[1..]);
      hide Sorted;
      Ascending(comp, gs[1..], i - n, j - n);
    }
  }

  // Where key stands in a list: everything before lower, everything from p on higher.
  ghost predicate Gap(comp: Comparator, order: seq<AvlNode>, key: Key, p: nat)
  {
    && p <= |order|
    && (forall i :: 0 <= i < p ==> comp(order[i].key, key) < 0)
    && (forall i :: p <= i < |order| ==> comp(order[i].key, key) > 0)
  }

  // The first node with an equal key.
  ghost predicate FirstEqual(comp: Comparator, order: seq<AvlNode>, key: Key, p: nat)
  {
    && p < |order| && comp(order[p].key, key) == 0
    && (forall i :: 0 <= i < p ==> comp(order[i].key, key) < 0)
  }

  lemma NodesBelow(comp: Comparator, key: Key, gs: seq<Group>)
    requires Total(comp) && Sorted(comp, gs) && Above(comp, key, gs)
    ensures forall x :: x in Join(gs) ==> comp(x.key, key) < 0
  {
    forall x | x in Join(gs) ensures comp(x.key, key) < 0 {
      InJoin(gs, x);
      var g :| g in gs && (x == g.head || x in g.fs);
      Chain(comp, x.key, g.head.key, key);
      Chain(comp, key, g.head.key, key);
    }
  }

  lemma NodesAbove(comp: Comparator, key: Key, gs: seq<Group>)
    requires Total(comp) && Sorted(comp, gs) && Under(comp, key, gs)
    ensures forall x :: x in Join(gs) ==> comp(x.key, key) > 0
  {
    forall x | x in Join(gs) ensures comp(x.key, key) > 0 {
      InJoin(gs, x);
      var g :| g in gs && (x == g.head || x in g.fs);
      Chain(comp, key, g.head.key, x.key);
      Chain(comp, x.key, g.head.key, key);
    }
  }

  lemma GapConcat(comp: Comparator, a: seq<AvlNode>, b: seq<AvlNode>, key: Key)
    requires forall x :: x in a ==> comp(x.key, key) < 0
    requires forall x :: x in b ==> comp(x.key, key) > 0
    ensures Gap(comp, a + b, key, |a|)
  {
    forall i | 0 <= i < |a + b| ensures if i < |a| then comp((a + b)[i].key, key) < 0 else comp((a + b)[i].key, key) > 0 {
      assert if i < |a| then (a + b)[i] in a else (a + b)[i] in b;
    }
  }

  // Splitting the groups where key belongs splits the list there too.
  lemma GapAt(comp: Comparator, key: Key, gs: seq<Group>, k: nat)
    requires Total(comp) && Sorted(comp, gs) && k <= |gs|
    requires Above(comp, key, gs[..k]) && Under(comp, key, gs[k..])
    ensures Join(gs) == Join(gs[..k]) + Join(gs[k..]) && Gap(comp, Join(gs), key, |Join(gs[..k])|)
  {
    hide Join, Sorted, Above, Under, Gap;
    JoinCut(gs, k);
    assert gs == gs[..k] + gs[k..];
    SortedPrefix(comp, gs[..k], gs[k..]);
    SortedSuffix(comp, gs[..k], gs[k..]);
    NodesBelow(comp, key, gs[..k]);
    NodesAbove(comp, key, gs[k..]);
    GapConcat(comp, Join(gs[..k]), Join(gs[k..]), key);
  }

  lemma FirstBehind(comp: Comparator, key: Key, a: seq<AvlNode>, x: AvlNode, b: seq<AvlNode>)
    requires (forall y :: y in a ==> comp(y.key, key) < 0) && comp(x.key, key) == 0
    ensures FirstEqual(comp, a + ([x] + b), key, |a|) && (a + ([x] + b))[|a|] == x
  {
    var all := a + ([x] + b);
    assert forall i :: 0 <= i < |a| ==> all[i] in a;
  }

  lemma FirstEqualAt(comp: Comparator, key: Key, gs: seq<Group>, k: nat)
    requires Total(comp) && Sorted(comp, gs) && k < |gs|
    requires Above(comp, key, gs[..k]) && comp(key, gs[k].head.key) == 0
    ensures FirstEqual(comp, Join(gs), key, |Join(gs[..k])|) && Join(gs)[|Join(gs[..k])|] == gs[k].head
  {
    hide Join, Sorted, Above, FirstEqual, Total;
    JoinAt(gs, k);
    assert gs == gs[..k] + gs[k..];
    SortedPrefix(comp, gs[..k], gs[k..]);
    NodesBelow(comp, key, gs[..k]);
    Chain(comp, key, gs[k].head.key, key);
    FirstBehind(comp, key, Join(gs[..k]), gs[k].head, gs[k].fs + Join(gs[k + 1..]));
    assert Join(gs) == Join(gs[..k]) + ([gs[k].head] + (gs[k].fs + Join(gs[k + 1..])));
  }

  lemma SortedInsert(comp: Comparator, gs: seq<Group>, k: nat, g: Group)
    requires Total(comp) && Sorted(comp, gs) && k <= |gs| && g.fs == []
    requires Above(comp, g.head.key, gs[..k]) && Under(comp, g.head.key, gs[k..])
    ensures Sorted(comp, gs[..k] + [g] + gs[k..])
  {
    hide Total;
    var t := gs[..k] + [g] + gs[k..];
    forall x, f | x in t && f in x.fs ensures comp(f.key, x.head.key) == 0 {
      assert x in gs;
    }
    forall i, j | 0 <= i < j < |t| ensures comp(t[i].head.key, t[j].head.key) < 0 {
      if j == k {
        assert t[i] in gs[..k];
        Chain(comp, t[i].head.key, g.head.key, g.head.key);
      } else if i == k {
        assert t[j] == gs[k..][j - k - 1] && t[j] in gs[k..];
      } else {
        assert t[i] == gs[if i < k then i else i - 1] && t[j] == gs[if j < k then j else j - 1];
      }
    }
  }

  lemma AboveConcat(comp: Comparator, key: Key, a: seq<Group>, b: seq<Group>)
    ensures Above(comp, key, a + b) <==> Above(comp, key, a) && Above(comp, key, b)
    ensures Under(comp, key, a + b) <==> Under(comp, key, a) && Under(comp, key, b)
  {}

  lemma SplitAt(a: seq<Group>, g: Group, b: seq<Group>)
    ensures var gs := a + ([g] + b);
      gs[|a|] == g && gs[..|a|] == a && gs[|a| + 1..] == b && gs[|a|..] == [g] + b && gs[..|a| + 1] == a + [g]
  {}

  // Group k in the list: its head, its followers, and the head of the next group.
  lemma GroupPlaces(gs: seq<Group>, k: nat)
    requires k < |gs|
    ensures var order, p, q := Join(gs), |Join(gs[..k])|, |Join(gs[..k + 1])|;
      && p < q == p + 1 + |gs[k].fs| <= |order| && order[p] == gs[k].head
      && (forall i :: 0 <= i < |gs[k].fs| ==> order[p + 1 + i] == gs[k].fs[i])
      && (if k + 1 < |gs| then q < |order| && order[q] == gs[k + 1].head else q == |order|)
  {
    JoinAt(gs, k);
    if k + 1 < |gs| {
      JoinAt(gs, k + 1);
    } else {
      assert gs[..k + 1] == gs;
    }
  }

  lemma SortedNear(comp: Comparator, gs: seq<Group>, k: nat)
    requires Sorted(comp, gs) && k < |gs|
    ensures forall j :: 0 <= j < |gs[k].fs| ==> comp(gs[k].fs[j].key, gs[k].head.key) == 0
    ensures k > 0 ==> comp(gs[k - 1].head.key, gs[k].head.key) < 0
  {}

  // Within a group all keys are equal; from one group to the next they differ.
  lemma EqualBefore(comp: Comparator, gs: seq<Group>, k: nat, j: int)
    requires Total(comp) && Sorted(comp, gs) && k < |gs| && -1 <= j < |gs[k].fs|
    ensures var order, i := Join(gs), |Join(gs[..k])| + 1 + j;
      && i < |order| && order[i] == (if j == -1 then gs[k].head else gs[k].fs[j])
      && (j >= 0 <==> 0 < i && comp(order[i - 1].key, order[i].key) == 0)
  {
    hide Join, Sorted, Total;
    GroupPlaces(gs, k);
    SortedNear(comp, gs, k);
    var order, p, h := Join(gs), |Join(gs[..k])|, gs[k].head;
    var i := p + 1 + j;
    if j >= 0 {
      assert order[p + 1 + j] == gs[k].fs[j] && gs[k] in gs;
      var b := if j == 0 then h else gs[k].fs[j - 1];
      assert j > 0 ==> order[p + 1 + (j - 1)] == gs[k].fs[j - 1];
      Chain(comp, h.key, h.key, h.key);
      Chain(comp, b.key, h.key, gs[k].fs[j].key);
      Chain(comp, gs[k].fs[j].key, h.key, b.key);
    } else if 0 < k {
      GroupPlaces(gs, k - 1);
      SortedNear(comp, gs, k - 1);
      var b := gs[k - 1];
      var x := if b.fs == [] then b.head else b.fs[|b.fs| - 1];
      assert b in gs && order[p - 1] == x by {
        var r := |Join(gs[..k - 1])|;
        assert b.fs != [] ==> order[r + 1 + (|b.fs| - 1)] == b.fs[|b.fs| - 1];
      }
      Chain(comp, b.head.key, b.head.key, b.head.key);
      Chain(comp, x.key, b.head.key, h.key);
    } else {
      assert gs[..0] == [];
      JoinNil();
    }
  }

  lemma JoinNil()
    ensures Join([]) == []
  {}

  // A new group of one node at place k.
  lemma JoinInsert(gs: seq<Group>, k: nat, x: AvlNode)
    requires k <= |gs|
    ensures var order, p := Join(gs), |Join(gs[..k])|;
      p <= |order| && Join(gs[..k] + [Group(x, [])] + gs[k..]) == order[..p] + [x] + order[p..]
  {
    var a, b, g := gs[..k], gs[k..], Group(x, []);
    JoinCut(gs, k);
    JoinOne(g);
    JoinConcat(a, [g]);
    JoinConcat(a + [g], b);
    assert [x] + [] == [x];
  }

  // A new first follower in group k.
  ghost function Followed(gs: seq<Group>, k: nat, x: AvlNode): seq<Group>
    requires k < |gs|
  {
    gs[k := Group(gs[k].head, [x] + gs[k].fs)]
  }

  lemma JoinFollow(gs: seq<Group>, k: nat, x: AvlNode)
    requires k < |gs|
    ensures var order, p := Join(gs), |Join(gs[..k])| + 1;
      p <= |order| && Join(Followed(gs, k, x)) == order[..p] + [x] + order[p..]
  {
    hide Join;
    var t, a, b := Followed(gs, k, x), Join(gs[..k]), Join(gs[k + 1..]);
    var h, fs := gs[k].head, gs[k].fs;
    JoinAt(gs, k);
    JoinAt(t, k);
    assert t[..k] == gs[..k] && t[k + 1..] == gs[k + 1..];
    assert Join(gs) == (a + [h]) + (fs + b);
    assert Join(t) == (a + [h]) + [x] + (fs + b);
  }

  lemma SortedFollow(comp: Comparator, gs: seq<Group>, k: nat, x: AvlNode)
    requires Total(comp) && Sorted(comp, gs) && k < |gs| && comp(x.key, gs[k].head.key) == 0
    ensures Sorted(comp, Followed(gs, k, x))
  {
    var t := Followed(gs, k, x);
    forall g, f | g in t && f in g.fs ensures comp(f.key, g.head.key) == 0 {
      if g != t[k] {
        assert g in gs;
      }
    }
  }

  // ----- taking a node out of its group -----

  ghost function Cut(order: seq<AvlNode>, p: nat): seq<AvlNode>
    requires p < |order|
  {
    order[..p] + order[p + 1..]
  }

  lemma CutMembers(order: seq<AvlNode>, p: nat)
    requires NoDup(order) && p < |order|
    ensures |Cut(order, p)| == |order| - 1 && order[p] !in Cut(order, p)
    ensures forall x :: x in order && x != order[p] ==> x in Cut(order, p)
  {
    forall x | x in order && x != order[p] ensures x in Cut(order, p) {
      var i :| 0 <= i < |order| && order[i] == x;
      assert Cut(order, p)[if i < p then i else i - 1] == x;
    }
  }

  lemma CutOut(a: seq<AvlNode>, x: AvlNode, b: seq<AvlNode>)
    ensures Cut(a + ([x] + b), |a|) == a + b && (a + ([x] + b))[|a|] == x
  {}

  lemma Reassociate(a: seq<AvlNode>, h: AvlNode, f: seq<AvlNode>, g: seq<AvlNode>, b: seq<AvlNode>)
    ensures a + (([h] + (f + g)) + b) == (a + ([h] + f)) + (g + b)
    ensures a + (([h] + f) + b) == a + ([h] + (f + b))
  {}

  // The group of x: x is its head when j == -1, and its j-th follower otherwise.
  lemma {:induction false} Owner(gs: seq<Group>, x: AvlNode) returns (k: nat, j: int)
    requires x in Join(gs)
    ensures k < |gs| && -1 <= j < |gs[k].fs| && x == if j == -1 then gs[k].head else gs[k].fs[j]
  {
    InJoin(gs, x);
    var g :| g in gs && (x == g.head || x in g.fs);
    k :| k < |gs| && gs[k] == g;
    if x == g.head {
      j := -1;
    } else {
      j :| 0 <= j < |g.fs| && g.fs[j] == x;
    }
  }

  // Group k without its head and without other nodes.
  lemma DropGroup(comp: Comparator, gs: seq<Group>, k: nat)
    requires k < |gs| && gs[k].fs == []
    ensures var p := |Join(gs[..k])|;
      p < |Join(gs)| && Join(gs)[p] == gs[k].head && Join(gs[..k] + gs[k + 1..]) == Cut(Join(gs), p)
    ensures Sorted(comp, gs) ==> Sorted(comp, gs[..k] + gs[k + 1..])
  {
    hide Join, Cut;
    var t, a, b := gs[..k] + gs[k + 1..], Join(gs[..k]), Join(gs[k + 1..]);
    JoinMid(gs, k);
    JoinConcat(gs[..k], gs[k + 1..]);
    assert [gs[k].head] + [] == [gs[k].head];
    CutOut(a, gs[k].head, b);
    assert forall i :: 0 <= i < |t| ==> t[i] == gs[if i < k then i else i + 1];
  }

  ghost function Promoted(gs: seq<Group>, k: nat): seq<Group>
    requires k < |gs| && gs[k].fs != []
  {
    gs[k := Group(gs[k].fs[0], gs[k].fs[1..])]
  }

  // Group k without its head: the first follower takes over.
  lemma PromoteOrder(gs: seq<Group>, k: nat)
    requires k < |gs| && gs[k].fs != []
    ensures var p := |Join(gs[..k])|;
      p + 1 < |Join(gs)| && Join(gs)[p] == gs[k].head && Join(Promoted(gs, k)) == Cut(Join(gs), p)
  {
    var t, a, b := Promoted(gs, k), Join(gs[..k]), Join(gs[k + 1..]);
    var h, fs := gs[k].head, gs[k].fs;
    hide Join, Cut;
    JoinMid(gs, k);
    JoinMid(t, k);
    assert t[..k] == gs[..k] && t[k + 1..] == gs[k + 1..];
    assert [fs[0]] + fs[1..] == fs;
    Reassociate(a, h, fs, [], b);
    CutOut(a, h, fs + b);
  }

  lemma PromoteSorted(comp: Comparator, gs: seq<Group>, k: nat)
    requires Total(comp) && Sorted(comp, gs) && k < |gs| && gs[k].fs != []
    ensures Sorted(comp, Promoted(gs, k))
  {
    var t, h, x := Promoted(gs, k), gs[k].head, gs[k].fs[0];
    assert comp(x.key, h.key) == 0;
    forall i, j | 0 <= i < j < |t| ensures comp(t[i].head.key, t[j].head.key) < 0 {
      Chain(comp, gs[i].head.key, h.key, x.key);
      Chain(comp, x.key, h.key, gs[j].head.key);
    }
    forall g, f | g in t && f in g.fs ensures comp(f.key, g.head.key) == 0 {
      if g == t[k] {
        assert f in gs[k].fs;
        Chain(comp, f.key, h.key, x.key);
        Chain(comp, x.key, h.key, f.key);
        Chain(comp, f.key, x.key, h.key);
      } else {
        assert g in gs;
      }
    }
  }

  ghost function Unfollowed(gs: seq<Group>, k: nat, j: nat): seq<Group>
    requires k < |gs| && j < |gs[k].fs|
  {
    gs[k := Group(gs[k].head, gs[k].fs[..j] + gs[k].fs[j + 1..])]
  }

  lemma CutDeep(a: seq<AvlNode>, h: AvlNode, f: seq<AvlNode>, x: AvlNode, g: seq<AvlNode>, b: seq<AvlNode>)
    ensures var order, p := a + (([h] + (f + ([x] + g))) + b), |a| + 1 + |f|;
      p < |order| && order[p] == x && Cut(order, p) == a + (([h] + (f + g)) + b)
  {}

  // Group k without its j-th follower.
  lemma UnfollowOrder(gs: seq<Group>, k: nat, j: nat)
    requires k < |gs| && j < |gs[k].fs|
    ensures var p := |Join(gs[..k])| + 1 + j;
      p < |Join(gs)| && Join(gs)[p] == gs[k].fs[j] && Join(Unfollowed(gs, k, j)) == Cut(Join(gs), p)
  {
    var t, a, b := Unfollowed(gs, k, j), Join(gs[..k]), Join(gs[k + 1..]);
    var h, fs := gs[k].head, gs[k].fs;
    var f, x, g := fs[..j], fs[j], fs[j + 1..];
    hide Join, Cut;
    JoinMid(gs, k);
    JoinMid(t, k);
    assert t[..k] == gs[..k] && t[k + 1..] == gs[k + 1..];
    assert fs == f + ([x] + g) && t[k] == Group(h, f + g);
    CutDeep(a, h, f, x, g, b);
  }

  lemma UnfollowSorted(comp: Comparator, gs: seq<Group>, k: nat, j: nat)
    requires Sorted(comp, gs) && k < |gs| && j < |gs[k].fs|
    ensures Sorted(comp, Unfollowed(gs, k, j))
  {
    var t := Unfollowed(gs, k, j);
    assert forall f :: f in t[k].fs ==> f in gs[k].fs;
    assert forall g :: g in t ==> g == t[k] || g in gs;
  }

  // The place of the group e.g in the traversal of the whole tree.
  lemma PlaceOf(d: Ctx, e: Shape) returns (k: nat)
    requires e.Bin?
    ensures var gs, a, b := InOrder(Plug(d, e)), Pre(d) + InOrder(e.l), InOrder(e.r) + Post(d);
      && k < |gs| && gs[k] == e.g && gs[..k] == a && gs[k + 1..] == b
      && gs[k..] == [e.g] + b && gs[..k + 1] == a + [e.g]
  {
    var a, b := Pre(d) + InOrder(e.l), InOrder(e.r) + Post(d);
    SamePlug(d, e);
    Around(Pre(d), InOrder(e.l), e.g, InOrder(e.r), Post(d));
    SplitAt(a, e.g, b);
    k := |a|;
  }

  // What a search that ended in e says about everything before and behind e.g.
  lemma Sides(comp: Comparator, key: Key, d: Ctx, e: Shape)
    requires Total(comp) && e.Bin? && Sorted(comp, InOrder(e))
    requires Above(comp, key, Pre(d)) && Under(comp, key, Post(d))
    requires comp(key, e.g.head.key) < 0 ==> e.l.Leaf?
    requires comp(key, e.g.head.key) > 0 ==> e.r.Leaf?
    ensures var diff, a, b := comp(key, e.g.head.key), Pre(d) + InOrder(e.l), InOrder(e.r) + Post(d);
      && Above(comp, key, a) && Under(comp, key, b)
      && (diff < 0 ==> Under(comp, key, [e.g] + b)) && (diff > 0 ==> Above(comp, key, a + [e.g]))
  {
    var a, b := Pre(d) + InOrder(e.l), InOrder(e.r) + Post(d);
    AboveConcat(comp, key, Pre(d), InOrder(e.l));
    AboveConcat(comp, key, InOrder(e.r), Post(d));
    AboveConcat(comp, key, a, [e.g]);
    AboveConcat(comp, key, [e.g], b);
    if comp(key, e.g.head.key) == 0 {
      StepHere(comp, key, e);
    } else if comp(key, e.g.head.key) < 0 {
      StepLeft(comp, key, e);
      AboveConcat(comp, key, [e.g], InOrder(e.r));
    } else {
      StepRight(comp, key, e);
      AboveConcat(comp, key, InOrder(e.l), [e.g]);
    }
  }

  // Where a search that ended in e leaves off, as a place in the list.
  lemma Landing(comp: Comparator, key: Key, d: Ctx, e: Shape) returns (k: nat)
    requires Total(comp) && e.Bin? && Sorted(comp, InOrder(e))
    requires Above(comp, key, Pre(d)) && Under(comp, key, Post(d))
    requires comp(key, e.g.head.key) < 0 ==> e.l.Leaf?
    requires comp(key, e.g.head.key) > 0 ==> e.r.Leaf?
    ensures var gs, diff := InOrder(Plug(d, e)), comp(key, e.g.head.key);
      && k < |gs| && gs[k] == e.g && gs[..k] == Pre(d) + InOrder(e.l) && gs[k + 1..] == InOrder(e.r) + Post(d)
      && (diff <= 0 ==> Above(comp, key, gs[..k])) && (diff < 0 ==> Under(comp, key, gs[k..]))
      && (diff >= 0 ==> Under(comp, key, gs[k + 1..])) && (diff > 0 ==> Above(comp, key, gs[..k + 1]))
  {
    k := PlaceOf(d, e);
    Sides(comp, key, d, e);
  }
}
