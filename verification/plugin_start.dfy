// src-api/core/oonf_subsystem.c: in which order plugins start, and how a start ends.
module PluginStarts {
  import opened Plugins
  import opened Sequences

  // How a start ends.
  datatype Fate = Up | Circular | Absent | ReloadRefused | InitRefused {
    function Code(): int {
      match this case Up => 0 case Circular => 1 case _ => -1
    }
  }

  // None of ps carries one of these marks.
  ghost predicate Spares(ps: seq<Plugin>, marks: set<Plugin>)
  {
    Elements(ps) !! marks
  }

  ghost function InitEvents(ps: seq<Plugin>): seq<Event>
  {
    seq(|ps|, i requires 0 <= i < |ps| => Init(ps[i]))
  }

  // The trace of a callback or reload that failed.
  ghost function Failure(fate: Fate, last: Plugin): seq<Event> {
    match fate case ReloadRefused => [ReloadFailed(last)] case InitRefused => [InitFailed(last)] case _ => []
  }

  // The marks a start leaves behind: none of its own when it succeeds, else those on the
  // path to the plugin that failed; that one keeps its mark only for a missing dependency.
  ghost function Marks(before: set<Plugin>, fate: Fate, path: seq<Plugin>): set<Plugin>
    requires path != []
  {
    var last := path[|path| - 1];
    match fate
    case Circular => before + Elements(path[..|path| - 1])
    case Absent => before + Elements(path)
    case _ => before + Elements(path[..|path| - 1]) - {last}
  }

  lemma MarksOne(before: set<Plugin>, p: Plugin, fate: Fate)
    requires fate != Circular
    ensures Marks(before, fate, [p]) == if fate == Absent then before + {p} else before - {p}
    ensures fate in {Up, Absent} ==> Failure(fate, p) == []
  {
    assert [p][..0] == [];
    assert Elements([p]) == {p};
  }

  lemma MarksTwo(before: set<Plugin>, p: Plugin, d: Plugin)
    ensures Marks(before, Circular, [p] + [d]) == before + {p}
  {
    assert ([p] + [d])[..1] == [p];
    assert Elements([p]) == {p};
  }

  lemma MarksCons(before: set<Plugin>, p: Plugin, fate: Fate, path: seq<Plugin>)
    requires path != []
    ensures Marks(before + {p}, fate, path) == Marks(before, fate, [p] + path)
  {
    var long := [p] + path;
    assert long[..|long| - 1] == [p] + path[..|path| - 1];
    ElementsCons(p, path);
    ElementsCons(p, path[..|path| - 1]);
    assert long[|long| - 1] == path[|path| - 1];
  }

  // Starting news one after the other, with running already up: each of them once,
  // and everything it asks for before it.
  ghost predicate StartOrder(fold: Fold, ps: seq<Plugin>, running: set<Plugin>, news: seq<Plugin>)
  {
    && NoDup(news) && (forall q :: q in news ==> q in ps && q !in running)
    && (forall i, k :: 0 <= i < |news| && 0 <= k < |news[i].dependencies| ==>
      var d := Get(fold, ps, news[i].dependencies[k]); d != null && (d in running || d in news[..i]))
  }

  lemma {:induction false} StartOrderAppend(fold: Fold, ps: seq<Plugin>, running: set<Plugin>, a: seq<Plugin>,
      b: seq<Plugin>)
    requires StartOrder(fold, ps, running, a) && StartOrder(fold, ps, running + Elements(a), b)
    ensures StartOrder(fold, ps, running, a + b) && Elements(a + b) == Elements(a) + Elements(b)
    ensures InitEvents(a + b) == InitEvents(a) + InitEvents(b)
  {
    var c := a + b;
    forall i, j | 0 <= i < j < |c| ensures c[i] != c[j] {
      if i < |a| <= j {
        assert c[i] in a && c[j] in b;
      }
    }
    forall i, k | 0 <= i < |c| && 0 <= k < |c[i].dependencies|
      ensures var d := Get(fold, ps, c[i].dependencies[k]); d != null && (d in running || d in c[..i])
    {
      var d := Get(fold, ps, c[i].dependencies[k]);
      if i < |a| {
        assert c[i] == a[i] && c[..i] == a[..i];
      } else {
        assert c[i] == b[i - |a|] && c[..i] == a + b[..i - |a|];
      }
    }
  }

  lemma StartOrderLast(fold: Fold, ps: seq<Plugin>, running: set<Plugin>, p: Plugin)
    requires p in ps && p !in running && Served(fold, ps, p, |p.dependencies|, running)
    ensures StartOrder(fold, ps, running, [p]) && Elements([p]) == {p} && InitEvents([p]) == [Init(p)]
  {
    hide Get;
  }

  lemma StartOrderNone(fold: Fold, ps: seq<Plugin>, running: set<Plugin>, marks: set<Plugin>)
    ensures StartOrder(fold, ps, running, []) && Elements([]) == {} && InitEvents([]) == []
    ensures Spares([], marks)
  {}

  lemma StartKeepsClosed(fold: Fold, ps: seq<Plugin>, running: set<Plugin>, news: seq<Plugin>)
    requires ClosedUnder(fold, ps, running) && StartOrder(fold, ps, running, news)
    ensures ClosedUnder(fold, ps, running + Elements(news))
  {
    forall p, i | p in Elements(news) && 0 <= i < |p.dependencies|
      ensures var d := Get(fold, ps, p.dependencies[i]); d != null && d in running + Elements(news)
    {
      var n :| 0 <= n < |news| && news[n] == p;
      var d := Get(fold, ps, news[n].dependencies[i]);
      assert d != null && (d in running || d in news[..n]);
    }
  }

  // A group that can be started: every dependency is present, in the group, and of lower rank.
  ghost predicate Startable(fold: Fold, ps: seq<Plugin>, group: set<Plugin>, rank: Plugin -> nat)
  {
    forall p, i :: p in group && 0 <= i < |p.dependencies| ==>
      var d := Get(fold, ps, p.dependencies[i]); d != null && d in group && rank(d) < rank(p)
  }

  lemma {:induction false} StartablePath(fold: Fold, ps: seq<Plugin>, group: set<Plugin>, rank: Plugin -> nat,
      path: seq<Plugin>, i: nat)
    requires Startable(fold, ps, group, rank) && Path(fold, ps, path) && path[0] in group && i < |path|
    ensures path[i] in group
    ensures forall j :: 0 <= j < i ==> rank(path[j]) > rank(path[i])
  {
    if i > 0 {
      StartablePath(fold, ps, group, rank, path, i - 1);
      assert DependsOn(fold, ps, path[i - 1], path[i]);
    }
  }

  lemma {:induction false} RankBound(ps: set<Plugin>, rank: Plugin -> nat) returns (m: nat)
    ensures forall p :: p in ps ==> rank(p) < m
  {
    m := 0;
    if ps != {} {
      var p :| p in ps;
      m := RankBound(ps - {p}, rank);
      m := if rank(p) < m then m else rank(p) + 1;
    }
  }

  function Place(ps: seq<Plugin>, p: Plugin): nat
  {
    if ps == [] || ps[0] == p then 0 else 1 + Place(ps[1..], p)
  }

  lemma {:induction false} PlaceBefore(ps: seq<Plugin>, p: Plugin, i: nat)
    requires i <= |ps| && p in ps[..i]
    ensures Place(ps, p) < i
  {
    if ps[0] != p {
      assert ps[..i][1..] == ps[1..][..i - 1];
      PlaceBefore(ps[1..], p, i - 1);
    }
  }

  lemma {:induction false} PlaceOf(ps: seq<Plugin>, p: Plugin)
    requires p in ps
    ensures Place(ps, p) < |ps| && ps[Place(ps, p)] == p
  {
    if ps[0] != p {
      PlaceOf(ps[1..], p);
    }
  }

  // When what runs can be ranked, it still can after a start.
  lemma StartKeepsRanked(fold: Fold, ps: seq<Plugin>, running: set<Plugin>, rank: Plugin -> nat, news: seq<Plugin>)
      returns (ranks: Plugin -> nat)
    requires Startable(fold, ps, running, rank) && StartOrder(fold, ps, running, news)
    ensures Startable(fold, ps, running + Elements(news), ranks)
  {
    var m := RankBound(running, rank);
    ranks := p => if p in running then rank(p) else m + Place(news, p);
    forall p, i | p in running + Elements(news) && 0 <= i < |p.dependencies|
      ensures var d := Get(fold, ps, p.dependencies[i]);
        d != null && d in running + Elements(news) && ranks(d) < ranks(p)
    {
      if p !in running {
        PlaceOf(news, p);
        var n := Place(news, p);
        var d := Get(fold, ps, news[n].dependencies[i]);
        assert d != null && (d in running || d in news[..n]);
        if d !in running {
          PlaceBefore(news, d, n);
        }
      }
    }
  }

  // No plugin whose dependencies lead back to one of them ever comes up.
  lemma CycleNeverUp(fold: Fold, ps: seq<Plugin>, running: set<Plugin>, rank: Plugin -> nat, news: seq<Plugin>,
      path: seq<Plugin>)
    requires Startable(fold, ps, running, rank) && StartOrder(fold, ps, running, news)
    requires Path(fold, ps, path) && path[0] in running + Elements(news)
    ensures path[|path| - 1] !in path[..|path| - 1]
  {
    var ranks := StartKeepsRanked(fold, ps, running, rank, news);
    StartablePath(fold, ps, running + Elements(news), ranks, path, |path| - 1);
  }

  // A group with all its dependencies.
  ghost predicate Complete(fold: Fold, ps: seq<Plugin>, group: set<Plugin>)
  {
    forall p, i :: p in group && 0 <= i < |p.dependencies| ==>
      var d := Get(fold, ps, p.dependencies[i]); d != null && d in group
  }

  lemma StartableComplete(fold: Fold, ps: seq<Plugin>, running: set<Plugin>, group: set<Plugin>, rank: Plugin -> nat)
    requires Startable(fold, ps, group, rank)
    ensures Complete(fold, ps, group)
    ensures ClosedUnder(fold, ps, running) ==> Startable(fold, ps, running * group, rank)
  {}

  lemma {:induction false} CompletePath(fold: Fold, ps: seq<Plugin>, group: set<Plugin>, path: seq<Plugin>)
    requires Complete(fold, ps, group) && Path(fold, ps, path) && path[0] in group
    ensures path[|path| - 1] in group
  {
    if |path| > 1 {
      assert DependsOn(fold, ps, path[0], path[1]);
      forall i | 0 <= i < |path| - 2 ensures DependsOn(fold, ps, path[1..][i], path[1..][i + 1]) {
        assert DependsOn(fold, ps, path[i + 1], path[i + 2]);
      }
      CompletePath(fold, ps, group, path[1..]);
    }
  }

  lemma CompleteLacksNot(fold: Fold, ps: seq<Plugin>, group: set<Plugin>, p: Plugin)
    requires Complete(fold, ps, group) && p in group
    ensures forall i :: 0 <= i < |p.dependencies| ==> Get(fold, ps, p.dependencies[i]) != null
  {}

  // What a start needs is in the group.
  lemma {:induction false} NeededWithin(fold: Fold, ps: seq<Plugin>, group: set<Plugin>, p: Plugin, news: seq<Plugin>)
    requires Complete(fold, ps, group) && Needed(fold, ps, p, news) && p in group
    ensures Elements(news) <= group
  {
    hide Complete, Needed;
    forall i | 0 <= i < |news| ensures news[i] in group {
      NeededAt(fold, ps, group, p, news, i);
    }
  }

  lemma {:induction false} NeededAt(fold: Fold, ps: seq<Plugin>, group: set<Plugin>, p: Plugin, news: seq<Plugin>, i: nat)
    requires Complete(fold, ps, group) && Needed(fold, ps, p, news) && p in group && i < |news|
    ensures news[i] in group
    decreases |news| - i
  {
    if news[i] != p && !DependsOn(fold, ps, p, news[i]) {
      var j :| i < j < |news| && DependsOn(fold, ps, news[j], news[i]);
      NeededAt(fold, ps, group, p, news, j);
    }
  }

  lemma StartOrderWithin(fold: Fold, ps: seq<Plugin>, running: set<Plugin>, group: set<Plugin>, news: seq<Plugin>)
    requires Complete(fold, ps, group) && StartOrder(fold, ps, running, news) && Elements(news) <= group
    ensures StartOrder(fold, ps, running * group, news)
  {
    hide NoDup;
    forall i, k | 0 <= i < |news| && 0 <= k < |news[i].dependencies|
      ensures var d := Get(fold, ps, news[i].dependencies[k]); d != null && (d in running * group || d in news[..i])
    {
      assert news[i] in Elements(news);
    }
  }

  // In a startable group a path runs into nothing but a mark.
  lemma StartableRunsInto(fold: Fold, ps: seq<Plugin>, group: set<Plugin>, rank: Plugin -> nat, marked: set<Plugin>,
      p: Plugin)
    requires Startable(fold, ps, group, rank) && p in group
    ensures forall way: seq<Plugin> :: Path(fold, ps, way) && way[0] == p ==>
      (RunsInto(marked, way) <==> |way| >= 2 && way[|way| - 1] in marked)
  {
    forall way: seq<Plugin> | Path(fold, ps, way) && way[0] == p
      ensures RunsInto(marked, way) <==> |way| >= 2 && way[|way| - 1] in marked
    {
      StartablePath(fold, ps, group, rank, way, |way| - 1);
    }
  }

  // Nothing is started that p does not need, itself or through another new one.
  ghost predicate Needed(fold: Fold, ps: seq<Plugin>, p: Plugin, news: seq<Plugin>)
  {
    forall i :: 0 <= i < |news| ==>
      news[i] == p || DependsOn(fold, ps, p, news[i]) || exists j :: i < j < |news| && DependsOn(fold, ps, news[j], news[i])
  }

  lemma NeededNone(fold: Fold, ps: seq<Plugin>, p: Plugin)
    ensures Needed(fold, ps, p, [])
  {}

  lemma NeededLast(fold: Fold, ps: seq<Plugin>, p: Plugin, news: seq<Plugin>)
    requires Needed(fold, ps, p, news)
    ensures Needed(fold, ps, p, news + [p])
  {
    var all := news + [p];
    forall i | 0 <= i < |news| && news[i] != p && !DependsOn(fold, ps, p, all[i])
      ensures exists j :: i < j < |all| && DependsOn(fold, ps, all[j], all[i])
    {
      var j :| i < j < |news| && DependsOn(fold, ps, news[j], news[i]);
      assert DependsOn(fold, ps, all[j], all[i]);
    }
  }

  // A dependency that came up brought in only what it needs itself.
  lemma NeededAppend(fold: Fold, ps: seq<Plugin>, p: Plugin, a: seq<Plugin>, d: Plugin, b: seq<Plugin>)
    requires Needed(fold, ps, p, a) && Needed(fold, ps, d, b) && DependsOn(fold, ps, p, d)
    requires b == [] || b[|b| - 1] == d
    ensures Needed(fold, ps, p, a + b)
  {
    var c := a + b;
    forall i | 0 <= i < |c|
      ensures c[i] == p || DependsOn(fold, ps, p, c[i]) || exists j :: i < j < |c| && DependsOn(fold, ps, c[j], c[i])
    {
      if i < |a| {
        assert c[i] == a[i];
        if a[i] != p && !DependsOn(fold, ps, p, a[i]) {
          var j :| i < j < |a| && DependsOn(fold, ps, a[j], a[i]);
          assert c[j] == a[j];
        }
      } else {
        var k := i - |a|;
        assert c[i] == b[k];
        if b[k] != d {
          if DependsOn(fold, ps, d, b[k]) {
            assert c[|c| - 1] == d && k < |b| - 1;
          } else {
            var j :| k < j < |b| && DependsOn(fold, ps, b[j], b[k]);
            assert c[|a| + j] == b[j];
          }
        }
      }
    }
  }

  // Where a path ends that was given up as circular: at a plugin that was marked before,
  // or at one the path has already been through.
  ghost predicate RunsInto(marked: set<Plugin>, path: seq<Plugin>)
  {
    |path| >= 2 && (path[|path| - 1] in marked || path[|path| - 1] in path[..|path| - 1])
  }

  lemma RunsIntoCons(marked: set<Plugin>, p: Plugin, path: seq<Plugin>)
    requires RunsInto(marked + {p}, path)
    ensures RunsInto(marked, [p] + path)
  {
    var long := [p] + path;
    assert long[|long| - 1] == path[|path| - 1];
    assert long[..|long| - 1] == [p] + path[..|path| - 1];
    assert long[0] == p && p in long[..|long| - 1];
  }

  lemma RunsIntoStart(marked: set<Plugin>, p: Plugin, d: Plugin)
    requires d in marked + {p}
    ensures RunsInto(marked, [p] + [d])
  {
    assert ([p] + [d])[..1] == [p];
  }

  // The first i dependencies of p are running.
  ghost predicate Served(fold: Fold, ps: seq<Plugin>, p: Plugin, i: nat, running: set<Plugin>)
    requires i <= |p.dependencies|
  {
    forall k :: 0 <= k < i ==> Get(fold, ps, p.dependencies[k]) in running
  }

  lemma ServedNone(fold: Fold, ps: seq<Plugin>, p: Plugin, running: set<Plugin>)
    ensures Served(fold, ps, p, 0, running)
  {}

  lemma ServedMore(fold: Fold, ps: seq<Plugin>, p: Plugin, i: nat, before: set<Plugin>, running: set<Plugin>)
    requires i < |p.dependencies| && Served(fold, ps, p, i, before) && before <= running
    requires Get(fold, ps, p.dependencies[i]) in running
    ensures Served(fold, ps, p, i + 1, running)
  {}

  lemma NotServed(fold: Fold, ps: seq<Plugin>, p: Plugin)
    requires p.dependencies != []
    ensures !Served(fold, ps, p, |p.dependencies|, {})
  {
    assert Get(fold, ps, p.dependencies[0]) !in {};
  }
}
