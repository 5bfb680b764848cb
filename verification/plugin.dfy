// src-api/core/oonf_subsystem.c: the tree of plugins and what they ask for.
module Plugins {
  import opened Sequences

  type Name(==, !new)

  datatype Event = Init(p: Plugin) | InitFailed(p: Plugin) | ReloadFailed(p: Plugin) | Cleanup(p: Plugin)

  class Plugin {
    const name: Name
    const dependencies: seq<Name>
    const canCleanup: bool
    const dynamic: bool    // _dlhandle is set
    var initialized: bool
    var dependencyMissing: bool
    ghost var stamp: nat   // when it was started

    constructor (name: Name, dependencies: seq<Name>, canCleanup: bool, dynamic: bool)
      ensures this.name == name && this.dependencies == dependencies
      ensures this.canCleanup == canCleanup && this.dynamic == dynamic
      ensures !initialized && !dependencyMissing
    {
      this.name, this.dependencies, this.canCleanup, this.dynamic := name, dependencies, canCleanup, dynamic;
      initialized, dependencyMissing := false, false;
    }
  }

  type Fold = Name -> Name

  // oonf_subsystem_get: the tree compares names without regard to case
  function Get(fold: Fold, ps: seq<Plugin>, name: Name): Plugin?
  {
    if ps == [] then null
    else if fold(ps[0].name) == fold(name) then ps[0]
    else Get(fold, ps[1..], name)
  }

  lemma {:induction false} GetIn(fold: Fold, ps: seq<Plugin>, name: Name)
    ensures Get(fold, ps, name) != null ==> Get(fold, ps, name) in ps
  {
    if ps != [] {
      GetIn(fold, ps[1..], name);
    }
  }

  ghost predicate Keyed(fold: Fold, ps: seq<Plugin>)
  {
    forall i, j :: 0 <= i < j < |ps| ==> fold(ps[i].name) != fold(ps[j].name)
  }

  lemma {:induction false} GetOwn(fold: Fold, ps: seq<Plugin>, p: Plugin, name: Name)
    requires Keyed(fold, ps) && p in ps && fold(p.name) == fold(name)
    ensures Get(fold, ps, name) == p
  {
    if p != ps[0] {
      assert p in ps[1..];
      var j :| 0 < j < |ps| && ps[j] == p;
      assert fold(ps[0].name) != fold(ps[j].name);
      GetOwn(fold, ps[1..], p, name);
    }
  }

  // p asks for d, as the start finds it.
  ghost predicate DependsOn(fold: Fold, ps: seq<Plugin>, p: Plugin, d: Plugin)
  {
    exists i :: 0 <= i < |p.dependencies| && Get(fold, ps, p.dependencies[i]) == d
  }

  // p asks for d, as the cleanup finds it.
  predicate Spells(p: Plugin, d: Plugin)
  {
    d.name in p.dependencies
  }

  ghost predicate Path(fold: Fold, ps: seq<Plugin>, path: seq<Plugin>)
  {
    && path != []
    && forall i :: 0 <= i < |path| - 1 ==> DependsOn(fold, ps, path[i], path[i + 1])
  }

  ghost function Elements(ps: seq<Plugin>): set<Plugin>
  {
    set p | p in ps
  }

  lemma ElementsCons(p: Plugin, ps: seq<Plugin>)
    ensures Elements([p] + ps) == {p} + Elements(ps)
  {}

  ghost predicate ClosedUnder(fold: Fold, ps: seq<Plugin>, running: set<Plugin>)
  {
    forall p, i :: p in running && 0 <= i < |p.dependencies| ==>
      var d := Get(fold, ps, p.dependencies[i]); d != null && d in running
  }

  // With the running plugins closed under dependencies, all that a running one needs runs.
  lemma {:induction false} ClosedReaches(fold: Fold, ps: seq<Plugin>, running: set<Plugin>, path: seq<Plugin>)
    requires ClosedUnder(fold, ps, running) && Path(fold, ps, path) && path[0] in running
    ensures path[|path| - 1] in running
  {
    if |path| > 1 {
      assert DependsOn(fold, ps, path[0], path[1]);
      forall i | 0 <= i < |path| - 2 ensures DependsOn(fold, ps, path[1..][i], path[1..][i + 1]) {
        assert DependsOn(fold, ps, path[i + 1], path[i + 2]);
      }
      ClosedReaches(fold, ps, running, path[1..]);
    }
  }

  lemma PathOne(fold: Fold, ps: seq<Plugin>, p: Plugin)
    ensures Path(fold, ps, [p])
  {}

  lemma Asks(fold: Fold, ps: seq<Plugin>, p: Plugin, i: nat)
    requires i < |p.dependencies| && Get(fold, ps, p.dependencies[i]) != null
    ensures DependsOn(fold, ps, p, Get(fold, ps, p.dependencies[i]))
  {}

  // A path grows at the front.
  lemma PathCons(fold: Fold, ps: seq<Plugin>, p: Plugin, path: seq<Plugin>)
    requires Path(fold, ps, path) && DependsOn(fold, ps, p, path[0])
    ensures Path(fold, ps, [p] + path)
  {
    var long := [p] + path;
    forall i | 0 <= i < |long| - 1 ensures DependsOn(fold, ps, long[i], long[i + 1]) {
      assert i > 0 ==> DependsOn(fold, ps, path[i - 1], path[i]);
    }
  }

  lemma {:induction false} GetFolds(fold: Fold, ps: seq<Plugin>, name: Name)
    ensures var d := Get(fold, ps, name); d != null ==> fold(d.name) == fold(name) && d in ps
  {
    if ps != [] {
      GetFolds(fold, ps[1..], name);
    }
  }

  lemma {:induction false} WithoutListed(fold: Fold, ps: seq<Plugin>, p: Plugin)
    requires Keyed(fold, ps) && p in ps
    ensures Keyed(fold, Without(ps, p)) && |Without(ps, p)| == |ps| - 1
    ensures forall q :: q in Without(ps, p) ==> q in ps && q != p
    ensures forall q :: q in ps && q != p ==> q in Without(ps, p)
  {
    if ps[0] == p {
      assert forall j :: 0 < j < |ps| ==> fold(ps[0].name) != fold(ps[j].name);
    } else {
      WithoutListed(fold, ps[1..], p);
      KeyedCons(fold, ps, Without(ps[1..], p));
    }
  }

  lemma KeyedCons(fold: Fold, ps: seq<Plugin>, rest: seq<Plugin>)
    requires ps != [] && Keyed(fold, ps) && Keyed(fold, rest) && forall q :: q in rest ==> q in ps[1..]
    ensures Keyed(fold, [ps[0]] + rest)
  {
    forall j | 0 <= j < |rest| ensures fold(ps[0].name) != fold(rest[j].name) {
      assert rest[j] in ps[1..];
      var k :| 0 < k < |ps| && ps[k] == rest[j];
    }
  }

  lemma {:induction false} GetWithout(fold: Fold, ps: seq<Plugin>, p: Plugin, name: Name)
    requires Keyed(fold, ps) && p in ps
    ensures Get(fold, Without(ps, p), name) == if Get(fold, ps, name) == p then null else Get(fold, ps, name)
  {
    WithoutListed(fold, ps, p);
    if ps[0] == p {
      GetIn(fold, ps[1..], name);
      if fold(p.name) == fold(name) && Get(fold, ps[1..], name) != null {
        GetFolds(fold, ps[1..], name);
      }
    } else {
      GetWithout(fold, ps[1..], p, name);
    }
  }

  function Inserted(ps: seq<Plugin>, at: nat, p: Plugin): seq<Plugin>
    requires at <= |ps|
  {
    ps[..at] + [p] + ps[at..]
  }

  lemma InsertedIs(ps: seq<Plugin>, at: nat, p: Plugin)
    requires at <= |ps|
    ensures at == 0 ==> Inserted(ps, at, p) == [p] + ps
    ensures at > 0 ==> Inserted(ps, at, p) == [ps[0]] + Inserted(ps[1..], at - 1, p)
  {}

  lemma GetCons(fold: Fold, p: Plugin, ps: seq<Plugin>, name: Name)
    ensures Get(fold, [p] + ps, name) == if fold(p.name) == fold(name) then p else Get(fold, ps, name)
  {
    assert ([p] + ps)[1..] == ps;
  }

  lemma {:induction false} GetInserted(fold: Fold, ps: seq<Plugin>, at: nat, p: Plugin, name: Name)
    requires at <= |ps| && Get(fold, ps, p.name) == null
    ensures Get(fold, Inserted(ps, at, p), name) ==
      if Get(fold, ps, name) != null then Get(fold, ps, name) else if fold(p.name) == fold(name) then p else null
    decreases at
  {
    hide Get, Inserted;
    InsertedIs(ps, at, p);
    if at == 0 {
      GetCons(fold, p, ps, name);
      if fold(p.name) == fold(name) {
        GetSame(fold, ps, p.name, name);
      }
    } else {
      assert ps == [ps[0]] + ps[1..];
      GetCons(fold, ps[0], ps[1..], name);
      GetCons(fold, ps[0], ps[1..], p.name);
      GetCons(fold, ps[0], Inserted(ps[1..], at - 1, p), name);
      GetInserted(fold, ps[1..], at - 1, p, name);
    }
  }

  lemma {:induction false} GetSame(fold: Fold, ps: seq<Plugin>, a: Name, b: Name)
    requires fold(a) == fold(b)
    ensures Get(fold, ps, a) == Get(fold, ps, b)
  {
    if ps != [] {
      GetSame(fold, ps[1..], a, b);
    }
  }

  lemma KeyedInserted(fold: Fold, ps: seq<Plugin>, at: nat, p: Plugin)
    requires at <= |ps| && Keyed(fold, ps) && Get(fold, ps, p.name) == null
    ensures Keyed(fold, Inserted(ps, at, p)) && forall q :: q in Inserted(ps, at, p) ==> q in ps || q == p
    ensures forall q :: q in ps ==> q in Inserted(ps, at, p)
  {
    hide Get, Keyed;
    assert ps == ps[..at] + ps[at..];
    forall q | q in ps ensures fold(q.name) != fold(p.name) {
      if fold(q.name) == fold(p.name) {
        GetOwn(fold, ps, q, p.name);
      }
    }
    KeyedApart(fold, ps, at, p);
  }

  lemma KeyedApart(fold: Fold, ps: seq<Plugin>, at: nat, p: Plugin)
    requires at <= |ps| && Keyed(fold, ps) && forall q :: q in ps ==> fold(q.name) != fold(p.name)
    ensures Keyed(fold, Inserted(ps, at, p))
  {
    var w := Inserted(ps, at, p);
    forall i, j | 0 <= i < j < |w| ensures fold(w[i].name) != fold(w[j].name) {
      var k, l := if i < at then i else i - 1, if j < at then j else j - 1;
      if i == at {
        assert w[j] == ps[l];
      } else if j == at {
        assert w[i] == ps[k];
      } else {
        assert w[i] == ps[k] && w[j] == ps[l] && k < l;
      }
    }
  }

  // A plugin that is not running can go without touching what the running ones need.
  lemma ClosedWithout(fold: Fold, ps: seq<Plugin>, p: Plugin, before: set<Plugin>, running: set<Plugin>)
    requires Keyed(fold, ps) && p in ps && p !in running && running <= before && ClosedUnder(fold, ps, before)
    ensures ClosedUnder(fold, Without(ps, p), running) <==> ClosedUnder(fold, ps, running)
  {
    forall q, i | q in running && 0 <= i < |q.dependencies|
      ensures var d := Get(fold, ps, q.dependencies[i]);
        Get(fold, Without(ps, p), q.dependencies[i]) == if d == p then null else d
    {
      GetWithout(fold, ps, p, q.dependencies[i]);
    }
  }
}
