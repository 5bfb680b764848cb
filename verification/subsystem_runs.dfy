// src-api/core/oonf_subsystem.c: whole runs that show where starting and cleaning up part ways.
module SubsystemRuns {
  import opened Options
  import opened PluginCleanups
  import opened PluginStarts
  import opened Plugins
  import opened Sequences
  import opened Subsystems

  // A dependency in another spelling: the start finds it, and unloading it leaves the plugin
  // that asks for it running without it.
  method Misspelt(fold: Fold, name: Name, spelling: Name, user: Name) returns (first: int, second: int, core: Core, p: Plugin)
    requires name != spelling && fold(name) == fold(spelling) && fold(user) != fold(name)
    ensures first == 0 && second == 0 && core.Running() == {p} && !core.Closed()
  {
    hide Keyed, Get, StartOrder, Startable, Path, Needed, Doomed, DoomSpreads, CleanupOrder, Without, Elements,
      InitEvents, CleanupEvents, ClosedUnder, Exact;
    var d := new Plugin(name, [], true, false);
    p := new Plugin(user, [spelling], true, false);
    ghost var rank := Spelling(fold, p, d);
    core := new Core(fold, _ => false, _ => false, [p, d]);
    first, second := Strand(core, p, d, rank);
  }

  lemma Spelling(fold: Fold, p: Plugin, d: Plugin) returns (rank: Plugin -> nat)
    requires d.dependencies == [] && |p.dependencies| == 1 && fold(p.dependencies[0]) == fold(d.name)
    requires fold(p.name) != fold(d.name) && p.dependencies[0] != d.name
    ensures var ps := [p, d];
      && Keyed(fold, ps) && Elements(ps) == {p, d} && Startable(fold, ps, {p, d}, rank) && DependsOn(fold, ps, p, d)
      && !Spells(p, d) && !Spells(p, p)
  {
    rank := q => if q == d then 0 else 1;
    assert Get(fold, [p, d], p.dependencies[0]) == d;
  }

  method Strand(core: Core, p: Plugin, d: Plugin, ghost rank: Plugin -> nat) returns (first: int, second: int)
    requires core.Inv() && core.Ordered() && core.Closed() && core.plugins == [p, d]
    requires forall q :: q in core.plugins ==> !q.initialized && !q.dependencyMissing
    requires Startable(core.fold, core.plugins, {p, d}, rank) && DependsOn(core.fold, core.plugins, p, d)
    requires p != d && !Spells(p, d) && !Spells(p, p) && d.canCleanup
    requires forall n :: !core.initFails(n) && !core.reloadFails(n)
    modifies core, core.plugins
    ensures first == 0 && second == 0 && core.Running() == {p} && !core.Closed() && core.plugins == [p] && core.Inv()
  {
    hide Keyed, Get, StartOrder, Startable, Path, Needed, DependsOn, Doomed, DoomSpreads, CleanupOrder, Without, Elements,
      InitEvents, CleanupEvents, ClosedUnder, Exact, Spells;
    Fresh(core, p);
    ghost var news, path, cs;
    first, news, path := core.CallInit(p, {p, d}, rank);
    BothUp(core, p, d);
    core.OrderedRingless();
    second, cs := core.UnloadPlugin(d, false);
    OnlyDoomed(core.fold, [p, d], p, d, cs);
    WithoutMiddle([p], d, []);
    assert [p] + [d] + [] == [p, d] && [p] + [] == [p];
  }

  lemma BothUp(core: Core, p: Plugin, d: Plugin)
    requires core.Closed() && core.plugins in {[p, d], [d, p]} && p in core.Running() && DependsOn(core.fold, core.plugins, p, d)
    ensures core.Running() == {p, d}
  {}

  lemma OnlyDoomed(fold: Fold, ps: seq<Plugin>, p: Plugin, d: Plugin, cs: seq<Plugin>)
    requires DependsOn(fold, ps, p, d) && p != d && !Spells(p, d) && !Spells(p, p)
    requires forall x :: x in cs <==> Doomed({p, d}, d, x)
    ensures Elements(cs) == {d} && !DoomSpreads(fold, ps, {p, d}, d)
  {
    assert Leads({p, d}, d, d, 0);
    assert forall n :: !Leads({p, d}, p, d, n);
    assert forall n, x :: Leads({p, d}, x, d, n) ==> x in {p, d};
  }

  // A plugin that joins under the lost name and asks for the one that lost it: a circle of
  // names, and from then on the cleanup of the two never returns.
  method Revived(fold: Fold, name: Name, spelling: Name, user: Name) returns (third: int, core: Core, p: Plugin)
    requires name != spelling && fold(name) == fold(spelling) && fold(user) != fold(name)
    ensures third == 0 && p in core.Running() && !Unringed(core.Running(), p)
    ensures forall fuel: nat :: Sweep(core.Running(), core.plugins, p, fuel) == None
  {
    hide Keyed, StartOrder, Startable, Path, Needed, Doomed, DoomSpreads, CleanupOrder, Without, Elements, InitEvents,
      CleanupEvents, ClosedUnder, Exact, Sweep, Unringed, Get, Ring;
    var d := new Plugin(name, [], true, false);
    p := new Plugin(user, [spelling], true, false);
    ghost var rank := Spelling(fold, p, d);
    core := new Core(fold, _ => false, _ => false, [p, d]);
    var first, second := Strand(core, p, d, rank);
    var e := new Plugin(spelling, [user], true, false);
    Newcomer(fold, p, e);
    core.Hook(e, 0);
    third := Rejoin(core, p, e);
    RingOfTwo(core.Running(), core.plugins, p, e);
  }

  lemma Newcomer(fold: Fold, p: Plugin, e: Plugin)
    requires fold(e.name) != fold(p.name) && e.dependencies == [p.name]
    ensures Get(fold, [p], e.name) == null && Inserted([p], 0, e) == [e, p]
    ensures Get(fold, [e, p], p.name) == p
  {}

  method Rejoin(core: Core, p: Plugin, e: Plugin) returns (result: int)
    requires core.Inv() && core.plugins == [e, p] && p != e && core.Running() == {p}
    requires e.dependencies == [p.name] && Get(core.fold, core.plugins, p.name) == p
    requires forall n :: !core.initFails(n) && !core.reloadFails(n)
    modifies core`attempts, core`events, core`clock, core.plugins
    ensures result == 0 && core.Running() == {p, e}
  {
    hide Keyed, Get, StartOrder, Startable, Needed, Marks, DependsOn, Served, Failure, InitEvents;
    ghost var marked := core.Marked();
    ghost var fate, news, path;
    result, fate, news, path := core.InitPlugin(e);
    NoWayBack(core, p, e, fate, marked, path);
    TwoUp(core, p, e);
  }

  lemma NoWayBack(core: Core, p: Plugin, e: Plugin, fate: Fate, marked: set<Plugin>, path: seq<Plugin>)
    requires e.dependencies == [p.name] && Get(core.fold, core.plugins, p.name) == p
    requires forall n :: !core.initFails(n) && !core.reloadFails(n)
    requires path != [] && path[0] == e && Path(core.fold, core.plugins, path) && core.Reason(fate, marked, path)
    requires fate != Up ==> Spares(path, {p})
    ensures fate == Up
  {
    if |path| > 1 {
      assert DependsOn(core.fold, core.plugins, path[0], path[1]);
      assert path[1] == p;
    }
  }

  lemma TwoUp(core: Core, p: Plugin, e: Plugin)
    requires core.plugins == [e, p] && p in core.Running() && e in core.Running()
    ensures core.Running() == {p, e}
  {}

  lemma RingOfTwo(running: set<Plugin>, ps: seq<Plugin>, p: Plugin, e: Plugin)
    requires running == {p, e} && p in ps && e in ps && Spells(p, e) && Spells(e, p)
    ensures !Unringed(running, p) && forall fuel: nat :: Sweep(running, ps, p, fuel) == None
  {
    hide Sweep, Unringed;
    assert Ring(running);
    assert running <= Elements(ps);
    forall fuel: nat ensures Sweep(running, ps, p, fuel) == None {
      if Sweep(running, ps, p, fuel).Some? {
        RingStays(running, ps, p, fuel, running);
      }
    }
    ReturnsIff(running, ps, p);
  }

  // The final loop with a dependency in another spelling at the front of the tree: it goes
  // before the plugin that asks for it.
  method FinalLoop(fold: Fold, name: Name, spelling: Name, user: Name)
      returns (core: Core, p: Plugin, d: Plugin, ghost log: seq<Event>)
    requires name != spelling && fold(name) == fold(spelling) && fold(user) != fold(name)
    ensures DependsOn(fold, [d, p], p, d) && core.plugins == []
    ensures core.events == log + [Cleanup(d), Cleanup(p)]
  {
    hide Keyed, Get, StartOrder, Startable, Path, Needed, Doomed, DoomSpreads, CleanupOrder, Without, Elements,
      InitEvents, ClosedUnder, Exact, Sweep, SweepTree, Ringless, AskersLead, DependentsFirst, DependsOn;
    d := new Plugin(name, [], true, false);
    p := new Plugin(user, [spelling], true, false);
    ghost var rank := FrontSpelling(fold, p, d);
    core := new Core(fold, _ => false, _ => false, [d, p]);
    log := Finish(core, p, d, rank);
  }

  lemma FrontSpelling(fold: Fold, p: Plugin, d: Plugin) returns (rank: Plugin -> nat)
    requires d.dependencies == [] && |p.dependencies| == 1 && fold(p.dependencies[0]) == fold(d.name)
    requires fold(p.name) != fold(d.name) && p.dependencies[0] != d.name
    ensures var ps := [d, p];
      && Keyed(fold, ps) && Elements(ps) == {p, d} && Startable(fold, ps, {p, d}, rank) && DependsOn(fold, ps, p, d)
      && !Spells(p, d) && !Spells(p, p)
  {
    rank := q => if q == d then 0 else 1;
    assert Get(fold, [d, p], p.dependencies[0]) == d;
  }

  method Finish(core: Core, p: Plugin, d: Plugin, ghost rank: Plugin -> nat) returns (ghost log: seq<Event>)
    requires core.Inv() && core.Ordered() && core.Closed() && core.plugins == [d, p]
    requires forall q :: q in core.plugins ==> !q.initialized && !q.dependencyMissing
    requires Startable(core.fold, core.plugins, {p, d}, rank) && DependsOn(core.fold, core.plugins, p, d)
    requires p != d && !Spells(p, d) && !Spells(p, p) && d.dependencies == []
    requires forall n :: !core.initFails(n) && !core.reloadFails(n)
    modifies core, core.plugins
    ensures core.plugins == [] && core.events == log + [Cleanup(d), Cleanup(p)]
  {
    hide Keyed, Get, StartOrder, Startable, Path, Needed, DependsOn, Doomed, DoomSpreads, CleanupOrder,
      InitEvents, ClosedUnder, Exact, Sweep, SweepTree, Ringless, AskersLead, DependentsFirst;
    Fresh(core, p);
    ghost var first, news, path;
    first, news, path := core.CallInit(p, {p, d}, rank);
    BothUp(core, p, d);
    core.OrderedRingless();
    log := core.events;
    ghost var cs := core.SubsystemCleanup();
    FrontGoes(p, d, cs);
  }

  lemma {:induction false} NoCalls(running: set<Plugin>, ps: seq<Plugin>, rest: seq<Plugin>, x: Plugin, fuel: nat)
    requires forall r :: r in rest ==> !Spells(r, x)
    ensures SweepAll(running, ps, rest, x, fuel) == Some([])
  {
    hide Spells;
    if rest != [] {
      NoCalls(running, ps, rest[1..], x, fuel);
    }
  }

  lemma AloneGoes(running: set<Plugin>, ps: seq<Plugin>, x: Plugin, fuel: nat)
    requires (forall r :: r in ps ==> !Spells(r, x)) && x in running && Sweep(running, ps, x, fuel).Some?
    ensures Sweep(running, ps, x, fuel) == Some([x])
  {
    SweepIs(running, ps, x, fuel);
    NoCalls(running, ps, ps, x, fuel - 1);
    assert [] + [x] == [x];
  }

  lemma FrontGoes(p: Plugin, d: Plugin, cs: seq<Plugin>)
    requires SweepsTree({p, d}, [d, p], cs) && p != d && !Spells(p, d) && !Spells(p, p) && d.dependencies == []
    ensures cs == [d, p] && CleanupEvents(cs) == [Cleanup(d), Cleanup(p)]
  {
    hide Sweep, SweepTree;
    var fuel: nat :| SweepTree({p, d}, [d, p], fuel) == Some(cs);
    SweepTreeIs({p, d}, [d, p], fuel);
    AloneGoes({p, d}, [d, p], d, fuel);
    assert {p, d} - Elements([d]) == {p} && [d, p][1..] == [p];
    SweepTreeIs({p}, [p], fuel);
    AloneGoes({p}, [p], p, fuel);
    assert [p][1..] == [];
    SweepTreeIs({p} - Elements([p]), [], fuel);
  }

  // Two plugins ask for low, and user asks for the first of them in another spelling and for
  // the second. Everything goes with low, but the first goes while user is still running.
  method Transient(fold: Fold, low: Name, one: Name, other: Name, two: Name, user: Name)
      returns (core: Core, d1: Plugin, d2: Plugin, u: Plugin, x: Plugin, ghost log: seq<Event>)
    requires other != one && fold(other) == fold(one)
    requires fold(low) !in {fold(one), fold(two), fold(user)} && fold(one) !in {fold(two), fold(user)} &&
      fold(two) != fold(user)
    ensures DependsOn(fold, [d1, d2, u, x], u, d1) && core.Running() == {} && core.Closed()
    ensures core.events == log + [Cleanup(d1), Cleanup(u), Cleanup(d2), Cleanup(x)]
  {
    hide Keyed, Get, StartOrder, Startable, Path, Needed, Doomed, DoomSpreads, CleanupOrder, Without, Elements,
      InitEvents, ClosedUnder, Exact, Sweep, AskersLead, DependentsFirst, DependsOn;
    x := new Plugin(low, [], true, false);
    d1 := new Plugin(one, [low], true, false);
    d2 := new Plugin(two, [low], true, false);
    u := new Plugin(user, [two, other], true, false);
    ghost var rank := Diamond(fold, d1, d2, u, x);
    core := new Core(fold, _ => false, _ => false, [d1, d2, u, x]);
    log := Down(core, d1, d2, u, x, rank);
  }

  // Who names whom.
  ghost predicate IsDiamond(d1: Plugin, d2: Plugin, u: Plugin, x: Plugin)
  {
    && d1 !in {d2, u, x} && d2 !in {u, x} && u != x
    && Spells(d1, x) && Spells(d2, x) && !Spells(u, x) && Spells(u, d2)
    && (forall q :: q in {d1, d2, u, x} ==> !Spells(q, d1))
  }

  lemma Diamond(fold: Fold, d1: Plugin, d2: Plugin, u: Plugin, x: Plugin) returns (rank: Plugin -> nat)
    requires x.dependencies == [] && d1.dependencies == [x.name] && d2.dependencies == [x.name]
    requires |u.dependencies| == 2 && u.dependencies[0] == d2.name
    requires u.dependencies[1] != d1.name && fold(u.dependencies[1]) == fold(d1.name)
    requires Keyed(fold, [d1, d2, u, x])
    ensures var ps := [d1, d2, u, x];
      && Elements(ps) == {d1, d2, u, x} && Startable(fold, ps, {d1, d2, u, x}, rank)
      && DependsOn(fold, ps, u, d1) && DependsOn(fold, ps, u, d2) && DependsOn(fold, ps, d2, x) && IsDiamond(d1, d2, u, x)
  {
    var ps := [d1, d2, u, x];
    rank := q => if q == x then 0 else if q == u then 2 else 1;
    assert ps[0] == d1 && ps[1] == d2 && ps[2] == u && ps[3] == x;
    GetOwn(fold, ps, x, x.name);
    GetOwn(fold, ps, d2, d2.name);
    GetOwn(fold, ps, d1, u.dependencies[1]);
    assert fold(ps[0].name) != fold(ps[1].name) && fold(ps[0].name) != fold(ps[3].name);
    assert u.dependencies == [d2.name, u.dependencies[1]];
    assert Get(fold, ps, d2.dependencies[0]) == x;
  }

  method Down(core: Core, d1: Plugin, d2: Plugin, u: Plugin, x: Plugin, ghost rank: Plugin -> nat)
      returns (ghost log: seq<Event>)
    requires core.Inv() && core.Ordered() && core.Closed() && core.plugins == [d1, d2, u, x]
    requires forall q :: q in core.plugins ==> !q.initialized && !q.dependencyMissing
    requires Startable(core.fold, core.plugins, {d1, d2, u, x}, rank) && IsDiamond(d1, d2, u, x) && x.canCleanup
    requires DependsOn(core.fold, core.plugins, u, d1) && DependsOn(core.fold, core.plugins, u, d2)
    requires DependsOn(core.fold, core.plugins, d2, x)
    requires forall n :: !core.initFails(n) && !core.reloadFails(n)
    modifies core, core.plugins
    ensures core.Running() == {} && core.Closed()
    ensures core.events == log + [Cleanup(d1), Cleanup(u), Cleanup(d2), Cleanup(x)]
  {
    hide Keyed, Get, StartOrder, Startable, Path, Needed, DependsOn, Doomed, DoomSpreads, CleanupOrder, Elements,
      InitEvents, ClosedUnder, Exact, Sweep, AskersLead, DependentsFirst, IsDiamond;
    Fresh(core, u);
    ghost var first, news, path;
    first, news, path := core.CallInit(u, {d1, d2, u, x}, rank);
    AllUp(core, d1, d2, u, x);
    core.OrderedRingless();
    log := core.events;
    var second;
    ghost var cs;
    second, cs := core.UnloadPlugin(x, false);
    DiamondGoes(d1, d2, u, x, cs);
    NoneUp(core);
  }

  lemma AllUp(core: Core, d1: Plugin, d2: Plugin, u: Plugin, x: Plugin)
    requires core.Closed() && core.plugins == [d1, d2, u, x] && u in core.Running()
    requires DependsOn(core.fold, core.plugins, u, d1) && DependsOn(core.fold, core.plugins, u, d2)
    requires DependsOn(core.fold, core.plugins, d2, x)
    ensures core.Running() == {d1, d2, u, x}
  {}

  lemma NoneUp(core: Core)
    requires core.Running() == {}
    ensures core.Closed()
  {}

  lemma DiamondGoes(d1: Plugin, d2: Plugin, u: Plugin, x: Plugin, cs: seq<Plugin>)
    requires IsDiamond(d1, d2, u, x) && Sweeps({d1, d2, u, x}, [d1, d2, u, x], x, cs)
    ensures cs == [d1, u, d2, x] && CleanupEvents(cs) == [Cleanup(d1), Cleanup(u), Cleanup(d2), Cleanup(x)]
    ensures {d1, d2, u, x} - Elements(cs) == {}
  {
    hide Sweep, SweepAll, Spells, Caused;
    var all, ps := {d1, d2, u, x}, [d1, d2, u, x];
    var fuel: nat :| Sweep(all, ps, x, fuel) == Some(cs);
    assert all <= Elements(ps);
    SweepOrder(all, ps, x, fuel);
    SweepIs(all, ps, x, fuel);
    FirstCall(all, ps, ps, x, fuel - 1, 0);
    AloneGoes(all, ps, d1, fuel - 1);
    assert cs[0] == d1;
    BeforeOne(all, cs, d2, x);
    BeforeOne(all, cs, u, d2);
    OnlyOne(d1, d2, u, x, cs);
  }

  lemma OnlyOne(d1: Plugin, d2: Plugin, u: Plugin, x: Plugin, cs: seq<Plugin>)
    requires NoDup(cs) && (forall c :: c in cs ==> c in {d1, d2, u, x})
    requires |cs| > 0 && cs[0] == d1 && cs[|cs| - 1] == x && Before(cs, d2, x) && Before(cs, u, d2)
    requires d1 !in {d2, u, x} && d2 !in {u, x} && u != x
    ensures cs == [d1, u, d2, x]
  {
    var i, j :| 0 <= i < j < |cs| && cs[i] == u && cs[j] == d2;
    Middle(d1, d2, u, x, cs, i, j, 1);
    Middle(d1, d2, u, x, cs, i, j, 2);
    if 3 < |cs| - 1 {
      Middle(d1, d2, u, x, cs, i, j, 3);
    }
  }

  lemma Middle(d1: Plugin, d2: Plugin, u: Plugin, x: Plugin, cs: seq<Plugin>, i: nat, j: nat, k: nat)
    requires NoDup(cs) && (forall c :: c in cs ==> c in {d1, d2, u, x}) && 0 < k < |cs| - 1
    requires cs[0] == d1 && cs[|cs| - 1] == x && i < |cs| && j < |cs| && cs[i] == u && cs[j] == d2
    ensures k == i || k == j
  {
    assert cs[k] in cs;
  }

  // A failed callback leaves marks behind, and the next start takes them for a circle.
  method StaleMark(fold: Fold, low: Name, mid: Name, top: Name) returns (first: int, second: int, core: Core)
    requires fold(low) != fold(mid) && fold(mid) != fold(top) && fold(low) != fold(top)
    ensures first == -1 && second == 1
    ensures exists rank :: Startable(fold, core.plugins, Elements(core.plugins), rank)
  {
    hide Keyed, Get, StartOrder, Startable, Path, Needed, Marks, Spares, DependsOn, Served, Failure, Elements, InitEvents;
    var a := new Plugin(low, [], true, false);
    var b := new Plugin(mid, [low], true, false);
    var c := new Plugin(top, [mid], true, false);
    ghost var rank := Ladder(fold, a, b, c);
    core := new Core(fold, _ => false, n => n == 1, [a, b, c]);
    first, second := Restart(core, b, c, rank);
    assert Startable(fold, core.plugins, Elements(core.plugins), rank);
  }

  method Restart(core: Core, p: Plugin, c: Plugin, ghost rank: Plugin -> nat) returns (first: int, second: int)
    requires core.Inv() && forall q :: q in core.plugins ==> !q.initialized && !q.dependencyMissing
    requires Startable(core.fold, core.plugins, Elements(core.plugins), rank)
    requires p in core.plugins && c in core.plugins && p != c && p.dependencies != []
    requires DependsOn(core.fold, core.plugins, c, p)
    requires core.attempts == 0 && (forall n :: core.initFails(n) <==> n == 1) && (forall n :: !core.reloadFails(n))
    modifies core`attempts, core`events, core`clock, core.plugins
    ensures first == -1 && second == 1
  {
    hide Keyed, Get, StartOrder, Startable, Path, Needed, Marks, Spares, DependsOn, Served, Failure, Elements, InitEvents;
    Fresh(core, p);
    ghost var fate, news, path;
    first, fate, news, path := core.InitPlugin(p);
    core.Succeeds(Elements(core.plugins), rank, {}, fate, path);
    core.FirstRefused(p, fate, news, path);
    ghost var marked := core.Marked();
    second, fate, news, path := core.InitPlugin(c);
    core.SecondCircular(p, c, rank, marked, fate, news, path);
  }

  lemma Ladder(fold: Fold, a: Plugin, b: Plugin, c: Plugin) returns (rank: Plugin -> nat)
    requires a.dependencies == [] && b.dependencies == [a.name] && c.dependencies == [b.name]
    requires fold(a.name) != fold(b.name) && fold(b.name) != fold(c.name) && fold(a.name) != fold(c.name)
    ensures var ps := [a, b, c];
      Keyed(fold, ps) && Startable(fold, ps, Elements(ps), rank) && DependsOn(fold, ps, c, b)
  {
    rank := p => if p == a then 0 else if p == b then 1 else 2;
    var ps := [a, b, c];
    assert Get(fold, ps, a.name) == a;
    assert Get(fold, ps, b.name) == b && b.name == c.dependencies[0];
    assert Elements(ps) == {a, b, c};
  }

  lemma Fresh(core: Core, p: Plugin)
    requires p in core.plugins && forall p :: p in core.plugins ==> !p.initialized && !p.dependencyMissing
    ensures core.Running() == {} && core.Marked() == {} && p in Elements(core.plugins)
    ensures {} !! Elements(core.plugins) && forall ps :: {} + Elements(ps) == Elements(ps)
  {}
}
