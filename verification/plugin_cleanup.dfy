// src-api/core/oonf_subsystem.c: which plugins a cleanup takes down, and in which order.
module PluginCleanups {
  import opened Options
  import opened Plugins
  import opened Sequences

  ghost function CleanupEvents(ps: seq<Plugin>): seq<Event>
  {
    seq(|ps|, i requires 0 <= i < |ps| => Cleanup(ps[i]))
  }

  // Cleaning cs up one after the other: each once, after everything running that names it
  // among its dependencies, and nothing but last and what names it through others.
  ghost predicate CleanupOrder(running: set<Plugin>, cs: seq<Plugin>)
  {
    && NoDup(cs) && (forall q :: q in cs ==> q in running)
    && (forall i, p :: 0 <= i < |cs| && p in running && Spells(p, cs[i]) ==> p in cs[..i])
  }

  // Why the i-th of cs goes.
  ghost predicate CausedAt(plugin: Plugin, cs: seq<Plugin>, i: nat)
    requires i < |cs|
  {
    cs[i] == plugin || Spells(cs[i], plugin) || exists j :: i < j < |cs| && Spells(cs[i], cs[j])
  }

  ghost predicate Caused(plugin: Plugin, cs: seq<Plugin>)
  {
    forall i :: 0 <= i < |cs| ==> CausedAt(plugin, cs, i)
  }

  lemma CleanupNone(running: set<Plugin>, plugin: Plugin)
    ensures CleanupOrder(running, []) && Caused(plugin, []) && Elements([]) == {} && CleanupEvents([]) == []
  {}

  lemma CleanupLast(running: set<Plugin>, plugin: Plugin)
    requires plugin in running && forall p :: p in running ==> !Spells(p, plugin)
    ensures CleanupOrder(running, [plugin]) && Elements([plugin]) == {plugin} && CleanupEvents([plugin]) == [Cleanup(plugin)]
  {}

  lemma CleanupAppend(running: set<Plugin>, a: seq<Plugin>, b: seq<Plugin>)
    requires CleanupOrder(running, a) && CleanupOrder(running - Elements(a), b)
    ensures CleanupOrder(running, a + b) && Elements(a + b) == Elements(a) + Elements(b)
    ensures CleanupEvents(a + b) == CleanupEvents(a) + CleanupEvents(b)
  {
    var c := a + b;
    forall i, j | 0 <= i < j < |c| ensures c[i] != c[j] {
      if i < |a| <= j {
        assert c[i] in Elements(a) && c[j] in b;
      }
    }
    forall i, p | 0 <= i < |c| && p in running && Spells(p, c[i]) ensures p in c[..i] {
      if i < |a| {
        assert c[i] == a[i] && c[..i] == a[..i];
      } else {
        assert c[i] == b[i - |a|] && c[..i] == a + b[..i - |a|];
        assert p !in a ==> p in running - Elements(a);
      }
    }
  }

  lemma CausedLast(plugin: Plugin, cs: seq<Plugin>)
    requires Caused(plugin, cs)
    ensures Caused(plugin, cs + [plugin])
  {
    hide CausedAt;
    forall i | 0 <= i < |cs| ensures CausedAt(plugin, cs + [plugin], i) {
      CausedLeft(plugin, cs, [plugin], i);
    }
    CausedSelf(plugin, cs + [plugin], |cs|);
  }

  lemma CausedSelf(plugin: Plugin, cs: seq<Plugin>, i: nat)
    requires i < |cs| && cs[i] == plugin
    ensures CausedAt(plugin, cs, i)
  {}

  lemma CausedLeft(plugin: Plugin, a: seq<Plugin>, b: seq<Plugin>, i: nat)
    requires i < |a| && CausedAt(plugin, a, i)
    ensures CausedAt(plugin, a + b, i)
  {
    hide Spells;
    var c := a + b;
    if a[i] != plugin && !Spells(a[i], plugin) {
      var j :| i < j < |a| && Spells(a[i], a[j]);
      assert Spells(c[i], c[j]);
    }
  }

  lemma CausedRight(plugin: Plugin, a: seq<Plugin>, d: Plugin, b: seq<Plugin>, k: nat)
    requires k < |b| && CausedAt(d, b, k) && Spells(d, plugin) && b[|b| - 1] == d
    ensures CausedAt(plugin, a + b, |a| + k)
  {
    hide Spells;
    var c := a + b;
    if b[k] != d {
      var j := |b| - 1;
      if !Spells(b[k], d) {
        j :| k < j < |b| && Spells(b[k], b[j]);
      }
      assert Spells(c[|a| + k], c[|a| + j]);
    }
  }

  lemma CausedAppend(plugin: Plugin, a: seq<Plugin>, d: Plugin, b: seq<Plugin>)
    requires Caused(plugin, a) && Caused(d, b) && Spells(d, plugin)
    requires b == [] || b[|b| - 1] == d
    ensures Caused(plugin, a + b)
  {
    hide CausedAt, Spells;
    forall i | 0 <= i < |a + b| ensures CausedAt(plugin, a + b, i) {
      if i < |a| {
        CausedLeft(plugin, a, b, i);
      } else {
        CausedRight(plugin, a, d, b, i - |a|);
      }
    }
  }

  lemma CausedNone(plugin: Plugin)
    ensures Caused(plugin, [])
  {}

  lemma CausedShift(plugin: Plugin, a: seq<Plugin>, b: seq<Plugin>, k: nat)
    requires k < |b| && CausedAt(plugin, b, k)
    ensures CausedAt(plugin, a + b, |a| + k)
  {
    hide Spells;
    var c := a + b;
    if b[k] != plugin && !Spells(b[k], plugin) {
      var j :| k < j < |b| && Spells(b[k], b[j]);
      assert Spells(c[|a| + k], c[|a| + j]);
    }
  }

  lemma CausedBoth(plugin: Plugin, a: seq<Plugin>, b: seq<Plugin>)
    requires Caused(plugin, a) && Caused(plugin, b)
    ensures Caused(plugin, a + b)
  {
    hide CausedAt;
    forall i | 0 <= i < |a + b| ensures CausedAt(plugin, a + b, i) {
      if i < |a| {
        CausedLeft(plugin, a, b, i);
      } else {
        CausedShift(plugin, a, b, i - |a|);
      }
    }
  }

  // A chain of n running plugins leads from x to plugin, each naming the next one.
  ghost predicate Leads(running: set<Plugin>, x: Plugin, plugin: Plugin, n: nat)
  {
    x in running &&
    if n == 0 then x == plugin else exists d :: d in running && Spells(x, d) && Leads(running, d, plugin, n - 1)
  }

  // What the cleanup of plugin takes down.
  ghost predicate Doomed(running: set<Plugin>, plugin: Plugin, x: Plugin)
  {
    exists n: nat :: Leads(running, x, plugin, n)
  }

  lemma {:induction false} LeadsIn(running: set<Plugin>, x: Plugin, plugin: Plugin, n: nat, cs: seq<Plugin>)
    requires Leads(running, x, plugin, n) && CleanupOrder(running, cs) && (plugin in running ==> plugin in cs)
    ensures x in cs
  {
    hide NoDup, Spells;
    if n > 0 {
      var d :| d in running && Spells(x, d) && Leads(running, d, plugin, n - 1);
      LeadsIn(running, d, plugin, n - 1, cs);
      var i :| 0 <= i < |cs| && cs[i] == d;
      assert x in cs[..i];
    }
  }

  lemma LeadsMore(running: set<Plugin>, x: Plugin, d: Plugin, plugin: Plugin, n: nat)
    requires x in running && d in running && Spells(x, d) && Leads(running, d, plugin, n)
    ensures Leads(running, x, plugin, n + 1)
  {}

  lemma LeadsNone(running: set<Plugin>, plugin: Plugin)
    requires plugin in running
    ensures Leads(running, plugin, plugin, 0)
  {}

  lemma {:induction false} CausedLeads(running: set<Plugin>, plugin: Plugin, cs: seq<Plugin>, i: nat) returns (n: nat)
    requires (forall c :: c in cs ==> c in running) && Caused(plugin, cs) && plugin in running && i < |cs|
    ensures Leads(running, cs[i], plugin, n)
    decreases |cs| - i
  {
    hide Spells, Leads;
    assert CausedAt(plugin, cs, i);
    LeadsNone(running, plugin);
    if cs[i] == plugin {
      n := 0;
    } else if Spells(cs[i], plugin) {
      LeadsMore(running, cs[i], plugin, plugin, 0);
      n := 1;
    } else {
      var j :| i < j < |cs| && Spells(cs[i], cs[j]);
      n := CausedLeads(running, plugin, cs, j);
      LeadsMore(running, cs[i], cs[j], plugin, n);
      n := n + 1;
    }
  }

  // A cleanup takes down the plugins that lead to the one cleaned up, and no others.
  lemma CleanedIff(running: set<Plugin>, plugin: Plugin, cs: seq<Plugin>)
    requires CleanupOrder(running, cs) && Caused(plugin, cs)
    requires if plugin in running then plugin in cs else cs == []
    ensures forall x :: x in cs <==> Doomed(running, plugin, x)
  {
    forall x ensures x in cs <==> Doomed(running, plugin, x) {
      if x in cs {
        var i :| 0 <= i < |cs| && cs[i] == x;
        var n := CausedLeads(running, plugin, cs, i);
      }
      if Doomed(running, plugin, x) {
        var n: nat :| Leads(running, x, plugin, n);
        LeadsIn(running, x, plugin, n, cs);
      }
    }
  }

  // Whatever asks for a plugin that goes down goes down with it.
  ghost predicate DoomSpreads(fold: Fold, ps: seq<Plugin>, running: set<Plugin>, plugin: Plugin)
  {
    forall p, d :: p in running && d in running && DependsOn(fold, ps, p, d) && Doomed(running, plugin, d) ==>
      Doomed(running, plugin, p)
  }

  // When the plugins left running still have what they need.
  lemma ClosedIff(fold: Fold, ps: seq<Plugin>, running: set<Plugin>, plugin: Plugin, cs: seq<Plugin>)
    requires ClosedUnder(fold, ps, running) && CleanupOrder(running, cs)
    requires forall x :: x in cs <==> Doomed(running, plugin, x)
    ensures ClosedUnder(fold, ps, running - Elements(cs)) <==> DoomSpreads(fold, ps, running, plugin)
  {
    hide Doomed, Get;
    var left := running - Elements(cs);
    if DoomSpreads(fold, ps, running, plugin) {
      forall p, i | p in left && 0 <= i < |p.dependencies|
        ensures var d := Get(fold, ps, p.dependencies[i]); d != null && d in left
      {
        Asks(fold, ps, p, i);
      }
    }
    if ClosedUnder(fold, ps, left) {
      forall p, d | p in running && d in running && DependsOn(fold, ps, p, d) && Doomed(running, plugin, d)
        ensures Doomed(running, plugin, p)
      {
        assert d !in left;
      }
    }
  }

  // Every dependency is written with the very name of the plugin it finds.
  ghost predicate Exact(fold: Fold, ps: seq<Plugin>)
  {
    forall p, d :: p in ps && d in ps && DependsOn(fold, ps, p, d) ==> Spells(p, d)
  }

  lemma ExactSpreads(fold: Fold, ps: seq<Plugin>, running: set<Plugin>, plugin: Plugin)
    requires Exact(fold, ps) && running <= Elements(ps)
    ensures DoomSpreads(fold, ps, running, plugin)
  {
    hide DependsOn, Spells;
    forall p, d | p in running && d in running && DependsOn(fold, ps, p, d) && Doomed(running, plugin, d)
      ensures Doomed(running, plugin, p)
    {
      var n: nat :| Leads(running, d, plugin, n);
      assert Spells(p, d);
      assert Leads(running, p, plugin, n + 1);
    }
  }

  lemma ExactCleanupClosed(fold: Fold, ps: seq<Plugin>, running: set<Plugin>, plugin: Plugin, cs: seq<Plugin>)
    requires ClosedUnder(fold, ps, running) && Exact(fold, ps) && running <= Elements(ps)
    requires CleanupOrder(running, cs) && Caused(plugin, cs)
    requires if plugin in running then plugin in cs else cs == []
    ensures ClosedUnder(fold, ps, running - Elements(cs))
    ensures forall i, p :: 0 <= i < |cs| && p in running && DependsOn(fold, ps, p, cs[i]) ==> p in cs[..i]
  {
    hide ClosedUnder, DependsOn, Caused, Doomed, DoomSpreads;
    CleanedIff(running, plugin, cs);
    ExactSpreads(fold, ps, running, plugin);
    ClosedIff(fold, ps, running, plugin, cs);
    forall i, p | 0 <= i < |cs| && p in running && DependsOn(fold, ps, p, cs[i])
      ensures p in cs[..i]
    {
      assert cs[i] in running && Spells(p, cs[i]);
    }
  }

  lemma Unloaded(fold: Fold, ps: seq<Plugin>, running: set<Plugin>, plugin: Plugin, cs: seq<Plugin>)
    requires CleanupOrder(running, cs) && (forall x :: x in cs <==> Doomed(running, plugin, x)) && running <= Elements(ps)
    ensures ClosedUnder(fold, ps, running) ==>
      (ClosedUnder(fold, ps, running - Elements(cs)) <==> DoomSpreads(fold, ps, running, plugin))
    ensures Exact(fold, ps) ==> DoomSpreads(fold, ps, running, plugin)
  {
    hide ClosedUnder, Exact, DoomSpreads, Doomed;
    if ClosedUnder(fold, ps, running) {
      ClosedIff(fold, ps, running, plugin, cs);
    }
    if Exact(fold, ps) {
      ExactSpreads(fold, ps, running, plugin);
    }
  }

  // ----- the recursion -----

  // _cleanup_plugin with so many calls inside each other: the plugins it cleans up, or None if
  // it needs more of them.
  ghost function Sweep(running: set<Plugin>, ps: seq<Plugin>, x: Plugin, fuel: nat): Option<seq<Plugin>>
    decreases fuel, 0
  {
    if x !in running then Some([])
    else if fuel == 0 then None
    else
      var cs := SweepAll(running, ps, ps, x, fuel - 1);
      if cs.None? then None else Some(cs.value + [x])
  }

  // Its loop over the rest of the tree.
  ghost function SweepAll(running: set<Plugin>, ps: seq<Plugin>, rest: seq<Plugin>, x: Plugin, fuel: nat):
      Option<seq<Plugin>>
    decreases fuel, |rest|
  {
    if rest == [] then Some([])
    else if !Spells(rest[0], x) then SweepAll(running, ps, rest[1..], x, fuel)
    else
      var a := Sweep(running, ps, rest[0], fuel);
      if a.None? then None else
      var b := SweepAll(running - Elements(a.value), ps, rest[1..], x, fuel);
      if b.None? then None else Some(a.value + b.value)
  }

  lemma SweepIs(running: set<Plugin>, ps: seq<Plugin>, x: Plugin, fuel: nat)
    requires Sweep(running, ps, x, fuel).Some?
    ensures x !in running ==> Sweep(running, ps, x, fuel) == Some([])
    ensures x in running ==>
      && fuel > 0 && SweepAll(running, ps, ps, x, fuel - 1).Some?
      && Sweep(running, ps, x, fuel).value == SweepAll(running, ps, ps, x, fuel - 1).value + [x]
  {}

  lemma NotRunning(running: set<Plugin>, ps: seq<Plugin>, x: Plugin, fuel: nat)
    ensures x !in running ==> Sweep(running, ps, x, fuel) == Some([])
  {}

  lemma SweepAllIs(running: set<Plugin>, ps: seq<Plugin>, rest: seq<Plugin>, x: Plugin, fuel: nat)
    requires SweepAll(running, ps, rest, x, fuel).Some?
    ensures rest == [] ==> SweepAll(running, ps, rest, x, fuel).value == []
    ensures rest != [] && !Spells(rest[0], x) ==>
      SweepAll(running, ps, rest, x, fuel) == SweepAll(running, ps, rest[1..], x, fuel)
    ensures rest != [] && Spells(rest[0], x) ==>
      && Sweep(running, ps, rest[0], fuel).Some?
      && var a := Sweep(running, ps, rest[0], fuel).value;
        Follows(SweepAll(running, ps, rest, x, fuel).value, a, SweepAll(running - Elements(a), ps, rest[1..], x, fuel))
  {}

  lemma SweepAllNext(running: set<Plugin>, ps: seq<Plugin>, rest: seq<Plugin>, x: Plugin, fuel: nat, more: seq<Plugin>)
    requires SweepAll(running, ps, rest, x, fuel).Some? && rest != []
    requires if Spells(rest[0], x) then Sweep(running, ps, rest[0], fuel) == Some(more) else more == []
    ensures Follows(SweepAll(running, ps, rest, x, fuel).value, more,
      SweepAll(running - Elements(more), ps, rest[1..], x, fuel))
  {
    hide Sweep, SweepAll, Spells;
    SweepAllIs(running, ps, rest, x, fuel);
    if more == [] {
      assert running - Elements(more) == running;
      FollowsNone(SweepAll(running, ps, rest, x, fuel));
    }
  }

  // What the cleanup is going to do, and the order it keeps.
  lemma SweptInOrder(fold: Fold, ps: seq<Plugin>, running: set<Plugin>, x: Plugin, fuel: nat)
    requires running <= Elements(ps) && Sweep(running, ps, x, fuel).Some?
    ensures
      var cs := Sweep(running, ps, x, fuel).value;
      && CleanupOrder(running, cs) && Caused(x, cs) && (x in running ==> x in cs)
      && (AskersLead(fold, ps, running, Elements(cs)) ==> DependentsFirst(fold, ps, running, cs))
  {
    hide CleanupOrder, Caused, Sweep, AskersLead, DependentsFirst;
    SweepOrder(running, ps, x, fuel);
    var cs := Sweep(running, ps, x, fuel).value;
    if AskersLead(fold, ps, running, Elements(cs)) {
      AskersFirst(fold, ps, running, cs);
    }
  }

  lemma GoesWith(running: set<Plugin>, cs: seq<Plugin>, p: Plugin, d: Plugin)
    requires CleanupOrder(running, cs) && p in running && d in cs && Spells(p, d)
    ensures p in cs
  {
    var i :| 0 <= i < |cs| && cs[i] == d;
    assert p in cs[..i];
  }

  lemma InSeq(running: set<Plugin>, x: Plugin, cs: seq<Plugin>)
    requires x !in running - Elements(cs)
    ensures x in running ==> x in cs
  {}

  lemma FollowsNone(all: Option<seq<Plugin>>)
    ensures all.Some? ==> Follows(all.value, [], all)
  {
    assert all.Some? ==> [] + all.value == all.value;
  }

  lemma FollowsSome(all: seq<Plugin>, cs: seq<Plugin>, rest: Option<seq<Plugin>>)
    requires Follows(all, cs, rest)
    ensures rest.Some? && (rest.value == [] ==> all == cs)
  {
    assert cs + [] == cs;
  }

  lemma FollowsMore(all: seq<Plugin>, cs: seq<Plugin>, before: Option<seq<Plugin>>, more: seq<Plugin>,
      rest: Option<seq<Plugin>>)
    requires Follows(all, cs, before) && before.Some? && Follows(before.value, more, rest)
    ensures Follows(all, cs + more, rest)
  {
    assert cs + (more + rest.value) == cs + more + rest.value;
  }

  // The name is among the first i.
  ghost predicate NamedIn(name: Name, names: seq<Name>, i: nat)
    requires i <= |names|
  {
    name in names[..i]
  }

  lemma NamedNone(p: Plugin, d: Plugin)
    ensures !NamedIn(d.name, p.dependencies, 0)
  {}

  lemma NamedMore(p: Plugin, d: Plugin, i: nat)
    requires i < |p.dependencies|
    ensures NamedIn(d.name, p.dependencies, i + 1) <==> NamedIn(d.name, p.dependencies, i) || p.dependencies[i] == d.name
    ensures p.dependencies[i] == d.name ==> Spells(p, d)
  {
    var names := p.dependencies;
    assert names[..i + 1] == names[..i] + [names[i]];
  }

  lemma NamedAll(p: Plugin, d: Plugin)
    ensures NamedIn(d.name, p.dependencies, |p.dependencies|) <==> Spells(p, d)
  {
    assert p.dependencies[..|p.dependencies|] == p.dependencies;
  }

  // What is to come continues what was done.
  ghost predicate Follows(all: seq<Plugin>, cs: seq<Plugin>, rest: Option<seq<Plugin>>)
  {
    rest.Some? && all == cs + rest.value
  }

  // The plugins of ring name each other round and round.
  ghost predicate Ring(ring: set<Plugin>)
  {
    forall b :: b in ring ==> exists a :: a in ring && Spells(a, b)
  }

  // A cleanup that returns has met no ring.
  lemma {:induction false} RingStays(running: set<Plugin>, ps: seq<Plugin>, x: Plugin, fuel: nat, ring: set<Plugin>)
    requires Ring(ring) && ring <= running <= Elements(ps) && Sweep(running, ps, x, fuel).Some?
    ensures x in running ==> x in Sweep(running, ps, x, fuel).value
    ensures forall c :: c in Sweep(running, ps, x, fuel).value ==> c !in ring
    decreases fuel, 0
  {
    hide Spells;
    if x in running {
      RingStaysAll(running, ps, ps, x, fuel - 1, ring);
    }
  }

  lemma {:induction false} RingStaysAll(running: set<Plugin>, ps: seq<Plugin>, rest: seq<Plugin>, x: Plugin, fuel: nat,
      ring: set<Plugin>)
    requires Ring(ring) && ring <= running <= Elements(ps) && SweepAll(running, ps, rest, x, fuel).Some?
    ensures forall c :: c in SweepAll(running, ps, rest, x, fuel).value ==> c !in ring
    ensures forall r :: r in rest && r in ring ==> !Spells(r, x)
    decreases fuel, |rest|
  {
    hide Spells;
    if rest != [] {
      var left := running;
      if Spells(rest[0], x) {
        RingStays(running, ps, rest[0], fuel, ring);
        left := running - Elements(Sweep(running, ps, rest[0], fuel).value);
      }
      RingStaysAll(left, ps, rest[1..], x, fuel, ring);
    }
  }

  // ----- when it returns -----

  // A chain of at least one step leads from x to plugin.
  ghost predicate Above(running: set<Plugin>, x: Plugin, plugin: Plugin)
  {
    exists n: nat :: n > 0 && Leads(running, x, plugin, n)
  }

  // No plugin that names itself in a circle leads to x.
  ghost predicate Unringed(running: set<Plugin>, x: Plugin)
  {
    forall y :: y in running && Doomed(running, x, y) ==> !Above(running, y, y)
  }

  lemma {:induction false} LeadsThen(running: set<Plugin>, x: Plugin, d: Plugin, plugin: Plugin, n: nat)
    requires Leads(running, x, d, n) && Spells(d, plugin) && plugin in running
    ensures Leads(running, x, plugin, n + 1)
  {
    hide Spells;
    if n == 0 {
      LeadsNone(running, plugin);
      LeadsMore(running, d, plugin, plugin, 0);
    } else {
      var e :| e in running && Spells(x, e) && Leads(running, e, d, n - 1);
      LeadsThen(running, e, d, plugin, n - 1);
    }
  }

  lemma {:induction false} LeadsLast(running: set<Plugin>, x: Plugin, plugin: Plugin, n: nat) returns (d: Plugin)
    requires n > 0 && Leads(running, x, plugin, n)
    ensures d in running && plugin in running && Leads(running, x, d, n - 1) && Spells(d, plugin)
  {
    hide Spells;
    var e :| e in running && Spells(x, e) && Leads(running, e, plugin, n - 1);
    if n == 1 {
      d := x;
    } else {
      d := LeadsLast(running, e, plugin, n - 1);
    }
  }

  lemma {:induction false} LeadsIsIn(running: set<Plugin>, x: Plugin, plugin: Plugin, n: nat)
    requires Leads(running, x, plugin, n)
    ensures x in running && plugin in running
  {
    if n > 0 {
      var e :| e in running && Spells(x, e) && Leads(running, e, plugin, n - 1);
      LeadsIsIn(running, e, plugin, n - 1);
    }
  }

  lemma AboveMore(running: set<Plugin>, r: Plugin, x: Plugin)
    requires r in running && x in running && Spells(r, x)
    ensures Above(running, r, x) && Doomed(running, x, r)
    ensures forall s :: Above(running, x, s) ==> Above(running, r, s)
    ensures forall y :: Doomed(running, r, y) ==> Doomed(running, x, y)
    ensures Unringed(running, x) ==> Unringed(running, r)
  {
    hide Spells, Leads;
    LeadsNone(running, x);
    LeadsMore(running, r, x, x, 0);
    forall s | Above(running, x, s) ensures Above(running, r, s) {
      var n: nat :| n > 0 && Leads(running, x, s, n);
      LeadsMore(running, r, x, s, n);
    }
    forall y | Doomed(running, r, y) ensures Doomed(running, x, y) {
      var n: nat :| Leads(running, y, r, n);
      LeadsThen(running, y, r, x, n);
    }
  }

  // Enough calls inside each other: as many as there are plugins that are not on the stack.
  lemma {:induction false} Enough(all: set<Plugin>, running: set<Plugin>, ps: seq<Plugin>, x: Plugin,
      stack: set<Plugin>, fuel: nat)
    requires running <= all && stack <= all && Unringed(all, x) && (forall s :: s in stack ==> Above(all, x, s))
    requires fuel >= |all - stack|
    ensures Sweep(running, ps, x, fuel).Some?
    decreases fuel, 0
  {
    hide Above, Unringed, Doomed;
    if x in running {
      NotAbove(all, x);
      assert x in all - stack && all - stack - {x} == all - (stack + {x});
      EnoughAll(all, running, ps, ps, x, stack + {x}, fuel - 1);
    }
  }

  lemma NotAbove(all: set<Plugin>, x: Plugin)
    requires Unringed(all, x) && x in all
    ensures !Above(all, x, x)
  {
    LeadsNone(all, x);
    assert Doomed(all, x, x);
  }

  lemma {:induction false} EnoughAll(all: set<Plugin>, running: set<Plugin>, ps: seq<Plugin>, rest: seq<Plugin>, x: Plugin,
      stack: set<Plugin>, fuel: nat)
    requires running <= all && stack <= all && x in stack && Unringed(all, x)
    requires (forall s :: s in stack ==> s == x || Above(all, x, s)) && fuel >= |all - stack|
    ensures SweepAll(running, ps, rest, x, fuel).Some?
    decreases fuel, |rest|
  {
    hide Above, Unringed, Doomed, Spells;
    if rest != [] {
      var left := running;
      if Spells(rest[0], x) {
        if rest[0] in running {
          AboveMore(all, rest[0], x);
          Enough(all, running, ps, rest[0], stack, fuel);
        }
        left := running - Elements(Sweep(running, ps, rest[0], fuel).value);
      }
      EnoughAll(all, left, ps, rest[1..], x, stack, fuel);
    }
  }

  // The cleanup of x returns if and only if no circle of names leads to x.
  lemma ReturnsIff(running: set<Plugin>, ps: seq<Plugin>, x: Plugin)
    requires running <= Elements(ps)
    ensures (exists fuel: nat :: Sweep(running, ps, x, fuel).Some?) <==> Unringed(running, x)
    ensures Unringed(running, x) ==> Sweep(running, ps, x, |running|).Some?
  {
    hide Sweep, Spells, Leads;
    if Unringed(running, x) {
      assert running - {} == running;
      Enough(running, running, ps, x, {}, |running|);
    } else {
      var y :| y in running && Doomed(running, x, y) && Above(running, y, y);
      var ring := set b | b in running && Above(running, y, b);
      RingAbove(running, y, ring);
      var n: nat :| Leads(running, y, x, n);
      var m: nat :| m > 0 && Leads(running, y, y, m);
      LeadsIsIn(running, y, x, n);
      if n == 0 {
        LeadsSame(running, y, x);
      }
      assert x in ring;
      forall fuel: nat ensures Sweep(running, ps, x, fuel).None? {
        if Sweep(running, ps, x, fuel).Some? {
          RingStays(running, ps, x, fuel, ring);
        }
      }
    }
  }

  lemma LeadsSame(running: set<Plugin>, x: Plugin, y: Plugin)
    requires Leads(running, x, y, 0)
    ensures x == y
  {}

  lemma RingAbove(running: set<Plugin>, y: Plugin, ring: set<Plugin>)
    requires Above(running, y, y) && ring == set b | b in running && Above(running, y, b)
    ensures Ring(ring)
  {
    hide Spells, Leads;
    forall b | b in ring ensures exists a :: a in ring && Spells(a, b) {
      var n: nat :| n > 0 && Leads(running, y, b, n);
      var a := LeadsLast(running, y, b, n);
      if n == 1 {
        LeadsSame(running, y, a);
      }
      assert a in ring && Spells(a, b);
    }
  }

  lemma {:induction false} SweepMore(running: set<Plugin>, ps: seq<Plugin>, x: Plugin, fuel: nat, more: nat)
    requires Sweep(running, ps, x, fuel).Some? && fuel <= more
    ensures Sweep(running, ps, x, more) == Sweep(running, ps, x, fuel)
    decreases fuel, 0
  {
    if x in running {
      SweepAllMore(running, ps, ps, x, fuel - 1, more - 1);
    }
  }

  lemma {:induction false} SweepAllMore(running: set<Plugin>, ps: seq<Plugin>, rest: seq<Plugin>, x: Plugin, fuel: nat,
      more: nat)
    requires SweepAll(running, ps, rest, x, fuel).Some? && fuel <= more
    ensures SweepAll(running, ps, rest, x, more) == SweepAll(running, ps, rest, x, fuel)
    decreases fuel, |rest|
  {
    if rest != [] {
      var left := running;
      if Spells(rest[0], x) {
        SweepMore(running, ps, rest[0], fuel, more);
        left := running - Elements(Sweep(running, ps, rest[0], fuel).value);
      }
      SweepAllMore(left, ps, rest[1..], x, fuel, more);
    }
  }

  // ----- what it does -----

  lemma {:induction false} LeadsWider(small: set<Plugin>, running: set<Plugin>, x: Plugin, plugin: Plugin, n: nat)
    requires small <= running && Leads(small, x, plugin, n)
    ensures Leads(running, x, plugin, n)
  {
    if n > 0 {
      var e :| e in small && Spells(x, e) && Leads(small, e, plugin, n - 1);
      LeadsWider(small, running, e, plugin, n - 1);
    }
  }

  lemma Wider(small: set<Plugin>, running: set<Plugin>, x: Plugin)
    requires small <= running
    ensures forall c :: Above(small, c, x) ==> Above(running, c, x)
    ensures Unringed(running, x) ==> Unringed(small, x)
  {
    hide Leads;
    forall c | Above(small, c, x) ensures Above(running, c, x) {
      var n: nat :| n > 0 && Leads(small, c, x, n);
      LeadsWider(small, running, c, x, n);
    }
    forall y | y in small && Doomed(small, x, y) && Above(small, y, y)
      ensures Doomed(running, x, y) && Above(running, y, y)
    {
      var n: nat :| Leads(small, y, x, n);
      LeadsWider(small, running, y, x, n);
      var m: nat :| m > 0 && Leads(small, y, y, m);
      LeadsWider(small, running, y, y, m);
    }
  }

  // What was cleaned up for r, which names x, leads to x.
  lemma SweptAbove(running: set<Plugin>, a: seq<Plugin>, r: Plugin, x: Plugin)
    requires CleanupOrder(running, a) && Caused(r, a) && r in running && x in running && Spells(r, x)
    ensures forall c :: c in a ==> Above(running, c, x)
  {
    hide Spells, Leads, Caused;
    forall c | c in a ensures Above(running, c, x) {
      var i :| 0 <= i < |a| && a[i] == c;
      var n := CausedLeads(running, r, a, i);
      LeadsThen(running, c, r, x, n);
    }
  }

  lemma {:induction false} SweepAllOrder(running: set<Plugin>, ps: seq<Plugin>, rest: seq<Plugin>, x: Plugin, fuel: nat)
    requires x in running && running <= Elements(ps) && Unringed(running, x)
    requires SweepAll(running, ps, rest, x, fuel).Some?
    ensures Swept(running, rest, x, SweepAll(running, ps, rest, x, fuel).value)
    decreases fuel, |rest|
  {
    hide CleanupOrder, Caused, Spells, Above, Unringed, Swept;
    SweptNone(running, x);
    if rest != [] {
      if !Spells(rest[0], x) {
        SweepAllOrder(running, ps, rest[1..], x, fuel);
        SweptNext(running, rest, x, SweepAll(running, ps, rest, x, fuel).value);
      } else {
        var a := Sweep(running, ps, rest[0], fuel).value;
        var left := running - Elements(a);
        SweepOrder(running, ps, rest[0], fuel);
        Wider(left, running, x);
        NotAbove(running, x);
        if rest[0] in running {
          SweptAbove(running, a, rest[0], x);
        }
        SweepAllOrder(left, ps, rest[1..], x, fuel);
        SweptMore(running, rest, x, a, SweepAll(left, ps, rest[1..], x, fuel).value);
      }
    }
  }

  // What the loop has done with rest.
  ghost predicate Swept(running: set<Plugin>, rest: seq<Plugin>, x: Plugin, cs: seq<Plugin>)
  {
    && CleanupOrder(running, cs) && Caused(x, cs)
    && (forall c :: c in cs ==> Above(running, c, x))
    && (forall r :: r in rest && r in running && Spells(r, x) ==> r in cs)
  }

  lemma SweptNone(running: set<Plugin>, x: Plugin)
    ensures Swept(running, [], x, [])
  {}

  lemma SweptNext(running: set<Plugin>, rest: seq<Plugin>, x: Plugin, cs: seq<Plugin>)
    requires rest != [] && !Spells(rest[0], x) && Swept(running, rest[1..], x, cs)
    ensures Swept(running, rest, x, cs)
  {
    hide CleanupOrder, Caused, Spells, Above;
    assert rest == [rest[0]] + rest[1..];
  }

  lemma SweptMore(running: set<Plugin>, rest: seq<Plugin>, x: Plugin, a: seq<Plugin>, b: seq<Plugin>)
    requires rest != [] && Spells(rest[0], x) && CleanupOrder(running, a) && Caused(rest[0], a)
    requires forall c :: c in a ==> Above(running, c, x)
    requires if rest[0] in running then a != [] && a[|a| - 1] == rest[0] else a == []
    requires Swept(running - Elements(a), rest[1..], x, b)
    ensures Swept(running, rest, x, a + b)
  {
    hide CleanupOrder, Caused, Spells, Above;
    CleanupAppend(running, a, b);
    CausedNone(x);
    assert [] + a == a;
    CausedAppend(x, [], rest[0], a);
    CausedBoth(x, a, b);
    Wider(running - Elements(a), running, x);
    assert rest == [rest[0]] + rest[1..];
  }

  // What the cleanup of x cleans up, it cleans up in order.
  lemma {:induction false} SweepOrder(running: set<Plugin>, ps: seq<Plugin>, x: Plugin, fuel: nat)
    requires running <= Elements(ps) && Sweep(running, ps, x, fuel).Some?
    ensures
      var cs := Sweep(running, ps, x, fuel).value;
      && CleanupOrder(running, cs) && Caused(x, cs)
      && if x in running then cs != [] && cs[|cs| - 1] == x else cs == []
    decreases fuel, 0
  {
    hide CleanupOrder, Caused, Spells, Unringed;
    CleanupNone(running, x);
    if x in running {
      ReturnsIff(running, ps, x);
      NotAbove(running, x);
      SweepAllOrder(running, ps, ps, x, fuel - 1);
      var cs := SweepAll(running, ps, ps, x, fuel - 1).value;
      var left := running - Elements(cs);
      CleanupLast(left, x);
      CleanupAppend(running, cs, [x]);
      CausedLast(x, cs);
    }
  }

  // A cleanup returns with these plugins cleaned up.
  ghost predicate Sweeps(running: set<Plugin>, ps: seq<Plugin>, x: Plugin, cs: seq<Plugin>)
  {
    exists fuel: nat :: Sweep(running, ps, x, fuel) == Some(cs)
  }

  lemma SweepsOne(running: set<Plugin>, ps: seq<Plugin>, x: Plugin, fuel: nat, cs: seq<Plugin>)
    requires Sweeps(running, ps, x, cs) && Sweep(running, ps, x, fuel).Some?
    ensures Sweep(running, ps, x, fuel) == Some(cs)
  {
    hide Sweep;
    var f: nat :| Sweep(running, ps, x, f) == Some(cs);
    SweepMore(running, ps, x, f, f + fuel);
    SweepMore(running, ps, x, fuel, f + fuel);
  }

  // ----- which order is certain -----

  ghost predicate Before(cs: seq<Plugin>, p: Plugin, d: Plugin)
  {
    exists i, j :: 0 <= i < j < |cs| && cs[i] == p && cs[j] == d
  }

  lemma BeforeOne(running: set<Plugin>, cs: seq<Plugin>, p: Plugin, e: Plugin)
    requires CleanupOrder(running, cs) && e in cs && p in running && Spells(p, e)
    ensures Before(cs, p, e)
  {
    var j :| 0 <= j < |cs| && cs[j] == e;
    assert p in cs[..j];
    var i :| 0 <= i < j && cs[i] == p;
  }

  lemma BeforeThen(running: set<Plugin>, cs: seq<Plugin>, p: Plugin, e: Plugin, d: Plugin)
    requires CleanupOrder(running, cs) && Before(cs, p, e) && Before(cs, e, d)
    ensures Before(cs, p, d)
  {
    var i, j :| 0 <= i < j < |cs| && cs[i] == p && cs[j] == e;
    var k, l :| 0 <= k < l < |cs| && cs[k] == e && cs[l] == d;
    assert j == k;
  }

  lemma {:induction false} AboveBefore(running: set<Plugin>, cs: seq<Plugin>, p: Plugin, d: Plugin, n: nat)
    requires CleanupOrder(running, cs) && d in cs && n > 0 && Leads(running, p, d, n)
    ensures Before(cs, p, d)
  {
    hide CleanupOrder, Spells, Before;
    var e :| e in running && Spells(p, e) && Leads(running, e, d, n - 1);
    if n == 1 {
      BeforeOne(running, cs, p, d);
    } else {
      AboveBefore(running, cs, e, d, n - 1);
      BeforeIn(cs, e, d);
      BeforeOne(running, cs, p, e);
      BeforeThen(running, cs, p, e, d);
    }
  }

  lemma BeforeIn(cs: seq<Plugin>, p: Plugin, d: Plugin)
    requires Before(cs, p, d)
    ensures p in cs && d in cs
  {}

  lemma DoomedBefore(running: set<Plugin>, cs: seq<Plugin>, p: Plugin, d: Plugin)
    requires CleanupOrder(running, cs) && d in cs && p != d && Doomed(running, d, p)
    ensures Before(cs, p, d)
  {
    hide CleanupOrder, Spells, Before, Leads;
    var n: nat :| Leads(running, p, d, n);
    if n == 0 {
      LeadsSame(running, p, d);
    } else {
      AboveBefore(running, cs, p, d, n);
    }
  }

  // Those of cs that are in chosen, or that are not.
  ghost function Picked(cs: seq<Plugin>, chosen: set<Plugin>, flag: bool): seq<Plugin>
  {
    if cs == [] then []
    else
      var last, before := cs[|cs| - 1], Picked(cs[..|cs| - 1], chosen, flag);
      if (last in chosen) == flag then before + [last] else before
  }

  lemma {:induction false} PickedIn(cs: seq<Plugin>, chosen: set<Plugin>, flag: bool)
    ensures forall c :: c in Picked(cs, chosen, flag) <==> c in cs && (c in chosen) == flag
  {
    if cs != [] {
      PickedIn(cs[..|cs| - 1], chosen, flag);
      assert cs == cs[..|cs| - 1] + [cs[|cs| - 1]];
    }
  }

  lemma OrderNone(running: set<Plugin>)
    ensures CleanupOrder(running, [])
  {}

  lemma OrderSnoc(running: set<Plugin>, cs: seq<Plugin>, c: Plugin)
    ensures CleanupOrder(running, cs + [c]) <==>
      && CleanupOrder(running, cs) && c !in cs && c in running
      && forall p :: p in running && Spells(p, c) ==> p in cs
  {
    hide Spells;
    var more := cs + [c];
    assert more[|cs|] == c && more[..|cs|] == cs;
    assert forall i :: 0 <= i < |cs| ==> more[i] == cs[i] && more[..i] == cs[..i];
    if CleanupOrder(running, more) {
      assert forall i :: 0 <= i < |cs| ==> more[i] != more[|cs|];
    }
  }

  ghost predicate Upward(running: set<Plugin>, chosen: set<Plugin>)
  {
    forall p, c :: p in running && c in chosen && Spells(p, c) ==> p in chosen
  }

  lemma {:induction false} PickedOrder(running: set<Plugin>, cs: seq<Plugin>, chosen: set<Plugin>)
    requires CleanupOrder(running, cs) && Upward(running, chosen)
    ensures CleanupOrder(running, Picked(cs, chosen, true))
  {
    hide CleanupOrder, Spells;
    OrderNone(running);
    if cs != [] {
      var front, last := cs[..|cs| - 1], cs[|cs| - 1];
      assert cs == front + [last];
      OrderSnoc(running, front, last);
      PickedOrder(running, front, chosen);
      PickedIn(front, chosen, true);
      OrderSnoc(running, Picked(front, chosen, true), last);
    }
  }

  lemma {:induction false} PickedFirst(running: set<Plugin>, all: seq<Plugin>, cs: seq<Plugin>, chosen: set<Plugin>)
    requires CleanupOrder(running, all) && Upward(running, chosen) && cs <= all
    ensures CleanupOrder(running, Picked(all, chosen, true) + Picked(cs, chosen, false))
  {
    hide CleanupOrder, Spells;
    var first := Picked(all, chosen, true);
    PickedIn(all, chosen, true);
    if cs == [] {
      PickedOrder(running, all, chosen);
      assert first + [] == first;
    } else {
      var front, last := cs[..|cs| - 1], cs[|cs| - 1];
      OrderPrefix(running, all, cs);
      assert cs == front + [last];
      OrderSnoc(running, front, last);
      PickedFirst(running, all, front, chosen);
      PickedIn(front, chosen, false);
      var more := first + Picked(front, chosen, false);
      if last !in chosen {
        assert forall p :: p in front ==> p in all;
        OrderSnoc(running, more, last);
        assert first + Picked(cs, chosen, false) == more + [last];
      }
    }
  }

  lemma OrderPrefix(running: set<Plugin>, all: seq<Plugin>, cs: seq<Plugin>)
    requires CleanupOrder(running, all) && cs <= all
    ensures CleanupOrder(running, cs)
  {
    hide Spells;
    assert forall i :: 0 <= i < |cs| ==> cs[i] == all[i] && cs[..i] == all[..i];
  }

  // Plugin p goes before d in every order in which the same plugins could go, if and only if
  // running plugins lead from p to d by their exact names.
  lemma BeforeIff(running: set<Plugin>, cs: seq<Plugin>, p: Plugin, d: Plugin)
    requires CleanupOrder(running, cs) && p in cs && d in cs && p != d
    ensures
      (forall all: seq<Plugin> :: CleanupOrder(running, all) && Elements(all) == Elements(cs) ==> Before(all, p, d)) <==>
      Doomed(running, d, p)
  {
    hide CleanupOrder, Before, Doomed, Spells;
    if Doomed(running, d, p) {
      forall all: seq<Plugin> | CleanupOrder(running, all) && Elements(all) == Elements(cs) ensures Before(all, p, d) {
        assert d in Elements(all);
        DoomedBefore(running, all, p, d);
      }
    } else {
      var all := Aside(running, cs, p, d);
    }
  }

  // An order of the same plugins in which d goes before p, if nothing leads from p to d.
  lemma Aside(running: set<Plugin>, cs: seq<Plugin>, p: Plugin, d: Plugin) returns (all: seq<Plugin>)
    requires CleanupOrder(running, cs) && p in cs && d in cs && !Doomed(running, d, p)
    ensures CleanupOrder(running, all) && Elements(all) == Elements(cs) && !Before(all, p, d)
  {
    hide CleanupOrder, Spells, Before;
    var chosen := set x | x in running && Doomed(running, d, x);
    DoomUpward(running, d, chosen);
    PickedFirst(running, cs, cs, chosen);
    PickedIn(cs, chosen, true);
    PickedIn(cs, chosen, false);
    OrderIn(running, cs);
    var a, b := Picked(cs, chosen, true), Picked(cs, chosen, false);
    all := a + b;
    assert forall c :: c in all <==> c in cs;
    assert Elements(all) == Elements(cs);
    DoomedSelf(running, d);
    Behind(running, a, b, p, d);
  }

  lemma OrderIn(running: set<Plugin>, cs: seq<Plugin>)
    requires CleanupOrder(running, cs)
    ensures forall c :: c in cs ==> c in running
  {}

  lemma DoomedSelf(running: set<Plugin>, d: Plugin)
    requires d in running
    ensures Doomed(running, d, d)
  {
    LeadsNone(running, d);
  }

  lemma DoomUpward(running: set<Plugin>, d: Plugin, chosen: set<Plugin>)
    requires chosen == set x | x in running && Doomed(running, d, x)
    ensures Upward(running, chosen)
  {
    hide Spells, Leads;
    forall p, c | p in running && c in chosen && Spells(p, c) ensures p in chosen {
      var n: nat :| Leads(running, c, d, n);
      LeadsMore(running, p, c, d, n);
    }
  }

  lemma Behind(running: set<Plugin>, a: seq<Plugin>, b: seq<Plugin>, p: Plugin, d: Plugin)
    requires CleanupOrder(running, a + b) && p in b && d in a
    ensures !Before(a + b, p, d)
  {
    var all := a + b;
    var k :| 0 <= k < |b| && b[k] == p;
    var l :| 0 <= l < |a| && a[l] == d;
    assert all[|a| + k] == p && all[l] == d;
  }

  // Every running plugin goes before what it asks for.
  ghost predicate DependentsFirst(fold: Fold, ps: seq<Plugin>, running: set<Plugin>, cs: seq<Plugin>)
  {
    forall p, d :: p in running && d in cs && p != d && DependsOn(fold, ps, p, d) ==> Before(cs, p, d)
  }

  // Whatever asks for one of these leads to it by exact names.
  ghost predicate AskersLead(fold: Fold, ps: seq<Plugin>, running: set<Plugin>, gone: set<Plugin>)
  {
    forall p, d :: p in running && d in gone && DependsOn(fold, ps, p, d) ==> Doomed(running, d, p)
  }

  lemma AskersFirst(fold: Fold, ps: seq<Plugin>, running: set<Plugin>, cs: seq<Plugin>)
    requires CleanupOrder(running, cs) && AskersLead(fold, ps, running, Elements(cs))
    ensures DependentsFirst(fold, ps, running, cs)
  {
    hide CleanupOrder, Before, Doomed, DependsOn;
    forall p, d | p in running && d in cs && p != d && DependsOn(fold, ps, p, d) ensures Before(cs, p, d) {
      assert d in Elements(cs);
      DoomedBefore(running, cs, p, d);
    }
  }

  // Every order in which the same plugins could go takes dependents first, if and only if
  // whatever asks for one of them leads to it by exact names.
  lemma FirstIff(fold: Fold, ps: seq<Plugin>, running: set<Plugin>, cs: seq<Plugin>)
    requires CleanupOrder(running, cs)
    ensures
      (forall all: seq<Plugin> :: CleanupOrder(running, all) && Elements(all) == Elements(cs) ==>
        DependentsFirst(fold, ps, running, all)) <==>
      AskersLead(fold, ps, running, Elements(cs))
  {
    hide CleanupOrder, Before, Doomed, DependsOn;
    if AskersLead(fold, ps, running, Elements(cs)) {
      forall all: seq<Plugin> | CleanupOrder(running, all) && Elements(all) == Elements(cs)
        ensures DependentsFirst(fold, ps, running, all)
      {
        AskersFirst(fold, ps, running, all);
      }
    } else {
      var p, d :| p in running && d in Elements(cs) && DependsOn(fold, ps, p, d) && !Doomed(running, d, p);
      OrderIn(running, cs);
      DoomedSelf(running, d);
      if p in cs {
        var all := Aside(running, cs, p, d);
        assert d in Elements(all);
        assert !DependentsFirst(fold, ps, running, all);
      } else {
        NotBefore(cs, p, d);
        assert !DependentsFirst(fold, ps, running, cs);
      }
    }
  }

  lemma NotBefore(cs: seq<Plugin>, p: Plugin, d: Plugin)
    requires p !in cs
    ensures !Before(cs, p, d)
  {}

  // ----- the final loop -----

  // oonf_subsystem_cleanup: each plugin of the tree is cleaned up and taken out of it.
  ghost function SweepTree(running: set<Plugin>, ps: seq<Plugin>, fuel: nat): Option<seq<Plugin>>
  {
    if ps == [] then Some([]) else
    var a := Sweep(running, ps, ps[0], fuel);
    if a.None? then None else
    var b := SweepTree(running - Elements(a.value), ps[1..], fuel);
    if b.None? then None else Some(a.value + b.value)
  }

  ghost predicate SweepsTree(running: set<Plugin>, ps: seq<Plugin>, cs: seq<Plugin>)
  {
    exists fuel: nat :: SweepTree(running, ps, fuel) == Some(cs)
  }

  lemma SweepTreeIs(running: set<Plugin>, ps: seq<Plugin>, fuel: nat)
    requires SweepTree(running, ps, fuel).Some?
    ensures ps == [] ==> SweepTree(running, ps, fuel).value == []
    ensures ps != [] ==>
      && Sweep(running, ps, ps[0], fuel).Some?
      && var a := Sweep(running, ps, ps[0], fuel).value;
        Follows(SweepTree(running, ps, fuel).value, a, SweepTree(running - Elements(a), ps[1..], fuel))
  {}

  lemma LeftListed(running: set<Plugin>, ps: seq<Plugin>, fuel: nat)
    requires ps != [] && running <= Elements(ps) && Sweep(running, ps, ps[0], fuel).Some?
    ensures running - Elements(Sweep(running, ps, ps[0], fuel).value) <= Elements(ps[1..])
  {
    hide Sweep, CleanupOrder, Caused;
    SweepOrder(running, ps, ps[0], fuel);
    assert ps == [ps[0]] + ps[1..];
  }

  lemma {:induction false} TreeOrder(running: set<Plugin>, ps: seq<Plugin>, fuel: nat)
    requires running <= Elements(ps) && SweepTree(running, ps, fuel).Some?
    ensures
      var cs := SweepTree(running, ps, fuel).value;
      CleanupOrder(running, cs) && Elements(cs) == running
  {
    hide CleanupOrder, Caused, Sweep;
    OrderNone(running);
    if ps != [] {
      var a := Sweep(running, ps, ps[0], fuel).value;
      SweepOrder(running, ps, ps[0], fuel);
      LeftListed(running, ps, fuel);
      TreeOrder(running - Elements(a), ps[1..], fuel);
      CleanupAppend(running, a, SweepTree(running - Elements(a), ps[1..], fuel).value);
      OrderIn(running, a);
    }
  }

  lemma TreeInOrder(fold: Fold, ps: seq<Plugin>, running: set<Plugin>, fuel: nat)
    requires running <= Elements(ps) && SweepTree(running, ps, fuel).Some?
    ensures
      var cs := SweepTree(running, ps, fuel).value;
      && SweepsTree(running, ps, cs) && CleanupOrder(running, cs) && Elements(cs) == running
      && (AskersLead(fold, ps, running, running) ==> DependentsFirst(fold, ps, running, cs))
  {
    hide CleanupOrder, SweepTree, AskersLead, DependentsFirst;
    TreeOrder(running, ps, fuel);
    if AskersLead(fold, ps, running, running) {
      AskersFirst(fold, ps, running, SweepTree(running, ps, fuel).value);
    }
  }

  // No running plugin names itself in a circle.
  ghost predicate Ringless(running: set<Plugin>)
  {
    forall y :: y in running ==> !Above(running, y, y)
  }

  lemma RinglessLess(small: set<Plugin>, running: set<Plugin>)
    requires small <= running && Ringless(running)
    ensures Ringless(small) && forall x :: Unringed(small, x)
  {
    hide Above;
    forall y | y in small ensures !Above(small, y, y) {
      Wider(small, running, y);
    }
  }

  lemma {:induction false} TreeReturns(running: set<Plugin>, ps: seq<Plugin>, fuel: nat)
    requires running <= Elements(ps) && Ringless(running) && fuel >= |running|
    ensures SweepTree(running, ps, fuel).Some?
  {
    hide Ringless, Sweep, Unringed;
    if ps != [] {
      RinglessLess(running, running);
      ReturnsIff(running, ps, ps[0]);
      SweepMore(running, ps, ps[0], |running|, fuel);
      var left := running - Elements(Sweep(running, ps, ps[0], fuel).value);
      LeftListed(running, ps, fuel);
      RinglessLess(left, running);
      Fewer(left, running);
      TreeReturns(left, ps[1..], fuel);
    }
  }

  lemma {:induction false} Fewer(a: set<Plugin>, b: set<Plugin>)
    requires a <= b
    ensures |a| <= |b|
  {
    if a != {} {
      var x :| x in a;
      Fewer(a - {x}, b - {x});
    }
  }

  lemma {:induction false} RingEnds(running: set<Plugin>, ps: seq<Plugin>, fuel: nat, ring: set<Plugin>)
    requires Ring(ring) && ring <= running <= Elements(ps) && SweepTree(running, ps, fuel).Some?
    ensures ring == {}
  {
    hide Sweep, Ring;
    if ps != [] {
      RingStays(running, ps, ps[0], fuel, ring);
      LeftListed(running, ps, fuel);
      RingEnds(running - Elements(Sweep(running, ps, ps[0], fuel).value), ps[1..], fuel, ring);
    }
  }

  // The final loop returns if and only if no running plugin names itself in a circle.
  lemma TreeReturnsIff(running: set<Plugin>, ps: seq<Plugin>)
    requires running <= Elements(ps)
    ensures (exists fuel: nat :: SweepTree(running, ps, fuel).Some?) <==> Ringless(running)
    ensures Ringless(running) ==> SweepTree(running, ps, |running|).Some?
  {
    hide SweepTree, Above, Ring;
    if Ringless(running) {
      TreeReturns(running, ps, |running|);
    } else {
      var y :| y in running && Above(running, y, y);
      var ring := set b | b in running && Above(running, y, b);
      RingAbove(running, y, ring);
      assert y in ring;
      forall fuel: nat ensures SweepTree(running, ps, fuel).None? {
        if SweepTree(running, ps, fuel).Some? {
          RingEnds(running, ps, fuel, ring);
        }
      }
    }
  }

  // ----- what depends on the order of the tree -----

  // The same plugins in another order.
  ghost predicate IsTree(ps: seq<Plugin>, qs: seq<Plugin>)
  {
    NoDup(qs) && Elements(qs) == Elements(ps)
  }

  // Each plugin of the chain names the one before it.
  ghost predicate Chained(running: set<Plugin>, c: seq<Plugin>)
  {
    && c != [] && (forall i :: 0 <= i < |c| ==> c[i] in running)
    && (forall i :: 0 <= i < |c| - 1 ==> Spells(c[i + 1], c[i]))
  }

  lemma {:induction false} ChainOf(running: set<Plugin>, d: Plugin, x: Plugin, n: nat) returns (c: seq<Plugin>)
    requires Leads(running, d, x, n)
    ensures Chained(running, c) && c[0] == x && c[|c| - 1] == d
  {
    hide Spells;
    if n == 0 {
      c := [x];
    } else {
      var e :| e in running && Spells(d, e) && Leads(running, e, x, n - 1);
      c := ChainOf(running, e, x, n - 1);
      c := c + [d];
    }
  }

  lemma {:induction false} ChainLeads(running: set<Plugin>, c: seq<Plugin>, i: nat, j: nat)
    requires Chained(running, c) && i <= j < |c|
    ensures Leads(running, c[j], c[i], j - i)
  {
    hide Spells, Leads;
    LeadsNone(running, c[i]);
    if i < j {
      ChainLeads(running, c, i, j - 1);
      LeadsMore(running, c[j], c[j - 1], c[i], j - 1 - i);
    }
  }

  // Nothing on the chain leads back to itself.
  lemma ChainApart(running: set<Plugin>, c: seq<Plugin>, i: nat, j: nat)
    requires Chained(running, c) && Unringed(running, c[0]) && i <= j < |c|
    ensures !Spells(c[i], c[j]) && (i < j ==> c[i] != c[j])
  {
    hide Spells, Leads;
    ChainLeads(running, c, i, j);
    ChainLeads(running, c, 0, j);
    assert Doomed(running, c[0], c[j]);
    if Spells(c[i], c[j]) || (i < j && c[i] == c[j]) {
      Circle(running, c[j], c[i], j - i);
      assert false;
    }
  }

  lemma Circle(running: set<Plugin>, x: Plugin, d: Plugin, n: nat)
    requires x in running && Leads(running, x, d, n) && (Spells(d, x) || (n > 0 && d == x))
    ensures Above(running, x, x)
  {
    if Spells(d, x) {
      LeadsThen(running, x, d, x, n);
    }
  }

  // A tree in which the plugins of the chain come first.
  lemma ChainTree(running: set<Plugin>, ps: seq<Plugin>, c: seq<Plugin>) returns (qs: seq<Plugin>)
    requires NoDup(ps) && Chained(running, c) && running <= Elements(ps) && Unringed(running, c[0])
    ensures IsTree(ps, qs) && c[1..] <= qs
  {
    hide Spells, Unringed;
    var front := c[1..];
    forall i, j | 0 <= i < j < |front| ensures front[i] != front[j] {
      ChainApart(running, c, i + 1, j + 1);
    }
    var rest := Picked(ps, Elements(front), false);
    PickedIn(ps, Elements(front), false);
    PickedNoDup(ps, Elements(front), false);
    NoDupConcat(front, rest);
    qs := front + rest;
    assert forall q :: q in front ==> q in running;
    assert forall q :: q in qs <==> q in ps;
    assert Elements(qs) == Elements(ps);
  }

  lemma {:induction false} PickedNoDup(cs: seq<Plugin>, chosen: set<Plugin>, flag: bool)
    requires NoDup(cs)
    ensures NoDup(Picked(cs, chosen, flag))
  {
    if cs != [] {
      var front, last := cs[..|cs| - 1], cs[|cs| - 1];
      PickedNoDup(front, chosen, flag);
      PickedIn(front, chosen, flag);
      assert forall i :: 0 <= i < |front| ==> front[i] != last;
      NoDupConcat(Picked(front, chosen, flag), [last]);
    }
  }

  // The loop begins with the first plugin of the tree that names x.
  lemma {:induction false} FirstCall(running: set<Plugin>, ps: seq<Plugin>, rest: seq<Plugin>, x: Plugin, fuel: nat, k: nat)
    requires SweepAll(running, ps, rest, x, fuel).Some? && k < |rest| && Spells(rest[k], x)
    requires forall j :: 0 <= j < k ==> !Spells(rest[j], x)
    ensures Sweep(running, ps, rest[k], fuel).Some?
    ensures Sweep(running, ps, rest[k], fuel).value <= SweepAll(running, ps, rest, x, fuel).value
  {
    hide Spells, Sweep;
    if k > 0 {
      FirstCall(running, ps, rest[1..], x, fuel, k - 1);
    }
  }

  // In that tree the cleanup of the first plugin of the chain begins with that of the last one.
  lemma {:induction false} ChainFirst(running: set<Plugin>, qs: seq<Plugin>, c: seq<Plugin>, i: nat, fuel: nat)
      returns (f: nat)
    requires Chained(running, c) && Unringed(running, c[0]) && c[1..] <= qs && i < |c|
    requires Sweep(running, qs, c[i], fuel).Some?
    ensures Sweep(running, qs, c[|c| - 1], f).Some?
    ensures Sweep(running, qs, c[|c| - 1], f).value <= Sweep(running, qs, c[i], fuel).value
    decreases |c| - i
  {
    hide Spells, SweepAll, Unringed;
    f := fuel;
    if i < |c| - 1 {
      assert forall j :: 0 <= j <= i ==> qs[j] == c[1..][j] == c[j + 1];
      forall j | 0 <= j < i ensures !Spells(qs[j], c[i]) {
        ChainApart(running, c, j + 1, i);
      }
      FirstCall(running, qs, qs, c[i], fuel - 1, i);
      f := ChainFirst(running, qs, c, i + 1, fuel - 1);
    }
  }

  // With d at the front of what is cleaned up, a plugin that does not lead to it comes later.
  lemma FrontFirst(running: set<Plugin>, qs: seq<Plugin>, p: Plugin, d: Plugin, f: nat, cs: seq<Plugin>)
    requires running <= Elements(qs) && d in running && !Doomed(running, d, p) && CleanupOrder(running, cs)
    requires Sweep(running, qs, d, f).Some? && Sweep(running, qs, d, f).value <= cs
    ensures d in cs && !Before(cs, p, d)
  {
    hide CleanupOrder, Caused, Doomed, Before, Sweep;
    var a := Sweep(running, qs, d, f).value;
    SweepOrder(running, qs, d, f);
    CleanedIff(running, d, a);
    var b := cs[|a|..];
    assert cs == a + b && a[|a| - 1] in cs;
    if p in b {
      Behind(running, a, b, p, d);
    } else {
      NotBefore(cs, p, d);
    }
  }

  lemma KeyedApartAll(fold: Fold, ps: seq<Plugin>)
    requires Keyed(fold, ps)
    ensures NoDup(ps)
  {}

  // The cleanup of x takes dependents first in whatever order the tree has its plugins, if
  // and only if whatever asks for a plugin that goes leads to that plugin by exact names.
  lemma CleanupFirstIff(fold: Fold, ps: seq<Plugin>, running: set<Plugin>, x: Plugin)
    requires Keyed(fold, ps) && running <= Elements(ps) && Unringed(running, x) && x in running
    ensures
      (forall qs: seq<Plugin>, cs: seq<Plugin> :: IsTree(ps, qs) && Sweeps(running, qs, x, cs) ==>
        DependentsFirst(fold, ps, running, cs)) <==>
      AskersLead(fold, ps, running, set y | y in running && Doomed(running, x, y))
  {
    hide CleanupOrder, Caused, Before, Doomed, DependsOn, Sweep, Unringed, Keyed;
    var gone := set y | y in running && Doomed(running, x, y);
    if AskersLead(fold, ps, running, gone) {
      forall qs: seq<Plugin>, cs: seq<Plugin> | IsTree(ps, qs) && Sweeps(running, qs, x, cs)
        ensures DependentsFirst(fold, ps, running, cs)
      {
        SweepsDown(running, qs, x, cs);
        assert Elements(cs) == gone;
        AskersFirst(fold, ps, running, cs);
      }
    } else {
      var p, d :| p in running && d in gone && DependsOn(fold, ps, p, d) && !Doomed(running, d, p);
      DoomedSelf(running, d);
      var qs, cs := BadTree(fold, ps, running, x, p, d);
      assert !DependentsFirst(fold, ps, running, cs);
    }
  }

  lemma SweepsDown(running: set<Plugin>, qs: seq<Plugin>, x: Plugin, cs: seq<Plugin>)
    requires running <= Elements(qs) && Sweeps(running, qs, x, cs)
    ensures CleanupOrder(running, cs) && Caused(x, cs)
    ensures if x in running then cs != [] && cs[|cs| - 1] == x else cs == []
    ensures forall y :: y in cs <==> y in running && Doomed(running, x, y)
  {
    hide CleanupOrder, Caused, Doomed, Sweep;
    var fuel: nat :| Sweep(running, qs, x, fuel) == Some(cs);
    SweepOrder(running, qs, x, fuel);
    CleanedIff(running, x, cs);
    OrderIn(running, cs);
  }

  lemma BadTree(fold: Fold, ps: seq<Plugin>, running: set<Plugin>, x: Plugin, p: Plugin, d: Plugin)
      returns (qs: seq<Plugin>, cs: seq<Plugin>)
    requires Keyed(fold, ps) && running <= Elements(ps) && Unringed(running, x)
    requires d in running && Doomed(running, x, d) && !Doomed(running, d, p)
    ensures IsTree(ps, qs) && Sweeps(running, qs, x, cs) && d in cs && !Before(cs, p, d)
  {
    hide CleanupOrder, Caused, Before, Sweep, Unringed, Keyed, Leads, Chained;
    var n: nat :| Leads(running, d, x, n);
    var c := ChainOf(running, d, x, n);
    ChainNotNone(running, c);
    KeyedApartAll(fold, ps);
    qs := ChainTree(running, ps, c);
    ReturnsIff(running, qs, x);
    var fuel: nat :| Sweep(running, qs, x, fuel).Some?;
    cs := Sweep(running, qs, x, fuel).value;
    SweepOrder(running, qs, x, fuel);
    var f := ChainFirst(running, qs, c, 0, fuel);
    FrontFirst(running, qs, p, d, f, cs);
  }

  lemma ChainNotNone(running: set<Plugin>, c: seq<Plugin>)
    requires Chained(running, c)
    ensures c != [] && forall q :: q in c ==> q in running
  {}

  // The same for the final loop.
  lemma TreeFirstIff(fold: Fold, ps: seq<Plugin>, running: set<Plugin>)
    requires Keyed(fold, ps) && running <= Elements(ps) && Ringless(running)
    ensures
      (forall qs: seq<Plugin>, cs: seq<Plugin> :: IsTree(ps, qs) && SweepsTree(running, qs, cs) ==>
        DependentsFirst(fold, ps, running, cs)) <==>
      AskersLead(fold, ps, running, running)
  {
    hide CleanupOrder, Caused, Before, Doomed, DependsOn, Sweep, SweepTree, Ringless, Keyed;
    if AskersLead(fold, ps, running, running) {
      forall qs: seq<Plugin>, cs: seq<Plugin> | IsTree(ps, qs) && SweepsTree(running, qs, cs)
        ensures DependentsFirst(fold, ps, running, cs)
      {
        var fuel: nat :| SweepTree(running, qs, fuel) == Some(cs);
        TreeOrder(running, qs, fuel);
        AskersFirst(fold, ps, running, cs);
      }
    } else {
      var p, d :| p in running && d in running && DependsOn(fold, ps, p, d) && !Doomed(running, d, p);
      DoomedSelf(running, d);
      var qs, cs := WorseTree(fold, ps, running, p, d);
      assert !DependentsFirst(fold, ps, running, cs);
    }
  }

  lemma WorseTree(fold: Fold, ps: seq<Plugin>, running: set<Plugin>, p: Plugin, d: Plugin)
      returns (qs: seq<Plugin>, cs: seq<Plugin>)
    requires Keyed(fold, ps) && running <= Elements(ps) && Ringless(running)
    requires d in running && !Doomed(running, d, p)
    ensures IsTree(ps, qs) && SweepsTree(running, qs, cs) && d in cs && !Before(cs, p, d)
  {
    hide CleanupOrder, Caused, Before, Sweep, Ringless, Keyed, Doomed;
    KeyedApartAll(fold, ps);
    PickedIn(ps, {d}, false);
    PickedNoDup(ps, {d}, false);
    var rest := Picked(ps, {d}, false);
    NoDupConcat([d], rest);
    qs := [d] + rest;
    assert forall q :: q in qs <==> q in ps;
    assert Elements(qs) == Elements(ps);
    TreeReturnsIff(running, qs);
    var fuel: nat :| SweepTree(running, qs, fuel).Some?;
    cs := SweepTree(running, qs, fuel).value;
    TreeOrder(running, qs, fuel);
    FrontFirst(running, qs, p, d, fuel, cs);
  }
}
