// src-api/core/oonf_subsystem.c: starting plugins with their dependencies and cleaning
// them up with everything that depends on them.
module Subsystems {
  import opened Options
  import opened PluginCleanups
  import opened PluginStarts
  import opened Plugins
  import opened Sequences

  class Core {
    const fold: Fold
    // what the n-th attempt to start a plugin meets in the outside world
    const reloadFails: nat -> bool
    const initFails: nat -> bool
    var plugins: seq<Plugin>
    var attempts: nat
    ghost var events: seq<Event>
    ghost var clock: nat

    constructor (fold: Fold, reloadFails: nat -> bool, initFails: nat -> bool, plugins: seq<Plugin>)
      requires Keyed(fold, plugins) && forall p :: p in plugins ==> !p.initialized
      ensures Inv() && Closed() && Ordered() && events == [] && attempts == 0 && this.plugins == plugins && this.fold == fold
      ensures this.reloadFails == reloadFails && this.initFails == initFails
    {
      this.fold, this.reloadFails, this.initFails, this.plugins := fold, reloadFails, initFails, plugins;
      attempts, events, clock := 0, [], 0;
    }

    ghost predicate Inv()
      reads `plugins, `clock, plugins`initialized, plugins`stamp, plugins`dependencyMissing
    {
      && Keyed(fold, plugins)
      && (forall p :: p in plugins && p.initialized ==> !p.dependencyMissing && p.stamp < clock)
    }

    // What a running plugin names is running, and has been for longer.
    ghost predicate Ordered()
      reads `plugins, plugins`initialized, plugins`stamp
    {
      forall p, d :: p in Running() && d in plugins && Spells(p, d) ==> d in Running() && d.stamp < p.stamp
    }

    ghost function Running(): set<Plugin>
      reads `plugins, plugins`initialized
    {
      set p | p in plugins && p.initialized
    }

    ghost function Marked(): set<Plugin>
      reads `plugins, plugins`dependencyMissing
    {
      set p | p in plugins && p.dependencyMissing
    }

    // Every dependency of a running plugin is present and running.
    ghost predicate Closed()
      reads this, plugins
    {
      ClosedUnder(fold, plugins, Running())
    }

    // A dependency that is not in the tree at all.
    ghost predicate Lacks(p: Plugin)
      reads `plugins
    {
      exists i :: 0 <= i < |p.dependencies| && Get(fold, plugins, p.dependencies[i]) == null
    }

    // Why a start ended at last.
    ghost predicate Reason(fate: Fate, marked: set<Plugin>, path: seq<Plugin>)
      requires path != []
      reads `plugins, `attempts, plugins`initialized
    {
      var last := path[|path| - 1];
      && (fate == Circular ==> RunsInto(marked, path))
      && (fate == Absent ==> Lacks(last))
      && (fate == ReloadRefused ==> last.dynamic && reloadFails(attempts) && Ready(last))
      && (fate == InitRefused ==> initFails(attempts) && Ready(last))
    }

    // Everything p asks for is running.
    ghost predicate Ready(p: Plugin)
      reads `plugins, plugins`initialized
    {
      Served(fold, plugins, p, |p.dependencies|, Running())
    }

    // The attempts that started news, one after the other, met no obstacle.
    ghost predicate Granted(before: nat, news: seq<Plugin>)
    {
      forall i :: 0 <= i < |news| ==> Allows(news[i], before + i + 1)
    }

    predicate Allows(p: Plugin, attempt: nat)
    {
      !initFails(attempt) && (p.dynamic ==> !reloadFails(attempt))
    }

    lemma GrantedAppend(before: nat, a: seq<Plugin>, b: seq<Plugin>)
      requires Granted(before, a) && Granted(before + |a|, b)
      ensures Granted(before, a + b)
    {
      var c := a + b;
      forall i | 0 <= i < |c| ensures Allows(c[i], before + i + 1) {
        if i < |a| {
          assert c[i] == a[i];
        } else {
          assert c[i] == b[i - |a|];
        }
      }
    }

    // What two starts in a row have done together.
    lemma Advance(running: set<Plugin>, marks: set<Plugin>, allMarks: set<Plugin>, log: seq<Event>, tries: nat,
        later: nat, news: seq<Plugin>, more: seq<Plugin>, tail: seq<Event>)
      requires StartOrder(fold, plugins, running, news) && StartOrder(fold, plugins, running + Elements(news), more)
      requires Granted(tries, news) && Granted(later, more) && later == tries + |news|
      requires Spares(news, marks) && Spares(more, allMarks) && marks <= allMarks
      ensures StartOrder(fold, plugins, running, news + more) && Granted(tries, news + more)
      ensures Spares(news + more, marks) && forall m :: m in allMarks ==> m !in Elements(more)
      ensures running + Elements(news) + Elements(more) == running + Elements(news + more)
      ensures log + InitEvents(news) + (InitEvents(more) + tail) == log + (InitEvents(news + more) + tail)
    {
      hide StartOrder, Granted, Elements, InitEvents;
      StartOrderAppend(fold, plugins, running, news, more);
      GrantedAppend(tries, news, more);
    }

    lemma GrantedNone(before: nat)
      ensures Granted(before, [])
    {}

    // How many attempts a start has made.
    function Tries(fate: Fate, news: seq<Plugin>): nat
    {
      |news| + if fate in {ReloadRefused, InitRefused} then 1 else 0
    }

    // A start that failed further down has failed here.
    lemma Forward(fate: Fate, marked: set<Plugin>, running: set<Plugin>, more: set<Plugin>, p: Plugin, dep: Plugin,
        path: seq<Plugin>)
      requires path != [] && path[0] == dep && Path(fold, plugins, path) && DependsOn(fold, plugins, p, dep)
      requires Reason(fate, marked + {p}, path) && p !in running && running <= more && Spares(path, more)
      ensures Spares([p] + path, running)
      ensures Path(fold, plugins, [p] + path) && Reason(fate, marked, [p] + path)
      ensures Marks(marked + {p}, fate, path) == Marks(marked, fate, [p] + path)
    {
      PathCons(fold, plugins, p, path);
      MarksCons(marked, p, fate, path);
      if fate == Circular {
        RunsIntoCons(marked, p, path);
      }
    }

    // _init_plugin. The plugins started by this call are news, in the order of their
    // init callbacks; path leads to the plugin where it failed.
    method InitPlugin(plugin: Plugin)
        returns (result: int, ghost fate: Fate, ghost news: seq<Plugin>, ghost path: seq<Plugin>)
      requires Inv() && plugin in plugins
      modifies `attempts, `events, `clock, plugins
      decreases Elements(plugins) - Marked() - {plugin}
      ensures Inv() && (old(Ordered()) ==> Ordered()) && result == fate.Code()
      ensures Running() == old(Running()) + Elements(news) && StartOrder(fold, plugins, old(Running()), news)
      ensures Spares(news, old(Marked()) - {plugin})
      ensures fate == Up ==> plugin in Running() && path == [plugin] && Needed(fold, plugins, plugin, news)
      ensures fate == Up && news != [] ==> news[|news| - 1] == plugin
      ensures path != [] && path[0] == plugin && Path(fold, plugins, path)
      ensures Reason(fate, old(Marked()), path) && (fate != Up ==> Spares(path, old(Running())))
      ensures events == old(events) + (InitEvents(news) + Failure(fate, path[|path| - 1]))
      ensures Granted(old(attempts), news) && attempts == old(attempts) + Tries(fate, news)
      ensures Marked() == Marks(old(Marked()), fate, path)
    {
      hide Inv, NoDup, StartOrder, Path, RunsInto, DependsOn, Spells, Running, Marked, Elements, InitEvents, Get,
        Lacks, Marks, Reason, Needed, Granted, Served, Spares, Failure, Ordered;
      PathOne(fold, plugins, plugin);
      GrantedNone(attempts);
      StartOrderNone(fold, plugins, Running(), Marked() - {plugin});
      NeededNone(fold, plugins, plugin);
      ServedNone(fold, plugins, plugin, Running());
      Facts(plugin);
      news, path, fate := [], [plugin], Up;
      if plugin.initialized {
        Fine(Marked(), plugin);
        return 0, Up, [], [plugin];
      }
      ghost var running, marked := Running(), Marked();
      SetMark(plugin, true);
      var i := 0;
      while i < |plugin.dependencies|
        invariant i <= |plugin.dependencies|
        invariant Inv() && plugin !in Running() && Marked() == marked + {plugin} && (old(Ordered()) ==> Ordered())
        invariant Running() == running + Elements(news) && StartOrder(fold, plugins, running, news)
        invariant Spares(news, marked - {plugin})
        invariant events == old(events) + InitEvents(news)
        invariant Needed(fold, plugins, plugin, news)
        invariant Granted(old(attempts), news) && attempts == old(attempts) + |news|
        invariant Served(fold, plugins, plugin, i, Running())
      {
        var dep := Get(fold, plugins, plugin.dependencies[i]);
        if dep == null {
          Missing(plugin, i, marked, running);
          return -1, Absent, news, [plugin];
        }
        GetIn(fold, plugins, plugin.dependencies[i]);
        Asks(fold, plugins, plugin, i);
        Facts(dep);
        if dep.dependencyMissing {
          Circle(marked, running, plugin, dep);
          return 1, Circular, news, [plugin] + [dep];
        }
        ghost var more;
        assert Marked() - {dep} == marked + {plugin};
        ghost var tries := attempts;
        result, fate, more, path := InitPlugin(dep);
        Advance(running, marked - {plugin}, marked + {plugin}, old(events), old(attempts), tries, news, more,
          Failure(fate, path[|path| - 1]));
        if result != 0 {
          Forward(fate, marked, running, running + Elements(news), plugin, dep, path);
          news, path := news + more, [plugin] + path;
          return;
        }
        NeededAppend(fold, plugins, plugin, news, dep, more);
        MarksOne(marked + {plugin}, dep, Up);
        ServedMore(fold, plugins, plugin, i, running + Elements(news), Running());
        news := news + more;
        i := i + 1;
      }
      var end;
      end, news := Conclude(plugin, marked, running, news, old(events), old(attempts));
      return end.Code(), end, news, [plugin];
    }

    // What the start has done when the dependencies are up and the plugin has been tried.
    method Conclude(plugin: Plugin, ghost marked: set<Plugin>, ghost running: set<Plugin>, ghost before: seq<Plugin>,
        ghost log: seq<Event>, ghost tries: nat) returns (fate: Fate, ghost news: seq<Plugin>)
      requires Inv() && plugin in plugins && plugin !in Running() && plugin !in running && Ready(plugin)
      requires Marked() == marked + {plugin} && Running() == running + Elements(before)
      requires StartOrder(fold, plugins, running, before) && Spares(before, marked - {plugin})
      requires Needed(fold, plugins, plugin, before) && events == log + InitEvents(before)
      requires Granted(tries, before) && attempts == tries + |before|
      modifies `attempts, `events, `clock, plugin
      ensures Inv() && (old(Ordered()) ==> Ordered()) && fate !in {Circular, Absent}
      ensures Running() == running + Elements(news) && StartOrder(fold, plugins, running, news)
      ensures Spares(news, marked - {plugin})
      ensures fate == Up ==> plugin in Running() && Needed(fold, plugins, plugin, news) && news == before + [plugin]
      ensures Reason(fate, marked, [plugin]) && (fate != Up ==> Spares([plugin], running))
      ensures events == log + (InitEvents(news) + Failure(fate, plugin))
      ensures Granted(tries, news) && attempts == tries + Tries(fate, news)
      ensures Marked() == Marks(marked, fate, [plugin])
    {
      hide Inv, NoDup, StartOrder, Path, RunsInto, DependsOn, Spells, Running, Marked, Elements, InitEvents, Get,
        Lacks, Marks, Reason, Needed, Granted, Served, Spares, Failure, Ordered;
      news := before;
      fate := Activate(plugin, marked, running);
      if fate == Up {
        Advance(running, marked - {plugin}, marked - {plugin}, log, tries, attempts - 1, news, [plugin], []);
        NeededLast(fold, plugins, plugin, news);
        news := news + [plugin];
      }
    }

    // The end of _init_plugin: the dependencies are up.
    method Activate(plugin: Plugin, ghost marked: set<Plugin>, ghost running: set<Plugin>) returns (fate: Fate)
      requires Inv() && plugin in plugins && plugin !in Running() && plugin !in running && Ready(plugin)
      modifies `attempts, `events, `clock, plugin
      ensures Inv() && (old(Ordered()) ==> Ordered()) && fate in {Up, ReloadRefused, InitRefused}
      ensures Reason(fate, marked, [plugin]) && Spares([plugin], running) && Marked() == old(Marked()) - {plugin}
      ensures Marks(marked, fate, [plugin]) == marked - {plugin}
      ensures fate == Up ==> Running() == old(Running()) + {plugin} && plugin in Running()
      ensures fate == Up ==> StartOrder(fold, plugins, old(Running()), [plugin]) && Elements([plugin]) == {plugin}
      ensures fate == Up ==> Spares([plugin], marked - {plugin}) && Failure(Up, plugin) == []
      ensures fate != Up ==> Running() == old(Running())
      ensures events == old(events) + if fate == Up then InitEvents([plugin]) else Failure(fate, plugin)
      ensures (fate == Up ==> Granted(old(attempts), [plugin])) && attempts == old(attempts) + 1
    {
      hide Inv, NoDup, StartOrder, Path, RunsInto, DependsOn, Spells, Running, Marked, Elements, InitEvents, Get,
        Lacks, Marks, Reason, Needed, Granted, Served, Ordered;
      SparesOne(plugin, running);
      Facts(plugin);
      SetMark(plugin, false);
      attempts := attempts + 1;
      if plugin.dynamic && reloadFails(attempts) {
        events := events + [ReloadFailed(plugin)];
        Refused(ReloadRefused, marked, plugin);
        return ReloadRefused;
      }
      if initFails(attempts) {
        events := events + [InitFailed(plugin)];
        Refused(InitRefused, marked, plugin);
        return InitRefused;
      }
      events := events + [Init(plugin)];
      Facts(plugin);
      StartOrderLast(fold, plugins, Running(), plugin);
      Start(plugin);
      Fine(marked, plugin);
      Facts(plugin);
      Allowed(plugin);
      return Up;
    }

    lemma Allowed(plugin: Plugin)
      requires attempts > 0 && Allows(plugin, attempts)
      ensures Granted(attempts - 1, [plugin])
    {}

    lemma Fine(marked: set<Plugin>, plugin: Plugin)
      ensures Reason(Up, marked, [plugin]) && Marks(marked, Up, [plugin]) == marked - {plugin}
      ensures Spares([plugin], marked - {plugin}) && Failure(Up, plugin) == []
    {
      MarksOne(marked, plugin, Up);
    }

    lemma Refused(fate: Fate, marked: set<Plugin>, plugin: Plugin)
      requires fate == ReloadRefused ==> plugin.dynamic && reloadFails(attempts)
      requires fate == InitRefused ==> initFails(attempts)
      requires fate in {ReloadRefused, InitRefused} && Ready(plugin)
      ensures Reason(fate, marked, [plugin]) && Marks(marked, fate, [plugin]) == marked - {plugin}
    {
      MarksOne(marked, plugin, fate);
    }

    lemma Circle(marked: set<Plugin>, running: set<Plugin>, plugin: Plugin, dep: Plugin)
      requires plugin !in running && dep !in running
      requires dep in marked + {plugin} && DependsOn(fold, plugins, plugin, dep)
      ensures Reason(Circular, marked, [plugin] + [dep]) && Path(fold, plugins, [plugin] + [dep])
      ensures Spares([plugin] + [dep], running)
      ensures Marks(marked, Circular, [plugin] + [dep]) == marked + {plugin} && Failure(Circular, dep) == []
    {
      PathOne(fold, plugins, dep);
      PathCons(fold, plugins, plugin, [dep]);
      MarksTwo(marked, plugin, dep);
      RunsIntoStart(marked, plugin, dep);
    }

    // oonf_subsystem_hook: a plugin joins the tree, at the place its name has there. It may
    // carry the name of one that was unloaded from under a running plugin.
    method Hook(plugin: Plugin, at: nat)
      requires Inv() && !plugin.initialized && at <= |plugins|
      modifies `plugins
      ensures Inv() && Running() == old(Running()) && (old(Closed()) ==> Closed())
      ensures plugins ==
        if Get(fold, old(plugins), plugin.name) != null then old(plugins) else Inserted(old(plugins), at, plugin)
      ensures Ordered() <==> old(Ordered()) && (plugins == old(plugins) || forall p :: p in Running() ==> !Spells(p, plugin))
      ensures old(Closed()) && old(Ordered()) ==> Ordered()
    {
      if Get(fold, plugins, plugin.name) == null {
        KeyedInserted(fold, plugins, at, plugin);
        if Closed() {
          Joined(at, plugin);
        }
        assert Inserted(plugins, at, plugin)[at] == plugin;
        plugins := Inserted(plugins, at, plugin);
      }
    }

    lemma Joined(at: nat, plugin: Plugin)
      requires Closed() && at <= |plugins| && Get(fold, plugins, plugin.name) == null
      ensures ClosedUnder(fold, Inserted(plugins, at, plugin), Running())
      ensures forall p :: p in Running() ==> !Spells(p, plugin)
    {
      forall p, i | p in Running() && 0 <= i < |p.dependencies|
        ensures p.dependencies[i] != plugin.name
        ensures Get(fold, Inserted(plugins, at, plugin), p.dependencies[i]) == Get(fold, plugins, p.dependencies[i])
      {
        GetInserted(fold, plugins, at, plugin, p.dependencies[i]);
      }
    }

    // The callbacks of a start and the marks it leaves, case by case.
    ghost predicate Outcome(result: int, plugin: Plugin, before: set<Plugin>, news: seq<Plugin>, path: seq<Plugin>,
        log: seq<Event>)
      reads `plugins, `attempts, plugins`initialized, plugins`dependencyMissing
    {
      && path != [] && path[0] == plugin && Path(fold, plugins, path)
      && |log| >= |news| && (forall i :: 0 <= i < |news| ==> log[i] == Init(news[i]))
      && var way, last, more := path[..|path| - 1], path[|path| - 1], log[|news|..];
        if result == 0 then more == [] && path == [plugin] && Marked() == before - {plugin}
        else if result == 1 then more == [] && RunsInto(before, path) && Marked() == before + Elements(way)
        else if more == [] then result == -1 && Lacks(last) && Marked() == before + Elements(path)
        else
          && result == -1 && Ready(last) && Marked() == before + Elements(way) - {last}
          && ((more == [ReloadFailed(last)] && last.dynamic && reloadFails(attempts))
            || (more == [InitFailed(last)] && initFails(attempts)))
    }

    lemma OutcomeIs(fate: Fate, plugin: Plugin, before: set<Plugin>, news: seq<Plugin>, path: seq<Plugin>)
      requires path != [] && path[0] == plugin && Path(fold, plugins, path) && Reason(fate, before, path)
      requires Marked() == Marks(before, fate, path) && (fate == Up ==> path == [plugin])
      ensures Outcome(fate.Code(), plugin, before, news, path, InitEvents(news) + Failure(fate, path[|path| - 1]))
    {
      hide Path, RunsInto, Ready, Lacks, Marked;
      var log := InitEvents(news) + Failure(fate, path[|path| - 1]);
      assert log[|news|..] == Failure(fate, path[|path| - 1]);
    }

    // oonf_subsystem_call_init.
    method CallInit(plugin: Plugin, ghost group: set<Plugin>, ghost rank: Plugin -> nat)
        returns (result: int, ghost news: seq<Plugin>, ghost path: seq<Plugin>)
      requires Inv() && plugin in plugins
      modifies `attempts, `events, `clock, plugins
      ensures Inv() && (old(Ordered()) ==> Ordered()) && (old(Closed()) ==> Closed())
      ensures Running() == old(Running()) + Elements(news) && StartOrder(fold, plugins, old(Running()), news)
      ensures old(events) <= events && Outcome(result, plugin, old(Marked()), news, path, events[|old(events)|..])
      ensures result == 0 ==> plugin in Running() && Needed(fold, plugins, plugin, news)
      ensures result == 1 ==> Path(fold, plugins, path) && path[0] == plugin && RunsInto(old(Marked()), path)
      ensures
        && result == 1
        && (forall way: seq<Plugin> :: Path(fold, plugins, way) && way[0] == plugin ==> way[|way| - 1] !in old(Marked()))
        ==> path[|path| - 1] in path[..|path| - 1]
      ensures
        && Complete(fold, plugins, group) && plugin in group && Startable(fold, plugins, old(Running()) * group, rank)
        && old(Closed()) && (forall n :: !reloadFails(n) && !initFails(n))
        ==> (result == 1 <==>
          exists way: seq<Plugin> :: Path(fold, plugins, way) && way[0] == plugin && RunsInto(old(Marked()), way))
      ensures
        && Startable(fold, plugins, group, rank) && plugin in group
        && old(Closed()) && (forall n :: !reloadFails(n) && !initFails(n))
        ==> (result == 1 <==>
          exists way: seq<Plugin> :: Path(fold, plugins, way) && |way| >= 2 && way[0] == plugin
            && way[|way| - 1] in old(Marked()))
      ensures
        && Startable(fold, plugins, group, rank) && plugin in group && old(Marked()) !! group
        && (forall n :: !reloadFails(n) && !initFails(n))
        ==> result == 0 && Elements(news) <= group && events == old(events) + InitEvents(news)
    {
      hide Inv, Ordered, Path, StartOrder, Needed, Marks, Spares, RunsInto, InitEvents, Reason, Startable,
        Complete, Granted, Marked, Running, Outcome, Failure;
      ghost var running, marked := Running(), Marked();
      Unmarked();
      ghost var fate;
      result, fate, news, path := InitPlugin(plugin);
      assert events[|old(events)|..] == InitEvents(news) + Failure(fate, path[|path| - 1]);
      OutcomeIs(fate, plugin, marked, news, path);
      if old(Closed()) {
        StartKeepsClosed(fold, plugins, running, news);
      }
      if result == 1 {
        Given(fate, marked, path);
      }
      if old(Closed()) && plugin in group && (forall n :: !reloadFails(n) && !initFails(n)) {
        if Startable(fold, plugins, group, rank) {
          StartableComplete(fold, plugins, running, group, rank);
        }
        if Complete(fold, plugins, group) && Startable(fold, plugins, running * group, rank) {
          CircularIff(plugin, group, rank, running, marked, fate, news, path);
        }
        if Startable(fold, plugins, group, rank) {
          StartableRunsInto(fold, plugins, group, rank, marked, plugin);
        }
      }
      if Startable(fold, plugins, group, rank) && plugin in group && old(Marked()) !! group
        && forall n :: !reloadFails(n) && !initFails(n) {
        Succeeds(group, rank, old(Marked()), fate, path);
        Fine(marked, plugin);
        StartableComplete(fold, plugins, {}, group, rank);
        NeededWithin(fold, plugins, group, plugin, news);
      }
    }

    lemma Unmarked()
      requires Inv()
      ensures Running() !! Marked()
    {}

    lemma Given(fate: Fate, marked: set<Plugin>, path: seq<Plugin>)
      requires fate == Circular && path != [] && Reason(fate, marked, path)
      ensures RunsInto(marked, path)
    {}

    // When all that a start can need is there and the callbacks succeed, it is circular
    // exactly if some path runs into a mark or into itself.
    lemma CircularIff(plugin: Plugin, group: set<Plugin>, rank: Plugin -> nat, running: set<Plugin>, marked: set<Plugin>,
        fate: Fate, news: seq<Plugin>, path: seq<Plugin>)
      requires Complete(fold, plugins, group) && plugin in group && Startable(fold, plugins, running * group, rank)
      requires forall n :: !reloadFails(n) && !initFails(n)
      requires running !! marked && Spares(news, marked - {plugin}) && StartOrder(fold, plugins, running, news)
      requires ClosedUnder(fold, plugins, running + Elements(news))
      requires fate == Up ==> plugin in running + Elements(news) && Needed(fold, plugins, plugin, news)
      requires path != [] && path[0] == plugin && Path(fold, plugins, path) && Reason(fate, marked, path)
      ensures fate == Circular <==>
        exists way: seq<Plugin> :: Path(fold, plugins, way) && way[0] == plugin && RunsInto(marked, way)
    {
      hide Complete, Startable, StartOrder, Needed, ClosedUnder;
      CompletePath(fold, plugins, group, path);
      CompleteLacksNot(fold, plugins, group, path[|path| - 1]);
      if fate == Up {
        NeededWithin(fold, plugins, group, plugin, news);
        StartOrderWithin(fold, plugins, running, group, news);
        forall way: seq<Plugin> | Path(fold, plugins, way) && way[0] == plugin ensures !RunsInto(marked, way) {
          CycleNeverUp(fold, plugins, running * group, rank, news, way);
          ClosedReaches(fold, plugins, running + Elements(news), way);
          assert |way| > 1 ==> way[..|way| - 1][0] == plugin;
        }
      }
    }

    // A startable group leaves only the callbacks as a reason to fail.
    lemma Succeeds(group: set<Plugin>, rank: Plugin -> nat, marked: set<Plugin>, fate: Fate, path: seq<Plugin>)
      requires Startable(fold, plugins, group, rank) && path != [] && path[0] in group && marked !! group
      requires Path(fold, plugins, path) && Reason(fate, marked, path)
      ensures fate !in {Circular, Absent} && ((forall n :: !reloadFails(n) && !initFails(n)) ==> fate == Up)
    {
      StartablePath(fold, plugins, group, rank, path, |path| - 1);
    }

    // The first callback fails: it was that of a plugin below p, and p keeps its mark.
    lemma FirstRefused(p: Plugin, fate: Fate, news: seq<Plugin>, path: seq<Plugin>)
      requires p.dependencies != []
      requires initFails(1) && forall n :: !reloadFails(n)
      requires Granted(0, news) && Running() == Elements(news) && (fate == Up ==> p in Running())
      requires fate !in {Circular, Absent}
      requires path != [] && path[0] == p && Reason(fate, {}, path) && Marked() == Marks({}, fate, path)
      ensures fate == InitRefused && news == [] && Running() == {} && p in Marked()
    {
      if news != [] {
        NotGranted(news);
        assert false;
      }
      var last := path[|path| - 1];
      if last.dependencies != [] {
        NotServed(fold, plugins, last);
      }
      assert path[..|path| - 1][0] == p;
    }

    lemma NotGranted(news: seq<Plugin>)
      requires news != [] && initFails(1)
      ensures !Granted(0, news)
    {
      assert !Allows(news[0], 0 + 0 + 1);
    }

    lemma Below(news: seq<Plugin>, c: Plugin, p: Plugin)
      requires StartOrder(fold, plugins, {}, news) && c in news && DependsOn(fold, plugins, c, p)
      ensures p in Elements(news)
    {
      var i :| 0 <= i < |news| && news[i] == c;
      var k :| 0 <= k < |c.dependencies| && Get(fold, plugins, c.dependencies[k]) == p;
      assert p in news[..i];
    }

    // A marked dependency cannot come up, so what asks for it cannot either.
    lemma SecondCircular(p: Plugin, c: Plugin, rank: Plugin -> nat, marked: set<Plugin>, fate: Fate, news: seq<Plugin>,
        path: seq<Plugin>)
      requires Startable(fold, plugins, Elements(plugins), rank) && c in plugins && DependsOn(fold, plugins, c, p)
      requires p != c && p in marked && Spares(news, marked - {c}) && Running() == Elements(news)
      requires StartOrder(fold, plugins, {}, news) && (fate == Up ==> c in Running())
      requires (forall n :: initFails(n) <==> n == 1) && (forall n :: !reloadFails(n)) && attempts == 1 + Tries(fate, news)
      requires path != [] && path[0] == c && Path(fold, plugins, path) && Reason(fate, marked, path)
      ensures fate == Circular
    {
      StartablePath(fold, plugins, Elements(plugins), rank, path, |path| - 1);
      if c in news {
        Below(news, c, p);
      }
    }

    // _cleanup_plugin, with at most so many calls inside each other. The plugins cleaned up
    // are cs, in the order of their callbacks.
    method CleanupPlugin(plugin: Plugin, ghost fuel: nat) returns (ghost cs: seq<Plugin>)
      requires Inv() && plugin in plugins && Sweep(Running(), plugins, plugin, fuel).Some?
      modifies `events, plugins`initialized
      decreases fuel, 0
      ensures Inv() && Sweep(old(Running()), plugins, plugin, fuel) == Some(cs)
      ensures Running() == old(Running()) - Elements(cs) && plugin !in Running()
      ensures events == old(events) + CleanupEvents(cs)
      ensures CleanupOrder(old(Running()), cs) && Caused(plugin, cs)
      ensures AskersLead(fold, plugins, old(Running()), Elements(cs)) ==>
        DependentsFirst(fold, plugins, old(Running()), cs)
    {
      hide Inv, CleanupOrder, Spells, Running, Elements, CleanupEvents, Caused, Sweep, SweepAll, AskersLead,
        DependentsFirst, Follows;
      RunFacts(plugin);
      RunningListed();
      SweptInOrder(fold, plugins, Running(), plugin, fuel);
      SweepIs(Running(), plugins, plugin, fuel);
      Nothing(Running());
      cs := [];
      if !plugin.initialized {
        return;
      }
      ghost var running, rest := Running(), SweepAll(Running(), plugins, plugins, plugin, fuel - 1);
      ghost var all := rest.value;
      FollowsNone(rest);
      var r := 0;
      assert plugins[0..] == plugins;
      while r < |plugins|
        invariant r <= |plugins| && Inv() && Running() == running - Elements(cs)
        invariant rest == SweepAll(Running(), plugins, plugins[r..], plugin, fuel - 1) && Follows(all, cs, rest)
        invariant events == old(events) + CleanupEvents(cs)
      {
        var rdep := plugins[r];
        ghost var left, before, next := Running(), rest, plugins[r + 1..];
        assert plugins[r..][1..] == next;
        FollowsSome(all, cs, before);
        SweepAllIs(left, plugins, plugins[r..], plugin, fuel - 1);
        ghost var more := CleanupDependent(plugin, rdep, fuel - 1);
        SweepAllNext(left, plugins, plugins[r..], plugin, fuel - 1, more);
        rest := SweepAll(Running(), plugins, next, plugin, fuel - 1);
        FollowsMore(all, cs, before, more, rest);
        Joins(running, cs, more, left);
        cs := cs + more;
        r := r + 1;
      }
      FollowsSome(all, cs, rest);
      SweepAllIs(Running(), plugins, plugins[r..], plugin, fuel - 1);
      Finished(running, cs, plugin);
      Stop(plugin);
      events := events + [Cleanup(plugin)];
      cs := cs + [plugin];
    }

    // The inner loop, over the dependencies of another plugin.
    method CleanupDependent(plugin: Plugin, rdep: Plugin, ghost fuel: nat) returns (ghost more: seq<Plugin>)
      requires Inv() && plugin in plugins && rdep in plugins
      requires Spells(rdep, plugin) ==> Sweep(Running(), plugins, rdep, fuel).Some?
      modifies `events, plugins`initialized
      decreases fuel, 1
      ensures Inv() && Running() == old(Running()) - Elements(more) && events == old(events) + CleanupEvents(more)
      ensures if Spells(rdep, plugin) then Sweep(old(Running()), plugins, rdep, fuel) == Some(more) else more == []
    {
      hide Inv, CleanupOrder, Spells, Running, Elements, CleanupEvents, Caused, Sweep, AskersLead, DependentsFirst, NamedIn;
      ghost var left, called := Running(), false;
      Nothing(left);
      NamedNone(rdep, plugin);
      more := [];
      var i := 0;
      while i < |rdep.dependencies|
        invariant i <= |rdep.dependencies| && Inv() && Running() == left - Elements(more)
        invariant events == old(events) + CleanupEvents(more)
        invariant called == NamedIn(plugin.name, rdep.dependencies, i) && (!called ==> more == [])
        invariant called ==> rdep !in Running() && Sweep(left, plugins, rdep, fuel) == Some(more)
      {
        NamedMore(rdep, plugin, i);
        if rdep.dependencies[i] == plugin.name {
          NotRunning(Running(), plugins, rdep, fuel);
          ghost var again := CleanupPlugin(rdep, fuel);
          Again(left, [], more, again);
          more := more + again;
          called := true;
        }
        i := i + 1;
      }
      NamedAll(rdep, plugin);
    }

    lemma Nothing(left: set<Plugin>)
      ensures left - Elements([]) == left && CleanupEvents([]) == []
    {}

    lemma Again(left: set<Plugin>, before: seq<Plugin>, more: seq<Plugin>, again: seq<Plugin>)
      ensures before + (more + again) == before + more + again
      ensures left - Elements(more) - Elements(again) == left - Elements(more + again)
      ensures left - Elements(more) - Elements([]) == left - Elements(more)
      ensures CleanupEvents(before + more) + CleanupEvents(again) == CleanupEvents(before + more + again)
      ensures more + [] == more && [] + more == more && [] + again == again
    {}

    lemma Finished(running: set<Plugin>, cs: seq<Plugin>, plugin: Plugin)
      ensures running - Elements(cs) - {plugin} == running - Elements(cs + [plugin])
      ensures CleanupEvents(cs) + [Cleanup(plugin)] == CleanupEvents(cs + [plugin]) && cs + [] == cs
    {}

    // _unload_plugin.
    method UnloadPlugin(plugin: Plugin, cleanup: bool) returns (result: int, ghost cs: seq<Plugin>)
      requires Inv() && plugin in plugins && (plugin.canCleanup || cleanup ==> Unringed(Running(), plugin))
      modifies `events, `plugins, plugins`initialized
      ensures Inv() && (old(Ordered()) ==> Ordered()) && CleanupOrder(old(Running()), cs)
      ensures events == old(events) + CleanupEvents(cs)
      ensures Running() == old(Running()) - Elements(cs)
      ensures result == if plugin.canCleanup || cleanup then 0 else -1
      ensures result == -1 ==> cs == [] && plugins == old(plugins)
      ensures result == 0 ==> !plugin.initialized && plugins == Without(old(plugins), plugin)
      ensures result == 0 ==> Sweeps(old(Running()), old(plugins), plugin, cs)
      ensures result == 0 ==> forall x :: x in cs <==> Doomed(old(Running()), plugin, x)
      ensures result == 0 && old(Closed()) ==> (Closed() <==> DoomSpreads(fold, old(plugins), old(Running()), plugin))
      ensures old(Closed()) && Exact(fold, old(plugins)) ==> Closed()
      ensures AskersLead(fold, old(plugins), old(Running()), Elements(cs)) ==>
        DependentsFirst(fold, old(plugins), old(Running()), cs)
    {
      hide Inv, NoDup, CleanupOrder, Spells, Running, Elements, CleanupEvents, Caused, ClosedUnder, DependsOn, Exact,
        Without, Doomed, DoomSpreads, Sweep, Unringed, AskersLead, Ordered;
      OrderNone(Running());
      Nothing(Running());
      RunningListed();
      RunFacts(plugin);
      if !plugin.canCleanup && !cleanup {
        return -1, [];
      }
      ghost var running := Running();
      ReturnsIff(running, plugins, plugin);
      NotRunning(running, plugins, plugin, |running|);
      SweptInOrder(fold, plugins, running, plugin, |running|);
      cs := [];
      if plugin.initialized {
        cs := CleanupPlugin(plugin, |running|);
      }
      RunFacts(plugin);
      NotRunning(running, plugins, plugin, 0);
      InSeq(running, plugin, cs);
      CleanedIff(running, plugin, cs);
      Unloaded(fold, plugins, running, plugin, cs);
      label before:
      plugins := Without(plugins, plugin);
      StillInv@before(plugin);
      StillOrdered(cs);
      result := 0;
      if old(Closed()) {
        ClosedWithout(fold, old(plugins), plugin, running, Running());
      }
    }

    twostate lemma StillInv(plugin: Plugin)
      requires old(Inv()) && old(plugin in plugins && plugin !in Running()) && plugins == Without(old(plugins), plugin)
      requires clock == old(clock)
      requires forall p :: p in old(plugins) ==> unchanged(p)
      ensures Inv() && Running() == old(Running())
      ensures forall p :: p in plugins ==> p in old(plugins)
    {
      WithoutListed(fold, old(plugins), plugin);
    }

    // What is left running names nothing that went.
    twostate lemma StillOrdered(new cs: seq<Plugin>)
      requires CleanupOrder(old(Running()), cs) && Running() == old(Running()) - Elements(cs)
      requires forall p :: p in plugins ==> p in old(plugins)
      requires forall p :: p in plugins ==> p.stamp == old(p.stamp)
      ensures old(Ordered()) ==> Ordered()
    {
      hide CleanupOrder;
      if old(Ordered()) {
        forall p, d | p in Running() && d in plugins && Spells(p, d) ensures d in Running() && d.stamp < p.stamp {
          if d in cs {
            GoesWith(old(Running()), cs, p, d);
          }
        }
      }
    }

    lemma RunningListed()
      requires Inv()
      ensures Running() <= Elements(plugins) && Keyed(fold, plugins)
    {}

    // While what runs is in order, no cleanup runs in circles.
    lemma OrderedRingless()
      requires Ordered()
      ensures Ringless(Running()) && forall x :: Unringed(Running(), x)
    {
      forall y, n: nat | y in Running() && n > 0 ensures !Leads(Running(), y, y, n) {
        OrderedLeads(y, y, n);
      }
    }

    lemma {:induction false} OrderedLeads(x: Plugin, y: Plugin, n: nat)
      requires Ordered()
      ensures Leads(Running(), x, y, n) ==> x.stamp >= y.stamp + n
    {
      if n > 0 && Leads(Running(), x, y, n) {
        var e :| e in Running() && Spells(x, e) && Leads(Running(), e, y, n - 1);
        OrderedLeads(e, y, n - 1);
      }
    }

    // oonf_subsystem_cleanup: unload all.
    method SubsystemCleanup() returns (ghost cs: seq<Plugin>)
      requires Inv() && Ringless(Running())
      modifies `events, `plugins, Elements(plugins)`initialized
      ensures Inv() && plugins == [] && SweepsTree(old(Running()), old(plugins), cs)
      ensures CleanupOrder(old(Running()), cs) && Elements(cs) == old(Running())
      ensures events == old(events) + CleanupEvents(cs)
      ensures forall p :: p in old(plugins) ==> !p.initialized
      ensures AskersLead(fold, old(plugins), old(Running()), old(Running())) ==>
        DependentsFirst(fold, old(plugins), old(Running()), cs)
    {
      hide Inv, NoDup, CleanupOrder, Spells, Running, Elements, CleanupEvents, Caused, ClosedUnder, DependsOn, Exact,
        Sweep, SweepTree, Ringless, Unringed, AskersLead, Doomed, DoomSpreads, DependentsFirst, Ordered,
        Without, Sweeps, SweepsTree, Keyed, Follows;
      RunningListed();
      ghost var fuel := |Running()|;
      TreeReturnsIff(Running(), plugins);
      TreeInOrder(fold, plugins, Running(), fuel);
      cs := UnloadAll(fuel);
    }

    // The loop.
    method UnloadAll(ghost fuel: nat) returns (ghost cs: seq<Plugin>)
      requires Inv() && Ringless(Running()) && SweepTree(Running(), plugins, fuel).Some?
      modifies `events, `plugins, Elements(plugins)`initialized
      ensures Inv() && plugins == [] && SweepTree(old(Running()), old(plugins), fuel) == Some(cs)
      ensures events == old(events) + CleanupEvents(cs)
      ensures forall j :: 0 <= j < |old(plugins)| ==> !old(plugins)[j].initialized
    {
      hide Inv, NoDup, Spells, Running, Elements, CleanupEvents, ClosedUnder, DependsOn, Exact, Sweep, SweepTree, Ringless,
        Keyed, Follows;
      RunningListed();
      Nothing(Running());
      ghost var all, rest, k := plugins, SweepTree(Running(), plugins, fuel), 0;
      FollowsNone(rest);
      ghost var total := rest.value;
      cs := [];
      while plugins != []
        invariant Inv() && Ringless(Running()) && rest == SweepTree(Running(), plugins, fuel)
        invariant Elements(plugins) <= Elements(all) && Follows(total, cs, rest)
        invariant events == old(events) + CleanupEvents(cs)
        invariant k <= |all| && plugins == all[k..] && forall j :: 0 <= j < k ==> !all[j].initialized
        decreases |plugins|
      {
        Passed(fold, all, k);
        ghost var before := rest;
        FollowsSome(total, cs, before);
        ghost var more := UnloadFirst(fuel);
        rest := SweepTree(Running(), plugins, fuel);
        FollowsMore(total, cs, before, more, rest);
        Joins({}, cs, more, {});
        cs, k := cs + more, k + 1;
      }
      FollowsSome(total, cs, rest);
      SweepTreeIs(Running(), plugins, fuel);
    }

    lemma Passed(fold: Fold, ps: seq<Plugin>, k: nat)
      requires Keyed(fold, ps) && k < |ps|
      ensures Elements(ps[k..]) <= Elements(ps) && Elements(ps[k + 1..]) <= Elements(ps) && ps[k..][1..] == ps[k + 1..]
      ensures forall j :: 0 <= j < k ==> ps[j] !in Elements(ps[k..])
    {}

    // One turn of the loop.
    method UnloadFirst(ghost fuel: nat) returns (ghost more: seq<Plugin>)
      requires Inv() && plugins != [] && Ringless(Running()) && SweepTree(Running(), plugins, fuel).Some?
      modifies `events, `plugins, Elements(plugins)`initialized
      ensures Inv() && plugins == old(plugins)[1..] && !old(plugins)[0].initialized
      ensures Running() == old(Running()) - Elements(more) && Ringless(Running())
      ensures Follows(SweepTree(old(Running()), old(plugins), fuel).value, more, SweepTree(Running(), plugins, fuel))
      ensures events == old(events) + CleanupEvents(more)
    {
      hide Inv, NoDup, CleanupOrder, Spells, Running, CleanupEvents, Caused, ClosedUnder, DependsOn, Exact,
        Sweep, SweepTree, Ringless, Unringed, AskersLead, Doomed, DoomSpreads, DependentsFirst, Ordered, Without, Sweeps;
      ghost var was, left := plugins, Running();
      RinglessLess(left, left);
      SweepTreeIs(left, was, fuel);
      FrontOut(was);
      var result;
      result, more := UnloadPlugin(plugins[0], true);
      SweepsOne(left, was, was[0], fuel, more);
      Joins(left, [], more, left);
      RinglessLess(Running(), left);
    }

    lemma FrontOut(ps: seq<Plugin>)
      requires ps != []
      ensures Without(ps, ps[0]) == ps[1..]
    {}

    lemma Joins(running: set<Plugin>, cs: seq<Plugin>, more: seq<Plugin>, left: set<Plugin>)
      ensures left == running - Elements(cs) ==> left - Elements(more) == running - Elements(cs + more)
      ensures left - Elements(more) <= left
      ensures CleanupEvents(cs) + CleanupEvents(more) == CleanupEvents(cs + more)
    {}

    method Stop(plugin: Plugin)
      requires Inv() && plugin in plugins
      modifies plugin`initialized
      ensures Inv() && Running() == old(Running()) - {plugin}
    {
      plugin.initialized := false;
    }

    lemma RunFacts(plugin: Plugin)
      requires Inv() && plugin in plugins
      ensures plugin.initialized <==> plugin in Running()
    {}

    method SetMark(plugin: Plugin, mark: bool)
      requires Inv() && plugin in plugins && !plugin.initialized
      modifies plugin`dependencyMissing
      ensures Inv() && Marked() == if mark then old(Marked()) + {plugin} else old(Marked()) - {plugin}
      ensures plugin.dependencyMissing == mark
    {
      plugin.dependencyMissing := mark;
    }

    lemma SparesOne(plugin: Plugin, running: set<Plugin>)
      requires plugin !in running
      ensures Spares([plugin], running)
    {}

    lemma Missing(plugin: Plugin, i: nat, marked: set<Plugin>, running: set<Plugin>)
      requires plugin !in running
      requires i < |plugin.dependencies| && Get(fold, plugins, plugin.dependencies[i]) == null
      ensures Reason(Absent, marked, [plugin]) && Marks(marked, Absent, [plugin]) == marked + {plugin}
      ensures Failure(Absent, plugin) == [] && Spares([plugin], running)
    {
      MarksOne(marked, plugin, Absent);
    }

    lemma Facts(plugin: Plugin)
      requires Inv() && plugin in plugins
      ensures plugin.initialized ==> !plugin.dependencyMissing
      ensures plugin.initialized <==> plugin in Running()
      ensures plugin.dependencyMissing <==> plugin in Marked()
      ensures plugin in Elements(plugins)
    {}

    // The plugin is up, with everything it asks for.
    method Start(plugin: Plugin)
      requires Inv() && plugin in plugins && !plugin.initialized && !plugin.dependencyMissing && Ready(plugin)
      modifies `clock, plugin`initialized, plugin`stamp
      ensures Inv() && (old(Ordered()) ==> Ordered()) && Running() == old(Running()) + {plugin}
    {
      forall d | d in plugins && Spells(plugin, d) ensures d in Running() {
        var k :| 0 <= k < |plugin.dependencies| && plugin.dependencies[k] == d.name;
        GetOwn(fold, plugins, d, d.name);
        assert Get(fold, plugins, plugin.dependencies[k]) in Running();
      }
      plugin.initialized := true;
      plugin.stamp, clock := clock, clock + 1;
    }
  }
}
