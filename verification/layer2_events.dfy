// src-plugins/subsystems/oonf_layer2.c: what the cleanup after an originator tells its
// listeners, on the contents of the database before and after.
module Layer2Events {
  import opened Layer2Databases
  import opened Layer2States
  import opened Sequences

  // ----- the fate of each object -----

  datatype Outcome = Goes | Alters | Keeps

  function EventsOf(ts: seq<Thing>, fates: seq<Outcome>): seq<Event>
    requires |ts| == |fates|
  {
    if ts == [] then []
    else
      var more := EventsOf(ts[1..], fates[1..]);
      match fates[0]
      case Goes => [Removed(ts[0])] + more
      case Alters => [Changed(ts[0])] + more
      case Keeps => more
  }

  function LeftOf(ts: seq<Thing>, fates: seq<Outcome>): seq<Thing>
    requires |ts| == |fates|
  {
    if ts == [] then []
    else if fates[0] == Goes then LeftOf(ts[1..], fates[1..])
    else [ts[0]] + LeftOf(ts[1..], fates[1..])
  }

  // ts meet their fates with these events, and these are left.
  ghost predicate Meet(ts: seq<Thing>, fates: seq<Outcome>, es: seq<Event>, left: seq<Thing>) {
    |ts| == |fates| && EventsOf(ts, fates) == es && LeftOf(ts, fates) == left
  }

  lemma {:induction false} MeetConcat(ts: seq<Thing>, f: seq<Outcome>, es: seq<Event>, left: seq<Thing>,
      us: seq<Thing>, g: seq<Outcome>, ds: seq<Event>, rest: seq<Thing>)
    requires Meet(ts, f, es, left) && Meet(us, g, ds, rest)
    ensures Meet(ts + us, f + g, es + ds, left + rest)
  {
    if ts == [] {
      assert ts + us == us && f + g == g && es + ds == ds && left + rest == rest;
    } else {
      assert (ts + us)[1..] == ts[1..] + us && (f + g)[1..] == f[1..] + g;
      MeetConcat(ts[1..], f[1..], EventsOf(ts[1..], f[1..]), LeftOf(ts[1..], f[1..]), us, g, ds, rest);
    }
  }

  lemma MeetOne(t: Thing, gone: bool, touched: bool)
    ensures Meet([t], [if gone then Goes else if touched then Alters else Keeps],
      if gone then [Removed(t)] else if touched then [Changed(t)] else [], if gone then [] else [t])
  {}

  function DestinationFates(ds: seq<Destination>, origin: nat): (f: seq<Outcome>)
    ensures |f| == |ds|
  {
    seq(|ds|, i requires 0 <= i < |ds| => if ds[i].origin == origin then Goes else Keeps)
  }

  function NeighborFates(n: NeighborView, origin: nat): seq<Outcome> {
    DestinationFates(n.destinations, origin) +
      [if NeighborGone(n, origin) then Goes else if NeighborTouched(n, origin) then Alters else Keeps]
  }

  function NeighborsFates(ns: seq<NeighborView>, origin: nat): seq<Outcome> {
    if ns == [] then [] else NeighborFates(ns[0], origin) + NeighborsFates(ns[1..], origin)
  }

  function NetworkFates(x: NetworkView, origin: nat): seq<Outcome> {
    NeighborsFates(x.neighbors, origin) +
      [if NetworkGone(x, origin) then Goes else if NetworkTouched(x, origin) then Alters else Keeps]
  }

  function NetworksFates(xs: seq<NetworkView>, origin: nat): seq<Outcome> {
    if xs == [] then [] else NetworkFates(xs[0], origin) + NetworksFates(xs[1..], origin)
  }

  lemma {:induction false} DestinationsMeet(ds: seq<Destination>, origin: nat)
    ensures Meet(DestinationThings(ds), DestinationFates(ds, origin), Removals(ds, origin),
      DestinationThings(Others(ds, origin)))
  {
    if ds != [] {
      var gone, t := ds[0].origin == origin, OfDestination(ds[0]);
      DestinationsMeet(ds[1..], origin);
      assert DestinationThings(ds)[1..] == DestinationThings(ds[1..]);
      assert DestinationFates(ds, origin)[1..] == DestinationFates(ds[1..], origin);
      assert !gone ==> DestinationThings(Others(ds, origin)) == [t] + DestinationThings(Others(ds[1..], origin));
    }
  }

  lemma NeighborMeets(n: NeighborView, origin: nat)
    ensures Meet(NeighborThings(n), NeighborFates(n, origin), NeighborEvents(n, origin),
      if NeighborGone(n, origin) then [] else NeighborThings(NeighborRest(n, origin)))
  {
    hide Meet, Removals, Others, DestinationThings, DestinationFates;
    var gone, touched, t := NeighborGone(n, origin), NeighborTouched(n, origin), OfNeighbor(n.neighbor);
    DestinationsMeet(n.destinations, origin);
    MeetOne(t, gone, touched);
    MeetConcat(DestinationThings(n.destinations), DestinationFates(n.destinations, origin),
      Removals(n.destinations, origin), DestinationThings(Others(n.destinations, origin)),
      [t], [if gone then Goes else if touched then Alters else Keeps],
      if gone then [Removed(t)] else if touched then [Changed(t)] else [], if gone then [] else [t]);
    if gone {
      NothingLeft(n.destinations, origin);
    }
  }

  lemma NothingLeft(ds: seq<Destination>, origin: nat)
    requires Others(ds, origin) == []
    ensures DestinationThings(Others(ds, origin)) + [] == []
  {}

  lemma {:induction false} NeighborsMeet(ns: seq<NeighborView>, origin: nat)
    ensures Meet(NeighborsThings(ns), NeighborsFates(ns, origin), NeighborsEvents(ns, origin),
      NeighborsThings(NeighborsRest(ns, origin)))
  {
    if ns != [] {
      hide Meet, NeighborThings, NeighborFates, NeighborEvents, NeighborGone, NeighborRest;
      NeighborMeets(ns[0], origin);
      NeighborsMeet(ns[1..], origin);
      var left := if NeighborGone(ns[0], origin) then [] else NeighborThings(NeighborRest(ns[0], origin));
      MeetConcat(NeighborThings(ns[0]), NeighborFates(ns[0], origin), NeighborEvents(ns[0], origin), left,
        NeighborsThings(ns[1..]), NeighborsFates(ns[1..], origin), NeighborsEvents(ns[1..], origin),
        NeighborsThings(NeighborsRest(ns[1..], origin)));
      if !NeighborGone(ns[0], origin) {
        assert NeighborsRest(ns, origin)[1..] == NeighborsRest(ns[1..], origin);
      } else {
        assert left + NeighborsThings(NeighborsRest(ns[1..], origin)) == NeighborsThings(NeighborsRest(ns[1..], origin));
      }
    } else {
      MeetNone();
    }
  }

  lemma MeetNone()
    ensures Meet([], [], [], [])
  {}

  lemma NetworkMeets(x: NetworkView, origin: nat)
    ensures Meet(NetworkThings(x), NetworkFates(x, origin), NetworkEvents(x, origin),
      if NetworkGone(x, origin) then [] else NetworkThings(NetworkRest(x, origin)))
  {
    hide Meet, NeighborsThings, NeighborsFates, NeighborsEvents, NeighborsRest, NetworkTouched;
    var gone, touched, t := NetworkGone(x, origin), NetworkTouched(x, origin), OfNetwork(x.network);
    NeighborsMeet(x.neighbors, origin);
    MeetOne(t, gone, touched);
    MeetConcat(NeighborsThings(x.neighbors), NeighborsFates(x.neighbors, origin),
      NeighborsEvents(x.neighbors, origin), NeighborsThings(NeighborsRest(x.neighbors, origin)),
      [t], [if gone then Goes else if touched then Alters else Keeps],
      if gone then [Removed(t)] else if touched then [Changed(t)] else [], if gone then [] else [t]);
    if gone {
      NoNeighborsLeft();
    }
  }

  lemma NoNeighborsLeft()
    ensures NeighborsThings([]) + [] == []
  {}

  lemma {:induction false} NetworksMeet(xs: seq<NetworkView>, origin: nat)
    ensures Meet(Things(xs), NetworksFates(xs, origin), NetworksEvents(xs, origin), Things(NetworksRest(xs, origin)))
  {
    if xs != [] {
      hide Meet, NetworkThings, NetworkFates, NetworkEvents, NetworkGone, NetworkRest;
      NetworkMeets(xs[0], origin);
      NetworksMeet(xs[1..], origin);
      var left := if NetworkGone(xs[0], origin) then [] else NetworkThings(NetworkRest(xs[0], origin));
      MeetConcat(NetworkThings(xs[0]), NetworkFates(xs[0], origin), NetworkEvents(xs[0], origin), left,
        Things(xs[1..]), NetworksFates(xs[1..], origin), NetworksEvents(xs[1..], origin),
        Things(NetworksRest(xs[1..], origin)));
      if !NetworkGone(xs[0], origin) {
        assert NetworksRest(xs, origin)[1..] == NetworksRest(xs[1..], origin);
      } else {
        assert left + Things(NetworksRest(xs[1..], origin)) == Things(NetworksRest(xs[1..], origin));
      }
    } else {
      MeetNone();
    }
  }

  // ----- whom it concerns -----

  // A destination behind the neighbor, or a slot in it, comes from the originator.
  ghost predicate FromOrigin(n: Neighbor, origin: nat)
    reads n
  {
    || (exists d :: d in n.destinations && d.origin == origin)
    || (exists i :: 0 <= i < |n.data| && n.data[i].origin == origin)
  }

  ghost predicate NetworkFromOrigin(x: Network, origin: nat)
    reads x, x.neighbors
  {
    || (exists n :: n in x.neighbors && FromOrigin(n, origin))
    || (exists i :: 0 <= i < |x.data| && x.data[i].origin == origin)
    || (exists i :: 0 <= i < |x.neighborData| && x.neighborData[i].origin == origin)
  }

  ghost function Parts(t: Thing): set<object>
    reads if t.OfNetwork? then {t.net} else {}
  {
    match t
    case OfDestination(_) => {}
    case OfNeighbor(n) => {n}
    case OfNetwork(x) => {x as object} + set n | n in x.neighbors
  }

  ghost predicate Concerned(t: Thing, origin: nat)
    reads if t.OfNetwork? then {t.net} else {}, Parts(t)
  {
    match t
    case OfDestination(d) => d.origin == origin
    case OfNeighbor(n) => FromOrigin(n, origin)
    case OfNetwork(x) => NetworkFromOrigin(x, origin)
  }

  lemma SendsIff(n: Neighbor, origin: nat)
    ensures NeighborTouched(ViewNeighbor(n), origin) <==> FromOrigin(n, origin)
  {
    if FromOrigin(n, origin) && !Owns(n.data, origin) {
      var d :| d in n.destinations && d.origin == origin;
      var i :| 0 <= i < |n.destinations| && n.destinations[i] == d;
      assert n.destinations[i].origin == origin;
    }
    if Sends(n.destinations, origin) {
      var i :| 0 <= i < |n.destinations| && n.destinations[i].origin == origin;
      assert n.destinations[i] in n.destinations;
    }
  }

  lemma NeighborMatches(n: Neighbor, origin: nat)
    ensures
      var ts, fates := NeighborThings(ViewNeighbor(n)), NeighborFates(ViewNeighbor(n), origin);
      |ts| == |fates| && forall i :: 0 <= i < |ts| ==> (fates[i] != Keeps <==> Concerned(ts[i], origin))
  {
    SendsIff(n, origin);
    hide FromOrigin;
  }

  lemma MatchConcat(ts: seq<Thing>, f: seq<Outcome>, us: seq<Thing>, g: seq<Outcome>, origin: nat)
    requires |ts| == |f| && forall i :: 0 <= i < |ts| ==> (f[i] != Keeps <==> Concerned(ts[i], origin))
    requires |us| == |g| && forall i :: 0 <= i < |us| ==> (g[i] != Keeps <==> Concerned(us[i], origin))
    ensures forall i :: 0 <= i < |ts + us| ==> ((f + g)[i] != Keeps <==> Concerned((ts + us)[i], origin))
  {
    hide Concerned;
    forall i | 0 <= i < |ts + us| ensures (f + g)[i] != Keeps <==> Concerned((ts + us)[i], origin) {
      if i >= |ts| {
        assert (ts + us)[i] == us[i - |ts|] && (f + g)[i] == g[i - |ts|];
      }
    }
  }

  lemma {:induction false} NeighborsMatch(ns: seq<Neighbor>, origin: nat)
    ensures
      var ts, fates := NeighborsThings(ViewNeighbors(ns)), NeighborsFates(ViewNeighbors(ns), origin);
      |ts| == |fates| && forall i :: 0 <= i < |ts| ==> (fates[i] != Keeps <==> Concerned(ts[i], origin))
  {
    if ns != [] {
      hide NeighborThings, NeighborFates, Concerned;
      var views := ViewNeighbors(ns);
      assert views[0] == ViewNeighbor(ns[0]) && views[1..] == ViewNeighbors(ns[1..]);
      NeighborMatches(ns[0], origin);
      NeighborsMatch(ns[1..], origin);
      MatchConcat(NeighborThings(views[0]), NeighborFates(views[0], origin), NeighborsThings(views[1..]),
        NeighborsFates(views[1..], origin), origin);
    }
  }

  lemma {:induction false} NeighborsTouchedIff(ns: seq<Neighbor>, origin: nat)
    ensures NeighborsTouched(ViewNeighbors(ns), origin) <==> exists n :: n in ns && FromOrigin(n, origin)
  {
    hide FromOrigin, NeighborTouched, ViewNeighbor;
    if ns != [] {
      var views := ViewNeighbors(ns);
      assert views[0] == ViewNeighbor(ns[0]) && views[1..] == ViewNeighbors(ns[1..]);
      SendsIff(ns[0], origin);
      NeighborsTouchedIff(ns[1..], origin);
      if NeighborsTouched(views, origin) {
        var i :| 0 <= i < |views| && NeighborTouched(views[i], origin);
        assert i > 0 ==> NeighborTouched(views[1..][i - 1], origin);
      }
      if n :| n in ns && FromOrigin(n, origin) {
        if n != ns[0] {
          assert n in ns[1..];
          var i :| 0 <= i < |views[1..]| && NeighborTouched(views[1..][i], origin);
          assert NeighborTouched(views[i + 1], origin);
        }
      }
    }
  }

  lemma NetworkMatches(x: Network, origin: nat)
    ensures
      var ts, fates := NetworkThings(ViewNetwork(x)), NetworkFates(ViewNetwork(x), origin);
      |ts| == |fates| && forall i :: 0 <= i < |ts| ==> (fates[i] != Keeps <==> Concerned(ts[i], origin))
  {
    hide NeighborsThings, NeighborsFates, FromOrigin, NeighborsTouched, NetworkEmpty;
    var view := ViewNetwork(x);
    NeighborsMatch(x.neighbors, origin);
    NeighborsTouchedIff(x.neighbors, origin);
    assert NetworkTouched(view, origin) <==> NetworkFromOrigin(x, origin);
    MatchConcat(NeighborsThings(view.neighbors), NeighborsFates(view.neighbors, origin), [OfNetwork(x)],
      [if NetworkGone(view, origin) then Goes else if NetworkTouched(view, origin) then Alters else Keeps], origin);
  }

  lemma {:induction false} NetworksMatch(xs: seq<Network>, origin: nat)
    ensures
      var ts, fates := Things(ViewNetworks(xs)), NetworksFates(ViewNetworks(xs), origin);
      |ts| == |fates| && forall i :: 0 <= i < |ts| ==> (fates[i] != Keeps <==> Concerned(ts[i], origin))
  {
    if xs != [] {
      hide NetworkThings, NetworkFates, Concerned;
      var views := ViewNetworks(xs);
      assert views[0] == ViewNetwork(xs[0]) && views[1..] == ViewNetworks(xs[1..]);
      NetworkMatches(xs[0], origin);
      NetworksMatch(xs[1..], origin);
      MatchConcat(NetworkThings(views[0]), NetworkFates(views[0], origin), Things(views[1..]),
        NetworksFates(views[1..], origin), origin);
    }
  }

  // ----- in which order -----

  // u hangs on t: a destination on its neighbor, and both on the network.
  predicate HangsOn(u: Thing, t: Thing) {
    match t
    case OfDestination(_) => false
    case OfNeighbor(n) => u.OfDestination? && u.d.neighbor == n
    case OfNetwork(x) => (u.OfDestination? && u.d.neighbor.network == x) || (u.OfNeighbor? && u.n.network == x)
  }

  // What hangs on something is listed before it.
  ghost predicate Hung(ts: seq<Thing>) {
    forall i, j :: 0 <= i < |ts| && 0 <= j < |ts| && HangsOn(ts[i], ts[j]) ==> i < j
  }

  lemma HungConcat(ts: seq<Thing>, us: seq<Thing>)
    requires Hung(ts) && Hung(us) && forall t, u :: t in ts && u in us ==> !HangsOn(u, t)
    ensures Hung(ts + us)
  {
    hide HangsOn;
    var all := ts + us;
    forall i, j | 0 <= i < |us| && 0 <= j < |ts| ensures !HangsOn(us[i], ts[j]) {
      assert us[i] in us && ts[j] in ts;
    }
    forall i, j | 0 <= i < |all| && 0 <= j < |all| && HangsOn(all[i], all[j]) ensures i < j {
      assert if i < |ts| then all[i] == ts[i] else all[i] == us[i - |ts|];
      assert if j < |ts| then all[j] == ts[j] else all[j] == us[j - |ts|];
    }
  }

  lemma {:induction false} NeighborsHung(ns: seq<Neighbor>, x: Network)
    requires NoDup(ns) && forall n :: n in ns ==> n.network == x && NeighborSound(n)
    ensures Hung(NeighborsThings(ViewNeighbors(ns)))
  {
    if ns != [] {
      hide NeighborSound, NeighborThings;
      var views := ViewNeighbors(ns);
      assert views[0] == ViewNeighbor(ns[0]) && views[1..] == ViewNeighbors(ns[1..]);
      NeighborOnce(ns[0]);
      NeighborHung(ns[0]);
      NeighborsOnce(ns[1..], x);
      NeighborsHung(ns[1..], x);
      assert forall i :: 0 <= i < |ns[1..]| ==> ns[1..][i] != ns[0];
      forall t, u | t in NeighborThings(views[0]) && u in NeighborsThings(views[1..]) ensures !HangsOn(u, t) {
        assert Home(t) == ns[0] && Home(u) in ns[1..];
        NeighborNoNetwork(ns[0], t);
      }
      HungConcat(NeighborThings(views[0]), NeighborsThings(views[1..]));
    }
  }

  lemma NeighborNoNetwork(n: Neighbor, t: Thing)
    requires t in NeighborThings(ViewNeighbor(n))
    ensures !t.OfNetwork?
  {}

  lemma NeighborHung(n: Neighbor)
    requires NeighborSound(n)
    ensures Hung(NeighborThings(ViewNeighbor(n)))
  {}

  lemma NetworkHung(x: Network)
    requires NetworkSound(x)
    ensures Hung(NetworkThings(ViewNetwork(x)))
  {
    hide NeighborsThings, NeighborSound, ViewNeighbors;
    NeighborsHung(x.neighbors, x);
    HungConcat(NeighborsThings(ViewNeighbors(x.neighbors)), [OfNetwork(x)]);
  }

  lemma {:induction false} ThingsHung(xs: seq<Network>)
    requires NoDup(xs) && Sound(xs)
    ensures Hung(Things(ViewNetworks(xs)))
  {
    if xs != [] {
      hide NetworkSound, NetworkThings;
      var views := ViewNetworks(xs);
      assert views[0] == ViewNetwork(xs[0]) && views[1..] == ViewNetworks(xs[1..]);
      NetworkOnce(xs[0]);
      NetworkHung(xs[0]);
      ThingsOnce(xs[1..]);
      ThingsHung(xs[1..]);
      assert forall i :: 0 <= i < |xs[1..]| ==> xs[1..][i] != xs[0];
      forall t, u | t in NetworkThings(views[0]) && u in Things(views[1..]) ensures !HangsOn(u, t) {
        assert Owner(t) == xs[0] && Owner(u) in xs[1..];
      }
      HungConcat(NetworkThings(views[0]), Things(views[1..]));
    }
  }

  // The k-th event is about a later object than those before it.
  lemma {:induction false} EventAt(ts: seq<Thing>, fates: seq<Outcome>, k: nat) returns (i: nat)
    requires |ts| == |fates| && k < |EventsOf(ts, fates)|
    ensures i < |ts| && fates[i] != Keeps
    ensures EventsOf(ts, fates)[k] == if fates[i] == Goes then Removed(ts[i]) else Changed(ts[i])
    ensures forall l :: 0 <= l < k ==> EventsOf(ts, fates)[l].x in ts[..i]
  {
    var es, more := EventsOf(ts, fates), EventsOf(ts[1..], fates[1..]);
    if fates[0] != Keeps && k == 0 {
      i := 0;
    } else {
      var skip := if fates[0] == Keeps then 0 else 1;
      i := EventAt(ts[1..], fates[1..], k - skip);
      i := i + 1;
      assert ts[..i] == [ts[0]] + ts[1..][..i - 1];
      forall l | 0 <= l < k ensures es[l].x in ts[..i] {
        assert l >= skip ==> es[l] == more[l - skip];
      }
    }
  }

  lemma {:induction false} FateIn(ts: seq<Thing>, fates: seq<Outcome>, i: nat)
    requires |ts| == |fates| && i < |ts| && NoDup(ts)
    ensures Changed(ts[i]) in EventsOf(ts, fates) <==> fates[i] == Alters
    ensures Removed(ts[i]) in EventsOf(ts, fates) <==> fates[i] == Goes
    ensures ts[i] in LeftOf(ts, fates) <==> fates[i] != Goes
  {
    var more, f := ts[1..], fates[1..];
    assert NoDup(more);
    if i > 0 {
      FateIn(more, f, i - 1);
      assert ts[i] != ts[0];
    } else {
      NotIn(more, f, ts[0]);
    }
  }

  lemma {:induction false} NotIn(ts: seq<Thing>, fates: seq<Outcome>, t: Thing)
    requires |ts| == |fates| && t !in ts
    ensures Changed(t) !in EventsOf(ts, fates) && Removed(t) !in EventsOf(ts, fates) && t !in LeftOf(ts, fates)
  {
    if ts != [] {
      NotIn(ts[1..], fates[1..], t);
    }
  }

  lemma {:induction false} LeftIn(ts: seq<Thing>, fates: seq<Outcome>, t: Thing)
    requires |ts| == |fates| && t in LeftOf(ts, fates)
    ensures t in ts
  {
    if fates[0] == Goes || t != ts[0] {
      LeftIn(ts[1..], fates[1..], t);
    }
  }

  // The cleanup after an originator tells of every object at most once, and of an object
  // behind those that hang on it. It announces as changed exactly what stays and had a
  // destination below it or a slot in it from the originator, and as removed what goes.
  lemma TellsIff(db: Database, origin: nat)
    requires db.Valid()
    ensures
      var xs := ViewNetworks(db.nets);
      var es, left := NetworksEvents(xs, origin), Things(NetworksRest(xs, origin));
      && (forall k :: 0 <= k < |es| ==> es[k].x in Things(xs) && !es[k].Added?)
      && (forall k, l :: 0 <= k < l < |es| ==> es[k].x != es[l].x)
      && (forall k, l :: 0 <= k < |es| && 0 <= l < |es| && HangsOn(es[k].x, es[l].x) ==> k < l)
      && (forall t :: t in Things(xs) ==> (Changed(t) in es <==> t in left && Concerned(t, origin)))
      && (forall t :: t in Things(xs) ==> (Removed(t) in es <==> t !in left))
      && (forall t :: t in Things(xs) && t !in left ==> Concerned(t, origin))
      && (forall t :: t in left ==> t in Things(xs))
  {
    hide Things, NetworksEvents, NetworksRest, NetworksFates, ViewNetworks, NoDup, EventsOf, LeftOf, Concerned, HangsOn,
      Sound;
    var xs := ViewNetworks(db.nets);
    var ts, fates, es := Things(xs), NetworksFates(xs, origin), NetworksEvents(xs, origin);
    ThingsOnce(db.nets);
    ThingsHung(db.nets);
    NetworksMeet(xs, origin);
    NetworksMatch(db.nets, origin);
    forall k | 0 <= k < |es| ensures es[k].x in ts && !es[k].Added? {
      var i := EventAt(ts, fates, k);
    }
    forall k, l | 0 <= k < l < |es| ensures es[k].x != es[l].x && !HangsOn(es[l].x, es[k].x) {
      var i := EventAt(ts, fates, l);
      assert es[k].x in ts[..i];
      var j :| 0 <= j < |ts[..i]| && ts[..i][j] == es[k].x;
      Apart(ts, j, i);
    }
    forall k | 0 <= k < |es| ensures !HangsOn(es[k].x, es[k].x) {
      NotOnItself(es[k].x);
    }
    forall t | t in ts
      ensures Changed(t) in es <==> t in LeftOf(ts, fates) && Concerned(t, origin)
      ensures Removed(t) in es <==> t !in LeftOf(ts, fates)
      ensures t !in LeftOf(ts, fates) ==> Concerned(t, origin)
    {
      var i :| 0 <= i < |ts| && ts[i] == t;
      FateIn(ts, fates, i);
    }
    forall t | t in LeftOf(ts, fates) ensures t in ts {
      LeftIn(ts, fates, t);
    }
  }

  // Something other than what comes from the originator is behind the neighbor or in it.
  ghost predicate Besides(n: Neighbor, origin: nat)
    reads n
  {
    || (exists d :: d in n.destinations && d.origin != origin)
    || (exists i :: 0 <= i < |n.data| && n.data[i].hasValue && n.data[i].origin != origin)
  }

  // What the removal of one originator's data from one neighbor tells: nothing, or the
  // removals of its destinations and then, last, what has become of the neighbor.
  lemma NeighborTells(n: Neighbor, origin: nat)
    ensures
      var es := NeighborEvents(ViewNeighbor(n), origin);
      && (!FromOrigin(n, origin) ==> es == [])
      && (FromOrigin(n, origin) ==> es != [])
      && (es != [] ==> es[|es| - 1] == if Besides(n, origin) then Changed(OfNeighbor(n)) else Removed(OfNeighbor(n)))
      && (forall k :: 0 <= k < |es| - 1 ==>
        es[k].Removed? && es[k].x.OfDestination? && es[k].x.d in n.destinations && es[k].x.d.origin == origin)
      && (forall d :: d in n.destinations && d.origin == origin ==> Removed(OfDestination(d)) in es)
  {
    hide FromOrigin, Besides, NeighborTouched, NeighborGone, Removals;
    var view := ViewNeighbor(n);
    SendsIff(n, origin);
    BesidesIff(n, origin);
    var rs, es := Removals(n.destinations, origin), NeighborEvents(view, origin);
    if FromOrigin(n, origin) {
      assert es == rs + [es[|es| - 1]];
    }
    forall k | 0 <= k < |rs|
      ensures rs[k].Removed? && rs[k].x.OfDestination? && rs[k].x.d in n.destinations && rs[k].x.d.origin == origin
    {
      RemovalOf(n.destinations, origin, rs[k]);
    }
    forall d | d in n.destinations && d.origin == origin ensures Removed(OfDestination(d)) in es {
      RemovalOf(n.destinations, origin, Removed(OfDestination(d)));
    }
  }

  lemma BesidesIff(n: Neighbor, origin: nat)
    ensures FromOrigin(n, origin) ==> (Besides(n, origin) <==> !NeighborGone(ViewNeighbor(n), origin))
    ensures !FromOrigin(n, origin) ==> !NeighborGone(ViewNeighbor(n), origin) && Removals(n.destinations, origin) == []
  {
    SendsIff(n, origin);
    if !Sends(n.destinations, origin) {
      OthersAll(n.destinations, origin);
    }
    NeighborGoneIff(ViewNeighbor(n), origin);
  }

  lemma {:induction false} RemovalOf(ds: seq<Destination>, origin: nat, e: Event)
    ensures e in Removals(ds, origin) <==> e.Removed? && e.x.OfDestination? && e.x.d in ds && e.x.d.origin == origin
  {
    if ds != [] {
      RemovalOf(ds[1..], origin, e);
      assert ds == [ds[0]] + ds[1..];
    }
  }

  lemma Apart(ts: seq<Thing>, j: nat, i: nat)
    requires NoDup(ts) && Hung(ts) && j < i < |ts|
    ensures ts[j] != ts[i] && !HangsOn(ts[i], ts[j])
  {
    hide HangsOn;
  }

  lemma NotOnItself(t: Thing)
    ensures !HangsOn(t, t)
  {}
}
