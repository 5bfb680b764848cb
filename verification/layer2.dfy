// src-plugins/subsystems/oonf_layer2.c: the objects of the layer-2 database.
module Layer2Databases {
  import opened Layer2States
  import opened Sequences

  function AllRemoved(ts: seq<Thing>): seq<Event> {
    seq(|ts|, i requires 0 <= i < |ts| => Removed(ts[i]))
  }

  ghost function ViewNeighbor(n: Neighbor): NeighborView
    reads n
  {
    NeighborView(n, n.destinations, n.data)
  }

  ghost function ViewNeighbors(ns: seq<Neighbor>): (v: seq<NeighborView>)
    reads ns
    ensures |v| == |ns|
  {
    if ns == [] then [] else [ViewNeighbor(ns[0])] + ViewNeighbors(ns[1..])
  }

  ghost function ViewNetwork(x: Network): NetworkView
    reads x, x.neighbors
  {
    NetworkView(x, ViewNeighbors(x.neighbors), x.data, x.neighborData)
  }

  ghost function Kids(x: Network): set<Neighbor>
    reads x
  {
    set n | n in x.neighbors
  }

  // The neighbors of some networks.
  ghost function Below(xs: seq<Network>): set<Neighbor>
    reads xs
  {
    if xs == [] then {} else Kids(xs[0]) + Below(xs[1..])
  }

  ghost function ViewNetworks(xs: seq<Network>): (v: seq<NetworkView>)
    reads xs, Below(xs)
    ensures |v| == |xs|
  {
    if xs == [] then [] else [ViewNetwork(xs[0])] + ViewNetworks(xs[1..])
  }

  // A neighbor with the destinations behind it.
  ghost predicate NeighborSound(n: Neighbor)
    reads n
  {
    NoDup(n.destinations) && forall d :: d in n.destinations ==> d.neighbor == n
  }

  ghost predicate NetworkSound(x: Network)
    reads x`neighbors, x.neighbors
  {
    NoDup(x.neighbors) && forall n :: n in x.neighbors ==> n.network == x && NeighborSound(n)
  }

  ghost predicate Sound(xs: seq<Network>)
    reads xs, Below(xs)
  {
    xs == [] || (NetworkSound(xs[0]) && Sound(xs[1..]))
  }

  // ----- each object is there once -----

  // The neighbor and the network an object belongs to; a network belongs to no neighbor.
  function Home(t: Thing): Neighbor? {
    match t case OfDestination(d) => d.neighbor case OfNeighbor(n) => n case OfNetwork(_) => null
  }

  function Owner(t: Thing): Network {
    match t case OfDestination(d) => d.neighbor.network case OfNeighbor(n) => n.network case OfNetwork(x) => x
  }

  lemma NeighborOnce(n: Neighbor)
    requires NeighborSound(n)
    ensures NoDup(NeighborThings(ViewNeighbor(n)))
    ensures forall t :: t in NeighborThings(ViewNeighbor(n)) ==> Home(t) == n && Owner(t) == n.network
  {
    var ts := DestinationThings(n.destinations);
    forall i, j | 0 <= i < j < |ts| ensures ts[i] != ts[j] {
      assert n.destinations[i] != n.destinations[j];
    }
    NoDupConcat(ts, [OfNeighbor(n)]);
  }

  lemma {:induction false} NeighborsOnce(ns: seq<Neighbor>, x: Network)
    requires NoDup(ns) && forall n :: n in ns ==> n.network == x && NeighborSound(n)
    ensures NoDup(NeighborsThings(ViewNeighbors(ns)))
    ensures forall t :: t in NeighborsThings(ViewNeighbors(ns)) ==> Home(t) != null && Home(t) in ns && Owner(t) == x
  {
    if ns != [] {
      hide NeighborSound, NeighborThings;
      var views := ViewNeighbors(ns);
      assert views[0] == ViewNeighbor(ns[0]) && views[1..] == ViewNeighbors(ns[1..]);
      NeighborOnce(ns[0]);
      NeighborsOnce(ns[1..], x);
      assert forall i :: 0 <= i < |ns[1..]| ==> ns[1..][i] != ns[0];
      NoDupConcat(NeighborThings(views[0]), NeighborsThings(views[1..]));
    }
  }

  lemma NetworkOnce(x: Network)
    requires NetworkSound(x)
    ensures NoDup(NetworkThings(ViewNetwork(x))) && forall t :: t in NetworkThings(ViewNetwork(x)) ==> Owner(t) == x
  {
    NeighborsOnce(x.neighbors, x);
    NoDupConcat(NeighborsThings(ViewNeighbors(x.neighbors)), [OfNetwork(x)]);
  }

  lemma {:induction false} ThingsOnce(xs: seq<Network>)
    requires NoDup(xs) && Sound(xs)
    ensures NoDup(Things(ViewNetworks(xs))) && forall t :: t in Things(ViewNetworks(xs)) ==> Owner(t) in xs
  {
    if xs != [] {
      hide NetworkSound, NetworkThings;
      var views := ViewNetworks(xs);
      assert views[0] == ViewNetwork(xs[0]) && views[1..] == ViewNetworks(xs[1..]);
      NetworkOnce(xs[0]);
      ThingsOnce(xs[1..]);
      assert forall i :: 0 <= i < |xs[1..]| ==> xs[1..][i] != xs[0];
      NoDupConcat(NetworkThings(views[0]), Things(views[1..]));
    }
  }

  // Cleaning up after an originator announces no object twice, and none that is still there.
  lemma AnnouncedOnce(db: Database, origin: nat)
    requires db.Valid()
    ensures
      var xs := ViewNetworks(db.nets);
      var gone, left := Announced(NetworksEvents(xs, origin)), Things(NetworksRest(xs, origin));
      && NoDup(Things(xs)) && NoDup(gone) && NoDup(left)
      && (forall t :: t in gone ==> t !in left)
      && |gone| + |left| == |Things(xs)|
  {
    hide Things, Announced, NetworksEvents, NetworksRest, ViewNetworks, NoDup;
    var xs := ViewNetworks(db.nets);
    ThingsOnce(db.nets);
    var flags := NetworksSplit(xs, origin);
    PickOnce(Things(xs), flags);
    PickLength(Things(xs), flags);
  }

  lemma {:induction false} PickLength(ts: seq<Thing>, flags: seq<bool>)
    requires |ts| == |flags|
    ensures |Pick(ts, flags, true)| + |Pick(ts, flags, false)| == |ts|
  {
    if ts != [] {
      PickLength(ts[1..], flags[1..]);
    }
  }

  // The loops over an array of data slots that reset those of one originator.
  method WipeData(data: seq<Slot>, origin: nat) returns (wiped: seq<Slot>, changed: bool)
    ensures wiped == Wiped(data, origin) && changed == Owns(data, origin)
  {
    hide Owns, Wiped, Reset;
    wiped, changed := data, false;
    var i := 0;
    WipeStart(data, origin);
    while i < |data|
      invariant i <= |data| && wiped == Wiped(data[..i], origin) + data[i..]
      invariant changed == Owns(data[..i], origin)
    {
      WipeMore(data, i, origin);
      OwnsMore(data, i, origin);
      if wiped[i].origin == origin {
        wiped := wiped[i := Reset(wiped[i])];
        changed := true;
      }
      i := i + 1;
    }
    assert data[..i] == data;
  }

  lemma WipeStart(data: seq<Slot>, origin: nat)
    ensures Wiped(data[..0], origin) + data[0..] == data && !Owns(data[..0], origin)
  {}

  lemma WipeMore(data: seq<Slot>, i: nat, origin: nat)
    requires i < |data|
    ensures
      var w := Wiped(data[..i], origin) + data[i..];
      |w| == |data| && w[i] == data[i] &&
      Wiped(data[..i + 1], origin) + data[i + 1..] == if data[i].origin == origin then w[i := Reset(data[i])] else w
  {}

  lemma OwnsMore(data: seq<Slot>, i: nat, origin: nat)
    requires i < |data|
    ensures Owns(data[..i + 1], origin) <==> Owns(data[..i], origin) || data[i].origin == origin
  {
    var a, b := data[..i], data[..i + 1];
    assert b[i] == data[i];
    assert forall k :: 0 <= k < i ==> a[k] == b[k];
    if Owns(a, origin) {
      var k :| 0 <= k < |a| && a[k].origin == origin;
      assert b[k].origin == origin;
    }
  }

  // The loops that look for a value.
  method AnyValue(data: seq<Slot>) returns (found: bool)
    ensures found == HasValue(data)
  {
    var i := 0;
    while i < |data|
      invariant i <= |data| && forall k :: 0 <= k < i ==> !data[k].hasValue
    {
      if data[i].hasValue {
        return true;
      }
      i := i + 1;
    }
    return false;
  }

  lemma {:induction false} OthersMore(a: seq<Destination>, d: Destination, origin: nat)
    ensures Others(a + [d], origin) == Others(a, origin) + if d.origin == origin then [] else [d]
    ensures Removals(a + [d], origin) == Removals(a, origin) + if d.origin ==
      origin then [Removed(OfDestination(d))] else []
    ensures Sends(a + [d], origin) <==> Sends(a, origin) || d.origin == origin
  {
    SendsMore(a, d, origin);
    if a != [] {
      assert (a + [d])[1..] == a[1..] + [d];
      OthersMore(a[1..], d, origin);
    }
  }

  lemma SendsMore(a: seq<Destination>, d: Destination, origin: nat)
    ensures Sends(a + [d], origin) <==> Sends(a, origin) || d.origin == origin
  {
    var b := a + [d];
    assert b[|a|] == d;
    if Sends(a, origin) {
      var k :| 0 <= k < |a| && a[k].origin == origin;
      assert b[k].origin == origin;
    }
  }

  class Database {
    // How names are compared without regard to case, how they are cut to the size of an
    // interface name, and which addresses are hardware addresses.
    const fold: Address -> Address
    const cut: Address -> Address
    const hardware: Address -> bool
    var nets: seq<Network>
    ghost var events: seq<Event>

    // oonf_layer2_destination_remove
    method DestinationRemove(d: Destination)
      requires NeighborSound(d.neighbor)
      modifies `events, d.neighbor`destinations
      ensures NeighborSound(d.neighbor)
      ensures if d in old(d.neighbor.destinations)
        then events == old(events) + [Removed(OfDestination(d))]
          && d.neighbor.destinations == Without(old(d.neighbor.destinations), d)
        else events == old(events) && d.neighbor.destinations == old(d.neighbor.destinations)
    {
      if d !in d.neighbor.destinations {
        return;
      }
      events := events + [Removed(OfDestination(d))];
      WithoutNoDup(d.neighbor.destinations, d);
      d.neighbor.destinations := Without(d.neighbor.destinations, d);
    }

    // The loop over the destinations of a neighbor in oonf_layer2_neigh_remove.
    method DestinationsRemove(n: Neighbor, origin: nat) returns (changed: bool)
      requires NeighborSound(n)
      modifies `events, n`destinations
      ensures NeighborSound(n)
      ensures n.destinations == Others(old(n.destinations), origin) && changed == Sends(old(n.destinations), origin)
      ensures events == old(events) + Removals(old(n.destinations), origin)
    {
      hide Others, Removals, Sends, NeighborSound, Without;
      ghost var done, kept := [], [];
      var rest := n.destinations;
      changed := false;
      OthersStart(origin);
      while rest != []
        invariant done + rest == old(n.destinations) && NeighborSound(n)
        invariant n.destinations == kept + rest && kept == Others(done, origin)
        invariant events == old(events) + Removals(done, origin) && changed == Sends(done, origin)
        decreases |rest|
      {
        var d := rest[0];
        DestinationTurn(n, done, kept, rest);
        OthersMore(done, d, origin);
        if d.origin == origin {
          DestinationRemove(d);
          changed := true;
        } else {
          kept := kept + [d];
        }
        done, rest := done + [d], rest[1..];
      }
      assert done == old(n.destinations) && n.destinations == kept;
    }

    lemma OthersStart(origin: nat)
      ensures Others([], origin) == [] && Removals([], origin) == [] && !Sends([], origin)
    {}

    lemma DestinationTurn(n: Neighbor, done: seq<Destination>, kept: seq<Destination>, rest: seq<Destination>)
      requires NeighborSound(n) && rest != [] && n.destinations == kept + rest
      ensures rest[0].neighbor == n && rest[0] in n.destinations
      ensures Without(n.destinations, rest[0]) == kept + rest[1..]
      ensures done + rest == done + [rest[0]] + rest[1..] && kept + rest == kept + [rest[0]] + rest[1..]
    {
      var ds := n.destinations;
      assert ds[|kept|] == rest[0];
      assert forall i :: 0 <= i < |kept| ==> ds[i] == kept[i];
      assert kept + rest == kept + [rest[0]] + rest[1..];
      WithoutMiddle(kept, rest[0], rest[1..]);
    }

    // oonf_layer2_neigh_cleanup
    method NeighborCleanup(n: Neighbor, origin: nat) returns (changed: bool)
      modifies n`data
      ensures n.data == Wiped(old(n.data), origin) && changed == Owns(old(n.data), origin)
    {
      var data;
      data, changed := WipeData(n.data, origin);
      n.data := data;
    }

    // _neigh_remove
    method DropNeighbor(n: Neighbor)
      requires NeighborSound(n) && n in n.network.neighbors && NoDup(n.network.neighbors)
      modifies `events, n`destinations, n.network`neighbors
      ensures n.destinations == [] && n.network.neighbors == Without(old(n.network.neighbors), n)
      ensures NoDup(n.network.neighbors)
      ensures events == old(events) + AllRemoved(NeighborThings(old(ViewNeighbor(n))))
    {
      hide NeighborSound, AllRemoved, Without;
      ghost var done := [];
      var rest := n.destinations;
      NoneRemoved();
      while rest != []
        invariant done + rest == old(n.destinations) && rest == n.destinations && NeighborSound(n)
        invariant n.network.neighbors == old(n.network.neighbors)
        invariant events == old(events) + AllRemoved(DestinationThings(done))
        decreases |rest|
      {
        var d := rest[0];
        DestinationTurn(n, done, [], rest);
        AllRemovedMore(done, d);
        DestinationRemove(d);
        done, rest := done + [d], rest[1..];
      }
      assert done == old(n.destinations);
      AllRemovedNeighbor(old(ViewNeighbor(n)));
      events := events + [Removed(OfNeighbor(n))];
      WithoutNoDup(n.network.neighbors, n);
      n.network.neighbors := Without(n.network.neighbors, n);
    }

    lemma NoneRemoved()
      ensures AllRemoved(DestinationThings([])) == []
    {}

    lemma AllRemovedMore(a: seq<Destination>, d: Destination)
      ensures AllRemoved(DestinationThings(a + [d])) == AllRemoved(DestinationThings(a)) + [Removed(OfDestination(d))]
    {}

    lemma AllRemovedNeighbor(n: NeighborView)
      ensures AllRemoved(NeighborThings(n)) ==
        AllRemoved(DestinationThings(n.destinations)) + [Removed(OfNeighbor(n.neighbor))]
    {}

    // oonf_layer2_neigh_commit
    method NeighborCommit(n: Neighbor) returns (removed: bool)
      requires NeighborSound(n) && n in n.network.neighbors && NoDup(n.network.neighbors)
      modifies `events, n`destinations, n.network`neighbors
      ensures removed == NeighborEmpty(old(ViewNeighbor(n))) && n.destinations == old(n.destinations)
      ensures NoDup(n.network.neighbors)
      ensures n.network.neighbors == if removed then Without(old(n.network.neighbors), n) else old(n.network.neighbors)
      ensures events == old(events) + [if removed then Removed(OfNeighbor(n)) else Changed(OfNeighbor(n))]
    {
      if |n.destinations| > 0 {
        events := events + [Changed(OfNeighbor(n))];
        return false;
      }
      var any := AnyValue(n.data);
      if any {
        events := events + [Changed(OfNeighbor(n))];
        return false;
      }
      DropNeighbor(n);
      return true;
    }

    // oonf_layer2_neigh_remove, with the guard for an object that is in no tree.
    method NeighborRemove(n: Neighbor, origin: nat) returns (changed: bool)
      requires NeighborSound(n) && NoDup(n.network.neighbors)
      modifies `events, n`destinations, n`data, n.network`neighbors
      ensures NeighborSound(n) && NoDup(n.network.neighbors)
      ensures n !in old(n.network.neighbors) ==>
        && !changed && events == old(events)
        && ViewNeighbor(n) == old(ViewNeighbor(n)) && n.network.neighbors == old(n.network.neighbors)
      ensures n in old(n.network.neighbors) ==>
        && changed == NeighborTouched(old(ViewNeighbor(n)), origin)
        && ViewNeighbor(n) == NeighborRest(old(ViewNeighbor(n)), origin)
        && events == old(events) + NeighborEvents(old(ViewNeighbor(n)), origin)
        && n.network.neighbors == if NeighborGone(old(ViewNeighbor(n)), origin)
          then Without(old(n.network.neighbors), n) else old(n.network.neighbors)
    {
      if n !in n.network.neighbors {
        return false;
      }
      changed := DestinationsRemove(n, origin);
      var cleaned := NeighborCleanup(n, origin);
      changed := changed || cleaned;
      if changed {
        var gone := NeighborCommit(n);
      }
    }

    // One turn of the loop over the neighbors of a network.
    method NeighborStep(x: Network, ghost kept: seq<Neighbor>, n: Neighbor, ghost later: seq<Neighbor>, origin: nat)
        returns (touched: bool, ghost left: seq<Neighbor>)
      requires NetworkSound(x) && x.neighbors == kept + [n] + later
      modifies `events, n`destinations, n`data, x`neighbors
      ensures NetworkSound(x) && x.neighbors == left + later
      ensures left == if NeighborGone(old(ViewNeighbor(n)), origin) then kept else kept + [n]
      ensures ViewNeighbors(later) == old(ViewNeighbors(later))
      ensures ViewNeighbors(left) == old(ViewNeighbors(kept)) +
        if NeighborGone(old(ViewNeighbor(n)), origin) then [] else [NeighborRest(old(ViewNeighbor(n)), origin)]
      ensures touched == NeighborTouched(old(ViewNeighbor(n)), origin)
      ensures events == old(events) + NeighborEvents(old(ViewNeighbor(n)), origin)
    {
      hide NeighborRest, NeighborTouched, NeighborGone, NeighborEvents, ViewNeighbor, NetworkSound, NeighborSound, NoDup,
        Without;
      SoundParts(x);
      Aside(kept, n, later);
      ghost var gone := NeighborGone(ViewNeighbor(n), origin);
      touched := NeighborRemove(n, origin);
      left := if gone then kept else kept + [n];
      WithoutMiddle(kept, n, later);
      ViewMore(kept, n);
      SoundWhole(x);
    }

    lemma SoundParts(x: Network)
      requires NetworkSound(x)
      ensures NoDup(x.neighbors) && forall n :: n in x.neighbors ==> n.network == x && NeighborSound(n)
    {}

    lemma SoundWhole(x: Network)
      requires NoDup(x.neighbors) && forall n :: n in x.neighbors ==> n.network == x && NeighborSound(n)
      ensures NetworkSound(x)
    {}

    lemma Aside(kept: seq<Neighbor>, n: Neighbor, later: seq<Neighbor>)
      requires NoDup(kept + [n] + later)
      ensures n !in kept && n !in later && n in kept + [n] + later
    {
      var all := kept + [n] + later;
      assert all[|kept|] == n;
      assert forall i :: 0 <= i < |kept| ==> all[i] == kept[i];
      assert forall i :: 0 <= i < |later| ==> all[|kept| + 1 + i] == later[i];
    }

    // The loop over the neighbors of a network in oonf_layer2_net_remove.
    method NeighborsRemove(x: Network, origin: nat) returns (changed: bool)
      requires NetworkSound(x)
      modifies `events, x`neighbors, Kids(x)
      ensures NetworkSound(x) && forall n :: n in x.neighbors ==> n in old(x.neighbors)
      ensures ViewNeighbors(x.neighbors) == NeighborsRest(old(ViewNeighbors(x.neighbors)), origin)
      ensures changed == NeighborsTouched(old(ViewNeighbors(x.neighbors)), origin)
      ensures events == old(events) + NeighborsEvents(old(ViewNeighbors(x.neighbors)), origin)
    {
      hide NeighborRest, NeighborTouched, NeighborGone, NeighborEvents, NeighborsRest, NeighborsTouched,
        NeighborsEvents,
        ViewNeighbor, ViewNeighbors, NetworkSound;
      ghost var all, before := x.neighbors, ViewNeighbors(x.neighbors);
      ghost var kept, done, todo := [], [], before;
      var rest := x.neighbors;
      changed := false;
      NeighborsStart(origin);
      while rest != []
        invariant x.neighbors == kept + rest && NetworkSound(x) && forall n :: n in x.neighbors ==> n in all
        invariant before == done + todo
        invariant ViewNeighbors(rest) == todo && ViewNeighbors(kept) == NeighborsRest(done, origin)
        invariant events == old(events) + NeighborsEvents(done, origin) && changed == NeighborsTouched(done, origin)
        decreases |rest|
      {
        var n := rest[0];
        Turn(kept, rest, done, todo);
        NeighborsMore(done, todo[0], origin);
        var touched;
        touched, kept := NeighborStep(x, kept, n, rest[1..], origin);
        changed := changed || touched;
        done, todo, rest := done + [todo[0]], todo[1..], rest[1..];
      }
      assert rest == [] && x.neighbors == kept && before == done;
    }

    lemma Turn(kept: seq<Neighbor>, rest: seq<Neighbor>, done: seq<NeighborView>, todo: seq<NeighborView>)
      requires rest != [] && ViewNeighbors(rest) == todo
      ensures todo != [] && todo[0] == ViewNeighbor(rest[0]) && ViewNeighbors(rest[1..]) == todo[1..]
      ensures done + todo == done + [todo[0]] + todo[1..]
      ensures kept + rest == kept + [rest[0]] + rest[1..] && rest[0] in kept + rest
    {
      assert (kept + rest)[|kept|] == rest[0];
    }

    lemma NeighborsStart(origin: nat)
      ensures NeighborsRest([], origin) == [] && NeighborsEvents([], origin) == [] && !NeighborsTouched([], origin)
      ensures ViewNeighbors([]) == []
    {}

    lemma {:induction false} NeighborsMore(a: seq<NeighborView>, n: NeighborView, origin: nat)
      ensures NeighborsRest(a + [n], origin) ==
        NeighborsRest(a, origin) + if NeighborGone(n, origin) then [] else [NeighborRest(n, origin)]
      ensures NeighborsEvents(a + [n], origin) == NeighborsEvents(a, origin) + NeighborEvents(n, origin)
      ensures NeighborsTouched(a + [n], origin) <==> NeighborsTouched(a, origin) || NeighborTouched(n, origin)
    {
      hide NeighborRest, NeighborTouched, NeighborGone, NeighborEvents;
      TouchedMore(a, n, origin);
      if a != [] {
        assert (a + [n])[1..] == a[1..] + [n];
        NeighborsMore(a[1..], n, origin);
      }
    }

    lemma TouchedMore(a: seq<NeighborView>, n: NeighborView, origin: nat)
      ensures NeighborsTouched(a + [n], origin) <==> NeighborsTouched(a, origin) || NeighborTouched(n, origin)
    {
      hide NeighborTouched;
      var b := a + [n];
      assert b[|a|] == n;
      if NeighborsTouched(a, origin) {
        var k :| 0 <= k < |a| && NeighborTouched(a[k], origin);
        assert NeighborTouched(b[k], origin);
      }
    }

    lemma {:induction false} ViewMore(ns: seq<Neighbor>, n: Neighbor)
      ensures ViewNeighbors(ns + [n]) == ViewNeighbors(ns) + [ViewNeighbor(n)]
    {
      if ns != [] {
        assert (ns + [n])[1..] == ns[1..] + [n];
        ViewMore(ns[1..], n);
      }
    }

    method DropNeighborStep(x: Network, n: Neighbor, ghost later: seq<Neighbor>)
      requires NetworkSound(x) && x.neighbors == [n] + later
      modifies `events, n`destinations, x`neighbors
      ensures NetworkSound(x) && x.neighbors == later && ViewNeighbors(later) == old(ViewNeighbors(later))
      ensures events == old(events) + AllRemoved(NeighborThings(old(ViewNeighbor(n))))
    {
      hide NeighborThings, AllRemoved;
      assert [] + [n] + later == x.neighbors;
      Aside([], n, later);
      DropNeighbor(n);
    }

    // _net_remove
    method DropNetwork(x: Network)
      requires x in nets && NoDup(nets) && NetworkSound(x)
      modifies `events, `nets, x`neighbors, Kids(x)
      ensures nets == Without(old(nets), x) && NoDup(nets) && x.neighbors == []
      ensures events == old(events) + AllRemoved(NetworkThings(old(ViewNetwork(x))))
    {
      hide ViewNeighbor, NeighborThings, AllRemoved, NetworkSound, NeighborsThings, Without, ViewNeighbors;
      ghost var all, before := x.neighbors, ViewNeighbors(x.neighbors);
      ghost var done, todo := [], before;
      var rest := x.neighbors;
      NothingRemoved();
      while rest != []
        invariant x.neighbors == rest && NetworkSound(x) && (forall n :: n in rest ==> n in all)
        invariant before == done + todo && ViewNeighbors(rest) == todo
        invariant nets == old(nets)
        invariant events == old(events) + AllRemoved(NeighborsThings(done))
        decreases |rest|
      {
        var n := rest[0];
        Turn([], rest, done, todo);
        NeighborsRemovedMore(done, todo[0]);
        DropNeighborStep(x, n, rest[1..]);
        done, todo, rest := done + [todo[0]], todo[1..], rest[1..];
      }
      assert before == done;
      NetworkRemoved(old(ViewNetwork(x)));
      events := events + [Removed(OfNetwork(x))];
      WithoutNoDup(nets, x);
      nets := Without(nets, x);
    }

    lemma NothingRemoved()
      ensures AllRemoved(NeighborsThings([])) == [] && ViewNeighbors([]) == []
    {}

    lemma {:induction false} NeighborsThingsMore(a: seq<NeighborView>, n: NeighborView)
      ensures NeighborsThings(a + [n]) == NeighborsThings(a) + NeighborThings(n)
    {
      hide NeighborThings;
      if a != [] {
        assert (a + [n])[1..] == a[1..] + [n];
        NeighborsThingsMore(a[1..], n);
      }
    }

    lemma NeighborsRemovedMore(a: seq<NeighborView>, n: NeighborView)
      ensures AllRemoved(NeighborsThings(a + [n])) == AllRemoved(NeighborsThings(a)) + AllRemoved(NeighborThings(n))
    {
      hide NeighborsThings, NeighborThings;
      NeighborsThingsMore(a, n);
    }

    lemma NetworkRemoved(x: NetworkView)
      ensures AllRemoved(NetworkThings(x)) == AllRemoved(NeighborsThings(x.neighbors)) + [Removed(OfNetwork(x.network))]
    {}

    // oonf_layer2_net_cleanup
    method NetworkCleanup(x: Network, origin: nat) returns (changed: bool)
      modifies x`data, x`neighborData
      ensures x.data == Wiped(old(x.data), origin) && x.neighborData == Wiped(old(x.neighborData), origin)
      ensures changed == (Owns(old(x.data), origin) || Owns(old(x.neighborData), origin))
    {
      var data, more;
      data, changed := WipeData(x.data, origin);
      x.data := data;
      data, more := WipeData(x.neighborData, origin);
      x.neighborData := data;
      changed := changed || more;
    }

    // oonf_layer2_net_commit
    method NetworkCommit(x: Network) returns (removed: bool)
      requires x in nets && NoDup(nets) && NetworkSound(x)
      modifies `events, `nets, x`neighbors
      ensures removed == NetworkEmpty(old(ViewNetwork(x))) && ViewNetwork(x) == old(ViewNetwork(x))
      ensures x.neighbors == old(x.neighbors)
      ensures nets == (if removed then Without(old(nets), x) else old(nets)) && NoDup(nets)
      ensures events == old(events) + [if removed then Removed(OfNetwork(x)) else Changed(OfNetwork(x))]
    {
      if |x.neighbors| > 0 {
        events := events + [Changed(OfNetwork(x))];
        return false;
      }
      var any := AnyValue(x.data);
      if any {
        events := events + [Changed(OfNetwork(x))];
        return false;
      }
      any := AnyValue(x.neighborData);
      if any {
        events := events + [Changed(OfNetwork(x))];
        return false;
      }
      DropNetwork(x);
      return true;
    }

    // oonf_layer2_net_remove, with the guard for an object that is in no tree.
    method NetworkRemove(x: Network, origin: nat) returns (changed: bool)
      requires NoDup(nets) && NetworkSound(x)
      modifies `events, `nets, x, Kids(x)
      ensures NoDup(nets) && NetworkSound(x) && Kids(x) <= old(Kids(x))
      ensures x !in old(nets) ==>
        !changed && events == old(events) && nets == old(nets) && ViewNetwork(x) == old(ViewNetwork(x))
      ensures x in old(nets) ==>
        && changed == NetworkTouched(old(ViewNetwork(x)), origin)
        && ViewNetwork(x) == NetworkRest(old(ViewNetwork(x)), origin)
        && events == old(events) + NetworkEvents(old(ViewNetwork(x)), origin)
        && nets == if NetworkGone(old(ViewNetwork(x)), origin) then Without(old(nets), x) else old(nets)
    {
      hide Wiped, Owns, NeighborsRest, NeighborsTouched, NeighborsEvents, NoDup, Without, NetworkEmpty, NetworkSound,
        ViewNeighbors;
      if x !in nets {
        return false;
      }
      changed := NeighborsRemove(x, origin);
      var cleaned := NetworkCleanup(x, origin);
      changed := changed || cleaned;
      if changed {
        var gone := NetworkCommit(x);
      }
    }

    // The shape of the database: each object hangs in one place, where its back pointer leads.
    ghost predicate Valid()
      reads `nets, nets, Below(nets)
    {
      NoDup(nets) && Sound(nets)
    }

    // One turn of the loop over the networks.
    method NetworkStep(ghost kept: seq<Network>, x: Network, ghost later: seq<Network>, origin: nat)
        returns (ghost left: seq<Network>)
      requires Sound(kept) && NetworkSound(x) && Sound(later) && NoDup(nets) && nets == kept + [x] + later
      modifies `events, `nets, x, Kids(x)
      ensures Sound(left) && Sound(later) && NoDup(nets) && nets == left + later
      ensures Below(left) <= old(Below(kept + [x])) && Below(later) == old(Below(later))
      ensures ViewNetworks(later) == old(ViewNetworks(later))
      ensures ViewNetworks(left) == old(ViewNetworks(kept)) +
        if NetworkGone(old(ViewNetwork(x)), origin) then [] else [NetworkRest(old(ViewNetwork(x)), origin)]
      ensures events == old(events) + NetworkEvents(old(ViewNetwork(x)), origin)
    {
      hide NetworkRest, NetworkTouched, NetworkGone, NetworkEvents, ViewNetwork, NetworkSound, ViewNetworks, Sound,
        Below, NoDup, Kids;
      NetworkAside(kept, x, later);
      ghost var gone := NetworkGone(ViewNetwork(x), origin);
      BelowMore(kept, x);
      Allocated(kept);
      Allocated(later);
      var touched := NetworkRemove(x, origin);
      assert Sound(kept);
      BelowMore(kept, x);
      left := if gone then kept else kept + [x];
      WithoutMiddle(kept, x, later);
      ViewNetworksMore(kept, x);
      SoundMore(kept, x);
    }

    // oonf_layer2_cleanup_origin
    method CleanupOrigin(origin: nat)
      requires Valid()
      modifies `events, `nets, nets, Below(nets)
      ensures Valid()
      ensures ViewNetworks(nets) == NetworksRest(old(ViewNetworks(nets)), origin)
      ensures events == old(events) + NetworksEvents(old(ViewNetworks(nets)), origin)
    {
      hide NetworkRest, NetworkTouched, NetworkGone, NetworkEvents, NetworksRest, NetworksEvents, ViewNetwork,
        ViewNetworks, NetworkSound, Sound, Below, NoDup, Kids;
      ghost var all, before, below := nets, ViewNetworks(nets), Below(nets);
      ghost var kept, done, todo := [], [], before;
      var rest := nets;
      NetworksStart(origin);
      while rest != []
        invariant nets == kept + rest && NoDup(nets) && Sound(kept) && Sound(rest)
        invariant (forall x :: x in rest ==> x in all) && Below(kept) <= below && Below(rest) <= below
        invariant before == done + todo && ViewNetworks(rest) == todo
        invariant ViewNetworks(kept) == NetworksRest(done, origin)
        invariant events == old(events) + NetworksEvents(done, origin)
        decreases |rest|
      {
        var x := rest[0];
        NetworkTurn(kept, rest, done, todo);
        NetworksMore(done, todo[0], origin);
        kept := NetworkStep(kept, x, rest[1..], origin);
        done, todo, rest := done + [todo[0]], todo[1..], rest[1..];
      }
      assert rest == [] && nets == kept && before == done;
    }

    // The destructor of the subsystem.
    method Cleanup()
      requires Valid()
      modifies `events, `nets, nets, Below(nets)
      ensures nets == [] && events == old(events) + AllRemoved(Things(old(ViewNetworks(nets))))
    {
      hide NetworkThings, ViewNetwork, ViewNetworks, NetworkSound, Sound, Below, NoDup, Kids, AllRemoved, Things;
      ghost var all, before, below := nets, ViewNetworks(nets), Below(nets);
      ghost var done, todo := [], before;
      var rest := nets;
      NothingThere();
      while rest != []
        invariant nets == rest && NoDup(nets) && Sound(rest)
        invariant (forall x :: x in rest ==> x in all) && Below(rest) <= below
        invariant before == done + todo && ViewNetworks(rest) == todo
        invariant events == old(events) + AllRemoved(Things(done))
        decreases |rest|
      {
        var x := rest[0];
        NetworkTurn([], rest, done, todo);
        NetworksRemovedMore(done, todo[0]);
        DropStep(x, rest[1..]);
        done, todo, rest := done + [todo[0]], todo[1..], rest[1..];
      }
      assert rest == [] && before == done;
    }

    method DropStep(x: Network, ghost later: seq<Network>)
      requires NetworkSound(x) && Sound(later) && NoDup(nets) && nets == [x] + later
      modifies `events, `nets, x, Kids(x)
      ensures Sound(later) && NoDup(nets) && nets == later
      ensures Below(later) == old(Below(later)) && ViewNetworks(later) == old(ViewNetworks(later))
      ensures events == old(events) + AllRemoved(NetworkThings(old(ViewNetwork(x))))
    {
      hide NetworkThings, ViewNetwork, ViewNetworks, NetworkSound, Sound, Below, NoDup, Kids, AllRemoved;
      assert [] + [x] + later == nets;
      NetworksStart(0);
      NetworkAside([], x, later);
      Allocated(later);
      DropNetwork(x);
    }

    lemma NothingThere()
      ensures AllRemoved(Things([])) == []
    {}

    lemma NetworksRemovedMore(a: seq<NetworkView>, x: NetworkView)
      ensures AllRemoved(Things(a + [x])) == AllRemoved(Things(a)) + AllRemoved(NetworkThings(x))
    {
      hide Things, NetworkThings;
      ThingsMore(a, x);
    }

    lemma {:induction false} ThingsMore(a: seq<NetworkView>, x: NetworkView)
      ensures Things(a + [x]) == Things(a) + NetworkThings(x)
    {
      hide NetworkThings;
      if a != [] {
        assert (a + [x])[1..] == a[1..] + [x];
        ThingsMore(a[1..], x);
      }
    }

    lemma {:induction false} SoundAll(xs: seq<Network>)
      ensures Sound(xs) <==> forall x :: x in xs ==> NetworkSound(x)
    {
      hide NetworkSound;
      if xs != [] {
        SoundAll(xs[1..]);
        assert xs == [xs[0]] + xs[1..];
      }
    }

    constructor (fold: Address -> Address, cut: Address -> Address, hardware: Address -> bool)
      ensures Valid() && nets == [] && events == []
      ensures this.fold == fold && this.cut == cut && this.hardware == hardware
    {
      this.fold, this.cut, this.hardware := fold, cut, hardware;
      nets, events := [], [];
    }

    ghost predicate Named(nets: seq<Network>, name: Address) {
      exists k :: 0 <= k < |nets| && fold(nets[k].name) == fold(name)
    }

    // The lookup of a name in the tree.
    method FindNetwork(name: Address) returns (x: Network?)
      ensures x == null <==> !Named(nets, name)
      ensures x != null ==> x in nets && fold(x.name) == fold(name)
    {
      var i := 0;
      while i < |nets|
        invariant i <= |nets| && forall k :: 0 <= k < i ==> fold(nets[k].name) != fold(name)
      {
        if fold(nets[i].name) == fold(name) {
          return nets[i];
        }
        i := i + 1;
      }
      return null;
    }

    // oonf_layer2_net_add, with the tree's order left open: a new object comes last. memory says
    // whether there is room for one. The tree takes no second name, and a name that was cut
    // may be one: the object is announced then, but it is in no tree.
    method NetworkAdd(name: Address, memory: bool) returns (x: Network?)
      requires Valid()
      modifies `nets, `events
      ensures Valid()
      ensures Named(old(nets), name) ==>
        x != null && x in nets && fold(x.name) == fold(name) && nets == old(nets) && events == old(events)
      ensures !Named(old(nets), name) && !memory ==> x == null && nets == old(nets) && events == old(events)
      ensures !Named(old(nets), name) && memory ==>
        && x != null && fresh(x) && x.name == cut(name) && x.neighbors == []
        && events == old(events) + [Added(OfNetwork(x))]
        && nets == if Named(old(nets), cut(name)) then old(nets) else old(nets) + [x]
    {
      SoundAll(nets);
      x := FindNetwork(name);
      SoundAll(nets);
      if x != null || !memory {
        return;
      }
      x := new Network(cut(name));
      var twin := FindNetwork(x.name);
      if twin == null {
        nets := nets + [x];
      }
      events := events + [Added(OfNetwork(x))];
      SoundAll(nets);
    }

    ghost predicate HasNeighbor(ns: seq<Neighbor>, addr: Address) {
      exists k :: 0 <= k < |ns| && ns[k].addr == addr
    }

    // oonf_layer2_neigh_add
    method NeighborAdd(x: Network, addr: Address, memory: bool) returns (n: Neighbor?)
      requires Valid() && x in nets
      modifies `events, x`neighbors
      ensures Valid()
      ensures n != null ==> hardware(addr) && n in x.neighbors && n.addr == addr && n.network == x
      ensures !hardware(addr) || HasNeighbor(old(x.neighbors), addr) || !memory ==>
        x.neighbors == old(x.neighbors) && events == old(events)
      ensures n == null <==> !hardware(addr) || (!memory && !HasNeighbor(old(x.neighbors), addr))
      ensures hardware(addr) && !HasNeighbor(old(x.neighbors), addr) && memory ==>
        && fresh(n) && x.neighbors == old(x.neighbors) + [n] && n.destinations == []
        && events == old(events) + [Added(OfNeighbor(n))]
    {
      if !hardware(addr) {
        return null;
      }
      SoundAll(nets);
      var i := 0;
      while i < |x.neighbors|
        invariant i <= |x.neighbors| && forall k :: 0 <= k < i ==> x.neighbors[k].addr != addr
      {
        if x.neighbors[i].addr == addr {
          return x.neighbors[i];
        }
        i := i + 1;
      }
      if !memory {
        return null;
      }
      n := new Neighbor(addr, x);
      x.neighbors := x.neighbors + [n];
      events := events + [Added(OfNeighbor(n))];
      SoundAll(nets);
    }

    ghost predicate HasDestination(ds: seq<Destination>, destination: Address) {
      exists k :: 0 <= k < |ds| && ds[k].destination == destination
    }

    // oonf_layer2_destination_add
    method DestinationAdd(n: Neighbor, destination: Address, origin: nat, memory: bool) returns (d: Destination?)
      requires Valid() && n.network in nets && n in n.network.neighbors
      modifies `events, n`destinations
      ensures Valid()
      ensures d != null ==> d in n.destinations && d.destination == destination && d.neighbor == n
      ensures HasDestination(old(n.destinations), destination) || !memory ==>
        n.destinations == old(n.destinations) && events == old(events)
      ensures d == null <==> !memory && !HasDestination(old(n.destinations), destination)
      ensures !HasDestination(old(n.destinations), destination) && memory ==>
        && fresh(d) && n.destinations == old(n.destinations) + [d] && d.origin == origin
        && events == old(events) + [Added(OfDestination(d))]
    {
      SoundAll(nets);
      var i := 0;
      while i < |n.destinations|
        invariant i <= |n.destinations| && forall k :: 0 <= k < i ==> n.destinations[k].destination != destination
      {
        if n.destinations[i].destination == destination {
          return n.destinations[i];
        }
        i := i + 1;
      }
      if !memory {
        return null;
      }
      d := new Destination(destination, origin, n);
      n.destinations := n.destinations + [d];
      events := events + [Added(OfDestination(d))];
      SoundAll(nets);
    }

    lemma NetworkTurn(kept: seq<Network>, rest: seq<Network>, done: seq<NetworkView>, todo: seq<NetworkView>)
      requires rest != [] && ViewNetworks(rest) == todo && Sound(rest)
      ensures todo != [] && todo[0] == ViewNetwork(rest[0]) && ViewNetworks(rest[1..]) == todo[1..]
      ensures done + todo == done + [todo[0]] + todo[1..]
      ensures kept + rest == kept + [rest[0]] + rest[1..] && rest[0] in rest
      ensures NetworkSound(rest[0]) && Sound(rest[1..])
      ensures Below(rest[1..]) <= Below(rest) && Kids(rest[0]) <= Below(rest)
      ensures Below(kept + [rest[0]]) <= Below(kept) + Below(rest)
    {
      BelowMore(kept, rest[0]);
    }

    lemma NetworksStart(origin: nat)
      ensures NetworksRest([], origin) == [] && NetworksEvents([], origin) == []
      ensures ViewNetworks([]) == [] && Sound([]) && Below([]) == {}
    {}

    lemma NetworkAside(kept: seq<Network>, x: Network, later: seq<Network>)
      requires NoDup(kept + [x] + later) && Sound(kept) && NetworkSound(x) && Sound(later)
      ensures x !in kept && x !in later && x in kept + [x] + later
      ensures Kids(x) !! Below(kept) && Kids(x) !! Below(later)
    {
      var all := kept + [x] + later;
      assert all[|kept|] == x;
      assert forall i :: 0 <= i < |kept| ==> all[i] == kept[i];
      assert forall i :: 0 <= i < |later| ==> all[|kept| + 1 + i] == later[i];
      forall n | n in x.neighbors ensures n !in Below(kept) && n !in Below(later) {
        SoundBelow(kept, n);
        SoundBelow(later, n);
      }
    }

    lemma {:induction false} SoundBelow(xs: seq<Network>, n: Neighbor)
      requires Sound(xs)
      ensures n in Below(xs) ==> n.network in xs
    {
      if xs != [] {
        SoundBelow(xs[1..], n);
      }
    }

    lemma {:induction false} Allocated(xs: seq<Network>)
      ensures forall n :: n in Below(xs) ==> allocated(n)
    {
      if xs != [] {
        Allocated(xs[1..]);
      }
    }

    lemma {:induction false} BelowMore(xs: seq<Network>, x: Network)
      ensures Below(xs + [x]) == Below(xs) + Kids(x)
    {
      if xs != [] {
        assert (xs + [x])[1..] == xs[1..] + [x];
        BelowMore(xs[1..], x);
      }
    }

    lemma {:induction false} SoundMore(xs: seq<Network>, x: Network)
      ensures Sound(xs + [x]) <==> Sound(xs) && NetworkSound(x)
    {
      hide NetworkSound;
      if xs != [] {
        assert (xs + [x])[1..] == xs[1..] + [x];
        SoundMore(xs[1..], x);
      }
    }

    lemma {:induction false} ViewNetworksMore(xs: seq<Network>, x: Network)
      ensures ViewNetworks(xs + [x]) == ViewNetworks(xs) + [ViewNetwork(x)]
    {
      hide ViewNetwork;
      if xs != [] {
        assert (xs + [x])[1..] == xs[1..] + [x];
        ViewNetworksMore(xs[1..], x);
      }
    }

    lemma {:induction false} NetworksMore(a: seq<NetworkView>, x: NetworkView, origin: nat)
      ensures NetworksRest(a + [x], origin) ==
        NetworksRest(a, origin) + if NetworkGone(x, origin) then [] else [NetworkRest(x, origin)]
      ensures NetworksEvents(a + [x], origin) == NetworksEvents(a, origin) + NetworkEvents(x, origin)
    {
      hide NetworkRest, NetworkGone, NetworkEvents;
      if a != [] {
        assert (a + [x])[1..] == a[1..] + [x];
        NetworksMore(a[1..], x, origin);
      }
    }
  }
}
