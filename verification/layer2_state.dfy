// src-plugins/subsystems/oonf_layer2.c: the layer-2 database as a tree of values, and what
// cleaning up after one originator does to it.
module Layer2States {
  import opened Sequences

  type Address(==, !new)

  // struct oonf_layer2_data
  datatype Slot = Slot(value: int, hasValue: bool, origin: nat)

  class Destination {
    const destination: Address
    const origin: nat
    const neighbor: Neighbor

    constructor (destination: Address, origin: nat, neighbor: Neighbor)
      ensures this.destination == destination && this.origin == origin && this.neighbor == neighbor
    {
      this.destination, this.origin, this.neighbor := destination, origin, neighbor;
    }
  }

  class Neighbor {
    const addr: Address
    const network: Network
    var destinations: seq<Destination>
    var data: seq<Slot>

    constructor (addr: Address, network: Network)
      ensures this.addr == addr && this.network == network && destinations == []
      ensures data == seq(NEIGHBOR_COUNT, i => Slot(0, false, 0))
    {
      this.addr, this.network, destinations := addr, network, [];
      data := seq(NEIGHBOR_COUNT, i => Slot(0, false, 0));
    }
  }

  class Network {
    const name: Address
    var neighbors: seq<Neighbor>
    var data: seq<Slot>
    var neighborData: seq<Slot>

    constructor (name: Address)
      ensures this.name == name && neighbors == []
      ensures data == seq(NETWORK_COUNT, i => Slot(0, false, 0))
      ensures neighborData == seq(NEIGHBOR_COUNT, i => Slot(0, false, 0)) && |data| == 9 && |neighborData| == 18
    {
      this.name, neighbors := name, [];
      data := seq(NETWORK_COUNT, i => Slot(0, false, 0));
      neighborData := seq(NEIGHBOR_COUNT, i => Slot(0, false, 0));
    }
  }

  const NETWORK_COUNT := 9
  const NEIGHBOR_COUNT := 18

  // The contents of the objects.
  datatype NeighborView = NeighborView(neighbor: Neighbor, destinations: seq<Destination>, data: seq<Slot>)
  datatype NetworkView = NetworkView(network: Network, neighbors: seq<NeighborView>, data: seq<Slot>,
      neighborData: seq<Slot>)

  datatype Thing = OfDestination(d: Destination) | OfNeighbor(n: Neighbor) | OfNetwork(net: Network)
  datatype Event = Added(x: Thing) | Removed(x: Thing) | Changed(x: Thing)

  // ----- values -----

  predicate Owns(data: seq<Slot>, origin: nat) {
    exists i :: 0 <= i < |data| && data[i].origin == origin
  }

  predicate HasValue(data: seq<Slot>) {
    exists i :: 0 <= i < |data| && data[i].hasValue
  }

  // oonf_layer2_reset_value
  function Reset(s: Slot): Slot {
    s.(hasValue := false, origin := 0)
  }

  function Wiped(data: seq<Slot>, origin: nat): (w: seq<Slot>)
    ensures |w| == |data|
  {
    seq(|data|, i requires 0 <= i < |data| => if data[i].origin == origin then Reset(data[i]) else data[i])
  }

  // ----- destinations -----

  function Others(ds: seq<Destination>, origin: nat): seq<Destination> {
    if ds == [] then []
    else if ds[0].origin == origin then Others(ds[1..], origin)
    else [ds[0]] + Others(ds[1..], origin)
  }

  function Removals(ds: seq<Destination>, origin: nat): seq<Event> {
    if ds == [] then []
    else if ds[0].origin == origin then [Removed(OfDestination(ds[0]))] + Removals(ds[1..], origin)
    else Removals(ds[1..], origin)
  }

  predicate Sends(ds: seq<Destination>, origin: nat) {
    exists i :: 0 <= i < |ds| && ds[i].origin == origin
  }

  // ----- neighbors -----

  predicate NeighborTouched(n: NeighborView, origin: nat) {
    Sends(n.destinations, origin) || Owns(n.data, origin)
  }

  function NeighborRest(n: NeighborView, origin: nat): NeighborView {
    n.(destinations := Others(n.destinations, origin), data := Wiped(n.data, origin))
  }

  predicate NeighborEmpty(n: NeighborView) {
    n.destinations == [] && !HasValue(n.data)
  }

  predicate NeighborGone(n: NeighborView, origin: nat) {
    NeighborTouched(n, origin) && NeighborEmpty(NeighborRest(n, origin))
  }

  function NeighborEvents(n: NeighborView, origin: nat): seq<Event> {
    Removals(n.destinations, origin) +
    if NeighborGone(n, origin) then [Removed(OfNeighbor(n.neighbor))]
    else if NeighborTouched(n, origin) then [Changed(OfNeighbor(n.neighbor))]
    else []
  }

  function NeighborsRest(ns: seq<NeighborView>, origin: nat): seq<NeighborView> {
    if ns == [] then []
    else if NeighborGone(ns[0], origin) then NeighborsRest(ns[1..], origin)
    else [NeighborRest(ns[0], origin)] + NeighborsRest(ns[1..], origin)
  }

  function NeighborsEvents(ns: seq<NeighborView>, origin: nat): seq<Event> {
    if ns == [] then [] else NeighborEvents(ns[0], origin) + NeighborsEvents(ns[1..], origin)
  }

  predicate NeighborsTouched(ns: seq<NeighborView>, origin: nat) {
    exists i :: 0 <= i < |ns| && NeighborTouched(ns[i], origin)
  }

  // ----- networks -----

  predicate NetworkTouched(x: NetworkView, origin: nat) {
    NeighborsTouched(x.neighbors, origin) || Owns(x.data, origin) || Owns(x.neighborData, origin)
  }

  function NetworkRest(x: NetworkView, origin: nat): NetworkView {
    x.(neighbors := NeighborsRest(x.neighbors, origin), data := Wiped(x.data, origin),
       neighborData := Wiped(x.neighborData, origin))
  }

  predicate NetworkEmpty(x: NetworkView) {
    x.neighbors == [] && !HasValue(x.data) && !HasValue(x.neighborData)
  }

  predicate NetworkGone(x: NetworkView, origin: nat) {
    NetworkTouched(x, origin) && NetworkEmpty(NetworkRest(x, origin))
  }

  function NetworkEvents(x: NetworkView, origin: nat): seq<Event> {
    NeighborsEvents(x.neighbors, origin) +
    if NetworkGone(x, origin) then [Removed(OfNetwork(x.network))]
    else if NetworkTouched(x, origin) then [Changed(OfNetwork(x.network))]
    else []
  }

  function NetworksRest(xs: seq<NetworkView>, origin: nat): seq<NetworkView> {
    if xs == [] then []
    else if NetworkGone(xs[0], origin) then NetworksRest(xs[1..], origin)
    else [NetworkRest(xs[0], origin)] + NetworksRest(xs[1..], origin)
  }

  function NetworksEvents(xs: seq<NetworkView>, origin: nat): seq<Event> {
    if xs == [] then [] else NetworkEvents(xs[0], origin) + NetworksEvents(xs[1..], origin)
  }

  // ----- what the database knows, and from whom -----

  datatype Fact =
    | NetworkFact(net: Network, i: nat, s: Slot)
    | DefaultFact(net: Network, i: nat, s: Slot)
    | NeighborFact(n: Neighbor, i: nat, s: Slot)
    | DestinationFact(d: Destination)
  {
    function Origin(): nat {
      if DestinationFact? then d.origin else s.origin
    }
  }

  ghost predicate InNeighbor(f: Fact, n: NeighborView) {
    match f
    case NeighborFact(m, i, s) => m == n.neighbor && i < |n.data| && n.data[i] == s && s.hasValue
    case DestinationFact(d) => d in n.destinations
    case _ => false
  }

  ghost predicate InNeighbors(f: Fact, ns: seq<NeighborView>) {
    exists k :: 0 <= k < |ns| && InNeighbor(f, ns[k])
  }

  ghost predicate InNetwork(f: Fact, x: NetworkView) {
    match f
    case NetworkFact(m, i, s) => m == x.network && i < |x.data| && x.data[i] == s && s.hasValue
    case DefaultFact(m, i, s) => m == x.network && i < |x.neighborData| && x.neighborData[i] == s && s.hasValue
    case _ => InNeighbors(f, x.neighbors)
  }

  ghost predicate Known(f: Fact, xs: seq<NetworkView>) {
    exists k :: 0 <= k < |xs| && InNetwork(f, xs[k])
  }

  lemma {:induction false} OthersIn(ds: seq<Destination>, origin: nat, d: Destination)
    ensures d in Others(ds, origin) <==> d in ds && d.origin != origin
  {
    if ds != [] {
      OthersIn(ds[1..], origin, d);
    }
  }

  lemma NeighborKeeps(f: Fact, n: NeighborView, origin: nat)
    ensures InNeighbor(f, NeighborRest(n, origin)) <==> InNeighbor(f, n) && f.Origin() != origin
    ensures NeighborGone(n, origin) ==> !InNeighbor(f, NeighborRest(n, origin))
  {
    if f.DestinationFact? {
      OthersIn(n.destinations, origin, f.d);
    }
  }

  lemma {:induction false} NeighborsKeep(f: Fact, ns: seq<NeighborView>, origin: nat)
    ensures InNeighbors(f, NeighborsRest(ns, origin)) <==> InNeighbors(f, ns) && f.Origin() != origin
  {
    if ns != [] {
      NeighborsKeep(f, ns[1..], origin);
      NeighborKeeps(f, ns[0], origin);
      InNeighborsCons(f, ns[0], ns[1..]);
      assert [ns[0]] + ns[1..] == ns;
      InNeighborsCons(f, NeighborRest(ns[0], origin), NeighborsRest(ns[1..], origin));
    }
  }

  lemma InNeighborsCons(f: Fact, n: NeighborView, ns: seq<NeighborView>)
    ensures InNeighbors(f, [n] + ns) <==> InNeighbor(f, n) || InNeighbors(f, ns)
  {
    var all := [n] + ns;
    assert all[0] == n;
    if InNeighbors(f, ns) {
      var k :| 0 <= k < |ns| && InNeighbor(f, ns[k]);
      assert all[k + 1] == ns[k];
    }
  }

  lemma KnownCons(f: Fact, x: NetworkView, xs: seq<NetworkView>)
    ensures Known(f, [x] + xs) <==> InNetwork(f, x) || Known(f, xs)
  {
    var all := [x] + xs;
    assert all[0] == x;
    if Known(f, xs) {
      var k :| 0 <= k < |xs| && InNetwork(f, xs[k]);
      assert all[k + 1] == xs[k];
    }
  }

  lemma NetworkKeeps(f: Fact, x: NetworkView, origin: nat)
    ensures InNetwork(f, NetworkRest(x, origin)) <==> InNetwork(f, x) && f.Origin() != origin
    ensures NetworkGone(x, origin) ==> !InNetwork(f, NetworkRest(x, origin))
  {
    NeighborsKeep(f, x.neighbors, origin);
  }

  // The database forgets exactly what it knows from that originator.
  lemma {:induction false} Forgets(f: Fact, xs: seq<NetworkView>, origin: nat)
    ensures Known(f, NetworksRest(xs, origin)) <==> Known(f, xs) && f.Origin() != origin
  {
    if xs != [] {
      Forgets(f, xs[1..], origin);
      NetworkKeeps(f, xs[0], origin);
      KnownCons(f, xs[0], xs[1..]);
      assert [xs[0]] + xs[1..] == xs;
      KnownCons(f, NetworkRest(xs[0], origin), NetworksRest(xs[1..], origin));
    }
  }

  // A registered originator owns nothing any more; what was never set belongs to originator 0.
  lemma WipedOwns(data: seq<Slot>, origin: nat)
    ensures Owns(Wiped(data, origin), origin) <==> origin == 0 && Owns(data, origin)
  {
    var w := Wiped(data, origin);
    if origin == 0 && Owns(data, origin) {
      var i :| 0 <= i < |data| && data[i].origin == origin;
      assert w[i].origin == origin;
    }
  }

  lemma {:induction false} OthersSend(ds: seq<Destination>, origin: nat)
    ensures !Sends(Others(ds, origin), origin)
  {
    var r := Others(ds, origin);
    forall i | 0 <= i < |r| ensures r[i].origin != origin {
      OthersIn(ds, origin, r[i]);
    }
  }

  lemma {:induction false} NeighborsUntouched(ns: seq<NeighborView>, origin: nat)
    requires origin != 0
    ensures !NeighborsTouched(NeighborsRest(ns, origin), origin)
  {
    if ns != [] {
      NeighborsUntouched(ns[1..], origin);
      OthersSend(ns[0].destinations, origin);
      WipedOwns(ns[0].data, origin);
    }
  }

  // After the cleanup nothing in the database bears the mark of the originator.
  lemma {:induction false} Untouched(xs: seq<NetworkView>, origin: nat)
    requires origin != 0
    ensures forall i :: 0 <= i < |NetworksRest(xs, origin)| ==> !NetworkTouched(NetworksRest(xs, origin)[i], origin)
  {
    if xs != [] {
      Untouched(xs[1..], origin);
      NeighborsUntouched(xs[0].neighbors, origin);
      WipedOwns(xs[0].data, origin);
      WipedOwns(xs[0].neighborData, origin);
    }
  }

  // ----- what is announced -----

  function DestinationThings(ds: seq<Destination>): seq<Thing> {
    seq(|ds|, i requires 0 <= i < |ds| => OfDestination(ds[i]))
  }

  function NeighborThings(n: NeighborView): seq<Thing> {
    DestinationThings(n.destinations) + [OfNeighbor(n.neighbor)]
  }

  function NeighborsThings(ns: seq<NeighborView>): seq<Thing> {
    if ns == [] then [] else NeighborThings(ns[0]) + NeighborsThings(ns[1..])
  }

  function NetworkThings(x: NetworkView): seq<Thing> {
    NeighborsThings(x.neighbors) + [OfNetwork(x.network)]
  }

  // Everything in the database, children before what they hang on.
  function Things(xs: seq<NetworkView>): seq<Thing> {
    if xs == [] then [] else NetworkThings(xs[0]) + Things(xs[1..])
  }

  function Announced(es: seq<Event>): seq<Thing> {
    if es == [] then [] else if es[0].Removed? then [es[0].x] + Announced(es[1..]) else Announced(es[1..])
  }

  lemma {:induction false} AnnouncedConcat(a: seq<Event>, b: seq<Event>)
    ensures Announced(a + b) == Announced(a) + Announced(b)
  {
    if a == [] {
      assert a + b == b;
    } else {
      assert (a + b)[1..] == a[1..] + b;
      AnnouncedConcat(a[1..], b);
    }
  }

  function Pick(ts: seq<Thing>, flags: seq<bool>, flag: bool): seq<Thing>
    requires |ts| == |flags|
  {
    if ts == [] then []
    else if flags[0] == flag then [ts[0]] + Pick(ts[1..], flags[1..], flag)
    else Pick(ts[1..], flags[1..], flag)
  }

  lemma {:induction false} PickConcat(a: seq<Thing>, f: seq<bool>, b: seq<Thing>, g: seq<bool>, flag: bool)
    requires |a| == |f| && |b| == |g|
    ensures Pick(a + b, f + g, flag) == Pick(a, f, flag) + Pick(b, g, flag)
  {
    if a == [] {
      assert a + b == b && f + g == g;
    } else {
      assert (a + b)[1..] == a[1..] + b && (f + g)[1..] == f[1..] + g;
      PickConcat(a[1..], f[1..], b, g, flag);
    }
  }

  // flags splits ts into what is announced as removed and what is left, both in order.
  ghost predicate Splits(ts: seq<Thing>, flags: seq<bool>, es: seq<Event>, left: seq<Thing>) {
    |ts| == |flags| && Pick(ts, flags, true) == Announced(es) && Pick(ts, flags, false) == left
  }

  lemma SplitsConcat(a: seq<Thing>, f: seq<bool>, d: seq<Event>, l: seq<Thing>,
      b: seq<Thing>, g: seq<bool>, e: seq<Event>, m: seq<Thing>)
    requires Splits(a, f, d, l) && Splits(b, g, e, m)
    ensures Splits(a + b, f + g, d + e, l + m)
  {
    AnnouncedConcat(d, e);
    PickConcat(a, f, b, g, true);
    PickConcat(a, f, b, g, false);
  }

  lemma SplitsOne(t: Thing, gone: bool, touched: bool)
    ensures Splits([t], [gone], if gone then [Removed(t)] else if touched then [Changed(t)] else [],
      if gone then [] else [t])
  {}

  lemma DestinationThingsCons(d: Destination, ds: seq<Destination>)
    ensures DestinationThings([d] + ds) == [OfDestination(d)] + DestinationThings(ds)
  {}

  lemma {:induction false} DestinationsSplit(ds: seq<Destination>, origin: nat) returns (flags: seq<bool>)
    ensures Splits(DestinationThings(ds), flags, Removals(ds, origin), DestinationThings(Others(ds, origin)))
  {
    if ds == [] {
      flags := [];
    } else {
      hide Splits, Announced, DestinationThings;
      var rest := DestinationsSplit(ds[1..], origin);
      var gone, t := ds[0].origin == origin, OfDestination(ds[0]);
      flags := [gone] + rest;
      var es, left := if gone then [Removed(t)] else [], if gone then [] else [t];
      SplitsOne(t, gone, false);
      SplitsConcat([t], [gone], es, left,
        DestinationThings(ds[1..]), rest, Removals(ds[1..], origin), DestinationThings(Others(ds[1..], origin)));
      assert [ds[0]] + ds[1..] == ds;
      DestinationThingsCons(ds[0], ds[1..]);
      DestinationThingsCons(ds[0], Others(ds[1..], origin));
      assert es + Removals(ds[1..], origin) == Removals(ds, origin);
      assert left + DestinationThings(Others(ds[1..], origin)) == DestinationThings(Others(ds, origin));
    }
  }

  lemma NeighborSplit(n: NeighborView, origin: nat) returns (flags: seq<bool>)
    ensures Splits(NeighborThings(n), flags, NeighborEvents(n, origin),
      if NeighborGone(n, origin) then [] else NeighborThings(NeighborRest(n, origin)))
  {
    hide Splits, Announced;
    var gone, t := NeighborGone(n, origin), OfNeighbor(n.neighbor);
    var first := DestinationsSplit(n.destinations, origin);
    SplitsOne(t, gone, NeighborTouched(n, origin));
    flags := first + [gone];
    var es := if gone then [Removed(t)] else if NeighborTouched(n, origin) then [Changed(t)] else [];
    var left := DestinationThings(Others(n.destinations, origin));
    SplitsConcat(DestinationThings(n.destinations), first, Removals(n.destinations, origin), left,
      [t], [gone], es, if gone then [] else [t]);
    assert gone ==> left + [] == [];
  }

  lemma {:induction false} NeighborsSplit(ns: seq<NeighborView>, origin: nat) returns (flags: seq<bool>)
    ensures Splits(NeighborsThings(ns), flags, NeighborsEvents(ns, origin), NeighborsThings(NeighborsRest(ns, origin)))
  {
    if ns == [] {
      flags := [];
    } else {
      hide Splits, Announced, NeighborGone, NeighborThings, NeighborEvents;
      var first := NeighborSplit(ns[0], origin);
      var rest := NeighborsSplit(ns[1..], origin);
      flags := first + rest;
      var left := if NeighborGone(ns[0], origin) then [] else NeighborThings(NeighborRest(ns[0], origin));
      SplitsConcat(NeighborThings(ns[0]), first, NeighborEvents(ns[0], origin), left,
        NeighborsThings(ns[1..]), rest, NeighborsEvents(ns[1..], origin), NeighborsThings(NeighborsRest(ns[1..], origin)));
      assert left + NeighborsThings(NeighborsRest(ns[1..], origin)) == NeighborsThings(NeighborsRest(ns, origin)) by {
        if !NeighborGone(ns[0], origin) {
          assert NeighborsRest(ns, origin)[1..] == NeighborsRest(ns[1..], origin);
        }
      }
    }
  }

  lemma NetworkSplit(x: NetworkView, origin: nat) returns (flags: seq<bool>)
    ensures Splits(NetworkThings(x), flags, NetworkEvents(x, origin),
      if NetworkGone(x, origin) then [] else NetworkThings(NetworkRest(x, origin)))
  {
    hide Splits, Announced;
    var gone, t := NetworkGone(x, origin), OfNetwork(x.network);
    var first := NeighborsSplit(x.neighbors, origin);
    SplitsOne(t, gone, NetworkTouched(x, origin));
    flags := first + [gone];
    var es := if gone then [Removed(t)] else if NetworkTouched(x, origin) then [Changed(t)] else [];
    var left := NeighborsThings(NeighborsRest(x.neighbors, origin));
    SplitsConcat(NeighborsThings(x.neighbors), first, NeighborsEvents(x.neighbors, origin), left,
      [t], [gone], es, if gone then [] else [t]);
    assert gone ==> left + [] == [];
  }

  // Everything in the database is either announced as removed, once and after its
  // children, or still there.
  lemma {:induction false} NetworksSplit(xs: seq<NetworkView>, origin: nat) returns (flags: seq<bool>)
    ensures Splits(Things(xs), flags, NetworksEvents(xs, origin), Things(NetworksRest(xs, origin)))
  {
    if xs == [] {
      flags := [];
    } else {
      hide Splits, Announced, NetworkGone, NetworkThings, NetworkEvents;
      var first := NetworkSplit(xs[0], origin);
      var rest := NetworksSplit(xs[1..], origin);
      flags := first + rest;
      var left := if NetworkGone(xs[0], origin) then [] else NetworkThings(NetworkRest(xs[0], origin));
      SplitsConcat(NetworkThings(xs[0]), first, NetworkEvents(xs[0], origin), left,
        Things(xs[1..]), rest, NetworksEvents(xs[1..], origin), Things(NetworksRest(xs[1..], origin)));
      assert left + Things(NetworksRest(xs[1..], origin)) == Things(NetworksRest(xs, origin)) by {
        if !NetworkGone(xs[0], origin) {
          assert NetworksRest(xs, origin)[1..] == NetworksRest(xs[1..], origin);
        }
      }
    }
  }

  lemma {:induction false} PickIn(ts: seq<Thing>, flags: seq<bool>, flag: bool, t: Thing)
    requires |ts| == |flags| && t in Pick(ts, flags, flag)
    ensures t in ts
  {
    if flags[0] != flag || t != ts[0] {
      PickIn(ts[1..], flags[1..], flag, t);
    }
  }

  // Without repetition in the whole there is none in the parts, nor between them.
  lemma {:induction false} PickOnce(ts: seq<Thing>, flags: seq<bool>)
    requires |ts| == |flags| && NoDup(ts)
    ensures NoDup(Pick(ts, flags, true)) && NoDup(Pick(ts, flags, false))
    ensures forall t :: t in Pick(ts, flags, true) ==> t !in Pick(ts, flags, false)
  {
    if ts != [] {
      var more := ts[1..];
      PickOnce(more, flags[1..]);
      assert forall i :: 0 <= i < |more| ==> more[i] != ts[0];
      if ts[0] in Pick(more, flags[1..], true) {
        PickIn(more, flags[1..], true, ts[0]);
      }
      if ts[0] in Pick(more, flags[1..], false) {
        PickIn(more, flags[1..], false, ts[0]);
      }
    }
  }

  // ----- when something goes -----

  // A network goes if and only if something in it changed, all its neighbors go, and it
  // knows nothing from anyone else.
  lemma NetworkGoneIff(x: NetworkView, origin: nat)
    ensures NetworkGone(x, origin) <==>
      && NetworkTouched(x, origin)
      && (forall i :: 0 <= i < |x.neighbors| ==> NeighborGone(x.neighbors[i], origin))
      && (forall i :: 0 <= i < |x.data| && x.data[i].hasValue ==> x.data[i].origin == origin)
      && (forall i :: 0 <= i < |x.neighborData| && x.neighborData[i].hasValue ==> x.neighborData[i].origin == origin)
  {
    WipedEmpty(x.data, origin);
    WipedEmpty(x.neighborData, origin);
    NeighborsGoneIff(x.neighbors, origin);
  }

  lemma NeighborGoneIff(n: NeighborView, origin: nat)
    ensures NeighborGone(n, origin) <==>
      && NeighborTouched(n, origin)
      && (forall i :: 0 <= i < |n.destinations| ==> n.destinations[i].origin == origin)
      && (forall i :: 0 <= i < |n.data| && n.data[i].hasValue ==> n.data[i].origin == origin)
  {
    WipedEmpty(n.data, origin);
    OthersEmpty(n.destinations, origin);
  }

  lemma WipedEmpty(data: seq<Slot>, origin: nat)
    ensures !HasValue(Wiped(data, origin)) <==>
      forall i :: 0 <= i < |data| && data[i].hasValue ==> data[i].origin == origin
  {
    var w := Wiped(data, origin);
    if i :| 0 <= i < |data| && data[i].hasValue && data[i].origin != origin {
      assert w[i].hasValue;
    }
  }

  lemma {:induction false} OthersEmpty(ds: seq<Destination>, origin: nat)
    ensures Others(ds, origin) == [] <==> forall i :: 0 <= i < |ds| ==> ds[i].origin == origin
  {
    if ds != [] {
      OthersEmpty(ds[1..], origin);
      assert forall i :: 0 < i < |ds| ==> ds[i] == ds[1..][i - 1];
    }
  }

  lemma {:induction false} NeighborsGoneIff(ns: seq<NeighborView>, origin: nat)
    ensures NeighborsRest(ns, origin) == [] <==> forall i :: 0 <= i < |ns| ==> NeighborGone(ns[i], origin)
  {
    if ns != [] {
      NeighborsGoneIff(ns[1..], origin);
      assert forall i :: 0 < i < |ns| ==> ns[i] == ns[1..][i - 1];
    }
  }

  // What goes is announced with everything below it, children first.
  lemma {:induction false} NeighborsGoneAnnounced(ns: seq<NeighborView>, origin: nat)
    requires forall i :: 0 <= i < |ns| ==> NeighborGone(ns[i], origin)
    ensures Announced(NeighborsEvents(ns, origin)) == NeighborsThings(ns)
  {
    if ns != [] {
      NeighborsGoneAnnounced(ns[1..], origin);
      NeighborGoneIff(ns[0], origin);
      AllRemovals(ns[0].destinations, origin);
      AnnouncedConcat(Removals(ns[0].destinations, origin), [Removed(OfNeighbor(ns[0].neighbor))]);
      AnnouncedConcat(NeighborEvents(ns[0], origin), NeighborsEvents(ns[1..], origin));
    }
  }

  lemma {:induction false} AllRemovals(ds: seq<Destination>, origin: nat)
    requires forall i :: 0 <= i < |ds| ==> ds[i].origin == origin
    ensures Announced(Removals(ds, origin)) == DestinationThings(ds)
  {
    if ds != [] {
      AllRemovals(ds[1..], origin);
      assert [ds[0]] + ds[1..] == ds;
      DestinationThingsCons(ds[0], ds[1..]);
    }
  }

  lemma NetworkGoneAnnounced(x: NetworkView, origin: nat)
    requires NetworkGone(x, origin)
    ensures Announced(NetworkEvents(x, origin)) == NetworkThings(x)
  {
    NetworkGoneIff(x, origin);
    NeighborsGoneAnnounced(x.neighbors, origin);
    AnnouncedConcat(NeighborsEvents(x.neighbors, origin), [Removed(OfNetwork(x.network))]);
  }

  // ----- a second cleanup -----

  lemma {:induction false} OthersAll(ds: seq<Destination>, origin: nat)
    requires !Sends(ds, origin)
    ensures Others(ds, origin) == ds && Removals(ds, origin) == []
  {
    if ds != [] {
      assert forall i :: 0 <= i < |ds| - 1 ==> ds[1..][i] == ds[i + 1];
      OthersAll(ds[1..], origin);
    }
  }

  lemma {:induction false} NeighborsQuiet(ns: seq<NeighborView>, origin: nat)
    requires !NeighborsTouched(ns, origin)
    ensures NeighborsRest(ns, origin) == ns && NeighborsEvents(ns, origin) == []
  {
    if ns != [] {
      assert forall i :: 0 <= i < |ns| - 1 ==> ns[1..][i] == ns[i + 1];
      NeighborsQuiet(ns[1..], origin);
      OthersAll(ns[0].destinations, origin);
      assert Wiped(ns[0].data, origin) == ns[0].data;
    }
  }

  lemma {:induction false} NetworksQuiet(xs: seq<NetworkView>, origin: nat)
    requires forall i :: 0 <= i < |xs| ==> !NetworkTouched(xs[i], origin)
    ensures NetworksRest(xs, origin) == xs && NetworksEvents(xs, origin) == []
  {
    if xs != [] {
      NetworksQuiet(xs[1..], origin);
      NeighborsQuiet(xs[0].neighbors, origin);
      assert Wiped(xs[0].data, origin) == xs[0].data && Wiped(xs[0].neighborData, origin) == xs[0].neighborData;
    }
  }

  // Cleaning up after a registered originator a second time changes and announces nothing.
  lemma CleanupTwice(xs: seq<NetworkView>, origin: nat)
    requires origin != 0
    ensures NetworksRest(NetworksRest(xs, origin), origin) == NetworksRest(xs, origin)
    ensures NetworksEvents(NetworksRest(xs, origin), origin) == []
  {
    Untouched(xs, origin);
    NetworksQuiet(NetworksRest(xs, origin), origin);
  }
}
