// src-plugins/subsystems/oonf_packet_socket.c: the backlog of packets that could not be sent
// at once.
module PacketSockets {
  import opened Autobufs
  import opened Words

  // A packet with the address it goes to.
  datatype Packet = Packet(remote: seq<Byte>, data: seq<Byte>)

  // What sendto returns, and whether errno then says to try again.
  datatype Outcome = Outcome(result: int, again: bool)

  // A packet that was handed to the operating system for good.
  datatype Handed = Handed(p: Packet, ok: bool)

  // The two bytes of a uint16_t in memory.
  function FromUint16(n: nat): (b: seq<Byte>)
    requires n < 0x1_0000
    ensures |b| == 2 && ToUint16(b) == n
  {
    [n % 256, n / 256]
  }

  function ToUint16(b: seq<Byte>): nat
    requires |b| == 2
  {
    var low: int, high: int := b[0], b[1];
    low + 256 * high
  }

  // What one send appends; the length is cut to 16 bits.
  function Frame(p: Packet): seq<Byte> {
    p.remote + FromUint16(|p.data| % 0x1_0000) + p.data
  }

  // What can be left of a frame when some of its three parts find no memory.
  function Parts(p: Packet): set<seq<Byte>> {
    set a, b, c | a in {p.remote, []} && b in {FromUint16(|p.data| % 0x1_0000), []} && c in {p.data, []} :: a + b + c
  }

  lemma PartOf(p: Packet, a: seq<Byte>, b: seq<Byte>, c: seq<Byte>)
    requires a in {p.remote, []} && b in {FromUint16(|p.data| % 0x1_0000), []} && c in {p.data, []}
    ensures a + b + c in Parts(p)
  {
    hide FromUint16;
  }

  lemma FrameIs(p: Packet)
    ensures Frame(p) == p.remote + FromUint16(|p.data| % 0x1_0000) + p.data
  {}

  lemma NoPart(p: Packet)
    ensures [] in Parts(p)
  {
    var none: seq<Byte> := [];
    assert none + none + none == none;
  }

  function Frames(ps: seq<Packet>): seq<Byte> {
    if ps == [] then [] else Frame(ps[0]) + Frames(ps[1..])
  }

  lemma {:induction false} FramesMore(ps: seq<Packet>, p: Packet)
    ensures Frames(ps + [p]) == Frames(ps) + Frame(p)
  {
    if ps == [] {
      assert Frames([p]) == Frame(p);
    } else {
      assert (ps + [p])[1..] == ps[1..] + [p];
      FramesMore(ps[1..], p);
    }
  }

  // The length of a packet fits into its 16 bits.
  predicate Fits(p: Packet) {
    |p.data| < 0x1_0000
  }

  // The first packet of a backlog and what follows it.
  function Unframe(b: seq<Byte>, addressSize: nat): (Packet, seq<Byte>)
    requires |b| >= addressSize + 2
    requires |b| >= addressSize + 2 + ToUint16(b[addressSize..addressSize + 2])
  {
    var length := ToUint16(b[addressSize..addressSize + 2]);
    (Packet(b[..addressSize], b[addressSize + 2..addressSize + 2 + length]), b[addressSize + 2 + length..])
  }

  lemma FrameFields(p: Packet, rest: seq<Byte>)
    ensures
      var b, n, cut := Frame(p) + rest, |p.remote|, |p.data| % 0x1_0000;
      && |b| == n + 2 + |p.data| + |rest| && cut <= |p.data|
      && b[..n] == p.remote && b[n..n + 2] == FromUint16(cut)
      && b[n + 2..n + 2 + cut] == p.data[..cut] && b[n + 2 + cut..] == p.data[cut..] + rest
  {}

  // Reading back what was appended.
  lemma UnframeFrame(p: Packet, rest: seq<Byte>)
    ensures
      var b, cut := Frame(p) + rest, |p.data| % 0x1_0000;
      && |b| >= |p.remote| + 2 && cut <= |p.data|
      && ToUint16(b[|p.remote|..|p.remote| + 2]) == cut
      && |b| >= |p.remote| + 2 + cut
      && Unframe(b, |p.remote|) == (Packet(p.remote, p.data[..cut]), p.data[cut..] + rest)
  {
    FrameFields(p, rest);
  }

  // The framing survives exactly the packets whose length fits into 16 bits.
  lemma FramingIff(p: Packet, rest: seq<Byte>)
    ensures
      var b := Frame(p) + rest;
      && |b| >= |p.remote| + 2 + |p.data| % 0x1_0000
      && ToUint16(b[|p.remote|..|p.remote| + 2]) == |p.data| % 0x1_0000
      && (Unframe(b, |p.remote|) == (p, rest) <==> |p.data| < 0x1_0000)
  {
    UnframeFrame(p, rest);
    var cut := |p.data| % 0x1_0000;
    if |p.data| < 0x1_0000 {
      assert p.data[..cut] == p.data && p.data[cut..] + rest == rest;
    } else {
      assert cut < |p.data|;
    }
  }

  lemma FramesEmpty(ps: seq<Packet>)
    ensures Frames(ps) == [] <==> ps == []
  {}

  // Where the first packet of a backlog lies.
  lemma FirstFrame(ps: seq<Packet>, b: seq<Byte>, n: nat)
    requires ps != [] && |ps[0].remote| == n && b == Frames(ps)
    ensures
      var cut := |ps[0].data| % 0x1_0000;
      && |b| >= n + 2 && ToUint16(b[n..n + 2]) == cut && |b| >= n + 2 + cut && cut <= |ps[0].data|
      && b[..n] == ps[0].remote && b[n + 2..n + 2 + cut] == ps[0].data[..cut]
      && b[n + 2 + cut..] == ps[0].data[cut..] + Frames(ps[1..])
  {
    FrameFields(ps[0], Frames(ps[1..]));
  }

  function Packets(hs: seq<Handed>): seq<Packet> {
    seq(|hs|, i requires 0 <= i < |hs| => hs[i].p)
  }

  lemma PacketsMore(hs: seq<Handed>, h: Handed)
    ensures Packets(hs + [h]) == Packets(hs) + [h.p]
  {}

  class PacketSocket {
    const addressSize: nat
    const out: Autobuf
    var writing: bool                  // write events are on
    ghost var pending: seq<Packet>
    ghost var accepted: seq<Packet>    // sends that returned 0
    ghost var handed: seq<Handed>

    ghost predicate Valid()
      reads this, out, out.buf
    {
      && out.Valid()
      && out.Contents() == Frames(pending)
      && (forall i :: 0 <= i < |pending| ==> |pending[i].remote| == addressSize)
      && accepted == Packets(handed) + pending
      && (writing <==> pending != [])
    }

    constructor (addressSize: nat, page: nat, reallocFails: nat -> bool)
      requires page > 0
      ensures Valid() && this.addressSize == addressSize && pending == accepted == [] && handed == []
      ensures fresh(out) && fresh(out.buf)
    {
      this.addressSize := addressSize;
      out := new Autobuf(page, reallocFails);
      writing, pending, accepted, handed := false, [], [], [];
    }

    // oonf_packet_send. os is what the operating system would answer. The results of the
    // appends are ignored: without memory a part of the frame is missing in the buffer.
    method Send(p: Packet, os: Outcome) returns (result: int)
      requires Valid() && |p.remote| == addressSize
      modifies this, out, out.buf
      ensures out.Valid() && (out.buf == old(out.buf) || fresh(out.buf))
      ensures result == if old(pending) == [] && os.result <= 0 && !os.again then -1 else 0
      ensures result == -1 ==> accepted == old(accepted) && handed == old(handed) && pending == old(pending)
      ensures result == 0 ==> accepted == old(accepted) + [p]
      ensures result == 0 && old(pending) == [] && os.result > 0 ==>
        handed == old(handed) + [Handed(p, true)] && pending == []
      ensures old(pending) != [] || (os.result <= 0 && os.again) ==>
        handed == old(handed) && pending == old(pending) + [p] && writing
      ensures exists part :: part in Parts(p) && out.Contents() == Frames(old(pending)) + part
      ensures Valid() <==> out.NoFailure(old(out.calls))
    {
      hide Parts, Frame;
      FramesEmpty(pending);
      NoPart(p);
      assert out.Contents() == Frames(pending) + [];
      if out.len == 0 {
        if os.result > 0 {
          accepted, handed := accepted + [p], handed + [Handed(p, true)];
          PacketsMore(old(handed), Handed(p, true));
          assert pending == [];
          return 0;
        }
        if !os.again {
          return -1;
        }
      }
      FramesMore(pending, p);
      ghost var part := AppendFrame(p);
      writing := true;
      pending, accepted := pending + [p], accepted + [p];
      assert accepted == Packets(handed) + pending;
      return 0;
    }

    // The three appends of a send.
    method AppendFrame(p: Packet) returns (ghost part: seq<Byte>)
      requires out.Valid()
      modifies out, out.buf
      ensures out.Valid() && (out.buf == old(out.buf) || fresh(out.buf))
      ensures part in Parts(p) && out.Contents() == old(out.Contents()) + part
      ensures if out.NoFailure(old(out.calls)) then part == Frame(p) else |part| < |Frame(p)|
    {
      hide FromUint16, Parts, Frame;
      ghost var c := out.Contents();
      ghost var r1 := AppendPart(p.remote);
      ghost var r2 := AppendPart(FromUint16(|p.data| % 0x1_0000));
      ghost var r3 := AppendPart(p.data);
      part := r1 + r2 + r3;
      PartOf(p, r1, r2, r3);
      FrameIs(p);
      Joined(c, r1, r2, r3);
    }

    // One of them; its result is ignored.
    method AppendPart(bytes: seq<Byte>) returns (ghost part: seq<Byte>)
      requires out.Valid()
      modifies out, out.buf
      ensures out.Valid() && (out.buf == old(out.buf) || fresh(out.buf))
      ensures part in {bytes, []} && out.Contents() == old(out.Contents()) + part
      ensures out.calls >= old(out.calls) && (out.NoFailure(old(out.calls)) <==> part == bytes)
    {
      var r := out.Append(bytes);
      part := if r == 0 then bytes else [];
    }

    lemma Joined(a: seq<Byte>, b: seq<Byte>, c: seq<Byte>, d: seq<Byte>)
      ensures a + b + c + d == a + (b + c + d)
    {}

    // What the front of the buffer is read as.
    method FirstPacket() returns (sock: seq<Byte>, length: nat, pkt: seq<Byte>)
      requires Valid() && pending != []
      ensures sock == pending[0].remote && length == |pending[0].data| % 0x1_0000 && length <= |pending[0].data|
      ensures pkt == pending[0].data[..length] && addressSize + 2 + length <= out.len
      ensures out.Contents()[addressSize + 2 + length..] == pending[0].data[length..] + Frames(pending[1..])
    {
      hide Frames;
      FirstFrame(pending, out.Contents(), addressSize);
      var bytes := out.buf[..out.len];
      sock := bytes[..addressSize];
      length := ToUint16(bytes[addressSize..addressSize + 2]);
      pkt := bytes[addressSize + 2..addressSize + 2 + length];
    }

    // The write half of _cb_packet_event. readGivesUp stands for the early return of the
    // other half, isWrite for a socket that can be written. A packet whose length does not
    // fit is cut, and the rest of it is left in the buffer in front of the others.
    method Event(isWrite: bool, readGivesUp: bool, os: Outcome)
      requires Valid()
      modifies this, out, out.buf
      ensures out.buf == old(out.buf) || fresh(out.buf)
      ensures accepted == old(accepted)
      ensures
        if !readGivesUp && isWrite && old(pending) != [] && !(os.result < 0 && os.again) then
          var p, cut := old(pending)[0], |old(pending)[0].data| % 0x1_0000;
          && pending == old(pending)[1..] && out.Valid() && cut <= |p.data|
          && handed == old(handed) + [Handed(Packet(p.remote, p.data[..cut]), os.result >= 0)]
          && out.Contents() == p.data[cut..] + Frames(pending)
          && (Fits(p) ==> Valid() && p.data[..cut] == p.data)
        else
          Valid() && pending == old(pending) && handed == old(handed)
    {
      hide Frames, Packets;
      if readGivesUp {
        return;
      }
      FramesEmpty(pending);
      if isWrite && out.len > 0 {
        var sock, length, pkt := FirstPacket();
        if os.result < 0 && os.again {
          return;
        }
        Consume(sock, length, pkt, os.result >= 0);
      }
      if out.len == 0 {
        writing := false;
      }
    }

    // The packet is gone, for good or with a final error.
    method Consume(sock: seq<Byte>, length: nat, pkt: seq<Byte>, ghost ok: bool)
      requires Valid() && pending != [] && sock == pending[0].remote
      requires length == |pending[0].data| % 0x1_0000 && length <= |pending[0].data|
      requires pkt == pending[0].data[..length] && addressSize + 2 + length <= out.len
      requires out.Contents()[addressSize + 2 + length..] == pending[0].data[length..] + Frames(pending[1..])
      modifies `pending, `handed, out, out.buf
      ensures out.Valid() && (out.buf == old(out.buf) || fresh(out.buf))
      ensures pending == old(pending)[1..] && handed == old(handed) + [Handed(Packet(sock, pkt), ok)]
      ensures out.Contents() == old(pending)[0].data[length..] + Frames(pending)
      ensures Fits(old(pending)[0]) ==>
        && out.Contents() == Frames(pending) && accepted == Packets(handed) + pending && pkt == old(pending)[0].data
        && (out.len == 0 <==> pending == [])
    {
      hide Frames;
      PacketsMore(handed, Handed(Packet(sock, pkt), ok));
      FramesEmpty(pending[1..]);
      ghost var data, rest := pending[0].data, Frames(pending[1..]);
      assert length == |data| ==> data[length..] + rest == rest && data[..length] == data;
      out.Pull(addressSize + 2 + length);
      handed := handed + [Handed(Packet(sock, pkt), ok)];
      pending := pending[1..];
    }
  }
}
