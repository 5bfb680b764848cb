// src-api/common/netaddr.c: addresses and the prefixes they belong to.
module Netaddrs {
  import opened Words

  datatype Family = Unspec | Inet | Inet6 | Mac48 | Eui64

  // netaddr_get_af_maxprefix
  function MaxPrefix(f: Family): (n: nat)
    ensures n <= 128 && n % 8 == 0
  {
    match f case Inet => 32 case Inet6 => 128 case Mac48 => 48 case Eui64 => 64 case Unspec => 0
  }

  class Netaddr {
    const addr: array<Byte>
    var family: Family
    var prefixLen: nat

    constructor (bytes: seq<Byte>, family: Family, prefixLen: nat)
      requires |bytes| == 16
      ensures addr.Length == 16 && fresh(addr) && addr[..] == bytes
      ensures this.family == family && this.prefixLen == prefixLen
    {
      var a := new Byte[16](i requires 0 <= i < 16 => bytes[i]);
      addr, this.family, this.prefixLen := a, family, prefixLen;
    }
  }

  // ----- bytes as one number, the first byte on top -----

  function Value(b: seq<Byte>): nat {
    if b == [] then 0 else Value(b[..|b| - 1]) * 256 + b[|b| - 1]
  }

  lemma BytePowers(n: nat)
    ensures Pow2(8) == 256 && Pow2(8 * (n + 1)) == Pow2(8 * n) * 256
  {
    PowAdd(8 * n, 8);
  }

  lemma {:induction false} ValueBound(b: seq<Byte>)
    ensures Value(b) < Pow2(8 * |b|)
  {
    if b != [] {
      ValueBound(b[..|b| - 1]);
      BytePowers(|b| - 1);
    }
  }

  lemma {:induction false} ValueConcat(a: seq<Byte>, b: seq<Byte>)
    ensures Value(a + b) == Value(a) * Pow2(8 * |b|) + Value(b)
  {
    if b == [] {
      assert a + b == a;
    } else {
      var c := b[..|b| - 1];
      assert (a + b)[..|a + b| - 1] == a + c;
      ValueConcat(a, c);
      BytePowers(|c|);
      Associate(Value(a), Pow2(8 * |c|), 256);
    }
  }

  lemma {:induction false} ValueInjective(a: seq<Byte>, b: seq<Byte>)
    requires |a| == |b| && Value(a) == Value(b)
    ensures a == b
  {
    if a != [] {
      var n := |a| - 1;
      assert a[n] == b[n] && Value(a[..n]) == Value(b[..n]);
      ValueInjective(a[..n], b[..n]);
      assert a == a[..n] + [a[n]] && b == b[..n] + [b[n]];
    }
  }

  lemma {:induction false} ValueZeros(b: seq<Byte>)
    requires forall i :: 0 <= i < |b| ==> b[i] == 0
    ensures Value(b) == 0
  {
    if b != [] {
      ValueZeros(b[..|b| - 1]);
    }
  }

  // The number in n bytes.
  function Bytes(v: nat, n: nat): (b: seq<Byte>)
    ensures |b| == n
  {
    if n == 0 then [] else Bytes(v / 256, n - 1) + [v % 256]
  }

  lemma {:induction false} ValueBytes(v: nat, n: nat)
    requires v < Pow2(8 * n)
    ensures Value(Bytes(v, n)) == v
  {
    if n > 0 {
      BytePowers(n - 1);
      ValueBytes(v / 256, n - 1);
      assert Bytes(v, n)[..n - 1] == Bytes(v / 256, n - 1);
    }
  }

  // ----- the first p bits -----

  function Network(b: seq<Byte>, p: nat): nat
    requires p <= 8 * |b|
  {
    DivNat(Value(b), Pow2(8 * |b| - p));
    Value(b) / Pow2(8 * |b| - p)
  }

  lemma NetworkWhole(b: seq<Byte>, k: nat)
    requires k <= |b|
    ensures Network(b, 8 * k) == Value(b[..k])
  {
    hide Value, Pow2;
    assert b == b[..k] + b[k..];
    ValueConcat(b[..k], b[k..]);
    ValueBound(b[k..]);
    assert 8 * |b| - 8 * k == 8 * |b[k..]|;
    ModUnique(Value(b), Pow2(8 * (|b| - k)), Value(b[..k]), Value(b[k..]));
  }

  lemma NetworkShorter(b: seq<Byte>, p: nat, q: nat)
    requires p <= q <= 8 * |b|
    ensures Network(b, p) == Network(b, q) / Pow2(q - p)
  {
    PowAdd(8 * |b| - q, q - p);
    Divided(Value(b), Pow2(8 * |b| - q), Pow2(q - p));
  }

  lemma SplitByte(v: nat, x: Byte, r: nat)
    requires 0 < r < 8
    ensures (v * 256 + x) / Pow2(8 - r) == v * Pow2(r) + x / Pow2(8 - r)
    ensures x / Pow2(8 - r) < Pow2(r)
  {
    hide Pow2;
    PowAdd(r, 8 - r);
    BytePowers(0);
    var s := Pow2(8 - r);
    DivMod(x, s);
    DivNat(x, s);
    SplitInts(v, x / s, x % s, s, Pow2(r));
  }

  lemma SplitInts(v: nat, q: nat, low: nat, s: nat, u: nat)
    requires low < s && u * s == 256
    ensures (v * 256 + (s * q + low)) / s == v * u + q
    ensures s * q + low < 256 ==> q < u
  {
    Associate(v, u, s);
    Distribute(s, v * u, q);
    ModUnique(v * 256 + (s * q + low), s, v * u + q, low);
    if q >= u {
      MulMonotone(s, u, q);
    }
  }

  lemma NetworkPart(b: seq<Byte>, k: nat, r: nat)
    requires k < |b| && 0 < r < 8
    ensures Network(b, 8 * k + r) == Value(b[..k]) * Pow2(r) + b[k] / Pow2(8 - r)
  {
    NetworkShorter(b, 8 * k + r, 8 * (k + 1));
    NetworkWhole(b, k + 1);
    assert b[..k + 1][..k] == b[..k];
    SplitByte(Value(b[..k]), b[k], r);
  }

  // _binary_is_in_subnet
  method BinaryIsInSubnet(subnet: Netaddr, bin: seq<Byte>) returns (inside: bool)
    requires subnet.addr.Length == |bin| == 16 && subnet.prefixLen <= 128
    ensures inside <==> Network(subnet.addr[..], subnet.prefixLen) == Network(bin, subnet.prefixLen)
  {
    hide Network, Value;
    var byteLength, bitLength := subnet.prefixLen / 8, subnet.prefixLen % 8;
    NetworkWhole(subnet.addr[..], byteLength);
    NetworkWhole(bin, byteLength);
    var same := subnet.addr[..byteLength] == bin[..byteLength];
    assert subnet.addr[..][..byteLength] == subnet.addr[..byteLength];
    if !same {
      SameFront(subnet.addr[..], bin, byteLength, bitLength);
      return false;
    }
    if bitLength != 0 {
      NetworkPart(subnet.addr[..], byteLength, bitLength);
      NetworkPart(bin, byteLength, bitLength);
      return subnet.addr[byteLength] / Pow2(8 - bitLength) == bin[byteLength] / Pow2(8 - bitLength);
    }
    return true;
  }

  lemma SameFront(a: seq<Byte>, b: seq<Byte>, k: nat, r: nat)
    requires |a| == |b| && 8 * k + r <= 8 * |a| && r < 8
    requires a[..k] != b[..k]
    ensures Network(a, 8 * k + r) != Network(b, 8 * k + r)
  {
    NetworkShorter(a, 8 * k, 8 * k + r);
    NetworkShorter(b, 8 * k, 8 * k + r);
    NetworkWhole(a, k);
    NetworkWhole(b, k);
    if Network(a, 8 * k + r) == Network(b, 8 * k + r) {
      ValueInjective(a[..k], b[..k]);
    }
  }

  // netaddr_is_in_subnet
  method IsInSubnet(subnet: Netaddr, addr: Netaddr) returns (inside: bool)
    requires subnet.addr.Length == addr.addr.Length == 16 && subnet.prefixLen <= 128
    ensures inside <==>
      && subnet.family == addr.family
      && Network(subnet.addr[..], subnet.prefixLen) == Network(addr.addr[..], subnet.prefixLen)
  {
    if subnet.family != addr.family {
      return false;
    }
    inside := BinaryIsInSubnet(subnet, addr.addr[..]);
  }

  // The address without the bits behind the first p.
  function Truncated(b: seq<Byte>, p: nat): (t: seq<Byte>)
    requires p <= 8 * |b|
    ensures |t| == |b|
  {
    Bytes(Network(b, p) * Pow2(8 * |b| - p), |b|)
  }

  lemma TruncatedValue(b: seq<Byte>, p: nat)
    requires p <= 8 * |b|
    ensures Value(Truncated(b, p)) == Network(b, p) * Pow2(8 * |b| - p)
    ensures Network(Truncated(b, p), p) == Network(b, p)
  {
    hide Value, Bytes;
    var s := Pow2(8 * |b| - p);
    ValueBound(b);
    DivMod(Value(b), s);
    ValueBytes(Network(b, p) * s, |b|);
    ModUnique(Network(b, p) * s, s, Network(b, p), 0);
  }

  lemma TruncatedIs(b: seq<Byte>, p: nat, t: seq<Byte>)
    requires p <= 8 * |b| && |t| == |b| && Value(t) == Network(b, p) * Pow2(8 * |b| - p)
    ensures t == Truncated(b, p)
  {
    TruncatedValue(b, p);
    ValueInjective(t, Truncated(b, p));
  }

  // netaddr_truncate, in place or from another object
  method Truncate(dst: Netaddr, src: Netaddr)
    requires dst.addr.Length == src.addr.Length == 16 && src.prefixLen <= 128
    requires dst == src || dst.addr != src.addr
    modifies dst, dst.addr
    ensures dst.addr[..] == Truncated(old(src.addr[..]), old(src.prefixLen))
    ensures dst.family == old(src.family) && dst.prefixLen == old(src.prefixLen)
  {
    hide Truncated;
    ghost var b := src.addr[..];
    var bytePrefix, bitPrefix := src.prefixLen / 8, src.prefixLen % 8;
    ghost var k := bytePrefix;
    if src != dst {
      dst.prefixLen := src.prefixLen;
      dst.family := src.family;
      forall i | 0 <= i < bytePrefix {
        dst.addr[i] := src.addr[i];
      }
    }
    assert dst.addr[..k] == b[..k];
    if bitPrefix != 0 {
      // & MASK[bitPrefix]
      dst.addr[bytePrefix] := High(src.addr[bytePrefix], bitPrefix);
      bytePrefix := bytePrefix + 1;
    }
    assert dst.addr[..k] == b[..k];
    if bytePrefix < 16 {
      forall i | bytePrefix <= i < 16 {
        dst.addr[i] := 0;
      }
    }
    assert dst.addr[..k] == b[..k];
    TruncatedParts(b, k, bitPrefix, dst.addr[..]);
  }

  // The first r bits of a byte.
  function High(x: Byte, r: nat): Byte
    requires r <= 8
  {
    HighBound(x, Pow2(8 - r));
    x / Pow2(8 - r) * Pow2(8 - r)
  }

  lemma HighBound(x: nat, s: nat)
    requires s > 0
    ensures 0 <= x / s * s <= x
  {
    DivMod(x, s);
    DivNat(x, s);
  }

  lemma TruncatedParts(b: seq<Byte>, k: nat, r: nat, t: seq<Byte>)
    requires |b| == |t| && 8 * k + r <= 8 * |b| && r < 8
    requires t[..k] == b[..k] && (r > 0 ==> t[k] == High(b[k], r))
    requires forall i :: (if r > 0 then k + 1 else k) <= i < |t| ==> t[i] == 0
    ensures t == Truncated(b, 8 * k + r)
  {
    hide Truncated, Network, Value, High;
    var n := |b|;
    if r == 0 {
      assert t == t[..k] + t[k..];
      ValueConcat(t[..k], t[k..]);
      ValueZeros(t[k..]);
      NetworkWhole(b, k);
    } else {
      assert t == t[..k + 1] + t[k + 1..] && t[..k + 1] == t[..k] + [t[k]];
      ValueConcat(t[..k + 1], t[k + 1..]);
      ValueZeros(t[k + 1..]);
      ValueConcat(t[..k], [t[k]]);
      ValueOne(t[k]);
      NetworkPart(b, k, r);
      PartValue(Value(b[..k]), b[k], r, n - k - 1);
    }
    TruncatedIs(b, 8 * k + r, t);
  }

  lemma ValueOne(x: Byte)
    ensures Value([x]) == x
  {
    assert [x][..0] == [];
  }

  lemma PartValue(v: nat, x: Byte, r: nat, m: nat)
    requires 0 < r < 8
    ensures (v * Pow2(8) + High(x, r)) * Pow2(8 * m) == (v * Pow2(r) + x / Pow2(8 - r)) * Pow2(8 * (m + 1) - r)
  {
    hide Pow2;
    PowAdd(r, 8 - r);
    PowAdd(8 - r, 8 * m);
    BytePowers(0);
    PartInts(v, x / Pow2(8 - r), Pow2(8 - r), Pow2(r), Pow2(8 * m));
  }

  lemma PartInts(v: int, y: int, s: int, u: int, w: int)
    requires u * s == 256
    ensures (v * 256 + y * s) * w == (v * u + y) * (s * w)
  {
    Associate(v, u, s);
    Distribute(s, v * u, y);
    Associate(v * u + y, s, w);
  }

  // ----- the algebra of prefixes -----

  // An address is in a subnet if and only if both truncate to the same bytes.
  lemma InSubnetIff(s: seq<Byte>, a: seq<Byte>, p: nat)
    requires |s| == |a| && p <= 8 * |s|
    ensures Network(s, p) == Network(a, p) <==> Truncated(s, p) == Truncated(a, p)
  {
    TruncatedValue(s, p);
    TruncatedValue(a, p);
  }

  // Truncating twice is truncating to the shorter length.
  lemma TruncatedTwice(b: seq<Byte>, p: nat, q: nat)
    requires p <= 8 * |b| && q <= 8 * |b|
    ensures Truncated(Truncated(b, q), p) == Truncated(b, if p <= q then p else q)
  {
    hide Truncated, Network, Value, Pow2;
    var t := Truncated(b, q);
    TruncatedValue(b, q);
    TruncatedValue(t, p);
    if p <= q {
      NetworkShorter(b, p, q);
      NetworkShorter(t, p, q);
      TruncatedValue(b, p);
      TruncatedIs(b, p, Truncated(t, p));
    } else {
      // nothing more to cut
      NetworkShorter(t, q, p);
      Exact(t, q, p);
      TruncatedIs(b, q, Truncated(t, p));
    }
  }

  // A value with zeros behind the first q bits has them behind the first p too.
  lemma Exact(t: seq<Byte>, q: nat, p: nat)
    requires q <= p <= 8 * |t| && Value(t) == Network(t, q) * Pow2(8 * |t| - q)
    ensures Network(t, p) * Pow2(8 * |t| - p) == Value(t)
  {
    hide Pow2, Value;
    var s, u := Pow2(8 * |t| - p), Pow2(p - q);
    PowAdd(8 * |t| - p, p - q);
    var n := Network(t, q);
    Associate(n, u, s);
    assert Value(t) == s * (n * u);
    ModUnique(Value(t), s, n * u, 0);
  }

  // The addresses of two prefixes: the longer one's are all in the shorter one, or none is.
  lemma NestedOrDisjoint(s: seq<Byte>, p: nat, t: seq<Byte>, q: nat, a: seq<Byte>)
    requires |s| == |t| == |a| && p <= q <= 8 * |s|
    requires Network(t, q) == Network(a, q)
    ensures Network(s, p) == Network(a, p) <==> Network(s, p) == Network(t, p)
  {
    NetworkShorter(a, p, q);
    NetworkShorter(t, p, q);
  }

  // ----- bit by bit -----

  // Bit i of an address, counted from the front.
  predicate BitAt(b: seq<Byte>, i: nat)
    requires i < 8 * |b|
  {
    Bit(b[i / 8], 7 - i % 8)
  }

  lemma {:induction false} ValueBits(b: seq<Byte>, i: nat)
    requires i < 8 * |b|
    ensures BitAt(b, i) <==> Bit(Value(b), 8 * |b| - 1 - i)
  {
    hide Pow2, Bit;
    var n := |b| - 1;
    var v, x, j := Value(b[..n]), b[n], 8 * |b| - 1 - i;
    BytePowers(0);
    ModUnique(Value(b), 256, v, x);
    if i < 8 * n {
      ValueBits(b[..n], i);
      BitDiv(Value(b), 8, v, j - 8);
    } else {
      BitMod(Value(b), 8, j);
    }
  }

  lemma NetworkBits(b: seq<Byte>, p: nat, i: nat)
    requires i < p <= 8 * |b|
    ensures BitAt(b, i) <==> Bit(Network(b, p), p - 1 - i)
  {
    hide Value, BitAt, Bit, Pow2;
    ValueBits(b, i);
    BitDiv(Value(b), 8 * |b| - p, Network(b, p), p - 1 - i);
  }

  lemma NetworkBound(b: seq<Byte>, p: nat)
    requires p <= 8 * |b|
    ensures Network(b, p) < Pow2(p)
  {
    hide Value, Pow2;
    var s := Pow2(8 * |b| - p);
    ValueBound(b);
    PowAdd(8 * |b| - p, p);
    DivMod(Value(b), s);
    if Network(b, p) >= Pow2(p) {
      MulMonotone(s, Pow2(p), Network(b, p));
    }
  }

  // The first p bits are one number if and only if they agree one by one.
  lemma SubnetBits(s: seq<Byte>, a: seq<Byte>, p: nat)
    requires |s| == |a| && p <= 8 * |s|
    ensures Network(s, p) == Network(a, p) <==> forall i :: 0 <= i < p ==> (BitAt(s, i) <==> BitAt(a, i))
  {
    hide Network, BitAt, Bit, Pow2;
    forall i | 0 <= i < p
      ensures (BitAt(s, i) <==> Bit(Network(s, p), p - 1 - i)) && (BitAt(a, i) <==> Bit(Network(a, p), p - 1 - i))
    {
      NetworkBits(s, p, i);
      NetworkBits(a, p, i);
    }
    if forall i :: 0 <= i < p ==> (BitAt(s, i) <==> BitAt(a, i)) {
      NetworkBound(s, p);
      NetworkBound(a, p);
      forall j | 0 <= j < p
        ensures Bit(Network(s, p), j) <==> Bit(Network(a, p), j)
      {
        assert BitAt(s, p - 1 - j) <==> BitAt(a, p - 1 - j);
      }
      SameBits(Network(s, p), Network(a, p), p);
    }
  }

  // A truncated address has the first p bits of the address, and no other bit set.
  lemma TruncatedBits(b: seq<Byte>, p: nat, i: nat)
    requires p <= 8 * |b| && i < 8 * |b|
    ensures BitAt(Truncated(b, p), i) <==> i < p && BitAt(b, i)
  {
    hide Network, BitAt, Bit, Pow2, Truncated, Value;
    TruncatedValue(b, p);
    ValueBits(Truncated(b, p), i);
    BitScaled(Network(b, p), 8 * |b| - p, 8 * |b| - 1 - i);
    if i < p {
      NetworkBits(b, p, i);
    }
  }

  // ----- hosts -----

  // The last m bits of an address replaced by those of a number.
  ghost predicate WithHost(h: seq<Byte>, mask: seq<Byte>, m: nat, number: nat) {
    |h| == |mask| && Value(h) == Value(mask) / Pow2(m) * Pow2(m) + number % Pow2(m)
  }

  // The host lies in its netmask and ends like the number.
  lemma HostInside(h: seq<Byte>, mask: seq<Byte>, m: nat, number: nat, p: nat)
    requires p + m <= 8 * |mask| && WithHost(h, mask, m, number)
    ensures Network(h, p) == Network(mask, p) && Value(h) % Pow2(m) == number % Pow2(m)
  {
    hide Value, Pow2;
    var s, q, low := Pow2(m), Value(mask) / Pow2(m), number % Pow2(m);
    DivNat(Value(mask), s);
    DivMod(number, s);
    ModUnique(Value(h), s, q, low);
    var top := 8 * |mask| - m;
    NetworkShorter(h, p, top);
    NetworkShorter(mask, p, top);
  }

  // Bit by bit: the last m bits are the number's last ones, the others are the netmask's.
  lemma HostBit(h: seq<Byte>, mask: seq<Byte>, m: nat, number: seq<Byte>, i: nat)
    requires m <= 8 * |number| && m <= 8 * |mask| && i < 8 * |mask| && WithHost(h, mask, m, Value(number))
    ensures
      var j := 8 * |mask| - i;
      BitAt(h, i) <==> if j > m then BitAt(mask, i) else BitAt(number, 8 * |number| - j)
  {
    hide Network, BitAt, Bit, Pow2, Value;
    var j, p := 8 * |mask| - 1 - i, 8 * |mask| - m;
    HostInside(h, mask, m, Value(number), p);
    if j >= m {
      NetworkBits(h, p, i);
      NetworkBits(mask, p, i);
    } else {
      ValueBits(h, i);
      ValueBits(number, 8 * |number| - 1 - j);
      BitMod(Value(h), m, j);
      BitMod(Value(number), m, j);
    }
  }

  // How many bits of the number there is room for.
  function HostBits(max: nat, p: nat, number: seq<Byte>): nat
    requires p <= max
  {
    if 8 * |number| < max - p then 8 * |number| else max - p
  }

  // An address whose first p bits are the netmask's, and behind them the last bits of a number
  // up to the end of n bytes; where the number is too short for that, the netmask's go on.
  ghost predicate Hosted(h: seq<Byte>, mask: seq<Byte>, n: nat, p: nat, number: seq<Byte>) {
    && n <= |h| == |mask| && h[n..] == mask[n..]
    && forall i :: 0 <= i < 8 * n ==> (BitAt(h, i) <==>
      if i < p || 8 * n - i > 8 * |number| then BitAt(mask, i) else BitAt(number, 8 * |number| - (8 * n - i)))
  }

  // The host address of each family, bit by bit.
  ghost predicate HostOf(f: Family, length: nat, h: seq<Byte>, mask: seq<Byte>, p: nat, number: seq<Byte>) {
    match f
    case Inet => length == 32 && Hosted(h, mask, 4, p, number)
    case Inet6 => length == 128 && Hosted(h, mask, 16, p, number)
    case Mac48 => length == 48 && Hosted(h, mask, 6, p, number)
    case Eui64 => length == 64 && Hosted(h, mask, 8, p, number)
    case Unspec => false
  }

  lemma HostOfIs(f: Family, h: seq<Byte>, mask: seq<Byte>, p: nat, number: seq<Byte>)
    requires |h| == |mask| == 16 && f != Unspec && p <= MaxPrefix(f)
    requires
      var n := MaxPrefix(f) / 8;
      h[n..] == mask[n..] && WithHost(h[..n], mask[..n], HostBits(MaxPrefix(f), p, number), Value(number))
    ensures HostOf(f, MaxPrefix(f), h, mask, p, number)
  {
    hide WithHost, Value, BitAt;
    var n := MaxPrefix(f) / 8;
    forall i | 0 <= i < 8 * n
      ensures BitAt(h, i) <==>
        if i < p || 8 * n - i > 8 * |number| then BitAt(mask, i) else BitAt(number, 8 * |number| - (8 * n - i))
    {
      HostBit(h[..n], mask[..n], HostBits(8 * n, p, number), number, i);
      BitFront(h, n, i);
      BitFront(mask, n, i);
    }
    assert Hosted(h, mask, n, p, number);
  }

  lemma BitFront(b: seq<Byte>, n: nat, i: nat)
    requires n <= |b| && i < 8 * n
    ensures BitAt(b[..n], i) <==> BitAt(b, i)
  {}

  // netaddr_create_host_bin
  method CreateHost(host: Netaddr, netmask: Netaddr, number: seq<Byte>) returns (result: int)
    requires host.addr.Length == netmask.addr.Length == 16 && host.addr != netmask.addr && host != netmask
    requires netmask.prefixLen <= MaxPrefix(netmask.family) || MaxPrefix(netmask.family) == 0
    modifies host, host.addr
    ensures result == if netmask.family == Unspec then -1 else 0
    ensures host.family == netmask.family && host.prefixLen == MaxPrefix(netmask.family)
    ensures result == 0 ==>
      && host.addr[..][host.prefixLen / 8..] == netmask.addr[..][host.prefixLen / 8..]
      && WithHost(host.addr[..][..host.prefixLen / 8], netmask.addr[..][..host.prefixLen / 8],
        HostBits(host.prefixLen, netmask.prefixLen, number), Value(number))
    ensures result == 0 ==>
      HostOf(netmask.family, host.prefixLen, host.addr[..], netmask.addr[..], netmask.prefixLen, number)
  {
    hide WithHost, Value, HostOf;
    ghost var mask := netmask.addr[..];
    forall i | 0 <= i < 16 {
      host.addr[i] := netmask.addr[i];
    }
    host.family := netmask.family;
    host.prefixLen := MaxPrefix(host.family);
    if host.prefixLen == 0 {
      return -1;
    }
    result := 0;
    ghost var n := host.prefixLen / 8;
    assert host.addr[..] == mask && netmask.addr[..] == mask;
    if host.prefixLen == netmask.prefixLen || |number| == 0 {
      NoHost(mask[..n], Value(number));
    } else {
      CopyNumber(host.addr, host.prefixLen, netmask.prefixLen, number);
    }
    assert netmask.addr[..] == mask;
    HostOfIs(netmask.family, host.addr[..], mask, netmask.prefixLen, number);
  }

  // The number behind the first p bits, up to the last of max bits.
  method CopyNumber(addr: array<Byte>, max: nat, p: nat, number: seq<Byte>)
    requires addr.Length == 16 && max <= 128 && max % 8 == 0 && p < max && number != []
    modifies addr
    ensures addr[..][max / 8..] == old(addr[..])[max / 8..]
    ensures WithHost(addr[..][..max / 8], old(addr[..])[..max / 8], HostBits(max, p, number), Value(number))
  {
    hide WithHost, Value, Spliced;
    ghost var mask := addr[..];
    ghost var n := max / 8;
    var hostPartLength := (max - p + 7) / 8;
    var hostIndex, numberIndex;
    if hostPartLength > |number| {
      hostIndex := max / 8 - |number|;
      numberIndex := 0;
    } else {
      hostIndex := p / 8;
      numberIndex := |number| - hostPartLength;
      var bits := p % 8;
      if bits != 0 {
        // & ~mask for the netmask, & mask for the number
        addr[hostIndex] := Spliced(addr[hostIndex], number[numberIndex], bits);
        numberIndex := numberIndex + 1;
        hostIndex := hostIndex + 1;
      }
    }
    ghost var front := addr[..hostIndex];
    forall i | 0 <= i < |number| - numberIndex {
      addr[hostIndex + i] := number[numberIndex + i];
    }
    assert addr[..][..n] == front + number[numberIndex..];
    Placed(mask[..n], p, number, front, numberIndex);
  }

  // A byte that begins like x and ends like y.
  function Spliced(x: Byte, y: Byte, r: nat): Byte
    requires 0 < r < 8
  {
    SplicedFits(x, y, r);
    High(x, r) + y % Pow2(8 - r)
  }

  lemma SplicedFits(x: Byte, y: Byte, r: nat)
    requires 0 < r < 8
    ensures 0 <= High(x, r) + y % Pow2(8 - r) < 256
  {
    hide Pow2;
    SplitByte(0, x, r);
    DivMod(y, Pow2(8 - r));
    PowAdd(r, 8 - r);
    BytePowers(0);
    DivNat(x, Pow2(8 - r));
    SplicedBound(x / Pow2(8 - r), y % Pow2(8 - r), Pow2(8 - r), Pow2(r));
  }

  lemma SplicedBound(q: nat, low: nat, s: nat, u: nat)
    requires q < u && low < s && u * s == 256
    ensures 0 <= q * s + low < 256
  {
    MulMonotone(s, q + 1, u);
    Distribute(s, q, 1);
  }

  lemma NoHost(mask: seq<Byte>, number: nat)
    ensures WithHost(mask, mask, 0, number)
  {
    assert Pow2(0) == 1;
  }

  // The bytes that CreateHost puts together: front, up to the place where whole bytes of the
  // number begin, and the rest of the number.
  lemma Placed(mask: seq<Byte>, p: nat, number: seq<Byte>, front: seq<Byte>, at: nat)
    requires number != [] && p < 8 * |mask|
    requires
      var hostBytes, k, r := (8 * |mask| - p + 7) / 8, p / 8, p % 8;
      if hostBytes > |number| then at == 0 && front == mask[..|mask| - |number|]
      else if r == 0 then at == |number| - hostBytes && front == mask[..k]
      else
        && at == |number| - hostBytes + 1
        && front == mask[..k] + [Spliced(mask[k], number[at - 1], r)]
    ensures WithHost(front + number[at..], mask, HostBits(8 * |mask|, p, number), Value(number))
  {
    hide WithHost, Spliced, Value;
    var hostBytes, k, r := (8 * |mask| - p + 7) / 8, p / 8, p % 8;
    if hostBytes > |number| {
      assert number[at..] == number;
      HostWhole(mask, number, 0);
    } else if r == 0 {
      HostWhole(mask, number, at);
    } else {
      HostPart(mask, k, r, number, at - 1);
    }
  }

  lemma HostWhole(mask: seq<Byte>, number: seq<Byte>, at: nat)
    requires at <= |number| && |number| - at <= |mask|
    ensures WithHost(mask[..|mask| - (|number| - at)] + number[at..], mask, 8 * (|number| - at), Value(number))
  {
    hide Value, Pow2, WithHost;
    var l := |number| - at;
    var k := |mask| - l;
    ValueConcat(mask[..k], number[at..]);
    NetworkWhole(mask, k);
    assert 8 * |mask| - 8 * k == 8 * l;
    assert number == number[..at] + number[at..];
    ValueConcat(number[..at], number[at..]);
    ValueBound(number[at..]);
    ModUnique(Value(number), Pow2(8 * l), Value(number[..at]), Value(number[at..]));
    HostIs(mask[..k] + number[at..], mask, 8 * l, Value(number));
  }

  lemma HostPart(mask: seq<Byte>, k: nat, r: nat, number: seq<Byte>, j: nat)
    requires 0 < r < 8 && j < |number| && k + (|number| - j) == |mask|
    ensures WithHost(mask[..k] + [Spliced(mask[k], number[j], r)] + number[j + 1..], mask,
      8 * (|mask| - k) - r, Value(number))
  {
    hide Value, Pow2, High, Spliced, WithHost;
    var tail, x := number[j + 1..], number[j];
    var t, s, v := |tail|, Pow2(8 - r), Value(mask[..k]);
    var c := Spliced(mask[k], x, r);
    var m := 8 * (t + 1) - r;
    ValueConcat(mask[..k] + [c], tail);
    ValueConcat(mask[..k], [c]);
    ValueOne(c);
    SplicedIs(mask[k], x, r);
    NetworkPart(mask, k, r);
    PartValue(v, mask[k], r, t);
    NumberTail(number, j, r);
    BytePowers(0);
    Appended(v * 256 + High(mask[k], r), x % s, Pow2(8 * t), Value(tail));
    HostIs(mask[..k] + [c] + tail, mask, m, Value(number));
  }

  lemma Appended(a: nat, low: nat, w: nat, rest: nat)
    ensures (a + low) * w + rest == a * w + (low * w + rest)
  {}

  lemma HostIs(h: seq<Byte>, mask: seq<Byte>, m: nat, number: nat)
    requires |h| == |mask| && Value(h) == Value(mask) / Pow2(m) * Pow2(m) + number % Pow2(m)
    ensures WithHost(h, mask, m, number)
  {}

  lemma SplicedIs(x: Byte, y: Byte, r: nat)
    requires 0 < r < 8
    ensures Spliced(x, y, r) == High(x, r) + y % Pow2(8 - r)
  {}

  // The last bits of a number.
  lemma NumberTail(number: seq<Byte>, j: nat, r: nat)
    requires 0 < r < 8 && j < |number|
    ensures
      var t := |number| - j - 1;
      Value(number) % Pow2(8 * (t + 1) - r) == number[j] % Pow2(8 - r) * Pow2(8 * t) + Value(number[j + 1..])
  {
    hide Value, Pow2;
    var tail, x := number[j + 1..], number[j];
    var t, s, v := |tail|, Pow2(8 - r), Value(number[..j]);
    assert number == number[..j] + [x] + tail;
    ValueConcat(number[..j] + [x], tail);
    ValueConcat(number[..j], [x]);
    ValueOne(x);
    BytePowers(0);
    SplitByte(v, x, r);
    PowAdd(8 - r, 8 * t);
    ValueBound(tail);
    DivNat(x, s);
    DivMod(x, s);
    PowAdd(r, 8 - r);
    LowPart(v, x / s, x % s, s, Pow2(r), Pow2(8 * t), Value(tail));
  }

  lemma LowPart(v: nat, q: nat, low: nat, s: nat, u: nat, w: nat, rest: nat)
    requires u * s == 256 && low < s && rest < w
    ensures s * w > 0 && (v * 256 + (s * q + low)) * w + rest == s * w * (v * u + q) + (low * w + rest)
    ensures ((v * 256 + (s * q + low)) * w + rest) % (s * w) == low * w + rest
  {
    var y := v * u + q;
    assert v * 256 + s * q == s * y by {
      Associate(v, u, s);
      Distribute(s, v * u, q);
    }
    assert (s * y + low) * w == s * w * y + low * w by {
      Associate(s, y, w);
      Associate(s, w, y);
    }
    MulMonotone(w, low + 1, s);
    Distribute(w, low, 1);
    MulMonotone(w, 1, s);
    ModUnique((v * 256 + (s * q + low)) * w + rest, s * w, y, low * w + rest);
  }
}
