// src-api/common/netaddr.c: the text of an address.
module NetaddrTexts {
  import opened IsoNumbers
  import opened Netaddrs
  import opened Options
  import opened Words

  // A netaddr as a value.
  datatype Address = Address(addr: seq<Byte>, family: Family, prefixLen: nat)

  // ----- hexadecimal octets -----

  predicate IsHex(c: char) {
    '0' <= c <= '9' || 'a' <= c <= 'f' || 'A' <= c <= 'F'
  }

  // _read_hexdigit
  function HexValue(c: char): (v: nat)
    requires IsHex(c)
    ensures v < 16
  {
    if '0' <= c <= '9' then c as int - '0' as int
    else if 'a' <= c <= 'f' then c as int - 'a' as int + 10
    else c as int - 'A' as int + 10
  }

  const HEX := "0123456789abcdef"

  function HexDigit(v: nat): (c: char)
    requires v < 16
    ensures IsHex(c) && HexValue(c) == v
  {
    HEX[v]
  }

  function Octet(x: Byte): string {
    [HexDigit(x / 16), HexDigit(x % 16)]
  }

  function MacText(b: seq<Byte>, separator: char): string {
    if b == [] then "" else if |b| == 1 then Octet(b[0]) else Octet(b[0]) + [separator] + MacText(b[1..], separator)
  }

  lemma {:induction false} MacTextMore(b: seq<Byte>, x: Byte, separator: char)
    requires b != []
    ensures MacText(b + [x], separator) == MacText(b, separator) + [separator] + Octet(x)
  {
    var c := b + [x];
    assert c[1..] == b[1..] + [x];
    if |b| > 1 {
      MacTextMore(b[1..], x, separator);
    } else {
      assert c[1..] == [x];
    }
  }

  lemma {:induction false} MacTextLength(b: seq<Byte>, separator: char)
    ensures |MacText(b, separator)| == if b == [] then 0 else 3 * |b| - 1
  {
    if |b| > 1 {
      MacTextLength(b[1..], separator);
    }
  }

  // _mac_to_string, into a buffer that is large enough
  method MacToString(dst: array<char>, bin: seq<Byte>, separator: char) returns (len: nat)
    requires 3 * |bin| <= dst.Length && 0 < dst.Length
    modifies dst
    ensures len < dst.Length && dst[..len] == MacText(bin, separator) && dst[len] == '\0'
  {
    var i, out, lastSeparator := 0, 0, 0;
    while i < |bin| && dst.Length - out >= 3
      invariant 0 <= i <= |bin| && out == 3 * i && lastSeparator == if i == 0 then 0 else out - 1
      invariant dst[..lastSeparator] == MacText(bin[..i], separator)
      invariant i > 0 ==> dst[lastSeparator] == separator
    {
      ghost var shown := dst[..out];
      assert i > 0 ==> shown == MacText(bin[..i], separator) + [separator];
      dst[out] := HexDigit(bin[i] / 16);
      dst[out + 1] := HexDigit(bin[i] % 16);
      lastSeparator := out + 2;
      dst[lastSeparator] := separator;
      assert dst[..lastSeparator] == shown + Octet(bin[i]);
      assert bin[..i + 1] == bin[..i] + [bin[i]];
      if i > 0 {
        MacTextMore(bin[..i], bin[i], separator);
      }
      out, i := out + 3, i + 1;
    }
    assert bin[..i] == bin;
    dst[lastSeparator] := '\0';
    len := lastSeparator;
  }

  // The octet a text begins with, and how many digits it has.
  function FirstOctet(s: string): (r: (Byte, nat))
    requires s != "" && IsHex(s[0])
    ensures 0 < r.1 <= |s|
  {
    if |s| > 1 && IsHex(s[1]) then (HexValue(s[0]) * 16 + HexValue(s[1]), 2) else (HexValue(s[0]), 1)
  }

  // n octets of one or two digits, with a separator between them
  function MacParse(s: string, n: nat, separator: char): (r: Option<seq<Byte>>)
    ensures r.Some? ==> |r.value| == n
    decreases n
  {
    if n == 0 || s == "" || !IsHex(s[0]) then None else
    var (x, k) := FirstOctet(s);
    if k == |s| then if n == 1 then Some([x]) else None
    else if s[k] != separator then None
    else
      var more := MacParse(s[k + 1..], n - 1, separator);
      if more.None? then None else Some([x] + more.value)
  }

  method ReadOctet(src: string, start: nat) returns (num: Byte, ptr: nat)
    requires start < |src| && IsHex(src[start])
    ensures ptr <= |src| && (num, ptr - start) == FirstOctet(src[start..])
  {
    ptr := start;
    num := HexValue(src[ptr]);
    ptr := ptr + 1;
    if ptr < |src| && IsHex(src[ptr]) {
      num := num * 16 + HexValue(src[ptr]);
      ptr := ptr + 1;
    }
  }

  // _mac_from_string
  method MacFromString(src: string, size: nat, separator: char) returns (result: int, bin: seq<Byte>)
    ensures result == if MacParse(src, size, separator).Some? then 0 else -1
    ensures result == 0 ==> bin == MacParse(src, size, separator).value
  {
    hide MacParse, FirstOctet, IsHex;
    bin := [];
    var ptr, left := 0, size;
    assert src[0..] == src;
    FollowsStart(MacParse(src, size, separator));
    while left > 0
      invariant 0 <= ptr <= |src| && 0 <= left <= size
      invariant Follows(MacParse(src, size, separator), bin, MacParse(src[ptr..], left, separator))
      decreases left
    {
      ParseStep(src[ptr..], left, separator);
      if ptr == |src| || !IsHex(src[ptr]) {
        return -1, bin;
      }
      ghost var s, all := src[ptr..], MacParse(src, size, separator);
      ghost var before := bin;
      var num;
      num, ptr := ReadOctet(src, ptr);
      bin := bin + [num];
      left := left - 1;
      if ptr == |src| {
        return if left != 0 then -1 else 0, bin;
      }
      if src[ptr] != separator {
        return -1, bin;
      }
      ptr := ptr + 1;
      assert src[ptr..] == s[FirstOctet(s).1 + 1..];
      FollowsMore(all, before, num, MacParse(src[ptr..], left, separator));
    }
    ParseNone(src[ptr..], separator);
    return -1, bin;
  }

  // The whole is what was read and the rest.
  predicate Follows(all: Option<seq<Byte>>, bin: seq<Byte>, rest: Option<seq<Byte>>) {
    all == if rest.None? then None else Some(bin + rest.value)
  }

  lemma FollowsStart(all: Option<seq<Byte>>)
    ensures Follows(all, [], all)
  {
    assert all.Some? ==> [] + all.value == all.value;
  }

  lemma FollowsMore(all: Option<seq<Byte>>, bin: seq<Byte>, x: Byte, rest: Option<seq<Byte>>)
    requires Follows(all, bin, if rest.None? then None else Some([x] + rest.value))
    ensures Follows(all, bin + [x], rest)
  {
    assert rest.Some? ==> bin + ([x] + rest.value) == bin + [x] + rest.value;
  }

  lemma ParseNone(s: string, separator: char)
    ensures MacParse(s, 0, separator) == None
  {}

  lemma ParseStep(s: string, n: nat, separator: char)
    requires n > 0
    ensures s == "" || !IsHex(s[0]) ==> MacParse(s, n, separator) == None
    ensures s != "" && IsHex(s[0]) ==>
      var (x, k) := FirstOctet(s);
      MacParse(s, n, separator) ==
        if k == |s| then if n == 1 then Some([x]) else None
        else if s[k] != separator then None
        else if MacParse(s[k + 1..], n - 1, separator).None? then None
        else Some([x] + MacParse(s[k + 1..], n - 1, separator).value)
  {}

  // Hardware addresses are read back as they were written.
  lemma {:induction false} MacRoundTrip(b: seq<Byte>, separator: char)
    requires b != [] && !IsHex(separator)
    ensures MacParse(MacText(b, separator), |b|, separator) == Some(b)
  {
    hide MacParse, Octet;
    var rest := MacText(b[1..], separator);
    OctetValue(b[0]);
    OctetRead(Octet(b[0]), rest, |b| - 1, separator);
    if |b| > 1 {
      MacRoundTrip(b[1..], separator);
      assert b == [b[0]] + b[1..];
    } else {
      assert b == [b[0]];
    }
  }

  lemma OctetValue(x: Byte)
    ensures
      var o := Octet(x);
      |o| == 2 && IsHex(o[0]) && IsHex(o[1]) && 16 * HexValue(o[0]) + HexValue(o[1]) == x
  {}

  // ----- whole addresses -----

  // What the C library makes of addresses in internet notation.
  datatype Library = Library(ntop: (Family, seq<Byte>) -> string, pton: (Family, string) -> Option<seq<Byte>>,
      mask: string -> int)

  // The size of struct netaddr_str.
  const BUFFER: nat := 62

  function Zeros(n: nat): (z: seq<Byte>)
    ensures |z| == n && forall i :: 0 <= i < n ==> z[i] == 0
  {
    seq(n, i => 0)
  }

  function Padded(b: seq<Byte>): (p: seq<Byte>)
    ensures |p| == 16
  {
    if |b| >= 16 then b[..16] else b + Zeros(16 - |b|)
  }

  // netaddr_to_prefixstring
  function Text(a: Address, force: bool, lib: Library): string
    requires |a.addr| == 16
  {
    if a.family == Unspec then "-" else
    var host :=
      match a.family
      case Mac48 => MacText(a.addr[..6], ':')
      case Eui64 => MacText(a.addr[..8], '-')
      case f => lib.ntop(f, a.addr);
    host + if force || a.prefixLen < MaxPrefix(a.family) then "/" + Decimal(a.prefixLen) else ""
  }

  function Lower(s: string): (l: string)
    ensures |l| == |s|
  {
    seq(|s|, i requires 0 <= i < |s| => if 'A' <= s[i] <= 'Z' then s[i] - 'A' + 'a' else s[i])
  }

  // The prefixes that have a name.
  function Known(name: string): Option<Address> {
    if name == "any4" then Some(Address(Zeros(16), Inet, 0))
    else if name == "any6" then Some(Address(Zeros(16), Inet6, 0))
    else if name == "linklocal4" then Some(Address([169, 254] + Zeros(14), Inet, 16))
    else if name == "linklocal6" then Some(Address([0xfe, 0x80] + Zeros(14), Inet6, 10))
    else if name == "ula" then Some(Address([0xfc] + Zeros(15), Inet6, 7))
    else None
  }

  // str_trim
  function Trim(s: string): string {
    TrimRight(s[Skip(IsSpace, s, 0)..])
  }

  predicate IsBody(c: char) {
    !IsSpace(c) && c != '/'
  }

  // A text before and behind the slash, or before and behind blanks; None if nothing follows.
  function Parts(t: string): Option<(string, Option<string>)> {
    var i := Skip(IsBody, t, 0);
    if i == |t| then Some((t, Option.None)) else
    var j := Skip(IsSpace, t, i);
    var k := Skip(IsSpace, t, if j < |t| && t[j] == '/' then j + 1 else j);
    if k == |t| then None else Some((t[..i], Some(t[k..])))
  }

  // (int)strtoul(s, &end, 10), if the whole text is a number. The cast keeps 32 bits.
  function PrefixNumber(s: string): int {
    var r := FrontNumber(s);
    if r.end == 0 || r.end < |s| then -1
    else AsInt(if r.size >= TWO_TO_64 then TWO_TO_64 - 1 else Signed(r.negative, r.size))
  }

  function AsInt(v: nat): int {
    var low := v % 0x1_0000_0000;
    if low < 0x8000_0000 then low else low - 0x1_0000_0000
  }

  function Count(s: string, c: char): (n: nat)
    ensures n <= |s|
  {
    if s == "" then 0 else Count(s[..|s| - 1], c) + if s[|s| - 1] == c then 1 else 0
  }

  predicate HasPair(s: string, c: char) {
    exists i :: 0 < i < |s| && s[i - 1] == c && s[i] == c
  }

  // The kind of address by its punctuation, and its octets; the number stands for no prefix yet.
  function FromHead(head: string, lib: Library): Option<Address> {
    var colons, minuses, point, pair := Count(head, ':'), Count(head, '-'), '.' in head, HasPair(head, ':');
    if (colons == 5 || minuses == 5) && (colons == 0 || minuses == 0) && !point && !pair then
      Filled(MacParse(head, 6, if colons > 0 then ':' else '-'), Mac48)
    else if colons == 0 && !point && minuses == 7 then Filled(MacParse(head, 8, '-'), Eui64)
    else if colons == 0 && point && minuses == 0 then Filled(lib.pton(Inet, head), Inet)
    else if (pair || colons == 7) && minuses == 0 then Filled(lib.pton(Inet6, head), Inet6)
    else None
  }

  function Filled(b: Option<seq<Byte>>, f: Family): Option<Address> {
    if b.None? then None else Some(Address(Padded(b.value), f, MaxPrefix(f)))
  }

  // netaddr_from_string
  function FromText(src: string, lib: Library): Option<Address> {
    if src == "-" then Some(Address(Zeros(16), Unspec, 0))
    else if Known(Lower(src)).Some? then Known(Lower(src))
    else
      var parts := Parts(Trim(if |src| < BUFFER then src else src[..BUFFER - 1]));
      if parts.None? then None else
      var a := FromHead(parts.value.0, lib);
      if a.None? || parts.value.1.None? then a else
      var given := parts.value.1.value;
      var number := PrefixNumber(given);
      var p := if number == -1 && a.value.family == Inet then lib.mask(given) else number;
      if p < 0 || p > a.value.prefixLen then None else Some(a.value.(prefixLen := p))
  }

  // The loop over the punctuation.
  method Scan(t: string) returns (end: nat, colons: nat, minuses: nat, point: bool, pair: bool)
    ensures end == Skip(IsBody, t, 0)
    ensures colons == Count(t[..end], ':') && minuses == Count(t[..end], '-')
    ensures point == ('.' in t[..end]) && pair == HasPair(t[..end], ':')
  {
    end, colons, minuses, point, pair := 0, 0, 0, false, false;
    var lastWasColon := false;
    assert t[..0] == "";
    while end < |t| && !IsSpace(t[end]) && t[end] != '/'
      invariant end <= |t| && Skip(IsBody, t, end) == Skip(IsBody, t, 0)
      invariant colons == Count(t[..end], ':') && minuses == Count(t[..end], '-')
      invariant point == ('.' in t[..end]) && pair == HasPair(t[..end], ':')
      invariant lastWasColon == (end > 0 && t[end - 1] == ':')
    {
      ScanStep(t, end);
      match t[end] {
        case ':' =>
          if lastWasColon {
            pair := true;
          }
          colons := colons + 1;
        case '.' => point := true;
        case '-' => minuses := minuses + 1;
        case _ =>
      }
      lastWasColon := t[end] == ':';
      end := end + 1;
    }
  }

  lemma ScanStep(t: string, end: nat)
    requires end < |t|
    ensures forall c :: Count(t[..end + 1], c) == Count(t[..end], c) + if t[end] == c then 1 else 0
    ensures '.' in t[..end + 1] <==> '.' in t[..end] || t[end] == '.'
    ensures HasPair(t[..end + 1], ':') <==> HasPair(t[..end], ':') || (end > 0 && t[end - 1] == ':' && t[end] == ':')
  {
    var a, b := t[..end], t[..end + 1];
    assert b == a + [t[end]] && b[..end] == a;
    if HasPair(a, ':') {
      var i :| 0 < i < |a| && a[i - 1] == ':' && a[i] == ':';
      assert b[i - 1] == ':' && b[i] == ':';
    }
    if end > 0 && t[end - 1] == ':' && t[end] == ':' {
      assert b[end - 1] == ':' && b[end] == ':';
    }
  }

  method SkipSpaces(t: string, start: nat) returns (i: nat)
    requires start <= |t|
    ensures i == Skip(IsSpace, t, start)
  {
    i := start;
    while i < |t| && IsSpace(t[i])
      invariant start <= i <= |t| && Skip(IsSpace, t, i) == Skip(IsSpace, t, start)
    {
      i := i + 1;
    }
  }

  // The branches for the kinds of addresses.
  method ParseHead(head: string, colons: nat, minuses: nat, point: bool, pair: bool, lib: Library)
      returns (result: Option<seq<Byte>>, family: Family)
    requires colons == Count(head, ':') && minuses == Count(head, '-')
    requires point == ('.' in head) && pair == HasPair(head, ':')
    ensures FromHead(head, lib) == Filled(result, family)
  {
    hide MacParse, Count, HasPair, Padded;
    result, family := None, Unspec;
    if (colons == 5 || minuses == 5) && (colons == 0 || minuses == 0) && !point && !pair {
      family := Mac48;
      var r, bin := MacFromString(head, 6, if colons > 0 then ':' else '-');
      result := if r == 0 then Some(bin) else None;
    } else if colons == 0 && !point && minuses == 7 {
      family := Eui64;
      var r, bin := MacFromString(head, 8, '-');
      result := if r == 0 then Some(bin) else None;
    } else if colons == 0 && point && minuses == 0 {
      family := Inet;
      result := lib.pton(Inet, head);
    } else if (pair || colons == 7) && minuses == 0 {
      family := Inet6;
      result := lib.pton(Inet6, head);
    }
  }

  // What follows the first part of the text: where it begins, and the number it is.
  method ReadLength(t: string, end: nat) returns (missing: bool, ptr2: nat, number: int)
    requires end == Skip(IsBody, t, 0)
    ensures missing <==> Parts(t) == None
    ensures !missing ==>
      ptr2 <= |t| && Parts(t) == Some((t[..end], if ptr2 < |t| then Some(t[ptr2..]) else Option.None))
    ensures !missing ==> number == if ptr2 < |t| then PrefixNumber(t[ptr2..]) else -1
  {
    hide Skip, PrefixNumber;
    missing, ptr2, number := false, end, -1;
    assert end == |t| ==> t[..end] == t;
    if ptr2 < |t| {
      ptr2 := SkipSpaces(t, ptr2);
      if ptr2 < |t| && t[ptr2] == '/' {
        ptr2 := ptr2 + 1;
      }
      ptr2 := SkipSpaces(t, ptr2);
      if ptr2 == |t| {
        return true, ptr2, -1;
      }
      number := PrefixNumber(t[ptr2..]);
    }
  }

  // netaddr_from_string. After an error the target has no address family; its other fields
  // are whatever was written to them by then.
  method FromString(src: string, lib: Library) returns (result: int, dst: Address)
    ensures result == if FromText(src, lib).Some? then 0 else -1
    ensures result == 0 ==> dst == FromText(src, lib).value
    ensures result == -1 ==> dst.family == Unspec
  {
    hide Skip, Known, Count, HasPair, Trim, PrefixNumber, Padded, Zeros, Lower, FromHead, Parts;
    dst := Address(Zeros(16), Unspec, 0);
    if src == "-" {
      return 0, dst;
    }
    var known := Known(Lower(src));
    if known.Some? {
      return 0, known.value;
    }
    var t := Trim(if |src| < BUFFER then src else src[..BUFFER - 1]);
    var end, colons, minuses, point, pair := Scan(t);
    var missing, ptr2, number := ReadLength(t, end);
    if missing {
      return -1, dst;
    }
    var head := t[..end];
    var bin, family := ParseHead(head, colons, minuses, point, pair, lib);
    if family == Inet && bin.Some? && ptr2 < |t| && number == -1 {
      number := lib.mask(t[ptr2..]);
    }
    if bin.None? {
      return -1, dst.(prefixLen := MaxPrefix(family));
    }
    dst := Address(Padded(bin.value), family, MaxPrefix(family));
    if ptr2 < |t| {
      if number < 0 || number > dst.prefixLen {
        return -1, dst.(family := Unspec);
      }
      dst := dst.(prefixLen := number);
    }
    return 0, dst;
  }

  // ----- reading back what was written -----

  lemma {:induction false} MacChars(b: seq<Byte>, separator: char, i: nat)
    requires i < |MacText(b, separator)|
    ensures if i % 3 == 2 then MacText(b, separator)[i] == separator else IsHex(MacText(b, separator)[i])
  {
    if |b| > 1 && i >= 3 {
      MacChars(b[1..], separator, i - 3);
    }
  }

  lemma {:induction false} CountConcat(a: string, b: string, c: char)
    ensures Count(a + b, c) == Count(a, c) + Count(b, c)
  {
    if b == "" {
      assert a + b == a;
    } else {
      assert (a + b)[..|a + b| - 1] == a + b[..|b| - 1];
      CountConcat(a, b[..|b| - 1], c);
    }
  }

  lemma CountOctet(x: Byte, c: char)
    requires !IsHex(c)
    ensures Count(Octet(x), c) == 0
  {
    var s := Octet(x);
    assert s[..1] == [s[0]] && s[..1][..0] == "";
  }

  lemma {:induction false} MacCount(b: seq<Byte>, separator: char, c: char)
    requires b != [] && !IsHex(c)
    ensures Count(MacText(b, separator), c) == if c == separator then |b| - 1 else 0
  {
    hide Octet;
    CountOctet(b[0], c);
    if |b| > 1 {
      MacCount(b[1..], separator, c);
      CountConcat(Octet(b[0]) + [separator], MacText(b[1..], separator), c);
      CountConcat(Octet(b[0]), [separator], c);
      assert [separator][..0] == "";
    }
  }

  // The punctuation of a written hardware address.
  lemma MacPunctuation(b: seq<Byte>, separator: char)
    requires b != [] && separator in {':', '-'}
    ensures
      var m := MacText(b, separator);
      && '.' !in m && !HasPair(m, ':') && (forall i :: 0 <= i < |m| ==> IsBody(m[i]))
      && |m| == 3 * |b| - 1 && IsHex(m[0]) && IsHex(m[|m| - 1]) && (|b| > 1 ==> m[2] == separator)
  {
    hide MacText;
    var m := MacText(b, separator);
    MacTextLength(b, separator);
    assert IsHex(':') == false && IsHex('-') == false;
    forall i | 0 <= i < |m|
      ensures if i % 3 == 2 then m[i] == separator else IsHex(m[i])
    {
      MacChars(b, separator, i);
    }
  }

  lemma HeadRoundTrip(b: seq<Byte>, f: Family, lib: Library)
    requires (f == Mac48 && |b| == 6) || (f == Eui64 && |b| == 8)
    ensures FromHead(MacText(b, if f == Mac48 then ':' else '-'), lib) == Some(Address(Padded(b), f, MaxPrefix(f)))
  {
    hide MacText, HasPair, Count, MacParse, Padded;
    var separator := if f == Mac48 then ':' else '-';
    MacPunctuation(b, separator);
    MacCount(b, separator, ':');
    MacCount(b, separator, '-');
    MacRoundTrip(b, separator);
  }

  // What the length behind a sign is taken for.
  lemma NumberOf(sign: string, n: nat)
    requires sign in {"", "-"}
    ensures PrefixNumber(sign + Decimal(n)) ==
      if n >= TWO_TO_64 then -1 else AsInt(Signed(sign == "-", n))
  {
    hide Decimal, FrontNumber;
    FrontPlain(sign, n, "");
    assert sign + Decimal(n) + "" == sign + Decimal(n);
  }

  lemma AsIntSmall(p: nat)
    requires p <= 128
    ensures AsInt(Signed(false, p)) == p
  {}

  lemma NumberRoundTrip(p: nat)
    requires p <= 128
    ensures PrefixNumber(Decimal(p)) == p
  {
    hide Decimal, PrefixNumber, AsInt;
    AsIntSmall(p);
    NumberOf("", p);
    assert "" + Decimal(p) == Decimal(p);
  }

  lemma {:induction false} TrimNothing(s: string)
    requires s != "" && !IsSpace(s[0]) && !IsSpace(s[|s| - 1])
    ensures Trim(s) == s
  {
    SkipTo(IsSpace, s, 0, 0);
    assert s[0..] == s;
  }

  lemma NotKnown(s: string)
    requires |s| > 2 && s[2] in {':', '-'}
    ensures Known(Lower(s)) == None && s != "-"
  {
    var l := Lower(s);
    assert l[2] == s[2];
    assert "any4"[2] == 'y' && "any6"[2] == 'y' && "linklocal4"[2] == 'n' && "linklocal6"[2] == 'n' && "ula"[2] == 'a';
  }

  lemma PartsOf(m: string, p: string)
    requires (forall i :: 0 <= i < |m| ==> IsBody(m[i])) && (p != "" ==> !IsSpace(p[0]))
    ensures Parts(m) == Some((m, Option.None))
    ensures p != "" ==> Parts(m + "/" + p) == Some((m, Some(p)))
  {
    SkipTo(IsBody, m, 0, |m|);
    if p != "" {
      var t := m + "/" + p;
      assert t[|m|] == '/' && t[..|m|] == m && t[|m| + 1..] == p;
      assert forall i :: 0 <= i < |m| ==> t[i] == m[i];
      SkipTo(IsBody, t, 0, |m|);
      SkipTo(IsSpace, t, |m|, |m|);
      assert t[|m| + 1] == p[0];
      SkipTo(IsSpace, t, |m| + 1, |m| + 1);
    }
  }

  // A hardware address with a legal prefix length survives being written and read.
  lemma AddressRoundTrip(b: seq<Byte>, f: Family, p: nat, force: bool, lib: Library)
    requires (f == Mac48 && |b| == 6) || (f == Eui64 && |b| == 8)
    requires p <= MaxPrefix(f)
    ensures
      var a := Address(Padded(b), f, p);
      && Text(a, force, lib) == MacText(b, if f == Mac48 then ':' else '-') +
        (if force || p < (if f == Mac48 then 48 else 64) then "/" + Decimal(p) else "")
      && FromText(Text(a, force, lib), lib) == Some(a)
  {
    hide MacText, HasPair, Count, MacParse, Padded, Known, Lower, Parts, Trim, PrefixNumber, FromHead, Decimal, Skip;
    var a := Address(Padded(b), f, p);
    var separator := if f == Mac48 then ':' else '-';
    var m := MacText(b, separator);
    PaddedFront(b);
    MacPunctuation(b, separator);
    DecimalLength(p, 3);
    SmallPowers();
    var d := Decimal(p);
    assert IsDigit(d[0]) && IsDigit(d[|d| - 1]);
    PartsOf(m, d);
    HeadRoundTrip(b, f, lib);
    NumberRoundTrip(p);
    var s := Text(a, force, lib);
    assert s == m || s == m + "/" + d;
    NotKnown(s);
    TrimNothing(s);
    assert s != "-";
  }

  lemma PaddedFront(b: seq<Byte>)
    requires |b| <= 16
    ensures Padded(b)[..|b|] == b
  {}

  // ----- prefix lengths of any size -----

  // The low 32 bits of a number or of its negation.
  function Low(negative: bool, n: nat): nat {
    if negative then (0 - n) % 0x1_0000_0000 else n % 0x1_0000_0000
  }

  lemma LowBits(negative: bool, n: Uint64, f: Family)
    ensures
      var p := AsInt(Signed(negative, n));
      0 <= p <= MaxPrefix(f) <==> Low(negative, n) <= MaxPrefix(f)
    ensures Low(negative, n) <= MaxPrefix(f) ==> AsInt(Signed(negative, n)) == Low(negative, n)
  {}

  // The digits in front of the last few.
  lemma {:induction false} DecimalFront(n: nat, k: nat)
    requires 0 < k <= |Decimal(n)|
    ensures exists q :: Decimal(n)[..k] == Decimal(q)
  {
    if k == |Decimal(n)| {
      assert Decimal(n)[..k] == Decimal(n);
    } else {
      assert Decimal(n)[..k] == Decimal(n / 10)[..k];
      DecimalFront(n / 10, k);
    }
  }

  // The number that is left when a long text is cut; what is lost does not matter any more.
  lemma CutNumber(n: nat, k: nat) returns (q: nat)
    requires k >= 21
    ensures Decimal(q) == if k < |Decimal(n)| then Decimal(n)[..k] else Decimal(n)
    ensures if k < |Decimal(n)| then q >= TWO_TO_64 && n >= TWO_TO_64 else q == n
  {
    hide Decimal;
    q := n;
    if k < |Decimal(n)| {
      DecimalFront(n, k);
      q :| Decimal(n)[..k] == Decimal(q);
      if q < TWO_TO_64 {
        DecimalFits(q);
      }
      if n < TWO_TO_64 {
        DecimalFits(n);
      }
    }
  }

  function Separator(f: Family): char {
    if f == Mac48 then ':' else '-'
  }

  // A hardware address with some number behind it.
  function WithLength(b: seq<Byte>, f: Family, sign: string, n: nat): string {
    MacText(b, Separator(f)) + "/" + (sign + Decimal(n))
  }

  // What becomes of any length at all, with or without a sign.
  lemma PrefixLength(b: seq<Byte>, f: Family, sign: string, n: nat, lib: Library)
    requires (f == Mac48 && |b| == 6) || (f == Eui64 && |b| == 8)
    requires sign in {"", "-"}
    ensures FromText(WithLength(b, f, sign, n), lib) ==
      if n < TWO_TO_64 && Low(sign == "-", n) <= MaxPrefix(f) then
        Some(Address(Padded(b), f, Low(sign == "-", n)))
      else None
  {
    hide MacText, HasPair, Count, MacParse, Padded, Known, Lower, Parts, Trim, PrefixNumber, FromHead, Decimal, Skip, Low,
      AsInt, Signed;
    var m, s := MacText(b, Separator(f)), WithLength(b, f, sign, n);
    MacPunctuation(b, Separator(f));
    var q := CutNumber(n, BUFFER - 1 - |m| - 1 - |sign|);
    var cut := if |s| < BUFFER then s else s[..BUFFER - 1];
    assert cut == m + "/" + (sign + Decimal(q));
    var d := Decimal(q);
    assert IsDigit(d[0]) && IsDigit(d[|d| - 1]);
    PartsOf(m, sign + d);
    HeadRoundTrip(b, f, lib);
    NumberOf(sign, q);
    NotKnown(s);
    TrimNothing(cut);
    if n < TWO_TO_64 {
      LowBits(sign == "-", n, f);
    }
  }

  // The range check lets a length through that is not the one written exactly when that is
  // out of range and its low 32 bits are not.
  lemma WrongLengthIff(b: seq<Byte>, f: Family, sign: string, n: nat, lib: Library)
    requires (f == Mac48 && |b| == 6) || (f == Eui64 && |b| == 8)
    requires sign in {"", "-"}
    ensures
      var written: int := if sign == "-" then 0 - n else n;
      var a := FromText(WithLength(b, f, sign, n), lib);
      a.Some? && a.value.prefixLen != written <==>
        n < TWO_TO_64 && !(0 <= written <= MaxPrefix(f)) && Low(sign == "-", n) <= MaxPrefix(f)
  {
    hide FromText, WithLength, Padded;
    PrefixLength(b, f, sign, n, lib);
  }

  // Two such lengths, both taken for 8.
  lemma PrefixWraps(b: seq<Byte>, lib: Library)
    requires |b| == 6
    ensures FromText(WithLength(b, Mac48, "", 0x1_0000_0008), lib) == Some(Address(Padded(b), Mac48, 8))
    ensures FromText(WithLength(b, Mac48, "-", 0xffff_fff8), lib) == Some(Address(Padded(b), Mac48, 8))
  {
    hide FromText, WithLength, Padded;
    PrefixLength(b, Mac48, "", 0x1_0000_0008, lib);
    PrefixLength(b, Mac48, "-", 0xffff_fff8, lib);
  }

  // ----- every family in plain numbers -----

  lemma HexDigits(c: char)
    ensures IsHex(c) <==> c in "0123456789abcdefABCDEF"
    ensures '0' <= c <= '9' ==> HexValue(c) == c as int - '0' as int
    ensures c in {'a', 'A'} ==> HexValue(c) == 10
    ensures c in {'b', 'B'} ==> HexValue(c) == 11
    ensures c in {'c', 'C'} ==> HexValue(c) == 12
    ensures c in {'d', 'D'} ==> HexValue(c) == 13
    ensures c in {'e', 'E'} ==> HexValue(c) == 14
    ensures c in {'f', 'F'} ==> HexValue(c) == 15
    ensures Octet(0x0a) == "0a" && Octet(0xbc) == "bc" && Octet(0xde) == "de" && Octet(0xf1) == "f1"
  {}

  // An octet of one or two digits at the front of a hardware address.
  lemma OctetRead(o: string, rest: string, n: nat, separator: char)
    requires 1 <= |o| <= 2 && (forall i :: 0 <= i < |o| ==> IsHex(o[i])) && !IsHex(separator)
    ensures
      var x := if |o| == 1 then HexValue(o[0]) else 16 * HexValue(o[0]) + HexValue(o[1]);
      && MacParse(o, 1, separator) == Some([x])
      && (n > 0 ==> var more := MacParse(rest, n, separator);
        MacParse(o + [separator] + rest, n + 1, separator) == if more.None? then None else Some([x] + more.value))
  {
    var s := o + [separator] + rest;
    assert s[|o|] == separator && s[|o| + 1..] == rest;
    assert forall i :: 0 <= i < |o| ==> s[i] == o[i];
  }

  // The text of an address in front of a length: what tells the family, and its octets.
  ghost predicate HeadForm(head: string, f: Family, b: seq<Byte>, lib: Library) {
    && |b| <= 16
    && (forall i :: 0 <= i < |head| ==> head[i] !in {' ', '\t', '\n', 11 as char, 12 as char, '\r', '/'})
    && match f
      case Inet => '.' in head && ':' !in head && '-' !in head && lib.pton(Inet, head) == Some(b)
      case Inet6 =>
        '-' !in head && (HasPair(head, ':') || Count(head, ':') == 7) && lib.pton(Inet6, head) == Some(b)
      case Mac48 =>
        && '.' !in head && !HasPair(head, ':')
        && (if ':' in head then
          Count(head, ':') == 5 && '-' !in head && MacParse(head, 6, ':') == Some(b)
        else
          Count(head, '-') == 5 && MacParse(head, 6, '-') == Some(b))
      case Eui64 => Count(head, '-') == 7 && ':' !in head && '.' !in head && MacParse(head, 8, '-') == Some(b)
      case Unspec => false
  }

  lemma {:induction false} CountNone(s: string, c: char)
    ensures Count(s, c) == 0 <==> c !in s
  {
    if s != "" {
      CountNone(s[..|s| - 1], c);
      assert s == s[..|s| - 1] + [s[|s| - 1]];
    }
  }

  lemma HeadRead(head: string, f: Family, b: seq<Byte>, lib: Library)
    requires HeadForm(head, f, b, lib)
    ensures FromHead(head, lib) == Filled(Some(b), f)
    ensures head != "" && (forall i :: 0 <= i < |head| ==> IsBody(head[i])) && head != "-"
    ensures '.' in head || ':' in head || '-' in head
    ensures |b| <= 16
  {
    hide MacParse, Count, HasPair;
    CountNone(head, ':');
    CountNone(head, '-');
    PairHas(head, ':');
  }

  lemma PairHas(s: string, c: char)
    ensures HasPair(s, c) ==> c in s
  {}

  lemma Unnamed(s: string, c: char)
    requires c in s && c in {'.', ':', '-', '/'}
    ensures Known(Lower(s)) == None
  {
    var i :| 0 <= i < |s| && s[i] == c;
    assert Lower(s)[i] == c;
  }

  // What the C library takes for an IPv6 address is one here exactly if it has two colons in a
  // row or seven in all; an IPv4 address behind six groups is refused.
  lemma InternetSixIff(head: string, b: seq<Byte>, lib: Library)
    requires '-' !in head && lib.pton(Inet6, head) == Some(b)
    ensures
      var a := FromHead(head, lib);
      a.Some? && a.value.family == Inet6 <==> HasPair(head, ':') || Count(head, ':') == 7
  {
    hide MacParse, Count, HasPair, Padded;
    CountNone(head, ':');
    CountNone(head, '-');
    PairHas(head, ':');
  }

  lemma SixGroups(lib: Library)
    ensures FromHead("1:2:3:4:5:6:7.8.9.0", lib) == None
  {
    hide MacParse, Padded, Count, HasPair;
    var s := "1:2:3:4:5:6:7.8.9.0";
    var t := "7.8.9.0";
    assert s == "1:" + "2:" + "3:" + "4:" + "5:" + "6:" + t;
    OneColon('1');
    OneColon('2');
    OneColon('3');
    OneColon('4');
    OneColon('5');
    OneColon('6');
    CountNone(t, ':');
    CountConcat("1:", "2:", ':');
    CountConcat("1:" + "2:", "3:", ':');
    CountConcat("1:" + "2:" + "3:", "4:", ':');
    CountConcat("1:" + "2:" + "3:" + "4:", "5:", ':');
    CountConcat("1:" + "2:" + "3:" + "4:" + "5:", "6:", ':');
    CountConcat("1:" + "2:" + "3:" + "4:" + "5:" + "6:", t, ':');
    CountNone(s, '-');
    NoPair(s);
    assert s[13] == '.';
  }

  lemma OneColon(c: char)
    requires c != ':'
    ensures Count([c, ':'], ':') == 1
  {
    assert [c, ':'][..1] == [c] && [c][..0] == "";
  }

  lemma NoPair(s: string)
    requires forall i :: 0 < i < |s| ==> s[i - 1] != ':' || s[i] != ':'
    ensures !HasPair(s, ':')
  {}

  // ----- blanks around the parts -----

  predicate Blanks(s: string) {
    forall i :: 0 <= i < |s| ==> s[i] in {' ', '\t', '\n', 11 as char, 12 as char, '\r'}
  }

  lemma TrimBlanks(lead: string, s: string, trail: string)
    requires Blanks(lead) && Blanks(trail) && s != "" && !IsSpace(s[0]) && !IsSpace(s[|s| - 1])
    ensures Trim(lead + s + trail) == s
  {
    var t := lead + s + trail;
    assert forall i :: 0 <= i < |lead| ==> t[i] == lead[i];
    assert t[|lead|] == s[0] && t[|lead|..] == s + trail;
    SkipTo(IsSpace, t, 0, |lead|);
    TrimmedBlanks(s, trail);
  }

  // What may stand between an address and its length.
  ghost predicate Between(gap1: string, slash: string, gap2: string) {
    Blanks(gap1) && Blanks(gap2) && (slash == "/" || (slash == "" && gap1 != "" && gap2 == ""))
  }

  lemma PartsBetween(m: string, gap1: string, slash: string, gap2: string, p: string)
    requires (forall i :: 0 <= i < |m| ==> IsBody(m[i])) && Between(gap1, slash, gap2)
    requires p != "" && !IsSpace(p[0]) && p[0] != '/'
    ensures Parts(m + (gap1 + slash + gap2) + p) == Some((m, Some(p)))
  {
    var t, i := m + (gap1 + slash + gap2) + p, |m|;
    var j := i + |gap1|;
    var k := j + |slash|;
    assert forall l :: 0 <= l < i ==> t[l] == m[l];
    assert forall l :: i <= l < j ==> t[l] == gap1[l - i];
    assert forall l :: k <= l < k + |gap2| ==> t[l] == gap2[l - k];
    assert t[k + |gap2|] == p[0] && t[..i] == m && t[k + |gap2|..] == p && (slash == "/" ==> t[j] == '/');
    SkipTo(IsBody, t, 0, i);
    SkipTo(IsSpace, t, i, j);
    SkipTo(IsSpace, t, k, k + |gap2|);
  }

  // Whatever stands behind an address of any family, with blanks around the parts: a number,
  // or behind an IPv4 address a netmask.
  lemma TextBehind(lead: string, head: string, gap: (string, string, string), given: string, trail: string,
      f: Family, b: seq<Byte>, lib: Library)
    requires HeadForm(head, f, b, lib) && Blanks(lead) && Blanks(trail) && Between(gap.0, gap.1, gap.2)
    requires given != "" && !IsSpace(given[0]) && given[0] != '/' && !IsSpace(given[|given| - 1])
    requires |lead + (head + (gap.0 + gap.1 + gap.2) + given) + trail| <= 61
    ensures
      var max := match f case Inet => 32 case Inet6 => 128 case Mac48 => 48 case Eui64 => 64 case Unspec => 0;
      var number := PrefixNumber(given);
      var p := if number == -1 && f == Inet then lib.mask(given) else number;
      FromText(lead + (head + (gap.0 + gap.1 + gap.2) + given) + trail, lib) ==
        if 0 <= p <= max then Some(Address(Padded(b), f, p)) else None
  {
    hide HasPair, Count, MacParse, Padded, Known, Lower, Parts, Trim, PrefixNumber, FromHead, HeadForm, Blanks, Between;
    var t := head + (gap.0 + gap.1 + gap.2) + given;
    var s := lead + t + trail;
    HeadRead(head, f, b, lib);
    assert t[0] == head[0] && t[|t| - 1] == given[|given| - 1];
    TrimBlanks(lead, t, trail);
    PartsBetween(head, gap.0, gap.1, gap.2, given);
    var c := if '.' in head then '.' else if ':' in head then ':' else '-';
    InHead(lead, head, gap.0 + gap.1 + gap.2 + given + trail, c);
    assert lead + head + (gap.0 + gap.1 + gap.2 + given + trail) == s;
    Unnamed(s, c);
  }

  lemma InHead(lead: string, head: string, more: string, c: char)
    requires c in head && head != "-"
    ensures c in lead + head + more && (c in {'.', ':', '-'} ==> lead + head + more != "-")
  {
    var i :| 0 <= i < |head| && head[i] == c;
    var s := lead + head + more;
    assert s[|lead| + i] == c;
    assert |s| == 1 ==> s == head;
  }

  // A slash with nothing behind it is refused.
  lemma LengthMissing(lead: string, head: string, gap: string, trail: string, f: Family, b: seq<Byte>, lib: Library)
    requires HeadForm(head, f, b, lib) && Blanks(lead) && Blanks(gap) && Blanks(trail)
    requires |lead + (head + gap + "/") + trail| <= 61
    ensures FromText(lead + (head + gap + "/") + trail, lib) == None
  {
    hide HasPair, Count, MacParse, Padded, Known, Lower, Trim, PrefixNumber, FromHead, HeadForm;
    var t := head + gap + "/";
    var s := lead + t + trail;
    HeadRead(head, f, b, lib);
    TrimBlanks(lead, t, trail);
    assert s[|lead| + |t| - 1] == '/';
    Unnamed(s, '/');
    var i, j := |head|, |head| + |gap|;
    assert forall l :: 0 <= l < i ==> t[l] == head[l];
    assert forall l :: i <= l < j ==> t[l] == gap[l - i];
    SkipTo(IsBody, t, 0, i);
    SkipTo(IsSpace, t, i, j);
    SkipTo(IsSpace, t, |t|, |t|);
  }

  // Digits with something else behind them are no number.
  lemma NoNumber(d: string, tail: string)
    requires Digits(d) && d != "" && tail != "" && !IsDigit(tail[0])
    ensures PrefixNumber(d + tail) == -1
  {
    hide FrontNumber;
    FrontText("", "", d, tail);
    assert "" + "" + d + tail == d + tail;
  }

  // Any number behind an address of any family. What does not fit 32 bits is cut, and
  // the number that becomes -1 that way is taken for a netmask behind an IPv4 address.
  lemma LengthBehind(lead: string, head: string, gap: (string, string, string), n: nat, trail: string,
      f: Family, b: seq<Byte>, lib: Library)
    requires HeadForm(head, f, b, lib) && Blanks(lead) && Blanks(trail) && Between(gap.0, gap.1, gap.2)
    requires |lead + (head + (gap.0 + gap.1 + gap.2) + Decimal(n)) + trail| <= 61
    ensures
      var max := match f case Inet => 32 case Inet6 => 128 case Mac48 => 48 case Eui64 => 64 case Unspec => 0;
      var low, addr := n % 0x1_0000_0000, Padded(b);
      FromText(lead + (head + (gap.0 + gap.1 + gap.2) + Decimal(n)) + trail, lib) ==
        if n < 0x1_0000_0000_0000_0000 && low <= max then Some(Address(addr, f, low))
        else if f == Inet && (n >= 0x1_0000_0000_0000_0000 || low == 0xffff_ffff) then
          if 0 <= lib.mask(Decimal(n)) <= 32 then Some(Address(addr, f, lib.mask(Decimal(n)))) else None
        else None
  {
    hide Padded, FromText, PrefixNumber, Decimal, HeadForm, AsInt, Signed, Blanks, Between;
    var d := Decimal(n);
    assert IsDigit(d[0]) && IsDigit(d[|d| - 1]);
    TextBehind(lead, head, gap, d, trail, f, b, lib);
    NumberOf("", n);
    assert "" + d == d;
    if n < TWO_TO_64 {
      IntOf(n);
    }
  }

  lemma IntOf(n: Uint64)
    ensures
      var low := n % 0x1_0000_0000;
      AsInt(Signed(false, n)) == if low < 0x8000_0000 then low else low - 0x1_0000_0000
  {}

  // Without a length, and with each of 32 bits: accepted up to 32, 128, 48 and 64.
  lemma LengthsAccepted(head: string, f: Family, b: seq<Byte>, n: nat, lib: Library)
    requires HeadForm(head, f, b, lib) && |head| + 1 + |Decimal(n)| <= 61 && n < 0xffff_ffff
    ensures
      var max := match f case Inet => 32 case Inet6 => 128 case Mac48 => 48 case Eui64 => 64 case Unspec => 0;
      var a := FromText(head + "/" + Decimal(n), lib);
      && FromText(head, lib) == Some(Address(Padded(b), f, max))
      && (a.Some? <==> n <= max) && (a.Some? ==> a.value == Address(Padded(b), f, n))
    ensures |b| <= 16 && Padded(b)[..|b|] == b && forall i :: |b| <= i < 16 ==> Padded(b)[i] == 0
  {
    hide FromText, Decimal, HeadForm, Padded, IsBody, FromHead, Filled;
    LengthAccepted(head, f, b, n, lib);
    HeadRead(head, f, b, lib);
    Unspaced(head, "");
    HeadAlone("", head, "", f, b, lib);
    PaddedIs(b);
  }

  lemma LengthAccepted(head: string, f: Family, b: seq<Byte>, n: nat, lib: Library)
    requires HeadForm(head, f, b, lib) && |head| + 1 + |Decimal(n)| <= 61 && n < 0xffff_ffff
    ensures
      var max := match f case Inet => 32 case Inet6 => 128 case Mac48 => 48 case Eui64 => 64 case Unspec => 0;
      FromText(head + "/" + Decimal(n), lib) == if n <= max then Some(Address(Padded(b), f, n)) else None
  {
    hide FromText, Decimal, HeadForm, Padded, Blanks, Between;
    Unspaced(head, Decimal(n));
    LengthBehind("", head, ("", "/", ""), n, "", f, b, lib);
    assert n % 0x1_0000_0000 == n;
  }

  lemma Unspaced(head: string, d: string)
    ensures "" + (head + ("" + "/" + "") + d) + "" == head + "/" + d && "" + head + "" == head
    ensures Blanks("") && Between("", "/", "")
  {
    assert "" + "/" + "" == "/";
  }

  lemma PaddedIs(b: seq<Byte>)
    requires |b| <= 16
    ensures Padded(b)[..|b|] == b && forall i :: |b| <= i < 16 ==> Padded(b)[i] == 0
  {}

  // Without a length the whole address is meant.
  lemma HeadAlone(lead: string, head: string, trail: string, f: Family, b: seq<Byte>, lib: Library)
    requires HeadForm(head, f, b, lib) && Blanks(lead) && Blanks(trail) && |lead + head + trail| <= 61
    ensures
      var max := match f case Inet => 32 case Inet6 => 128 case Mac48 => 48 case Eui64 => 64 case Unspec => 0;
      FromText(lead + head + trail, lib) == Some(Address(Padded(b), f, max))
  {
    hide HasPair, Count, MacParse, Padded, Known, Lower, Parts, Trim, FromHead, HeadForm, Blanks;
    HeadRead(head, f, b, lib);
    var c := if '.' in head then '.' else if ':' in head then ':' else '-';
    InHead(lead, head, trail, c);
    Unnamed(lead + head + trail, c);
    PartsOf(head, "");
    TrimBlanks(lead, head, trail);
  }

  // A name in any mixture of cases.
  ghost predicate Spelt(s: string, name: string) {
    && |s| == |name|
    && forall i :: 0 <= i < |s| ==> s[i] == name[i] || ('a' <= name[i] <= 'z' && s[i] == name[i] - 'a' + 'A')
  }

  // The named prefixes: 0.0.0.0/0, ::/0, 169.254.0.0/16, fe80::/10 and fc00::/7.
  lemma Names(s: string, name: string, lib: Library)
    requires Spelt(s, name) && name in {"any4", "any6", "linklocal4", "linklocal6", "ula"}
    ensures FromText(s, lib).Some?
    ensures
      var a := FromText(s, lib).value;
      var (x, y) :=
        if name == "linklocal4" then (169, 254)
        else if name == "linklocal6" then (0xfe, 0x80)
        else if name == "ula" then (0xfc, 0) else (0, 0);
      && |a.addr| == 16 && a.addr[0] == x && a.addr[1] == y && (forall i :: 2 <= i < 16 ==> a.addr[i] == 0)
      && a.family == (if name in {"any4", "linklocal4"} then Inet else Inet6)
      && a.prefixLen ==
        if name == "linklocal4" then 16 else if name == "linklocal6" then 10 else if name == "ula" then 7 else 0
  {
    hide Trim, Parts, FromHead;
    assert Lower(s) == name;
    assert s[0] != '-';
  }

  // Octet by octet, two digits of which the first counts for 16, and a separator between octets.
  lemma {:induction false} MacPlaces(b: seq<Byte>, separator: char, i: nat)
    requires i < |b|
    ensures
      var m := MacText(b, separator);
      && |m| == 3 * |b| - 1 && (i + 1 < |b| ==> m[3 * i + 2] == separator)
      && m[3 * i] == "0123456789abcdef"[b[i] / 16] && m[3 * i + 1] == "0123456789abcdef"[b[i] % 16]
  {
    MacTextLength(b, separator);
    if i > 0 {
      MacPlaces(b[1..], separator, i - 1);
    }
  }

  // An IPv4 or IPv6 address survives as well, if the C library reads back what it writes; the
  // length is written when it is not 32 or 128, or when it is asked for.
  lemma InternetRoundTrip(b: seq<Byte>, f: Family, p: nat, force: bool, lib: Library)
    requires f in {Inet, Inet6} && p <= if f == Inet then 32 else 128
    requires
      var head := lib.ntop(f, Padded(b));
      HeadForm(head, f, b, lib) && |head| <= 57
    ensures
      var a, head := Address(Padded(b), f, p), lib.ntop(f, Padded(b));
      && Text(a, force, lib) == head + (if force || p < (if f == Inet then 32 else 128) then "/" + Decimal(p) else "")
      && FromText(Text(a, force, lib), lib) == Some(a)
  {
    hide HeadForm, FromText, Decimal;
    var head := lib.ntop(f, Padded(b));
    DecimalLength(p, 3);
    SmallPowers();
    LengthsAccepted(head, f, b, p, lib);
    assert head + "/" + Decimal(p) == head + ("/" + Decimal(p)) && head + "" == head;
  }
}
