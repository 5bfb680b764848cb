// src-api/common/json.c: printing nested objects and arrays, read back by the grammar of
// RFC 8259.
module Jsons {
  import opened IsoNumbers
  import opened NetaddrTexts
  import opened Options
  import opened Words

  // ----- strings -----

  // A text of single bytes.
  predicate IsBytes(s: string) {
    forall i :: 0 <= i < |s| ==> s[i] as int < 256
  }

  // str_char_is_printable
  predicate IsPrintable(c: char) {
    !(c as int < 32 || c as int == 127 || c as int == 255)
  }

  function EscapeChar(c: char): string {
    if !IsPrintable(c) then "\\u00" + [HexDigit(c as int % 256 / 16), HexDigit(c as int % 16)]
    else if c == '\\' || c == '\"' then ['\\', c]
    else [c]
  }

  function Escape(s: string): string {
    if s == "" then "" else EscapeChar(s[0]) + Escape(s[1..])
  }

  lemma {:induction false} EscapeConcat(a: string, b: string)
    ensures Escape(a + b) == Escape(a) + Escape(b)
  {
    if a == "" {
      assert a + b == b;
    } else {
      assert (a + b)[1..] == a[1..] + b;
      EscapeConcat(a[1..], b);
    }
  }

  predicate IsPlain(c: char) {
    IsPrintable(c) && c != '\\' && c != '\"'
  }

  lemma {:induction false} EscapePlain(s: string)
    requires forall i :: 0 <= i < |s| ==> IsPlain(s[i])
    ensures Escape(s) == s
  {
    if s != "" {
      EscapePlain(s[1..]);
      assert s == [s[0]] + s[1..];
    }
  }

  // The character a backslash and a letter stand for, section 7 of RFC 8259.
  function Unescaped(c: char): Option<char> {
    match c
    case '\"' => Some('\"')
    case '\\' => Some('\\')
    case '/' => Some('/')
    case 'b' => Some(8 as char)
    case 'f' => Some(12 as char)
    case 'n' => Some('\n')
    case 'r' => Some('\r')
    case 't' => Some('\t')
    case _ => Option.None
  }

  // What \u and four digits stand for; halves of surrogate pairs are not read.
  function CodePoint(s: string): Option<char>
    requires |s| == 4
  {
    if !(IsHex(s[0]) && IsHex(s[1]) && IsHex(s[2]) && IsHex(s[3])) then Option.None else
    var v := ((HexValue(s[0]) * 16 + HexValue(s[1])) * 16 + HexValue(s[2])) * 16 + HexValue(s[3]);
    if 0xD800 <= v < 0xE000 then Option.None else Some(v as char)
  }

  // Reads a string behind its opening quotation mark, and returns what follows it.
  function ReadString(s: string): (r: Option<(string, string)>)
    ensures r.Some? ==> |r.value.1| < |s|
  {
    if s == "" then Option.None
    else if s[0] == '\"' then Some(("", s[1..]))
    else if s[0] == '\\' then
      if |s| >= 6 && s[1] == 'u' then Prepend(CodePoint(s[2..6]), ReadString(s[6..]))
      else if |s| >= 2 then Prepend(Unescaped(s[1]), ReadString(s[2..]))
      else Option.None
    else if s[0] as int < 32 then Option.None
    else Prepend(Some(s[0]), ReadString(s[1..]))
  }

  function Prepend(c: Option<char>, r: Option<(string, string)>): (p: Option<(string, string)>)
    ensures p.Some? ==> r.Some? && p.value.1 == r.value.1
  {
    if c.None? || r.None? then Option.None else Some(([c.value] + r.value.0, r.value.1))
  }

  lemma ReadEscaped(c: char, rest: string)
    requires c as int < 256
    ensures ReadString(EscapeChar(c) + rest) == Prepend(Some(c), ReadString(rest))
  {
    var e := EscapeChar(c);
    var s := e + rest;
    if !IsPrintable(c) {
      assert s[2..6] == ['0', '0', e[4], e[5]] && s[6..] == rest;
      assert CodePoint(s[2..6]) == Some(c);
    } else if c == '\\' || c == '\"' {
      assert s[0] == '\\' && s[1] == c && s[2..] == rest;
    } else {
      assert s[0] == c && s[1..] == rest;
    }
  }

  // Every string of bytes is read back as it was.
  lemma {:induction false} StringRoundTrip(s: string, rest: string)
    requires IsBytes(s)
    ensures ReadString(Escape(s) + "\"" + rest) == Some((s, rest))
  {
    if s == "" {
      assert Escape(s) + "\"" + rest == "\"" + rest;
    } else {
      StringRoundTrip(s[1..], rest);
      ReadEscaped(s[0], Escape(s[1..]) + "\"" + rest);
      assert Escape(s) + "\"" + rest == EscapeChar(s[0]) + (Escape(s[1..]) + "\"" + rest);
      assert s == [s[0]] + s[1..];
    }
  }

  // What becomes of each byte: control characters, 127 and 255 are written as the number, in
  // two lower case digits, and quotation marks and backslashes have a backslash in front.
  lemma EscapeForms(c: char)
    requires c as int < 256
    ensures
      var e := EscapeChar(c);
      if c as int < 32 || c as int in {127, 255} then
        && |e| == 6 && e[..4] == ['\\', 'u', '0', '0']
        && e[4] == "0123456789abcdef"[c as int / 16] && e[5] == "0123456789abcdef"[c as int % 16]
      else if c == '\"' then e == ['\\', '\"']
      else if c == '\\' then e == ['\\', '\\']
      else e == [c]
  {}

  // Nothing that is written needs to be escaped again: no control character, no 127, no 255.
  lemma {:induction false} EscapedChars(s: string, i: nat)
    requires IsBytes(s) && i < |Escape(s)|
    ensures 32 <= Escape(s)[i] as int < 255 && Escape(s)[i] as int != 127
  {
    var e := EscapeChar(s[0]);
    if i >= |e| {
      EscapedChars(s[1..], i - |e|);
    }
  }

  // ----- trees -----

  datatype Node =
    | Pair(key: string, isString: bool, value: string)
    | Array(name: string, items: Nodes)
    | Object(title: Option<string>, members: Nodes)

  datatype Nodes = Nil | Cons(head: Node, tail: Nodes)

  // A name that needs no escape.
  predicate IsName(s: string) {
    forall i :: 0 <= i < |s| ==> IsPlain(s[i])
  }

  predicate IsTokenChar(c: char) {
    'a' <= c <= 'z' || '0' <= c <= '9' || c in {'+', '-', '.', 'E'}
  }

  // The exponent of a number, section 6 of RFC 8259; there may be none.
  predicate IsExponent(s: string) {
    s == "" || (s[0] in {'e', 'E'} &&
      var i := if |s| > 1 && s[1] in {'+', '-'} then 2 else 1;
      i < |s| && Skip(IsDigit, s, i) == |s|)
  }

  // What follows the whole part of a number.
  predicate IsFraction(s: string) {
    if s != "" && s[0] == '.' then
      var i := Skip(IsDigit, s, 1);
      i > 1 && IsExponent(s[i..])
    else IsExponent(s)
  }

  // A number has no plus sign in front, and no zeros before other digits.
  predicate IsNumber(s: string) {
    var t := if s != "" && s[0] == '-' then s[1..] else s;
    var i := Skip(IsDigit, t, 0);
    i > 0 && (t[0] == '0' ==> i == 1) && IsFraction(t[i..])
  }

  // A number, or one of the literal names.
  predicate IsToken(s: string) {
    s in {"true", "false", "null"} || IsNumber(s)
  }

  predicate TokenChars(s: string) {
    forall i :: 0 <= i < |s| ==> IsTokenChar(s[i])
  }

  lemma CharsJoin(a: string, b: string)
    requires TokenChars(a) && TokenChars(b)
    ensures TokenChars(a + b)
  {}

  lemma ExponentChars(s: string)
    requires IsExponent(s)
    ensures TokenChars(s)
  {}

  lemma FractionChars(s: string)
    requires IsFraction(s)
    ensures TokenChars(s)
  {
    if s != "" && s[0] == '.' {
      var i := Skip(IsDigit, s, 1);
      ExponentChars(s[i..]);
      CharsJoin(s[..i], s[i..]);
      assert s == s[..i] + s[i..];
    } else {
      ExponentChars(s);
    }
  }

  lemma NumberChars(s: string)
    requires IsNumber(s)
    ensures s != "" && TokenChars(s)
  {
    hide IsFraction, TokenChars;
    var t := if s[0] == '-' then s[1..] else s;
    var i := Skip(IsDigit, t, 0);
    DigitChars(t[..i]);
    FractionChars(t[i..]);
    CharsJoin(t[..i], t[i..]);
    assert t == t[..i] + t[i..];
    CharsJoin("-", t);
    assert s == t || s == "-" + t;
  }

  lemma DigitChars(s: string)
    requires Digits(s)
    ensures TokenChars(s) && TokenChars("-")
  {}

  lemma IsTokenChars(s: string)
    requires IsToken(s)
    ensures s != "" && TokenChars(s)
  {
    if IsNumber(s) {
      NumberChars(s);
    }
  }

  lemma {:induction false} DecimalFirst(n: nat)
    ensures Decimal(n)[0] == '0' ==> |Decimal(n)| == 1
    ensures n > 0 ==> Decimal(n)[0] != '0'
  {
    if n >= 10 {
      DecimalFirst(n / 10);
      assert Decimal(n)[0] == Decimal(n / 10)[0];
    }
  }

  // What isonumber_from_s64 prints without a prefix is a number.
  lemma WrittenNumber(sign: string, n: nat, m: nat)
    requires m > 0 && sign in {"", "-"}
    ensures IsNumber(sign + Written(n, m))
  {
    hide Decimal, Digited, Trimmed, IsNumber, IsFraction;
    DivNat(n, m);
    DecimalFirst(n / m);
    FractionPart(Trimmed(3, Digited(n, m, 3)));
    NumberParts(sign, Decimal(n / m), Fraction(3, Digited(n, m, 3)));
  }

  lemma FractionPart(f: string)
    requires Digits(f)
    ensures
      var s := if f == "" then "" else "." + f;
      IsFraction(s) && (s == "" || !IsDigit(s[0]))
  {
    if f != "" {
      var s := "." + f;
      assert forall i :: 1 <= i < |s| ==> s[i] == f[i - 1];
      SkipTo(IsDigit, s, 1, |s|);
    }
  }

  lemma NumberParts(sign: string, d: string, f: string)
    requires sign in {"", "-"} && Digits(d) && d != "" && (d[0] == '0' ==> |d| == 1)
    requires IsFraction(f) && (f == "" || !IsDigit(f[0]))
    ensures IsNumber(sign + (d + f))
  {
    hide IsFraction;
    var s, t := sign + (d + f), d + f;
    assert if sign == "" then s == t && s[0] == d[0] else s[0] == '-' && s[1..] == t;
    assert forall i :: 0 <= i < |d| ==> t[i] == d[i];
    SkipTo(IsDigit, t, 0, |d|);
    assert t[|d|..] == f;
  }

  // What may stand in an object, and what in an array.
  predicate GoodNode(n: Node, inArray: bool) {
    match n
    case Pair(k, isString, v) => !inArray && IsName(k) && if isString then IsBytes(v) else IsToken(v)
    case Array(name, items) => !inArray && IsName(name) && GoodNodes(items, true)
    case Object(title, members) =>
      (inArray <==> title == Option.None) && (title.Some? ==> IsName(title.value)) && GoodNodes(members, false)
  }

  predicate GoodNodes(ns: Nodes, inArray: bool) {
    ns.Nil? || (GoodNode(ns.head, inArray) && GoodNodes(ns.tail, inArray))
  }

  // _json_printvalue
  function ValueText(txt: string, delimiter: bool): string {
    if delimiter then "\"" + Escape(txt) + "\"" else (if txt == "" then "0" else "") + Escape(txt)
  }

  function NodeText(n: Node): string {
    match n
    case Pair(k, isString, v) => "\"" + k + "\":" + ValueText(v, isString)
    case Array(name, items) => "\"" + name + "\": [" + NodesText(items) + "]"
    case Object(title, members) =>
      (if title.Some? then "\"" + title.value + "\": {" else "{") + NodesText(members) + "}"
  }

  // The nodes with a comma between each two of them.
  function NodesText(ns: Nodes): string {
    match ns
    case Nil => ""
    case Cons(n, Nil) => NodeText(n)
    case Cons(n, more) => NodeText(n) + "," + NodesText(more)
  }

  class Session {
    var out: string
    var empty: bool

    // json_init_session
    constructor ()
      ensures out == "" && empty
    {
      out, empty := "", true;
    }

    // json_start_array
    method StartArray(name: string)
      modifies this
      ensures out == old(out) + Comma(old(empty)) + "\"" + name + "\": [" && empty
    {
      if !empty {
        out := out + ",";
        empty := true;
      }
      out := out + "\"" + name + "\": [";
    }

    // json_end_array
    method EndArray()
      modifies this
      ensures out == old(out) + "]" && !empty
    {
      empty := false;
      out := out + "]";
    }

    // json_start_object
    method StartObject(name: Option<string>)
      modifies this
      ensures out == old(out) + Comma(old(empty)) + (if name.Some? then "\"" + name.value + "\": {" else "{") && empty
    {
      if !empty {
        out := out + ",";
        empty := true;
      }
      if name.Some? {
        out := out + "\"" + name.value + "\": {";
      } else {
        out := out + "{";
      }
    }

    // json_end_object
    method EndObject()
      modifies this
      ensures out == old(out) + "}" && !empty
    {
      empty := false;
      out := out + "}";
    }

    // json_print
    method Print(key: string, isString: bool, value: string)
      modifies this
      ensures out == old(out) + Comma(old(empty)) + "\"" + key + "\":" + ValueText(value, isString) && !empty
    {
      if !empty {
        out := out + ",";
      }
      empty := false;
      out := out + "\"" + key + "\":";
      PrintValue(value, isString);
    }

    // _json_printvalue
    method PrintValue(text: string, delimiter: bool)
      modifies this`out
      ensures out == old(out) + ValueText(text, delimiter)
    {
      if delimiter {
        out := out + "\"";
      } else if text == "" {
        out := out + "0";
      }
      PrintEscaped(text);
      if delimiter {
        out := out + "\"";
      }
    }

    // The loop over the text, which copies whole stretches between two escapes.
    method PrintEscaped(text: string)
      modifies this`out
      ensures out == old(out) + Escape(text)
    {
      hide Escape, EscapeChar;
      ghost var start := out;
      EscapeNone();
      var ptr, txt := 0, 0;
      assert text[..0] == "";
      while ptr < |text|
        invariant 0 <= txt <= ptr <= |text| && out == start + Escape(text[..txt])
        invariant forall i :: txt <= i < ptr ==> IsPlain(text[i])
      {
        var unprintable := !IsPrintable(text[ptr]);
        if unprintable || text[ptr] == '\\' || text[ptr] == '\"' {
          Flush(text, txt, ptr);
          EscapeNext(text, ptr);
          EscapeCharIs(text[ptr]);
          if ptr != txt {
            out := out + text[txt..ptr];
          }
          assert out == start + Escape(text[..ptr]);
          if unprintable {
            out := out + ("\\u00" + [HexDigit(text[ptr] as int % 256 / 16), HexDigit(text[ptr] as int % 16)]);
          } else {
            out := out + ['\\', text[ptr]];
          }
          ptr := ptr + 1;
          txt := ptr;
        } else {
          ptr := ptr + 1;
        }
      }
      Flush(text, txt, ptr);
      assert text[..ptr] == text && text[txt..ptr] == text[txt..];
      out := out + text[txt..];
    }

    lemma EscapeNone()
      ensures Escape("") == ""
    {}

    lemma EscapeCharIs(c: char)
      ensures EscapeChar(c) ==
        if !IsPrintable(c) then "\\u00" + [HexDigit(c as int % 256 / 16), HexDigit(c as int % 16)]
        else if c == '\\' || c == '\"' then ['\\', c] else [c]
    {}

    lemma Flush(text: string, txt: nat, ptr: nat)
      requires txt <= ptr <= |text| && forall i :: txt <= i < ptr ==> IsPlain(text[i])
      ensures Escape(text[..ptr]) == Escape(text[..txt]) + text[txt..ptr]
    {
      assert text[..ptr] == text[..txt] + text[txt..ptr];
      EscapeConcat(text[..txt], text[txt..ptr]);
      EscapePlain(text[txt..ptr]);
    }

    lemma EscapeNext(text: string, ptr: nat)
      requires ptr < |text|
      ensures Escape(text[..ptr + 1]) == Escape(text[..ptr]) + EscapeChar(text[ptr])
    {
      assert text[..ptr + 1] == text[..ptr] + [text[ptr]];
      EscapeConcat(text[..ptr], [text[ptr]]);
      assert [text[ptr]][1..] == "";
    }

    // A client that prints a tree through the session.
    method Emit(n: Node)
      modifies this
      decreases n
      ensures out == old(out) + Comma(old(empty)) + NodeText(n) && !empty
    {
      hide NodeText, NodesText, Comma, ValueText;
      ghost var before := out + Comma(empty);
      match n {
        case Pair(k, isString, v) =>
          Print(k, isString, v);
          PairText(before, k, isString, v);
        case Array(name, items) =>
          StartArray(name);
          EmitAll(items);
          EndArray();
          ArrayJoined(before, name, items);
        case Object(title, members) =>
          StartObject(title);
          EmitAll(members);
          EndObject();
          ObjectJoined(before, title, members);
      }
    }

    method EmitAll(ns: Nodes)
      modifies this
      decreases ns
      ensures out == old(out) + (if ns.Nil? then "" else Comma(old(empty))) + NodesText(ns)
      ensures empty == if ns.Nil? then old(empty) else false
    {
      hide NodeText, NodesText, Comma;
      NodesJoined(out + Comma(empty), ns);
      match ns {
        case Nil =>
          assert out + "" + "" == out;
        case Cons(n, more) =>
          Emit(n);
          EmitAll(more);
      }
    }

    lemma PairText(before: string, k: string, isString: bool, v: string)
      ensures before + "\"" + k + "\":" + ValueText(v, isString) == before + NodeText(Pair(k, isString, v))
    {
      hide ValueText;
    }

    lemma ArrayJoined(before: string, name: string, items: Nodes)
      ensures before + "\"" + name + "\": [" + (if items.Nil? then "" else Comma(true)) + NodesText(items) + "]" ==
        before + NodeText(Array(name, items))
    {
      hide NodesText;
    }

    lemma ObjectJoined(before: string, title: Option<string>, members: Nodes)
      ensures before + (if title.Some? then "\"" + title.value + "\": {" else "{") +
        (if members.Nil? then "" else Comma(true)) + NodesText(members) + "}" ==
          before + NodeText(Object(title, members))
    {
      hide NodesText;
    }

    lemma NodesJoined(before: string, ns: Nodes)
      ensures ns.Nil? ==> NodesText(ns) == ""
      ensures ns.Cons? ==>
        before + NodeText(ns.head) + (if ns.tail.Nil? then "" else Comma(false)) + NodesText(ns.tail) ==
          before + NodesText(ns)
    {
      hide NodeText;
    }
  }

  function Comma(empty: bool): string {
    if empty then "" else ","
  }

  // ----- reading -----

  // Blanks between a colon and what follows it.
  function AfterBlanks(s: string): (r: string)
    ensures |r| <= |s|
  {
    s[Skip(IsBlank, s, 0)..]
  }

  // A member of an object or an item of an array, and what follows it.
  function ReadNode(s: string, inArray: bool): (r: Option<(Node, string)>)
    ensures r.Some? ==> |r.value.1| < |s|
    decreases |s|, 0
  {
    if s == "" then Option.None
    else if inArray then
      if s[0] == '{' then MakeObject(Option.None, ReadNodes(s[1..], false, '}')) else Option.None
    else if s[0] != '\"' || ReadString(s[1..]).None? then Option.None
    else
      var (key, more) := ReadString(s[1..]).value;
      if more == "" || more[0] != ':' then Option.None else ReadMember(key, AfterBlanks(more[1..]))
  }

  // What stands behind a key.
  function ReadMember(key: string, s: string): (r: Option<(Node, string)>)
    ensures r.Some? ==> |r.value.1| <= |s|
    decreases |s|, 2
  {
    if s == "" then Option.None
    else if s[0] == '[' then MakeArray(key, ReadNodes(s[1..], true, ']'))
    else if s[0] == '{' then MakeObject(Some(key), ReadNodes(s[1..], false, '}'))
    else if s[0] == '\"' then
      var v := ReadString(s[1..]);
      if v.None? then Option.None else Some((Pair(key, true, v.value.0), v.value.1))
    else
      var k := Skip(IsTokenChar, s, 0);
      if IsToken(s[..k]) then Some((Pair(key, false, s[..k]), s[k..])) else Option.None
  }

  function MakeObject(title: Option<string>, r: Option<(Nodes, string)>): Option<(Node, string)> {
    if r.None? then Option.None else Some((Object(title, r.value.0), r.value.1))
  }

  function MakeArray(name: string, r: Option<(Nodes, string)>): Option<(Node, string)> {
    if r.None? then Option.None else Some((Array(name, r.value.0), r.value.1))
  }

  // The nodes up to the closing bracket: none, or some with commas between them.
  function ReadNodes(s: string, inArray: bool, close: char): (r: Option<(Nodes, string)>)
    ensures r.Some? ==> |r.value.1| < |s|
    decreases |s|, 2
  {
    if s != "" && s[0] == close then Some((Nil, s[1..])) else ReadSome(s, inArray, close)
  }

  function ReadSome(s: string, inArray: bool, close: char): (r: Option<(Nodes, string)>)
    ensures r.Some? ==> |r.value.1| < |s|
    decreases |s|, 1
  {
    var n := ReadNode(s, inArray);
    if n.None? || n.value.1 == "" then Option.None else
    var rest := n.value.1;
    if rest[0] == close then Some((Cons(n.value.0, Nil), rest[1..]))
    else if rest[0] != ',' then Option.None
    else
      var more := ReadSome(rest[1..], inArray, close);
      if more.None? then Option.None else Some((Cons(n.value.0, more.value.0), more.value.1))
  }

  lemma {:induction false} ReadName(k: string, rest: string)
    requires IsName(k)
    ensures ReadString(k + "\"" + rest) == Some((k, rest))
  {
    var s := k + "\"" + rest;
    if k == "" {
      assert s == "\"" + rest;
    } else {
      ReadName(k[1..], rest);
      assert s[1..] == k[1..] + "\"" + rest && s[0] == k[0];
      assert k == [k[0]] + k[1..];
    }
  }

  lemma NoBlanks(s: string)
    requires s == "" || s[0] != ' '
    ensures AfterBlanks(s) == s && AfterBlanks(" " + s) == s
  {
    SkipTo(IsBlank, s, 0, 0);
    assert s[0..] == s;
    var t := " " + s;
    assert t[1..] == s && (s != "" ==> t[1] == s[0]);
    SkipTo(IsBlank, t, 0, 1);
  }

  // A key with its colon and, behind arrays and objects, a blank.
  lemma ReadKey(k: string, gap: string, s: string)
    requires IsName(k) && gap in {"", " "} && (s == "" || s[0] != ' ')
    ensures ReadNode("\"" + k + "\":" + gap + s, false) == ReadMember(k, s)
  {
    hide ReadMember, ReadString, AfterBlanks;
    var t := "\"" + k + "\":" + gap + s;
    assert t[1..] == k + "\"" + (":" + gap + s);
    ReadName(k, ":" + gap + s);
    var more := ":" + gap + s;
    assert more[1..] == gap + s;
    assert "" + s == s;
    NoBlanks(s);
  }

  ghost predicate Ends(rest: string) {
    rest == "" || !IsTokenChar(rest[0])
  }

  lemma ReadToken(key: string, v: string, rest: string)
    requires IsToken(v) && Ends(rest)
    ensures ReadMember(key, v + rest) == Some((Pair(key, false, v), rest))
  {
    hide IsToken;
    IsTokenChars(v);
    var s := v + rest;
    assert s[..|v|] == v && s[|v|..] == rest && s[0] == v[0];
    assert forall i :: 0 <= i < |v| ==> s[i] == v[i];
    SkipTo(IsTokenChar, s, 0, |v|);
  }

  lemma ReadQuoted(key: string, v: string, rest: string)
    requires IsBytes(v)
    ensures ReadMember(key, "\"" + Escape(v) + "\"" + rest) == Some((Pair(key, true, v), rest))
  {
    var s := "\"" + Escape(v) + "\"" + rest;
    assert s[1..] == Escape(v) + "\"" + rest;
    StringRoundTrip(v, rest);
  }

  lemma {:induction false} TokenPlain(v: string)
    requires IsToken(v)
    ensures Escape(v) == v
  {
    IsTokenChars(v);
    EscapePlain(v);
  }

  // A tree that was printed is read back as it was.
  lemma {:induction false} NodeRoundTrip(n: Node, inArray: bool, rest: string)
    requires GoodNode(n, inArray) && Ends(rest)
    ensures ReadNode(NodeText(n) + rest, inArray) == Some((n, rest))
    decreases n, 0
  {
    match n {
      case Pair(k, isString, v) =>
        PairRoundTrip(k, isString, v, rest);
      case Array(name, items) =>
        NodesRoundTrip(items, true, ']', rest);
        ArrayText(name, NodesText(items), rest);
      case Object(title, members) =>
        NodesRoundTrip(members, false, '}', rest);
        ObjectText(title, NodesText(members), rest);
    }
  }

  lemma PairRoundTrip(k: string, isString: bool, v: string, rest: string)
    requires IsName(k) && (if isString then IsBytes(v) else IsToken(v)) && Ends(rest)
    ensures ReadNode(NodeText(Pair(k, isString, v)) + rest, false) == Some((Pair(k, isString, v), rest))
  {
    hide ReadNode, ReadMember, Escape;
    var text := ValueText(v, isString);
    if isString {
      ReadQuoted(k, v, rest);
    } else {
      TokenPlain(v);
      ReadToken(k, v, rest);
      assert "" + v == v;
    }
    ReadKey(k, "", text + rest);
    PairJoined(k, text, rest);
  }

  lemma PairJoined(k: string, text: string, rest: string)
    ensures "\"" + k + "\":" + text + rest == "\"" + k + "\":" + "" + (text + rest)
  {}

  lemma ArrayText(name: string, items: string, rest: string)
    requires IsName(name)
    ensures ReadNode("\"" + name + "\": [" + items + "]" + rest, false) ==
      MakeArray(name, ReadNodes(items + "]" + rest, true, ']'))
  {
    hide ReadNode, ReadNodes;
    var s := "[" + (items + "]" + rest);
    ReadKey(name, " ", s);
    assert "\"" + name + "\": [" + items + "]" + rest == "\"" + name + "\":" + " " + s;
    assert s[1..] == items + "]" + rest;
  }

  lemma ObjectText(title: Option<string>, members: string, rest: string)
    requires title.Some? ==> IsName(title.value)
    ensures ReadNode((if title.Some? then "\"" + title.value + "\": {" else "{") + members + "}" + rest, title.None?) ==
      MakeObject(title, ReadNodes(members + "}" + rest, false, '}'))
  {
    hide ReadNodes;
    var s := "{" + (members + "}" + rest);
    assert s[1..] == members + "}" + rest;
    if title.Some? {
      ReadKey(title.value, " ", s);
      assert "\"" + title.value + "\": {" + members + "}" + rest == "\"" + title.value + "\":" + " " + s;
    } else {
      assert "{" + members + "}" + rest == s;
    }
  }

  lemma {:induction false} NodesRoundTrip(ns: Nodes, inArray: bool, close: char, rest: string)
    requires GoodNodes(ns, inArray) && close == (if inArray then ']' else '}')
    ensures ReadNodes(NodesText(ns) + [close] + rest, inArray, close) == Some((ns, rest))
    decreases ns, 1
  {
    if ns.Cons? {
      SomeRoundTrip(ns, inArray, close, rest);
      NodesStart(ns, inArray);
    } else {
      assert NodesText(ns) + [close] + rest == [close] + rest;
    }
  }

  lemma NodesStart(ns: Nodes, inArray: bool)
    requires ns.Cons? && GoodNodes(ns, inArray)
    ensures NodesText(ns) != "" && NodesText(ns)[0] in {'\"', '{'}
  {
    assert NodeText(ns.head) != "" && NodeText(ns.head)[0] in {'\"', '{'};
    assert NodesText(ns)[0] == NodeText(ns.head)[0];
  }

  lemma {:induction false} SomeRoundTrip(ns: Nodes, inArray: bool, close: char, rest: string)
    requires ns.Cons? && GoodNodes(ns, inArray) && close == (if inArray then ']' else '}')
    ensures ReadSome(NodesText(ns) + [close] + rest, inArray, close) == Some((ns, rest))
    decreases ns, 0
  {
    hide ReadNode, NodeText, GoodNode;
    match ns {
      case Cons(n, Nil) =>
        NodeRoundTrip(n, inArray, [close] + rest);
        assert NodesText(ns) + [close] + rest == NodeText(n) + ([close] + rest);
      case Cons(n, more) =>
        var after := NodesText(more) + [close] + rest;
        NodeRoundTrip(n, inArray, "," + after);
        SomeRoundTrip(more, inArray, close, rest);
        assert NodesText(ns) + [close] + rest == NodeText(n) + ("," + after);
        assert ("," + after)[1..] == after;
    }
  }

  // An empty value that is not a string comes back as the number 0.
  lemma EmptyValue(k: string)
    requires IsName(k)
    ensures NodeText(Pair(k, false, "")) == NodeText(Pair(k, false, "0"))
    ensures ReadNode(NodeText(Pair(k, false, "")), false) == Some((Pair(k, false, "0"), ""))
  {
    TokenPlain("0");
    var t := NodeText(Pair(k, false, "0"));
    assert t + "" == t;
    PairRoundTrip(k, false, "0", "");
  }
}
