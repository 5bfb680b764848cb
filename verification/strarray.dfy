// src-api/common/string.c: a list of strings packed into one block of memory.
module StringArrays {
  const NUL: char := '\0'

  // What a char* can point to.
  type CString = s: string | NUL !in s

  function Packed(list: seq<CString>): (b: string) {
    if list == [] then [] else list[0] + [NUL] + Packed(list[1..])
  }

  lemma {:induction false} PackedConcat(a: seq<CString>, b: seq<CString>)
    ensures Packed(a + b) == Packed(a) + Packed(b)
  {
    if a == [] {
      assert a + b == b;
    } else {
      assert (a + b)[1..] == a[1..] + b;
      PackedConcat(a[1..], b);
    }
  }

  lemma PackedOne(s: CString)
    ensures Packed([s]) == s + [NUL]
  {
    assert Packed([s][1..]) == [];
  }

  // strlen of the string that starts at i
  function Strlen(b: string, i: nat): (n: nat)
    requires exists k :: i <= k < |b| && b[k] == NUL
    ensures i + n < |b| && b[i + n] == NUL && NUL !in b[i..i + n]
    decreases |b| - i
  {
    if b[i] == NUL then 0 else
      var n := Strlen(b, i + 1);
      assert b[i..i + 1 + n] == [b[i]] + b[i + 1..i + 1 + n];
      1 + n
  }

  lemma StrlenIs(b: string, i: nat, s: CString)
    requires i + |s| < |b| && b[i..i + |s|] == s && b[i + |s|] == NUL
    ensures Strlen(b, i) == |s|
  {
    var n := Strlen(b, i);
    if n < |s| {
      NotThere(b, i, |s|, n);
    } else if n > |s| {
      NotThere(b, i, n, |s|);
    }
  }

  lemma NotThere(b: string, i: int, n: int, k: int)
    requires 0 <= i && 0 <= k < n && i + n <= |b| && NUL !in b[i..i + n]
    ensures b[i + k] != NUL
  {
    assert b[i..i + n][k] == b[i + k];
  }

  lemma PackedEmpty(list: seq<CString>)
    ensures Packed(list) == [] <==> list == []
  {}

  // The k-th string starts behind those before it.
  lemma PackedAt(list: seq<CString>, k: nat)
    requires k < |list|
    ensures
      var b, at := Packed(list), |Packed(list[..k])|;
      && at + |list[k]| < |b| && b[at..at + |list[k]|] == list[k] && b[at + |list[k]|] == NUL
      && |Packed(list[..k + 1])| == at + |list[k]| + 1
      && b == Packed(list[..k]) + (list[k] + [NUL]) + Packed(list[k + 1..])
  {
    assert list == list[..k] + ([list[k]] + list[k + 1..]);
    assert list[..k + 1] == list[..k] + [list[k]];
    PackedConcat(list[..k], [list[k]] + list[k + 1..]);
    PackedConcat([list[k]], list[k + 1..]);
    PackedConcat(list[..k], [list[k]]);
    PackedOne(list[k]);
  }

  // The block determines the list.
  lemma {:induction false} PackedInjective(a: seq<CString>, b: seq<CString>)
    requires Packed(a) == Packed(b)
    ensures a == b
  {
    hide Packed;
    PackedEmpty(a);
    PackedEmpty(b);
    if a != [] && b != [] {
      PackedEmpty(a[..0]);
      PackedEmpty(b[..0]);
      PackedAt(a, 0);
      PackedAt(b, 0);
      StrlenIs(Packed(a), 0, a[0]);
      StrlenIs(Packed(b), 0, b[0]);
      var n := |a[0]|;
      assert Packed(a)[..n] == a[0] && Packed(b)[..n] == b[0];
      assert Packed(a)[n + 1..] == Packed(a[1..]) && Packed(b)[n + 1..] == Packed(b[1..]);
      PackedInjective(a[1..], b[1..]);
      assert a == [a[0]] + a[1..] && b == [b[0]] + b[1..];
    }
  }

  // memcmp on blocks of one size: the difference at the first place they differ
  function Memcmp(a: string, b: string): (r: int)
    requires |a| == |b|
    ensures r == 0 <==> a == b
  {
    if a == [] then 0
    else if a[0] != b[0] then a[0] as int - b[0] as int
    else
      assert a == [a[0]] + a[1..] && b == [b[0]] + b[1..];
      Memcmp(a[1..], b[1..])
  }

  // a comes first: it is smaller at the first place they differ, or ends there.
  predicate Before(a: string, b: string) {
    b != [] && (a == [] || a[0] < b[0] || (a[0] == b[0] && Before(a[1..], b[1..])))
  }

  lemma {:induction false} MemcmpBefore(a: string, b: string, n: nat)
    requires n == if |a| > |b| then |b| else |a|
    ensures
      var r := Memcmp(a[..n], b[..n]);
      && (Before(a, b) <==> r < 0 || (r == 0 && |a| < |b|))
      && (Before(b, a) <==> r > 0 || (r == 0 && |b| < |a|))
  {
    if n > 0 {
      assert a[..n][1..] == a[1..][..n - 1] && b[..n][1..] == b[1..][..n - 1];
      if a[0] == b[0] {
        MemcmpBefore(a[1..], b[1..], n - 1);
      }
    }
  }

  class StringArray {
    var value: array?<char>
    var length: nat
    ghost var list: seq<CString>

    ghost predicate Valid()
      reads this, value
    {
      && (value == null <==> list == [])
      && length == |Packed(list)|
      && (value != null ==> length <= value.Length && value[..length] == Packed(list))
    }

    // strarray_init
    constructor ()
      ensures Valid() && list == []
    {
      value, length, list := null, 0, [];
    }

    // strarray_free
    method Free()
      modifies this
      ensures Valid() && list == []
    {
      value, length, list := null, 0, [];
    }

    // realloc of the block, which keeps what fits into the new size
    method Realloc(size: nat, fails: bool) returns (p: array?<char>)
      requires value != null ==> length <= value.Length
      ensures p == null <==> fails
      ensures p != null ==> fresh(p) && p.Length == size
      ensures p != null && value != null ==> forall i :: 0 <= i < length && i < size ==> p[i] == value[i]
    {
      if fails {
        return null;
      }
      var block := new char[size](i => NUL);
      if value != null {
        forall i | 0 <= i < length && i < size {
          block[i] := value[i];
        }
      }
      p := block;
    }

    // strarray_append
    method Append(s: CString, fails: bool) returns (result: int)
      requires Valid()
      modifies this
      ensures Valid() && result == (if fails then -1 else 0)
      ensures list == if fails then old(list) else old(list) + [s]
      ensures !fails ==> fresh(value)
      ensures fails ==> value == old(value)
    {
      PackedConcat(list, [s]);
      PackedOne(s);
      var newLength := length + |s| + 1;
      var p := Realloc(newLength, fails);
      if p == null {
        return -1;
      }
      var text := s + [NUL];
      forall i | 0 <= i < |text| {
        p[length + i] := text[i];
      }
      assert p[..length] == Packed(list);
      assert p[..newLength] == Packed(list) + text;
      value, length, list := p, newLength, list + [s];
      return 0;
    }

    // strarray_prepend
    method Prepend(s: CString, fails: bool) returns (result: int)
      requires Valid()
      modifies this
      ensures Valid() && result == (if fails then -1 else 0)
      ensures list == if fails then old(list) else [s] + old(list)
      ensures !fails ==> fresh(value)
      ensures fails ==> value == old(value)
    {
      PackedConcat([s], list);
      PackedOne(s);
      var newLength := length + |s| + 1;
      var p := Realloc(newLength, fails);
      if p == null {
        return -1;
      }
      var text := s + [NUL];
      assert p[..length] == Packed(list);
      forall i | 0 <= i < length {
        p[|text| + i] := p[i];
      }
      assert p[|text|..newLength] == Packed(list);
      forall i | 0 <= i < |text| {
        p[i] := text[i];
      }
      assert p[..newLength] == text + Packed(list);
      value, length, list := p, newLength, [s] + list;
      return 0;
    }

    // The memmove of a removal.
    method CloseGap(block: array<char>, element: nat, len: nat, end: nat)
      requires element <= end && end + len <= block.Length
      modifies block
      ensures block[..end] == old(block[..element]) + old(block[element + len..end + len])
    {
      forall i | 0 <= i < end - element {
        block[element + i] := block[element + len + i];
      }
      assert block[..element] == old(block[..element]);
      assert block[element..end] == old(block[element + len..end + len]);
      assert block[..end] == block[..element] + block[element..end];
    }

    lemma Gap(block: string, l: seq<CString>, k: nat)
      requires k < |l| && block == Packed(l)
      ensures
        var at, len := |Packed(l[..k])|, |l[k]| + 1;
        && at + len <= |block| && block[at + |l[k]|] == NUL && Strlen(block, at) + 1 == len
        && block[..at] + block[at + len..] == Packed(l[..k] + l[k + 1..])
    {
      PackedAt(l, k);
      StrlenIs(block, |Packed(l[..k])|, l[k]);
      PackedConcat(l[..k], l[k + 1..]);
    }

    // strarray_remove_ext for the element that starts at this place, the k-th string
    method Remove(element: nat, ghost k: nat, resize: bool, fails: bool)
      requires Valid() && k < |list| && element == |Packed(list[..k])|
      modifies this, value
      ensures Valid() && list == old(list)[..k] + old(list)[k + 1..]
      ensures value == null || value == old(value) || fresh(value)
    {
      hide Packed, Strlen;
      PackedAt(list, k);
      Gap(value[..length], list, k);
      OnlyOne(list, k);
      ghost var block, rest := value[..length], list[..k] + list[k + 1..];
      var len := Strlen(value[..length], element) + 1;
      if len == length {
        Free();
        return;
      }
      length := length - len;
      if element <= length {
        CloseGap(value, element, len, length);
        assert old(value[..element]) == block[..element];
        assert old(value[element + len..length]) == block[element + len..];
      }
      assert value[..length] == Packed(rest);
      list := rest;
      if !resize {
        return;
      }
      var p := Realloc(length, fails);
      if p == null {
        return;
      }
      assert p[..length] == value[..length];
      value := p;
    }

    lemma OnlyOne(l: seq<CString>, k: nat)
      requires k < |l|
      ensures |l[k]| + 1 == |Packed(l)| <==> l[..k] + l[k + 1..] == []
    {
      PackedAt(l, k);
      PackedEmpty(l[..k]);
      PackedEmpty(l[k + 1..]);
    }

    // strarray_get_count
    method GetCount() returns (count: nat)
      requires Valid()
      ensures count == |list|
    {
      count := 0;
      if value == null {
        return;
      }
      var ptr := 0;
      while ptr < length
        invariant count <= |list| && ptr == |Packed(list[..count])|
        decreases |list| - count
      {
        Turn(count, ptr);
        ptr := ptr + Strlen(value[..length], ptr) + 1;
        count := count + 1;
      }
      Done(count);
    }

    // strarray_get: where the string starts, or no place
    method Get(idx: nat) returns (found: bool, ptr: nat)
      requires Valid()
      ensures found <==> idx < |list|
      ensures found ==> ptr == |Packed(list[..idx])| && StringAt(ptr, idx)
    {
      ptr := 0;
      if value == null {
        return false, 0;
      }
      var count := 0;
      while ptr < length
        invariant 0 <= count <= |list| && count <= idx && ptr == |Packed(list[..count])|
        decreases |list| - count
      {
        Turn(count, ptr);
        if count == idx {
          return true, ptr;
        }
        ptr := ptr + Strlen(value[..length], ptr) + 1;
        count := count + 1;
      }
      Done(count);
      return false, 0;
    }

    // The bytes behind ptr are those of the k-th string.
    ghost predicate StringAt(ptr: nat, k: nat)
      reads this, value
    {
      && value != null && k < |list| && ptr + |list[k]| < length <= value.Length
      && value[ptr..ptr + |list[k]|] == list[k] && value[ptr + |list[k]|] == NUL
    }

    lemma Turn(count: nat, ptr: nat)
      requires Valid() && value != null && count <= |list| && ptr == |Packed(list[..count])| && ptr < length
      ensures count < |list| && StringAt(ptr, count)
      ensures Strlen(value[..length], ptr) == |list[count]| && |Packed(list[..count + 1])| == ptr + |list[count]| + 1
    {
      assert list[..|list|] == list;
      PackedAt(list, count);
      StrlenIs(value[..length], ptr, list[count]);
      assert value[..length][ptr..ptr + |list[count]|] == value[ptr..ptr + |list[count]|];
    }

    lemma Done(count: nat)
      requires Valid() && count <= |list| && |Packed(list[..count])| >= length
      ensures count == |list|
    {
      if count < |list| {
        PackedAt(list, count);
        assert false;
      }
    }
  }

  // strarray_cmp
  method Compare(a: StringArray?, b: StringArray?) returns (result: int)
    requires a != null ==> a.Valid()
    requires b != null ==> b.Valid()
    ensures result == 0 <==> List(a) == List(b)
    ensures result < 0 <==> Before(Packed(List(a)), Packed(List(b)))
    ensures result > 0 <==> Before(Packed(List(b)), Packed(List(a)))
  {
    hide Before, Memcmp, Packed;
    PackedEmpty(List(a));
    PackedEmpty(List(b));
    BeforeEmpty(Packed(List(a)));
    BeforeEmpty(Packed(List(b)));
    if Packed(List(a)) == Packed(List(b)) {
      PackedInjective(List(a), List(b));
    }
    if a == null || a.value == null {
      return if b == null || b.value == null then 0 else -1;
    }
    if b == null || b.value == null {
      return 1;
    }
    var minLen := if a.length > b.length then b.length else a.length;
    MemcmpBefore(Packed(a.list), Packed(b.list), minLen);
    assert a.value[..minLen] == Packed(a.list)[..minLen] && b.value[..minLen] == Packed(b.list)[..minLen];
    result := Memcmp(a.value[..minLen], b.value[..minLen]);
    SameBlocks(Packed(a.list), Packed(b.list), minLen);
    if result == 0 {
      if a.length > b.length {
        return 1;
      }
      if a.length < b.length {
        return -1;
      }
    }
  }

  lemma BeforeEmpty(b: string)
    ensures Before([], b) <==> b != []
    ensures !Before(b, [])
  {}

  lemma SameBlocks(a: string, b: string, n: nat)
    requires n == if |a| > |b| then |b| else |a|
    ensures Memcmp(a[..n], b[..n]) == 0 && |a| == |b| <==> a == b
  {
    if |a| == |b| {
      assert a[..n] == a && b[..n] == b;
    }
  }

  ghost function List(a: StringArray?): seq<CString>
    reads a
  {
    if a == null then [] else a.list
  }
}
