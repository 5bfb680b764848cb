// src-api/config/cfg_db.c: a configuration database.
module ConfigDbs {
  import opened Options
  import opened StringArrays

  // A name of a type, section or entry; the trees do not tell upper from lower case.
  type Key(==, !new)

  // A section of one type; the unnamed one holds the defaults of the others.
  datatype Place = Place(kind: Key, name: Option<Key>)

  type Entries = map<Key, seq<CString>>
  type Sections = map<Place, Entries>

  function EntriesOf(sections: Sections, p: Place): Entries {
    if p in sections then sections[p] else map[]
  }

  function ListOf(entries: Entries, e: Key): seq<CString> {
    if e in entries then entries[e] else []
  }

  // What one call of _cfg_db_append copies.
  datatype Filter = Filter(kind: Option<Key>, name: Option<Key>, entry: Option<Key>) {
    predicate Takes(p: Place) {
      (kind.Some? ==> p.kind == kind.value) && (name.Some? ==> p.name == name)
    }

    predicate TakesEntry(e: Key) {
      entry.Some? ==> e == entry.value
    }
  }

  // The entries of a section after those of another were appended to it.
  function MergedEntries(dst: Entries, src: Entries, f: Filter): Entries {
    map e | e in dst.Keys + src.Keys && (e in dst || f.TakesEntry(e)) ::
      ListOf(dst, e) + if f.TakesEntry(e) then ListOf(src, e) else []
  }

  function Merged(dst: Sections, src: Sections, f: Filter): Sections {
    map p | p in dst.Keys + src.Keys && (p in dst || f.Takes(p)) ::
      if p in src && f.Takes(p) then MergedEntries(EntriesOf(dst, p), src[p], f) else dst[p]
  }

  // A list that was copied in part.
  ghost predicate PartList(dst: seq<CString>, src: seq<CString>, now: seq<CString>) {
    dst <= now <= dst + src
  }

  // Entries that were copied in part.
  ghost predicate PartEntries(dst: Entries, src: Entries, f: Filter, now: Entries) {
    forall e :: PartList(ListOf(dst, e), if f.TakesEntry(e) then ListOf(src, e) else [], ListOf(now, e))
  }

  // A database that was copied in part.
  ghost predicate Partly(dst: Sections, src: Sections, f: Filter, now: Sections) {
    && (forall p :: p in dst ==> p in now) && (forall p :: p in now ==> p in dst || (p in src && f.Takes(p)))
    && (forall p :: PartEntries(EntriesOf(dst, p), if f.Takes(p) then EntriesOf(src, p) else map[], f, EntriesOf(now, p)))
  }

  // None or the first few of the list have been appended.
  ghost predicate StoppedIn(was: Sections, p: Place, e: Key, list: seq<CString>, now: Sections)
    requires p in was
  {
    now == was || exists i :: 0 < i < |list| && now == was[p := was[p][e := ListOf(was[p], e) + list[..i]]]
  }

  function Kinds(src: Sections, f: Filter): set<Key> {
    set p | p in src && f.Takes(p) :: p.kind
  }

  // Which of the allocations on the way to a new value find memory.
  datatype Memory = Memory(kind: bool, section: bool, entry: bool, value: bool)

  const PLENTY := Memory(true, true, true, true)

  class Database {
    var types: set<Key>
    var sections: Sections

    // Sections are filed under an existing type, and no entry is without a value.
    ghost predicate Valid()
      reads this
    {
      && (forall p :: p in sections ==> p.kind in types)
      && (forall p, e :: p in sections && e in sections[p] ==> sections[p][e] != [])
    }

    // cfg_db_add
    constructor ()
      ensures Valid() && types == {} && sections == map[]
    {
      types, sections := {}, map[];
    }

    // _cfg_db_add_section
    method AddSection(p: Place, memory: Memory) returns (ok: bool, newSection: bool)
      requires Valid()
      modifies this
      ensures Valid()
      ensures ok == ((p.kind in old(types) || memory.kind) && (p in old(sections) || memory.section))
      ensures types == if p.kind in old(types) || memory.kind then old(types) + {p.kind} else old(types)
      ensures sections == if ok then old(sections)[p := EntriesOf(old(sections), p)] else old(sections)
      ensures ok ==> newSection == (p !in old(sections))
    {
      ok, newSection := true, false;
      if p.kind !in types {
        if !memory.kind {
          return false, false;
        }
        types := types + {p.kind};
        newSection := true;
      }
      if p !in sections {
        newSection := true;
        if !memory.section {
          return false, newSection;
        }
        sections := sections[p := map[]];
      }
    }

    // cfg_db_set_entry_ext. Without memory it takes back what it has added; the values it
    // was to replace are gone by then, and their entry stays behind without any.
    method SetEntry(p: Place, e: Key, value: CString, append: bool, front: bool, memory: Memory) returns (ok: bool)
      requires Valid()
      modifies this
      ensures ok ==
        ((p.kind in old(types) || memory.kind) && (p in old(sections) || memory.section)
        && (e in EntriesOf(old(sections), p) || memory.entry) && memory.value)
      ensures types == if p.kind in old(types) || memory.kind then old(types) + {p.kind} else old(types)
      ensures ok ==>
        var was := if append then ListOf(EntriesOf(old(sections), p), e) else [];
        var list := if front then [value] + was else was + [value];
        sections == old(sections)[p := EntriesOf(old(sections), p)[e := list]]
      ensures !ok ==>
        sections == if e in EntriesOf(old(sections), p) && !append
          then old(sections)[p := old(sections)[p][e := []]] else old(sections)
      ensures Valid() <==> ok || append || e !in EntriesOf(old(sections), p)
    {
      var found, newSection := AddSection(p, memory);
      if !found {
        return false;
      }
      var newEntry := e !in sections[p];
      if newEntry && !memory.entry {
        UndoSection(p, newSection);
        return false;
      }
      var list := ListOf(sections[p], e);
      if !append {
        list := [];
      }
      if !memory.value {
        if newEntry {
          assert sections[p] - {e} == sections[p];
        } else {
          Same(sections, p, e);
          sections := sections[p := sections[p][e := list]];
        }
        UndoSection(p, newSection);
        assert !newEntry ==> sections[p][e] == list;
        return false;
      }
      if front {
        list := [value] + list;
      } else {
        list := list + [value];
      }
      sections := sections[p := sections[p][e := list]];
      return true;
    }

    // _free_namedsection for a section that was added in vain
    method UndoSection(p: Place, newSection: bool)
      modifies this`sections
      ensures sections == if newSection then old(sections) - {p} else old(sections)
    {
      if newSection {
        sections := sections - {p};
      }
    }

    // cfg_db_remove_entry
    method RemoveEntry(p: Place, e: Key) returns (result: int)
      requires Valid()
      modifies this`sections
      ensures Valid()
      ensures result == if e in EntriesOf(old(sections), p) then 0 else -1
      ensures sections == if result == 0 then old(sections)[p := old(sections)[p] - {e}] else old(sections)
    {
      if p !in sections || e !in sections[p] {
        return -1;
      }
      sections := sections[p := sections[p] - {e}];
      return 0;
    }

    // cfg_db_remove_element: the first of the values that is this one
    method RemoveElement(p: Place, e: Key, value: CString) returns (result: int)
      requires Valid()
      modifies this`sections
      ensures Valid()
      ensures result == if value in ListOf(EntriesOf(old(sections), p), e) then 0 else -1
      ensures result == -1 ==> sections == old(sections)
      ensures result == 0 ==>
        var was := old(sections)[p][e];
        exists k ::
          && 0 <= k < |was| && was[k] == value && value !in was[..k]
          && sections == old(sections)[p := if |was| == 1 then old(sections)[p] - {e}
            else old(sections)[p][e := was[..k] + was[k + 1..]]]
    {
      if p !in sections || e !in sections[p] {
        return -1;
      }
      var list := sections[p][e];
      if |list| == 1 {
        if list[0] == value {
          result := RemoveEntry(p, e);
          return 0;
        }
        return -1;
      }
      var k := 0;
      while k < |list|
        invariant k <= |list| && value !in list[..k]
      {
        if list[k] == value {
          sections := sections[p := sections[p][e := list[..k] + list[k + 1..]]];
          return 0;
        }
        k := k + 1;
      }
      return -1;
    }

    // The innermost loop of _cfg_db_append. memory says which of its calls find memory.
    method AppendValues(p: Place, e: Key, list: seq<CString>, memory: nat -> Memory) returns (ok: bool)
      requires Valid() && p in sections && list != []
      modifies this
      ensures Valid() && types == old(types)
      ensures ok ==> sections == old(sections)[p := old(sections)[p][e := ListOf(old(sections)[p], e) + list]]
      ensures !ok ==> StoppedIn(old(sections), p, e, list, sections)
      ensures (forall n: nat :: memory(n) == PLENTY) ==> ok
    {
      ghost var was := ListOf(sections[p], e);
      var i := 0;
      while i < |list|
        invariant i <= |list| && Valid() && types == old(types)
        invariant i == 0 ==> sections == old(sections)
        invariant i > 0 ==> sections == old(sections)[p := old(sections)[p][e := was + list[..i]]]
      {
        assert was + list[..i] + [list[i]] == was + list[..i + 1];
        assert was + list[..0] == was;
        NextValue(old(sections), p, e, was + list[..i], list[i]);
        ok := SetEntry(p, e, list[i], true, false, memory(i));
        if !ok {
          return;
        }
        i := i + 1;
      }
      assert list[..i] == list;
      ok := true;
    }

    // The loop over the entries of a section.
    method AppendEntries(p: Place, src: Entries, f: Filter, memory: (Key, nat) -> Memory) returns (ok: bool)
      requires Valid() && p in sections && forall e :: e in src ==> src[e] != []
      modifies this
      ensures Valid() && types == old(types)
      ensures ok ==> sections == old(sections)[p := MergedEntries(old(sections)[p], src, f)]
      ensures p in sections && sections == old(sections)[p := sections[p]]
      ensures PartEntries(old(sections)[p], src, f, sections[p])
      ensures (forall e, n: nat :: memory(e, n) == PLENTY) ==> ok
    {
      hide PartEntries;
      var todo := src.Keys;
      ghost var done: Entries := map[];
      MergedNothing(sections[p], f);
      while todo != {}
        invariant todo <= src.Keys && done == src - todo
        invariant Valid() && types == old(types)
        invariant sections == old(sections)[p := MergedEntries(old(sections)[p], done, f)]
      {
        var e :| e in todo;
        MergedMore(old(sections)[p], done, f, e, src[e]);
        if f.TakesEntry(e) {
          ok := AppendValues(p, e, src[e], (n: nat) => memory(e, n));
          if !ok {
            PartMerged(old(sections)[p], src, done, f, e, sections[p]);
            return;
          }
        }
        done := done[e := src[e]];
        todo := todo - {e};
      }
      assert done == src;
      MergedPart(old(sections)[p], src, f);
      ok := true;
    }

    method AppendSection(p: Place, entries: Entries, ghost src: Database, f: Filter, memory: (Key, nat) -> Memory,
        section: Memory) returns (ok: bool)
      requires Valid() && src.Valid() && src != this && p in src.sections && entries == src.sections[p]
      modifies this
      ensures Valid() && (ok ==> types == old(types) + {p.kind}) && types <= old(types) + {p.kind}
      ensures ok ==> sections == old(sections)[p := MergedEntries(EntriesOf(old(sections), p), entries, f)]
      ensures !ok ==>
        sections == old(sections) || (p in sections && sections == old(sections)[p := sections[p]]
        && PartEntries(EntriesOf(old(sections), p), entries, f, sections[p]))
      ensures (forall e, n: nat :: memory(e, n) == PLENTY) && section == PLENTY ==> ok
    {
      hide MergedEntries, PartEntries;
      var isNew;
      ok, isNew := AddSection(p, section);
      if !ok {
        return;
      }
      ghost var added := sections;
      ok := AppendEntries(p, entries, f, memory);
      Twice(old(sections), p, EntriesOf(old(sections), p), sections[p]);
    }

    // _cfg_db_append. Where memory ends it stops, with a part of the copy made.
    method Append(src: Database, f: Filter, memory: (Place, Key, nat) -> Memory, section: Place -> Memory)
        returns (result: int)
      requires Valid() && src != this && src.Valid()
      modifies this
      ensures Valid() && (result == 0 || result == -1)
      ensures result == 0 ==> sections == Merged(old(sections), src.sections, f)
      ensures result == 0 ==> types == old(types) + Kinds(src.sections, f)
      ensures Partly(old(sections), src.sections, f, sections)
      ensures (forall p, e, n: nat :: memory(p, e, n) == PLENTY) && (forall p :: section(p) == PLENTY) ==> result == 0
    {
      hide Merged, MergedEntries, Kinds, Valid, Filter.Takes, Partly, PartEntries;
      var todo := src.sections.Keys;
      ghost var done: Sections := map[];
      MergedNowhere(sections, f);
      while todo != {}
        invariant todo <= src.sections.Keys && done == src.sections - todo
        invariant Valid() && sections == Merged(old(sections), done, f)
        invariant types == old(types) + Kinds(done, f)
      {
        var p :| p in todo;
        MergedPlace(old(sections), done, f, p, src.sections[p]);
        if f.Takes(p) {
          var ok := AppendSection(p, src.sections[p], src, f, (e: Key, n: nat) => memory(p, e, n), section(p));
          if !ok {
            StoppedAt(old(sections), src.sections, done, f, p, sections);
            return -1;
          }
        }
        done := done[p := src.sections[p]];
        todo := todo - {p};
      }
      assert done == src.sections;
      MergedPartly(old(sections), src.sections, done, f);
      return 0;
    }
  }

  lemma MergedList(dst: Entries, src: Entries, f: Filter, k: Key)
    ensures ListOf(MergedEntries(dst, src, f), k) == ListOf(dst, k) + if f.TakesEntry(k) then ListOf(src, k) else []
  {
    assert ListOf(dst, k) + [] == ListOf(dst, k);
  }

  lemma PartMerged(dst: Entries, src: Entries, done: Entries, f: Filter, e: Key, now: Entries)
    requires e in src && e !in done && f.TakesEntry(e) && forall k :: k in done ==> k in src && done[k] == src[k]
    requires var m := MergedEntries(dst, done, f);
      now == m || exists i :: 0 < i < |src[e]| && now == m[e := ListOf(m, e) + src[e][..i]]
    ensures PartEntries(dst, src, f, now)
  {
    hide MergedEntries;
    var m := MergedEntries(dst, done, f);
    MergedPart(dst, done, f);
    forall k ensures PartList(ListOf(dst, k), if f.TakesEntry(k) then ListOf(src, k) else [], ListOf(now, k)) {
      MergedList(dst, done, f, k);
      if k == e && now != m {
        var i :| 0 < i < |src[e]| && now == m[e := ListOf(m, e) + src[e][..i]];
        PartPrefix(ListOf(dst, e), src[e], i);
        assert ListOf(dst, e) + [] == ListOf(dst, e);
      }
    }
  }

  lemma PartPrefix(dst: seq<CString>, src: seq<CString>, i: nat)
    requires i <= |src|
    ensures PartList(dst, src, dst + src[..i])
  {
    assert dst + src == dst + src[..i] + src[i..];
  }

  lemma MergedPart(dst: Entries, src: Entries, f: Filter)
    ensures PartEntries(dst, src, f, MergedEntries(dst, src, f))
  {
    hide MergedEntries;
    forall k
      ensures PartList(ListOf(dst, k), if f.TakesEntry(k) then ListOf(src, k) else [], ListOf(MergedEntries(dst, src, f), k))
    {
      MergedList(dst, src, f, k);
    }
  }

  lemma MergedPartly(dst: Sections, src: Sections, done: Sections, f: Filter)
    requires forall k :: k in done ==> k in src && done[k] == src[k]
    ensures Partly(dst, src, f, Merged(dst, done, f))
  {
    hide MergedEntries, PartEntries;
    var m := Merged(dst, done, f);
    forall p
      ensures PartEntries(EntriesOf(dst, p), if f.Takes(p) then EntriesOf(src, p) else map[], f, EntriesOf(m, p))
    {
      MergedPart(EntriesOf(dst, p), EntriesOf(src, p), f);
      PartNothing(EntriesOf(dst, p), if f.Takes(p) then EntriesOf(src, p) else map[], f);
      MergedNothing(EntriesOf(dst, p), f);
    }
  }

  lemma PartNothing(dst: Entries, src: Entries, f: Filter)
    ensures PartEntries(dst, src, f, dst)
  {}

  lemma StoppedAt(dst: Sections, src: Sections, done: Sections, f: Filter, p: Place, now: Sections)
    requires p in src && p !in done && f.Takes(p) && forall k :: k in done ==> k in src && done[k] == src[k]
    requires EntriesOf(Merged(dst, done, f), p) == EntriesOf(dst, p)
    requires now == Merged(dst, done, f) ||
      (p in now && now == Merged(dst, done, f)[p := now[p]] && PartEntries(EntriesOf(dst, p), src[p], f, now[p]))
    ensures Partly(dst, src, f, now)
  {
    hide MergedEntries, PartEntries;
    MergedPartly(dst, src, done, f);
    var m := Merged(dst, done, f);
    forall q
      ensures PartEntries(EntriesOf(dst, q), if f.Takes(q) then EntriesOf(src, q) else map[], f, EntriesOf(now, q))
    {
      assert q != p ==> EntriesOf(now, q) == EntriesOf(m, q);
    }
  }

  // Every value list of the source under the given kind, name and entry, where these are given,
  // comes behind the one that was there; all else is as it was.
  lemma MergedLists(dst: Sections, src: Sections, f: Filter, p: Place, e: Key)
    ensures
      var now := Merged(dst, src, f);
      var section := (f.kind == None || f.kind == Some(p.kind)) && (f.name == None || f.name == p.name);
      var entry := section && (f.entry == None || f.entry == Some(e));
      var a := if p in dst && e in dst[p] then dst[p][e] else [];
      var b := if entry && p in src && e in src[p] then src[p][e] else [];
      && (p in now <==> p in dst || (p in src && section))
      && (p in now && e in now[p] <==> (p in dst && e in dst[p]) || (entry && p in src && e in src[p]))
      && (p in now && e in now[p] ==> now[p][e] == a + b)
  {}

  // cfg_db_duplicate keeps every section and every value list.
  lemma Duplicated(src: Sections)
    ensures Merged(map[], src, Filter(None, None, None)) == src
  {
    var all := Filter(None, None, None);
    forall p | p in src ensures MergedEntries(map[], src[p], all) == src[p] {
      assert forall e :: e in src[p] ==> [] + src[p][e] == src[p][e];
    }
  }

  lemma Same(sections: Sections, p: Place, e: Key)
    requires p in sections && e in sections[p]
    ensures sections[p := sections[p][e := sections[p][e]]] == sections
  {
    assert sections[p][e := sections[p][e]] == sections[p];
  }

  lemma Twice<K, V>(m: map<K, V>, k: K, a: V, b: V)
    ensures m[k := a][k := b] == m[k := b]
  {}

  lemma NextValue(s: Sections, p: Place, e: Key, a: seq<CString>, v: CString)
    requires p in s
    ensures
      var m := s[p := s[p][e := a]];
      m[p := EntriesOf(m, p)[e := ListOf(EntriesOf(m, p), e) + [v]]] == s[p := s[p][e := a + [v]]]
  {
    Twice(s[p], e, a, a + [v]);
    Twice(s, p, s[p][e := a], s[p][e := a + [v]]);
  }

  lemma MergedNothing(dst: Entries, f: Filter)
    ensures MergedEntries(dst, map[], f) == dst
  {
    assert forall e :: e in dst ==> dst[e] + [] == dst[e];
  }

  lemma MergedMore(dst: Entries, done: Entries, f: Filter, e: Key, list: seq<CString>)
    requires e !in done
    ensures
      var m := MergedEntries(dst, done, f);
      && ListOf(m, e) == ListOf(dst, e)
      && MergedEntries(dst, done[e := list], f) == if f.TakesEntry(e) then m[e := ListOf(m, e) + list] else m
  {}

  lemma MergedNowhere(dst: Sections, f: Filter)
    ensures Merged(dst, map[], f) == dst && Kinds(map[], f) == {}
  {}

  lemma MergedPlace(dst: Sections, done: Sections, f: Filter, p: Place, entries: Entries)
    requires p !in done
    ensures
      var m := Merged(dst, done, f);
      && EntriesOf(m, p) == EntriesOf(dst, p)
      && Merged(dst, done[p := entries], f) ==
        (if f.Takes(p) then m[p := MergedEntries(EntriesOf(m, p), entries, f)] else m)
      && Kinds(done[p := entries], f) == Kinds(done, f) + (if f.Takes(p) then {p.kind} else {})
  {
    MergedTaken(dst, done, f, p, entries);
    KindsMore(done, f, p, entries);
  }

  lemma MergedTaken(dst: Sections, done: Sections, f: Filter, p: Place, entries: Entries)
    requires p !in done
    ensures
      var m := Merged(dst, done, f);
      && EntriesOf(m, p) == EntriesOf(dst, p)
      && Merged(dst, done[p := entries], f) ==
        if f.Takes(p) then m[p := MergedEntries(EntriesOf(m, p), entries, f)] else m
  {
    hide MergedEntries;
  }

  lemma KindsMore(done: Sections, f: Filter, p: Place, entries: Entries)
    requires p !in done
    ensures Kinds(done[p := entries], f) == Kinds(done, f) + if f.Takes(p) then {p.kind} else {}
  {
    var more := done[p := entries];
    assert forall q :: q in more <==> q in done || q == p;
  }
}
