// src-api/config/cfg_schema.c: telling the handlers of a schema what changed between two
// configuration databases.
module ConfigDeltas {
  import opened ConfigDbs
  import opened Options
  import opened StringArrays

  datatype Mode = Unnamed | Named | NamedMandatory | NamedWithDefault {
    predicate IsNamed() {
      this != Unnamed
    }
  }

  // A database while the handlers run.
  datatype Db = Db(types: set<Key>, sections: Sections, defaults: map<(Key, Key), seq<CString>>)

  // What the pre and post pointers of a schema section lead to.
  datatype Found = Missing | Existing | Standin

  datatype Delta = Delta(pre: seq<CString>, post: seq<CString>, changed: bool)

  // One call of a delta handler with what it can see.
  datatype Fire = Fire(name: Option<Key>, pre: Found, post: Found, deltas: seq<Delta>)

  class SchemaSection {
    const kind: Key
    const mode: Mode
    const defName: Key
    const entries: seq<Key>
    var pre: Found
    var post: Found
    var sectionName: Option<Key>
    var deltas: seq<Delta>

    constructor (kind: Key, mode: Mode, defName: Key, entries: seq<Key>)
      ensures this.kind == kind && this.mode == mode && this.defName == defName && this.entries == entries
    {
      this.kind, this.mode, this.defName, this.entries := kind, mode, defName, entries;
      pre, post, sectionName, deltas := Missing, Missing, None, [];
    }
  }

  class Schema {
    const handlers: seq<SchemaSection>

    constructor (handlers: seq<SchemaSection>)
      ensures this.handlers == handlers
    {
      this.handlers := handlers;
    }
  }

  // cfg_db_get_entry_value: the named section, then the unnamed one, then the schema; a
  // missing value reads as no strings.
  function Effective(db: Db, kind: Key, name: Option<Key>, e: Key): seq<CString> {
    if e in EntriesOf(db.sections, Place(kind, name)) then db.sections[Place(kind, name)][e]
    else if name.Some? && e in EntriesOf(db.sections, Place(kind, None)) then db.sections[Place(kind, None)][e]
    else if (kind, e) in db.defaults then db.defaults[(kind, e)]
    else []
  }

  function Names(db: Db, kind: Key): set<Option<Key>> {
    set p | p in db.sections && p.kind == kind :: p.name
  }

  predicate Has(db: Db, kind: Key, name: Option<Key>) {
    Place(kind, name) in db.sections
  }

  lemma NamesHas(db: Db, kind: Key, name: Option<Key>)
    ensures name in Names(db, kind) <==> Has(db, kind, name)
  {
    if Has(db, kind, name) {
      assert Place(kind, name).name == name;
    }
  }

  predicate WellFiled(db: Db) {
    forall p :: p in db.sections ==> p.kind in db.types
  }

  // ----- what a handler is to be told -----

  predicate IsDefault(s: SchemaSection, name: Option<Key>) {
    s.mode == NamedWithDefault && name == Some(s.defName)
  }

  function PreFound(s: SchemaSection, pre: Db, name: Option<Key>, startup: bool, preDef: bool): Found {
    if Has(pre, s.kind, name) then Existing
    else if IsDefault(s, name) && !startup && preDef then Standin
    else Missing
  }

  function PostFound(s: SchemaSection, post: Db, name: Option<Key>, postDef: bool): Found {
    if Has(post, s.kind, name) then Existing
    else if IsDefault(s, name) && postDef then Standin
    else Missing
  }

  function DeltaOf(s: SchemaSection, pre: Db, post: Db, name: Option<Key>, e: Key): Delta {
    var v, w := Effective(pre, s.kind, name, e), Effective(post, s.kind, name, e);
    Delta(v, w, v != w)
  }

  function Deltas(s: SchemaSection, pre: Db, post: Db, name: Option<Key>): seq<Delta> {
    seq(|s.entries|, i requires 0 <= i < |s.entries| => DeltaOf(s, pre, post, name, s.entries[i]))
  }

  // Some value of the section reads differently.
  predicate Differs(s: SchemaSection, pre: Db, post: Db, name: Option<Key>) {
    exists i :: 0 <= i < |s.entries| && DeltaOf(s, pre, post, name, s.entries[i]).changed
  }

  predicate Concerns(s: SchemaSection, pre: Db, post: Db, name: Option<Key>, startup: bool, preDef: bool,
      postDef: bool) {
    && (s.mode.IsNamed() ==> name.Some?)
    && (startup || Differs(s, pre, post, name)
      || (s.mode.IsNamed() &&
        (PreFound(s, pre, name, startup, preDef) == Missing) != (PostFound(s, post, name, postDef) == Missing)))
  }

  function FireOf(s: SchemaSection, pre: Db, post: Db, name: Option<Key>, startup: bool, preDef: bool,
      postDef: bool): Fire {
    Fire(name, PreFound(s, pre, name, startup, preDef), PostFound(s, post, name, postDef), Deltas(s, pre, post, name))
  }

  function Fires(s: SchemaSection, pre: Db, post: Db, name: Option<Key>, startup: bool, preDef: bool,
      postDef: bool): seq<Fire> {
    if Concerns(s, pre, post, name, startup, preDef, postDef)
    then [FireOf(s, pre, post, name, startup, preDef, postDef)] else []
  }

  // A type without a section that has a name.
  predicate Nameless(db: Db, kind: Key) {
    forall p :: p in db.sections && p.kind == kind ==> p.name == None
  }

  predicate PreDefault(s: SchemaSection, pre: Db, startup: bool) {
    s.mode == NamedWithDefault && !startup && Nameless(pre, s.kind)
  }

  predicate PostDefault(s: SchemaSection, post: Db) {
    s.mode == NamedWithDefault && Nameless(post, s.kind)
  }

  // The calls for the sections in one of the databases, in some order.
  ghost predicate ForNames(s: SchemaSection, pre: Db, post: Db, startup: bool, names: set<Option<Key>>,
      fires: seq<Fire>) {
    var preDef, postDef := PreDefault(s, pre, startup), PostDefault(s, post);
    && (forall i, j :: 0 <= i < j < |fires| ==> fires[i].name != fires[j].name)
    && (forall i :: 0 <= i < |fires| ==>
      && fires[i].name in names && Concerns(s, pre, post, fires[i].name, startup, preDef, postDef)
      && fires[i] == FireOf(s, pre, post, fires[i].name, startup, preDef, postDef))
    && (forall n :: n in names && Concerns(s, pre, post, n, startup, preDef, postDef) ==>
      FireOf(s, pre, post, n, startup, preDef, postDef) in fires)
  }

  // The calls that come last.
  function Extra(s: SchemaSection, pre: Db, post: Db, startup: bool): seq<Fire> {
    var preDef, postDef := PreDefault(s, pre, startup), PostDefault(s, post);
    (if startup && s.mode == Unnamed && s.kind !in pre.types && s.kind !in post.types
      then Fires(s, pre, post, None, true, preDef, postDef) else []) +
    (if preDef != postDef then Fires(s, pre, post, Some(s.defName), true, preDef, postDef) else [])
  }

  lemma ForNamesMore(s: SchemaSection, pre: Db, post: Db, startup: bool, names: set<Option<Key>>, fires: seq<Fire>,
      n: Option<Key>)
    requires ForNames(s, pre, post, startup, names, fires) && n !in names
    ensures ForNames(s, pre, post, startup, names + {n},
      fires + Fires(s, pre, post, n, startup, PreDefault(s, pre, startup), PostDefault(s, post)))
  {
    hide Concerns, FireOf, PreDefault, PostDefault;
    FireName(s, pre, post, n, startup, PreDefault(s, pre, startup), PostDefault(s, post));
  }

  lemma FireName(s: SchemaSection, pre: Db, post: Db, name: Option<Key>, startup: bool, preDef: bool, postDef: bool)
    ensures FireOf(s, pre, post, name, startup, preDef, postDef).name == name
  {}

  // _section_needs_default_named_one
  method NeedsDefault(db: Db, kind: Key) returns (needs: bool)
    requires WellFiled(db)
    ensures needs == Nameless(db, kind)
  {
    var names := Names(db, kind);
    NamelessNames(db, kind);
    if kind !in db.types || |names| == 0 {
      return true;
    }
    if |names| > 1 {
      TwoNames(names);
      return false;
    }
    var named :| named in names;
    OneName(names, named);
    return named == None;
  }

  lemma NamelessNames(db: Db, kind: Key)
    ensures Nameless(db, kind) <==> forall n :: n in Names(db, kind) ==> n == None
  {
    forall p | p in db.sections && p.kind == kind ensures p.name in Names(db, kind) {
      NamesHas(db, kind, p.name);
    }
  }

  lemma TwoNames(names: set<Option<Key>>)
    requires |names| > 1
    ensures exists n :: n in names && n != None
  {
    if forall n :: n in names ==> n == None {
      assert names <= {None};
      Smaller(names, {None});
    }
  }

  lemma OneName(names: set<Option<Key>>, n: Option<Key>)
    requires |names| <= 1 && n in names
    ensures names == {n}
  {
    Smaller({n}, names);
    if m :| m in names && m != n {
      Smaller({m, n}, names);
    }
  }

  lemma {:induction false} Smaller<T>(a: set<T>, b: set<T>)
    requires a <= b
    ensures |a| <= |b|
  {
    if a != {} {
      var x :| x in a;
      Smaller(a - {x}, b - {x});
    }
  }

  class Engine {
    ghost var fired: seq<Fire>

    // _handle_named_section_change
    method HandleName(s: SchemaSection, pre: Db, post: Db, name: Option<Key>, startup: bool, preDef: bool,
        postDef: bool)
      modifies this, s
      ensures fired == old(fired) + Fires(s, pre, post, name, startup, preDef, postDef)
    {
      hide Effective, Differs, Deltas, PreFound, PostFound;
      if s.mode in {Named, NamedMandatory, NamedWithDefault} && name == None {
        return;
      }
      FindBoth(s, pre, post, name, startup, preDef, postDef);
      var changed := false;
      if s.mode in {Named, NamedMandatory, NamedWithDefault} && (s.pre == Missing) != (s.post == Missing) {
        changed := true;
      }
      var differs := CompareEntries(s, pre, post, name);
      changed := changed || differs;
      if changed || startup {
        s.sectionName := name;
        fired := fired + [Fire(name, s.pre, s.post, s.deltas)];
      }
    }

    // What the pre and post pointers are set to.
    method FindBoth(s: SchemaSection, pre: Db, post: Db, name: Option<Key>, startup: bool, preDef: bool, postDef: bool)
      modifies s`pre, s`post
      ensures s.pre == PreFound(s, pre, name, startup, preDef) && s.post == PostFound(s, post, name, postDef)
    {
      s.pre := if Place(s.kind, name) in pre.sections then Existing else Missing;
      s.post := if Place(s.kind, name) in post.sections then Existing else Missing;
      if s.mode == NamedWithDefault && name == Some(s.defName) {
        if s.pre == Missing && !startup && preDef {
          s.pre := Standin;
        }
        if s.post == Missing && postDef {
          s.post := Standin;
        }
      }
    }

    // The loop over the entries of the section.
    method CompareEntries(s: SchemaSection, pre: Db, post: Db, name: Option<Key>) returns (changed: bool)
      modifies s`deltas
      ensures s.deltas == Deltas(s, pre, post, name) && changed == Differs(s, pre, post, name)
    {
      hide Effective;
      changed := false;
      s.deltas := [];
      var i := 0;
      while i < |s.entries|
        invariant i <= |s.entries| && |s.deltas| == i
        invariant forall k :: 0 <= k < i ==> s.deltas[k] == DeltaOf(s, pre, post, name, s.entries[k])
        invariant changed <==> exists k :: 0 <= k < i && DeltaOf(s, pre, post, name, s.entries[k]).changed
      {
        var v := Effective(pre, s.kind, name, s.entries[i]);
        var w := Effective(post, s.kind, name, s.entries[i]);
        // strarray_cmp
        s.deltas := s.deltas + [Delta(v, w, v != w)];
        changed := changed || v != w;
        i := i + 1;
      }
      assert s.deltas == Deltas(s, pre, post, name);
    }

    // One turn of the loop in _handle_db_changes. base are the calls for the sections that
    // are in one of the databases.
    method HandleSection(s: SchemaSection, pre: Db, post: Db, startup: bool) returns (ghost base: seq<Fire>)
      requires WellFiled(pre) && WellFiled(post)
      modifies this, s
      ensures fired == old(fired) + base + Extra(s, pre, post, startup)
      ensures ForNames(s, pre, post, startup, Names(pre, s.kind) + Names(post, s.kind), base)
    {
      hide Fires, ForNames, Nameless;
      var preDef, postDef := false, false;
      if s.mode == NamedWithDefault {
        if !startup {
          preDef := NeedsDefault(pre, s.kind);
        }
        postDef := NeedsDefault(post, s.kind);
      }
      assert preDef == PreDefault(s, pre, startup) && postDef == PostDefault(s, post);
      base := HandleNames(s, pre, post, startup, preDef, postDef);
      ghost var log := fired;
      if startup && s.mode == Unnamed && s.kind !in pre.types && s.kind !in post.types {
        HandleName(s, pre, post, None, true, preDef, postDef);
      }
      if preDef != postDef {
        HandleName(s, pre, post, Some(s.defName), true, preDef, postDef);
      }
      assert fired == log + Extra(s, pre, post, startup);
    }

    // The two loops over the names: those of the new database, then those that are gone.
    method HandleNames(s: SchemaSection, pre: Db, post: Db, startup: bool, preDef: bool, postDef: bool)
        returns (ghost base: seq<Fire>)
      requires WellFiled(pre) && WellFiled(post)
      requires preDef == PreDefault(s, pre, startup) && postDef == PostDefault(s, post)
      modifies this, s
      ensures fired == old(fired) + base
      ensures ForNames(s, pre, post, startup, Names(pre, s.kind) + Names(post, s.kind), base)
    {
      hide Fires, ForNames, PreDefault, PostDefault, Names;
      base := [];
      ghost var done: set<Option<Key>> := {};
      NoNames(s, pre, post, startup);
      var todo := Names(post, s.kind);
      while todo != {}
        invariant done + todo == Names(post, s.kind) && done !! todo
        invariant fired == old(fired) + base && ForNames(s, pre, post, startup, done, base)
      {
        var name :| name in todo;
        ForNamesMore(s, pre, post, startup, done, base, name);
        HandleName(s, pre, post, name, startup, preDef, postDef);
        base := base + Fires(s, pre, post, name, startup, preDef, postDef);
        done, todo := done + {name}, todo - {name};
      }
      assert done == Names(post, s.kind);
      todo := Names(pre, s.kind);
      ghost var seen: set<Option<Key>> := {};
      while todo != {}
        invariant seen + todo == Names(pre, s.kind) && seen !! todo && done == Names(post, s.kind) + seen
        invariant fired == old(fired) + base && ForNames(s, pre, post, startup, done, base)
      {
        var name :| name in todo;
        NamesHas(post, s.kind, name);
        if Place(s.kind, name) !in post.sections {
          ForNamesMore(s, pre, post, startup, done, base, name);
          HandleName(s, pre, post, name, startup, preDef, postDef);
          base := base + Fires(s, pre, post, name, startup, preDef, postDef);
        } else {
          assert done + {name} == done;
        }
        done, seen, todo := done + {name}, seen + {name}, todo - {name};
      }
      assert done == Names(pre, s.kind) + Names(post, s.kind);
    }

    lemma NoNames(s: SchemaSection, pre: Db, post: Db, startup: bool)
      ensures ForNames(s, pre, post, startup, {}, [])
    {}

    // _handle_db_changes
    method HandleChanges(preSchema: Schema?, postSchema: Schema?, pre: Db, post: Db, startup: bool)
        returns (result: int, ghost bases: seq<seq<Fire>>)
      requires WellFiled(pre) && WellFiled(post)
      modifies this, if preSchema != null then preSchema.handlers else []
      ensures result == if preSchema == null || preSchema != postSchema then -1 else 0
      ensures result == -1 ==> fired == old(fired)
      ensures result == 0 ==> |bases| == |preSchema.handlers|
      ensures result == 0 ==> forall i :: 0 <= i < |bases| ==>
        var s := preSchema.handlers[i];
        ForNames(s, pre, post, startup, Names(pre, s.kind) + Names(post, s.kind), bases[i])
      ensures result == 0 ==> fired == old(fired) + All(preSchema.handlers, pre, post, startup, bases)
    {
      hide ForNames, Extra, Names, All, WellFiled;
      AllNone(pre, post, startup);
      bases := [];
      if preSchema == null || preSchema != postSchema {
        return -1, [];
      }
      var handlers := preSchema.handlers;
      var i := 0;
      while i < |handlers|
        invariant i <= |handlers| && |bases| == i
        invariant forall k :: 0 <= k < i ==>
          ForNames(handlers[k], pre, post, startup, Names(pre, handlers[k].kind) + Names(post, handlers[k].kind), bases[k])
        invariant fired == old(fired) + All(handlers[..i], pre, post, startup, bases)
      {
        ghost var base := HandleSection(handlers[i], pre, post, startup);
        AllNext(handlers, i, pre, post, startup, bases, base);
        bases := bases + [base];
        i := i + 1;
      }
      AllEnd(handlers);
      result := 0;
    }
  }

  function All(hs: seq<SchemaSection>, pre: Db, post: Db, startup: bool, bases: seq<seq<Fire>>): seq<Fire>
    requires |hs| == |bases|
  {
    if hs == [] then []
    else All(hs[..|hs| - 1], pre, post, startup, bases[..|hs| - 1]) + bases[|hs| - 1] + Extra(hs[|hs| - 1], pre, post, startup)
  }

  lemma AllNone(pre: Db, post: Db, startup: bool)
    ensures All([], pre, post, startup, []) == []
  {}

  lemma AllNext(hs: seq<SchemaSection>, i: nat, pre: Db, post: Db, startup: bool, bases: seq<seq<Fire>>,
      base: seq<Fire>)
    requires i < |hs| && |bases| == i
    ensures All(hs[..i + 1], pre, post, startup, bases + [base]) ==
      All(hs[..i], pre, post, startup, bases) + (base + Extra(hs[i], pre, post, startup))
    ensures forall log: seq<Fire> ::
      log + All(hs[..i], pre, post, startup, bases) + base + Extra(hs[i], pre, post, startup) ==
        log + All(hs[..i + 1], pre, post, startup, bases + [base])
  {
    hide All, Extra;
    AllMore(hs[..i], hs[i], pre, post, startup, bases, base);
    assert hs[..i + 1] == hs[..i] + [hs[i]];
  }

  lemma AllEnd(hs: seq<SchemaSection>)
    ensures hs[..|hs|] == hs
  {}

  lemma AllMore(hs: seq<SchemaSection>, s: SchemaSection, pre: Db, post: Db, startup: bool, bases: seq<seq<Fire>>,
      base: seq<Fire>)
    requires |hs| == |bases|
    ensures All(hs + [s], pre, post, startup, bases + [base]) ==
      All(hs, pre, post, startup, bases) + base + Extra(s, pre, post, startup)
  {
    hide Extra;
    var more, longer := hs + [s], bases + [base];
    assert more[..|more| - 1] == hs && longer[..|more| - 1] == bases;
  }

  // ----- what a call says, on the maps alone -----

  // The value of an entry: that of the named section if it has one, else that of the unnamed
  // section, else the default of the schema, else none.
  ghost predicate Reads(db: Db, kind: Key, name: Option<Key>, e: Key, v: seq<CString>) {
    var own, unnamed := Place(kind, name), Place(kind, None);
    if own in db.sections && e in db.sections[own] then v == db.sections[own][e]
    else if unnamed in db.sections && e in db.sections[unnamed] then v == db.sections[unnamed][e]
    else if (kind, e) in db.defaults then v == db.defaults[(kind, e)]
    else v == []
  }

  // What a call for a name says: which sections there are, and every entry with its value
  // before and after.
  lemma FireReads(s: SchemaSection, pre: Db, post: Db, name: Option<Key>, startup: bool, preDef: bool, postDef: bool)
    ensures
      var f := FireOf(s, pre, post, name, startup, preDef, postDef);
      && f.name == name && |f.deltas| == |s.entries|
      && (f.pre == Existing <==> Place(s.kind, name) in pre.sections)
      && (f.post == Existing <==> Place(s.kind, name) in post.sections)
      && (f.pre == Standin <==>
        Place(s.kind, name) !in pre.sections && s.mode == NamedWithDefault && name == Some(s.defName) && !startup && preDef)
      && (f.post == Standin <==>
        Place(s.kind, name) !in post.sections && s.mode == NamedWithDefault && name == Some(s.defName) && postDef)
      && forall i :: 0 <= i < |s.entries| ==>
        && Reads(pre, s.kind, name, s.entries[i], f.deltas[i].pre)
        && Reads(post, s.kind, name, s.entries[i], f.deltas[i].post)
        && (f.deltas[i].changed <==> f.deltas[i].pre != f.deltas[i].post)
  {}

  // The same for all calls of a handler.
  lemma CallsRead(s: SchemaSection, pre: Db, post: Db, startup: bool, base: seq<Fire>, k: nat)
    requires ForNames(s, pre, post, startup, Names(pre, s.kind) + Names(post, s.kind), base)
    requires k < |base + Extra(s, pre, post, startup)|
    ensures
      var f := (base + Extra(s, pre, post, startup))[k];
      && |f.deltas| == |s.entries|
      && (f.pre == Existing <==> Place(s.kind, f.name) in pre.sections)
      && (f.post == Existing <==> Place(s.kind, f.name) in post.sections)
      && forall i :: 0 <= i < |s.entries| ==>
        && Reads(pre, s.kind, f.name, s.entries[i], f.deltas[i].pre)
        && Reads(post, s.kind, f.name, s.entries[i], f.deltas[i].post)
        && (f.deltas[i].changed <==> f.deltas[i].pre != f.deltas[i].post)
  {
    hide FireOf, Concerns, Reads, PreDefault, PostDefault;
    var preDef, postDef := PreDefault(s, pre, startup), PostDefault(s, post);
    var name := (base + Extra(s, pre, post, startup))[k].name;
    FireName(s, pre, post, None, true, preDef, postDef);
    FireName(s, pre, post, Some(s.defName), true, preDef, postDef);
    FireReads(s, pre, post, name, startup, preDef, postDef);
    FireReads(s, pre, post, name, true, preDef, postDef);
  }

  // What an entry reads without a value of its own in the section.
  ghost predicate FallsTo(db: Db, p: Place, e: Key, v: seq<CString>) {
    var unnamed := Place(p.kind, None);
    if p != unnamed && unnamed in db.sections && e in db.sections[unnamed] then v == db.sections[unnamed][e]
    else (p.kind, e) in db.defaults && v == db.defaults[(p.kind, e)]
  }

  // Writing down a value that is read anyway calls nobody, nor does removing it again. A
  // section that comes into being with it is one that a handler of this mode does not miss.
  lemma DefaultSilent(s: SchemaSection, pre: Db, post: Db, p: Place, e: Key, v: seq<CString>, base: seq<Fire>,
      back: seq<Fire>)
    requires s.mode != NamedWithDefault && (p in pre.sections ==> e !in pre.sections[p]) && FallsTo(pre, p, e, v)
    requires p in pre.sections || p.name == None || s.mode == Unnamed
    requires post.defaults == pre.defaults && post.sections == Written(pre.sections, p, e, v)
    requires ForNames(s, pre, post, false, Names(pre, s.kind) + Names(post, s.kind), base)
    requires ForNames(s, post, pre, false, Names(post, s.kind) + Names(pre, s.kind), back)
    ensures base == [] && Extra(s, pre, post, false) == [] && back == [] && Extra(s, post, pre, false) == []
  {
    forall name, k ensures Effective(pre, s.kind, name, k) == Effective(post, s.kind, name, k) {
      SameRead(pre, post, p, e, v, s.kind, name, k);
    }
    forall n: Option<Key> ensures !Concerns(s, pre, post, n, false, false, false) {}
    forall n: Option<Key> ensures !Concerns(s, post, pre, n, false, false, false) {}
    hide Concerns, FireOf, Names, Effective;
    NoneIn(base, i => 0 <= i < |base| && Concerns(s, pre, post, base[i].name, false, false, false));
    NoneIn(back, i => 0 <= i < |back| && Concerns(s, post, pre, back[i].name, false, false, false));
  }

  // The sections with one more entry written down.
  function Written(sections: Sections, p: Place, e: Key, v: seq<CString>): Sections {
    sections[p := if p in sections then sections[p][e := v] else map[e := v]]
  }

  lemma SameRead(pre: Db, post: Db, p: Place, e: Key, v: seq<CString>, kind: Key, name: Option<Key>, k: Key)
    requires (p in pre.sections ==> e !in pre.sections[p]) && FallsTo(pre, p, e, v)
    requires post.defaults == pre.defaults && post.sections == Written(pre.sections, p, e, v)
    ensures Effective(pre, kind, name, k) == Effective(post, kind, name, k)
  {}

  // Whether a section counts as there: it is in the database, or it is the default section and
  // no section of the type has a name.
  ghost predicate There(s: SchemaSection, db: Db, name: Option<Key>) {
    || Place(s.kind, name) in db.sections
    || (s.mode == NamedWithDefault && name == Some(s.defName)
      && forall p :: p in db.sections && p.kind == s.kind ==> p.name == None)
  }

  // Some value of the section before differs from that afterwards.
  ghost predicate Changes(s: SchemaSection, pre: Db, post: Db, name: Option<Key>) {
    exists i, v, w ::
      0 <= i < |s.entries| && Reads(pre, s.kind, name, s.entries[i], v) && Reads(post, s.kind, name, s.entries[i], w) && v != w
  }

  lemma ReadsIff(db: Db, kind: Key, name: Option<Key>, e: Key, v: seq<CString>)
    ensures Reads(db, kind, name, e, v) <==> v == Effective(db, kind, name, e)
  {}

  lemma ChangesIff(s: SchemaSection, pre: Db, post: Db, name: Option<Key>)
    ensures Differs(s, pre, post, name) <==> Changes(s, pre, post, name)
  {
    hide Reads, Effective;
    forall i, v | 0 <= i < |s.entries|
      ensures Reads(pre, s.kind, name, s.entries[i], v) <==> v == Effective(pre, s.kind, name, s.entries[i])
      ensures Reads(post, s.kind, name, s.entries[i], v) <==> v == Effective(post, s.kind, name, s.entries[i])
    {
      ReadsIff(pre, s.kind, name, s.entries[i], v);
      ReadsIff(post, s.kind, name, s.entries[i], v);
    }
    if i :| 0 <= i < |s.entries| && DeltaOf(s, pre, post, name, s.entries[i]).changed {
      var d := DeltaOf(s, pre, post, name, s.entries[i]);
      assert Reads(pre, s.kind, name, s.entries[i], d.pre) && Reads(post, s.kind, name, s.entries[i], d.post);
    }
    if Changes(s, pre, post, name) {
      var i, v, w :| 0 <= i < |s.entries| && Reads(pre, s.kind, name, s.entries[i], v)
        && Reads(post, s.kind, name, s.entries[i], w) && v != w;
      assert DeltaOf(s, pre, post, name, s.entries[i]).changed;
    }
  }

  // For every mode, at the startup and later: which names are called for by the two loops.
  lemma NameCalledIff(s: SchemaSection, pre: Db, post: Db, startup: bool, base: seq<Fire>, name: Option<Key>)
    requires ForNames(s, pre, post, startup, Names(pre, s.kind) + Names(post, s.kind), base)
    ensures (exists i :: 0 <= i < |base| && base[i].name == name) <==>
      && (Place(s.kind, name) in pre.sections || Place(s.kind, name) in post.sections)
      && (s.mode != Unnamed ==> name != None)
      && (startup || Changes(s, pre, post, name)
        || (s.mode != Unnamed && There(s, pre, name) != There(s, post, name)))
    ensures forall i, j :: 0 <= i < j < |base| ==> base[i].name != base[j].name
  {
    ChangesIff(s, pre, post, name);
    NamesHas(pre, s.kind, name);
    NamesHas(post, s.kind, name);
    var preDef, postDef := PreDefault(s, pre, startup), PostDefault(s, post);
    assert Concerns(s, pre, post, name, startup, preDef, postDef) <==>
      && (s.mode != Unnamed ==> name != None)
      && (startup || Differs(s, pre, post, name) || (s.mode != Unnamed && There(s, pre, name) != There(s, post, name)));
    hide Differs, Names, Deltas, Concerns, Changes, There, PreDefault, PostDefault;
    if i :| 0 <= i < |base| && base[i].name == name {
      assert base[i].name in Names(pre, s.kind) + Names(post, s.kind);
    }
    if name in Names(pre, s.kind) + Names(post, s.kind) && Concerns(s, pre, post, name, startup, preDef, postDef) {
      var f := FireOf(s, pre, post, name, startup, preDef, postDef);
      assert f in base;
    }
  }

  // The calls behind the loops: at the startup for an unnamed section that is nowhere, and for
  // the default name when the stand-in comes or goes.
  lemma ExtraNames(s: SchemaSection, pre: Db, post: Db, startup: bool)
    ensures
      var nowhere := startup && s.mode == Unnamed && s.kind !in pre.types && s.kind !in post.types;
      var without := !startup && forall p :: p in pre.sections && p.kind == s.kind ==> p.name == None;
      var with := forall p :: p in post.sections && p.kind == s.kind ==> p.name == None;
      var swapped := s.mode == NamedWithDefault && without != with;
      var extra := Extra(s, pre, post, startup);
      && |extra| == (if nowhere then 1 else 0) + (if swapped then 1 else 0)
      && (nowhere ==> extra[0].name == None)
      && (swapped ==> extra[|extra| - 1].name == Some(s.defName))
  {}

  // ----- what the handlers learn -----

  // Without a default section and outside the startup a handler is called for a name at
  // most once, and if and only if the name is there before or after and the section came,
  // went or reads differently.
  lemma CalledIff(s: SchemaSection, pre: Db, post: Db, base: seq<Fire>, name: Option<Key>)
    requires s.mode != NamedWithDefault
    requires ForNames(s, pre, post, false, Names(pre, s.kind) + Names(post, s.kind), base)
    ensures Extra(s, pre, post, false) == []
    ensures (exists i :: 0 <= i < |base| && base[i].name == name) <==>
      && (Has(pre, s.kind, name) || Has(post, s.kind, name))
      && (s.mode.IsNamed() ==> name != None)
      && ((s.mode.IsNamed() && Has(pre, s.kind, name) != Has(post, s.kind, name)) || Differs(s, pre, post, name))
    ensures forall i, j :: 0 <= i < j < |base| ==> base[i].name != base[j].name
  {
    NamesHas(pre, s.kind, name);
    NamesHas(post, s.kind, name);
    hide Differs, Names, Deltas;
    if i :| 0 <= i < |base| && base[i].name == name {
      assert base[i].name in Names(pre, s.kind) + Names(post, s.kind);
    }
    if name in Names(pre, s.kind) + Names(post, s.kind) && Concerns(s, pre, post, name, false, false, false) {
      var f := FireOf(s, pre, post, name, false, false, false);
      assert f in base;
    }
  }

  lemma NoneIn<T>(s: seq<T>, p: int -> bool)
    requires forall i :: 0 <= i < |s| ==> p(i)
    ensures s == [] || p(0)
  {}

  // Nothing is reported between equal databases.
  lemma EqualSilent(s: SchemaSection, db: Db, base: seq<Fire>)
    requires ForNames(s, db, db, false, Names(db, s.kind) + Names(db, s.kind), base)
    ensures base == [] && Extra(s, db, db, false) == []
  {
    var preDef, postDef := PreDefault(s, db, false), PostDefault(s, db);
    forall n: Option<Key> ensures !Concerns(s, db, db, n, false, preDef, postDef) {}
    hide Concerns;
    NoneIn(base, i => 0 <= i < |base| && Concerns(s, db, db, base[i].name, false, preDef, postDef));
  }

  // The entries of the schema whose unnamed value reads differently and that the named
  // section does not set itself.
  predicate Inherits(s: SchemaSection, pre: Db, post: Db, name: Key) {
    exists i :: 0 <= i < |s.entries| &&
      s.entries[i] !in EntriesOf(pre.sections, Place(s.kind, Some(name))) &&
      Effective(pre, s.kind, None, s.entries[i]) != Effective(post, s.kind, None, s.entries[i])
  }

  // An edit of the unnamed section reaches the named sections that do not override it, and
  // no other.
  lemma DefaultsReach(s: SchemaSection, pre: Db, post: Db, entries: Entries, name: Key)
    requires s.mode in {Named, NamedMandatory} && Has(pre, s.kind, Some(name))
    requires post.sections == pre.sections[Place(s.kind, None) := entries] && post.defaults == pre.defaults
    ensures Concerns(s, pre, post, Some(name), false, false, false) <==> Inherits(s, pre, post, name)
  {
    var p := Place(s.kind, Some(name));
    assert EntriesOf(pre.sections, p) == EntriesOf(post.sections, p);
    forall i | 0 <= i < |s.entries|
      ensures DeltaOf(s, pre, post, Some(name), s.entries[i]).changed <==>
        s.entries[i] !in EntriesOf(pre.sections, p) &&
        Effective(pre, s.kind, None, s.entries[i]) != Effective(post, s.kind, None, s.entries[i])
    {}
  }

  // With a default section the handler hears of the default name twice exactly when the
  // stand-in appears or goes while a section of that name is there and, but for the startup,
  // a value reads differently.
  lemma DefaultTwiceIff(s: SchemaSection, pre: Db, post: Db, startup: bool, base: seq<Fire>)
    requires s.mode == NamedWithDefault
    requires ForNames(s, pre, post, startup, Names(pre, s.kind) + Names(post, s.kind), base)
    ensures
      var preDef, postDef, name := PreDefault(s, pre, startup), PostDefault(s, post), Some(s.defName);
      (exists i, j :: 0 <= i < |base| && 0 <= j < |Extra(s, pre, post, startup)|
        && base[i].name == name && Extra(s, pre, post, startup)[j].name == name) <==>
      preDef != postDef && (Has(pre, s.kind, name) || Has(post, s.kind, name))
      && (startup || Differs(s, pre, post, name))
  {
    var preDef, postDef, name := PreDefault(s, pre, startup), PostDefault(s, post), Some(s.defName);
    NamesHas(pre, s.kind, name);
    NamesHas(post, s.kind, name);
    var extra := Extra(s, pre, post, startup);
    assert Concerns(s, pre, post, name, true, preDef, postDef);
    if preDef != postDef && !startup && (Has(pre, s.kind, name) || Has(post, s.kind, name)) {
      assert PreFound(s, pre, name, startup, preDef) != Missing && PostFound(s, post, name, postDef) != Missing;
    }
    hide Differs, Names, Deltas, Concerns;
    assert preDef != postDef ==> extra == [FireOf(s, pre, post, name, true, preDef, postDef)];
    if i, j :| 0 <= i < |base| && 0 <= j < |extra| && base[i].name == name && extra[j].name == name {
      assert base[i].name in Names(pre, s.kind) + Names(post, s.kind);
    }
    if name in Names(pre, s.kind) + Names(post, s.kind) && preDef != postDef
      && Concerns(s, pre, post, name, startup, preDef, postDef) {
      var f := FireOf(s, pre, post, name, startup, preDef, postDef);
      assert f in base;
      assert extra[0].name == name;
    }
  }

  // The section of the default name was the last one, and it goes with its value: the handler
  // is called for it twice.
  method DefaultTwice(engine: Engine, s: SchemaSection, value: CString) returns (ghost base: seq<Fire>)
    requires s.mode == NamedWithDefault && s.entries != []
    modifies engine, s
    ensures exists i, j ::
      && |old(engine.fired)| <= i < j < |engine.fired|
      && engine.fired[i].name == engine.fired[j].name == Some(s.defName)
  {
    var name, e := Some(s.defName), s.entries[0];
    var pre := Db({s.kind}, map[Place(s.kind, name) := map[e := [value]]], map[]);
    var post := Db({}, map[], map[]);
    LastGoes(s, pre, post, e, value);
    base := engine.HandleSection(s, pre, post, false);
    DefaultTwiceIff(s, pre, post, false, base);
    TwoFires(old(engine.fired), base, Extra(s, pre, post, false), name);
  }

  lemma LastGoes(s: SchemaSection, pre: Db, post: Db, e: Key, value: CString)
    requires s.mode == NamedWithDefault && s.entries != [] && s.entries[0] == e
    requires pre == Db({s.kind}, map[Place(s.kind, Some(s.defName)) := map[e := [value]]], map[])
    requires post == Db({}, map[], map[])
    ensures WellFiled(pre) && WellFiled(post) && Has(pre, s.kind, Some(s.defName))
    ensures !PreDefault(s, pre, false) && PostDefault(s, post) && Differs(s, pre, post, Some(s.defName))
  {
    var p := Place(s.kind, Some(s.defName));
    assert p in pre.sections && p.kind == s.kind && p.name != None;
    assert DeltaOf(s, pre, post, Some(s.defName), s.entries[0]).changed;
  }

  lemma TwoFires(before: seq<Fire>, base: seq<Fire>, extra: seq<Fire>, name: Option<Key>)
    requires exists i, j :: 0 <= i < |base| && 0 <= j < |extra| && base[i].name == name && extra[j].name == name
    ensures
      var all := before + base + extra;
      exists i, j :: |before| <= i < j < |all| && all[i].name == all[j].name == name
  {
    var i, j :| 0 <= i < |base| && 0 <= j < |extra| && base[i].name == name && extra[j].name == name;
    var all := before + base + extra;
    assert all[|before| + i] == base[i] && all[|before| + |base| + j] == extra[j];
  }
}
