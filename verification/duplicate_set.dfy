// src-plugins/subsystems/oonf_duplicate_set.c: duplicate detection with a sliding
// window of 32 over wrapping sequence numbers, one entry per originator and type.
//
// The entries of the code (a bit history and a wrapping counter) are proved to refine
// entries on unbounded positions: a set of positions seen since the last reset.
module DuplicateSets {
  import opened Words

  const MAXIMUM_TOO_OLD: nat := 8
  const WINDOW: nat := 32

  datatype SetType = Bits8 | Bits16 | Bits32 | Bits64
  datatype Verdict = TooOld | Duplicate | New | Current | Newest | First

  function Modulus(t: SetType): nat
  {
    match t
    case Bits8 => 0x100
    case Bits16 => 0x1_0000
    case Bits32 => 0x1_0000_0000
    case Bits64 => TWO_TO_64
  }

  // r stands for the difference d of two numbers that wrap at m: the one
  // representative of d modulo m in the signed range of that width.
  ghost predicate Represents(m: nat, r: int, d: int)
    requires m > 0
  {
    (r - d) % m == 0 && -(m / 2) <= r < m - m / 2
  }

  ghost function Rep(m: nat, d: int): int
    requires m > 0
  {
    (d + m / 2) % m - m / 2
  }

  // ----- the specification: entries on unbounded positions -----

  // pos is the position of the newest number cur; seen are the positions accepted since
  // the last reset; strikes counts too old numbers.
  datatype State = State(pos: int, cur: nat, seen: set<int>, strikes: nat)

  ghost predicate StateOk(m: nat, st: State)
    requires m > 0
  {
    && (st.pos - st.cur) % m == 0
    && st.pos in st.seen && (forall p :: p in st.seen ==> p <= st.pos)
    && st.strikes <= MAXIMUM_TOO_OLD
  }

  // The position of sequence number s, as seen from the newest one.
  ghost function Place(m: nat, st: State, s: nat): int
    requires m > 0
  {
    st.pos + Rep(m, s - st.cur)
  }

  ghost predicate Late(m: nat, st: State, s: nat)
    requires m > 0
  {
    s != st.cur && Place(m, st, s) <= st.pos - WINDOW
  }

  ghost predicate Resets(m: nat, st: State, s: nat)
    requires m > 0
  {
    Late(m, st, s) && st.strikes == MAXIMUM_TOO_OLD
  }

  ghost function Step(m: nat, st: State, s: nat, record: bool): (State, Verdict)
    requires m > 0
  {
    var p := Place(m, st, s);
    if s == st.cur then (st, Current)
    else if Resets(m, st, s) then (State(p, s, {p}, 0), Newest)
    else if Late(m, st, s) then (st.(strikes := st.strikes + 1), TooOld)
    else if p in st.seen then (st.(strikes := 0), Duplicate)
    else if p <= st.pos then (if record then st.(seen := st.seen + {p}, strikes := 0) else st.(strikes := 0), New)
    else (if record then State(p, s, st.seen + {p}, 0) else st.(strikes := 0), Newest)
  }

  // ----- properties of whole runs of the specification -----

  datatype Input = Input(seqno: nat, record: bool)

  ghost function After(m: nat, st: State, ins: seq<Input>): State
    requires m > 0
  {
    if ins == [] then st
    else Step(m, After(m, st, ins[..|ins| - 1]), ins[|ins| - 1].seqno, ins[|ins| - 1].record).0
  }

  ghost function Verdicts(m: nat, st: State, ins: seq<Input>): (vs: seq<Verdict>)
    requires m > 0
    ensures |vs| == |ins|
  {
    if ins == [] then []
    else
      var before := ins[..|ins| - 1];
      Verdicts(m, st, before) + [Step(m, After(m, st, before), ins[|ins| - 1].seqno, ins[|ins| - 1].record).1]
  }

  // The state in which input i of a run arrives.
  ghost function At(m: nat, st: State, ins: seq<Input>, i: nat): State
    requires m > 0 && i <= |ins|
  {
    After(m, st, ins[..i])
  }

  ghost predicate ResetAt(m: nat, st: State, ins: seq<Input>, i: nat)
    requires m > 0 && i < |ins|
  {
    Resets(m, At(m, st, ins, i), ins[i].seqno)
  }

  // Input i enters the set of accepted positions, by being recorded or by a reset.
  ghost predicate AcceptedAt(m: nat, st: State, ins: seq<Input>, i: nat)
    requires m > 0 && i < |ins|
  {
    var v := Step(m, At(m, st, ins, i), ins[i].seqno, ins[i].record).1;
    (v == New || v == Newest) && (ins[i].record || ResetAt(m, st, ins, i))
  }

  ghost function PlaceAt(m: nat, st: State, ins: seq<Input>, i: nat): int
    requires m > 0 && i < |ins|
  {
    Place(m, At(m, st, ins, i), ins[i].seqno)
  }

  lemma {:induction false} StepOk(m: nat, st: State, s: nat, record: bool)
    requires m > 0 && StateOk(m, st)
    ensures StateOk(m, Step(m, st, s, record).0)
  {
    PlaceCongruent(m, st, s);
  }

  lemma AtNext(m: nat, st: State, ins: seq<Input>, i: nat)
    requires m > 0 && i < |ins|
    ensures At(m, st, ins, i + 1) == Step(m, At(m, st, ins, i), ins[i].seqno, ins[i].record).0
  {
    assert ins[..i + 1][..i] == ins[..i];
  }

  lemma {:induction false} RunOk(m: nat, st: State, ins: seq<Input>)
    requires m > 0 && StateOk(m, st)
    ensures StateOk(m, After(m, st, ins))
  {
    if ins != [] {
      var before := ins[..|ins| - 1];
      RunOk(m, st, before);
      StepOk(m, After(m, st, before), ins[|ins| - 1].seqno, ins[|ins| - 1].record);
    }
  }

  // Which numbers are accepted: those ahead of the window or inside it and not yet seen.
  lemma AcceptedIff(m: nat, st: State, s: nat)
    requires m > 0 && StateOk(m, st) && !Resets(m, st, s)
    ensures var (next, v) := Step(m, st, s, true);
      var p := Place(m, st, s);
      && (v == New || v == Newest <==> s != st.cur && p > st.pos - WINDOW && p !in st.seen)
      && next.seen == (if v == New || v == Newest then st.seen + {p} else st.seen)
      && (v == Newest <==> s != st.cur && p > st.pos)
  {
    if s != st.cur && Place(m, st, s) > st.pos {
      assert Place(m, st, s) !in st.seen;
    }
  }

  lemma StepGrows(m: nat, st: State, s: nat, record: bool)
    requires m > 0 && !Resets(m, st, s)
    ensures var next := Step(m, st, s, record).0; st.seen <= next.seen && st.pos <= next.pos
  {}

  // Between resets, what has been seen stays seen and the newest number never moves back.
  lemma {:induction false} SeenGrows(m: nat, st: State, ins: seq<Input>, a: nat, b: nat)
    requires m > 0 && a <= b <= |ins|
    requires forall i :: a <= i < b ==> !ResetAt(m, st, ins, i)
    ensures At(m, st, ins, a).seen <= At(m, st, ins, b).seen && At(m, st, ins, a).pos <= At(m, st, ins, b).pos
    decreases b
  {
    hide Step, After, Resets;
    if a < b {
      SeenGrows(m, st, ins, a, b - 1);
      AtNext(m, st, ins, b - 1);
      assert !ResetAt(m, st, ins, b - 1);
      StepGrows(m, At(m, st, ins, b - 1), ins[b - 1].seqno, ins[b - 1].record);
    }
  }

  // No position is accepted twice between resets; the one that a reset starts with counts.
  lemma {:induction false} AcceptedOnce(m: nat, st: State, ins: seq<Input>, a: nat, b: nat)
    requires m > 0 && StateOk(m, st) && a < b < |ins|
    requires forall i :: a < i <= b ==> !ResetAt(m, st, ins, i)
    requires AcceptedAt(m, st, ins, a) && AcceptedAt(m, st, ins, b)
    ensures PlaceAt(m, st, ins, a) != PlaceAt(m, st, ins, b)
  {
    hide Step, Resets, After;
    RunOk(m, st, ins[..b]);
    Enters(m, At(m, st, ins, a), ins[a].seqno, ins[a].record);
    AtNext(m, st, ins, a);
    SeenGrows(m, st, ins, a + 1, b);
    Unseen(m, At(m, st, ins, b), ins[b].seqno, ins[b].record);
  }

  lemma Enters(m: nat, st: State, s: nat, record: bool)
    requires m > 0
    ensures
      var (next, v) := Step(m, st, s, record);
      (v == New || v == Newest) && (record || Resets(m, st, s)) ==> Place(m, st, s) in next.seen
  {}

  lemma Unseen(m: nat, st: State, s: nat, record: bool)
    requires m > 0 && StateOk(m, st) && !Resets(m, st, s)
    ensures
      var v := Step(m, st, s, record).1;
      v == New || v == Newest ==> Place(m, st, s) !in st.seen
  {}

  // The number of too old verdicts at the end of a run, looking through current ones.
  ghost function Trailing(vs: seq<Verdict>): nat
  {
    if vs == [] then 0
    else
      var before, last := vs[..|vs| - 1], vs[|vs| - 1];
      if last == TooOld then Trailing(before) + 1 else if last == Current then Trailing(before) else 0
  }

  lemma {:induction false} StrikesAreTrailing(m: nat, st: State, ins: seq<Input>)
    requires m > 0 && st.strikes == 0
    ensures After(m, st, ins).strikes == Trailing(Verdicts(m, st, ins))
  {
    hide Step;
    if ins != [] {
      var before, last := ins[..|ins| - 1], ins[|ins| - 1];
      StrikesAreTrailing(m, st, before);
      var vs := Verdicts(m, st, ins);
      assert vs[..|vs| - 1] == Verdicts(m, st, before);
      StepStrikes(m, After(m, st, before), last.seqno, last.record);
    }
  }

  lemma StepStrikes(m: nat, st: State, s: nat, record: bool)
    requires m > 0
    ensures
      var (next, v) := Step(m, st, s, record);
      next.strikes == if v == TooOld then st.strikes + 1 else if v == Current then st.strikes else 0
  {}

  // A reset happens exactly at the ninth number in a row that is too old, where
  // repetitions of the current number do not break the row.
  lemma ResetExactly(m: nat, st: State, ins: seq<Input>, s: nat)
    requires m > 0 && st.strikes == 0
    ensures var a := After(m, st, ins);
      Resets(m, a, s) <==> Late(m, a, s) && Trailing(Verdicts(m, st, ins)) == 8
  {
    StrikesAreTrailing(m, st, ins);
  }

  // A sender that starts again with old numbers is always let in again: the row of
  // too old numbers is at most nine long, and its last one becomes the current number.
  lemma {:induction false} Readmitted(m: nat, st: State, ins: seq<Input>)
    requires m > 0 && st.strikes <= 8 && |ins| == 9 - st.strikes
    requires forall i :: 0 <= i < |ins| ==> Late(m, st, ins[i].seqno)
    ensures var a, last := After(m, st, ins), ins[|ins| - 1].seqno;
      && Verdicts(m, st, ins)[|ins| - 1] == Newest
      && a == State(Place(m, st, last), last, {Place(m, st, last)}, 0)
      && forall i :: 0 <= i < |ins| - 1 ==> Verdicts(m, st, ins)[i] == TooOld
  {
    var n := |ins| - 1;
    StruckOut(m, st, ins[..n]);
  }

  lemma {:induction false} StruckOut(m: nat, st: State, ins: seq<Input>)
    requires m > 0 && st.strikes + |ins| <= MAXIMUM_TOO_OLD
    requires forall i :: 0 <= i < |ins| ==> Late(m, st, ins[i].seqno)
    ensures After(m, st, ins) == st.(strikes := st.strikes + |ins|)
    ensures forall i :: 0 <= i < |ins| ==> Verdicts(m, st, ins)[i] == TooOld
  {
    if ins != [] {
      var n := |ins| - 1;
      StruckOut(m, st, ins[..n]);
      assert Late(m, After(m, st, ins[..n]), ins[n].seqno);
    }
  }

  // A test that is not to record anything still counts strikes, and may even reset the
  // entry. It leaves the entry alone exactly when the number is the current one, or is
  // not too old while no strikes are pending.
  lemma TestOnlyUnchanged(m: nat, st: State, s: nat)
    requires m > 0
    ensures Step(m, st, s, false).0 == st <==> s == st.cur || (!Late(m, st, s) && st.strikes == 0)
  {
    if Resets(m, st, s) {
      assert Step(m, st, s, false).0.strikes != st.strikes;
    }
  }

  // The ninth late number resets an entry that is only being tested.
  lemma TestOnlyResets()
    ensures var st := State(1000, 1000, {1000}, 8);
      StateOk(0x1_0000, st) && Step(0x1_0000, st, 900, false) == (State(900, 900, {900}, 0), Newest)
  {}

  // ----- the specification in plain numbers -----

  lemma ModulusOf(t: SetType)
    ensures Modulus(t) == match t
      case Bits8 => 256
      case Bits16 => 65536
      case Bits32 => 4294967296
      case Bits64 => 18446744073709551616
  {}

  // What becomes of a number by its signed difference r to the current one, recorded or not.
  lemma ByDifference(t: SetType, st: State, s: nat, r: int, record: bool)
    requires StateOk(Modulus(t), st)
    requires (r - (s - st.cur)) % Modulus(t) == 0 && -(Modulus(t) / 2) <= r < Modulus(t) / 2
    ensures
      var (next, v) := Step(Modulus(t), st, s, record);
      var p := st.pos + r;
      && (s == st.cur ==> v == Current && next == st)
      && (s != st.cur && r >= 1 ==>
        v == Newest && next == if record then State(p, s, st.seen + {p}, 0) else st.(strikes := 0))
      && (s != st.cur && -31 <= r <= 0 && p !in st.seen ==>
        v == New && next == if record then st.(seen := st.seen + {p}, strikes := 0) else st.(strikes := 0))
      && (s != st.cur && -31 <= r <= 0 && p in st.seen ==> v == Duplicate && next == st.(strikes := 0))
      && (s != st.cur && r <= -32 && st.strikes < 8 ==> v == TooOld && next == st.(strikes := st.strikes + 1))
      && (s != st.cur && r <= -32 && st.strikes == 8 ==> v == Newest && next == State(p, s, {p}, 0))
  {
    RepUnique(Modulus(t), r, s - st.cur);
  }

  // Bit i of the history is the position i behind the newest one, for 32 positions.
  lemma HistoryBits(e: DuplicateEntry, t: SetType)
    requires e.Valid(Modulus(t))
    ensures forall i: nat :: i < 32 ==> (Bit(e.history, i) <==> e.pos - i in e.seen)
    ensures e.tooOldCount <= 8 && (e.pos - e.current) % Modulus(t) == 0 && e.pos in e.seen
    ensures forall p :: p in e.seen ==> p <= e.pos
  {
    hide Bit;
  }

  // A number that was out of order, recorded once and a duplicate from then on.
  lemma OutOfOrder(t: SetType, st: State, back: nat)
    requires StateOk(Modulus(t), st) && st.cur < Modulus(t) && 1 <= back <= 31 && st.pos - back !in st.seen
    ensures
      var m := Modulus(t);
      var s := (st.cur - back) % m;
      var (next, v) := Step(m, st, s, true);
      && v == New && next.pos == st.pos && next.seen == st.seen + {st.pos - back}
      && Step(m, next, s, true).1 == Duplicate && Step(m, next, s, false).1 == Duplicate
  {
    var m := Modulus(t);
    var s := (st.cur - back) % m;
    DivMod(st.cur - back, m);
    Lagging(m, st.cur, back);
    ByDifference(t, st, s, 0 - back, true);
    var next := Step(m, st, s, true).0;
    ByDifference(t, next, s, 0 - back, true);
    ByDifference(t, next, s, 0 - back, false);
  }

  lemma Lagging(m: nat, cur: nat, back: nat)
    requires 0 < back < m
    ensures (0 - back - ((cur - back) % m - cur)) % m == 0 && (cur - back) % m != cur
  {
    var q, r := (cur - back) / m, (cur - back) % m;
    DivMod(cur - back, m);
    assert 0 - back - (r - cur) == 0 + m * q;
    ModShift(0, m, q);
    if r == cur {
      SmallMultiple(m, q);
    }
  }

  // ----- the code -----

  type Address(==)
  datatype DupKey = DupKey(addr: Address, msgType: nat)

  class DuplicateEntry {
    var history: Uint64
    var current: Uint64
    var tooOldCount: nat
    ghost var pos: int
    ghost var seen: set<int>

    ghost predicate Valid(m: nat)
      requires m > 0
      reads this
    {
      && StateOk(m, Abs())
      && forall i: nat :: i < WINDOW ==> (Bit(history, i) <==> pos - i in seen)
    }

    ghost function Abs(): State
      reads this
    {
      State(pos, current, seen, tooOldCount)
    }

    constructor (seqno: Uint64, ghost m: nat)
      requires m > 0
      ensures Valid(m) && Abs() == State(seqno, seqno, {seqno as int}, 0)
    {
      current := seqno;
      history := 1;
      tooOldCount := 0;
      pos := seqno;
      seen := {seqno as int};
      new;
      forall i: nat | i < WINDOW ensures Bit(1, i) <==> i == 0 {
        OneBit(i);
      }
    }

    // The entry starts anew with seqno.
    method Restart(seqno: Uint64, ghost m: nat, ghost p: int)
      requires m > 0 && (p - seqno) % m == 0
      modifies this
      ensures Valid(m) && Abs() == State(p, seqno, {p}, 0)
    {
      history := 1;
      tooOldCount := 0;
      current := seqno;
      pos, seen := p, {p};
      forall i: nat | i < WINDOW ensures Bit(1, i) <==> i == 0 {
        OneBit(i);
      }
    }

    // history |= 1 << back
    method Mark(back: nat, ghost m: nat)
      requires m > 0 && Valid(m) && back < WINDOW
      modifies this
      ensures Valid(m) && Abs() == old(Abs()).(seen := old(seen) + {old(pos) - back})
    {
      PowAt64();
      SetBitFits(history, back, 64);
      forall i: nat | i < WINDOW {
        SetBitBits(history, back, i);
      }
      history := SetBit(history, back);
      seen := seen + {pos - back};
    }

    // A newer number: the window moves ahead by diff.
    method Advance(seqno: Uint64, diff: nat, ghost m: nat)
      requires m > 0 && Valid(m) && diff > 0 && (pos + diff - seqno) % m == 0
      modifies this
      ensures Valid(m) && Abs() == State(old(pos) + diff, seqno, old(seen) + {old(pos) + diff}, old(tooOldCount))
    {
      current := seqno;
      ghost var was := seen;
      pos, seen := pos + diff, seen + {pos + diff};
      if diff >= 32 {
        history := 1;
        forall i: nat | i < WINDOW ensures Bit(1, i) <==> pos - i in seen {
          OneBit(i);
        }
      } else {
        ghost var h := history;
        history := ShiftLeft(history, diff);
        PowAt64();
        SetBitFits(history, 0, 64);
        history := SetBit(history, 0);
        forall i: nat | i < WINDOW ensures Bit(history, i) <==> pos - i in seen {
          ShiftBits(h, diff, i);
          SetBitBits(ShiftLeft(h, diff), 0, i);
        }
      }
    }
  }

  lemma {:induction false} ZeroBit(i: nat)
    ensures !Bit(0, i)
  {
    if i > 0 {
      ZeroBit(i - 1);
    }
  }

  lemma OneBit(i: nat)
    ensures Bit(1, i) <==> i == 0
  {
    if i > 0 {
      ZeroBit(i - 1);
    }
  }

  class DuplicateSet {
    const kind: SetType
    var mask: nat
    var limit: nat
    var offset: nat
    var tree: map<DupKey, DuplicateEntry>

    ghost predicate Widths()
      reads `mask, `limit, `offset
    {
      if kind == Bits64 then mask == limit == offset == 0
      else mask == Modulus(kind) - 1 && limit == Modulus(kind) / 2 - 1 && offset == Modulus(kind)
    }

    ghost predicate Valid()
      reads this, tree.Values
    {
      && Widths()
      && (forall k :: k in tree ==> tree[k].Valid(Modulus(kind)))
      && (forall k, l :: k in tree && l in tree && k != l ==> tree[k] != tree[l])
    }

    // oonf_duplicate_set_add
    constructor (kind: SetType)
      ensures Valid() && tree == map[] && this.kind == kind
    {
      this.kind := kind;
      mask, limit, offset := 0, 0, 0;
      tree := map[];
      new;
      if kind != Bits64 {
        mask := if kind == Bits8 then 255 else if kind == Bits16 then 65535 else 4294967295;
        offset := mask + 1;
        limit := mask / 2;
      }
    }

    // _seqno_difference. The mask is one below a power of two, so the bitwise and of the
    // code is the remainder modulo mask + 1.
    function SeqnoDifference(seqno1: Uint64, seqno2: Uint64): (r: int)
      requires Widths()
      reads `mask, `limit, `offset
      ensures Represents(Modulus(kind), r, seqno1 - seqno2)
    {
      var diff := (seqno1 - seqno2) % TWO_TO_64;
      assert diff == if seqno1 >= seqno2 then seqno1 - seqno2 else seqno1 - seqno2 + TWO_TO_64;
      var reldiff := if diff < TWO_TO_64 / 2 then diff else diff - TWO_TO_64;
      if mask == 0 then
        WideDifference(seqno1 - seqno2, reldiff,
          (if seqno1 >= seqno2 then 0 else 1) - (if diff < TWO_TO_64 / 2 then 0 else 1));
        reldiff
      else
        NarrowDifference(kind, seqno1 - seqno2, reldiff,
          (if seqno1 >= seqno2 then 0 else 1) - (if diff < TWO_TO_64 / 2 then 0 else 1));
        var masked := reldiff % (mask + 1);
        if masked > limit then masked - offset else masked
    }

    // _test
    method Test(entry: DuplicateEntry, seqno: Uint64, record: bool) returns (v: Verdict)
      requires Widths() && entry.Valid(Modulus(kind))
      modifies entry
      ensures entry.Valid(Modulus(kind))
      ensures (entry.Abs(), v) == Step(Modulus(kind), old(entry.Abs()), seqno, record)
    {
      hide Bit, SetBit, ShiftLeft;
      if seqno == entry.current {
        return Current;
      }
      var diff := SeqnoDifference(seqno, entry.current);
      ghost var m, st := Modulus(kind), entry.Abs();
      RepUnique(m, diff, seqno - entry.current);
      PlaceCongruent(m, st, seqno);
      if diff < -31 {
        entry.tooOldCount := entry.tooOldCount + 1;
        if entry.tooOldCount > MAXIMUM_TOO_OLD {
          entry.Restart(seqno, m, st.pos + diff);
          return Newest;
        }
        return TooOld;
      }
      entry.tooOldCount := 0;
      if diff <= 0 {
        assert Bit(entry.history, -diff) <==> st.pos - (-diff) in st.seen;
        if Bit(entry.history, -diff) {
          return Duplicate;
        }
        if record {
          entry.Mark(-diff, m);
        }
        return New;
      }
      if record {
        entry.Advance(seqno, diff, m);
      }
      return Newest;
    }

    // What the set remembers about every originator and type.
    ghost function Model(): map<DupKey, State>
      reads this, tree.Values
    {
      map k | k in tree :: tree[k].Abs()
    }

    // oonf_duplicate_entry_add
    method EntryAdd(key: DupKey, seqno: Uint64, memory: bool) returns (result: Verdict)
      requires Valid()
      modifies this, tree.Values
      ensures Valid() && fresh(tree.Values - old(tree.Values))
      ensures key !in old(Model()) && !memory ==> result == TooOld && Model() == old(Model())
      ensures key !in old(Model()) && memory ==>
        result == First && Model() == old(Model())[key := State(seqno, seqno, {seqno as int}, 0)]
      ensures key in old(Model()) ==>
        var (st, v) := Step(Modulus(kind), old(Model())[key], seqno, true);
        result == v && Model() == old(Model())[key := st]
    {
      if key !in tree {
        if !memory {
          return TooOld;
        }
        Admit(key, seqno);
        return First;
      }
      result := Test(tree[key], seqno, true);
    }

    method Admit(key: DupKey, seqno: Uint64)
      requires Valid() && key !in tree
      modifies `tree
      ensures Valid() && fresh(tree.Values - old(tree.Values))
      ensures Model() == old(Model())[key := State(seqno, seqno, {seqno as int}, 0)]
    {
      hide StateOk, Bit;
      var entry := new DuplicateEntry(seqno, Modulus(kind));
      tree := tree[key := entry];
    }

    // oonf_duplicate_test
    method TestOnly(key: DupKey, seqno: Uint64) returns (result: Verdict)
      requires Valid()
      modifies tree.Values
      ensures Valid()
      ensures key !in Model() ==> result == First && Model() == old(Model())
      ensures key in Model() ==>
        var (st, v) := Step(Modulus(kind), old(Model())[key], seqno, false);
        result == v && Model() == old(Model())[key := st]
    {
      if key !in tree {
        return First;
      }
      result := Test(tree[key], seqno, false);
    }

    // _remove_duplicate_entry, when the validity time of an entry is over
    method Expire(key: DupKey)
      requires Valid() && key in tree
      modifies `tree
      ensures Valid() && Model() == old(Model()) - {key}
    {
      tree := tree - {key};
    }
  }

  lemma {:induction false} RepRepresents(m: nat, d: int)
    requires m > 0
    ensures Represents(m, Rep(m, d), d)
  {
    var h := m / 2;
    DivMod(d + h, m);
    var q := (d + h) / m;
    assert Rep(m, d) - d == 0 + m * -q;
    ModShift(0, m, -q);
  }

  // Nothing else in the range represents d.
  lemma {:induction false} RepUnique(m: nat, r: int, d: int)
    requires m > 0 && Represents(m, r, d)
    ensures r == Rep(m, d)
  {
    RepRepresents(m, d);
    DivMod(r - d, m);
    DivMod(Rep(m, d) - d, m);
    var k, l := (r - d) / m, (Rep(m, d) - d) / m;
    Distribute(m, k, l);
    SmallMultiple(m, k - l);
  }

  lemma {:induction false} PlaceCongruent(m: nat, st: State, s: nat)
    requires m > 0 && (st.pos - st.cur) % m == 0
    ensures (Place(m, st, s) - s) % m == 0
  {
    var d := s - st.cur;
    RepRepresents(m, d);
    DivMod(Rep(m, d) - d, m);
    DivMod(st.pos - st.cur, m);
    var k, l := (Rep(m, d) - d) / m, (st.pos - st.cur) / m;
    Distribute(m, k, l);
    ModShift(0, m, k + l);
  }

  // The three narrow widths divide the 64-bit word the code subtracts in.
  lemma WidthDivides(t: SetType) returns (k: nat)
    requires t != Bits64
    ensures Modulus(t) * k == TWO_TO_64
  {
    k := match t case Bits8 => 0x100_0000_0000_0000 case Bits16 => 0x1_0000_0000_0000 case Bits32 => 0x1_0000_0000;
  }

  lemma WideDifference(d: int, wrapped: int, j: int)
    requires wrapped == d + TWO_TO_64 * j && -(TWO_TO_64 / 2) <= wrapped < TWO_TO_64 / 2
    ensures Represents(TWO_TO_64, wrapped, d)
  {
    ModShift(0, TWO_TO_64, j);
  }

  // What the code computes from the wrapped difference.
  lemma NarrowDifference(t: SetType, d: int, wrapped: int, j: int)
    requires t != Bits64 && wrapped == d + TWO_TO_64 * j
    ensures var m, w := Modulus(t), wrapped % Modulus(t);
      Represents(m, if w > m / 2 - 1 then w - m else w, d)
  {
    var m, w := Modulus(t), wrapped % Modulus(t);
    var k := WidthDivides(t);
    assert wrapped == d + m * (k * j) by { Associate(m, k, j); }
    ModShift(d, m, k * j);
    DivMod(d, m);
    ModShift(0, m, -(d / m));
    ModShift(0, m, -(d / m) - 1);
    Distribute(m, -(d / m), 1);
  }
}
