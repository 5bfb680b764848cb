// src-api/common/isonumber.c: printing and parsing fixed-point numbers with ISO prefixes.
module IsoNumbers {
  import opened Options
  import opened Words

  const INT64_MIN: int := -0x8000_0000_0000_0000

  type Int64 = x: int | -0x8000_0000_0000_0000 <= x < 0x8000_0000_0000_0000

  function Pow(b: nat, n: nat): (p: nat)
    requires b > 0
    ensures p > 0
  {
    if n == 0 then 1 else b * Pow(b, n - 1)
  }

  lemma {:induction false} PowSum(b: nat, m: nat, n: nat)
    requires b > 0
    ensures Pow(b, m + n) == Pow(b, m) * Pow(b, n)
  {
    if m > 0 {
      PowSum(b, m - 1, n);
      Associate(b, Pow(b, m - 1), Pow(b, n));
    }
  }

  // ----- digits -----

  predicate IsDigit(c: char) {
    '0' <= c <= '9'
  }

  function Digit(d: nat): (c: char)
    requires d < 10
    ensures IsDigit(c) && DigitValue(c) == d
  {
    '0' + d as char
  }

  function DigitValue(c: char): (d: nat)
    requires IsDigit(c)
    ensures d < 10
  {
    c as int - '0' as int
  }

  predicate Digits(s: string) {
    forall i :: 0 <= i < |s| ==> IsDigit(s[i])
  }

  // printf("%u")
  function Decimal(n: nat): (s: string)
    ensures Digits(s) && s != []
  {
    if n < 10 then [Digit(n)] else Decimal(n / 10) + [Digit(n % 10)]
  }

  // What a number becomes when more digits are read behind it.
  function Read(num: nat, s: string): nat
    requires Digits(s)
  {
    if s == [] then num else Read(num, s[..|s| - 1]) * 10 + DigitValue(s[|s| - 1])
  }

  lemma {:induction false} ReadDecimal(n: nat)
    ensures Read(0, Decimal(n)) == n
  {
    var s := Decimal(n);
    if n < 10 {
      assert s[..|s| - 1] == [];
    } else {
      ReadDecimal(n / 10);
      assert s[..|s| - 1] == Decimal(n / 10);
    }
  }

  lemma {:induction false} DecimalLength(n: nat, k: nat)
    requires k > 0 && n < Pow(10, k)
    ensures |Decimal(n)| <= k
  {
    if n >= 10 {
      assert Pow(10, 1) == 10;
      DecimalLength(n / 10, k - 1);
    }
  }

  lemma DecimalFits(n: Uint64)
    ensures |Decimal(n)| <= 20
  {
    assert Pow(10, 5) == 100_000;
    PowSum(10, 5, 5);
    PowSum(10, 10, 10);
    DecimalLength(n, 20);
  }

  // k digits with leading zeros
  function Padded(k: nat, v: nat): (s: string)
    ensures |s| == k && Digits(s)
  {
    if k == 0 then "" else Padded(k - 1, v / 10) + [Digit(v % 10)]
  }

  lemma {:induction false} ReadPadded(num: nat, k: nat, v: nat)
    requires v < Pow(10, k)
    ensures Read(num, Padded(k, v)) == num * Pow(10, k) + v
  {
    if k > 0 {
      var s := Padded(k, v);
      assert s[..|s| - 1] == Padded(k - 1, v / 10);
      assert v / 10 < Pow(10, k - 1);
      ReadPadded(num, k - 1, v / 10);
      Tenfold(1, num * Pow(10, k - 1) + v / 10, num, Pow(10, k - 1), v / 10);
    }
  }

  // The digits up to the last that is not zero.
  function Trimmed(k: nat, v: nat): (s: string)
    ensures |s| <= k && Digits(s)
  {
    if k == 0 then "" else if v % 10 == 0 then Trimmed(k - 1, v / 10) else Padded(k, v)
  }

  lemma TrimmedTen(k: nat, v: nat, w: nat)
    requires w == v * 10
    ensures Trimmed(k + 1, w) == Trimmed(k, v)
  {
    assert w % 10 == 0 && w / 10 == v;
  }

  lemma {:induction false} TrimmedZeros(k: nat, v: nat, z: nat)
    ensures Trimmed(k + z, v * Pow(10, z)) == Trimmed(k, v)
  {
    hide Pow, Trimmed;
    if z > 0 {
      PowNext(v, 10, z - 1);
      TrimmedTen(k + z - 1, v * Pow(10, z - 1), v * Pow(10, z));
      TrimmedZeros(k, v, z - 1);
    } else {
      SmallPowers();
    }
  }

  // Reading the trimmed digits and as many zeros as were cut off.
  lemma {:induction false} ReadTrimmed(num: nat, k: nat, v: nat)
    requires v < Pow(10, k)
    ensures Read(num, Trimmed(k, v)) * Pow(10, k - |Trimmed(k, v)|) == num * Pow(10, k) + v
  {
    if k == 0 {
      assert Trimmed(k, v) == [];
    } else if v % 10 == 0 {
      ReadTrimmed(num, k - 1, v / 10);
      var t := Trimmed(k, v);
      Tenfold(Read(num, t), Pow(10, k - 1 - |t|), num, Pow(10, k - 1), v / 10);
    } else {
      ReadPadded(num, k, v);
      assert Pow(10, 0) == 1;
    }
  }

  lemma Tenfold(a: nat, p: nat, b: nat, q: nat, c: nat)
    requires a * p == b * q + c
    ensures a * (10 * p) == b * (10 * q) + 10 * c
  {
    assert a * (10 * p) == 10 * (a * p);
    assert b * (10 * q) == 10 * (b * q);
  }

  lemma {:induction false} TrimmedStart(k: nat, v: nat)
    ensures Trimmed(k, v) <= Padded(k, v)
  {
    if k > 0 && v % 10 == 0 {
      TrimmedStart(k - 1, v / 10);
    }
  }

  // The fractional part of a text that shows v with k digits behind the point.
  function Fraction(k: nat, v: nat): string {
    if Trimmed(k, v) == "" then "" else "." + Trimmed(k, v)
  }

  // number in units of m, with three digits behind the point
  function Shown(number: nat, m: nat): string
    requires m > 0
  {
    Decimal(number / m) + Fraction(3, Thousandths(number, m))
  }

  // ----- printing -----

  // What is left to be divided after k digits of a long division in machine words:
  // the product n *= 10 may wrap around.
  function Rest(number: nat, m: nat, k: nat): (r: nat)
    requires m > 0
    ensures r < m
  {
    if k == 0 then
      Remainder(number, m);
      number % m
    else
      var x := Rest(number, m, k - 1) * 10 % TWO_TO_64;
      Remainder(x, m);
      x % m
  }

  // The first k digits of that division, as a number.
  function Digited(number: nat, m: nat, k: nat): nat
    requires m > 0
  {
    if k == 0 then 0
    else
      var x := Rest(number, m, k - 1) * 10 % TWO_TO_64;
      DivNat(x, m);
      10 * Digited(number, m, k - 1) + x / m
  }

  // How often the products of the first k digits have wrapped around, as a number of k digits.
  function Lost(number: nat, m: nat, k: nat): nat
    requires m > 0
  {
    if k == 0 then 0 else 10 * Lost(number, m, k - 1) + Rest(number, m, k - 1) * 10 / TWO_TO_64
  }

  // number in units of m, as it is printed
  function Written(number: nat, m: nat): string
    requires m > 0
  {
    Decimal(number / m) + Fraction(3, Digited(number, m, 3))
  }

  // None of the three products wraps around.
  predicate NoWraps(number: nat, m: nat)
    requires m > 0
  {
    forall k :: 0 <= k < 3 ==> 10 * Rest(number, m, k) < TWO_TO_64
  }

  lemma LostNone(number: nat, m: nat)
    requires m > 0
    ensures Lost(number, m, 3) == 0 <==> NoWraps(number, m)
  {
    hide Rest;
    assert Lost(number, m, 0) == 0;
    assert Lost(number, m, 1) == Rest(number, m, 0) * 10 / TWO_TO_64;
    assert Lost(number, m, 2) == 10 * Lost(number, m, 1) + Rest(number, m, 1) * 10 / TWO_TO_64;
  }

  // The division is exact but for what has wrapped around.
  lemma {:induction false} LongDivision(number: nat, m: nat, k: nat)
    requires m > 0
    ensures number % m * Pow(10, k) ==
      m * Digited(number, m, k) + Rest(number, m, k) + TWO_TO_64 * Lost(number, m, k)
  {
    hide Rest, Digited, Lost, Pow;
    DivisionStart(number, m);
    if k > 0 {
      LongDivision(number, m, k - 1);
      var r, v, lost := Rest(number, m, k - 1), Digited(number, m, k - 1), Lost(number, m, k - 1);
      var x, q := r * 10 % TWO_TO_64, r * 10 / TWO_TO_64;
      DivisionStep(number, m, k - 1, v, r);
      LostStep(number, m, k - 1);
      DivNat(x, m);
      DivMod(r * 10, TWO_TO_64);
      DivMod(x, m);
      OneDigit(number % m, Pow(10, k - 1), m, v, r, lost, x / m, x % m, q);
    }
  }

  lemma OneDigit(rem: nat, p: nat, m: nat, v: nat, r: nat, lost: nat, d: nat, rest: nat, q: nat)
    requires rem * p == m * v + r + TWO_TO_64 * lost && r * 10 == m * d + rest + TWO_TO_64 * q
    ensures rem * (10 * p) == m * (10 * v + d) + rest + TWO_TO_64 * (10 * lost + q)
  {
    Distribute(m, 10 * v, d);
    Associate(m, v, 10);
    assert rem * (10 * p) == 10 * (rem * p);
  }

  // The digits behind a remainder of nothing are zeros.
  lemma {:induction false} Stopped(number: nat, m: nat, k: nat)
    requires m > 0 && k <= 3 && (Rest(number, m, k) == 0 || k == 3)
    ensures Fraction(k, Digited(number, m, k)) == Fraction(3, Digited(number, m, 3))
    decreases 3 - k
  {
    hide Fraction;
    if k < 3 {
      DivMod(0, m);
      ModOf(0, m, 0, 0);
      ModUnique(0, m, 0, 0);
      SmallPowers();
      FractionZeros(k, Digited(number, m, k), 1);
      Stopped(number, m, k + 1);
    }
  }

  lemma {:induction false} FractionInjective(v: nat, w: nat)
    requires v < 1000 && w < 1000 && Fraction(3, v) == Fraction(3, w)
    ensures v == w
  {
    SmallPowers();
    ReadTrimmed(0, 3, v);
    ReadTrimmed(0, 3, w);
    var t, u := Trimmed(3, v), Trimmed(3, w);
    assert t == if t == "" then "" else ("." + t)[1..];
    assert u == if u == "" then "" else ("." + u)[1..];
  }

  // What is printed is less than it should be as soon as a product wraps around.
  lemma DigitedIff(number: nat, m: Uint64)
    requires m > 0
    ensures Digited(number, m, 3) <= Thousandths(number, m) < 1000
    ensures Digited(number, m, 3) == Thousandths(number, m) <==> NoWraps(number, m)
  {
    hide Rest, Digited, Lost, NoWraps, Pow;
    SmallPowers();
    LongDivision(number, m, 3);
    LostNone(number, m);
    ShownBounds(number, m);
    var x, v, r, lost := number % m * 1000, Digited(number, m, 3), Rest(number, m, 3), Lost(number, m, 3);
    if lost == 0 {
      ModUnique(x, m, v, r);
    } else {
      var t := x / m;
      DivMod(x, m);
      if t <= v {
        MulMonotone(m, t, v);
        assert false;
      }
    }
  }

  lemma WrittenIff(number: nat, m: Uint64)
    requires m > 0
    ensures Written(number, m) == Shown(number, m) <==> NoWraps(number, m)
  {
    hide Thousandths, Digited, NoWraps, Fraction, Decimal;
    DigitedIff(number, m);
    var d, v, t := Decimal(number / m), Fraction(3, Digited(number, m, 3)), Fraction(3, Thousandths(number, m));
    if d + v == d + t {
      assert (d + v)[|d|..] == v && (d + t)[|d|..] == t;
      FractionInjective(Digited(number, m, 3), Thousandths(number, m));
    }
  }

  // Units up to a tenth of the range are shown exactly.
  lemma SmallUnit(number: nat, m: nat)
    requires 0 < m && 10 * m <= TWO_TO_64
    ensures NoWraps(number, m)
  {}

  lemma SmallPowers()
    ensures Pow(10, 3) == 1000 && Pow(10, 0) == 1 && Pow(10, 1) == 10
  {}

  lemma FractionZeros(k: nat, v: nat, z: nat)
    ensures Fraction(k + z, v * Pow(10, z)) == Fraction(k, v)
  {
    TrimmedZeros(k, v, z);
  }

  method PrintDecimal(out: array<char>, at: nat, n: Uint64) returns (len: nat)
    requires at + 20 <= out.Length
    modifies out
    ensures len <= 20 && out[..at + len] == old(out[..at]) + Decimal(n)
  {
    DecimalFits(n);
    var d := Decimal(n);
    len := |d|;
    forall i | 0 <= i < |d| {
      out[at + i] := d[i];
    }
    assert out[..at] == old(out[..at]);
    assert out[..at + len] == out[..at] + out[at..at + len];
  }

  lemma Remainder(n: nat, m: nat)
    requires m > 0
    ensures 0 <= n % m < m
  {}

  // n *= 10 and the digit it gives. The product may wrap around, but not grow.
  method TakeDigit(n: Uint64, m: Uint64) returns (next: Uint64, digit: nat)
    requires n < m
    ensures next == n * 10 % TWO_TO_64 && digit == next / m && digit < 10
  {
    next := n * 10 % TWO_TO_64;
    digit := next / m;
    Below(n, m);
  }

  function Thousandths(number: nat, m: nat): nat
    requires m > 0
  {
    number % m * 1000 / m
  }

  lemma TextStep(k: nat, v: nat, d: nat)
    requires d < 10
    ensures Padded(k + 1, 10 * v + d) == Padded(k, v) + [Digit(d)]
    ensures |Fraction(k + 1, 10 * v + d)| == if d == 0 then |Fraction(k, v)| else k + 2
  {}

  lemma TextEnd(k: nat, v: nat)
    ensures |Fraction(k, v)| <= k + 1 && ("." + Padded(k, v))[..|Fraction(k, v)|] == Fraction(k, v)
  {
    TrimmedStart(k, v);
  }

  // The loop for the three digits behind the point; end is where the text ends.
  method PrintFraction(out: array<char>, at: nat, number: Uint64, multiplier: Uint64) returns (ok: bool, end: nat)
    requires multiplier > 0 && at + 4 <= out.Length
    modifies out
    ensures ok && at <= end <= at + 4
    ensures out[..end] == old(out[..at]) + Fraction(3, Digited(number, multiplier, 3))
  {
    hide Pow, Padded, Trimmed, Fraction, Rest, Digited;
    TextStart();
    DivisionStart(number, multiplier);
    var idx, len := at, at;
    out[len] := '.';
    len := len + 1;
    var n: Uint64 := number;
    var left := 3;
    ghost var v := 0;
    while true
      invariant 0 <= left <= 3 && len == at + 1 + (3 - left) && at <= idx <= len
      invariant out[..at] == old(out[..at])
      invariant n % multiplier == Rest(number, multiplier, 3 - left) && v == Digited(number, multiplier, 3 - left)
      invariant out[at..len] == "." + Padded(3 - left, v)
      invariant idx == at + |Fraction(3 - left, v)|
      decreases left
    {
      Remainder(n, multiplier);
      n := n % multiplier;
      if n == 0 || left == 0 {
        Stopped(number, multiplier, 3 - left);
        TextEnd(3 - left, v);
        Ends(out, at, idx, len);
        return true, idx;
      }
      DivisionStep(number, multiplier, 3 - left, v, n);
      var digit;
      n, digit := TakeDigit(n, multiplier);
      left := left - 1;
      if digit >= 10 {
        assert false;  // the error exit is never taken
      }
      TextStep(2 - left, v, digit);
      Extend(out, at, len, Digit(digit));
      len := len + 1;
      if digit != 0 {
        idx := len;
      }
      v := 10 * v + digit;
    }
  }

  lemma DivisionStart(number: nat, m: nat)
    requires m > 0
    ensures Rest(number, m, 0) == number % m && Digited(number, m, 0) == Lost(number, m, 0) == 0 && Pow(10, 0) == 1
  {}

  lemma DivisionStep(number: nat, m: nat, k: nat, v: nat, n: nat)
    requires m > 0 && n == Rest(number, m, k) && v == Digited(number, m, k)
    ensures var x := n * 10 % TWO_TO_64;
      x % m == Rest(number, m, k + 1) && 10 * v + x / m == Digited(number, m, k + 1)
  {}

  lemma LostStep(number: nat, m: nat, k: nat)
    requires m > 0
    ensures Lost(number, m, k + 1) == 10 * Lost(number, m, k) + Rest(number, m, k) * 10 / TWO_TO_64
    ensures Pow(10, k + 1) == 10 * Pow(10, k)
  {}

  lemma TextStart()
    ensures Padded(0, 0) == "" && Fraction(0, 0) == ""
  {}

  lemma Ends(out: array<char>, at: nat, idx: nat, len: nat)
    requires at <= idx <= len <= out.Length
    ensures out[..idx] == out[..at] + out[at..len][..idx - at]
  {}

  method Extend(out: array<char>, at: nat, len: nat, c: char)
    requires at <= len < out.Length
    modifies out
    ensures out[at..len + 1] == old(out[at..len]) + [c] && out[..at] == old(out[..at])
  {
    out[len] := c;
  }

  // The product may wrap around, but not grow.
  lemma Below(n: nat, m: nat)
    requires n < m
    ensures n * 10 % TWO_TO_64 / m < 10
  {
    var x := n * 10 % TWO_TO_64;
    assert x <= n * 10;
    DivMod(x, m);
    if x / m >= 10 {
      MulMonotone(m, 10, x / m);
    }
  }

  // ----- choosing the unit -----

  const LARGE := " kMGTPE"
  const SMALL := " munpfa"

  // The letter behind the number; there is none for the blank, nor for the end of the table.
  function Suffix(large: bool, index: nat): string
    requires index <= 7
  {
    if index == 0 || index == 7 then "" else if large then [LARGE[index]] else [SMALL[index]]
  }

  // m is the base taken up or down in steps until the number has the right size in it.
  ghost predicate Scaling(number: nat, base: nat, step: nat, raw: bool, m: nat, index: nat, large: bool)
    requires step > 0
  {
    && m > 0 && index <= 7 && (large <==> number >= base) && (raw ==> index == 0)
    && (large ==> m == base * Pow(step, index) && m <= number)
    && (large && !raw ==> index == 7 || number < m * step)
    && (!large ==> m == base / Pow(step, index) && (index > 0 ==> number < base / Pow(step, index - 1)))
    && (!large && !raw ==> index == 7 || number >= m || m < step)
  }

  lemma StepUp(number: nat, m: nat, step: nat)
    requires step > 0
    ensures number / step >= m <==> m * step <= number
  {
    DivMod(number, step);
    if number / step >= m {
      MulMonotone(step, m, number / step);
    } else {
      MulMonotone(step, number / step + 1, m);
      Distribute(step, number / step, 1);
    }
  }

  method Scale(number: Uint64, base: Uint64, step: Uint64, raw: bool)
      returns (multiplier: Uint64, index: nat, large: bool)
    requires base > 0 && step in {1000, 1024}
    ensures Scaling(number, base, step, raw, multiplier, index, large)
  {
    hide Pow, Scaling;
    multiplier, index, large := base, 0, number >= base;
    ScalingStart(number, base, step);
    if number >= base {
      while !raw && index < 7 && number / step >= multiplier
        invariant index <= 7 && 0 < multiplier <= number && multiplier == base * Pow(step, index) && (raw ==>
          index == 0)
        decreases 7 - index
      {
        StepUp(number, multiplier, step);
        PowNext(base, step, index);
        multiplier := multiplier * step;
        index := index + 1;
      }
      StepUp(number, multiplier, step);
    } else {
      while !raw && index < 7 && number < multiplier && multiplier >= step
        invariant index <= 7 && 0 < multiplier && multiplier == base / Pow(step, index) && (raw ==> index == 0)
        invariant index > 0 ==> number < base / Pow(step, index - 1)
        decreases 7 - index
      {
        Divided(base, Pow(step, index), step);
        PowNext(1, step, index);
        StepUp(multiplier, 1, step);
        multiplier := multiplier / step;
        index := index + 1;
      }
    }
    ScalingEnd(number, base, step, raw, multiplier, index, large);
  }

  lemma ScalingStart(number: nat, base: nat, step: nat)
    requires step > 0
    ensures base * Pow(step, 0) == base == base / Pow(step, 0)
  {}

  lemma PowNext(base: nat, step: nat, index: nat)
    requires step > 0
    ensures base * Pow(step, index + 1) == base * Pow(step, index) * step
    ensures Pow(step, index + 1) == Pow(step, index) * step
  {
    Associate(base, Pow(step, index), step);
  }

  lemma ScalingEnd(number: nat, base: nat, step: nat, raw: bool, m: nat, index: nat, large: bool)
    requires step > 0 && m > 0 && index <= 7 && (large <==> number >= base) && (raw ==> index == 0)
    requires large ==> m == base * Pow(step, index) && m <= number
    requires large && !raw ==> index == 7 || number < m * step
    requires !large ==> m == base / Pow(step, index) && (index > 0 ==> number < base / Pow(step, index - 1))
    requires !large && !raw ==> index == 7 || number >= m || m < step
    ensures Scaling(number, base, step, raw, m, index, large)
  {}

  // The unit for so many fractional digits; from 20 on the product has wrapped around.
  function Base(fraction: nat): Uint64 {
    Pow(10, fraction) % TWO_TO_64
  }

  lemma BaseNext(fraction: nat)
    ensures Base(0) == 1 && Base(fraction) * 10 % TWO_TO_64 == Base(fraction + 1)
  {
    WrapTimes(Pow(10, fraction), 0);
  }

  lemma {:induction false} TwosAndFives(n: nat)
    ensures Pow(10, n) == Pow2(n) * Pow(5, n) && Pow(5, n) % 2 == 1
  {
    if n > 0 {
      TwosAndFives(n - 1);
      var a, b := Pow2(n - 1), Pow(5, n - 1);
      Tenths(a, b);
    }
  }

  lemma Tenths(a: nat, b: nat)
    ensures 10 * (a * b) == (2 * a) * (5 * b) && (b % 2 == 1 ==> 5 * b % 2 == 1)
  {
    Associate(2, a, 5 * b);
    Associate(a, 5, b);
  }

  // The unit is never zero before 64 fractional digits.
  lemma BaseUnits(fraction: nat)
    ensures Base(fraction) > 0 <==> fraction < 64
    ensures fraction <= 19 ==> Base(fraction) == Pow(10, fraction)
  {
    hide Pow, Pow2;
    TwosAndFives(fraction);
    PowAt64();
    if fraction >= 64 {
      PowAdd(64, fraction - 64);
      Associate(TWO_TO_64, Pow2(fraction - 64), Pow(5, fraction));
      ModOf(Pow(10, fraction), TWO_TO_64, Pow2(fraction - 64) * Pow(5, fraction), 0);
    } else if Base(fraction) == 0 {
      DivMod(Pow(10, fraction), TWO_TO_64);
      var q := Pow(10, fraction) / TWO_TO_64;
      PowAdd(fraction, 64 - fraction);
      PowAdd(1, 63 - fraction);
      Associate(Pow2(fraction), Pow2(64 - fraction), q);
      Cancel(Pow2(fraction), Pow(5, fraction), Pow2(64 - fraction) * q);
      PowTwo();
      Associate(2, Pow2(63 - fraction), q);
      assert false;
    }
    if fraction <= 19 {
      BaseFits(fraction);
    }
  }

  lemma PowTwo()
    ensures Pow2(1) == 2
  {}

  lemma Cancel(p: nat, a: int, b: int)
    requires p > 0 && p * a == p * b
    ensures a == b
  {
    Distribute(p, a, b);
    SmallMultiple(p, a - b);
  }

  // The first half of _isonumber_u64_to_string.
  method ChooseUnit(number: Uint64, fraction: nat, binary: bool, raw: bool)
      returns (multiplier: Uint64, modifier: nat, large: bool)
    requires fraction < 64
    ensures multiplier > 0 && modifier <= 7 && (raw ==> modifier == 0)
    ensures Scaling(number, Base(fraction), Step(binary), raw, multiplier, modifier, large)
  {
    hide Pow, Base, Scaling;
    multiplier := 1;
    var left := fraction;
    BaseNext(0);
    while left > 0
      invariant 0 <= left <= fraction && multiplier == Base(fraction - left)
      decreases left
    {
      BaseNext(fraction - left);
      multiplier := multiplier * 10 % TWO_TO_64;
      left := left - 1;
    }
    BaseUnits(fraction);
    ghost var base := multiplier;
    multiplier, modifier, large := Scale(number, multiplier, Step(binary), raw);
    ScalingBounds(number, base, Step(binary), raw, multiplier, modifier, large);
  }

  predicate IsSpace(c: char) {
    c in {' ', '\t', '\n', '\r', 11 as char, 12 as char}
  }

  function TrimRight(s: string): string {
    if |s| > 1 && IsSpace(s[|s| - 1]) then TrimRight(s[..|s| - 1]) else s
  }

  // The number with its prefix.
  function Prefixed(number: nat, m: nat, raw: bool, large: bool, index: nat): string
    requires m > 0 && index <= 7
  {
    Written(number, m) + if raw then "" else Suffix(large, index)
  }

  function Cut(s: string, most: int): string {
    if |s| <= most then s else if most < 0 then "" else s[..most]
  }

  // The number with its prefix and as much of the unit as there is room for.
  function Labelled(number: nat, m: nat, raw: bool, large: bool, index: nat, unit: string, size: nat): string
    requires m > 0 && index <= 7
  {
    var text := Prefixed(number, m, raw, large, index);
    TrimRight(text + if raw then "" else Cut(unit, size - |text| - 1))
  }

  // _isonumber_u64_to_string. The text is out[at..end]; no unit is the empty one.
  method U64ToString(out: array<char>, at: nat, number: Uint64, unit: string, fraction: nat, binary: bool, raw: bool)
      returns (ok: bool, end: nat, ghost m: nat, ghost index: nat, ghost large: bool)
    requires fraction < 64 && at + 26 <= out.Length
    modifies out
    ensures ok && at <= end < out.Length && out[end] == '\0'
    ensures Scaling(number, Base(fraction), Step(binary), raw, m, index, large) && index <= 7
    ensures m > 0 && out[..at] == old(out[..at])
    ensures out[at..end] == Labelled(number, m, raw, large, index, unit, out.Length - at)
    ensures fraction == 0 && !raw ==> m == Pow(if binary then 1024 else 1000, index)
    ensures fraction == 0 && !raw && number > 0 ==> m <= number < m * if binary then 1024 else 1000
  {
    hide Base, Scaling, Prefixed, Step, Cut, TrimRight, Labelled;
    var multiplier, modifier, big := ChooseUnit(number, fraction, binary, raw);
    m, index, large := multiplier, modifier, big;
    ok, end := PrintNumber(out, at, number, multiplier, raw, big, modifier);
    ghost var text, room := out[at..end], out.Length - end - 1;
    LabelledIs(number, multiplier, raw, big, modifier, unit, out.Length - at, text, room);
    if fraction == 0 && !raw {
      PlainUnit(number, binary, m, index, large);
    }
    if !raw {
      end := Strscat(out, at, end, unit);
    }
    assert out[at..end] == text + if raw then "" else Cut(unit, room);
    end := StrTrim(out, at, end);
  }

  lemma LabelledIs(number: nat, m: nat, raw: bool, large: bool, index: nat, unit: string, size: nat, text: string,
      room: int)
    requires m > 0 && index <= 7 && text == Prefixed(number, m, raw, large, index) && room == size - |text| - 1
    ensures Labelled(number, m, raw, large, index, unit, size) == TrimRight(text + if raw then "" else Cut(unit, room))
  {}

  // The digits and the prefix, with a zero byte behind them.
  method PrintNumber(out: array<char>, at: nat, number: Uint64, multiplier: Uint64, raw: bool, large: bool, modifier: nat)
      returns (ok: bool, end: nat)
    requires multiplier > 0 && modifier <= 7 && at + 26 <= out.Length
    modifies out
    ensures ok && at <= end < out.Length && out[end] == '\0'
    ensures out[..at] == old(out[..at]) && out[at..end] == Prefixed(number, multiplier, raw, large, modifier)
  {
    hide Fraction, Digited, Decimal, Written, Suffix;
    WholeFits(number, multiplier);
    var len := PrintDecimal(out, at, number / multiplier);
    ghost var whole, before := out[..at + len], old(out[..at]);
    ok, end := PrintFraction(out, at + len, number, multiplier);
    ghost var shown := out[..end];
    Parts(before, number, multiplier, whole, shown);
    end := PrintPrefix(out, end, raw, large, modifier);
    out[end] := '\0';
    Joined(before, number, multiplier, shown, out[..end], raw, large, modifier);
    Behind(out, at, end, before, Prefixed(number, multiplier, raw, large, modifier));
  }

  lemma Behind(out: array<char>, at: nat, end: nat, before: string, text: string)
    requires at <= end <= out.Length && |before| == at && out[..end] == before + text
    ensures out[..at] == before && out[at..end] == text
  {
    assert out[..at] == out[..end][..at] && out[at..end] == out[..end][at..];
  }

  method PrintPrefix(out: array<char>, at: nat, raw: bool, large: bool, modifier: nat) returns (end: nat)
    requires at + 1 < out.Length && modifier <= 7
    modifies out
    ensures at <= end <= at + 1 && out[..end] == old(out[..at]) + if raw then "" else Suffix(large, modifier)
  {
    end := at;
    if !raw && modifier != 0 && modifier != 7 {
      out[end] := if large then LARGE[modifier] else SMALL[modifier];
      end := end + 1;
    }
  }

  // strscat(out + at, unit, size)
  method Strscat(out: array<char>, at: nat, start: nat, unit: string) returns (end: nat)
    requires at <= start < out.Length && out[start] == '\0'
    modifies out
    ensures start <= end < out.Length && out[end] == '\0'
    ensures out[..at] == old(out[..at]) && out[at..end] == old(out[at..start]) + Cut(unit, out.Length - start - 1)
  {
    var more := Cut(unit, out.Length - start - 1);
    end := start + |more|;
    forall i | 0 <= i < |more| {
      out[start + i] := more[i];
    }
    out[end] := '\0';
    assert out[at..start] == old(out[at..start]);
    assert out[start..end] == more;
    assert out[at..end] == out[at..start] + out[start..end];
  }

  // str_trim(out + at); the text begins with a digit
  method StrTrim(out: array<char>, at: nat, start: nat) returns (end: nat)
    requires at <= start < out.Length && out[start] == '\0'
    modifies out
    ensures at <= end <= start && out[end] == '\0'
    ensures out[..at] == old(out[..at]) && out[at..end] == TrimRight(old(out[at..start]))
  {
    end := start;
    ghost var text := out[at..start];
    while end > at + 1 && IsSpace(out[end - 1])
      invariant at <= end <= start && out[end] == '\0' && out[..end] == old(out[..end])
      invariant TrimRight(old(out[at..end])) == TrimRight(text)
    {
      ghost var rest := old(out[at..end]);
      assert rest[..|rest| - 1] == old(out[at..end - 1]) && rest[|rest| - 1] == out[end - 1];
      end := end - 1;
      out[end] := '\0';
    }
    assert out[at..end] == old(out[at..end]);
    assert |old(out[at..end])| > 1 ==> old(out[at..end])[end - at - 1] == out[end - 1];
  }

  lemma Joined(before: string, number: nat, m: nat, shown: string, all: string, raw: bool, large: bool, index: nat)
    requires m > 0 && index <= 7 && all == shown + if raw then "" else Suffix(large, index)
    requires shown == before + Written(number, m)
    ensures all == before + Prefixed(number, m, raw, large, index)
  {}

  function Step(binary: bool): Uint64 {
    if binary then 1024 else 1000
  }

  lemma BaseFits(k: nat)
    requires k <= 19
    ensures Pow(10, k) < TWO_TO_64 && (k <= 18 ==> 10 * Pow(10, k) < TWO_TO_64)
  {
    hide Pow;
    TenToNineteen();
    PowSum(10, k, 19 - k);
    MulMonotone(Pow(10, k), 1, Pow(10, 19 - k));
    if k <= 18 {
      PowSum(10, 1, 18 - k);
      SmallPowers();
      MulMonotone(10, 1, Pow(10, 18 - k));
      MulMonotone(Pow(10, k), 10, Pow(10, 19 - k));
    }
  }

  lemma TenToNineteen()
    ensures Pow(10, 19) == 10_000_000_000_000_000_000
  {
    assert Pow(10, 4) == 10_000;
    PowSum(10, 4, 4);
    PowSum(10, 8, 8);
    PowSum(10, 16, 3);
  }

  lemma ScalingBounds(number: nat, base: nat, step: nat, raw: bool, m: nat, index: nat, large: bool)
    requires step > 0 && Scaling(number, base, step, raw, m, index, large)
    ensures m > 0 && index <= 7 && (raw ==> index == 0)
  {}

  lemma WholeFits(n: Uint64, m: nat)
    requires m > 0
    ensures 0 <= n / m < TWO_TO_64
  {
    DivMod(n, m);
    if n / m > n {
      MulMonotone(m, n + 1, n / m);
      MulMonotone(n + 1, 1, m);
    }
  }

  lemma Parts(before: string, number: nat, m: nat, whole: string, shown: string)
    requires m > 0 && whole == before + Decimal(number / m)
    requires shown == whole + Fraction(3, Digited(number, m, 3))
    ensures shown == before + Written(number, m)
  {}

  // With no fractional digits the unit is the power of the step just below the number,
  // the table of prefixes is long enough, and no product wraps around.
  lemma UnitBounds(number: Uint64, binary: bool, m: nat, index: nat, large: bool)
    requires Scaling(number, Base(0), Step(binary), false, m, index, large)
    ensures index <= 6 && m == Pow(Step(binary), index) && 10 * m <= TWO_TO_64
    ensures number > 0 ==> large && m <= number < m * Step(binary)
    ensures number == 0 ==> m == 1 && index == 0
  {
    hide Pow, Step;
    SmallPowers();
    PowZero(binary);
    StepPowers(binary);
    if number > 0 {
      assert m == Pow(Step(binary), index);
    } else {
      ZeroUnit(Step(binary), m, index, large);
    }
    PrefixPower(binary, index);
  }

  // The same in plain numbers: the unit is a power of 1024 or of 1000.
  lemma PlainUnit(number: Uint64, binary: bool, m: nat, index: nat, large: bool)
    requires Scaling(number, Base(0), Step(binary), false, m, index, large)
    ensures index <= 6 && m == Pow(if binary then 1024 else 1000, index)
    ensures number > 0 ==> m <= number < m * if binary then 1024 else 1000
  {
    hide Pow, Base, Scaling;
    UnitBounds(number, binary, m, index, large);
  }

  // With fractional digits the power of ten is taken up or down in such steps.
  lemma UnitSteps(number: Uint64, fraction: nat, binary: bool, raw: bool, m: nat, index: nat, large: bool)
    requires Scaling(number, Base(fraction), Step(binary), raw, m, index, large)
    ensures
      var base, step := Pow(10, fraction) % 0x1_0000_0000_0000_0000, if binary then 1024 else 1000;
      && (large <==> number >= base) && (raw ==> m == base && index == 0)
      && (large ==> m == base * Pow(step, index) <= number && (raw || index == 7 || number < m * step))
      && (!large ==> m == base / Pow(step, index) && (raw || index == 7 || number >= m || m < step))
  {
    assert Pow(Step(binary), 0) == 1;
  }

  lemma SuffixLetters()
    ensures Suffix(true, 0) == "" && Suffix(true, 1) == "k" && Suffix(true, 2) == "M" && Suffix(true, 3) == "G"
    ensures Suffix(true, 4) == "T" && Suffix(true, 5) == "P" && Suffix(true, 6) == "E" && Suffix(true, 7) == ""
    ensures Suffix(false, 0) == "" && Suffix(false, 1) == "m" && Suffix(false, 2) == "u" && Suffix(false, 3) == "n"
    ensures Suffix(false, 4) == "p" && Suffix(false, 5) == "f" && Suffix(false, 6) == "a" && Suffix(false, 7) == ""
  {}

  lemma ZeroUnit(step: nat, m: nat, index: nat, large: bool)
    requires step > 1 && Scaling(0, 1, step, false, m, index, large)
    ensures index == 0 && m == 1
  {
    if index > 0 {
      PowSum(step, 1, index - 1);
      MulMonotone(step, 1, Pow(step, index - 1));
      assert false;
    }
  }

  lemma PrefixPower(binary: bool, index: nat)
    requires index <= 6
    ensures 10 * Pow(Step(binary), index) <= TWO_TO_64
  {
    hide Pow;
    StepPowers(binary);
    PowSum(Step(binary), index, 6 - index);
    MulMonotone(Pow(Step(binary), index), 1, Pow(Step(binary), 6 - index));
  }

  lemma StepPowers(binary: bool)
    ensures Pow(Step(binary), 7) >= TWO_TO_64 && 10 * Pow(Step(binary), 6) <= TWO_TO_64
  {
    if binary {
      assert Pow(1024, 3) == 1024 * 1024 * 1024;
    } else {
      assert Pow(1000, 3) == 1_000_000_000;
    }
    PowSum(Step(binary), 3, 3);
    PowSum(Step(binary), 1, 6);
  }

  // What is shown is the number rounded down to thousandths of the unit.
  lemma ShownBounds(number: nat, m: nat)
    requires m > 0
    ensures Thousandths(number, m) < 1000
    ensures var v := 1000 * (number / m) + Thousandths(number, m); v * m <= 1000 * number < (v + 1) * m
  {
    var w, r := number / m, number % m;
    DivMod(number, m);
    var t := r * 1000 / m;
    DivMod(r * 1000, m);
    if t >= 1000 {
      MulMonotone(m, 1000, t);
    }
    Distribute(m, 1000 * w, t);
    Distribute(m, 1000 * w + t, 1);
    Associate(m, w, 1000);
  }

  // ----- parsing -----

  predicate IsBlank(c: char) {
    c == ' '
  }

  // The first place at or behind i that does not satisfy p.
  function Skip(p: char -> bool, s: string, i: nat): (j: nat)
    requires i <= |s|
    ensures i <= j <= |s| && (forall k :: i <= k < j ==> p(s[k])) && (j < |s| ==> !p(s[j]))
    decreases |s| - i
  {
    if i < |s| && p(s[i]) then Skip(p, s, i + 1) else i
  }

  // The number at the front of a text as the C library finds it: its sign, its digits and
  // where they end. Without digits it is 0, and nothing has been read.
  datatype Numeral = Numeral(negative: bool, size: nat, end: nat)

  function FrontNumber(s: string): (r: Numeral)
    ensures r.end <= |s|
  {
    var i := Skip(IsSpace, s, 0);
    var j := if i < |s| && s[i] in {'+', '-'} then i + 1 else i;
    var k := Skip(IsDigit, s, j);
    if j == k then Numeral(false, 0, 0) else Numeral(s[i] == '-', Read(0, s[j..k]), k)
  }

  // The negation of an unsigned number.
  function Signed(negative: bool, size: Uint64): Uint64 {
    if negative && size > 0 then TWO_TO_64 - size else size
  }

  // strtoull(s, &next, 10); None stands for an error in errno.
  function Strtoull(s: string): (r: Option<(Uint64, nat)>)
    ensures r.Some? ==> r.value.1 <= |s|
  {
    var r := FrontNumber(s);
    if r.size >= TWO_TO_64 then None else Some((Signed(r.negative, r.size), r.end))
  }

  // How many steps an ISO prefix stands for, 0 when it is none.
  function Prefix(c: char): (k: nat)
    ensures k <= 6
  {
    match c case 'k' => 1 case 'M' => 2 case 'G' => 3 case 'T' => 4 case 'P' => 5 case 'E' => 6 case _ => 0
  }

  // What is written: the sign, the digits of the whole and the fractional part, and the prefix.
  datatype Reading = Reading(negative: bool, whole: nat, fraction: string, prefix: nat)

  ghost predicate WellFormed(r: Reading) {
    Digits(r.fraction) && r.prefix <= 6
  }

  // How a text is taken apart; at most that many fractional digits are looked at.
  function Take(iso: string, fraction: nat): (r: Option<Reading>)
    ensures r.Some? ==> WellFormed(r.value) && |r.value.fraction| <= fraction
  {
    var start := FrontNumber(iso);
    var i := start.end;
    var j := if i < |iso| && iso[i] == '.' then i + 1 else i;
    var k := if j == i then i else SkipSome(IsDigit, iso, j, fraction);
    var l := Skip(IsBlank, iso, k);
    if l == |iso| then Some(Reading(start.negative, start.size, iso[j..k], 0))
    else if l + 1 == |iso| && Prefix(iso[l]) > 0 then
      Some(Reading(start.negative, start.size, iso[j..k], Prefix(iso[l])))
    else None
  }

  function SkipSome(p: char -> bool, s: string, i: nat, most: nat): (j: nat)
    requires i <= |s|
    ensures i <= j <= |s| && j - i <= most && forall k :: i <= k < j ==> p(s[k])
    decreases |s| - i
  {
    if i < |s| && most > 0 && p(s[i]) then SkipSome(p, s, i + 1, most - 1) else i
  }

  // The size of the number meant, before the prefix is applied.
  function Mantissa(r: Reading, fraction: nat): nat
    requires Digits(r.fraction) && |r.fraction| <= fraction
  {
    Read(r.whole, r.fraction) * Pow(10, fraction - |r.fraction|)
  }

  // The answer meant: an error for a number below zero, and for one that is too large.
  function Meant(r: Reading, fraction: nat, binary: bool): Option<Uint64>
    requires Digits(r.fraction) && |r.fraction| <= fraction
  {
    var mantissa := Mantissa(r, fraction);
    if r.negative && mantissa > 0 then None else Checked(mantissa * Pow(Step(binary), r.prefix))
  }

  // What the machine word holds before the prefix is applied: the sign was applied to the
  // whole part alone, and the digits behind the point have been added to that.
  function Held(r: Reading, fraction: nat): Uint64
    requires Digits(r.fraction) && |r.fraction| <= fraction && r.whole < TWO_TO_64
  {
    Read(Signed(r.negative, r.whole), r.fraction) * Pow(10, fraction - |r.fraction|) % TWO_TO_64
  }

  // The value the parser returns: the mantissa wraps around unnoticed, the prefix does not.
  function Parsed(iso: string, fraction: nat, binary: bool): Option<Uint64>
  {
    var r := Take(iso, fraction);
    if r.None? || r.value.whole >= TWO_TO_64 then None
    else Checked(Held(r.value, fraction) * Pow(Step(binary), r.value.prefix))
  }

  lemma WrapTimes(a: nat, d: nat)
    ensures (a % TWO_TO_64 * 10 % TWO_TO_64 + d) % TWO_TO_64 == (a * 10 + d) % TWO_TO_64
  {
    var m := TWO_TO_64;
    DivMod(a, m);
    DivMod(a % m * 10, m);
    var b := a % m * 10;
    assert a * 10 + d == (b % m + d) + m * (b / m + 10 * (a / m));
    ModShift(b % m + d, m, b / m + 10 * (a / m));
  }

  lemma ReadStep(num: nat, s: string, j: nat, next: nat)
    requires j <= next < |s| && Digits(s[j..next]) && IsDigit(s[next])
    ensures s[j..next + 1] == s[j..next] + [s[next]] && Digits(s[j..next + 1])
    ensures Read(num, s[j..next + 1]) == Read(num, s[j..next]) * 10 + DigitValue(s[next])
  {}

  lemma ReadNone(num: Uint64)
    ensures Read(num, "") == num == num % TWO_TO_64
  {}

  // The loop over the digits behind the point.
  method ReadFraction(iso: string, j: nat, whole: Uint64, fraction: nat) returns (num: Uint64, next: nat, frac: nat)
    requires j <= |iso|
    ensures next == SkipSome(IsDigit, iso, j, fraction) && frac == next - j
    ensures Digits(iso[j..next]) && num == Read(whole, iso[j..next]) % TWO_TO_64
  {
    hide Read;
    ReadNone(whole);
    assert iso[j..j] == "";
    num, next := whole, j;
    frac := 0;
    while next < |iso| && IsDigit(iso[next]) && frac < fraction
      invariant j <= next <= |iso| && frac <= fraction && frac == next - j
      invariant SkipSome(IsDigit, iso, next, fraction - frac) == SkipSome(IsDigit, iso, j, fraction)
      invariant Digits(iso[j..next]) && num == Read(whole, iso[j..next]) % TWO_TO_64
    {
      ReadStep(whole, iso, j, next);
      WrapTimes(Read(whole, iso[j..next]), DigitValue(iso[next]));
      num := num * 10 % TWO_TO_64;
      num := (num + DigitValue(iso[next])) % TWO_TO_64;
      frac := frac + 1;
      next := next + 1;
    }
  }

  // The zeros for the digits that are not there.
  method Fill(start: Uint64, from: nat, fraction: nat, ghost exact: nat) returns (num: Uint64)
    requires from <= fraction && start == exact % TWO_TO_64
    ensures num == exact * Pow(10, fraction - from) % TWO_TO_64
  {
    hide Pow;
    num := start;
    var frac := from;
    FillStart(exact);
    while frac < fraction
      invariant from <= frac <= fraction && num == exact * Pow(10, frac - from) % TWO_TO_64
    {
      FillStep(exact, frac - from);
      num := num * 10 % TWO_TO_64;
      frac := frac + 1;
    }
  }

  lemma FillStart(num: nat)
    ensures num * Pow(10, 0) == num
  {}

  lemma FillStep(num: nat, count: nat)
    ensures num * Pow(10, count) % TWO_TO_64 * 10 % TWO_TO_64 == num * Pow(10, count + 1) % TWO_TO_64
  {
    hide Pow;
    PowNext(num, 10, count);
    WrapTimes(num * Pow(10, count), 0);
  }

  // The switch over the prefixes, each case falling through to the next.
  method Factor(c: char, binary: bool) returns (factor: Uint64)
    requires Prefix(c) > 0
    ensures factor == Pow(Step(binary), Prefix(c))
  {
    hide Pow, Step;
    PowZero(binary);
    var multiplicator := Step(binary);
    factor := 1;
    if c in {'E'} {
      factor := Multiply(factor, multiplicator, Prefix(c) - 6, binary);
    }
    if c in {'E', 'P'} {
      factor := Multiply(factor, multiplicator, Prefix(c) - 5, binary);
    }
    if c in {'E', 'P', 'T'} {
      factor := Multiply(factor, multiplicator, Prefix(c) - 4, binary);
    }
    if c in {'E', 'P', 'T', 'G'} {
      factor := Multiply(factor, multiplicator, Prefix(c) - 3, binary);
    }
    if c in {'E', 'P', 'T', 'G', 'M'} {
      factor := Multiply(factor, multiplicator, Prefix(c) - 2, binary);
    }
    if c in {'E', 'P', 'T', 'G', 'M', 'k'} {
      factor := Multiply(factor, multiplicator, Prefix(c) - 1, binary);
    }
  }

  method Multiply(factor: Uint64, multiplicator: Uint64, ghost k: nat, ghost binary: bool) returns (product: Uint64)
    requires multiplicator == Step(binary) && k < 6 && factor == Pow(multiplicator, k)
    ensures product == Pow(multiplicator, k + 1)
  {
    PowNext(1, multiplicator, k);
    StepPowers(binary);
    PowSum(multiplicator, k + 1, 5 - k);
    MulMonotone(Pow(multiplicator, k + 1), 1, Pow(multiplicator, 5 - k));
    product := factor * multiplicator;
  }

  lemma OverflowGuard(num: Uint64, factor: Uint64)
    requires factor > 0
    ensures num > (TWO_TO_64 - 1) / factor <==> num * factor >= TWO_TO_64
  {
    var q := (TWO_TO_64 - 1) / factor;
    DivMod(TWO_TO_64 - 1, factor);
    if num > q {
      MulMonotone(factor, q + 1, num);
      Distribute(factor, q, 1);
    } else {
      MulMonotone(factor, num, q);
    }
  }

  method SkipBlanks(iso: string, start: nat) returns (next: nat)
    requires start <= |iso|
    ensures next == Skip(IsBlank, iso, start)
  {
    next := start;
    while next < |iso| && iso[next] == ' '
      invariant start <= next <= |iso| && Skip(IsBlank, iso, next) == Skip(IsBlank, iso, start)
    {
      next := next + 1;
    }
  }

  // isonumber_to_u64
  method ToU64(iso: string, fraction: nat, binary: bool) returns (dst: Option<Uint64>)
    ensures dst == Parsed(iso, fraction, binary)
  {
    hide Pow, FrontNumber, Signed, Read, Prefix, Skip, SkipSome;
    PowZero(binary);
    var start := Strtoull(iso);
    if start.None? {
      return None;
    }
    var num: Uint64, next := start.value.0, start.value.1;
    ghost var whole, j := num, next;
    if next == |iso| {
      SkipsNone(iso);
      ReadNone(num);
      num := Fill(num, 0, fraction, num);
      return Some(num);
    }
    var frac := 0;
    ReadNone(whole);
    assert iso[j..j] == "";
    if iso[next] == '.' {
      next := next + 1;
      j := next;
      num, next, frac := ReadFraction(iso, next, num, fraction);
    }
    num := Fill(num, frac, fraction, Read(whole, iso[j..next]));
    next := SkipBlanks(iso, next);
    var factor: Uint64 := 1;
    if next < |iso| {
      if next + 1 < |iso| {
        return None;
      }
      if Prefix(iso[next]) == 0 {
        return None;
      }
      factor := Factor(iso[next], binary);
    }
    OverflowGuard(num, factor);
    if num > (TWO_TO_64 - 1) / factor {
      return None;
    }
    return Some(num * factor);
  }

  lemma PowZero(binary: bool)
    ensures Pow(Step(binary), 0) == 1
  {}

  lemma SkipsNone(iso: string)
    ensures Skip(IsBlank, iso, |iso|) == |iso|
  {}

  // The parser returns the answer meant exactly when the mantissa fits and is not below
  // zero, or when the C library or the prefix runs into the end of the range after all.
  lemma ParsedIff(iso: string, fraction: nat, binary: bool)
    requires Take(iso, fraction).Some?
    ensures
      var r := Take(iso, fraction).value;
      Parsed(iso, fraction, binary) == Meant(r, fraction, binary) <==>
        || r.whole >= TWO_TO_64
        || (if r.negative then Mantissa(r, fraction) == 0 else Mantissa(r, fraction) < TWO_TO_64)
        || Held(r, fraction) * Pow(Step(binary), r.prefix) >= TWO_TO_64
  {
    hide Take, Mantissa, Held, Pow;
    var r := Take(iso, fraction).value;
    var mantissa, factor := Mantissa(r, fraction), Pow(Step(binary), r.prefix);
    MantissaOf(r, fraction);
    if r.whole >= TWO_TO_64 {
      ReadGrows(r.whole, r.fraction);
      MulMonotone(Read(r.whole, r.fraction), 1, Pow(10, fraction - |r.fraction|));
      MulMonotone(mantissa, 1, factor);
    } else {
      if r.negative ==> mantissa == 0 {
        HeldPlain(r, fraction);
      }
      Answers(r.negative, mantissa, Held(r, fraction), factor);
    }
  }

  // An error for what is too large.
  function Checked(v: nat): Option<Uint64> {
    if v < TWO_TO_64 then Some(v) else None
  }

  lemma Answers(negative: bool, mantissa: nat, held: Uint64, factor: nat)
    requires factor > 0 && ((negative ==> mantissa == 0) ==> held == mantissa % TWO_TO_64)
    ensures
      Checked(held * factor) == (if negative && mantissa > 0 then None else Checked(mantissa * factor)) <==>
      (if negative then mantissa == 0 else mantissa < TWO_TO_64) || held * factor >= TWO_TO_64
  {
    MulMonotone(mantissa, 1, factor);
    if mantissa < TWO_TO_64 && (negative ==> mantissa == 0) {
      assert held == mantissa;
    }
  }

  lemma HeldPlain(r: Reading, fraction: nat)
    requires Digits(r.fraction) && |r.fraction| <= fraction && r.whole < TWO_TO_64
    requires r.negative ==> Mantissa(r, fraction) == 0
    ensures Held(r, fraction) == Mantissa(r, fraction) % TWO_TO_64
  {
    hide Pow;
    if r.negative {
      var p := Pow(10, fraction - |r.fraction|);
      MulMonotone(Read(r.whole, r.fraction), 1, p);
      ReadGrows(r.whole, r.fraction);
    }
  }

  lemma {:induction false} ReadGrows(num: nat, s: string)
    requires Digits(s)
    ensures Read(num, s) >= num
  {
    if s != [] {
      ReadGrows(num, s[..|s| - 1]);
    }
  }

  // A number below zero is taken for one near the end of the range.
  lemma NegativeAccepted(n: Uint64, binary: bool)
    requires n > 0
    ensures
      && Take("-" + Decimal(n), 0) == Some(Reading(true, n, "", 0))
      && Meant(Reading(true, n, "", 0), 0, binary) == None
      && Parsed("-" + Decimal(n), 0, binary) == Some(TWO_TO_64 - n)
  {
    hide Decimal, FrontNumber, Read;
    var s := "-" + Decimal(n);
    FrontPlain("-", n, "");
    assert s == "-" + Decimal(n) + "" && FrontNumber(s) == Numeral(true, n, |s|);
    SkipTo(IsBlank, s, |s|, |s|);
    assert s[|s|..|s|] == "";
    PowZero(binary);
    SmallPowers();
    ReadNone(Signed(true, n));
    ReadEmpty(n);
  }

  lemma ReadEmpty(num: nat)
    ensures Read(num, "") == num
  {}

  lemma {:induction false} SkipTo(p: char -> bool, s: string, i: nat, j: nat)
    requires i <= j <= |s| && (forall k :: i <= k < j ==> p(s[k])) && (j == |s| || !p(s[j]))
    ensures Skip(p, s, i) == j
    decreases j - i
  {
    if i < j {
      SkipTo(p, s, i + 1, j);
    }
  }

  lemma {:induction false} SkipSomeTo(s: string, i: nat, j: nat, most: nat)
    requires i <= j <= |s| && (forall k :: i <= k < j ==> IsDigit(s[k])) && j - i <= most
    requires j == |s| || j - i == most || !IsDigit(s[j])
    ensures SkipSome(IsDigit, s, i, most) == j
    decreases j - i
  {
    if i < j {
      SkipSomeTo(s, i + 1, j, most - 1);
    }
  }

  lemma FrontPlain(sign: string, w: nat, tail: string)
    requires sign in {"", "-"} && (tail == "" || !IsDigit(tail[0]))
    ensures FrontNumber(sign + Decimal(w) + tail) == Numeral(sign == "-", w, |sign| + |Decimal(w)|)
  {
    hide Decimal, FrontNumber;
    ReadDecimal(w);
    FrontText("", sign, Decimal(w), tail);
    assert "" + sign + Decimal(w) + tail == sign + Decimal(w) + tail;
  }

  // The number at the front, behind white space and a sign.
  lemma FrontText(lead: string, sign: string, d: string, tail: string)
    requires (forall c <- lead :: IsSpace(c)) && sign in {"", "+", "-"} && (tail == "" || !IsDigit(tail[0]))
    requires d != "" && Digits(d)
    ensures FrontNumber(lead + sign + d + tail) == Numeral(sign == "-", Read(0, d), |lead| + |sign| + |d|)
  {
    hide Read, Digits, IsSpace, IsDigit, FrontNumber, Skip;
    var s, i := lead + sign + d + tail, |lead|;
    var j, k := i + |sign|, i + |sign| + |d|;
    Inside(lead, sign, d, tail);
    SkipTo(IsSpace, s, 0, i);
    SkipTo(IsDigit, s, j, k);
    NumeralIs(s, i, j, k, d);
  }

  lemma NumeralIs(s: string, i: nat, j: nat, k: nat, d: string)
    requires i <= j < k <= |s| && s[j..k] == d && Digits(d)
    requires i == Skip(IsSpace, s, 0) && k == Skip(IsDigit, s, j) && j == if s[i] in {'+', '-'} then i + 1 else i
    ensures FrontNumber(s) == Numeral(s[i] == '-', Read(0, d), k)
  {
    hide Skip, Read, Digits, IsSpace, IsDigit;
  }

  lemma Inside(lead: string, sign: string, d: string, tail: string)
    requires (forall c <- lead :: IsSpace(c)) && sign in {"", "+", "-"} && (tail == "" || !IsDigit(tail[0]))
    requires d != "" && Digits(d)
    ensures
      var s, i := lead + sign + d + tail, |lead|;
      var j, k := i + |sign|, i + |sign| + |d|;
      && s[j..k] == d && (forall l :: j <= l < k ==> IsDigit(s[l])) && (k == |s| || !IsDigit(s[k]))
      && (forall l :: 0 <= l < i ==> IsSpace(s[l])) && !IsSpace(s[i])
      && (if sign == "" then s[i] !in {'+', '-'} else s[i] == sign[0])
  {
    var s, i := lead + sign + d + tail, |lead|;
    var j, k := i + |sign|, i + |sign| + |d|;
    assert forall l :: j <= l < k ==> s[l] == d[l - j];
    assert forall l :: 0 <= l < i ==> s[l] == lead[l];
    assert s[j] == d[0] && IsDigit(s[j]);
    assert if sign == "" then s[i] == d[0] else s[i] == sign[0];
  }

  // How a plain decimal fraction is taken apart.
  lemma TakePlain(w: nat, t: string, fraction: nat)
    requires Digits(t) && |t| <= fraction
    ensures Take(Decimal(w) + (if t == "" then "" else "." + t), fraction) == Some(Reading(false, w, t, 0))
  {
    hide Decimal, Take;
    TakeTail(w, t, "", fraction);
    var rest := if t == "" then "" else "." + t;
    assert rest + "" == rest;
  }

  // 18446744073709551.616 with three fractional digits reads as nothing.
  lemma WrapsUnnoticed()
    ensures Parsed(Decimal(18446744073709551) + ("." + "616"), 3, false) == Some(0)
  {
    hide Take, Decimal, Mantissa, Pow;
    var r := Reading(false, 18446744073709551, "616", 0);
    TakePlain(18446744073709551, "616", 3);
    PowZero(false);
    SmallPowers();
    assert "616"[..2] == "61" && "61"[..1] == "6" && "6"[..0] == "";
    MantissaOf(r, 3);
  }

  // The mantissa read back from a text with all the digits there are.
  lemma ShownAll(n: nat, fraction: nat)
    requires fraction <= 3
    ensures
      var m := Pow(10, fraction);
      var t := Trimmed(3, Thousandths(n, m));
      |t| <= fraction && Read(n / m, t) * Pow(10, fraction - |t|) == n
  {
    hide Pow, Trimmed, Read;
    var m, z := Pow(10, fraction), 3 - fraction;
    PowSum(10, fraction, z);
    SmallPowers();
    DivMod(n, m);
    Widened(n % m, m, Pow(10, z));
    TrimmedZeros(fraction, n % m, z);
    ReadTrimmed(n / m, fraction, n % m);
  }

  lemma Widened(rem: nat, m: nat, p: nat)
    requires m > 0 && m * p == 1000
    ensures rem * 1000 / m == rem * p
  {
    Associate(m, rem, p);
    Associate(rem, m, p);
    ModUnique(rem * 1000, m, rem * p, 0);
  }

  // Three digits behind w, and zeros up to so many digits.
  lemma ThreeDigits(w: nat, v: nat, fraction: nat)
    requires fraction >= 3 && v < 1000
    ensures
      var t := Trimmed(3, v);
      Read(w, t) * Pow(10, fraction - |t|) == (w * 1000 + v) * Pow(10, fraction - 3)
  {
    hide Pow, Trimmed, Read;
    SmallPowers();
    ReadTrimmed(w, 3, v);
    var t := Trimmed(3, v);
    PowSum(10, 3 - |t|, fraction - 3);
    Associate(Read(w, t), Pow(10, 3 - |t|), Pow(10, fraction - 3));
  }

  // The same with the digits behind the third lost.
  lemma ShownPart(n: nat, fraction: nat)
    requires fraction > 3
    ensures
      var m, q := Pow(10, fraction), Pow(10, fraction - 3);
      var t := Trimmed(3, Thousandths(n, m));
      |t| <= 3 && Read(n / m, t) * Pow(10, fraction - |t|) == n - n % q
  {
    hide Pow, Trimmed, Read, Thousandths;
    SmallPowers();
    PowSum(10, 3, fraction - 3);
    CutOff(n, Pow(10, fraction - 3));
    ThreeDigits(n / Pow(10, fraction), Thousandths(n, Pow(10, fraction)), fraction);
  }

  lemma CutOff(n: nat, q: nat)
    requires q > 0
    ensures
      var m := 1000 * q;
      var v := Thousandths(n, m);
      v < 1000 && (n / m * 1000 + v) * q == n - n % q
  {
    hide Thousandths;
    CutOffDef(n, 1000 * q);
    var x, r := n / q, n % q;
    DivMod(n, q);
    DivMod(x, 1000);
    var w, v := x / 1000, x % 1000;
    CutOffWhole(n, q, w, v, r);
    CutOffRest(1000 * q, q, v, r);
  }

  lemma CutOffDef(n: nat, m: nat)
    requires m > 0
    ensures Thousandths(n, m) == n % m * 1000 / m
  {}

  lemma CutOffWhole(n: nat, q: nat, w: nat, v: nat, r: nat)
    requires n == q * (1000 * w + v) + r && r < q && v < 1000
    ensures n / (1000 * q) == w && n % (1000 * q) == q * v + r
  {
    MulMonotone(q, v + 1, 1000);
    Distribute(q, v, 1);
    Distribute(q, 1000 * w, v);
    Associate(q, 1000, w);
    ModUnique(n, 1000 * q, w, q * v + r);
  }

  lemma CutOffRest(m: nat, q: nat, v: nat, r: nat)
    requires m == 1000 * q && r < q
    ensures (q * v + r) * 1000 / m == v
  {
    Associate(1000, q, v);
    ModUnique((q * v + r) * 1000, m, v, r * 1000);
  }

  lemma TakeShown(n: Uint64, m: nat, fraction: nat)
    requires m > 0 && |Trimmed(3, Thousandths(n, m))| <= fraction
    ensures 0 <= n / m < TWO_TO_64
    ensures Take(Shown(n, m), fraction) == Some(Reading(false, n / m, Trimmed(3, Thousandths(n, m)), 0))
  {
    hide Take, Decimal, Thousandths, Trimmed;
    WholeFits(n, m);
    TakePlain(n / m, Trimmed(3, Thousandths(n, m)), fraction);
  }

  lemma ParsedPlain(iso: string, whole: Uint64, t: string, fraction: nat, binary: bool)
    requires Digits(t) && |t| <= fraction && Take(iso, fraction) == Some(Reading(false, whole, t, 0))
    ensures
      var x := Read(whole, t) * Pow(10, fraction - |t|);
      x < TWO_TO_64 ==> Parsed(iso, fraction, binary) == Some(x)
  {
    hide Take;
    MantissaOf(Reading(false, whole, t, 0), fraction);
    PowZero(binary);
  }

  // n without what three fractional digits cannot show
  function Kept(n: nat, fraction: nat): (k: nat)
    ensures k <= n && (fraction <= 3 ==> k == n)
  {
    if fraction <= 3 then n else
      var lost := Pow(10, fraction - 3);
      DivMod(n, lost);
      MulMonotone(lost, 0, n / lost);
      n - n % lost
  }

  // What three fractional digits show is read back without what is beyond them.
  lemma ShownRoundTrip(n: Uint64, fraction: nat, binary: bool)
    ensures Parsed(Shown(n, Pow(10, fraction)), fraction, binary) == Some(Kept(n, fraction))
  {
    hide Take, Mantissa, Trimmed, Pow, Shown, Parsed, Thousandths, Read;
    var m := Pow(10, fraction);
    if fraction <= 3 {
      ShownAll(n, fraction);
    } else {
      ShownPart(n, fraction);
    }
    TakeShown(n, m, fraction);
    ParsedPlain(Shown(n, m), n / m, Trimmed(3, Thousandths(n, m)), fraction, binary);
  }

  // Printing without prefix and parsing loses what is beyond the third fractional digit and
  // nothing else, exactly when no product wraps around; up to 18 digits none does.
  lemma RawRoundTrip(n: Uint64, fraction: nat, binary: bool)
    requires fraction <= 19
    ensures Parsed(Written(n, Pow(10, fraction)), fraction, binary) == Some(Kept(n, fraction)) <==>
      NoWraps(n, Pow(10, fraction))
    ensures fraction <= 18 ==> NoWraps(n, Pow(10, fraction))
  {
    hide Parsed, Written, Shown, NoWraps, Pow, Kept;
    var m := Pow(10, fraction);
    BaseFits(fraction);
    WrittenIff(n, m);
    ShownRoundTrip(n, fraction, binary);
    if fraction <= 18 {
      SmallUnit(n, m);
    } else if !NoWraps(n, m) {
      WrittenLess(n, fraction, binary);
    }
  }

  // Digits that are too small are read back as a number that is too small.
  lemma WrittenLess(n: Uint64, fraction: nat, binary: bool)
    requires 3 < fraction <= 19 && !NoWraps(n, Pow(10, fraction))
    ensures Parsed(Written(n, Pow(10, fraction)), fraction, binary) != Some(Kept(n, fraction))
  {
    hide Parsed, Pow, Decimal, Trimmed, Read, Digited, Thousandths, NoWraps, Take;
    var m, q := Pow(10, fraction), Pow(10, fraction - 3);
    SmallPowers();
    BaseFits(fraction);
    PowSum(10, 3, fraction - 3);
    DigitedIff(n, m);
    CutOff(n, q);
    var w, v := n / m, Digited(n, m, 3);
    WholeFits(n, m);
    ThreeDigits(w, v, fraction);
    Smaller(q, w * 1000 + v, w * 1000 + Thousandths(n, m));
    TakePlain(w, Trimmed(3, v), fraction);
    ParsedPlain(Written(n, m), w, Trimmed(3, v), fraction, binary);
  }

  lemma Smaller(q: nat, a: nat, b: nat)
    requires a < b && q > 0
    ensures a * q < b * q
  {
    MulMonotone(q, a + 1, b);
    Distribute(q, a, 1);
  }

  // With 19 fractional digits two tenths are printed as eleven thousandths.
  lemma WrapsInPrint()
    ensures Digited(2_000_000_000_000_000_000, Pow(10, 19), 3) == 11
    ensures Thousandths(2_000_000_000_000_000_000, Pow(10, 19)) == 200
    ensures !NoWraps(2_000_000_000_000_000_000, Pow(10, 19))
  {
    hide Pow;
    TenToNineteen();
    var n, m := 2_000_000_000_000_000_000, 10_000_000_000_000_000_000;
    assert Rest(n, m, 0) == n;
    assert Rest(n, m, 1) == 1553255926290448384 && Digited(n, m, 1) == 0;
    assert Rest(n, m, 2) == 5532559262904483840 && Digited(n, m, 2) == 1;
    DigitedIff(n, m);
  }

  // What the printer writes without prefix goes to the parser.
  method PrintAndParse(out: array<char>, number: Uint64, unit: string, fraction: nat, binary: bool)
      returns (dst: Option<Uint64>)
    requires fraction <= 19 && out.Length >= 26
    modifies out
    ensures dst == Some(Kept(number, fraction)) <==> NoWraps(number, Pow(10, fraction))
    ensures fraction <= 18 ==> dst == Some(Kept(number, fraction))
  {
    hide Parsed, Written, NoWraps, Pow, Kept, Scaling, TrimRight;
    var ok, end, m, index, large := U64ToString(out, 0, number, unit, fraction, binary, true);
    RawUnit(number, fraction, binary, m, index, large);
    BaseUnits(fraction);
    RawRoundTrip(number, fraction, binary);
    WrittenTrimmed(number, m);
    assert Written(number, m) + "" == Written(number, m);
    assert out[..end] == out[0..end] == Written(number, m);
    dst := ToU64(out[..end], fraction, binary);
  }

  lemma WrittenTrimmed(number: nat, m: nat)
    requires m > 0
    ensures TrimRight(Written(number, m)) == Written(number, m)
  {
    hide Decimal, Trimmed;
    var s, d, t := Written(number, m), Decimal(number / m), Trimmed(3, Digited(number, m, 3));
    assert s[|s| - 1] == if t == "" then d[|d| - 1] else t[|t| - 1];
  }

  lemma MantissaOf(r: Reading, fraction: nat)
    requires Digits(r.fraction) && |r.fraction| <= fraction
    ensures Mantissa(r, fraction) == Read(r.whole, r.fraction) * Pow(10, fraction - |r.fraction|)
  {}

  // Printed without prefix, the unit stays what it was.
  lemma RawUnit(number: Uint64, fraction: nat, binary: bool, m: nat, index: nat, large: bool)
    requires Scaling(number, Base(fraction), Step(binary), true, m, index, large)
    ensures m == Base(fraction)
  {
    hide Base;
    assert Pow(Step(binary), 0) == 1;
  }

  lemma {:induction false} TrimmedBlanks(s: string, gap: string)
    requires s != "" && !IsSpace(s[|s| - 1]) && forall i :: 0 <= i < |gap| ==> IsSpace(gap[i])
    ensures TrimRight(s + gap) == s
  {
    if gap != "" {
      assert (s + gap)[..|s + gap| - 1] == s + gap[..|gap| - 1];
      TrimmedBlanks(s, gap[..|gap| - 1]);
    } else {
      assert s + gap == s;
    }
  }

  // A unit for which there is room stands behind the number, and blanks behind it are dropped.
  lemma LabelWhole(number: nat, m: nat, large: bool, index: nat, unit: string, gap: string, size: nat)
    requires m > 0 && index <= 7
    requires unit != "" && unit[|unit| - 1] !in {' ', '\t', '\n', 11 as char, 12 as char, '\r'}
    requires forall i :: 0 <= i < |gap| ==> gap[i] == ' '
    requires |Prefixed(number, m, false, large, index)| + |unit| < size
    ensures Labelled(number, m, false, large, index, unit + gap, size) ==
      Written(number, m) + Suffix(large, index) + unit
  {
    hide Prefixed, Written, Cut, TrimRight, Suffix;
    var text := Prefixed(number, m, false, large, index);
    var rest := CutBlanks(unit, gap, size - |text| - 1);
    assert (text + unit) + rest == text + (unit + rest);
    TrimmedBlanks(text + unit, rest);
    PrefixedIs(number, m, large, index);
  }

  lemma CutBlanks(unit: string, gap: string, most: nat) returns (rest: string)
    requires |unit| <= most && forall i :: 0 <= i < |gap| ==> gap[i] == ' '
    ensures Cut(unit + gap, most) == unit + rest && forall i :: 0 <= i < |rest| ==> rest[i] == ' '
  {
    rest := if |unit| + |gap| <= most then gap else gap[..most - |unit|];
    assert Cut(unit + gap, most) == unit + rest;
  }

  lemma PrefixedIs(number: nat, m: nat, large: bool, index: nat)
    requires m > 0 && index <= 7
    ensures Prefixed(number, m, false, large, index) == Written(number, m) + Suffix(large, index)
  {}

  // Without prefix there is no unit either.
  lemma LabelRaw(number: nat, m: nat, large: bool, index: nat, unit: string, size: nat)
    requires m > 0 && index <= 7
    ensures Labelled(number, m, true, large, index, unit, size) == Written(number, m)
  {
    var w := Written(number, m);
    assert IsDigit(w[|w| - 1]);
    assert w + "" == w;
  }

  // ----- reading back a prefix -----

  // How a decimal fraction with something behind it is taken apart.
  lemma TakeTail(w: nat, t: string, tail: string, fraction: nat)
    requires Digits(t) && |tail| <= 1 && (tail != "" ==> !IsDigit(tail[0]) && tail[0] !in {'.', ' '})
    ensures Take(Decimal(w) + ((if t == "" then "" else "." + t) + tail), fraction) ==
      if |t| > fraction || (tail != "" && Prefix(tail[0]) == 0) then None
      else Some(Reading(false, w, t, if tail == "" then 0 else Prefix(tail[0])))
  {
    hide Decimal, Take, Prefix, Digits;
    ReadDecimal(w);
    TakeText("", "", Decimal(w), if t == "" then "" else ".", t, "", tail, fraction);
    var rest := (if t == "" then "" else "." + t) + tail;
    assert "" + "" + Decimal(w) + ((if t == "" then "" else ".") + t + "" + tail) == Decimal(w) + rest;
  }

  // What may stand behind the digits and the blanks.
  predicate TailForm(point: string, t: string, gap: string, tail: string) {
    && Digits(t) && (point == "." || (point == "" && t == ""))
    && (forall i :: 0 <= i < |gap| ==> gap[i] == ' ')
    && (tail != "" ==> tail[0] != ' ')
    && (tail != "" && gap == "" ==> !IsDigit(tail[0]) && (point == "." || tail[0] != '.'))
  }

  // How any text that has a number at its front is taken apart.
  lemma TakeText(lead: string, sign: string, d: string, point: string, t: string, gap: string, tail: string,
      fraction: nat)
    requires (forall c <- lead :: IsSpace(c)) && sign in {"", "+", "-"} && d != "" && Digits(d)
    requires TailForm(point, t, gap, tail)
    ensures Take(lead + sign + d + (point + t + gap + tail), fraction) ==
      if |t| > fraction || (tail != "" && (|tail| > 1 || Prefix(tail[0]) == 0)) then None
      else Some(Reading(sign == "-", Read(0, d), t, if tail == "" then 0 else Prefix(tail[0])))
  {
    hide FrontNumber, Skip, SkipSome, Prefix, Digits, IsSpace, Read, TailForm;
    var rest := point + t + gap + tail;
    var s, i := lead + sign + d + rest, |lead| + |sign| + |d|;
    TailFront(point, t, gap, tail);
    FrontText(lead, sign, d, rest);
    assert s[i..] == rest;
    TailPlaces(s, i, point, t, gap, tail, fraction);
    TakenIs(s, fraction, i, t, tail);
  }

  // Take, when the number at the front ends at i.
  lemma TakenIs(s: string, fraction: nat, i: nat, t: string, tail: string)
    requires i == FrontNumber(s).end
    requires
      var j := if i < |s| && s[i] == '.' then i + 1 else i;
      var k := if j == i then i else SkipSome(IsDigit, s, j, fraction);
      var l := Skip(IsBlank, s, k);
      && (|t| <= fraction ==> s[j..k] == t && s[l..] == tail)
      && (|t| > fraction ==> l < |s| && Prefix(s[l]) == 0)
    ensures
      var front := FrontNumber(s);
      Take(s, fraction) ==
        if |t| > fraction || (tail != "" && (|tail| > 1 || Prefix(tail[0]) == 0)) then None
        else Some(Reading(front.negative, front.size, t, if tail == "" then 0 else Prefix(tail[0])))
  {
    hide FrontNumber, Skip, SkipSome, Prefix, IsDigit, IsBlank;
  }

  lemma TailFront(point: string, t: string, gap: string, tail: string)
    requires TailForm(point, t, gap, tail)
    ensures
      var rest := point + t + gap + tail;
      && Digits(t) && (rest == "" || !IsDigit(rest[0])) && (point == "." <==> rest != "" && rest[0] == '.')
      && (point == "" ==> t == "") && (point == "." || point == "")
  {
    var rest := point + t + gap + tail;
    if point == "" {
      assert rest == gap + tail;
      assert rest != "" ==> rest[0] == if gap == "" then tail[0] else gap[0];
    }
  }

  // Where the digits behind the point end, and the blanks behind them.
  lemma TailPlaces(s: string, i: nat, point: string, t: string, gap: string, tail: string, fraction: nat)
    requires TailForm(point, t, gap, tail) && i <= |s| && s[i..] == point + t + gap + tail
    ensures
      var j := if i < |s| && s[i] == '.' then i + 1 else i;
      var k := if j == i then i else SkipSome(IsDigit, s, j, fraction);
      var l := Skip(IsBlank, s, k);
      && (|t| <= fraction ==> s[j..k] == t && s[l..] == tail)
      && (|t| > fraction ==> l < |s| && Prefix(s[l]) == 0)
  {
    hide SkipSome, Skip, Prefix, TailForm;
    TailFront(point, t, gap, tail);
    var rest := s[i..];
    assert i < |s| ==> s[i] == rest[0];
    if point == "" {
      assert rest == gap + tail;
      BlankPlaces(s, i, gap, tail, point, t);
    } else {
      assert s[i + 1..] == t + gap + tail;
      DigitPlaces(s, i + 1, t, gap, tail, fraction);
    }
  }

  lemma BlankPlaces(s: string, i: nat, gap: string, tail: string, point: string, t: string)
    requires TailForm(point, t, gap, tail) && i <= |s| && s[i..] == gap + tail
    ensures s[Skip(IsBlank, s, i)..] == tail
  {
    var rest := s[i..];
    assert forall j :: i <= j < |s| ==> s[j] == rest[j - i];
    assert forall j :: i <= j < i + |gap| ==> s[j] == gap[j - i];
    assert s[i + |gap|..] == tail;
    SkipTo(IsBlank, s, i, i + |gap|);
  }

  lemma DigitNoPrefix(c: char)
    requires IsDigit(c)
    ensures Prefix(c) == 0
  {}

  lemma DigitPlaces(s: string, i: nat, t: string, gap: string, tail: string, fraction: nat)
    requires TailForm(".", t, gap, tail) && i <= |s| && s[i..] == t + gap + tail
    ensures
      var k := SkipSome(IsDigit, s, i, fraction);
      var l := Skip(IsBlank, s, k);
      && (|t| <= fraction ==> s[i..k] == t && s[l..] == tail)
      && (|t| > fraction ==> l < |s| && Prefix(s[l]) == 0)
  {
    hide Prefix;
    var rest, n := s[i..], |t|;
    var k := if n <= fraction then i + n else i + fraction;
    assert forall j :: i <= j < |s| ==> s[j] == rest[j - i];
    assert forall j :: i <= j < i + n ==> s[j] == t[j - i];
    assert s[i..i + n] == t && s[i + n..] == gap + tail;
    assert i + n < |s| ==> s[i + n] == (gap + tail)[0];
    SkipSomeTo(s, i, k, fraction);
    if n <= fraction {
      BlankPlaces(s, k, gap, tail, ".", t);
    } else {
      SkipTo(IsBlank, s, k, k);
      DigitNoPrefix(s[k]);
    }
  }

  lemma PrefixLetters(c: char)
    ensures Prefix(c) ==
      if c == 'k' then 1 else if c == 'M' then 2 else if c == 'G' then 3
      else if c == 'T' then 4 else if c == 'P' then 5 else if c == 'E' then 6 else 0
  {}

  // What a letter stands for.
  lemma StepFactors()
    ensures Pow(Step(true), 0) == 1 == Pow(Step(false), 0)
    ensures Pow(Step(true), 1) == 1024 && Pow(Step(false), 1) == 1_000
    ensures Pow(Step(true), 2) == 1024 * 1024 && Pow(Step(false), 2) == 1_000_000
    ensures Pow(Step(true), 3) == 1024 * 1024 * 1024 && Pow(Step(false), 3) == 1_000_000_000
    ensures Pow(Step(true), 4) == 0x100_0000_0000 && Pow(Step(false), 4) == 1_000_000_000_000
    ensures Pow(Step(true), 5) == 0x4_0000_0000_0000 && Pow(Step(false), 5) == 1_000_000_000_000_000
    ensures Pow(Step(true), 6) == 0x1000_0000_0000_0000 && Pow(Step(false), 6) == 1_000_000_000_000_000_000
  {
    hide Pow;
    assert Step(true) == 1024 && Step(false) == 1000;
    PowerNext(1024, 0);
    PowerNext(1024, 1);
    PowerNext(1024, 2);
    PowerNext(1024, 3);
    PowerNext(1024, 4);
    PowerNext(1024, 5);
    PowerNext(1000, 0);
    PowerNext(1000, 1);
    PowerNext(1000, 2);
    PowerNext(1000, 3);
    PowerNext(1000, 4);
    PowerNext(1000, 5);
  }

  lemma PowerNext(b: nat, n: nat)
    requires b > 0
    ensures Pow(b, 0) == 1 && Pow(b, n + 1) == b * Pow(b, n)
  {}

  // Place by place, the digits of a number from the back.
  lemma {:induction false} DecimalPlaces(n: nat, i: nat)
    requires i < |Decimal(n)|
    ensures Decimal(n)[|Decimal(n)| - 1 - i] as int == '0' as int + n / Pow(10, i) % 10
  {
    hide Pow;
    PowerNext(10, 0);
    if i > 0 {
      PowerNext(10, i - 1);
      Divided(n, 10, Pow(10, i - 1));
      DecimalPlaces(n / 10, i - 1);
    }
  }

  // The parser on every text that begins with a number, in plain numbers: white space, a sign,
  // digits, a point and digits behind it, blanks, and what must be a letter.
  lemma ReadsAs(lead: string, sign: string, d: string, point: string, t: string, gap: string, tail: string,
      fraction: nat, binary: bool)
    requires (forall c <- lead :: c in {' ', '\t', '\n', 11 as char, 12 as char, '\r'})
    requires sign in {"", "+"} && d != "" && Digits(d) && TailForm(point, t, gap, tail)
    ensures
      var dst := Parsed(lead + sign + d + (point + t + gap + tail), fraction, binary);
      var factor :=
        if tail == "" then 1
        else if tail == "k" then (if binary then 1024 else 1_000)
        else if tail == "M" then (if binary then 1024 * 1024 else 1_000_000)
        else if tail == "G" then (if binary then 1024 * 1024 * 1024 else 1_000_000_000)
        else if tail == "T" then (if binary then 0x100_0000_0000 else 1_000_000_000_000)
        else if tail == "P" then (if binary then 0x4_0000_0000_0000 else 1_000_000_000_000_000)
        else if tail == "E" then (if binary then 0x1000_0000_0000_0000 else 1_000_000_000_000_000_000)
        else 0;
      if |t| > fraction || factor == 0 || Read(0, d) >= 0x1_0000_0000_0000_0000 then dst == None
      else
        var number := Read(Read(0, d), t) * Pow(10, fraction - |t|) % 0x1_0000_0000_0000_0000 * factor;
        dst == if number < 0x1_0000_0000_0000_0000 then Some(number) else None
  {
    hide TailForm, Take, Pow, Read, Prefix, Step;
    TakeText(lead, sign, d, point, t, gap, tail, fraction);
    if |tail| == 1 {
      PrefixLetters(tail[0]);
      assert tail == [tail[0]];
    }
    StepFactors();
  }

  lemma SuffixPrefix(large: bool, index: nat)
    requires index <= 6
    ensures
      var s := Suffix(large, index);
      && |s| <= 1 && (s == "" <==> index == 0)
      && (s != "" ==> !IsDigit(s[0]) && s[0] !in {'.', ' '} && Prefix(s[0]) == if large then index else 0)
  {}

  lemma TopStep(base: Uint64, top: nat)
    requires 0 < base && TWO_TO_64 <= top
    ensures base / top == 0 && base * top >= TWO_TO_64
  {
    MulMonotone(top, 1, base);
    ModUnique(base, top, 0, base);
  }

  lemma UnitIs(number: Uint64, fraction: nat, binary: bool, m: nat, index: nat, large: bool)
    requires fraction <= 19 && Scaling(number, Base(fraction), Step(binary), false, m, index, large)
    ensures 0 < m < TWO_TO_64 && index <= 6
    ensures large || index == 0 ==> m == Pow(10, fraction) * Pow(Step(binary), index)
  {
    hide Pow, Base;
    BaseUnits(fraction);
    PowZero(binary);
    StepPowers(binary);
    TopStep(Base(fraction), Pow(Step(binary), 7));
    WholeFits(Base(fraction), Pow(Step(binary), index));
  }

  // The digits shown, as a multiple of the unit.
  lemma ShownValue(w: nat, v: nat, fraction: nat, factor: nat)
    requires v < 1000 && |Trimmed(3, v)| <= fraction
    ensures
      var t := Trimmed(3, v);
      1000 * (Read(w, t) * Pow(10, fraction - |t|) * factor) == (1000 * w + v) * (Pow(10, fraction) * factor)
  {
    hide Pow, Trimmed, Read;
    SmallPowers();
    ReadTrimmed(w, 3, v);
    var t := Trimmed(3, v);
    PowSum(10, fraction - |t|, |t|);
    PowSum(10, 3 - |t|, |t|);
    Regroup(Read(w, t), Pow(10, 3 - |t|), Pow(10, |t|), Pow(10, fraction - |t|), factor, 1000 * w + v);
  }

  lemma Regroup(r: nat, a: nat, b: nat, c: nat, factor: nat, v: nat)
    requires r * a == v && a * b == 1000
    ensures 1000 * (r * c * factor) == v * (c * b * factor)
  {
    assert 1000 * (r * c * factor) == (a * b) * (r * c * factor);
    assert (a * b) * (r * c * factor) == (r * a) * (c * b * factor);
  }

  // What is read back from a number with its prefix: nothing, if more digits are shown than
  // the parser looks at or the unit was taken down; else the number rounded down to a
  // thousandth of the unit.
  lemma PrefixedIff(number: Uint64, fraction: nat, binary: bool, m: nat, index: nat, large: bool)
    requires fraction <= 19 && Scaling(number, Base(fraction), Step(binary), false, m, index, large)
    ensures m > 0 && index <= 7
    ensures
      var shown := Digited(number, m, 3);
      var dst := Parsed(Prefixed(number, m, false, large, index), fraction, binary);
      && (dst.Some? <==> |Trimmed(3, shown)| <= fraction && (large || index == 0))
      && (dst.Some? ==> 1000 * dst.value == (1000 * (number / m) + shown) * m <= 1000 * number)
  {
    hide Take, Held, Pow, Decimal, Trimmed, Digited, Suffix, Prefix, Base, Step, Scaling;
    UnitIs(number, fraction, binary, m, index, large);
    SuffixPrefix(large, index);
    WholeFits(number, m);
    var w, v, tail := number / m, Digited(number, m, 3), Suffix(large, index);
    var t := Trimmed(3, v);
    TakeTail(w, t, tail, fraction);
    assert Prefixed(number, m, false, large, index) == Decimal(w) + (Fraction(3, v) + tail);
    if |t| <= fraction && (large || index == 0) {
      ReadingValue(number, m, fraction, binary, index);
    }
  }

  // 1500 without fractional digits is printed as 1.5k, and that text is refused.
  lemma PrefixRefused()
    ensures Scaling(1500, Base(0), Step(false), false, 1000, 1, true)
    ensures Trimmed(3, Digited(1500, 1000, 3)) == "5"
    ensures Parsed(Prefixed(1500, 1000, false, true, 1), 0, false) == None
  {
    hide Parsed, Prefixed;
    SmallPowers();
    BaseUnits(0);
    assert Pow(1000, 1) == 1000;
    assert Rest(1500, 1000, 0) == 500 && Rest(1500, 1000, 1) == 0 && Rest(1500, 1000, 2) == 0;
    assert Digited(1500, 1000, 1) == 5 && Digited(1500, 1000, 2) == 50;
    PrefixedIff(1500, 0, false, 1000, 1, true);
  }

  lemma ReadingValue(number: Uint64, m: Uint64, fraction: nat, binary: bool, index: nat)
    requires m > 0 && m == Pow(10, fraction) * Pow(Step(binary), index)
    requires |Trimmed(3, Digited(number, m, 3))| <= fraction
    ensures 0 <= number / m < TWO_TO_64
    ensures
      var v := Digited(number, m, 3);
      var x := Held(Reading(false, number / m, Trimmed(3, v), index), fraction) * Pow(Step(binary), index);
      1000 * x == (1000 * (number / m) + v) * m <= 1000 * number
  {
    hide Held, Pow, Trimmed, Read, Digited;
    WholeFits(number, m);
    DigitedBound(number, m);
    var w, v, factor := number / m, Digited(number, m, 3), Pow(Step(binary), index);
    var t := Trimmed(3, v);
    ShownValue(w, v, fraction, factor);
    Thousands(Read(w, t) * Pow(10, fraction - |t|) * factor, (1000 * w + v) * m, number);
    HeldSmall(Reading(false, w, t, index), fraction, factor, number);
  }

  lemma Thousands(x: nat, y: nat, number: nat)
    requires 1000 * x == y <= 1000 * number
    ensures x <= number
  {}

  lemma DigitedBound(number: Uint64, m: Uint64)
    requires m > 0
    ensures number / m >= 0 && Digited(number, m, 3) < 1000
    ensures (1000 * (number / m) + Digited(number, m, 3)) * m <= 1000 * number
  {
    hide Digited, Thousandths;
    WholeFits(number, m);
    DigitedIff(number, m);
    ShownBounds(number, m);
    MulMonotone(m, 1000 * (number / m) + Digited(number, m, 3), 1000 * (number / m) + Thousandths(number, m));
  }

  lemma HeldSmall(r: Reading, fraction: nat, factor: nat, number: Uint64)
    requires Digits(r.fraction) && |r.fraction| <= fraction && !r.negative && r.whole < TWO_TO_64 && factor > 0
    requires Read(r.whole, r.fraction) * Pow(10, fraction - |r.fraction|) * factor <= number
    ensures Held(r, fraction) == Read(r.whole, r.fraction) * Pow(10, fraction - |r.fraction|)
  {
    hide Pow, Read;
    MulMonotone(Read(r.whole, r.fraction) * Pow(10, fraction - |r.fraction|), 1, factor);
  }

  // ----- signed numbers -----

  function Magnitude(number: Int64): Uint64 {
    if number < 0 then 0 - number else number
  }

  function Sign(number: Int64): string {
    if number < 0 then "-" else ""
  }

  // isonumber_from_s64. The text is out[..end].
  method FromS64(out: array<char>, number: Int64, unit: string, fraction: nat, binary: bool, raw: bool)
      returns (ok: bool, end: nat, ghost m: nat, ghost index: nat, ghost large: bool)
    requires fraction < 64 && out.Length == 48
    modifies out
    ensures ok && end < 48 && out[end] == '\0'
    ensures Scaling(Magnitude(number), Base(fraction), Step(binary), raw, m, index, large) && index <= 7 && m > 0
    ensures out[..end] ==
      Sign(number) + Labelled(Magnitude(number), m, raw, large, index, unit, 48 - |Sign(number)|)
  {
    hide Pow, Base, Scaling, Labelled, Step;
    var at := 0;
    var num: Uint64;
    if number == INT64_MIN {
      out[at] := '-';
      at := at + 1;
      num := 0x8000_0000_0000_0000;
    } else if number < 0 {
      out[at] := '-';
      at := at + 1;
      num := -number;
    } else {
      num := number;
    }
    assert out[..at] == Sign(number) && num == Magnitude(number);
    ok, end, m, index, large := U64ToString(out, at, num, unit, fraction, binary, raw);
    assert out[..end] == out[..at] + out[at..end];
  }

  // (int64_t) of an unsigned value
  function AsSigned(u: Uint64): Int64 {
    if u < 0x8000_0000_0000_0000 then u else u - TWO_TO_64
  }

  // The value before it is stored: the negation can leave the range of an int64_t.
  function ParsedS64(iso: string, fraction: nat, binary: bool): Option<int> {
    var negative := iso != "" && iso[0] == '-';
    Stored(negative, Parsed(if negative then iso[1..] else iso, fraction, binary))
  }

  const TWO_TO_63: nat := 0x8000_0000_0000_0000

  // The answer meant by the digits r, with a minus in front of them or not: an error for a
  // second sign, and for a number that is out of range.
  function MeantS64(minus: bool, r: Reading, fraction: nat, binary: bool): Option<int>
    requires Digits(r.fraction) && |r.fraction| <= fraction
  {
    SignedMeant(minus, r.negative, Mantissa(r, fraction) * Pow(Step(binary), r.prefix))
  }

  function SignedMeant(minus: bool, negative: bool, v: nat): Option<int> {
    if minus && negative then None
    else if minus || negative then if v <= TWO_TO_63 then Some(0 - v) else None
    else if v < TWO_TO_63 then Some(v) else None
  }

  // What is stored for an unsigned value.
  function Stored(minus: bool, u: Option<Uint64>): Option<int> {
    if u.None? then None else Some(if minus then 0 - AsSigned(u.value) else AsSigned(u.value))
  }

  lemma {:induction false} ReadSplit(num: nat, s: string)
    requires Digits(s)
    ensures Read(num, s) == num * Pow(10, |s|) + Read(0, s) && Read(0, s) < Pow(10, |s|)
  {
    if s != [] {
      ReadSplit(num, s[..|s| - 1]);
      Associate(num, Pow(10, |s| - 1), 10);
    }
  }

  // The word behind a minus that the C library has read, while the number is in range.
  lemma NegativeWord(w: Uint64, q: nat, p: nat, d: nat)
    requires 0 < w && d < q && 0 < p && (w * q + d) * p <= TWO_TO_63
    ensures ((TWO_TO_64 - w) * q + d) * p % TWO_TO_64 == TWO_TO_64 - (w * q + d) * p + 2 * (d * p)
    ensures 2 * (d * p) < TWO_TO_64 && d * p < (w * q + d) * p
  {
    Product(w, q, p, d);
    Product(TWO_TO_64 - w, q, p, d);
    Portion(q, p, d);
    Remains(w, q * p, d * p);
  }

  lemma Portion(q: nat, p: nat, d: nat)
    requires d < q && 0 < p
    ensures d * p < q * p
  {
    MulMonotone(p, d + 1, q);
    Distribute(p, d, 1);
  }

  lemma Remains(w: Uint64, t: nat, e: nat)
    requires 0 < w && e < t && w * t + e <= TWO_TO_63
    ensures ((TWO_TO_64 - w) * t + e) % TWO_TO_64 == TWO_TO_64 - w * t + e && t <= w * t
  {
    MulMonotone(t, 1, w);
    Distribute(t, TWO_TO_64, w);
    Shifted(w * t, t, e);
  }

  lemma Shifted(a: nat, t: nat, e: nat)
    requires e < t <= a && a + e <= TWO_TO_63
    ensures (TWO_TO_64 * t - a + e) % TWO_TO_64 == TWO_TO_64 - a + e
  {
    ModShift(TWO_TO_64 - a + e, TWO_TO_64, t - 1);
    Distribute(TWO_TO_64, t, 1);
  }

  lemma Product(w: nat, q: nat, p: nat, d: nat)
    ensures (w * q + d) * p == w * (q * p) + d * p
  {
    Distribute(p, w * q, d);
    Associate(w, q, p);
  }

  // What is held for a number below zero that is in range.
  lemma HeldNegative(r: Reading, fraction: nat)
    requires Digits(r.fraction) && |r.fraction| <= fraction && r.negative && 0 < r.whole < TWO_TO_64
    requires Mantissa(r, fraction) <= TWO_TO_63
    ensures
      var d := Read(0, r.fraction) * Pow(10, fraction - |r.fraction|);
      Held(r, fraction) == TWO_TO_64 - Mantissa(r, fraction) + 2 * d && 2 * d < TWO_TO_64 && d < Mantissa(r, fraction)
  {
    hide Pow, Read;
    ReadSplit(r.whole, r.fraction);
    ReadSplit(TWO_TO_64 - r.whole, r.fraction);
    NegativeWord(r.whole, Pow(10, |r.fraction|), Pow(10, fraction - |r.fraction|), Read(0, r.fraction));
  }

  // What is held when only digits behind the point are not zero.
  lemma HeldFraction(r: Reading, fraction: nat)
    requires Digits(r.fraction) && |r.fraction| <= fraction && (!r.negative || r.whole == 0) && r.whole < TWO_TO_64
    ensures Held(r, fraction) == Mantissa(r, fraction) % TWO_TO_64
  {}

  lemma StepFactor(binary: bool, prefix: nat)
    ensures if prefix == 0 then Pow(Step(binary), prefix) == 1 else Pow(Step(binary), prefix) >= 1000
  {
    if prefix > 0 {
      MulMonotone(Step(binary), 1, Pow(Step(binary), prefix - 1));
    }
  }

  // The cases of the signed parser, on the numbers alone: mantissa and factor give the size
  // of the number, held is what the word holds, and d is the part behind the point.
  lemma SignedAnswers(minus: bool, negative: bool, whole: Uint64, mantissa: nat, d: nat, held: Uint64, factor: nat)
    requires factor == 1 || factor >= 1000
    requires !negative || whole == 0 ==> held == mantissa % TWO_TO_64
    requires negative && whole > 0 && mantissa <= TWO_TO_63 ==>
      held == TWO_TO_64 - mantissa + 2 * d && 2 * d < TWO_TO_64 && d < mantissa
    requires whole == 0 ==> mantissa == d
    ensures
      var v, x := mantissa * factor, held * factor;
      Stored(minus, Checked(x)) == SignedMeant(minus, negative, v) <==>
        if minus && negative then x >= TWO_TO_64
        else if negative then
          v == 0 || (whole == 0 && v == TWO_TO_63) || (v <= TWO_TO_63 && factor == 1 && d == 0)
          || (v > TWO_TO_63 && x >= TWO_TO_64)
        else v < TWO_TO_63 || x >= TWO_TO_64
  {
    MulMonotone(mantissa, 1, factor);
    if mantissa <= TWO_TO_63 && (!negative || whole == 0) {
      assert held == mantissa;
    } else if negative && whole > 0 && mantissa <= TWO_TO_63 {
      if factor >= 1000 {
        MulMonotone(held, 1000, factor);
      }
    }
  }

  // When the signed parser returns the answer meant. A minus that the C library reads, behind
  // blanks, applies to the whole part alone.
  lemma SignedIff(iso: string, fraction: nat, binary: bool)
    requires Take(if iso != "" && iso[0] == '-' then iso[1..] else iso, fraction).Some?
    ensures
      var minus := iso != "" && iso[0] == '-';
      var r := Take(if minus then iso[1..] else iso, fraction).value;
      var factor := Pow(Step(binary), r.prefix);
      var v := Mantissa(r, fraction) * factor;
      ParsedS64(iso, fraction, binary) == MeantS64(minus, r, fraction, binary) <==>
        || r.whole >= TWO_TO_64
        || if minus && r.negative then Held(r, fraction) * factor >= TWO_TO_64
          else if r.negative then
            || v == 0 || (r.whole == 0 && v == TWO_TO_63)
            || (v <= TWO_TO_63 && r.prefix == 0 && Read(0, r.fraction) == 0)
            || (v > TWO_TO_63 && Held(r, fraction) * factor >= TWO_TO_64)
          else v < TWO_TO_63 || Held(r, fraction) * factor >= TWO_TO_64
  {
    hide Take, Mantissa, Held, Pow, Read;
    var minus := iso != "" && iso[0] == '-';
    var r := Take(if minus then iso[1..] else iso, fraction).value;
    var mantissa, factor, p := Mantissa(r, fraction), Pow(Step(binary), r.prefix), Pow(10, fraction - |r.fraction|);
    MantissaOf(r, fraction);
    StepFactor(binary, r.prefix);
    ReadSplit(r.whole, r.fraction);
    if r.whole >= TWO_TO_64 {
      MulMonotone(Read(r.whole, r.fraction), 1, p);
      MulMonotone(mantissa, 1, factor);
      MulMonotone(r.whole, 1, Pow(10, |r.fraction|));
    } else {
      var d := Read(0, r.fraction) * p;
      MulMonotone(Read(0, r.fraction), 1, p);
      if r.negative && r.whole > 0 && mantissa <= TWO_TO_63 {
        HeldNegative(r, fraction);
      } else if !r.negative || r.whole == 0 {
        HeldFraction(r, fraction);
      }
      SignedAnswers(minus, r.negative, r.whole, mantissa, d, Held(r, fraction), factor);
    }
  }

  // Texts from 2^63 on are stored as negative numbers.
  lemma SignedWraps(n: Uint64, binary: bool)
    requires n >= TWO_TO_63
    ensures ParsedS64(Decimal(n), 0, binary) == Some(n - TWO_TO_64)
  {
    hide Decimal, Parsed, Read;
    var d := Decimal(n);
    assert IsDigit(d[0]) && d + "" == d;
    TakePlain(n, "", 0);
    ReadEmpty(n);
    SmallPowers();
    ParsedPlain(d, n, "", 0, binary);
  }

  // Two signs cancel each other.
  lemma TwoSigns(n: nat, binary: bool)
    requires 0 < n <= TWO_TO_63
    ensures ParsedS64("-" + ("-" + Decimal(n)), 0, binary) == Some(n)
  {
    hide Decimal, Parsed;
    NegativeAccepted(n, binary);
    var s := "-" + ("-" + Decimal(n));
    assert s[1..] == "-" + Decimal(n);
  }

  // isonumber_to_s64
  method ToS64(iso: string, fraction: nat, binary: bool) returns (dst: Option<int>)
    ensures dst == ParsedS64(iso, fraction, binary)
  {
    hide Parsed;
    var ptr := 0;
    if iso != "" && iso[0] == '-' {
      ptr := ptr + 1;
    }
    assert iso[0..] == iso;
    var u64 := ToU64(iso[ptr..], fraction, binary);
    if u64.None? {
      return None;
    }
    if iso != "" && iso[0] == '-' {
      return Some(0 - AsSigned(u64.value));
    }
    return Some(AsSigned(u64.value));
  }

  // What a signed number reads back as.
  lemma SignedRoundTrip(number: Int64, fraction: nat, binary: bool)
    requires fraction <= 19
    ensures
      var size := Kept(Magnitude(number), fraction);
      ParsedS64(Sign(number) + Written(Magnitude(number), Pow(10, fraction)), fraction, binary) ==
        Some(if number < 0 then 0 - AsSigned(size) else size) <==>
      NoWraps(Magnitude(number), Pow(10, fraction))
    ensures fraction <= 18 ==> NoWraps(Magnitude(number), Pow(10, fraction))
  {
    hide Parsed, Written, Pow, Kept, NoWraps;
    var n := Magnitude(number);
    var text := Written(n, Pow(10, fraction));
    RawRoundTrip(n, fraction, binary);
    WrittenDigit(n, Pow(10, fraction));
    if number < 0 {
      assert (Sign(number) + text)[1..] == text;
    } else {
      assert Sign(number) + text == text;
    }
  }

  lemma WrittenDigit(n: nat, m: nat)
    requires m > 0
    ensures Written(n, m) != "" && Written(n, m)[0] != '-'
  {
    var d := Decimal(n / m);
    assert IsDigit(d[0]) && Written(n, m)[0] == d[0];
  }

  // A time in milliseconds survives the text of oonf_clock, unless it is the smallest number.
  lemma IntervalRoundTrip(time: Int64, binary: bool)
    ensures
      var text := Sign(time) + Written(Magnitude(time), Pow(10, 3));
      ParsedS64(text, 3, binary) == Some(time) <==> time != INT64_MIN
  {
    hide Written, Pow, ParsedS64, Kept, NoWraps;
    SignedRoundTrip(time, 3, binary);
  }
}
