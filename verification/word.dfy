// Unsigned machine words as the numbers they hold.
module Words {
  const TWO_TO_64: nat := 0x1_0000_0000_0000_0000

  type Uint64 = x: int | 0 <= x < 0x1_0000_0000_0000_0000

  type Byte = x: int | 0 <= x < 256

  function Pow2(n: nat): (p: nat)
    ensures p > 0
  {
    if n == 0 then 1 else 2 * Pow2(n - 1)
  }

  // Bit i of a word.
  predicate Bit(w: nat, i: nat)
  {
    if i == 0 then w % 2 == 1 else Bit(w / 2, i - 1)
  }

  // w | (1 << i)
  function SetBit(w: nat, i: nat): nat
  {
    if i == 0 then w / 2 * 2 + 1 else 2 * SetBit(w / 2, i - 1) + w % 2
  }

  // w << n in a word of 64 bits
  function ShiftLeft(w: Uint64, n: nat): Uint64
  {
    w * Pow2(n) % TWO_TO_64
  }

  lemma {:induction false} SetBitBits(w: nat, i: nat, j: nat)
    ensures Bit(SetBit(w, i), j) <==> i == j || Bit(w, j)
  {
    if i > 0 && j > 0 {
      SetBitBits(w / 2, i - 1, j - 1);
    }
  }

  lemma {:induction false} SetBitFits(w: nat, i: nat, n: nat)
    requires w < Pow2(n) && i < n
    ensures SetBit(w, i) < Pow2(n)
  {
    if i > 0 {
      SetBitFits(w / 2, i - 1, n - 1);
    }
  }

  // Setting a bit that is not there adds its value, as the machine's or does.
  lemma {:induction false} SetBitAdds(w: nat, i: nat)
    ensures SetBit(w, i) == if Bit(w, i) then w else w + Pow2(i)
  {
    if i > 0 {
      SetBitAdds(w / 2, i - 1);
    }
  }

  lemma {:induction false} BitMod(w: nat, n: nat, i: nat)
    requires i < n
    ensures Bit(w % Pow2(n), i) <==> Bit(w, i)
  {
    var p := Pow2(n - 1);
    var z, r := p * (w / (2 * p)), w % (2 * p);
    assert w == 2 * z + r by { Associate(2, p, w / (2 * p)); }
    if i > 0 {
      assert w / 2 == z + r / 2 && r / 2 < p;
      ModUnique(w / 2, p, w / (2 * p), r / 2);
      BitMod(w / 2, n - 1, i - 1);
    }
  }

  lemma Associate(a: int, b: int, c: int)
    ensures a * b * c == a * (b * c)
  {}

  lemma MulMonotone(m: nat, a: int, b: int)
    requires a <= b
    ensures m * a <= m * b
  {
    assert m * (b - a) >= 0;
  }

  lemma ModUnique(x: nat, m: nat, q: nat, r: nat)
    requires m > 0 && x == m * q + r && r < m
    ensures x % m == r && x / m == q
  {
    var a, b := x / m, x % m;
    assert x == m * a + b && b < m;
    if a > q {
      MulMonotone(m, q + 1, a);
    } else if a < q {
      MulMonotone(m, a + 1, q);
    }
  }

  lemma {:induction false} BitScaled(w: nat, n: nat, i: nat)
    ensures Bit(w * Pow2(n), i) <==> n <= i && Bit(w, i - n)
    decreases n
  {
    if n > 0 {
      assert w * Pow2(n) == 2 * (w * Pow2(n - 1));
      if i > 0 {
        BitScaled(w, n - 1, i - 1);
      }
    }
  }

  lemma ShiftBits(w: Uint64, n: nat, i: nat)
    requires i < 64
    ensures Bit(ShiftLeft(w, n), i) <==> n <= i && Bit(w, i - n)
  {
    PowAt64();
    BitMod(w * Pow2(n), 64, i);
    BitScaled(w, n, i);
  }

  lemma PowAt64()
    ensures Pow2(64) == TWO_TO_64
  {
    assert Pow2(8) == 256;
    PowAdd(8, 8);
    PowAdd(16, 16);
    PowAdd(32, 32);
  }

  lemma {:induction false} PowAdd(a: nat, b: nat)
    ensures Pow2(a + b) == Pow2(a) * Pow2(b)
  {
    if a > 0 {
      PowAdd(a - 1, b);
      assert Pow2(a) * Pow2(b) == 2 * (Pow2(a - 1) * Pow2(b));
    }
  }

  // ----- remainders -----

  lemma DivMod(x: int, m: nat)
    requires m > 0
    ensures x == m * (x / m) + x % m && 0 <= x % m < m
  {}

  lemma DivNat(x: nat, m: nat)
    requires m > 0
    ensures x / m >= 0
  {
    DivMod(x, m);
    if x / m < 0 {
      MulMonotone(m, x / m, -1);
    }
  }

  lemma SmallMultiple(m: nat, k: int)
    requires m > 0 && -(m as int) < m * k < m
    ensures k == 0
  {
    if k > 0 {
      MulMonotone(m, 1, k);
    } else if k < 0 {
      MulMonotone(m, k, -1);
    }
  }

  lemma ModOf(x: int, m: nat, q: int, r: nat)
    requires m > 0 && x == m * q + r && r < m
    ensures x % m == r
  {
    DivMod(x, m);
    assert m * (x / m - q) == r - x % m by { Distribute(m, x / m, q); }
    SmallMultiple(m, x / m - q);
  }

  lemma Distribute(m: int, a: int, b: int)
    ensures m * (a - b) == m * a - m * b
    ensures m * (a + b) == m * a + m * b
  {}

  lemma ModShift(x: int, m: nat, k: int)
    requires m > 0
    ensures (x + m * k) % m == x % m
  {
    DivMod(x, m);
    Distribute(m, x / m, k);
    ModOf(x + m * k, m, x / m + k, x % m);
  }

  lemma Divided(x: nat, p: nat, s: nat)
    requires p > 0 && s > 0
    ensures p * s > 0 && x / p / s == x / (p * s)
  {
    MulMonotone(p, 1, s);
    var q, r := x / p, x % p;
    DivMod(x, p);
    DivMod(q, s);
    var a, b := q / s, q % s;
    assert x == p * s * a + (p * b + r) by {
      Distribute(p, s * a, b);
      Associate(p, s, a);
    }
    MulMonotone(p, b + 1, s);
    Distribute(p, b, 1);
    ModUnique(x, p * s, a, p * b + r);
  }

  lemma {:induction false} BitDiv(w: nat, n: nat, q: nat, i: nat)
    requires q == w / Pow2(n)
    ensures Bit(q, i) <==> Bit(w, i + n)
    decreases n
  {
    if n > 0 {
      Divided(w, 2, Pow2(n - 1));
      BitDiv(w / 2, n - 1, q, i);
    }
  }

  lemma {:induction false} SameBits(x: nat, y: nat, n: nat)
    requires x < Pow2(n) && y < Pow2(n) && forall i :: 0 <= i < n ==> (Bit(x, i) <==> Bit(y, i))
    ensures x == y
  {
    if n > 0 {
      assert Bit(x, 0) <==> Bit(y, 0);
      forall i | 0 <= i < n - 1
        ensures Bit(x / 2, i) <==> Bit(y / 2, i)
      {
        assert Bit(x, i + 1) <==> Bit(y, i + 1);
      }
      SameBits(x / 2, y / 2, n - 1);
    }
  }
}
