/** Bitwise operations on natural numbers, as far as the containers and rings use them. */
module Bits {
  import opened Common

  function Pow2(k: nat): (p: nat)
    ensures p > 0
  {
    if k == 0 then 1 else 2 * Pow2(k - 1)
  }

  // Bitwise and.
  function And(a: nat, b: nat): nat {
    if a == 0 || b == 0 then 0 else (a % 2) * (b % 2) + 2 * And(a / 2, b / 2)
  }

  ghost predicate IsPow2(n: nat) {
    exists k: nat :: n == Pow2(k)
  }

  // Masking with 2^k - 1 is reduction modulo 2^k: the ring and table index computations rely on it.
  lemma {:induction false} MaskIsModulo(x: nat, k: nat)
    ensures And(x, Pow2(k) - 1) == x % Pow2(k)
  {
    if k == 0 {
      assert x % 1 == 0;
    } else if x == 0 {
      assert 0 % Pow2(k) == 0;
    } else {
      var m := Pow2(k - 1);
      MaskIsModulo(x / 2, k - 1);
      assert (2 * m - 1) / 2 == m - 1 && (2 * m - 1) % 2 == 1;
      ModDouble(x, m);
    }
  }

  lemma ModDouble(x: nat, m: nat)
    requires m > 0
    ensures x % (2 * m) == x % 2 + 2 * (x / 2 % m)
  {
    var q, r := x / 2 / m, x / 2 % m;
    assert x / 2 == q * m + r;
    assert x == (2 * m) * q + (2 * r + x % 2) by { assert x == 2 * (x / 2) + x % 2; MulDistribute(q, m, r); }
    DivModUnique(x, 2 * m, q, 2 * r + x % 2);
  }

  lemma MulDistribute(q: nat, m: nat, r: nat)
    ensures 2 * (q * m + r) == (2 * m) * q + 2 * r
  {
  }

  lemma DivModUnique(x: int, m: nat, q: int, r: int)
    requires 0 <= r < m && x == m * q + r
    ensures x / m == q && x % m == r
  {
    var q', r' := x / m, x % m;
    assert x == m * q' + r';
    if q < q' {
      MulStep(m, q, q');
    } else if q' < q {
      MulStep(m, q', q);
    }
  }

  lemma {:induction false} MulStep(m: nat, a: int, b: int)
    requires a < b
    ensures m * a + m <= m * b
    decreases b - a
  {
    assert m * b == m * (b - 1) + m;
    if a < b - 1 { MulStep(m, a, b - 1); }
  }

  lemma DivBounds(x: nat, m: nat, n: nat)
    requires m > 0
    ensures n <= x / m <==> m * n <= x
  {
    var q := x / m;
    assert x == m * q + x % m;
    if n < q {
      MulStep(m, n, q);
    } else if q < n {
      MulStep(m, q, n);
    }
  }

  lemma {:induction false} Pow2Grows(a: nat, b: nat)
    requires a <= b
    ensures Pow2(a) <= Pow2(b)
  {
    if a < b { Pow2Grows(a, b - 1); }
  }

  lemma {:induction false} Pow2Add(a: nat, b: nat)
    ensures Pow2(a + b) == Pow2(a) * Pow2(b)
  {
    if a > 0 {
      Pow2Add(a - 1, b);
      Doubled(Pow2(a - 1), Pow2(b));
    }
  }

  lemma Doubled(x: nat, y: nat)
    ensures 2 * (x * y) == (2 * x) * y == x * (2 * y)
  {
  }

  // Reducing modulo 2^w first does not change the index modulo 2^k when the word is wider.
  lemma WordThenMask(x: nat, k: nat, w: nat)
    requires k <= w
    ensures x % Pow2(w) % Pow2(k) == x % Pow2(k)
  {
    Pow2Add(w - k, k);
    ModMod(x, Pow2(w - k), Pow2(k));
  }

  lemma ModMod(x: nat, a: nat, b: nat)
    requires a > 0 && b > 0
    ensures a * b > 0 && x % (a * b) % b == x % b
  {
    var n := a * b;
    assert n > 0;
    var q, y := x / n, x % n;
    var p, r := y / b, y % b;
    assert x == n * q + y && y == b * p + r;
    Regroup(a, b, q, p);
    DivModUnique(x, b, a * q + p, r);
  }

  lemma Regroup(a: nat, b: nat, q: nat, p: nat)
    ensures (a * b) * q + b * p == b * (a * q + p)
  {
    assert (a * b) * q == b * (a * q);
    assert b * (a * q + p) == b * (a * q) + b * p;
  }

  lemma EightMore(k: nat)
    ensures Pow2(k + 4) == 16 * Pow2(k) && Pow2(k + 8) == 256 * Pow2(k)
  {
    assert Pow2(k + 2) == 4 * Pow2(k);
    assert Pow2(k + 4) == 4 * Pow2(k + 2);
    assert Pow2(k + 6) == 4 * Pow2(k + 4);
    assert Pow2(k + 8) == 4 * Pow2(k + 6);
  }

  lemma WordSizes()
    ensures Pow2(32) == WORD32 && Pow2(64) == WORD64
  {
    EightMore(0); EightMore(8); EightMore(16); EightMore(24);
    EightMore(32); EightMore(40); EightMore(48); EightMore(56);
  }

  // Unsigned subtraction of w-bit words.
  function WrapSub(x: nat, y: nat, word: nat): (d: nat)
    requires x < word && y < word
    ensures d < word
  {
    if y <= x then x - y else x + word - y
  }

  // A counter i kept modulo n, by casting out n's.
  function Wrap(i: nat, n: nat): (w: nat)
    requires n > 0
    ensures w < n
    decreases i
  {
    if i < n then i else Wrap(i - n, n)
  }

  lemma {:induction false} WrapIsModulo(i: nat, n: nat)
    requires n > 0
    ensures Wrap(i, n) == i % n
    decreases i
  {
    if i < n {
      DivModUnique(i, n, 0, i);
    } else {
      WrapIsModulo(i - n, n);
      var q, r := (i - n) / n, (i - n) % n;
      assert i - n == n * q + r;
      assert n * (q + 1) == n * q + n;
      DivModUnique(i, n, q + 1, r);
    }
  }

  // Adding to a wrapped counter, in unsigned arithmetic modulo n.
  function WrapAdd(a: nat, b: nat, n: nat): nat
    requires a < n && b < n
  {
    if a + b < n then a + b else a + b - n
  }

  lemma {:induction false} WrapAddExact(i: nat, j: nat, n: nat)
    requires n > 0 && j < n
    ensures WrapAdd(Wrap(i, n), j, n) == Wrap(i + j, n)
    decreases i
  {
    if i >= n {
      WrapAddExact(i - n, j, n);
    }
  }

  // The difference of two wrapped counters is their true difference as long as that is less than n.
  lemma WrapDiffExact(a: nat, b: nat, n: nat)
    requires n > 0 && b <= a < b + n
    ensures WrapSub(Wrap(a, n), Wrap(b, n), n) == a - b
  {
    WrapAddExact(b, a - b, n);
  }

  // Two counters less than n apart share a slot of n only if they are equal.
  lemma WrapDistinct(i: nat, j: nat, n: nat)
    requires n > 0 && i <= j < i + n && Wrap(i, n) == Wrap(j, n)
    ensures i == j
  {
    WrapDiffExact(j, i, n);
  }

  // A counter wrapped to a w-bit word and then masked selects the slot of the counter itself.
  lemma MaskedWord(i: nat, k: nat, w: nat)
    requires k <= w
    ensures And(Wrap(i, Pow2(w)), Pow2(k) - 1) == Wrap(i, Pow2(k))
  {
    WrapIsModulo(i, Pow2(w));
    MaskIsModulo(i % Pow2(w), k);
    WordThenMask(i, k, w);
    WrapIsModulo(i, Pow2(k));
  }
}
