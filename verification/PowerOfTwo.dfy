/** Rounding up to a power of two, as the containers do it: subtract one, copy the highest set bit into all
    lower places by or-ing with shifted copies, add one.  Words are numbers below 2^64. */
module PowerOfTwo {
  import opened Common
  import opened Bits

  // Bitwise or.
  function Or(a: nat, b: nat): nat {
    if a == 0 then b else if b == 0 then a
    else (if a % 2 == 1 || b % 2 == 1 then 1 else 0) + 2 * Or(a / 2, b / 2)
  }

  function Shr(a: nat, k: nat): nat { if k == 0 then a else Shr(a / 2, k - 1) }

  // n |= n >> m
  function Smear(n: nat, m: nat): nat { Or(n, Shr(n, m)) }

  function NextPowerOf2(n: nat): nat
    requires n < WORD64
  {
    if n == 0 then 1
    else
      var a := Smear(Smear(Smear(n - 1, 1), 2), 4);
      var b := Smear(Smear(Smear(a, 8), 16), 32);
      if b + 1 == WORD64 then 0 else b + 1
  }

  // ----- shifts and masks -----

  // A bit is set in the or of two numbers, or in both of them, as often as in the two together.
  lemma {:induction false} OrAndSum(a: nat, b: nat)
    ensures Or(a, b) + And(a, b) == a + b
  {
    if a > 0 && b > 0 {
      OrAndSum(a / 2, b / 2);
      LowBits(a % 2, b % 2);
    }
  }

  lemma LowBits(x: nat, y: nat)
    requires x < 2 && y < 2
    ensures (if x == 1 || y == 1 then 1 else 0) + x * y == x + y
  {
  }

  // A shift is a division by a power of two.
  lemma {:induction false} ShrIsDivision(a: nat, k: nat) returns (r: nat)
    ensures a == Shr(a, k) * Pow2(k) + r && r < Pow2(k)
  {
    if k == 0 {
      r := 0;
    } else {
      var r' := ShrIsDivision(a / 2, k - 1);
      r := 2 * r' + a % 2;
      Doubled(Shr(a, k), Pow2(k - 1));
    }
  }

  lemma {:induction false} ShrShr(a: nat, j: nat, k: nat)
    ensures Shr(Shr(a, j), k) == Shr(a, j + k)
  {
    if j > 0 { ShrShr(a / 2, j - 1, k); }
  }

  lemma {:induction false} ShrNothing(k: nat)
    ensures Shr(0, k) == 0
  {
    if k > 0 { ShrNothing(k - 1); }
  }

  // Shifting works on both operands of an or.
  lemma {:induction false} ShrOr(a: nat, b: nat, k: nat)
    ensures Shr(Or(a, b), k) == Or(Shr(a, k), Shr(b, k))
    decreases k
  {
    if k == 0 {
    } else if a == 0 || b == 0 {
      ShrNothing(k);
    } else {
      assert Or(a, b) / 2 == Or(a / 2, b / 2);
      ShrOr(a / 2, b / 2, k - 1);
    }
  }

  // Or-ing with m low ones sets exactly the m low bits.
  lemma {:induction false} OrOnes(u: nat, m: nat)
    ensures Or(u, Pow2(m) - 1) == Shr(u, m) * Pow2(m) + (Pow2(m) - 1)
  {
    if u == 0 {
      ShrNothing(m);
    } else if m > 0 {
      OrOnes(u / 2, m - 1);
      DoubleOnes(Shr(u, m), Pow2(m - 1));
    }
  }

  lemma DoubleOnes(q: nat, p: nat)
    requires p > 0
    ensures (2 * p - 1) / 2 == p - 1 && (2 * p - 1) % 2 == 1
    ensures 1 + 2 * (q * p + (p - 1)) == q * (2 * p) + (2 * p - 1)
  {
  }

  // ----- smearing -----

  // Of the len bits of x, the highest m are set (all of them, when m is more than len).
  predicate Filled(x: nat, len: nat, m: nat) {
    x < Pow2(len) && if m <= len then Shr(x, len - m) == Pow2(m) - 1 else x == Pow2(len) - 1
  }

  lemma {:induction false} ShrSmall(x: nat, k: nat)
    ensures Shr(x, k) == 0 <==> x < Pow2(k)
  {
    if k > 0 { ShrSmall(x / 2, k - 1); }
  }

  lemma SmearStaysShort(x: nat, len: nat, m: nat)
    requires x < Pow2(len)
    ensures Smear(x, m) < Pow2(len)
  {
    ShrSmall(x, len);
    ShrShr(x, m, len);
    ShrShr(x, len, m);
    ShrNothing(m);
    ShrOr(x, Shr(x, m), len);
    ShrSmall(Smear(x, m), len);
  }

  lemma Ones(a: nat, b: nat)
    ensures (Pow2(a) - 1) * Pow2(b) + (Pow2(b) - 1) == Pow2(a + b) - 1
  {
    Pow2Add(a, b);
    assert (Pow2(a) - 1) * Pow2(b) == Pow2(a) * Pow2(b) - Pow2(b);
  }

  // Shifting a ones by b leaves a - b of them.
  lemma {:induction false} ShrOnes(a: nat, b: nat)
    requires b <= a
    ensures Shr(Pow2(a) - 1, b) == Pow2(a - b) - 1
  {
    if b > 0 { ShrOnes(a - 1, b - 1); }
  }

  lemma SmearHalf(x: nat, len: nat, m: nat)
    requires Filled(x, len, m) && 0 < m && 2 * m <= len
    ensures Shr(Smear(x, m), len - 2 * m) == Pow2(2 * m) - 1
  {
    var j := len - 2 * m;
    var u, ones := Shr(x, j), Pow2(m) - 1;
    ShrOr(x, Shr(x, m), j);
    ShrShr(x, m, j);
    ShrShr(x, j, m);
    OrOnes(u, m);
    Ones(m, m);
  }

  lemma SmearRest(x: nat, len: nat, m: nat)
    requires Filled(x, len, m) && m <= len < 2 * m
    ensures Smear(x, m) == Pow2(len) - 1
  {
    var j := len - m;
    ShrShr(x, j, m - j);
    ShrOnes(m, m - j);
    assert Shr(x, m) == Pow2(j) - 1;
    OrOnes(x, j);
    Ones(m, j);
  }

  lemma SmearDoubles(x: nat, len: nat, m: nat)
    requires Filled(x, len, m) && 0 < m
    ensures Filled(Smear(x, m), len, 2 * m)
  {
    SmearStaysShort(x, len, m);
    if 2 * m <= len {
      SmearHalf(x, len, m);
    } else if m <= len {
      SmearRest(x, len, m);
      ShrOnes(len, len - m);
    } else {
      Pow2Grows(len, m);
      ShrSmall(x, m);
    }
  }

  function BitLength(x: nat): nat { if x == 0 then 0 else 1 + BitLength(x / 2) }

  lemma {:induction false} BitLengthExact(x: nat)
    ensures x < Pow2(BitLength(x)) && (x > 0 ==> BitLength(x) > 0 && Pow2(BitLength(x) - 1) <= x)
  {
    if x > 0 { BitLengthExact(x / 2); }
  }

  lemma {:induction false} TopBit(x: nat, k: nat)
    requires Pow2(k) <= x < 2 * Pow2(k)
    ensures Shr(x, k) == 1
  {
    if k > 0 { TopBit(x / 2, k - 1); }
  }

  lemma SmearThrice(x: nat, len: nat, m: nat)
    requires Filled(x, len, m) && 0 < m
    ensures Filled(Smear(Smear(Smear(x, m), 2 * m), 4 * m), len, 8 * m)
  {
    SmearDoubles(x, len, m);
    SmearDoubles(Smear(x, m), len, 2 * m);
    SmearDoubles(Smear(Smear(x, m), 2 * m), len, 4 * m);
  }

  lemma FilledOnce(x: nat, len: nat)
    requires 0 < len && x < Pow2(len) && Shr(x, len - 1) == 1
    ensures Filled(x, len, 1)
  {
    assert Pow2(1) == 2;
  }

  lemma FilledAll(x: nat, len: nat)
    requires Filled(x, len, 64) && len <= 64
    ensures x == Pow2(len) - 1
  {
    if len == 64 { assert Shr(x, 0) == x; }
  }

  lemma SmearAll(x: nat)
    requires 0 < x && BitLength(x) <= 64
    ensures var a := Smear(Smear(Smear(x, 1), 2), 4);
      Smear(Smear(Smear(a, 8), 16), 32) == Pow2(BitLength(x)) - 1
  {
    var len := BitLength(x);
    BitLengthExact(x);
    TopBit(x, len - 1);
    FilledOnce(x, len);
    SmearThrice(x, len, 1);
    var a := Smear(Smear(Smear(x, 1), 2), 4);
    SmearThrice(a, len, 8);
    FilledAll(Smear(Smear(Smear(a, 8), 16), 32), len);
  }

  // ----- the result -----

  ghost predicate LeastPower(r: nat, n: nat) {
    IsPow2(r) && n <= r && forall p: nat :: IsPow2(p) && n <= p ==> r <= p
  }

  lemma LeastIfHalfTooSmall(n: nat, k: nat)
    requires Pow2(k) < n <= Pow2(k + 1)
    ensures LeastPower(Pow2(k + 1), n)
  {
    forall p: nat | IsPow2(p) && n <= p ensures Pow2(k + 1) <= p {
      var j: nat :| p == Pow2(j);
      if j <= k { Pow2Grows(j, k); } else { Pow2Grows(k + 1, j); }
    }
  }

  // For every request up to 2^63, 0 too, the least power of two that is enough; beyond that 0.
  lemma NextPowerOf2Exact(n: nat)
    requires n < WORD64
    ensures n <= HALF ==> LeastPower(NextPowerOf2(n), n) && exists k: nat :: k <= 63 && NextPowerOf2(n) == Pow2(k)
    ensures n > HALF ==> NextPowerOf2(n) == 0
  {
    if n <= 1 {
      OneIsNext(n);
    } else {
      var len := BitLength(n - 1);
      LengthAndHalf(n - 1);
      SmearAll(n - 1);
      BitLengthExact(n - 1);
      if n <= HALF { LeastIfHalfTooSmall(n, len - 1); }
    }
  }

  const HALF := 0x8000_0000_0000_0000

  lemma LengthAndHalf(x: nat)
    requires 0 < x < WORD64
    ensures if x < HALF then BitLength(x) <= 63 && Pow2(BitLength(x)) <= HALF
            else BitLength(x) == 64 && Pow2(64) == WORD64
  {
    var len := BitLength(x);
    BitLengthExact(x);
    WordSizes();
    assert Pow2(63) == HALF;
    if len > 64 { Pow2Grows(64, len - 1); } else if len < 64 { Pow2Grows(len, 63); }
  }

  lemma OneIsNext(n: nat)
    requires n <= 1
    ensures NextPowerOf2(n) == 1 == Pow2(0) && LeastPower(1, n)
  {
    ZeroSmear(1); ZeroSmear(2); ZeroSmear(4); ZeroSmear(8); ZeroSmear(16); ZeroSmear(32);
  }

  lemma ZeroSmear(m: nat)
    ensures Smear(0, m) == 0
  {
    ShrNothing(m);
  }
}
