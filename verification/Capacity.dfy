/** How bstrlib rounds a requested size up, by smearing the top bit of the number over the bits below. */
module Capacity {
  const INT_MAX := 0x7FFF_FFFF
  const HALF_RANGE := 0x4000_0000   // 2^30

  // int
  type CInt = x: int | -0x8000_0000 <= x <= 0x7FFF_FFFF

  // a | b, on unsigned numbers
  function Or(a: nat, b: nat): nat {
    if a == 0 then b
    else if b == 0 then a
    else 2 * Or(a / 2, b / 2) + if a % 2 == 1 || b % 2 == 1 then 1 else 0
  }

  // j >> s
  function Shr(j: nat, s: nat): nat {
    if s == 0 then j else Shr(j / 2, s - 1)
  }

  function Pow2(n: nat): nat {
    if n == 0 then 1 else 2 * Pow2(n - 1)
  }

  // The number whose k bits are all ones.
  function Ones(k: nat): nat {
    if k == 0 then 0 else 2 * Ones(k - 1) + 1
  }

  // The s topmost of n bits are all ones, and there are no bits above.
  predicate TopOnes(j: nat, n: nat, s: nat)
    requires s <= n
  {
    Shr(j, n - s) == Ones(s)
  }

  lemma {:induction false} OnesIsPow2(k: nat)
    ensures Ones(k) + 1 == Pow2(k)
  {
    if k > 0 {
      OnesIsPow2(k - 1);
    }
  }

  lemma {:induction false} ShrShr(j: nat, s: nat, t: nat)
    ensures Shr(Shr(j, s), t) == Shr(j, s + t)
  {
    if s > 0 {
      ShrShr(j / 2, s - 1, t);
    }
  }

  lemma {:induction false} ShrOnes(k: nat, s: nat)
    ensures Shr(Ones(k), s) == if s <= k then Ones(k - s) else 0
  {
    if s > 0 {
      ShrOnes(if k == 0 then 0 else k - 1, s - 1);
    }
  }

  lemma {:induction false} ShrOr(a: nat, b: nat, s: nat)
    ensures Shr(Or(a, b), s) == Or(Shr(a, s), Shr(b, s))
  {
    if s > 0 {
      assert Or(a, b) / 2 == Or(a / 2, b / 2);
      ShrOr(a / 2, b / 2, s - 1);
    }
  }

  // Oring k ones in below s ones gives k + s ones.
  lemma {:induction false} OrFills(x: nat, k: nat, s: nat)
    requires Shr(x, k) == Ones(s)
    ensures Or(x, Ones(k)) == Ones(k + s)
  {
    if k > 0 {
      OrFills(x / 2, k - 1, s);
      assert Ones(k) / 2 == Ones(k - 1);
      if x == 0 {
        assert s == 0 by {
          ShrOnes(0, k);
        }
      }
    }
  }

  // One smearing step doubles the run of ones at the top, up to all n bits.
  lemma SmearDoubles(j: nat, n: nat, s: nat)
    requires 0 < s <= n && TopOnes(j, n, s)
    ensures TopOnes(Or(j, Shr(j, s)), n, if 2 * s <= n then 2 * s else n)
  {
    var w := if 2 * s <= n then 2 * s else n;
    var m := n - w;
    var x := Shr(j, m);
    ShrShr(j, m, w - s);
    assert Shr(x, w - s) == Ones(s);
    // the shifted copy is all ones below x's own
    ShrShr(j, s, m);
    ShrShr(j, m, s);
    ShrShr(x, w - s, 2 * s - w);
    ShrOnes(s, 2 * s - w);
    assert Shr(Shr(j, s), m) == Ones(w - s);
    ShrOr(j, Shr(j, s), m);
    OrFills(x, w - s, s);
  }

  lemma {:induction false} BitLength(i: nat) returns (n: nat)
    requires i > 0
    ensures n > 0 && Shr(i, n - 1) == 1
  {
    if i == 1 {
      n := 1;
    } else {
      n := BitLength(i / 2);
      n := n + 1;
    }
  }

  lemma {:induction false} BitsBound(i: nat, k: nat)
    requires Shr(i, k) == 1
    ensures Pow2(k) <= i < 2 * Pow2(k)
  {
    if k > 0 {
      BitsBound(i / 2, k - 1);
    }
  }

  lemma {:induction false} Pow2Monotone(m: nat, n: nat)
    requires m <= n
    ensures Pow2(m) <= Pow2(n)
  {
    if m < n {
      Pow2Monotone(m, n - 1);
    }
  }

  lemma Pow2Values()
    ensures Pow2(30) == HALF_RANGE && Pow2(31) == INT_MAX + 1
  {
    assert Pow2(8) == 256;
    assert Pow2(16) == 0x1_0000;
    assert Pow2(24) == 0x100_0000;
    assert Pow2(30) == HALF_RANGE;
  }

  ghost predicate LeastPowerAbove(p: int, i: int) {
    exists n: nat :: p == Pow2(n) && p > i && forall m: nat :: Pow2(m) > i ==> p <= Pow2(m)
  }

  predicate IsPowerOfTwo(p: int) {
    p in
    {1, 2, 4, 8, 16, 32, 64, 128, 256, 512, 1024, 2048,
     4096, 8192, 16384, 32768, 65536, 131072, 262144, 524288, 1048576,
     2097152, 4194304, 8388608, 16777216, 33554432, 67108864, 134217728, 268435456, 536870912, 1073741824}
  }

  lemma {:induction false} Pow2IsPower(n: nat)
    requires n <= 30
    ensures IsPowerOfTwo(Pow2(n))
    ensures n < 30 ==> Pow2(n) <= 536870912
  {
    Pow2Values();
    Pow2Monotone(n, if n < 30 then 29 else 30);
    if n > 0 {
      Pow2IsPower(n - 1);
    }
  }

  // Below half the range the next power is half the range at most.
  lemma Pow2Within(n: nat, i: int)
    requires i < HALF_RANGE && LeastPowerAbove(Pow2(n), i)
    ensures Pow2(n) <= HALF_RANGE
  {
    Pow2Values();
  }

  lemma LeastPowerIsPower(p: int, i: int)
    requires LeastPowerAbove(p, i) && p <= HALF_RANGE
    ensures IsPowerOfTwo(p)
  {
    var n: nat :| p == Pow2(n);
    Pow2Values();
    if n > 30 {
      Pow2Monotone(31, n);
    } else {
      Pow2IsPower(n);
    }
  }

  lemma NextPower(i: int, n: nat)
    requires 0 < i <= INT_MAX && n > 0 && Shr(i, n - 1) == 1
    ensures n <= 31 && LeastPowerAbove(Pow2(n), i) && Pow2(n) <= 2 * i
    ensures i < HALF_RANGE <==> Pow2(n) <= INT_MAX
    ensures Pow2(n) <= INT_MAX + 1
  {
    BitsBound(i, n - 1);
    Pow2Values();
    forall m: nat | Pow2(m) > i ensures Pow2(n) <= Pow2(m) {
      if m < n {
        Pow2Monotone(m, n - 1);
      } else {
        Pow2Monotone(n, m);
      }
    }
    if n > 31 {
      Pow2Monotone(31, n - 1);
    }
    if n <= 30 {
      Pow2Monotone(n, 30);
    }
  }

  // What a 32-bit int keeps of x.
  function Wrap(x: int): CInt {
    if -INT_MAX - 1 <= x <= INT_MAX then x
    else
      var w := x % 0x1_0000_0000;
      if w > INT_MAX then w - 0x1_0000_0000 else w
  }

  /** It differs from x by a multiple of 2^32, and fits. */
  lemma WrapIsCongruent(x: int)
    ensures (x - Wrap(x)) % 0x1_0000_0000 == 0
    ensures -0x8000_0000 <= Wrap(x) <= 0x7FFF_FFFF
  {
  }

  /** Below 2^30 the result is the larger of 8 and the least power of two above i. From there on the next
      power does not fit an int, and i comes back as it is. */
  method SnapUpSize(i: int) returns (r: int)
    requires i <= INT_MAX
    ensures i < 8 ==> r == 8
    ensures 8 <= i < HALF_RANGE ==> LeastPowerAbove(r, i) && i < r <= 2 * i && IsPowerOfTwo(r)
    ensures HALF_RANGE <= i ==> r == i
  {
    r := i;
    if i < 8 {
      r := 8;
    } else {
      ghost var n := BitLength(i);
      NextPower(i, n);
      var j := Smear(i, 1, n);
      j := Smear(j, 2, n);
      j := Smear(j, 4, n);
      j := Smear(j, 8, n);
      j := Smear(j, 16, n);
      OnesIsPow2(n);
      j := j + 1;
      // back to a signed int: 2^31 becomes negative
      var signed := Wrap(j);
      if signed >= i {
        r := signed;
      }
      if i < HALF_RANGE {
        Pow2Within(n, i);
        LeastPowerIsPower(r, i);
      }
    }
  }

  // j |= j >> s
  method Smear(j: nat, s: nat, ghost n: nat) returns (r: nat)
    requires 0 < s && 0 < n && TopOnes(j, n, if s <= n then s else n)
    ensures TopOnes(r, n, if 2 * s <= n then 2 * s else n)
  {
    r := Or(j, Shr(j, s));
    if s <= n {
      SmearDoubles(j, n, s);
    } else {
      ShrOnes(n, s);
    }
  }
}
