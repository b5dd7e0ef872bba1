/** Non-negative integers as bit strings: the shifts, masks and ors of the Go code, on
    unbounded naturals. A uint64 is a natural below TWO_64. */
module Bits {
  const TWO_64: nat := 0x1_0000_0000_0000_0000

  function Pow2(k: nat): (p: nat)
    ensures p > 0
  {
    if k == 0 then 1 else 2 * Pow2(k - 1)
  }

  /** x >> k */
  function Shr(x: nat, k: nat): nat {
    if k == 0 then x else Shr(x / 2, k - 1)
  }

  /** x << k */
  function Shl(x: nat, k: nat): nat {
    x * Pow2(k)
  }

  /** ((x >> i) & 1) == 1 */
  predicate Bit(x: nat, i: nat) {
    Shr(x, i) % 2 == 1
  }

  function Or(a: nat, b: nat): nat {
    if a == 0 then b
    else if b == 0 then a
    else (if a % 2 == 1 || b % 2 == 1 then 1 else 0) + 2 * Or(a / 2, b / 2)
  }

  function And(a: nat, b: nat): nat {
    if a == 0 || b == 0 then 0
    else (if a % 2 == 1 && b % 2 == 1 then 1 else 0) + 2 * And(a / 2, b / 2)
  }

  function PopCount(n: nat): nat {
    if n == 0 then 0 else n % 2 + PopCount(n / 2)
  }

  /** The number whose bit i is bs[i]. */
  function PackBits(bs: seq<bool>): nat {
    if bs == [] then 0 else (if bs[0] then 1 else 0) + 2 * PackBits(bs[1..])
  }

  lemma {:induction false} ShrIsDiv(x: nat, k: nat)
    ensures Shr(x, k) == x / Pow2(k)
  {
    if k == 0 {
    } else {
      ShrIsDiv(x / 2, k - 1);
      DivDiv(x, Pow2(k - 1));
    }
  }

  lemma DivDiv(x: nat, p: nat)
    requires p > 0
    ensures (x / 2) / p == x / (2 * p)
  {
    var q, r := (x / 2) / p, (x / 2) % p;
    assert x == q * (2 * p) + (2 * r + x % 2);
    DivUnique(x, 2 * p, q, 2 * r + x % 2);
  }

  lemma DivUnique(x: nat, d: nat, q: nat, r: nat)
    requires r < d && x == q * d + r
    ensures x / d == q && x % d == r
  {
    var q', r' := x / d, x % d;
    if q' < q {
      assert (q - q') * d == q * d - q' * d;
      MulAtLeast(q - q', d);
    } else if q < q' {
      assert (q' - q) * d == q' * d - q * d;
      MulAtLeast(q' - q, d);
    }
  }

  lemma MulAtLeast(a: nat, d: nat)
    requires a > 0
    ensures a * d >= d
  {
  }

  lemma {:induction false} Pow2Add(a: nat, b: nat)
    ensures Pow2(a + b) == Pow2(a) * Pow2(b)
  {
    if a == 0 {
    } else {
      Pow2Add(a - 1, b);
    }
  }

  lemma {:induction false} Pow2Monotone(a: nat, b: nat)
    requires a <= b
    ensures Pow2(a) <= Pow2(b)
    decreases b
  {
    if a == b {
    } else {
      Pow2Monotone(a, b - 1);
    }
  }

  /** Or is the bitwise or. */
  lemma {:induction false} OrBit(a: nat, b: nat, i: nat)
    ensures Bit(Or(a, b), i) <==> Bit(a, i) || Bit(b, i)
    decreases i
  {
    ZeroBit(i);
    if a == 0 || b == 0 || i == 0 {
    } else {
      OrBit(a / 2, b / 2, i - 1);
    }
  }

  /** And is the bitwise and. */
  lemma {:induction false} AndBit(a: nat, b: nat, i: nat)
    ensures Bit(And(a, b), i) <==> Bit(a, i) && Bit(b, i)
    decreases i
  {
    ZeroBit(i);
    if a == 0 || b == 0 || i == 0 {
    } else {
      AndBit(a / 2, b / 2, i - 1);
    }
  }

  lemma {:induction false} ZeroBit(i: nat)
    ensures !Bit(0, i)
  {
    if i == 0 {
    } else {
      ZeroBit(i - 1);
    }
  }

  lemma {:induction false} OrCommutes(a: nat, b: nat)
    ensures Or(a, b) == Or(b, a)
  {
    if a == 0 || b == 0 {
    } else {
      OrCommutes(a / 2, b / 2);
    }
  }

  /** An or of two numbers without a common bit position is their sum. */
  lemma {:induction false} OrDisjoint(a: nat, b: nat, k: nat)
    requires b < Pow2(k)
    ensures Or(Shl(a, k), b) == Shl(a, k) + b
  {
    if k == 0 {
    } else {
      var x := Shl(a, k - 1);
      assert Shl(a, k) == 2 * x;
      OrDisjoint(a, b / 2, k - 1);
    }
  }

  lemma AndStep(x: nat, p: nat)
    requires p > 0
    ensures And(x, 2 * p - 1) == x % 2 + 2 * And(x / 2, p - 1)
  {
  }

  /** Masking with k low one-bits is the remainder modulo 2^k. */
  lemma {:induction false} AndMask(x: nat, k: nat)
    ensures And(x, Pow2(k) - 1) == x % Pow2(k)
  {
    if k == 0 {
    } else {
      var p := Pow2(k - 1);
      AndMask(x / 2, k - 1);
      AndStep(x, p);
      ModHalves(x, p);
    }
  }

  lemma ModHalves(x: nat, p: nat)
    requires p > 0
    ensures x % (2 * p) == x % 2 + 2 * ((x / 2) % p)
  {
    var q, r := (x / 2) / p, (x / 2) % p;
    assert x == q * (2 * p) + (2 * r + x % 2);
    DivUnique(x, 2 * p, q, 2 * r + x % 2);
  }

  lemma {:induction false} PackBitsBound(bs: seq<bool>)
    ensures PackBits(bs) < Pow2(|bs|)
  {
    if bs == [] {
    } else {
      PackBitsBound(bs[1..]);
    }
  }

  lemma {:induction false} PackBitsSnoc(bs: seq<bool>, b: bool)
    ensures PackBits(bs + [b]) == PackBits(bs) + if b then Pow2(|bs|) else 0
  {
    if bs == [] {
      assert bs + [b] == [b];
    } else {
      assert (bs + [b])[1..] == bs[1..] + [b];
      PackBitsSnoc(bs[1..], b);
    }
  }

  /** Setting bit |bs| of the packed bits by an or appends a true bit. */
  lemma PackBitsOr(bs: seq<bool>)
    ensures Or(PackBits(bs), Pow2(|bs|)) == PackBits(bs + [true])
  {
    PackBitsBound(bs);
    OrDisjoint(1, PackBits(bs), |bs|);
    OrCommutes(Shl(1, |bs|), PackBits(bs));
    PackBitsSnoc(bs, true);
  }

  /** Reading a packed bit back by shift and mask. */
  lemma {:induction false} PackBitsBit(bs: seq<bool>, i: nat)
    requires i < |bs|
    ensures Bit(PackBits(bs), i) == bs[i]
  {
    if i == 0 {
    } else {
      PackBitsBit(bs[1..], i - 1);
    }
  }

  lemma PowerSum(a: nat, p: nat, b: nat, q: nat)
    requires Pow2(a) == p && Pow2(b) == q
    ensures Pow2(a + b) == p * q
  {
    Pow2Add(a, b);
  }

  lemma TwoTo64()
    ensures Pow2(64) == TWO_64
  {
    assert Pow2(8) == 0x100;
    PowerSum(8, 0x100, 8, 0x100);
    PowerSum(16, 0x1_0000, 16, 0x1_0000);
    PowerSum(32, 0x1_0000_0000, 32, 0x1_0000_0000);
  }
}
