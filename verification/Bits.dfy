/** Single bits of a 32-bit register. */
module Bits {
  import opened Words
  import opened Division

  predicate Bit(x: nat, b: nat)
    decreases b
  {
    if b == 0 then x % 2 == 1 else Bit(x / 2, b - 1)
  }

  function SetBit(x: nat, b: nat): nat
    decreases b
  {
    if b == 0 then x / 2 * 2 + 1 else SetBit(x / 2, b - 1) * 2 + x % 2
  }

  function ClearBit(x: nat, b: nat): (r: nat)
    ensures r <= x
    decreases b
  {
    if b == 0 then x / 2 * 2 else ClearBit(x / 2, b - 1) * 2 + x % 2
  }

  function Pow2(n: nat): (p: nat)
    ensures p > 0
    decreases n
  {
    if n == 0 then 1 else 2 * Pow2(n - 1)
  }

  lemma Halves(high: nat, low: nat)
    requires low < 2
    ensures (high * 2 + low) / 2 == high && (high * 2 + low) % 2 == low
  {
  }

  lemma {:induction false} BitOfSet(x: nat, b: nat, c: nat)
    ensures Bit(SetBit(x, b), c) == (b == c || Bit(x, c))
    decreases b
  {
    if b > 0 {
      Halves(SetBit(x / 2, b - 1), x % 2);
      if c > 0 {
        BitOfSet(x / 2, b - 1, c - 1);
      }
    }
  }

  lemma {:induction false} BitOfClear(x: nat, b: nat, c: nat)
    ensures Bit(ClearBit(x, b), c) == (b != c && Bit(x, c))
    decreases b
  {
    if b > 0 {
      Halves(ClearBit(x / 2, b - 1), x % 2);
      if c > 0 {
        BitOfClear(x / 2, b - 1, c - 1);
      }
    }
  }

  lemma HalfBelow(x: nat, p: nat)
    requires x < 2 * p
    ensures x / 2 < p
  {
  }

  lemma DoubleBelow(high: nat, low: nat, p: nat)
    requires high < p && low < 2
    ensures high * 2 + low < 2 * p
  {
  }

  lemma {:induction false} SetBelow(x: nat, b: nat, n: nat)
    requires x < Pow2(n) && b < n
    ensures SetBit(x, b) < Pow2(n)
    decreases n
  {
    HalfBelow(x, Pow2(n - 1));
    if b > 0 {
      SetBelow(x / 2, b - 1, n - 1);
      DoubleBelow(SetBit(x / 2, b - 1), x % 2, Pow2(n - 1));
    } else {
      DoubleBelow(x / 2, 1, Pow2(n - 1));
    }
  }

  lemma {:induction false} ZeroHasNoBits(b: nat)
    ensures !Bit(0, b)
    decreases b
  {
    if b > 0 {
      ZeroHasNoBits(b - 1);
    }
  }

  lemma {:induction false} HighestIsSet(x: nat)
    requires x > 0
    ensures Bit(x, HighestBit(x))
    decreases x
  {
    if x > 1 {
      HighestIsSet(x / 2);
    }
  }

  lemma {:induction false} NoneAboveHighest(x: nat, b: nat)
    requires x > 0 && b > HighestBit(x)
    ensures !Bit(x, b)
    decreases x
  {
    if x == 1 {
      ZeroHasNoBits(b - 1);
    } else {
      NoneAboveHighest(x / 2, b - 1);
    }
  }

  lemma {:induction false} HighestBelow(x: nat, n: nat)
    requires 0 < x < Pow2(n)
    ensures HighestBit(x) < n
    decreases n
  {
    if x > 1 {
      HighestBelow(x / 2, n - 1);
    }
  }

  lemma PowerOf32()
    ensures Pow2(32) == W32
  {
    assert Pow2(8) == 0x100;
    assert Pow2(16) == 0x1_0000;
    assert Pow2(24) == 0x100_0000;
  }

  /** Setting a bit of a 32-bit register. */
  function SetBit32(x: Word32, b: nat): (r: Word32)
    requires b < 32
    ensures forall c: nat :: Bit(r, c) == (b == c || Bit(x, c))
  {
    PowerOf32();
    SetBelow(x, b, 32);
    assert forall c: nat :: Bit(SetBit(x, b), c) == (b == c || Bit(x, c)) by {
      forall c: nat ensures Bit(SetBit(x, b), c) == (b == c || Bit(x, c)) { BitOfSet(x, b, c); }
    }
    SetBit(x, b)
  }

  function ClearBit32(x: Word32, b: nat): (r: Word32)
    requires b < 32
    ensures forall c: nat :: Bit(r, c) == (b != c && Bit(x, c))
  {
    assert forall c: nat :: Bit(ClearBit(x, b), c) == (b != c && Bit(x, c)) by {
      forall c: nat ensures Bit(ClearBit(x, b), c) == (b != c && Bit(x, c)) { BitOfClear(x, b, c); }
    }
    ClearBit(x, b)
  }

  /** The highest set bit of a nonzero register, which is what the bit scan is documented to give. */
  function Msb32(x: Word32): (b: nat)
    requires x > 0
    ensures b < 32 && Bit(x, b) && forall c: nat :: c > b ==> !Bit(x, c)
  {
    PowerOf32();
    HighestBelow(x, 32);
    HighestIsSet(x);
    assert forall c: nat :: c > HighestBit(x) ==> !Bit(x, c) by {
      forall c: nat | c > HighestBit(x) ensures !Bit(x, c) { NoneAboveHighest(x, c); }
    }
    HighestBit(x)
  }

  // ---- quotients, remainders and equality ----------------------------------

  lemma {:induction false} BitOfQuotient(x: nat, n: nat, p: nat, q: nat, k: nat)
    requires p == Pow2(n) && x / p == q
    ensures Bit(q, k) == Bit(x, k + n)
    decreases n
  {
    if n > 0 {
      HalvedQuotient(x, Pow2(n - 1));
      BitOfQuotient(x / 2, n - 1, Pow2(n - 1), q, k);
    }
  }

  lemma HalvedQuotient(x: nat, p: nat)
    requires p > 0
    ensures x / (2 * p) == (x / 2) / p
  {
    var q, r := x / 2 / p, x / 2 % p;
    HalfIs(x, p, q, r);
    DivModUnique(x, 2 * p, q, 2 * r + x % 2);
  }

  lemma HalfIs(x: nat, p: nat, q: nat, r: nat)
    requires p > 0 && x / 2 == q * p + r
    ensures x == q * (2 * p) + (2 * r + x % 2)
  {
    assert x == 2 * (x / 2) + x % 2;
    assert q * (2 * p) == 2 * (q * p);
  }

  lemma {:induction false} BitOfRemainder(x: nat, n: nat, k: nat)
    requires k < n
    ensures Bit(x % Pow2(n), k) == Bit(x, k)
    decreases n
  {
    RemainderHalves(x, Pow2(n - 1));
    if k > 0 {
      BitOfRemainder(x / 2, n - 1, k - 1);
    }
  }

  lemma RemainderHalves(x: nat, p: nat)
    requires p > 0
    ensures x % (2 * p) % 2 == x % 2 && x % (2 * p) / 2 == x / 2 % p
  {
    var q, r := x / 2 / p, x / 2 % p;
    HalfIs(x, p, q, r);
    DivModUnique(x, 2 * p, q, 2 * r + x % 2);
    DoubleParts(r, x % 2);
  }

  lemma DoubleParts(r: nat, low: nat)
    requires low < 2
    ensures (2 * r + low) % 2 == low && (2 * r + low) / 2 == r
  {
  }

  /** The low `n` bits are the same. */
  predicate BitsAgree(x: nat, y: nat, n: nat) { forall k :: 0 <= k < n ==> Bit(x, k) == Bit(y, k) }

  lemma {:induction false} BitsDetermine(x: nat, y: nat, n: nat)
    requires x < Pow2(n) && y < Pow2(n) && BitsAgree(x, y, n)
    ensures x == y
    decreases n
  {
    if n > 0 {
      HalfBelow(x, Pow2(n - 1));
      HalfBelow(y, Pow2(n - 1));
      assert Bit(x, 0) == Bit(y, 0);
      forall k | 0 <= k < n - 1 ensures Bit(x / 2, k) == Bit(y / 2, k) {
        assert Bit(x, k + 1) == Bit(y, k + 1);
      }
      BitsDetermine(x / 2, y / 2, n - 1);
      assert x == x / 2 * 2 + x % 2 && y == y / 2 * 2 + y % 2;
    }
  }

  /** Numbers of so many bits are equal exactly if all those bits are. */
  lemma SameBits(x: nat, y: nat, n: nat)
    requires x < Pow2(n) && y < Pow2(n)
    ensures x == y <==> BitsAgree(x, y, n)
  {
    if BitsAgree(x, y, n) {
      BitsDetermine(x, y, n);
    }
  }
}
