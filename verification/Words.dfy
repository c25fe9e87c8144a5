/** 64-bit unsigned words, with the bitwise operators the bitmap scans use. */
module Words {
  import opened Sizes

  const WIDTH: nat := 64

  /** Bit k of w, least significant first. */
  predicate Bit(w: nat, k: nat) {
    if k == 0 then w % 2 == 1 else Bit(w / 2, k - 1)
  }

  /** ^uint64(0): every bit set. */
  const ALL_ONES: nat := 0xFFFF_FFFF_FFFF_FFFF

  lemma AllOnesValue()
    ensures Pow2(WIDTH) == ALL_ONES + 1
  {
    for i := 0 to 8
      invariant Pow2(8 * i) == [0x1, 0x100, 0x1_0000, 0x100_0000, 0x1_0000_0000, 0x100_0000_0000,
                                0x1_0000_0000_0000, 0x100_0000_0000_0000, ALL_ONES + 1][i]
    {
      EightMore(8 * i);
    }
  }

  lemma EightMore(n: nat)
    ensures Pow2(n + 8) == 0x100 * Pow2(n)
  {
    assert Pow2(n + 2) == 4 * Pow2(n);
    assert Pow2(n + 4) == 4 * Pow2(n + 2);
    assert Pow2(n + 6) == 4 * Pow2(n + 4);
  }

  predicate IsWord(w: nat) {
    w <= ALL_ONES
  }

  /** a | b on n-bit words. */
  function Or(a: nat, b: nat, n: nat): nat
    decreases n, a
  {
    if n == 0 then 0
    else 2 * Or(a / 2, b / 2, n - 1) + if a % 2 == 1 || b % 2 == 1 then 1 else 0
  }

  /** a &^ b on n-bit words. */
  function AndNot(a: nat, b: nat, n: nat): nat
    decreases n, a
  {
    if n == 0 then 0
    else 2 * AndNot(a / 2, b / 2, n - 1) + if a % 2 == 1 && b % 2 == 0 then 1 else 0
  }

  /** ^a on n-bit words. */
  function Not(a: nat, n: nat): nat
    decreases n, a
  {
    if n == 0 then 0
    else 2 * Not(a / 2, n - 1) + if a % 2 == 0 then 1 else 0
  }

  lemma {:induction false} OrBits(a: nat, b: nat, n: nat, k: nat)
    ensures Or(a, b, n) < Pow2(n)
    ensures Bit(Or(a, b, n), k) <==> k < n && (Bit(a, k) || Bit(b, k))
  {
    if n == 0 {
      ZeroBits(k);
    } else {
      OrBits(a / 2, b / 2, n - 1, if k == 0 then 0 else k - 1);
      assert Or(a, b, n) / 2 == Or(a / 2, b / 2, n - 1);
    }
  }

  lemma {:induction false} AndNotBits(a: nat, b: nat, n: nat, k: nat)
    ensures AndNot(a, b, n) < Pow2(n)
    ensures Bit(AndNot(a, b, n), k) <==> k < n && Bit(a, k) && !Bit(b, k)
  {
    if n == 0 {
      ZeroBits(k);
    } else {
      AndNotBits(a / 2, b / 2, n - 1, if k == 0 then 0 else k - 1);
      assert AndNot(a, b, n) / 2 == AndNot(a / 2, b / 2, n - 1);
    }
  }

  lemma {:induction false} NotBits(a: nat, n: nat, k: nat)
    ensures Not(a, n) < Pow2(n)
    ensures Bit(Not(a, n), k) <==> k < n && !Bit(a, k)
  {
    if n == 0 {
      ZeroBits(k);
    } else {
      NotBits(a / 2, n - 1, if k == 0 then 0 else k - 1);
      assert Not(a, n) / 2 == Not(a / 2, n - 1);
    }
  }

  lemma {:induction false} ZeroBits(k: nat)
    ensures !Bit(0, k)
  {
    if k > 0 {
      ZeroBits(k - 1);
    }
  }

  /** 1 << k has the single bit k. */
  lemma {:induction false} OneBits(k: nat, j: nat)
    ensures Bit(Pow2(k), j) <==> j == k
  {
    if k == 0 {
      if j > 0 {
        ZeroBits(j - 1);
      }
    } else if j > 0 {
      OneBits(k - 1, j - 1);
    }
  }

  /** (1 << k) - 1 */
  function LowMask(k: nat): nat {
    Pow2(k) - 1
  }

  /** (1 << k) - 1 has exactly the bits below k. */
  lemma {:induction false} LowBits(k: nat, j: nat)
    ensures Bit(LowMask(k), j) <==> j < k
  {
    if k == 0 {
      ZeroBits(j);
    } else {
      assert LowMask(k) / 2 == LowMask(k - 1);
      if j > 0 {
        LowBits(k - 1, j - 1);
      }
    }
  }

  /** An n-bit word without a set bit is zero. */
  lemma {:induction false} NoBits(w: nat, n: nat)
    requires w < Pow2(n)
    requires forall k: nat :: k < n ==> !Bit(w, k)
    ensures w == 0
  {
    if n > 0 {
      forall k: nat | k < n - 1
        ensures !Bit(w / 2, k)
      {
        assert !Bit(w, k + 1);
      }
      NoBits(w / 2, n - 1);
      assert !Bit(w, 0);
    }
  }

  /** An n-bit word with every bit set is the all-ones word. */
  lemma {:induction false} AllBits(w: nat, n: nat)
    requires w < Pow2(n)
    requires forall k: nat :: k < n ==> Bit(w, k)
    ensures w == Pow2(n) - 1
  {
    if n > 0 {
      forall k: nat | k < n - 1
        ensures Bit(w / 2, k)
      {
        assert Bit(w, k + 1);
      }
      AllBits(w / 2, n - 1);
      assert Bit(w, 0);
    }
  }

  /** The number of trailing zero bits of a 64-bit word: its lowest set bit, or 64. */
  function TrailingZeros(w: nat): (r: nat)
    ensures r <= WIDTH
    ensures forall j: nat :: j < r ==> !Bit(w, j)
    ensures r < WIDTH ==> Bit(w, r)
  {
    TrailingZerosFrom(w, 0)
  }

  function TrailingZerosFrom(w: nat, k: nat): (r: nat)
    requires k <= WIDTH
    ensures k <= r <= WIDTH
    ensures forall j: nat :: k <= j < r ==> !Bit(w, j)
    ensures r < WIDTH ==> Bit(w, r)
    decreases WIDTH - k
  {
    if k == WIDTH || Bit(w, k) then k else TrailingZerosFrom(w, k + 1)
  }

  /** The operators keep words within their width. */
  lemma WordOps(a: nat, b: nat)
    ensures IsWord(Or(a, b, WIDTH)) && IsWord(AndNot(a, b, WIDTH)) && IsWord(Not(a, WIDTH))
  {
    AllOnesValue();
    OrBits(a, b, WIDTH, 0);
    AndNotBits(a, b, WIDTH, 0);
    NotBits(a, WIDTH, 0);
  }

  /** The scan for a free block: the lowest clear bit of a word that has one. */
  lemma LowestClear(w: nat)
    requires IsWord(w) && w != ALL_ONES
    ensures TrailingZeros(Not(w, WIDTH)) < WIDTH
    ensures !Bit(w, TrailingZeros(Not(w, WIDTH)))
    ensures forall j: nat :: j < TrailingZeros(Not(w, WIDTH)) ==> Bit(w, j)
  {
    forall k: nat | k < WIDTH
      ensures Bit(Not(w, WIDTH), k) <==> !Bit(w, k)
    {
      NotBits(w, WIDTH, k);
    }
    if forall k: nat :: k < WIDTH ==> Bit(w, k) {
      AllOnesValue();
      AllBits(w, WIDTH);
    }
  }

  /** The scan for a used block: the lowest set bit of a non-zero word. */
  lemma LowestSet(w: nat)
    requires IsWord(w) && w != 0
    ensures TrailingZeros(w) < WIDTH
    ensures Bit(w, TrailingZeros(w))
  {
    if TrailingZeros(w) == WIDTH {
      AllOnesValue();
      NoBits(w, WIDTH);
    }
  }

  lemma OnesBits(k: nat)
    requires k < WIDTH
    ensures Bit(ALL_ONES, k)
  {
    AllOnesValue();
    LowBits(WIDTH, k);
  }

  /** w |= 1 << k and w &^= 1 << k change bit k alone. */
  lemma OneBitOps(w: nat, k: nat)
    requires k < WIDTH
    ensures forall b: nat :: b < WIDTH ==> (Bit(Or(w, Pow2(k), WIDTH), b) <==> b == k || Bit(w, b))
    ensures forall b: nat :: b < WIDTH ==> (Bit(AndNot(w, Pow2(k), WIDTH), b) <==> b != k && Bit(w, b))
  {
    forall b: nat | b < WIDTH
      ensures Bit(Or(w, Pow2(k), WIDTH), b) <==> b == k || Bit(w, b)
      ensures Bit(AndNot(w, Pow2(k), WIDTH), b) <==> b != k && Bit(w, b)
    {
      OneBits(k, b);
      OrBits(w, Pow2(k), WIDTH, b);
      AndNotBits(w, Pow2(k), WIDTH, b);
    }
  }

  /** w | (1 << k - 1) sets the bits below k, w &^ (1 << k - 1) clears them. */
  lemma LowMaskOps(w: nat, k: nat)
    requires k < WIDTH
    ensures forall b: nat :: b < WIDTH ==> (Bit(Or(w, LowMask(k), WIDTH), b) <==> b < k || Bit(w, b))
    ensures forall b: nat :: b < WIDTH ==> (Bit(AndNot(w, LowMask(k), WIDTH), b) <==> b >= k && Bit(w, b))
  {
    forall b: nat | b < WIDTH
      ensures Bit(Or(w, LowMask(k), WIDTH), b) <==> b < k || Bit(w, b)
      ensures Bit(AndNot(w, LowMask(k), WIDTH), b) <==> b >= k && Bit(w, b)
    {
      LowBits(k, b);
      OrBits(w, LowMask(k), WIDTH, b);
      AndNotBits(w, LowMask(k), WIDTH, b);
    }
  }

  /** c * m | b is a sum when c is a power of two above b. */
  lemma {:induction false} OrOfHigh(c: nat, m: nat, b: nat, n: nat)
    requires c in {1, 2, 4, 8, 16, 32, 64, 128, 256} && b < c && c * m + b < Pow2(n)
    ensures Or(c * m, b, n) == c * m + b
    decreases n
  {
    hide Or, Pow2;
    OrStep(c * m, b, n);
    if n > 0 {
      if c == 1 {
        OrOfHigh(1, m / 2, 0, n - 1);
      } else {
        HalveProduct(c, m);
        assert c / 2 in {1, 2, 4, 8, 16, 32, 64, 128};
        assert b == 2 * (b / 2) + b % 2;
        OrOfHigh(c / 2, m, b / 2, n - 1);
      }
    }
  }

  lemma OrStep(a: nat, b: nat, n: nat)
    ensures n == 0 ==> Or(a, b, n) == 0 && Pow2(n) == 1
    ensures n > 0 ==> Or(a, b, n) == 2 * Or(a / 2, b / 2, n - 1) + if a % 2 == 1 || b % 2 == 1 then 1 else 0
    ensures n > 0 ==> Pow2(n) == 2 * Pow2(n - 1)
  {
  }

  lemma HalveProduct(c: nat, m: nat)
    requires c % 2 == 0
    ensures c * m / 2 == c / 2 * m && c * m % 2 == 0 && c * m == 2 * (c / 2 * m)
  {
    var h := c / 2;
    assert c * m == 2 * (h * m);
  }
}
