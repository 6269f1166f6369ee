/**
 * Rounding a count up to a power of two, as `next_power_of_2` does for the
 * number of internal-node slots of the tree.
 *
 * A `usize` is modelled as a `nat`; `|` and `>>` on unsigned integers are the
 * functions BitOr and Shr below. The routine decrements its argument, smears
 * the highest set bit into the 31 positions below it with five or-and-shift
 * rounds (shifts 1, 2, 4, 8, 16) and increments the result again; that fills
 * every lower position only when the argument is at most 2^32.
 */
module PowerOfTwo {

  /** 2 to the power k. */
  function Pow2(k: nat): (p: nat)
    ensures p >= 1
  {
    if k == 0 then 1 else 2 * Pow2(k - 1)
  }

  /** p is 1, 2, 4, 8, ... */
  predicate IsPowerOfTwo(p: int)
    decreases if p < 0 then 0 else p
  {
    p == 1 || (p >= 2 && p % 2 == 0 && IsPowerOfTwo(p / 2))
  }

  function Min(a: nat, b: nat): nat
  {
    if a <= b then a else b
  }

  // ---------------------------------------------------------------------
  // Facts about powers of two
  // ---------------------------------------------------------------------

  lemma {:induction false} Pow2IsPowerOfTwo(k: nat)
    ensures IsPowerOfTwo(Pow2(k))
  {
    if k > 0 {
      Pow2IsPowerOfTwo(k - 1);
      assert Pow2(k) / 2 == Pow2(k - 1);
    }
  }

  lemma {:induction false} Pow2Add(a: nat, b: nat)
    ensures Pow2(a + b) == Pow2(a) * Pow2(b)
  {
    if a > 0 {
      Pow2Add(a - 1, b);
      assert Pow2(a + b) == 2 * Pow2(a - 1 + b);
    }
  }

  lemma {:induction false} Pow2Monotone(a: nat, b: nat)
    requires a <= b
    ensures Pow2(a) <= Pow2(b)
  {
    if a < b {
      Pow2Monotone(a, b - 1);
    }
  }

  /** Two different powers of two are at least a factor of two apart. */
  lemma {:induction false} PowersOfTwoApart(a: int, b: int)
    requires IsPowerOfTwo(a) && IsPowerOfTwo(b) && a < b
    ensures 2 * a <= b
  {
    if a != 1 {
      PowersOfTwoApart(a / 2, b / 2);
    }
  }

  /** The two widths next_power_of_2 is concerned with. */
  lemma Pow2Table()
    ensures Pow2(32) == 0x1_0000_0000
    ensures Pow2(63) == 0x8000_0000_0000_0000
  {
    assert Pow2(7) == 0x80 && Pow2(8) == 0x100;
    Pow2Add(8, 7);
    Pow2Add(8, 8);
    Pow2Add(16, 15);
    Pow2Add(16, 16);
    Pow2Add(32, 31);
  }

  // ---------------------------------------------------------------------
  // The specification: the smallest power of two that is n or more
  // ---------------------------------------------------------------------

  /** Doubles p until it reaches n; p / 2 stays below n on the way. */
  function CeilPow2From(n: nat, p: nat): (r: nat)
    requires IsPowerOfTwo(p) && (p == 1 || p / 2 < n)
    ensures IsPowerOfTwo(r) && n <= r
    ensures r == 1 || r / 2 < n
    decreases n - p
  {
    if n <= p then p else CeilPow2From(n, 2 * p)
  }

  /** The smallest power of two that is not below n. */
  function CeilPow2(n: nat): (p: nat)
    ensures IsPowerOfTwo(p) && n <= p
    ensures n >= 1 ==> p < 2 * n
  {
    CeilPow2From(n, 1)
  }

  /** No power of two between n and CeilPow2(n) is skipped. */
  lemma CeilPow2IsLeast(n: nat, q: int)
    requires IsPowerOfTwo(q) && n <= q
    ensures CeilPow2(n) <= q
  {
    var p := CeilPow2(n);
    if q < p {
      PowersOfTwoApart(q, p);
    }
  }

  /** A power of two in [n, 2n) is CeilPow2(n). */
  lemma CeilPow2Unique(n: nat, p: int)
    requires IsPowerOfTwo(p) && n <= p < 2 * n
    ensures p == CeilPow2(n)
  {
    var c := CeilPow2(n);
    if p < c {
      PowersOfTwoApart(p, c);
    } else if c < p {
      PowersOfTwoApart(c, p);
    }
  }

  // ---------------------------------------------------------------------
  // Unsigned bit operations on naturals
  // ---------------------------------------------------------------------

  /** Bitwise or, as `|` on unsigned integers. */
  function BitOr(a: nat, b: nat): nat
    decreases a + b
  {
    if a == 0 then b
    else if b == 0 then a
    else 2 * BitOr(a / 2, b / 2) + (if a % 2 == 1 || b % 2 == 1 then 1 else 0)
  }

  /** Logical shift right by k positions, as `>>` on unsigned integers: k halvings. */
  function Shr(a: nat, k: nat): nat
  {
    if k == 0 then a else Shr(a / 2, k - 1)
  }

  /** Shift left by k positions without overflow: k doublings. */
  function Shl(a: nat, k: nat): nat
  {
    if k == 0 then a else 2 * Shl(a, k - 1)
  }

  /** Number of binary digits of x (0 for x == 0). */
  function BitLength(x: nat): nat
  {
    if x == 0 then 0 else 1 + BitLength(x / 2)
  }

  lemma {:induction false} BitOrAtLeast(a: nat, b: nat)
    ensures a <= BitOr(a, b) && b <= BitOr(a, b)
    decreases a + b
  {
    if a != 0 && b != 0 {
      BitOrAtLeast(a / 2, b / 2);
    }
  }

  /** Or-ing two numbers of at most j bits gives a number of at most j bits. */
  lemma {:induction false} BitOrBelow(a: nat, b: nat, j: nat)
    requires a < Pow2(j) && b < Pow2(j)
    ensures BitOr(a, b) < Pow2(j)
  {
    if a != 0 && b != 0 {
      BitOrBelow(a / 2, b / 2, j - 1);
    }
  }

  /** Or-ing a number below 2^j only touches the low j bits. */
  lemma {:induction false} BitOrHighLow(hi: nat, c: nat, w: nat, j: nat)
    requires c < Pow2(j) && w < Pow2(j)
    ensures BitOr(Shl(hi, j) + c, w) == Shl(hi, j) + BitOr(c, w)
  {
    var v := Shl(hi, j);
    if j == 0 {
      assert w == 0 && c == 0;
    } else if w == 0 {
    } else if v + c == 0 {
      assert c == 0;
    } else {
      var half := Shl(hi, j - 1);
      assert (v + c) / 2 == half + c / 2;
      assert (v + c) % 2 == c % 2;
      BitOrHighLow(hi, c / 2, w / 2, j - 1);
      if c == 0 {
        assert BitOr(0, w / 2) == w / 2;
      }
    }
  }

  lemma {:induction false} BitLengthBounds(x: nat)
    requires x > 0
    ensures Pow2(BitLength(x) - 1) <= x < Pow2(BitLength(x))
  {
    if x > 1 {
      BitLengthBounds(x / 2);
    }
  }

  lemma {:induction false} BitLengthAtMost(x: nat, j: nat)
    requires x < Pow2(j)
    ensures BitLength(x) <= j
  {
    if x > 0 {
      BitLengthAtMost(x / 2, j - 1);
    }
  }

  // ---------------------------------------------------------------------
  // Smearing the highest set bit downwards
  // ---------------------------------------------------------------------

  /**
   * `rounds` rounds of `v |= v >> s`, with s = 1, 2, 4, ..., 2^(rounds-1).
   * next_power_of_2 runs five rounds.
   */
  function Smear(x: nat, rounds: nat): nat
  {
    if rounds == 0 then x
    else
      var u := Smear(x, rounds - 1);
      BitOr(u, Shr(u, Pow2(rounds - 1)))
  }

  /** v has exactly L bits and the top m of them are all set. */
  ghost predicate TopOnes(v: nat, L: nat, m: nat)
  {
    m <= L && Pow2(L) - Pow2(L - m) <= v < Pow2(L)
  }

  /** Shifting right never increases a number. */
  lemma {:induction false} ShrAtMost(a: nat, k: nat)
    ensures Shr(a, k) <= a
  {
    if k > 0 {
      ShrAtMost(a / 2, k - 1);
    }
  }

  /**
   * If the bits of v above position J are all set (and v has L bits), then
   * after a shift by k the bits above S = J - k are set, or all R = L - k bits
   * once k passes J.
   */
  lemma {:induction false} ShrTopOnes(v: nat, L: nat, J: nat, k: nat, R: nat, S: nat)
    requires J <= L && R + k == L && S + Min(k, J) == J
    requires Pow2(L) - Pow2(J) <= v < Pow2(L)
    ensures Pow2(R) - Pow2(S) <= Shr(v, k) < Pow2(R)
  {
    if k > 0 {
      assert Pow2(L) == 2 * Pow2(L - 1);
      if J > 0 {
        assert Pow2(J) == 2 * Pow2(J - 1);
        ShrTopOnes(v / 2, L - 1, J - 1, k - 1, R, S);
      } else {
        ShrTopOnes(v / 2, L - 1, 0, k - 1, R, S);
      }
    }
  }

  /** Where the shifted copy of v lies when the top m of its L bits are set. */
  lemma ShiftedTopOnes(v: nat, L: nat, m: nat)
    requires 1 <= m < L && TopOnes(v, L, m)
    ensures Pow2(L - m) - Pow2(L - Min(2 * m, L)) <= Shr(v, m) < Pow2(L - m)
  {
    ShrTopOnes(v, L, L - m, m, L - m, L - Min(2 * m, L));
  }

  /** A run of m ones followed by J zeros is 2^L - 2^J, where L = m + J. */
  lemma {:induction false} OnesBlock(m: nat, J: nat, L: nat)
    requires L == m + J
    ensures Shl(Pow2(m) - 1, J) == Pow2(L) - Pow2(J)
  {
    if J > 0 {
      OnesBlock(m, J - 1, L - 1);
      assert Pow2(L) == 2 * Pow2(L - 1);
    }
  }

  /** Splits v = (2^m - 1) << (L-m) plus c with c < 2^(L-m). */
  lemma TopOnesSplit(v: nat, L: nat, m: nat) returns (hi: nat, c: nat)
    requires 1 <= m < L && TopOnes(v, L, m)
    ensures v == Shl(hi, L - m) + c && c < Pow2(L - m)
    ensures Shl(hi, L - m) == Pow2(L) - Pow2(L - m)
  {
    hi := Pow2(m) - 1;
    OnesBlock(m, L - m, L);
    c := v - Shl(hi, L - m);
  }

  /** One round with shift k: the run of leading ones grows by k, up to L. */
  lemma SmearRound(v: nat, L: nat, m: nat, k: nat)
    requires 1 <= m <= L && TopOnes(v, L, m) && (k == m || m == L)
    ensures TopOnes(BitOr(v, Shr(v, k)), L, Min(m + k, L))
  {
    var w := Shr(v, k);
    BitOrAtLeast(v, w);
    if m == L {
      ShrAtMost(v, k);
      BitOrBelow(v, w, L);
    } else {
      var j := L - m;
      ShiftedTopOnes(v, L, m);
      var hi, c := TopOnesSplit(v, L, m);
      BitOrHighLow(hi, c, w, j);
      BitOrAtLeast(c, w);
      BitOrBelow(c, w, j);
    }
  }

  /** After r rounds the top min(2^r, L) of the L bits of x are set. */
  lemma {:induction false} SmearTopOnes(x: nat, rounds: nat)
    requires x > 0
    ensures TopOnes(Smear(x, rounds), BitLength(x), Min(Pow2(rounds), BitLength(x)))
  {
    var L := BitLength(x);
    BitLengthBounds(x);
    if rounds == 0 {
      assert Pow2(L) == 2 * Pow2(L - 1);
    } else {
      var m := Min(Pow2(rounds - 1), L);
      SmearTopOnes(x, rounds - 1);
      SmearRound(Smear(x, rounds - 1), L, m, Pow2(rounds - 1));
    }
  }

  lemma {:induction false} SmearZero(rounds: nat)
    ensures Smear(0, rounds) == 0
  {
    if rounds > 0 {
      SmearZero(rounds - 1);
      ShrAtMost(0, Pow2(rounds - 1));
    }
  }

  /** Enough rounds turn x into 2^BitLength(x) - 1, all ones. */
  lemma SmearAllOnes(x: nat, rounds: nat)
    requires BitLength(x) <= Pow2(rounds)
    ensures Smear(x, rounds) == Pow2(BitLength(x)) - 1
  {
    if x == 0 {
      SmearZero(rounds);
    } else {
      SmearTopOnes(x, rounds);
    }
  }

  /** Smearing never adds bits above the highest one. */
  lemma {:induction false} SmearBelow(x: nat, rounds: nat, j: nat)
    requires x < Pow2(j)
    ensures Smear(x, rounds) < Pow2(j)
  {
    if rounds > 0 {
      SmearBelow(x, rounds - 1, j);
      var u := Smear(x, rounds - 1);
      ShrAtMost(u, Pow2(rounds - 1));
      BitOrBelow(u, Shr(u, Pow2(rounds - 1)), j);
    }
  }

  /** Decrement, smear with the given number of rounds, increment. */
  lemma NextPowerOf2Exact(n: nat, rounds: nat)
    requires 1 <= n && BitLength(n - 1) <= Pow2(rounds)
    ensures Smear(n - 1, rounds) + 1 == CeilPow2(n)
  {
    SmearAllOnesIsCeil(n - 1, n, rounds);
  }

  /** Smearing x = n - 1 completely and adding one gives the least power of two >= n. */
  lemma SmearAllOnesIsCeil(x: nat, n: nat, rounds: nat)
    requires n == x + 1 && BitLength(x) <= Pow2(rounds)
    ensures Smear(x, rounds) + 1 == CeilPow2(n)
  {
    var L := BitLength(x);
    SmearAllOnes(x, rounds);
    BitLengthCeil(x);
    Pow2IsPowerOfTwo(L);
    CeilPow2Unique(n, Pow2(L));
  }

  /** 2^BitLength(x) is the least power of two above x: it is at most 2x + 1. */
  lemma BitLengthCeil(x: nat)
    ensures x < Pow2(BitLength(x)) <= 2 * x + 1
  {
    if x > 0 {
      BitLengthBounds(x);
      assert Pow2(BitLength(x)) == 2 * Pow2(BitLength(x) - 1);
    }
  }

  // ---------------------------------------------------------------------
  // next_power_of_2
  // ---------------------------------------------------------------------

  /**
   * next_power_of_2 as written: five smear rounds, so only the highest set
   * bit and the 31 bits below it are filled. For n <= 2^32 the result is the
   * smallest power of two >= n; above that it need not be a power of two.
   */
  method NextPowerOf2(n: nat) returns (p: nat)
    requires 1 <= n <= 0x8000_0000_0000_0000
    ensures p == Smear(n - 1, 5) + 1
    ensures p <= 0x8000_0000_0000_0000
    ensures n <= 0x1_0000_0000 ==> p == CeilPow2(n)
  {
    var v := n;
    v := v - 1;
    ghost var x := v;
    v := BitOr(v, Shr(v, 1));
    assert v == Smear(x, 1);
    v := BitOr(v, Shr(v, 2));
    assert v == Smear(x, 2);
    v := BitOr(v, Shr(v, 4));
    assert v == Smear(x, 3);
    v := BitOr(v, Shr(v, 8));
    assert v == Smear(x, 4);
    v := BitOr(v, Shr(v, 16));
    assert v == Smear(x, 5);
    v := v + 1;
    p := v;
    Pow2Table();
    SmearBelow(n - 1, 5, 63);
    if n <= 0x1_0000_0000 {
      BitLengthAtMost(n - 1, 32);
      NextPowerOf2Exact(n, 5);
    }
  }

  /**
   * The same routine with the sixth round `v |= v >> 32` that a 64-bit
   * `usize` needs: the smallest power of two >= n for every n up to 2^63.
   */
  method NextPowerOf2Wide(n: nat) returns (p: nat)
    requires 1 <= n <= 0x8000_0000_0000_0000
    ensures p == Smear(n - 1, 6) + 1
    ensures p == CeilPow2(n)
  {
    var v := n;
    v := v - 1;
    ghost var x := v;
    v := BitOr(v, Shr(v, 1));
    assert v == Smear(x, 1);
    v := BitOr(v, Shr(v, 2));
    assert v == Smear(x, 2);
    v := BitOr(v, Shr(v, 4));
    assert v == Smear(x, 3);
    v := BitOr(v, Shr(v, 8));
    assert v == Smear(x, 4);
    v := BitOr(v, Shr(v, 16));
    assert v == Smear(x, 5);
    v := BitOr(v, Shr(v, 32));
    assert v == Smear(x, 6);
    v := v + 1;
    p := v;
    Pow2Table();
    BitLengthAtMost(n - 1, 63);
    NextPowerOf2Exact(n, 6);
  }

  /** Shifting a number shifted left by j = i + k back right by k. */
  lemma {:induction false} ShrShl(hi: nat, j: nat, k: nat, i: nat)
    requires i + k == j
    ensures Shr(Shl(hi, j), k) == Shl(hi, i)
  {
    if k > 0 {
      ShrShl(hi, j - 1, k - 1, i);
    }
  }

  /** A number below 2^k shifted left by i stays below 2^j, where j = k + i. */
  lemma {:induction false} ShlBelow(hi: nat, k: nat, i: nat, j: nat)
    requires hi < Pow2(k) && j == k + i
    ensures Shl(hi, i) < Pow2(j)
  {
    if i > 0 {
      ShlBelow(hi, k, i - 1, j - 1);
      assert Pow2(j) == 2 * Pow2(j - 1);
    }
  }

  /** A round on a block of ones with zeros below it: exact, no carries (j = i + k). */
  lemma SmearStepExact(hi: nat, j: nat, k: nat, i: nat)
    requires 1 <= k && i + k == j && hi < Pow2(k)
    ensures BitOr(Shl(hi, j), Shr(Shl(hi, j), k)) == Shl(hi, j) + Shl(hi, i)
  {
    ShrShl(hi, j, k, i);
    ShlBelow(hi, k, i, j);
    BitOrHighLow(hi, 0, Shl(hi, i), j);
  }

  /** One round on the top m-bit block of an L-bit number doubles the block. */
  lemma SmearBlockStep(u: nat, L: nat, m: nat)
    requires 1 <= m && 2 * m <= L && u == Pow2(L) - Pow2(L - m)
    ensures BitOr(u, Shr(u, m)) == Pow2(L) - Pow2(L - 2 * m)
  {
    var hi := Pow2(m) - 1;
    OnesBlock(m, L - m, L);
    SmearStepExact(hi, L - m, m, L - 2 * m);
    OnesBlock(m, L - 2 * m, L - m);
  }

  /** Smearing a single bit 2^(L-1) sets the top 2^rounds bits exactly. */
  lemma {:induction false} SmearSingleBit(L: nat, rounds: nat)
    requires 1 <= L && Pow2(rounds) <= L
    ensures Smear(Pow2(L - 1), rounds) == Pow2(L) - Pow2(L - Pow2(rounds))
  {
    if rounds == 0 {
      assert Pow2(L) == 2 * Pow2(L - 1);
    } else {
      var m := Pow2(rounds - 1);
      assert Pow2(rounds) == 2 * m;
      SmearSingleBit(L, rounds - 1);
      SmearBlockStep(Smear(Pow2(L - 1), rounds - 1), L, m);
    }
  }

  /**
   * With five rounds, n = 2^k + 1 for any k >= 32 yields 2^(k+1) - 2^(k-31) + 1:
   * the lowest k - 31 bits are never reached, and the result is odd, so it
   * is not a power of two. The smallest such input is n = 2^32 + 1, which
   * yields 2^33 - 1.
   */
  lemma FiveRoundsMissLowBits(k: nat)
    requires 32 <= k
    ensures Smear(Pow2(k), 5) + 1 == Pow2(k + 1) - Pow2(k - 31) + 1
    ensures !IsPowerOfTwo(Smear(Pow2(k), 5) + 1)
  {
    assert Pow2(5) == 32;
    SmearSingleBit(k + 1, 5);
    var q := HalfGap(k);
    OddIsNotPowerOfTwo(Smear(Pow2(k), 5) + 1);
  }

  /** 2^(k+1) - 2^(k-31) is twice a positive number. */
  lemma HalfGap(k: nat) returns (q: nat)
    requires 32 <= k
    ensures Pow2(k + 1) - Pow2(k - 31) == 2 * q && q >= 1
  {
    Pow2Monotone(k - 31, k);
    assert Pow2(k + 1) == 2 * Pow2(k);
    assert Pow2(k - 31) == 2 * Pow2(k - 32);
    q := Pow2(k) - Pow2(k - 32);
  }

  /** Powers of two other than 1 are even. */
  lemma OddIsNotPowerOfTwo(x: int)
    requires x > 1 && x % 2 == 1
    ensures !IsPowerOfTwo(x)
  {
  }
}
