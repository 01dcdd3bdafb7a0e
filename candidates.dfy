/**
 * Candidate engine: the digits still legal for an empty cell, as a bitmask
 * where bit d stands for digit d (bits 1..9 used, bit 0 clear), together
 * with the mask's population count and its list of digits.
 *
 * The source keeps masks in JavaScript numbers and only ever touches one bit
 * at a time: it sets a bit (m | (1 << d)), flips a bit (m ^ (1 << d)), tests
 * a bit (m & (1 << d), m & 1) and halves (m >>= 1). Masks are non-negative
 * and below 1024, far inside the 32-bit range of JavaScript's bit operators,
 * so each of those operations is modelled exactly on natural numbers.
 */
module Candidates {
  import opened Grid

  /** A digit mask: bit d stands for digit d. */
  type Mask = nat

  // ---------------------------------------------------------------------------
  // Single-bit operations
  // ---------------------------------------------------------------------------

  /** 1 << d. */
  function Pow2(d: nat): (r: nat)
    ensures r >= 1
  {
    if d == 0 then 1 else 2 * Pow2(d - 1)
  }

  /** m & (1 << d) != 0: bit d of m is set. Bit d of m is bit d - 1 of m >> 1. */
  predicate Has(m: Mask, d: nat)
  {
    if d == 0 then m % 2 == 1 else Has(m / 2, d - 1)
  }

  lemma {:induction false} HasAtLeast(m: Mask, d: nat)
    requires Has(m, d)
    ensures m >= Pow2(d)
  {
    if d > 0 {
      HasAtLeast(m / 2, d - 1);
    }
  }

  /** m | (1 << d). */
  function SetBit(m: Mask, d: nat): Mask
  {
    if Has(m, d) then m else m + Pow2(d)
  }

  /** m ^ (1 << d). */
  function ToggleBit(m: Mask, d: nat): Mask
  {
    if Has(m, d) then HasAtLeast(m, d); m - Pow2(d) else m + Pow2(d)
  }

  lemma {:induction false} ZeroHasNone(d: nat)
    ensures !Has(0, d)
  {
    if d > 0 {
      ZeroHasNone(d - 1);
    }
  }

  /** Adding 1 << a to a mask without bit a sets exactly bit a. */
  lemma {:induction false} AddBit(m: Mask, a: nat, d: nat)
    requires !Has(m, a)
    ensures Has(m + Pow2(a), d) <==> Has(m, d) || a == d
  {
    if a == 0 {
      if d > 0 {
        assert (m + 1) / 2 == m / 2;
      }
    } else if d > 0 {
      assert (m + Pow2(a)) / 2 == m / 2 + Pow2(a - 1);
      AddBit(m / 2, a - 1, d - 1);
    }
  }

  /** Subtracting 1 << a from a mask with bit a clears exactly bit a. */
  lemma {:induction false} SubBit(m: Mask, a: nat, d: nat)
    requires Has(m, a)
    ensures m >= Pow2(a)
    ensures Has(m - Pow2(a), d) <==> Has(m, d) && a != d
  {
    HasAtLeast(m, a);
    if a == 0 {
      if d > 0 {
        assert (m - 1) / 2 == m / 2;
      }
    } else {
      HasAtLeast(m / 2, a - 1);
      assert (m - Pow2(a)) / 2 == m / 2 - Pow2(a - 1);
      if d > 0 {
        SubBit(m / 2, a - 1, d - 1);
      }
    }
  }

  /** Setting bit a adds exactly a. */
  lemma SetBitHas(m: Mask, a: nat, d: nat)
    ensures Has(SetBit(m, a), d) <==> Has(m, d) || a == d
  {
    if !Has(m, a) {
      AddBit(m, a, d);
    }
  }

  /** Toggling bit a flips exactly a. */
  lemma ToggleBitHas(m: Mask, a: nat, d: nat)
    ensures Has(ToggleBit(m, a), d) <==> (Has(m, d) != (a == d))
  {
    if Has(m, a) {
      SubBit(m, a, d);
    } else {
      AddBit(m, a, d);
    }
  }

  /** A mask below 1 << n has no bit at n or above. */
  lemma {:induction false} HasBound(m: Mask, n: nat, d: nat)
    requires m < Pow2(n) && n <= d
    ensures !Has(m, d)
  {
    if n == 0 {
      ZeroHasNone(d);
    } else if d > 0 {
      HasBound(m / 2, n - 1, d - 1);
    }
  }

  /** Setting a bit below n keeps a mask below 1 << n. */
  lemma {:induction false} SetBitBound(m: Mask, a: nat, n: nat)
    requires m < Pow2(n) && a < n
    ensures SetBit(m, a) < Pow2(n)
  {
    if !Has(m, a) {
      if a == 0 {
        assert Pow2(n) == 2 * Pow2(n - 1);
        assert m % 2 == 0;
      } else {
        assert !Has(m / 2, a - 1);
        SetBitBound(m / 2, a - 1, n - 1);
        assert m / 2 + Pow2(a - 1) < Pow2(n - 1);
        assert m <= 2 * (m / 2) + 1;
      }
    }
  }

  lemma Pow2Ten()
    ensures Pow2(10) == 1024
  {
    assert Pow2(2) == 4;
    assert Pow2(4) == 16;
    assert Pow2(6) == 64;
    assert Pow2(8) == 256;
  }

  /** Only bits 1..9 of m may be set: m & ~0x3FE == 0. */
  predicate DigitBitsOnly(m: Mask)
  {
    m < 1024 && m % 2 == 0
  }

  lemma BitsOfDigitBitsOnly(m: Mask, d: nat)
    requires DigitBitsOnly(m) && Has(m, d)
    ensures 1 <= d <= 9
  {
    if d >= 10 {
      Pow2Ten();
      HasBound(m, 10, d);
    }
  }

  // ---------------------------------------------------------------------------
  // Candidate mask of a cell
  // ---------------------------------------------------------------------------

  /** No peer of cell i holds digit d. */
  ghost predicate Allowed(g: seq<int>, i: int, d: int)
    requires |g| == 81
  {
    forall p :: 0 <= p < 81 && IsPeer(i, p) ==> g[p] != d
  }

  predicate InBoard(ps: seq<int>)
  {
    forall k :: 0 <= k < |ps| ==> 0 <= ps[k] < 81
  }

  /** Every peer of a cell is a cell of the board. */
  lemma PeersInBoard(i: int)
    ensures InBoard(PeerSeq(i))
  {
    PeerSeqSpec(i);
  }

  /** The digits held by the cells ps, OR-ed into a mask in list order. */
  function UsedMask(g: seq<int>, ps: seq<int>): Mask
    requires ValidGrid(g) && InBoard(ps)
  {
    if ps == [] then 0
    else
      var used := UsedMask(g, ps[..|ps| - 1]);
      var p := ps[|ps| - 1];
      if g[p] != 0 then SetBit(used, g[p]) else used
  }

  /** The digits 1..n-1 absent from used, OR-ed into a mask in increasing order. */
  function FreeMask(used: Mask, n: int): Mask
    requires 1 <= n <= 10
  {
    if n == 1 then 0
    else
      var c := FreeMask(used, n - 1);
      if !Has(used, n - 1) then SetBit(c, n - 1) else c
  }

  /**
   * One past the largest digit: the digit loops run d = 1 .. DigitEnd() - 1.
   * Written as a function rather than the literal 10 so that the verifier
   * does not unroll FreeMask and DigitsBelow all the way down at every use.
   */
  function DigitEnd(): nat
  {
    10
  }

  /** The candidate mask of cell i: 0 for a filled cell, else the digits no peer holds. */
  function CandidateMask(g: seq<int>, i: int): Mask
    requires ValidGrid(g) && 0 <= i < 81
  {
    if g[i] != 0 then 0
    else
      PeersInBoard(i);
      FreeMask(UsedMask(g, PeerSeq(i)), DigitEnd())
  }

  /** One more peer folded into the used mask. */
  lemma UsedMaskStep(g: seq<int>, ps: seq<int>, k: int)
    requires ValidGrid(g) && InBoard(ps) && 0 <= k < |ps|
    ensures InBoard(ps[..k]) && InBoard(ps[..k + 1])
    ensures UsedMask(g, ps[..k + 1])
      == if g[ps[k]] != 0 then SetBit(UsedMask(g, ps[..k]), g[ps[k]]) else UsedMask(g, ps[..k])
  {
    assert ps[..k + 1][..k] == ps[..k];
  }

  lemma {:induction false} UsedMaskBits(g: seq<int>, ps: seq<int>, d: nat)
    requires ValidGrid(g) && InBoard(ps)
    ensures Has(UsedMask(g, ps), d) <==> d != 0 && exists k :: 0 <= k < |ps| && g[ps[k]] == d
  {
    if ps == [] {
      ZeroHasNone(d);
    } else {
      var n := |ps| - 1;
      var q := ps[..n];
      UsedMaskBits(g, q, d);
      if g[ps[n]] != 0 {
        SetBitHas(UsedMask(g, q), g[ps[n]], d);
      }
      if exists k :: 0 <= k < |ps| && g[ps[k]] == d {
        var k :| 0 <= k < |ps| && g[ps[k]] == d;
        if k < n {
          assert q[k] == ps[k];
        }
      }
      if exists k :: 0 <= k < n && g[q[k]] == d {
        var k :| 0 <= k < n && g[q[k]] == d;
        assert ps[k] == q[k];
      }
    }
  }

  lemma {:induction false} FreeMaskBits(used: Mask, n: int, d: nat)
    requires 1 <= n <= 10
    ensures Has(FreeMask(used, n), d) <==> 1 <= d < n && !Has(used, d)
    ensures FreeMask(used, n) < Pow2(n)
  {
    if n == 1 {
      ZeroHasNone(d);
    } else {
      FreeMaskBits(used, n - 1, d);
      var c := FreeMask(used, n - 1);
      if !Has(used, n - 1) {
        SetBitHas(c, n - 1, d);
        SetBitBound(c, n - 1, n);
      }
    }
  }

  /**
   * Bit d of a cell's candidate mask is set exactly when the cell is empty,
   * d is a digit 1..9, and no peer of the cell holds d. In particular a
   * filled cell has mask 0 and only bits 1..9 can ever be set.
   */
  lemma CandidateMaskSpec(g: seq<int>, i: int)
    requires ValidGrid(g) && 0 <= i < 81
    ensures forall d: nat ::
      (Has(CandidateMask(g, i), d) <==> g[i] == 0 && 1 <= d <= 9 && Allowed(g, i, d))
    ensures DigitBitsOnly(CandidateMask(g, i))
    ensures g[i] != 0 ==> CandidateMask(g, i) == 0
  {
    var m := CandidateMask(g, i);
    PeerSeqSpec(i);
    var ps := PeerSeq(i);
    forall d: nat
      ensures Has(m, d) <==> g[i] == 0 && 1 <= d <= 9 && Allowed(g, i, d)
    {
      if g[i] == 0 {
        var used := UsedMask(g, ps);
        FreeMaskBits(used, DigitEnd(), d);
        UsedMaskBits(g, ps, d);
        if 1 <= d <= 9 && !Allowed(g, i, d) {
          var p :| 0 <= p < 81 && IsPeer(i, p) && g[p] == d;
          assert p in ps;
          var k :| 0 <= k < |ps| && ps[k] == p;
        }
      } else {
        ZeroHasNone(d);
      }
    }
    if g[i] == 0 {
      FreeMaskBits(UsedMask(g, ps), DigitEnd(), 0);
      Pow2Ten();
    }
  }

  /** The first loop of getCandidates: OR the digits held by the cells ps into a mask. */
  method UsedDigits(g: seq<int>, ps: seq<int>) returns (used: Mask)
    requires ValidGrid(g) && InBoard(ps)
    ensures used == UsedMask(g, ps)
  {
    used := 0;
    var k := 0;
    while k < |ps|
      invariant 0 <= k <= |ps|
      invariant used == UsedMask(g, ps[..k])
    {
      UsedMaskStep(g, ps, k);
      var p := ps[k];
      if g[p] != 0 {
        used := SetBit(used, g[p]);
      }
      k := k + 1;
    }
    assert ps[..k] == ps;
  }

  /** The second loop of getCandidates: the digits 1..9 missing from used, as a mask. */
  method FreeDigits(used: Mask) returns (candidates: Mask)
    ensures candidates == FreeMask(used, DigitEnd())
  {
    candidates := 0;
    var d := 1;
    while d <= 9
      invariant 1 <= d <= 10
      invariant candidates == FreeMask(used, d)
    {
      if !Has(used, d) {
        candidates := SetBit(candidates, d);
      }
      d := d + 1;
    }
  }

  /**
   * Computes the candidate mask of cell i as the source does: OR the digits of
   * the peers into used, then collect the digits 1..9 missing from used.
   */
  method GetCandidates(g: seq<int>, i: int) returns (candidates: Mask)
    requires ValidGrid(g) && 0 <= i < 81
    ensures candidates == CandidateMask(g, i)
  {
    if g[i] != 0 {
      return 0;
    }
    var ps := Peers(i);
    PeersInBoard(i);
    var used := UsedDigits(g, ps);
    candidates := FreeDigits(used);
  }

  // ---------------------------------------------------------------------------
  // Population count
  // ---------------------------------------------------------------------------

  /** Number of set bits, computed as the source's shift loop does. */
  function PopCount(m: Mask): nat
  {
    if m == 0 then 0 else m % 2 + PopCount(m / 2)
  }

  method BitCount(mask: Mask) returns (count: nat)
    ensures count == PopCount(mask)
  {
    count := 0;
    var m := mask;
    while m != 0
      invariant count + PopCount(m) == PopCount(mask)
    {
      count := count + m % 2;
      m := m / 2;
    }
  }

  /** The count is zero exactly for the empty mask. */
  lemma {:induction false} PopCountZero(m: Mask)
    ensures PopCount(m) == 0 <==> m == 0
  {
    if m != 0 && m % 2 == 0 {
      PopCountZero(m / 2);
    }
  }

  /** 1 for true, 0 for false. */
  function Indicator(b: bool): nat
  {
    if b then 1 else 0
  }

  /** Number of set bits among positions lo..hi-1. */
  function CountBits(m: Mask, lo: nat, hi: nat): nat
    decreases hi - lo
  {
    if lo >= hi then 0 else Indicator(Has(m, lo)) + CountBits(m, lo + 1, hi)
  }

  lemma {:induction false} CountBitsBound(m: Mask, lo: nat, hi: nat)
    requires lo <= hi
    ensures CountBits(m, lo, hi) <= hi - lo
    decreases hi - lo
  {
    if lo < hi {
      CountBitsBound(m, lo + 1, hi);
    }
  }

  lemma {:induction false} CountBitsShift(m: Mask, lo: nat, hi: nat)
    requires lo <= hi
    ensures CountBits(m / 2, lo, hi) == CountBits(m, lo + 1, hi + 1)
    decreases hi - lo
  {
    if lo < hi {
      CountBitsShift(m, lo + 1, hi);
    }
  }

  /** For a mask below 1 << n, the shift loop counts exactly the set bits among positions 0..n-1. */
  lemma {:induction false} PopCountIsBitCount(m: Mask, n: nat)
    requires m < Pow2(n)
    ensures PopCount(m) == CountBits(m, 0, n)
  {
    if n == 0 {
      assert m == 0;
    } else {
      PopCountIsBitCount(m / 2, n - 1);
      CountBitsShift(m, 0, n - 1);
    }
  }

  // ---------------------------------------------------------------------------
  // Mask to digits
  // ---------------------------------------------------------------------------

  /** The digits 1..n-1 whose bit is set in m, increasing, collected as the source's loop pushes them. */
  function DigitsBelow(m: Mask, n: nat): seq<int>
    requires 1 <= n <= 10
  {
    if n == 1 then [] else DigitsBelow(m, n - 1) + (if Has(m, n - 1) then [n - 1] else [])
  }

  /** The digits 1..9 whose bit is set in m, increasing. */
  function Digits(m: Mask): seq<int>
  {
    DigitsBelow(m, DigitEnd())
  }

  lemma {:induction false} CountBitsLast(m: Mask, lo: nat, hi: nat)
    requires lo <= hi
    ensures CountBits(m, lo, hi + 1) == CountBits(m, lo, hi) + Indicator(Has(m, hi))
    decreases hi - lo
  {
    if lo < hi {
      CountBitsLast(m, lo + 1, hi);
    }
  }

  lemma {:induction false} DigitsBelowSpec(m: Mask, n: nat)
    requires 1 <= n <= 10
    ensures forall k :: 0 <= k < |DigitsBelow(m, n)| ==> 1 <= DigitsBelow(m, n)[k] < n
    ensures StrictlyIncreasing(DigitsBelow(m, n))
    ensures forall x :: 1 <= x < n ==> (x in DigitsBelow(m, n) <==> Has(m, x))
    ensures |DigitsBelow(m, n)| == CountBits(m, 1, n)
  {
    if n > 1 {
      DigitsBelowSpec(m, n - 1);
      CountBitsLast(m, 1, n - 1);
      var prev := DigitsBelow(m, n - 1);
      assert n - 1 !in prev;
      if Has(m, n - 1) {
        assert DigitsBelow(m, n) == prev + [n - 1];
      } else {
        assert DigitsBelow(m, n) == prev;
      }
    }
  }

  /**
   * bitsToDigits returns the digits 1..9 whose bit is set, strictly
   * increasing; for a mask with only bits 1..9 set there are as many as
   * bitCount counts, at most 9.
   */
  lemma DigitsSpec(m: Mask)
    ensures forall k :: 0 <= k < |Digits(m)| ==> 1 <= Digits(m)[k] <= 9
    ensures StrictlyIncreasing(Digits(m))
    ensures forall x :: 1 <= x <= 9 ==> (x in Digits(m) <==> Has(m, x))
    ensures DigitBitsOnly(m) ==> |Digits(m)| == PopCount(m) <= 9
  {
    DigitsBelowSpec(m, DigitEnd());
    if DigitBitsOnly(m) {
      Pow2Ten();
      PopCountIsBitCount(m, 10);
      CountBitsBound(m, 1, 10);
    }
  }

  method BitsToDigits(mask: Mask) returns (digits: seq<int>)
    ensures digits == Digits(mask)
  {
    digits := [];
    var d := 1;
    while d <= 9
      invariant 1 <= d <= 10
      invariant digits == DigitsBelow(mask, d)
    {
      if Has(mask, d) {
        digits := digits + [d];
      }
      d := d + 1;
    }
  }

  // ---------------------------------------------------------------------------
  // Candidates and solutions
  // ---------------------------------------------------------------------------

  /** How many candidates cell i has; the quantity the search minimises. */
  function CandidateCount(g: seq<int>, i: int): nat
    requires ValidGrid(g) && 0 <= i < 81
  {
    PopCount(CandidateMask(g, i))
  }

  /** An empty cell has at most 9 candidates, listed by Digits; a filled cell has none. */
  lemma CandidateCountSpec(g: seq<int>, i: int)
    requires ValidGrid(g) && 0 <= i < 81
    ensures CandidateCount(g, i) <= 9
    ensures CandidateCount(g, i) == |Digits(CandidateMask(g, i))|
    ensures g[i] != 0 ==> CandidateCount(g, i) == 0
  {
    CandidateMaskSpec(g, i);
    DigitsSpec(CandidateMask(g, i));
  }

  /** Writing a candidate digit into an empty cell keeps the grid valid and collision-free. */
  lemma PlaceCandidate(g: seq<int>, i: int, d: nat)
    requires ValidGrid(g) && 0 <= i < 81 && g[i] == 0
    requires Has(CandidateMask(g, i), d)
    ensures 1 <= d <= 9
    ensures ValidGrid(g[i := d]) && Extends(g, g[i := d])
    ensures NoClash(g) ==> NoClash(g[i := d])
  {
    CandidateMaskSpec(g, i);
    var h := g[i := d];
    if NoClash(g) {
      forall a, b | 0 <= a < 81 && 0 <= b < 81 && IsPeer(a, b) && h[a] != 0
        ensures h[b] != h[a]
      {
        if a == i {
          assert IsPeer(i, b);
        } else if b == i {
          PeerSymmetric(a, b);
        }
      }
    }
  }

  /** In any solution of g, the digit of a cell empty in g is one of that cell's candidates. */
  lemma CompletionUsesCandidate(g: seq<int>, s: seq<int>, i: int)
    requires ValidGrid(g) && IsCompletion(g, s) && 0 <= i < 81 && g[i] == 0
    ensures 1 <= s[i] <= 9 && Has(CandidateMask(g, i), s[i])
  {
    CandidateMaskSpec(g, i);
    forall p | 0 <= p < 81 && IsPeer(i, p)
      ensures g[p] != s[i]
    {
      if g[p] != 0 {
        assert s[p] == g[p];
      }
    }
  }
}
