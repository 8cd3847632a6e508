/**
 Shifts and bitwise operators on natural numbers, and numbers as little-endian groups of bits. A
 shift is a repeated doubling or halving, so nothing here multiplies two variables.
 */
module Bits {
  type Byte = n: nat | n < 256

  function Shl(a: nat, k: nat): nat
    decreases k, a
  {
    if k == 0 then a else 2 * Shl(a, k - 1)
  }

  /** The bits from `k` up (a right shift), and the bits below `k`. */
  function High(a: nat, k: nat): nat
    decreases k, a
  {
    if k == 0 then a else High(a / 2, k - 1)
  }

  function Low(a: nat, k: nat): nat
    decreases k, a
  {
    if k == 0 then 0 else a % 2 + 2 * Low(a / 2, k - 1)
  }

  function Pow2(k: nat): nat { Shl(1, k) }

  /** Left shift of a 32-bit unsigned integer. */
  function Shl32(a: nat, k: nat): nat { Shl(a, k) % 0x1_0000_0000 }

  function BitOr(a: nat, b: nat): nat {
    if a == 0 && b == 0 then 0
    else (if a % 2 == 1 || b % 2 == 1 then 1 else 0) + 2 * BitOr(a / 2, b / 2)
  }

  function BitAnd(a: nat, b: nat): nat {
    if a == 0 && b == 0 then 0
    else (if a % 2 == 1 && b % 2 == 1 then 1 else 0) + 2 * BitAnd(a / 2, b / 2)
  }

  // ----- shifts

  lemma {:induction false} ShlOfSum(a: nat, b: nat, k: nat)
    ensures Shl(a + b, k) == Shl(a, k) + Shl(b, k)
    decreases k
  {
    if k > 0 { ShlOfSum(a, b, k - 1); }
  }

  lemma {:induction false} ShlTwice(a: nat, j: nat, k: nat)
    ensures Shl(Shl(a, j), k) == Shl(a, j + k)
    decreases k
  {
    if k > 0 { ShlTwice(a, j, k - 1); }
  }

  lemma {:induction false} ShlIsMonotone(a: nat, b: nat, k: nat)
    requires a <= b
    ensures Shl(a, k) <= Shl(b, k)
    decreases k
  {
    if k > 0 { ShlIsMonotone(a, b, k - 1); }
  }

  lemma Pow2Grows(j: nat, k: nat)
    requires j <= k
    ensures 0 < Pow2(j) <= Pow2(k)
    decreases k
  {
    if j < k { Pow2Grows(j, k - 1); } else if k > 0 { Pow2Grows(0, k - 1); }
  }

  /** Below `Pow2(w)`, and shifted by `k`, there is still room for `k` more bits. */
  lemma ShiftedFits(a: nat, w: nat, k: nat)
    requires a < Pow2(w)
    ensures Shl(a, k) + Pow2(k) <= Pow2(w + k)
  {
    ShlOfSum(a, 1, k);
    ShlIsMonotone(a + 1, Pow2(w), k);
    ShlTwice(1, w, k);
  }

  lemma {:induction false} LowAndHigh(a: nat, k: nat)
    ensures a == Low(a, k) + Shl(High(a, k), k) && Low(a, k) < Pow2(k)
    decreases k
  {
    if k > 0 { LowAndHigh(a / 2, k - 1); }
  }

  lemma {:induction false} LowAndHighAre(low: nat, high: nat, k: nat)
    requires low < Pow2(k)
    ensures Low(low + Shl(high, k), k) == low && High(low + Shl(high, k), k) == high
    decreases k
  {
    if k > 0 {
      assert (low + Shl(high, k)) / 2 == low / 2 + Shl(high, k - 1);
      LowAndHighAre(low / 2, high, k - 1);
    }
  }

  lemma {:induction false} HighIsSmaller(a: nat, j: nat, k: nat)
    requires a < Pow2(j + k)
    ensures High(a, j) < Pow2(k)
    decreases j
  {
    if j > 0 { HighIsSmaller(a / 2, j - 1, k); }
  }

  /** The low `j + k` bits are the low `j` bits and the low `k` bits above them. */
  lemma {:induction false} LowSplits(a: nat, j: nat, k: nat)
    ensures Low(a, j + k) == Low(a, j) + Shl(Low(High(a, j), k), j)
    decreases j
  {
    if j > 0 { LowSplits(a / 2, j - 1, k); }
  }

  // ----- the bitwise operators as arithmetic

  lemma {:induction false} OrWithZero(b: nat)
    ensures BitOr(0, b) == b
  {
    if b > 0 { OrWithZero(b / 2); }
  }

  /** Bits from `k` up joined to bits below it: nothing overlaps, so `|` is `+`. */
  lemma {:induction false} OrIsAdd(a: nat, b: nat, k: nat)
    requires a < Pow2(k)
    ensures BitOr(a, Shl(b, k)) == a + Shl(b, k)
    decreases k
  {
    if k == 0 { OrWithZero(b); } else { OrIsAdd(a / 2, b, k - 1); }
  }

  lemma {:induction false} AndWithZero(a: nat)
    ensures BitAnd(a, 0) == 0
  {
    if a > 0 { AndWithZero(a / 2); }
  }

  /** Keeping the low `k` bits with a mask. */
  lemma {:induction false} MaskIsLow(a: nat, k: nat)
    ensures Pow2(k) > 0 && BitAnd(a, Pow2(k) - 1) == Low(a, k)
    decreases k
  {
    if k == 0 {
      AndWithZero(a);
    } else {
      MaskIsLow(a / 2, k - 1);
      assert (Pow2(k) - 1) / 2 == Pow2(k - 1) - 1 && (Pow2(k) - 1) % 2 == 1;
    }
  }

  // ----- groups of bits

  /** The bits in `n` groups of `w`. */
  function Width(w: nat, n: nat): nat {
    if n == 0 then 0 else Width(w, n - 1) + w
  }

  /** The number whose groups of `w` bits are `s`, least significant first. */
  function Val(s: seq<nat>, w: nat): nat {
    if s == [] then 0 else s[0] + Shl(Val(s[1..], w), w)
  }

  predicate AreGroups(s: seq<nat>, w: nat) {
    forall i :: 0 <= i < |s| ==> s[i] < Pow2(w)
  }

  /** The lowest `n` groups of `w` bits of `v`, least significant first. */
  function Digits(v: nat, w: nat, n: nat): (s: seq<nat>)
    ensures |s| == n && AreGroups(s, w)
    decreases n
  {
    LowAndHigh(v, w);
    if n == 0 then [] else [Low(v, w)] + Digits(High(v, w), w, n - 1)
  }

  lemma {:induction false} ValAppend(s: seq<nat>, d: nat, w: nat)
    ensures Val(s + [d], w) == Val(s, w) + Shl(d, Width(w, |s|))
  {
    if s == [] {
      assert s + [d] == [d];
      assert Val([d], w) == d + Shl(Val([], w), w);
      ShlTwice(0, 0, w);
      assert Shl(0, w) == 0 by { ShlOfSum(0, 0, w); }
    } else {
      assert (s + [d])[1..] == s[1..] + [d];
      ValAppend(s[1..], d, w);
      ShlOfSum(Val(s[1..], w), Shl(d, Width(w, |s| - 1)), w);
      ShlTwice(d, Width(w, |s| - 1), w);
    }
  }

  lemma {:induction false} ValIsBounded(s: seq<nat>, w: nat)
    requires AreGroups(s, w)
    ensures Val(s, w) < Pow2(Width(w, |s|))
  {
    if s != [] {
      ValIsBounded(s[1..], w);
      ShiftedFits(Val(s[1..], w), Width(w, |s| - 1), w);
    }
  }

  /** Reading off the groups of a number that was put together from groups gives them back. */
  lemma {:induction false} DigitsOfVal(s: seq<nat>, w: nat)
    requires AreGroups(s, w)
    ensures Digits(Val(s, w), w, |s|) == s
  {
    if s != [] {
      LowAndHighAre(s[0], Val(s[1..], w), w);
      DigitsOfVal(s[1..], w);
    }
  }

  /** Putting the lowest `n` groups back together keeps the bits they hold. */
  lemma {:induction false} ValOfDigits(v: nat, w: nat, n: nat)
    ensures Val(Digits(v, w, n), w) == Low(v, Width(w, n))
    decreases n
  {
    if n > 0 {
      ValOfDigits(High(v, w), w, n - 1);
      assert Digits(v, w, n)[1..] == Digits(High(v, w), w, n - 1);
      LowSplits(v, w, Width(w, n - 1));
    }
  }

  /** Leaving out the upper groups leaves out the upper bits. */
  lemma {:induction false} DigitsPrefix(v: nat, w: nat, n: nat, m: nat)
    requires m <= n
    ensures Digits(v, w, n)[..m] == Digits(v, w, m)
    decreases n
  {
    if m > 0 {
      DigitsPrefix(High(v, w), w, n - 1, m - 1);
      var rest := Digits(High(v, w), w, n - 1);
      assert ([Low(v, w)] + rest)[..m] == [Low(v, w)] + rest[..m - 1];
    }
  }

  lemma {:induction false} LowOfSmall(a: nat, k: nat)
    requires a < Pow2(k)
    ensures Low(a, k) == a && High(a, k) == 0
    decreases k
  {
    if k > 0 { LowOfSmall(a / 2, k - 1); }
  }

  lemma ByteAndWordWidths(n: nat)
    ensures Width(8, n) == 8 * n && Width(11, n) == 11 * n
  {
  }

  lemma PowersUsed()
    ensures Pow2(8) == 256 && Pow2(11) == 2048 && Pow2(18) == 0x4_0000
  {
    assert Pow2(4) == 16;
    assert Shl(16, 4) == 256;
    ShlTwice(1, 4, 4);
    assert Shl(256, 3) == 2048;
    ShlTwice(1, 8, 3);
    assert Shl(2048, 4) == 0x8000;
    ShlTwice(1, 11, 4);
    assert Shl(0x8000, 3) == 0x4_0000;
    ShlTwice(1, 15, 3);
  }

  /** One more place to the right is one more halving. */
  lemma {:induction false} HighStep(a: nat, k: nat)
    ensures High(a, k + 1) == High(a, k) / 2
    decreases k
  {
    if k > 0 { HighStep(a / 2, k - 1); }
  }

  /** A left shift multiplies by a power of two. */
  lemma {:induction false} ShlIsTimes(a: nat, k: nat)
    ensures Shl(a, k) == Pow2(k) * a
    decreases k
  {
    if k > 0 {
      ShlIsTimes(a, k - 1);
      assert Pow2(k) * a == 2 * (Pow2(k - 1) * a);
    }
  }
}
