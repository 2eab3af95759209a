/**
 * Bit reversal as used by the independent pass (`bitReverse` of
 * noelkdf-ref.c) and by the Catena-3 predecessor of the prediction tool
 * (`reverse` of predict/main.c): the routines are
 * the same loop, so they share one model.
 */
module BitReversal {
  import opened Words

  /** floor(log2 m): how often m can be halved before it reaches 1. */
  function Log2(m: nat): (k: nat)
    requires m >= 1
    ensures Pow2(k) <= m < 2 * Pow2(k)
  {
    if m == 1 then 0 else 1 + Log2(m / 2)
  }

  /** A power of two determines its exponent, and so does any m between 2^k and 2^(k+1). */
  lemma {:induction false} Log2Unique(m: nat, k: nat)
    requires Pow2(k) <= m < 2 * Pow2(k)
    ensures Log2(m) == k
  {
    if k > 0 {
      assert m >= 2;
      Log2Unique(m / 2, k - 1);
    }
  }

  /** A number below 2^n has a logarithm below n. */
  lemma {:induction false} Log2Below(m: nat, n: nat)
    requires 1 <= m < Pow2(n)
    ensures Log2(m) < n
  {
    if m > 1 {
      assert Pow2(n) == 2 * Pow2(n - 1);
      Log2Below(m / 2, n - 1);
    }
  }

  /** Bit j of v (bit 0 is the lowest). */
  function Bit(v: nat, j: nat): (b: nat)
    ensures b < 2
  {
    if j == 0 then v % 2 else Bit(v / 2, j - 1)
  }

  /**
   * Shifting the low k bits of v, lowest first, into the bottom of acc: what
   * k rounds of `result = (result << 1) | (value & 1); value >>= 1` leave.
   */
  function ShiftIn(v: nat, k: nat, acc: nat): nat
  {
    if k == 0 then acc else ShiftIn(v / 2, k - 1, 2 * acc + v % 2)
  }

  /** Shifting k bits into a number below 2^m gives a number below 2^(m+k). */
  lemma {:induction false} ShiftInBound(v: nat, k: nat, acc: nat, m: nat)
    requires acc < Pow2(m)
    ensures ShiftIn(v, k, acc) < Pow2(m + k)
  {
    if k > 0 {
      ShiftInBound(v / 2, k - 1, 2 * acc + v % 2, m + 1);
    }
  }

  /** Bits of ShiftIn: the low k are those of v in reverse order, above them sit the bits of acc. */
  lemma {:induction false} ShiftInBit(v: nat, k: nat, acc: nat, j: nat)
    ensures j < k ==> Bit(ShiftIn(v, k, acc), j) == Bit(v, k - 1 - j)
    ensures j >= k ==> Bit(ShiftIn(v, k, acc), j) == Bit(acc, j - k)
  {
    if k > 0 {
      var acc' := 2 * acc + v % 2;
      ShiftInBit(v / 2, k - 1, acc', j);
      if j < k - 1 {
        assert Bit(v, k - 1 - j) == Bit(v / 2, k - 2 - j);
      } else if j == k - 1 {
        assert Bit(acc', 0) == v % 2;
      } else {
        assert Bit(acc', j - k + 1) == Bit(acc' / 2, j - k);
        assert acc' / 2 == acc;
      }
    }
  }

  /** The low k bits of v in reverse order, as a k-bit number. */
  function Reversed(v: nat, k: nat): (r: nat)
    ensures r < Pow2(k)
  {
    ShiftInBound(v, k, 0, 0);
    ShiftIn(v, k, 0)
  }

  /** Reversed(v, k) holds the low k bits of v in reverse order, and nothing above them. */
  lemma ReversedBit(v: nat, k: nat, j: nat)
    ensures j < k ==> Bit(Reversed(v, k), j) == Bit(v, k - 1 - j)
    ensures j >= k ==> Bit(Reversed(v, k), j) == 0
  {
    ShiftInBit(v, k, 0, j);
    if j >= k {
      ZeroBits(j - k);
    }
  }

  /** Every bit of 0 is 0. */
  lemma {:induction false} ZeroBits(j: nat)
    ensures Bit(0, j) == 0
  {
    if j > 0 {
      ZeroBits(j - 1);
    }
  }

  /** A number below 2^k is determined by its low k bits. */
  lemma {:induction false} BitsDetermine(a: nat, b: nat, k: nat)
    requires a < Pow2(k) && b < Pow2(k)
    requires forall j :: 0 <= j < k ==> Bit(a, j) == Bit(b, j)
    ensures a == b
  {
    if k > 0 {
      assert Bit(a, 0) == Bit(b, 0);
      forall j | 0 <= j < k - 1
        ensures Bit(a / 2, j) == Bit(b / 2, j)
      {
        assert Bit(a, j + 1) == Bit(b, j + 1);
      }
      BitsDetermine(a / 2, b / 2, k - 1);
    }
  }

  /** Reversing the low k bits twice gives a k-bit number back: reversal is its own inverse. */
  lemma ReversedTwice(v: nat, k: nat)
    requires v < Pow2(k)
    ensures Reversed(Reversed(v, k), k) == v
  {
    var w := Reversed(v, k);
    forall j | 0 <= j < k
      ensures Bit(Reversed(w, k), j) == Bit(v, j)
    {
      ReversedBit(w, k, j);
      ReversedBit(v, k, k - 1 - j);
    }
    BitsDetermine(Reversed(w, k), v, k);
  }

  /**
   * bitReverse(value, mask): shifts the low bit of value into the result once
   * per halving of mask, so for mask = 2^k it reverses the low k bits of value.
   */
  method BitReverse(value: nat, mask: nat) returns (result: nat)
    requires value < TWO32 && 1 <= mask < TWO32
    ensures result == Reversed(value, Log2(mask))
    ensures result < Pow2(Log2(mask)) <= mask
    ensures mask == 1 ==> result == 0
  {
    result := 0;
    var v: nat, m: nat := value, mask;
    ghost var k := Log2(mask);
    while m != 1
      invariant 1 <= m <= mask && k == Log2(m)
      invariant ShiftIn(value, Log2(mask), 0) == ShiftIn(v, k, result)
      decreases m
    {
      // (result << 1) | (value & 1): the shift cannot wrap, result stays below mask
      result := 2 * result + v % 2;
      v := v / 2;
      m := m / 2;
      k := k - 1;
    }
  }
}
