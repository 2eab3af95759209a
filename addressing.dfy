/**
 * Block addressing shared by the NoelKDF and TigerKDF engines (noelkdf-ref.c,
 * noelkdf-pthread.c, tigerkdf-sse.c): which earlier
 * block the password-independent pass mixes in (bit-reversal addressing), the
 * cubic distance of the password-dependent pass, and the block that distance
 * selects.
 */
module Addressing {
  import opened Words
  import opened BitReversal

  /**
   * The block the independent pass mixes into block i: the low bits of i
   * below its leading one, reversed, moved up by that leading power of two
   * when the result still lies below i.
   */
  function IndependentSource(i: nat): (r: nat)
    requires i >= 1
    ensures r < i
  {
    var mask := Pow2(Log2(i));
    var rev := Reversed(i, Log2(i));
    if rev + mask < i then rev + mask else rev
  }

  /** Both halves of [0, i) are reached: the lower through rev, the upper through rev + mask. */
  lemma IndependentSourceHalves(i: nat)
    requires i >= 1
    ensures IndependentSource(i) >= Pow2(Log2(i)) <==> Reversed(i, Log2(i)) + Pow2(Log2(i)) < i
  {
  }

  /** Doubling the mask when its double still fits keeps it the leading power of two of i. */
  lemma NextMask(i: nat, mask: nat)
    requires i >= 1 && mask == if i == 1 then 1 else Pow2(Log2(i - 1))
    ensures var m := if 2 * mask <= i then 2 * mask else mask;
      m == Pow2(Log2(i)) && Log2(m) == Log2(i)
  {
    if i == 1 {
      Log2Unique(1, 0);
    } else if 2 * mask <= i {
      Log2Unique(i, Log2(i - 1) + 1);
    } else {
      Log2Unique(i, Log2(i - 1));
    }
    Log2Unique(Pow2(Log2(i)), Log2(i));
  }

  /**
   * The mask the independent pass holds once block i is done: 1 at first,
   * doubled whenever its double is at most i.
   */
  function MaskAfter(i: nat): nat
  {
    if i <= 1 then 1
    else
      var m := MaskAfter(i - 1);
      if 2 * m <= i then 2 * m else m
  }

  /** That mask is always the leading power of two of i. */
  lemma {:induction false} MaskAfterTopBit(i: nat)
    requires i >= 1
    ensures MaskAfter(i) == Pow2(Log2(i)) && Log2(MaskAfter(i)) == Log2(i)
  {
    if i == 1 {
      NextMask(1, 1);
    } else {
      MaskAfterTopBit(i - 1);
      NextMask(i, MaskAfter(i - 1));
    }
  }

  /**
   * The body of the independent pass's loop for block i: `mask` doubles when
   * its double still fits below i, then the source is the bit reversal of i,
   * moved up by mask when that stays below i.
   */
  method NextIndependentSource(i: nat, mask: nat) returns (newMask: nat, reversePos: nat)
    requires 1 <= i < 0x8000_0000
    requires mask == MaskAfter(i - 1)
    ensures newMask == MaskAfter(i) && 1 <= newMask <= i
    ensures reversePos == IndependentSource(i) < i
  {
    if i > 1 {
      MaskAfterTopBit(i - 1);
    }
    NextMask(i, mask);
    newMask := mask;
    if 2 * mask <= i {
      newMask := 2 * mask;
    }
    reversePos := BitReverse(i, newMask);
    if reversePos + newMask < i {
      reversePos := reversePos + newMask;
    }
  }

  /** x * y >> 32 for a 32-bit y: x scaled by the fraction y / 2^32. */
  function Scale(x: nat, y: nat): (r: nat)
    requires y < TWO32
    ensures r <= x && (x > 0 ==> r < x)
  {
    ScaleDown(x, y, TWO32);
    x * y / TWO32
  }

  /**
   * The distance of the dependent pass: the 32-bit value cubed as a fraction
   * of 2^32 (v2 = v*v >> 32, v3 = v*v2 >> 32), scaled onto i + numblocks - 1.
   */
  function Distance(value: nat, i: nat, numblocks: nat): (d: nat)
    requires value < TWO32 && i < numblocks <= 0x8000_0000
    ensures d < TWO32
    ensures i + numblocks >= 2 ==> d <= i + numblocks - 2
    ensures i + numblocks < 2 ==> d == 0
  {
    var v2 := Scale(value, value);
    var v3 := Scale(value, v2);
    Scale(i + numblocks - 1, v3)
  }

  /**
   * The block the dependent pass of thread p mixes into its block i: an
   * earlier block of its own dependent segment when distance < i, otherwise a
   * block of the independent segment of thread (p + i) % parallelism.
   * Thread q's independent segment is blocks [2q*nb, 2q*nb + nb), its
   * dependent segment the next nb blocks.
   */
  function DependentSource(p: nat, parallelism: nat, numblocks: nat, i: nat, distance: nat): (b: nat)
    requires p < parallelism && i < numblocks
    requires if i + numblocks >= 2 then distance <= i + numblocks - 2 else distance == 0
    ensures distance < i ==> (2 * p + 1) * numblocks <= b < (2 * p + 1) * numblocks + i
    ensures distance >= i ==>
      var q := (p + i) % parallelism;
      2 * q * numblocks <= b < 2 * q * numblocks + numblocks &&
      (numblocks >= 2 ==> b >= 2 * q * numblocks + 1)
  {
    if distance < i then
      (2 * p + 1) * numblocks + (i - 1 - distance)
    else
      var q := (p + i) % parallelism;
      2 * q * numblocks + (numblocks - 1 - (distance - i))
  }
}
