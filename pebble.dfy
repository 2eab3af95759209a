/**
 * The predecessor rule of the pebbling experiment (pebble/main.c): odd
 * positions point back along logarithmic chains, even positions into a
 * "safe dating" tree. Positions are 32-bit; the versions that keep the
 * source's 32-bit arithmetic are kept beside the ones the rest of the model
 * uses, which compute the same values wherever no intermediate wraps.
 */
module Pebble {
  import opened Words
  import BitReversal

  /** The number of one-bits below the lowest zero bit of v. */
  function TrailingOnes(v: nat): nat
  {
    if v % 2 == 1 then 1 + TrailingOnes(v / 2) else 0
  }

  /** A number with n trailing one-bits is at least 2^n - 1. */
  lemma {:induction false} TrailingOnesBound(v: nat)
    ensures Pow2(TrailingOnes(v)) <= v + 1
  {
    if v % 2 == 1 {
      TrailingOnesBound(v / 2);
      assert Pow2(TrailingOnes(v)) == 2 * Pow2(TrailingOnes(v / 2));
    }
  }

  /**
   * The distance the chain loop computes: it halves pos once and then once
   * more per trailing one-bit of the halved value, doubling dist from 2 each
   * time. For odd pos with n trailing one-bits this is 2^(n + 1).
   */
  function ChainDistance(pos: nat): (dist: nat)
    ensures pos % 2 == 1 ==> dist == Pow2(TrailingOnes(pos) + 1)
  {
    4 * Pow2(TrailingOnes(pos / 2))
  }

  /** findPrevLogarithmicChainPos, in unbounded arithmetic: pos - dist, or 0 when dist does not fit below pos. */
  function LogChainPrev(pos: nat): nat
  {
    if ChainDistance(pos) < pos then pos - ChainDistance(pos) else 0
  }

  /** For odd pos the chain predecessor is 0 or an earlier odd position. */
  lemma LogChainPrevBelow(pos: nat)
    requires pos % 2 == 1
    ensures LogChainPrev(pos) < pos
    ensures LogChainPrev(pos) != 0 ==> LogChainPrev(pos) % 2 == 1
  {
    assert ChainDistance(pos) == 2 * Pow2(TrailingOnes(pos));
  }

  /**
   * findPrevLogarithmicChainPos with dist wide enough never to wrap. The
   * do-while loop runs once, then again while t is odd.
   */
  method FindPrevLogarithmicChainPos(pos: word) returns (prev: word)
    ensures prev == LogChainPrev(pos)
    ensures pos % 2 == 1 ==> prev < pos && (prev != 0 ==> prev % 2 == 1)
  {
    var dist: nat := 4;
    var t: nat := pos / 2;
    ghost var e: nat := 0;
    while t % 2 == 1
      invariant dist == 4 * Pow2(e) && e + TrailingOnes(t) == TrailingOnes(pos / 2)
      decreases t
    {
      t := t / 2;
      dist := 2 * dist;
      e := e + 1;
    }
    if pos % 2 == 1 {
      LogChainPrevBelow(pos);
    }
    if dist < pos {
      return pos - dist;
    }
    return 0;
  }

  /** Doubling commutes with reduction modulo 2^32. */
  lemma DoubleMod(x: nat)
    ensures (2 * (x % TWO32)) % TWO32 == (2 * x) % TWO32
  {
    DivAddMultiple(2 * (x % TWO32), 2 * (x / TWO32), TWO32);
  }

  /** findPrevLogarithmicChainPos as written: dist is a uint32, so it wraps to 0 once it reaches 2^32. */
  method FindPrevLogarithmicChainPosAsWritten(pos: word) returns (prev: word)
    ensures var dist := ChainDistance(pos) % TWO32;
      prev == if dist < pos then pos - dist else 0
  {
    var dist: word := 4;
    var t: nat := pos / 2;
    ghost var e: nat := 0;
    while t % 2 == 1
      invariant dist == (4 * Pow2(e)) % TWO32 && e + TrailingOnes(t) == TrailingOnes(pos / 2)
      decreases t
    {
      DoubleMod(4 * Pow2(e));
      t := t / 2;
      dist := (2 * dist) % TWO32;
      e := e + 1;
    }
    if dist < pos {
      return pos - dist;
    }
    return 0;
  }

  /**
   * With 31 trailing one-bits the 32-bit dist wraps to 0 and the position
   * is returned as its own predecessor; the unbounded version returns 0.
   */
  lemma ChainDistanceWraps()
    ensures var pos := 0x7FFF_FFFF;
      ChainDistance(pos) % TWO32 == 0 && ChainDistance(pos) >= pos && LogChainPrev(pos) == 0
  {
    Pow2Of32();
    assert Pow2(32) == 4 * Pow2(30);
    TrailingOnesOfMask(30);
    assert 0x7FFF_FFFF / 2 == Pow2(30) - 1;
  }

  /** 2^n - 1 has n trailing one-bits. */
  lemma {:induction false} TrailingOnesOfMask(n: nat)
    ensures TrailingOnes(Pow2(n) - 1) == n
  {
    if n > 0 {
      assert Pow2(n) - 1 == 2 * (Pow2(n - 1) - 1) + 1;
      TrailingOnesOfMask(n - 1);
    }
  }

  /** Below 2^31 - 2 the chain distance fits in 32 bits, so the two versions agree. */
  lemma ChainDistanceFits(pos: nat)
    requires pos < 0x7FFF_FFFE
    ensures ChainDistance(pos) < TWO32
  {
    TrailingOnesBound(pos / 2);
  }

  /**
   * The safe-dating tree, with x = pos / 2 + 1 and r = 2^floor(log2 x): a
   * node in the left half of its row goes back r / 2, one in the right half
   * goes back r; the result is turned back into an even position. Unbounded
   * arithmetic.
   */
  function SafeDatingPrev(pos: nat): int
  {
    var x := pos / 2 + 1;
    var r := Pow2(BitReversal.Log2(x));
    (PrevInRow(x, r, 3 * r / 2) - 1) * 2
  }

  /** The tree position x goes back to, in the row starting at r whose right half starts at boundary. */
  function PrevInRow(x: nat, r: nat, boundary: nat): int
  {
    if x < boundary then x - r / 2 else x - r
  }

  /** For even pos >= 2, x = pos / 2 + 1 lies in row k >= 1, between r = 2^k = 2h and 2r. */
  lemma SafeDatingRow(pos: nat) returns (h: nat)
    requires pos % 2 == 0 && pos >= 2
    ensures var x := pos / 2 + 1;
      h >= 1 && Pow2(BitReversal.Log2(x)) == 2 * h && 2 * h <= x < 4 * h
  {
    var x := pos / 2 + 1;
    var k := BitReversal.Log2(x);
    assert k == 1 + BitReversal.Log2(x / 2);
    h := Pow2(k - 1);
  }

  /** For even pos >= 2 the safe-dating predecessor is an even position at most pos - 2. */
  lemma SafeDatingPrevBelow(pos: nat)
    requires pos % 2 == 0 && pos >= 2
    ensures 0 <= SafeDatingPrev(pos) <= pos - 2 && SafeDatingPrev(pos) % 2 == 0
  {
    var h := SafeDatingRow(pos);
    assert 3 * (2 * h) / 2 == 3 * h && 2 * h / 2 == h;
  }

  /** The row loop of findPrevSafeDatingPos: row = floor(log2 x), so r = 2^row satisfies r <= x < 2r. */
  method RowOf(x: word) returns (row: nat)
    requires x >= 1
    ensures row == BitReversal.Log2(x)
    ensures Pow2(row) <= x < 2 * Pow2(row)
  {
    row := 0;
    var t: nat := x;
    while t != 1
      invariant 1 <= t && row + BitReversal.Log2(t) == BitReversal.Log2(x)
      decreases t
    {
      t := t / 2;
      row := row + 1;
    }
  }

  /** findPrevSafeDatingPos with 3 * r / 2 and the final subtraction computed without wrapping. */
  method FindPrevSafeDatingPos(pos: word) returns (prev: int)
    ensures prev == SafeDatingPrev(pos)
    ensures pos % 2 == 0 && pos >= 2 ==> 0 <= prev <= pos - 2 && prev % 2 == 0
  {
    var x: nat := pos / 2 + 1;
    var row := RowOf(x);
    var r := Pow2(row);
    var prevPos: int;
    if x < 3 * r / 2 {
      prevPos := x - r / 2;
    } else {
      prevPos := x - r;
    }
    if pos % 2 == 0 && pos >= 2 {
      SafeDatingPrevBelow(pos);
    }
    return (prevPos - 1) * 2;
  }

  /** findPrevSafeDatingPos as written: 3 * r and (prevPos - 1) * 2 are uint32 and wrap. */
  function SafeDatingPrevAsWritten(pos: word): word
  {
    var x := pos / 2 + 1;
    var r := Pow2(BitReversal.Log2(x));
    ((PrevInRow(x, r, (3 * r % TWO32) / 2) - 1) * 2) % TWO32
  }

  /**
   * At pos = 2^32 - 2, x = 2^31 and 3 * r wraps: the node is taken to be in
   * the right half of its row, prevPos becomes 0, and the result wraps to
   * 2^32 - 2, the position itself. The unbounded rule gives 2^31 - 2.
   */
  lemma SafeDatingWraps()
    ensures SafeDatingPrevAsWritten(0xFFFF_FFFE) == 0xFFFF_FFFE
    ensures SafeDatingPrev(0xFFFF_FFFE) == 0x7FFF_FFFE
  {
    Pow2Of32();
    assert Pow2(31) == 0x8000_0000;
    BitReversal.Log2Unique(0x8000_0000, 31);
  }

  /**
   * Below 2^32 - 2 (x below 2^31) 3 * r fits in 32 bits, and for even pos >= 2
   * prevPos >= 1: the two versions agree.
   */
  lemma SafeDatingAgrees(pos: word)
    requires pos % 2 == 0 && 2 <= pos < 0xFFFF_FFFE
    ensures SafeDatingPrevAsWritten(pos) == SafeDatingPrev(pos)
  {
    var x := pos / 2 + 1;
    var h := SafeDatingRow(pos);
    RowBelow(x);
    RowStepFits(x, h);
  }

  /** In a row starting at r = 2h <= 2^30, 3 * r does not wrap and the tree predecessor of x is at least 1. */
  lemma RowStepFits(x: nat, h: nat)
    requires 1 <= h && 2 * h <= 0x4000_0000 && 2 * h <= x < 4 * h
    ensures var r := 2 * h;
      ((PrevInRow(x, r, (3 * r % TWO32) / 2) - 1) * 2) % TWO32 == (PrevInRow(x, r, 3 * r / 2) - 1) * 2
  {
    var r := 2 * h;
    assert 3 * r % TWO32 == 3 * r;
    var p := PrevInRow(x, r, 3 * r / 2);
    assert 1 <= p < x;
    assert 0 <= (p - 1) * 2 < TWO32;
  }

  /** Below 2^31 the row start r = 2^floor(log2 x) is at most 2^30, so 3 * r fits in 32 bits. */
  lemma RowBelow(x: nat)
    requires 1 <= x < 0x8000_0000
    ensures Pow2(BitReversal.Log2(x)) <= 0x4000_0000
  {
    Pow2Of32();
    assert Pow2(32) == 4 * Pow2(30) && Pow2(31) == 2 * Pow2(30);
    BitReversal.Log2Below(x, 31);
    Pow2Monotone(BitReversal.Log2(x), 30);
  }

  /** findPrevPos: odd positions follow the logarithmic chains, even ones the safe-dating tree. */
  method FindPrevPos(pos: word) returns (prev: int)
    ensures pos % 2 == 1 ==> prev == LogChainPrev(pos) && prev < pos
    ensures pos % 2 == 0 ==> prev == SafeDatingPrev(pos)
    ensures pos % 2 == 0 && pos >= 2 ==> 0 <= prev <= pos - 2
  {
    if pos % 2 == 1 {
      prev := FindPrevLogarithmicChainPos(pos);
    } else {
      prev := FindPrevSafeDatingPos(pos);
    }
  }
}
