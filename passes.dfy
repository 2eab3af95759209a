/**
 * The two memory-filling passes of NoelKDF (noelkdf-ref.c) as functions of
 * the memory, and the final XOR of every thread's last words into the hash.
 *
 * Memory layout of one garlic level: 2 * parallelism segments of numblocks
 * blocks of blocklen words. Thread p fills segment 2p without looking at the
 * password (its independent segment) and segment 2p + 1 with password
 * dependent addressing (its dependent segment).
 */
module Passes {
  import opened Words
  import opened BitReversal
  import opened Addressing
  import opened Mixing

  // ---------------------------------------------------------------------
  // Geometry: block addresses are products, kept out of the other proofs.
  // ---------------------------------------------------------------------

  /** Block k of a run of n blocks starting at word start lies inside the run, and the next block follows it. */
  lemma BlockInRun(start: nat, bl: nat, k: nat, n: nat)
    requires k < n
    ensures start + bl * k + bl <= start + bl * n
    ensures start + bl * k + bl == start + bl * (k + 1)
    ensures k >= 1 ==> bl <= bl * k
  {
    Distrib(bl, k, 1);
    MulMono(bl, k + 1, n);
    if k >= 1 {
      MulMono(bl, 1, k);
    }
  }

  /** The first word of thread p's independent segment, 2p * numblocks blocks in. */
  function SegmentStart(p: nat, nb: nat, bl: nat): nat
  {
    2 * p * nb * bl
  }

  /** The block after block k of a run starts where block k ends. */
  lemma NextBlock(start: nat, bl: nat, k: nat)
    ensures start + bl * k + bl == start + bl * (k + 1)
  {
    Distrib(bl, k, 1);
  }

  /** The independent segment of thread p, 2p * numblocks blocks in, ends inside the level's memory. */
  lemma IndependentSegment(p: nat, par: nat, nb: nat, bl: nat)
    requires p < par
    ensures 2 * p * nb * bl + bl * nb <= 2 * par * nb * bl
    ensures nb >= 1 ==> bl <= 2 * p * nb * bl + bl * nb
  {
    var w := nb * bl;
    assert 2 * p * nb * bl == 2 * p * w && 2 * par * nb * bl == 2 * par * w by {
      MulAssoc(2 * p, nb, bl);
      MulAssoc(2 * par, nb, bl);
    }
    MulMono(w, 2 * p + 2, 2 * par);
    if nb >= 1 {
      MulMono(bl, 1, nb);
    }
  }

  /** The first word of thread p's dependent segment, right after its independent segment. */
  function DepStart(p: nat, nb: nat, bl: nat): nat
  {
    (2 * p * nb + nb) * bl
  }

  /**
   * The dependent segment of thread p starts (2p + 1) * numblocks blocks in,
   * right after its independent segment, and ends inside the level's memory.
   */
  lemma DependentSegment(p: nat, par: nat, nb: nat, bl: nat)
    requires p < par && nb >= 1
    ensures (2 * p * nb + nb) * bl == 2 * p * nb * bl + bl * nb
    ensures bl <= (2 * p * nb + nb) * bl
    ensures (2 * p * nb + nb) * bl + bl * nb <= 2 * par * nb * bl
  {
    var w := nb * bl;
    assert 2 * p * nb * bl == 2 * p * w && 2 * par * nb * bl == 2 * par * w by {
      MulAssoc(2 * p, nb, bl);
      MulAssoc(2 * par, nb, bl);
    }
    assert (2 * p * nb + nb) * bl == (2 * p + 1) * w by {
      MulAssoc(2 * p + 1, nb, bl);
    }
    MulMono(w, 2 * p + 2, 2 * par);
    MulMono(bl, 1, 2 * p * nb + nb);
  }

  /** Two different blocks of blocklen words do not overlap. */
  lemma BlocksApart(bl: nat, b: nat, c: nat)
    requires b != c
    ensures b * bl + bl <= c * bl || c * bl + bl <= b * bl
  {
    if b < c {
      MulMono(bl, b + 1, c);
    } else {
      MulMono(bl, c + 1, b);
    }
  }

  /** Two runs of blocks side by side make one run. */
  lemma AddBlocks(a: nat, b: nat, bl: nat)
    ensures a * bl + b * bl == (a + b) * bl
  {
    Distrib(bl, a, b);
  }

  /** Every block the dependent pass reads lies inside the level's 2 * parallelism * numblocks blocks. */
  lemma DependentSourceInLevel(p: nat, par: nat, nb: nat, i: nat, distance: nat)
    requires p < par && i < nb
    requires if i + nb >= 2 then distance <= i + nb - 2 else distance == 0
    ensures DependentSource(p, par, nb, i, distance) < 2 * par * nb
  {
    if distance < i {
      AddBlocks(2 * p + 1, 1, nb);
      MulMono(nb, 2 * p + 2, 2 * par);
    } else {
      var q := (p + i) % par;
      AddBlocks(2 * q, 1, nb);
      MulMono(nb, 2 * q + 1, 2 * par);
    }
  }

  /** Block b of the level lies inside the level's memory. */
  lemma BlockInLevel(bl: nat, b: nat, blocks: nat)
    requires b < blocks
    ensures b * bl + bl <= blocks * bl
  {
    MulMono(bl, b + 1, blocks);
  }

  // ---------------------------------------------------------------------
  // The independent pass (hashWithoutPassword).
  // ---------------------------------------------------------------------

  /**
   * The thread key: H over the big-endian bytes of the hash, salted with the
   * big-endian thread number, blocklen * 4 bytes long, read back as words.
   */
  function Seed(h: KeyedHash, wordHash: seq<word>, p: word, bl: nat): (s: seq<word>)
    ensures |s| == bl
    ensures Be32EncVect(s) == h(Be32EncVect(wordHash), Be32Enc(p), bl * 4)
  {
    var key := h(Be32EncVect(wordHash), Be32Enc(p), bl * 4);
    VectEncodeDecode(key);
    Be32DecVect(key)
  }

  /** Filling block k of the run of numblocks blocks at start by mixing block k - 1 with block src of the run. */
  function RunStep(s: Mixed, start: nat, bl: nat, nb: nat, reps: nat, k: nat, src: nat): (r: Mixed)
    requires src < k < nb && start + bl * nb <= |s.mem|
    ensures |r.mem| == |s.mem|
  {
    BlockInRun(start, bl, k, nb);
    BlockInRun(start, bl, src, k);
    MixBlocks(s.mem, s.value, bl, start + bl * src, start + bl * k, reps)
  }

  /** RunStep writes only block k: the words before block 1 and past the run stay. */
  lemma RunStepFrame(s: Mixed, start: nat, bl: nat, nb: nat, reps: nat, j: nat, src: nat, k: nat)
    requires src < j < nb && start + bl * nb <= |s.mem| && k < |s.mem|
    requires k < start + bl || start + bl * nb <= k
    ensures RunStep(s, start, bl, nb, reps, j, src).mem[k] == s.mem[k]
  {
    RunStepApart(start, bl, nb, j, src, k);
    MixBlocksFrame(s.mem, s.value, bl, start + bl * src, start + bl * j, reps, k);
  }

  /** Block j of a run, j >= 1, lies past block 0 and inside the run, after block src < j. */
  lemma RunBlocks(start: nat, bl: nat, nb: nat, j: nat, src: nat)
    requires src < j < nb
    ensures var to := start + bl * j;
      start + bl <= to && to + bl <= start + bl * nb && start + bl * src + bl <= to
  {
    BlockInRun(start, bl, j, nb);
    BlockInRun(start, bl, src, j);
  }

  /** A word before block 1 of a run or past its end is not in block j >= 1. */
  lemma RunStepApart(start: nat, bl: nat, nb: nat, j: nat, src: nat, k: nat)
    requires src < j < nb
    requires k < start + bl || start + bl * nb <= k
    ensures var to := start + bl * j;
      bl <= to && to + bl <= start + bl * nb && start + bl * src + bl <= to && (k < to || to + bl <= k)
  {
    RunBlocks(start, bl, nb, j, src);
  }

  /**
   * Filling block k of the run of numblocks blocks at start: it mixes block
   * k - 1 with block IndependentSource(k) of the same run.
   */
  function IndepStep(s: Mixed, start: nat, bl: nat, nb: nat, reps: nat, k: nat): (r: Mixed)
    requires 1 <= k < nb && start + bl * nb <= |s.mem|
    ensures |r.mem| == |s.mem|
  {
    RunStep(s, start, bl, nb, reps, k, IndependentSource(k))
  }

  /** Memory and running value once blocks 1 .. i - 1 of the run are filled, in order. */
  function IndepFill(m: seq<word>, start: nat, bl: nat, nb: nat, reps: nat, i: nat): (r: Mixed)
    requires 1 <= i <= nb && start + bl * nb <= |m|
    ensures |r.mem| == |m|
    decreases i
  {
    if i == 1 then Mixed(m, 1)
    else IndepStep(IndepFill(m, start, bl, nb, reps, i - 1), start, bl, nb, reps, i - 1)
  }

  /** Filling the run leaves every word before its block 1, and every word past its end, as it was. */
  lemma {:induction false} IndepFillFrame(m: seq<word>, start: nat, bl: nat, nb: nat, reps: nat, i: nat, k: nat)
    requires 1 <= i <= nb && start + bl * nb <= |m| && k < |m|
    requires k < start + bl || start + bl * nb <= k
    ensures IndepFill(m, start, bl, nb, reps, i).mem[k] == m[k]
    decreases i
  {
    if i > 1 {
      var prev := IndepFill(m, start, bl, nb, reps, i - 1);
      IndepFillFrame(m, start, bl, nb, reps, i - 1, k);
      RunStepFrame(prev, start, bl, nb, reps, i - 1, IndependentSource(i - 1), k);
      assert IndepFill(m, start, bl, nb, reps, i) == IndepStep(prev, start, bl, nb, reps, i - 1);
    }
  }

  /**
   * Where hashWithoutPassword decodes thread p's key: at word 0 of memory
   * for every thread, as the C engines are written, or at the first block
   * of the thread's own independent segment, which is where the pass and
   * the sum of key words after it read it from.
   */
  datatype KeyPlacement = AtWordZero | AtSegmentStart

  /** The word the thread key of thread p is decoded to. */
  function KeyAddress(pl: KeyPlacement, p: nat, nb: nat, bl: nat): nat
  {
    if pl == AtWordZero then 0 else SegmentStart(p, nb, bl)
  }

  /**
   * hashWithoutPassword(p): the thread key decoded at KeyAddress, then
   * blocks 1 .. numblocks - 1 of thread p's independent segment filled.
   */
  function IndependentPass(pl: KeyPlacement, m: seq<word>, h: KeyedHash, wordHash: seq<word>, p: nat, par: nat,
                           bl: nat, nb: nat, reps: nat): (r: seq<word>)
    requires p < par <= TWO32 && nb >= 1 && 2 * par * nb * bl <= |m|
    ensures |r| == |m|
  {
    var start := SegmentStart(p, nb, bl);
    IndependentSegment(p, par, nb, bl);
    BlockInRun(start, bl, 0, nb);
    IndepFill(WriteWords(m, KeyAddress(pl, p, nb, bl), Seed(h, wordHash, p, bl)), start, bl, nb, reps, nb).mem
  }

  /** Filling a run never writes its block 0. */
  lemma IndepFillKeepsBlockZero(m: seq<word>, start: nat, bl: nat, nb: nat, reps: nat)
    requires 1 <= nb && start + bl * nb <= |m| && bl <= bl * nb
    ensures IndepFill(m, start, bl, nb, reps, nb).mem[start .. start + bl] == m[start .. start + bl]
  {
    var r := IndepFill(m, start, bl, nb, reps, nb).mem;
    forall k | start <= k < start + bl
      ensures r[k] == m[k]
    {
      IndepFillFrame(m, start, bl, nb, reps, nb, k);
    }
    SameSlice(r, m, start, start + bl);
  }

  /**
   * The pass writes only the thread key and blocks 1 .. numblocks - 1 of the
   * thread's independent segment: every other word keeps its value.
   */
  lemma IndependentPassFrame(pl: KeyPlacement, m: seq<word>, h: KeyedHash, wordHash: seq<word>, p: nat, par: nat,
                             bl: nat, nb: nat, reps: nat, k: nat)
    requires p < par <= TWO32 && nb >= 1 && 2 * par * nb * bl <= |m| && k < |m|
    requires k < KeyAddress(pl, p, nb, bl) || KeyAddress(pl, p, nb, bl) + bl <= k
    requires k < SegmentStart(p, nb, bl) + bl || SegmentStart(p, nb, bl) + bl * nb <= k
    ensures IndependentPass(pl, m, h, wordHash, p, par, bl, nb, reps)[k] == m[k]
  {
    var start := SegmentStart(p, nb, bl);
    IndependentSegment(p, par, nb, bl);
    BlockInRun(start, bl, 0, nb);
    var seeded := WriteWords(m, KeyAddress(pl, p, nb, bl), Seed(h, wordHash, p, bl));
    IndepFillFrame(seeded, start, bl, nb, reps, nb, k);
    WriteWordsPoint(m, KeyAddress(pl, p, nb, bl), Seed(h, wordHash, p, bl), k);
  }

  /** A word of the key's block that the fill does not reach holds the thread key's word afterwards. */
  lemma IndependentPassKeyBlock(pl: KeyPlacement, m: seq<word>, h: KeyedHash, wordHash: seq<word>, p: nat, par: nat,
                                bl: nat, nb: nat, reps: nat, k: nat)
    requires p < par <= TWO32 && nb >= 1 && 2 * par * nb * bl <= |m|
    requires KeyAddress(pl, p, nb, bl) <= k < KeyAddress(pl, p, nb, bl) + bl
    requires k < SegmentStart(p, nb, bl) + bl || SegmentStart(p, nb, bl) + bl * nb <= k
    ensures k < |m|
    ensures IndependentPass(pl, m, h, wordHash, p, par, bl, nb, reps)[k]
         == Seed(h, wordHash, p, bl)[k - KeyAddress(pl, p, nb, bl)]
  {
    var start := SegmentStart(p, nb, bl);
    IndependentSegment(p, par, nb, bl);
    BlockInRun(start, bl, 0, nb);
    var seeded := WriteWords(m, KeyAddress(pl, p, nb, bl), Seed(h, wordHash, p, bl));
    IndepFillFrame(seeded, start, bl, nb, reps, nb, k);
    WriteWordsPoint(m, KeyAddress(pl, p, nb, bl), Seed(h, wordHash, p, bl), k);
  }

  /**
   * With the key at the thread's own segment (and for thread 0 either way)
   * the thread key is what the first block of the thread's independent
   * segment holds afterwards.
   */
  lemma IndependentPassKeepsKey(pl: KeyPlacement, m: seq<word>, h: KeyedHash, wordHash: seq<word>, p: nat, par: nat,
                                bl: nat, nb: nat, reps: nat)
    requires pl == AtSegmentStart || p == 0
    requires p < par <= TWO32 && nb >= 1 && 2 * par * nb * bl <= |m|
    ensures var start := SegmentStart(p, nb, bl);
      start + bl <= |m| && IndependentPass(pl, m, h, wordHash, p, par, bl, nb, reps)[start .. start + bl] == Seed(h, wordHash, p, bl)
  {
    var start := SegmentStart(p, nb, bl);
    OwnKeyBlock(pl, p, par, nb, bl);
    var key := Seed(h, wordHash, p, bl);
    assert IndependentPass(pl, m, h, wordHash, p, par, bl, nb, reps)
        == IndepFill(WriteWords(m, start, key), start, bl, nb, reps, nb).mem;
    FillKeepsWritten(m, start, key, bl, nb, reps);
  }

  /** With the key at its own segment, the key block is block 0 of the independent segment, inside the level. */
  lemma OwnKeyBlock(pl: KeyPlacement, p: nat, par: nat, nb: nat, bl: nat)
    requires pl == AtSegmentStart || p == 0
    requires p < par && nb >= 1
    ensures KeyAddress(pl, p, nb, bl) == SegmentStart(p, nb, bl)
    ensures SegmentStart(p, nb, bl) + bl * nb <= 2 * par * nb * bl && bl <= bl * nb
  {
    IndependentSegment(p, par, nb, bl);
    BlockInRun(SegmentStart(p, nb, bl), bl, 0, nb);
  }

  /** Filling a run keeps the words just written to its block 0. */
  lemma FillKeepsWritten(m: seq<word>, start: nat, key: seq<word>, bl: nat, nb: nat, reps: nat)
    requires |key| == bl && 1 <= nb && start + bl * nb <= |m| && bl <= bl * nb
    ensures IndepFill(WriteWords(m, start, key), start, bl, nb, reps, nb).mem[start .. start + bl] == key
  {
    IndepFillKeepsBlockZero(WriteWords(m, start, key), start, bl, nb, reps);
    WriteWordsSlice(m, start, key);
  }

  /** In particular the last word of that block is the last word of the thread key. */
  lemma IndependentPassKeyWord(pl: KeyPlacement, m: seq<word>, h: KeyedHash, wordHash: seq<word>, p: nat, par: nat,
                               bl: nat, nb: nat, reps: nat)
    requires pl == AtSegmentStart || p == 0
    requires p < par <= TWO32 && nb >= 1 && bl >= 1 && 2 * par * nb * bl <= |m|
    ensures var last := SegmentStart(p, nb, bl) + bl - 1;
      last < |m| && IndependentPass(pl, m, h, wordHash, p, par, bl, nb, reps)[last] == Seed(h, wordHash, p, bl)[bl - 1]
  {
    var start := SegmentStart(p, nb, bl);
    IndependentPassKeepsKey(pl, m, h, wordHash, p, par, bl, nb, reps);
    var block := IndependentPass(pl, m, h, wordHash, p, par, bl, nb, reps)[start .. start + bl];
    assert block[bl - 1] == Seed(h, wordHash, p, bl)[bl - 1];
  }

  /**
   * As written, no thread but thread 0 ever writes the first block of its
   * independent segment: it keeps what memory held before, although block 1
   * reads it both as its predecessor and as its source IndependentSource(1).
   */
  lemma AtZeroLeavesFirstBlock(m: seq<word>, h: KeyedHash, wordHash: seq<word>, p: nat, par: nat,
                               bl: nat, nb: nat, reps: nat)
    requires 1 <= p < par <= TWO32 && nb >= 1 && 2 * par * nb * bl <= |m|
    ensures IndependentSource(1) == 0
    ensures var start := SegmentStart(p, nb, bl);
      start + bl <= |m| && IndependentPass(AtWordZero, m, h, wordHash, p, par, bl, nb, reps)[start .. start + bl] == m[start .. start + bl]
  {
    var start := SegmentStart(p, nb, bl);
    IndependentSegment(p, par, nb, bl);
    BlockInRun(start, bl, 0, nb);
    assert bl <= start by {
      MulMono(bl, 1, 2 * p * nb);
    }
    var seeded := WriteWords(m, 0, Seed(h, wordHash, p, bl));
    IndepFillKeepsBlockZero(seeded, start, bl, nb, reps);
    WriteWordsOutside(m, 0, Seed(h, wordHash, p, bl), start, start + bl);
    assert Log2(1) == 0;
  }

  // ---------------------------------------------------------------------
  // The dependent pass (hashWithPassword).
  // ---------------------------------------------------------------------

  /**
   * The word address hashWithPassword reads block i from, computed as the
   * source does: inside the thread's dependent segment when distance < i,
   * otherwise inside the independent segment of thread (p + i) % parallelism.
   */
  function DepFrom(p: nat, par: nat, nb: nat, bl: nat, i: nat, distance: nat): (a: nat)
    requires p < par && i < nb
    requires if i + nb >= 2 then distance <= i + nb - 2 else distance == 0
    ensures a == DependentSource(p, par, nb, i, distance) * bl
  {
    DepFromBlock(p, par, nb, bl, i, distance);
    if distance < i then
      (2 * p * nb + nb) * bl + (i - 1 - distance) * bl
    else
      var q := (p + i) % par;
      var b := nb - 1 - (distance - i);
      (2 * nb * q + b) * bl
  }

  /** The two address formulas of hashWithPassword name block DependentSource. */
  lemma DepFromBlock(p: nat, par: nat, nb: nat, bl: nat, i: nat, distance: nat)
    requires p < par && i < nb
    requires if i + nb >= 2 then distance <= i + nb - 2 else distance == 0
    ensures distance < i ==>
      (2 * p * nb + nb) * bl + (i - 1 - distance) * bl == DependentSource(p, par, nb, i, distance) * bl
    ensures distance >= i ==>
      (2 * nb * ((p + i) % par) + (nb - 1 - (distance - i))) * bl == DependentSource(p, par, nb, i, distance) * bl
  {
    if distance < i {
      var a, b := 2 * p * nb + nb, i - 1 - distance;
      AddBlocks(a, b, bl);
      assert a == (2 * p + 1) * nb;
    } else {
      var q := (p + i) % par;
      assert 2 * nb * q == 2 * q * nb;
    }
  }

  /**
   * The address hashWithPassword reads block i from, as it computes it from
   * the value v: the cubic distance of v, then the word address of the block
   * that distance selects.
   */
  method DependentFromAddr(p: nat, parallelism: nat, numblocks: nat, blocklen: nat, i: nat, v: word)
    returns (distance: nat, fromAddr: nat)
    requires p < parallelism && i < numblocks < 0x8000_0000
    ensures distance == Distance(v, i, numblocks)
    ensures fromAddr == DepFrom(p, parallelism, numblocks, blocklen, i, distance)
  {
    var v2 := Scale(v, v);
    var v3 := Scale(v, v2);
    distance := Scale(i + numblocks - 1, v3);
    var a: int;
    if distance < i {
      a := (2 * p * numblocks + numblocks) * blocklen + (i - 1 - distance) * blocklen;
    } else {
      var q := (p + i) % parallelism;
      var b := numblocks - 1 - (distance - i);
      a := (2 * numblocks * q + b) * blocklen;
    }
    assert a == DepFrom(p, parallelism, numblocks, blocklen, i, distance);
    fromAddr := a;
  }

  /**
   * Block i of thread p's dependent segment, and the block its distance
   * selects, lie inside the level and do not overlap.
   */
  lemma DepBlocks(p: nat, par: nat, nb: nat, bl: nat, i: nat, distance: nat)
    requires p < par && i < nb
    requires if i + nb >= 2 then distance <= i + nb - 2 else distance == 0
    ensures var start := DepStart(p, nb, bl);
      var to := start + bl * i;
      var from := DepFrom(p, par, nb, bl, i, distance);
      bl <= to && to + bl <= 2 * par * nb * bl && to + bl == start + bl * (i + 1) &&
      from + bl <= 2 * par * nb * bl && (from + bl <= to || to + bl <= from)
  {
    DepTargetInLevel(p, par, nb, bl, i);
    DepSourceInLevel(p, par, nb, bl, i, distance);
    DepSourceApart(p, par, nb, bl, i, distance);
  }

  /** Block i of thread p's dependent segment lies inside the level, past the first block. */
  lemma DepTargetInLevel(p: nat, par: nat, nb: nat, bl: nat, i: nat)
    requires p < par && i < nb
    ensures var start := DepStart(p, nb, bl);
      bl <= start + bl * i && start + bl * i + bl <= 2 * par * nb * bl && start + bl * i + bl == start + bl * (i + 1)
  {
    DependentSegment(p, par, nb, bl);
    BlockInRun(DepStart(p, nb, bl), bl, i, nb);
  }

  /** The block the distance selects lies inside the level. */
  lemma DepSourceInLevel(p: nat, par: nat, nb: nat, bl: nat, i: nat, distance: nat)
    requires p < par && i < nb
    requires if i + nb >= 2 then distance <= i + nb - 2 else distance == 0
    ensures DepFrom(p, par, nb, bl, i, distance) + bl <= 2 * par * nb * bl
  {
    var b := DependentSource(p, par, nb, i, distance);
    DependentSourceInLevel(p, par, nb, i, distance);
    BlockInLevel(bl, b, 2 * par * nb);
  }

  /** The block the distance selects does not overlap block i of the thread's dependent segment. */
  lemma DepSourceApart(p: nat, par: nat, nb: nat, bl: nat, i: nat, distance: nat)
    requires p < par && i < nb
    requires if i + nb >= 2 then distance <= i + nb - 2 else distance == 0
    ensures var to := DepStart(p, nb, bl) + bl * i;
      var from := DepFrom(p, par, nb, bl, i, distance);
      from + bl <= to || to + bl <= from
  {
    var startBlock := 2 * p * nb + nb;
    var b := DependentSource(p, par, nb, i, distance);
    AddBlocks(startBlock, i, bl);
    DependentSourceElsewhere(p, par, nb, i, distance);
    BlocksApart(bl, b, startBlock + i);
  }

  /** The block the distance selects is never the block being filled, block i of the thread's dependent segment. */
  lemma DependentSourceElsewhere(p: nat, par: nat, nb: nat, i: nat, distance: nat)
    requires p < par && i < nb
    requires if i + nb >= 2 then distance <= i + nb - 2 else distance == 0
    ensures DependentSource(p, par, nb, i, distance) != 2 * p * nb + nb + i
  {
    assert (2 * p + 1) * nb == 2 * p * nb + nb;
    if distance >= i {
      var q := (p + i) % par;
      if q > p {
        assert 2 * q * nb >= 2 * p * nb + 2 * nb by {
          MulMono(nb, p + 1, q);
        }
      } else {
        assert 2 * q * nb <= 2 * p * nb by {
          MulMono(nb, q, p);
        }
      }
    }
  }

  /**
   * Filling block k of thread p's dependent segment: it mixes the block
   * before it (the last independent block for k = 0) with the block that
   * the distance of the running value selects.
   */
  function DepStep(s: Mixed, p: nat, par: nat, bl: nat, nb: nat, reps: nat, k: nat): (r: Mixed)
    requires p < par && k < nb <= 0x8000_0000 && 2 * par * nb * bl <= |s.mem|
    ensures |r.mem| == |s.mem|
  {
    var distance := Distance(s.value, k, nb);
    DepBlocks(p, par, nb, bl, k, distance);
    MixBlocks(s.mem, s.value, bl, DepFrom(p, par, nb, bl, k, distance), DepStart(p, nb, bl) + bl * k, reps)
  }

  /** Memory and running value once blocks 0 .. i - 1 of thread p's dependent segment are filled, in order. */
  function DepFill(m: seq<word>, p: nat, par: nat, bl: nat, nb: nat, reps: nat, value: word, i: nat): (r: Mixed)
    requires p < par && i <= nb <= 0x8000_0000 && 2 * par * nb * bl <= |m|
    ensures |r.mem| == |m|
    decreases i
  {
    if i == 0 then Mixed(m, value)
    else DepStep(DepFill(m, p, par, bl, nb, reps, value, i - 1), p, par, bl, nb, reps, i - 1)
  }

  /** Dependent passes of threads 0 .. p - 1, in that order, all starting from the same value. */
  function DepAll(m: seq<word>, par: nat, bl: nat, nb: nat, reps: nat, value: word, p: nat): (r: seq<word>)
    requires p <= par && nb <= 0x8000_0000 && 2 * par * nb * bl <= |m|
    ensures |r| == |m|
  {
    if p == 0 then m else DepFill(DepAll(m, par, bl, nb, reps, value, p - 1), p - 1, par, bl, nb, reps, value, nb).mem
  }

  // ---------------------------------------------------------------------
  // xorIntoHash.
  // ---------------------------------------------------------------------

  /** Every segment after the first starts at or beyond the end of block 0. */
  lemma LaterSegmentPastFirstBlock(q: nat, nb: nat, bl: nat)
    requires q >= 1 && nb >= 1
    ensures bl <= SegmentStart(q, nb, bl)
  {
    SegmentEnds(0, q, nb, bl);
    MulMono(bl, 1, nb);
  }

  /**
   * With every key written at word 0, no pass writes the last word of
   * block 0 of a thread q >= 1: that word lies past the key and outside
   * every other thread's blocks 1 .. numblocks - 1.
   */
  lemma KeyWordOutsideAtZeroPass(j: nat, q: nat, nb: nat, bl: nat)
    requires 1 <= q && nb >= 1 && bl >= 1
    ensures var k := SegmentStart(q, nb, bl) + bl - 1;
      (k < KeyAddress(AtWordZero, j, nb, bl) || KeyAddress(AtWordZero, j, nb, bl) + bl <= k) &&
      (k < SegmentStart(j, nb, bl) + bl || SegmentStart(j, nb, bl) + bl * nb <= k)
  {
    LaterSegmentPastFirstBlock(q, nb, bl);
    if j < q {
      IndependentSegment(j, q, nb, bl);
    } else if q < j {
      IndependentSegment(q, j, nb, bl);
      MulMono(bl, 1, nb);
    }
  }

  /** With every key at its own segment, a later thread's pass writes nothing up to the end of block 0 of thread q. */
  lemma KeyWordOutsideLaterPass(q: nat, j: nat, nb: nat, bl: nat)
    requires q < j && nb >= 1 && bl >= 1
    ensures var k := SegmentStart(q, nb, bl) + bl - 1;
      k < KeyAddress(AtSegmentStart, j, nb, bl) && k < SegmentStart(j, nb, bl) + bl
  {
    IndependentSegment(q, j, nb, bl);
    MulMono(bl, 1, nb);
  }

  /** Segment q of p ends no earlier than the first and no later than the last. */
  lemma SegmentEnds(q: nat, p: nat, nb: nat, bl: nat)
    requires q < p
    ensures 2 * nb * bl <= 2 * (q + 1) * nb * bl <= 2 * p * nb * bl
    ensures 2 * q * nb * bl <= 2 * p * nb * bl
  {
    var w := nb * bl;
    MulAssoc(2 * (q + 1), nb, bl);
    MulAssoc(2 * p, nb, bl);
    MulAssoc(2 * q, nb, bl);
    MulMono(w, 2 * q, 2 * p);
    MulMono(w, 2, 2 * (q + 1));
    MulMono(w, 2 * (q + 1), 2 * p);
  }

  /**
   * The hash after XOR-ing in the last |wordHash| words of the dependent
   * segments of threads 0 .. p - 1.
   */
  function XorAll(wordHash: seq<word>, m: seq<word>, bl: nat, nb: nat, p: nat): (r: seq<word>)
    requires |wordHash| <= 2 * nb * bl && 2 * p * nb * bl <= |m|
    ensures |r| == |wordHash|
  {
    if p == 0 then wordHash
    else
      var q := p - 1;
      SegmentEnds(q, p, nb, bl);
      var pos := 2 * (q + 1) * nb * bl - |wordHash|;
      XorWords(XorAll(wordHash, m, bl, nb, q), m[pos .. pos + |wordHash|])
  }

  /** wordHash[i] ^= mem[pos + i] for every i: only wordHash changes. */
  method XorBlockInto(wordHash: array<word>, mem: array<word>, pos: nat)
    requires wordHash != mem && pos + wordHash.Length <= mem.Length
    modifies wordHash
    ensures wordHash[..] == XorWords(old(wordHash[..]), mem[pos .. pos + wordHash.Length])
  {
    ghost var before := wordHash[..];
    var i: nat := 0;
    while i < wordHash.Length
      invariant i <= wordHash.Length
      invariant forall k :: 0 <= k < i ==> wordHash[k] == Xor32(before[k], mem[pos + k])
      invariant forall k :: i <= k < wordHash.Length ==> wordHash[k] == before[k]
    {
      wordHash[i] := Xor32(wordHash[i], mem[pos + i]);
      i := i + 1;
    }
  }

  /**
   * xorIntoHash: for every thread p, wordHash[i] ^= mem[pos + i] with pos the
   * start of the last hashlen words of p's dependent segment. Only wordHash
   * changes.
   */
  method XorIntoHash(wordHash: array<word>, mem: array<word>, bl: nat, nb: nat, par: nat)
    requires wordHash != mem
    requires wordHash.Length <= 2 * nb * bl && 2 * par * nb * bl <= mem.Length
    modifies wordHash
    ensures wordHash[..] == XorAll(old(wordHash[..]), mem[..], bl, nb, par)
  {
    ghost var h0 := wordHash[..];
    var p: nat := 0;
    while p < par
      invariant p <= par
      invariant wordHash[..] == XorAll(h0, mem[..], bl, nb, p)
    {
      SegmentEnds(p, par, nb, bl);
      var pos: nat := 2 * (p + 1) * nb * bl - wordHash.Length;
      XorBlockInto(wordHash, mem, pos);
      p := p + 1;
    }
  }
}
