/**
 * The reference NoelKDF engine (noelkdf-ref.c): parameter validation, the
 * two passes per thread run one after the other, the garlic loop and the
 * password hashing entry points. H is a parameter; the memory that malloc
 * returns holds whatever the function `junk` says.
 */
module NoelKdfRef {
  import opened Words
  import opened BitReversal
  import opened Addressing
  import opened Mixing
  import opened Passes

  // ---------------------------------------------------------------------
  // verifyParameters
  // ---------------------------------------------------------------------

  /**
   * verifyParameters: every size in range, and memSize << (20 + stopGarlic)
   * shifted back gives memSize, which holds exactly when the shift does not
   * overflow 64 bits.
   */
  function VerifyParameters(hashSize: word, passwordSize: word, saltSize: word, memSize: word,
                            startGarlic: word, stopGarlic: word, dataSize: word, blockSize: word,
                            parallelism: word, repetitions: word): (ok: bool)
    ensures ok ==> 4 <= hashSize <= 1024 && hashSize % 4 == 0
    ensures ok ==> 1 <= passwordSize <= 1024 && 1 <= saltSize <= 1024 && dataSize <= 1024
    ensures ok ==> 4 <= blockSize <= 0x4000_0000 && blockSize % 4 == 0
    ensures ok ==> 1 <= memSize <= 0x4000_0000 && blockSize * parallelism <= memSize * 0x40000
    ensures ok ==> startGarlic <= stopGarlic <= 30
    ensures ok ==> 1 <= parallelism <= 0x10_0000 && 1 <= repetitions <= 0x4000_0000
    ensures ok ==> memSize * Pow2(20 + stopGarlic) < TWO64
    ensures (4 <= hashSize <= 1024 && hashSize % 4 == 0 &&
             1 <= passwordSize <= 1024 && 1 <= saltSize <= 1024 && dataSize <= 1024 &&
             4 <= blockSize <= 0x4000_0000 && blockSize % 4 == 0 &&
             1 <= memSize <= 0x4000_0000 && blockSize * parallelism <= memSize * 0x40000 &&
             startGarlic <= stopGarlic <= 30 &&
             1 <= parallelism <= 0x10_0000 && 1 <= repetitions <= 0x4000_0000 &&
             memSize * Pow2(20 + stopGarlic) < TWO64) ==> ok
  {
    if hashSize > 1024 || hashSize < 4 || hashSize % 4 != 0 || passwordSize > 1024 ||
       passwordSize == 0 || blockSize < 4 || blockSize % 4 != 0 || saltSize > 1024 || saltSize == 0 ||
       memSize == 0 || memSize > 0x4000_0000 || startGarlic > stopGarlic || stopGarlic > 30 ||
       dataSize > 1024 || blockSize > 0x4000_0000 ||
       memSize * 0x40000 < blockSize * parallelism || parallelism == 0 ||
       parallelism > 0x10_0000 || repetitions == 0 || repetitions > 0x4000_0000 then
      false
    else
      var shift := 20 + stopGarlic;
      ShiftRoundTrip(memSize, shift);
      var totalSize := memSize * Pow2(shift) % TWO64;
      totalSize / Pow2(shift) == memSize
  }

  // ---------------------------------------------------------------------
  // Memory geometry
  // ---------------------------------------------------------------------

  /**
   * numblocks at the first level: memSize MiB is 2^18 * memSize words, cut
   * into 2 * parallelism segments of whole blocks.
   */
  function NumBlocks(memSize: nat, blocklen: nat, parallelism: nat): (nb: nat)
    requires blocklen >= 1 && parallelism >= 1
    ensures 2 * parallelism * nb * blocklen <= 0x40000 * memSize
  {
    var d := 2 * parallelism * blocklen;
    MulMono(2 * parallelism, 1, blocklen);
    var nb := 0x40000 * memSize / d;
    QuotientTimesDivisor(0x40000 * memSize, d);
    MulAssoc(2 * parallelism, nb, blocklen);
    assert 2 * parallelism * nb * blocklen == nb * d;
    nb
  }

  /** Accepted parameters give every segment at least two blocks. */
  lemma NumBlocksAtLeastTwo(memSize: nat, blockSize: nat, parallelism: nat)
    requires blockSize >= 4 && blockSize % 4 == 0 && parallelism >= 1
    requires blockSize * parallelism <= memSize * 0x40000
    ensures NumBlocks(memSize, blockSize / 4, parallelism) >= 2
  {
    var bl := blockSize / 4;
    var d := 2 * parallelism * bl;
    assert blockSize * parallelism == 2 * d;
    DivAddMultiple(0x40000 * memSize - 2 * d, 2, d);
    assert 2 * d + (0x40000 * memSize - 2 * d) == 0x40000 * memSize;
  }

  /** Words of one level with numblocks blocks per segment. */
  function LevelWords(parallelism: nat, numblocks: nat, blocklen: nat): nat
  {
    2 * parallelism * numblocks * blocklen
  }

  /** Words malloc'd: 2^stopGarlic times the first level. */
  function MemWords(memSize: nat, blockSize: nat, parallelism: nat, stopGarlic: nat): nat
    requires blockSize >= 4 && parallelism >= 1
  {
    Pow2(stopGarlic) * LevelWords(parallelism, NumBlocks(memSize, blockSize / 4, parallelism), blockSize / 4)
  }

  // ---------------------------------------------------------------------
  // The two passes
  // ---------------------------------------------------------------------

  /** One round of hashWithoutPassword's loop: block i mixed from block i - 1 and block IndependentSource(i). */
  method HashIndependentBlock(mem: array<word>, value: word, start: nat, blocklen: nat, numblocks: nat,
                              repetitions: nat, i: nat, mask: nat, toAddr: nat)
    returns (result: word, newMask: nat)
    requires 1 <= i < numblocks < 0x8000_0000 && start + blocklen * numblocks <= mem.Length
    requires mask == MaskAfter(i - 1) && toAddr == start + blocklen * i
    modifies mem
    ensures newMask == MaskAfter(i)
    ensures Mixed(mem[..], result) == IndepStep(Mixed(old(mem[..]), value), start, blocklen, numblocks, repetitions, i)
  {
    var reversePos;
    newMask, reversePos := NextIndependentSource(i, mask);
    MulMono(blocklen, 0, reversePos);
    var fromAddr := start + blocklen * reversePos;
    RunBlocks(start, blocklen, numblocks, i, reversePos);
    result := HashBlocks(mem, value, blocklen, fromAddr, toAddr, repetitions);
  }

  /** The thread key H(hash, be32(p)) of blocklen words, decoded into memory from word start on. */
  method WriteThreadKey(h: KeyedHash, p: word, wordHash: array<word>, mem: array<word>, start: nat, blocklen: nat)
    requires wordHash != mem && start + blocklen <= mem.Length
    modifies mem
    ensures mem[..] == WriteWords(old(mem[..]), start, Seed(h, wordHash[..], p, blocklen))
  {
    var hash := Be32EncVect(wordHash[..]);
    var salt := Be32Enc(p);
    var threadKey := h(hash, salt, blocklen * 4);
    Be32DecInto(mem, start, threadKey);
  }

  /**
   * The loop of hashWithoutPassword: blocks 1 .. numblocks - 1 of the run
   * at start, each mixed by hashBlocks from the block before it and block
   * IndependentSource(i), with the running value starting at 1.
   */
  method FillIndependentBlocks(mem: array<word>, start: nat, blocklen: nat, numblocks: nat, repetitions: nat)
    requires 1 <= numblocks < 0x8000_0000 && start + blocklen * numblocks <= mem.Length
    modifies mem
    ensures mem[..] == IndepFill(old(mem[..]), start, blocklen, numblocks, repetitions, numblocks).mem
  {
    ghost var m0 := mem[..];
    var value: word := 1;
    var mask := 1;
    var toAddr: nat := start + blocklen;
    var i := 1;
    while i < numblocks
      invariant 1 <= i <= numblocks
      invariant mask == MaskAfter(i - 1)
      invariant toAddr == start + blocklen * i
      invariant Mixed(mem[..], value) == IndepFill(m0, start, blocklen, numblocks, repetitions, i)
    {
      value, mask := HashIndependentBlock(mem, value, start, blocklen, numblocks, repetitions, i, mask, toAddr);
      BlockInRun(start, blocklen, i, numblocks);
      toAddr := toAddr + blocklen;
      i := i + 1;
    }
  }

  /**
   * hashWithoutPassword(p): the thread key from H decoded into memory at
   * KeyAddress (word 0 as written), then blocks 1 .. numblocks - 1 of thread
   * p's independent segment filled.
   */
  method HashWithoutPassword(pl: KeyPlacement, h: KeyedHash, p: nat, wordHash: array<word>, mem: array<word>,
                             blocklen: nat, numblocks: nat, parallelism: nat, repetitions: nat)
    requires wordHash != mem
    requires p < parallelism <= TWO32 && 1 <= numblocks < 0x8000_0000
    requires 2 * parallelism * numblocks * blocklen <= mem.Length
    modifies mem
    ensures mem[..] == IndependentPass(pl, old(mem[..]), h, wordHash[..], p, parallelism, blocklen, numblocks, repetitions)
  {
    ghost var m0 := mem[..];
    var start := SegmentStart(p, numblocks, blocklen);
    IndependentSegment(p, parallelism, numblocks, blocklen);
    BlockInRun(start, blocklen, 0, numblocks);
    var keyAt := if pl == AtWordZero then 0 else start;
    WriteThreadKey(h, p, wordHash, mem, keyAt, blocklen);
    ghost var m1 := mem[..];
    assert IndependentPass(pl, m0, h, wordHash[..], p, parallelism, blocklen, numblocks, repetitions)
        == IndepFill(m1, start, blocklen, numblocks, repetitions, numblocks).mem;
    FillIndependentBlocks(mem, start, blocklen, numblocks, repetitions);
  }

  /** One round of hashWithPassword's loop: block i mixed from the block before it and the block its distance selects. */
  method HashDependentBlock(p: nat, mem: array<word>, value: word, blocklen: nat, numblocks: nat,
                            parallelism: nat, repetitions: nat, i: nat, toAddr: nat)
    returns (result: word)
    requires p < parallelism && i < numblocks < 0x8000_0000
    requires 2 * parallelism * numblocks * blocklen <= mem.Length
    requires toAddr == DepStart(p, numblocks, blocklen) + blocklen * i
    modifies mem
    ensures Mixed(mem[..], result) == DepStep(Mixed(old(mem[..]), value), p, parallelism, blocklen, numblocks, repetitions, i)
  {
    var distance, fromAddr := DependentFromAddr(p, parallelism, numblocks, blocklen, i, value);
    DepBlocks(p, parallelism, numblocks, blocklen, i, distance);
    result := HashBlocks(mem, value, blocklen, fromAddr, toAddr, repetitions);
  }

  /** mem and running are what filling blocks 0 .. i - 1 of thread p's dependent segment makes of m0 and value. */
  ghost predicate DepReached(mem: seq<word>, running: word, m0: seq<word>, p: nat, par: nat, bl: nat, nb: nat,
                             reps: nat, value: word, i: nat)
    requires p < par && i <= nb <= 0x8000_0000 && 2 * par * nb * bl <= |m0|
  {
    Mixed(mem, running) == DepFill(m0, p, par, bl, nb, reps, value, i)
  }

  /**
   * hashWithPassword(p, value): blocks 0 .. numblocks - 1 of thread p's
   * dependent segment, each mixed by hashBlocks from the block before it
   * and the block chosen by the cubic distance of the running value.
   */
  method HashWithPassword(p: nat, mem: array<word>, blocklen: nat, numblocks: nat, parallelism: nat,
                          repetitions: nat, value: word)
    requires p < parallelism && 1 <= numblocks < 0x8000_0000
    requires 2 * parallelism * numblocks * blocklen <= mem.Length
    modifies mem
    ensures mem[..] == DepFill(old(mem[..]), p, parallelism, blocklen, numblocks, repetitions, value, numblocks).mem
  {
    ghost var m0 := mem[..];
    var start := DepStart(p, numblocks, blocklen);
    var toAddr: nat := start;
    var running := value;
    var i: nat := 0;
    while i < numblocks
      invariant i <= numblocks && toAddr == start + blocklen * i
      invariant DepReached(mem[..], running, m0, p, parallelism, blocklen, numblocks, repetitions, value, i)
    {
      running := HashDependentBlock(p, mem, running, blocklen, numblocks, parallelism, repetitions, i, toAddr);
      NextBlock(start, blocklen, i);
      toAddr := toAddr + blocklen;
      i := i + 1;
    }
  }

  // ---------------------------------------------------------------------
  // One garlic level: every independent pass, every dependent pass, then
  // the XOR into the hash.
  // ---------------------------------------------------------------------

  /** What NoelKDF carries from level to level: the hash as words, and memory. */
  datatype State = State(wordHash: seq<word>, mem: seq<word>)

  /** A level with numblocks blocks per segment fits the memory and the hash fits one segment. */
  predicate LevelFits(par: nat, bl: nat, nb: nat, len: nat, hashlen: nat)
  {
    1 <= par <= TWO32 && bl >= 1 && 1 <= nb < 0x8000_0000 && 2 * par * nb * bl <= len && hashlen <= 2 * nb * bl
  }

  /** Independent passes of threads 0 .. p - 1, one after the other. */
  function IndepAll(pl: KeyPlacement, m: seq<word>, h: KeyedHash, wordHash: seq<word>, par: nat, bl: nat, nb: nat,
                    reps: nat, p: nat): (r: seq<word>)
    requires p <= par <= TWO32 && nb >= 1 && 2 * par * nb * bl <= |m|
    ensures |r| == |m|
    decreases p, 1
  {
    if p == 0 then m
    else PassOn(pl, m, h, wordHash, par, bl, nb, reps, p)
  }

  /** The memory after the passes of threads 0 .. p - 1, p >= 1: thread p - 1's pass over what the others left. */
  function PassOn(pl: KeyPlacement, m: seq<word>, h: KeyedHash, wordHash: seq<word>, par: nat, bl: nat, nb: nat,
                  reps: nat, p: nat): (r: seq<word>)
    requires 1 <= p <= par <= TWO32 && nb >= 1 && 2 * par * nb * bl <= |m|
    ensures |r| == |m|
    decreases p, 0
  {
    IndependentPass(pl, IndepAll(pl, m, h, wordHash, par, bl, nb, reps, p - 1), h, wordHash, p - 1, par, bl, nb, reps)
  }

  /** The last word of the first block of thread p's independent segment lies inside the level. */
  lemma KeyWordInLevel(p: nat, par: nat, bl: nat, nb: nat)
    requires p < par && nb >= 1 && bl >= 1
    ensures SegmentStart(p, nb, bl) + bl <= 2 * par * nb * bl
  {
    IndependentSegment(p, par, nb, bl);
    BlockInRun(SegmentStart(p, nb, bl), bl, 0, nb);
  }

  /**
   * The words the first loop of a level adds up, in order: for each thread
   * q < p the last word of the first block of thread q's independent
   * segment, read right after thread q's pass.
   */
  function KeyReads(pl: KeyPlacement, m: seq<word>, h: KeyedHash, wordHash: seq<word>, par: nat, bl: nat, nb: nat,
                    reps: nat, p: nat): (r: seq<word>)
    requires p <= par <= TWO32 && bl >= 1 && nb >= 1 && 2 * par * nb * bl <= |m|
    ensures |r| == p
  {
    if p == 0 then []
    else
      KeyWordInLevel(p - 1, par, bl, nb);
      KeyReads(pl, m, h, wordHash, par, bl, nb, reps, p - 1) +
      [IndepAll(pl, m, h, wordHash, par, bl, nb, reps, p)[SegmentStart(p - 1, nb, bl) + bl - 1]]
  }

  /** The memory after thread q's pass is that pass applied to what the threads before it left. */
  lemma IndepAllStep(pl: KeyPlacement, m: seq<word>, h: KeyedHash, wordHash: seq<word>, par: nat, bl: nat, nb: nat,
                     reps: nat, q: nat)
    requires q < par <= TWO32 && nb >= 1 && 2 * par * nb * bl <= |m|
    ensures IndepAll(pl, m, h, wordHash, par, bl, nb, reps, q + 1)
         == IndependentPass(pl, IndepAll(pl, m, h, wordHash, par, bl, nb, reps, q), h, wordHash, q, par, bl, nb, reps)
  {
  }

  /** Thread q's pass extends both the memory and the words read by one step. */
  lemma KeyReadsStep(pl: KeyPlacement, m: seq<word>, h: KeyedHash, wordHash: seq<word>, par: nat, bl: nat, nb: nat,
                     reps: nat, q: nat)
    requires q < par <= TWO32 && bl >= 1 && nb >= 1 && 2 * par * nb * bl <= |m|
    ensures SegmentStart(q, nb, bl) + bl <= |m|
    ensures IndepAll(pl, m, h, wordHash, par, bl, nb, reps, q + 1)
         == IndependentPass(pl, IndepAll(pl, m, h, wordHash, par, bl, nb, reps, q), h, wordHash, q, par, bl, nb, reps)
    ensures KeyReads(pl, m, h, wordHash, par, bl, nb, reps, q + 1)
         == KeyReads(pl, m, h, wordHash, par, bl, nb, reps, q)
            + [IndepAll(pl, m, h, wordHash, par, bl, nb, reps, q + 1)[SegmentStart(q, nb, bl) + bl - 1]]
  {
    KeyWordInLevel(q, par, bl, nb);
  }

  /** The last words of the thread keys of threads 0 .. p - 1. */
  function KeyWords(h: KeyedHash, wordHash: seq<word>, bl: nat, p: nat): (r: seq<word>)
    requires bl >= 1 && p <= TWO32
    ensures |r| == p
  {
    if p == 0 then [] else KeyWords(h, wordHash, bl, p - 1) + [Seed(h, wordHash, p - 1, bl)[bl - 1]]
  }

  /**
   * The word read after thread q's pass is the last word of q's key when
   * every key sits at its own segment, and for thread 0 under either placement.
   */
  lemma KeyWordRead(pl: KeyPlacement, m: seq<word>, h: KeyedHash, wordHash: seq<word>, par: nat, bl: nat, nb: nat,
                    reps: nat, q: nat)
    requires pl == AtSegmentStart || q == 0
    requires q < par <= TWO32 && bl >= 1 && nb >= 1 && 2 * par * nb * bl <= |m|
    ensures KeyReads(pl, m, h, wordHash, par, bl, nb, reps, q + 1)[q] == Seed(h, wordHash, q, bl)[bl - 1]
  {
    KeyReadsStep(pl, m, h, wordHash, par, bl, nb, reps, q);
    IndependentPassKeyWord(pl, IndepAll(pl, m, h, wordHash, par, bl, nb, reps, q), h, wordHash, q, par, bl, nb, reps);
  }

  /**
   * With every key at its own segment, the loop adds up the last words of
   * the thread keys: the value depends on the hash alone, not on what
   * memory held before the level.
   */
  lemma {:induction false} CorrectedReadsKeys(m: seq<word>, h: KeyedHash, wordHash: seq<word>, par: nat, bl: nat,
                                              nb: nat, reps: nat, p: nat)
    requires p <= par <= TWO32 && bl >= 1 && nb >= 1 && 2 * par * nb * bl <= |m|
    ensures KeyReads(AtSegmentStart, m, h, wordHash, par, bl, nb, reps, p) == KeyWords(h, wordHash, bl, p)
  {
    if p > 0 {
      var seen := KeyReads(AtSegmentStart, m, h, wordHash, par, bl, nb, reps, p);
      CorrectedReadsKeys(m, h, wordHash, par, bl, nb, reps, p - 1);
      KeyReadsPrefix(AtSegmentStart, m, h, wordHash, par, bl, nb, reps, p - 1, p);
      KeyWordRead(AtSegmentStart, m, h, wordHash, par, bl, nb, reps, p - 1);
      assert seen == seen[..p - 1] + [seen[p - 1]];
    }
  }

  /** The words read by the first q passes are a prefix of those read by the first p. */
  lemma {:induction false} KeyReadsPrefix(pl: KeyPlacement, m: seq<word>, h: KeyedHash, wordHash: seq<word>,
                                          par: nat, bl: nat, nb: nat, reps: nat, q: nat, p: nat)
    requires q <= p <= par <= TWO32 && bl >= 1 && nb >= 1 && 2 * par * nb * bl <= |m|
    ensures KeyReads(pl, m, h, wordHash, par, bl, nb, reps, p)[..q] == KeyReads(pl, m, h, wordHash, par, bl, nb, reps, q)
  {
    if q < p {
      KeyReadsPrefix(pl, m, h, wordHash, par, bl, nb, reps, q, p - 1);
      KeyReadsDropLast(pl, m, h, wordHash, par, bl, nb, reps, p);
      var cur := KeyReads(pl, m, h, wordHash, par, bl, nb, reps, p);
      assert cur[..q] == cur[..p - 1][..q];
    }
  }

  /** Dropping the last word read gives the words read by one thread fewer. */
  lemma KeyReadsDropLast(pl: KeyPlacement, m: seq<word>, h: KeyedHash, wordHash: seq<word>,
                         par: nat, bl: nat, nb: nat, reps: nat, p: nat)
    requires 1 <= p <= par <= TWO32 && bl >= 1 && nb >= 1 && 2 * par * nb * bl <= |m|
    ensures KeyReads(pl, m, h, wordHash, par, bl, nb, reps, p)[..p - 1] == KeyReads(pl, m, h, wordHash, par, bl, nb, reps, p - 1)
  {
    KeyWordInLevel(p - 1, par, bl, nb);
    var prev := KeyReads(pl, m, h, wordHash, par, bl, nb, reps, p - 1);
    var last := IndepAll(pl, m, h, wordHash, par, bl, nb, reps, p)[SegmentStart(p - 1, nb, bl) + bl - 1];
    assert KeyReads(pl, m, h, wordHash, par, bl, nb, reps, p) == prev + [last];
    assert (prev + [last])[..p - 1] == prev;
  }

  /** As written, no pass ever writes the last word of the first block of a thread q >= 1. */
  lemma AtZeroKeepsKeyWord(m: seq<word>, h: KeyedHash, wordHash: seq<word>, par: nat, bl: nat,
                           nb: nat, reps: nat, q: nat, n: nat)
    requires 1 <= q < par <= TWO32 && n <= par && bl >= 1 && nb >= 1 && 2 * par * nb * bl <= |m|
    ensures SegmentStart(q, nb, bl) + bl - 1 < |m|
    ensures IndepAll(AtWordZero, m, h, wordHash, par, bl, nb, reps, n)[SegmentStart(q, nb, bl) + bl - 1]
         == m[SegmentStart(q, nb, bl) + bl - 1]
  {
    KeyWordInLevel(q, par, bl, nb);
    var k := SegmentStart(q, nb, bl) + bl - 1;
    forall j | 0 <= j < n
      ensures OutsidePass(AtWordZero, k, j, nb, bl)
    {
      KeyWordOutsideAtZeroPass(j, q, nb, bl);
    }
    IndepAllKeeps(AtWordZero, m, h, wordHash, par, bl, nb, reps, 0, n, k);
  }

  /** Word k lies outside thread j's key and outside blocks 1 .. numblocks - 1 of its independent segment. */
  predicate OutsidePass(pl: KeyPlacement, k: nat, j: nat, nb: nat, bl: nat)
  {
    (k < KeyAddress(pl, j, nb, bl) || KeyAddress(pl, j, nb, bl) + bl <= k) &&
    (k < SegmentStart(j, nb, bl) + bl || SegmentStart(j, nb, bl) + bl * nb <= k)
  }

  /** The pass of thread n - 1 leaves every word outside its key and its blocks 1 .. numblocks - 1 alone. */
  lemma IndepAllFrame(pl: KeyPlacement, m: seq<word>, h: KeyedHash, wordHash: seq<word>, par: nat, bl: nat, nb: nat,
                      reps: nat, n: nat, k: nat)
    requires 1 <= n <= par <= TWO32 && nb >= 1 && 2 * par * nb * bl <= |m| && k < |m|
    requires OutsidePass(pl, k, n - 1, nb, bl)
    ensures IndepAll(pl, m, h, wordHash, par, bl, nb, reps, n)[k] == IndepAll(pl, m, h, wordHash, par, bl, nb, reps, n - 1)[k]
  {
    var j := n - 1;
    IndepAllStep(pl, m, h, wordHash, par, bl, nb, reps, j);
    IndependentPassFrame(pl, IndepAll(pl, m, h, wordHash, par, bl, nb, reps, j), h, wordHash, j, par, bl, nb, reps, k);
  }

  /** A word of the key's block that the fill of thread n - 1 does not reach holds the thread key's word after it. */
  lemma IndepAllKeyBlock(pl: KeyPlacement, m: seq<word>, h: KeyedHash, wordHash: seq<word>, par: nat, bl: nat, nb: nat,
                         reps: nat, n: nat, k: nat)
    requires 1 <= n <= par <= TWO32 && nb >= 1 && 2 * par * nb * bl <= |m|
    requires KeyAddress(pl, n - 1, nb, bl) <= k < KeyAddress(pl, n - 1, nb, bl) + bl
    requires k < SegmentStart(n - 1, nb, bl) + bl || SegmentStart(n - 1, nb, bl) + bl * nb <= k
    ensures k < |m|
    ensures IndepAll(pl, m, h, wordHash, par, bl, nb, reps, n)[k] == Seed(h, wordHash, n - 1, bl)[k - KeyAddress(pl, n - 1, nb, bl)]
  {
    var j := n - 1;
    IndepAllStep(pl, m, h, wordHash, par, bl, nb, reps, j);
    IndependentPassKeyBlock(pl, IndepAll(pl, m, h, wordHash, par, bl, nb, reps, j), h, wordHash, j, par, bl, nb, reps, k);
  }

  /**
   * A word that none of the passes of threads from .. n - 1 writes keeps,
   * after them, the value it had after the passes before.
   */
  lemma {:induction false} IndepAllKeeps(pl: KeyPlacement, m: seq<word>, h: KeyedHash, wordHash: seq<word>, par: nat,
                                         bl: nat, nb: nat, reps: nat, from: nat, n: nat, k: nat)
    requires from <= n <= par <= TWO32 && nb >= 1 && 2 * par * nb * bl <= |m| && k < |m|
    requires forall j :: from <= j < n ==> OutsidePass(pl, k, j, nb, bl)
    ensures IndepAll(pl, m, h, wordHash, par, bl, nb, reps, n)[k] == IndepAll(pl, m, h, wordHash, par, bl, nb, reps, from)[k]
    decreases n
  {
    if from < n {
      assert IndepAll(pl, m, h, wordHash, par, bl, nb, reps, n - 1)[k]
          == IndepAll(pl, m, h, wordHash, par, bl, nb, reps, from)[k] by {
        IndepAllKeeps(pl, m, h, wordHash, par, bl, nb, reps, from, n - 1, k);
      }
      assert OutsidePass(pl, k, n - 1, nb, bl);
      IndepAllFrame(pl, m, h, wordHash, par, bl, nb, reps, n, k);
    }
  }

  /** Under either placement the first word read is the last word of thread 0's key. */
  lemma {:induction false} FirstReadIsKeyWord(pl: KeyPlacement, m: seq<word>, h: KeyedHash, wordHash: seq<word>,
                                              par: nat, bl: nat, nb: nat, reps: nat, p: nat)
    requires 1 <= p <= par <= TWO32 && bl >= 1 && nb >= 1 && 2 * par * nb * bl <= |m|
    ensures KeyReads(pl, m, h, wordHash, par, bl, nb, reps, p)[0] == Seed(h, wordHash, 0, bl)[bl - 1]
  {
    if p == 1 {
      KeyWordRead(pl, m, h, wordHash, par, bl, nb, reps, 0);
    } else {
      FirstReadIsKeyWord(pl, m, h, wordHash, par, bl, nb, reps, p - 1);
    }
  }

  /**
   * As written the loop reads thread 0's key word and then, for every other
   * thread q, the word memory held before the level at the first block of
   * q's segment: for parallelism >= 2 the value depends on memory that, at
   * the first level, malloc left unset.
   */
  lemma AsWrittenReadsMemory(m: seq<word>, h: KeyedHash, wordHash: seq<word>, par: nat, bl: nat, nb: nat,
                             reps: nat, q: nat, p: nat)
    requires 1 <= q < p <= par <= TWO32 && bl >= 1 && nb >= 1 && 2 * par * nb * bl <= |m|
    ensures SegmentStart(q, nb, bl) + bl - 1 < |m|
    ensures KeyReads(AtWordZero, m, h, wordHash, par, bl, nb, reps, p)[q] == m[SegmentStart(q, nb, bl) + bl - 1]
  {
    KeyReadAt(AtWordZero, m, h, wordHash, par, bl, nb, reps, q, p);
    AtZeroKeepsKeyWord(m, h, wordHash, par, bl, nb, reps, q, q + 1);
  }

  /** Word q of the loop's reads is the last word of thread q's first block, read right after thread q's pass. */
  lemma KeyReadAt(pl: KeyPlacement, m: seq<word>, h: KeyedHash, wordHash: seq<word>, par: nat, bl: nat, nb: nat,
                  reps: nat, q: nat, p: nat)
    requires q < p <= par <= TWO32 && bl >= 1 && nb >= 1 && 2 * par * nb * bl <= |m|
    ensures SegmentStart(q, nb, bl) + bl - 1 < |m|
    ensures KeyReads(pl, m, h, wordHash, par, bl, nb, reps, p)[q]
         == IndepAll(pl, m, h, wordHash, par, bl, nb, reps, q + 1)[SegmentStart(q, nb, bl) + bl - 1]
  {
    KeyReadsPrefix(pl, m, h, wordHash, par, bl, nb, reps, q + 1, p);
    KeyReadsStep(pl, m, h, wordHash, par, bl, nb, reps, q);
    var seen := KeyReads(pl, m, h, wordHash, par, bl, nb, reps, p);
    assert seen[q] == seen[..q + 1][q];
  }

  /** mem holds what the independent passes of threads 0 .. p - 1 make of m0, and value the sum of what they read. */
  ghost predicate IndepReached(pl: KeyPlacement, mem: seq<word>, value: word, m0: seq<word>, h: KeyedHash,
                               wordHash: seq<word>, par: nat, bl: nat, nb: nat, reps: nat, p: nat)
    requires p <= par <= TWO32 && bl >= 1 && nb >= 1 && 2 * par * nb * bl <= |m0|
  {
    mem == IndepAll(pl, m0, h, wordHash, par, bl, nb, reps, p) &&
    value == WrapSum(KeyReads(pl, m0, h, wordHash, par, bl, nb, reps, p))
  }

  /**
   * The first loop of a garlic level: hashWithoutPassword for every thread,
   * adding the last word of the first block of the thread's independent
   * segment to value after each.
   */
  method IndependentPasses(pl: KeyPlacement, h: KeyedHash, wordHash: array<word>, mem: array<word>, blocklen: nat,
                           numblocks: nat, parallelism: nat, repetitions: nat)
    returns (value: word)
    requires wordHash != mem && 1 <= parallelism <= TWO32 && blocklen >= 1 && 1 <= numblocks < 0x8000_0000
    requires 2 * parallelism * numblocks * blocklen <= mem.Length
    modifies mem
    ensures mem[..] == IndepAll(pl, old(mem[..]), h, wordHash[..], parallelism, blocklen, numblocks, repetitions, parallelism)
    ensures value == WrapSum(KeyReads(pl, old(mem[..]), h, wordHash[..], parallelism, blocklen, numblocks, repetitions,
                                      parallelism))
  {
    ghost var m0 := mem[..];
    ghost var hw := wordHash[..];
    value := 0;
    var p: nat := 0;
    while p < parallelism
      invariant p <= parallelism && wordHash[..] == hw
      invariant IndepReached(pl, mem[..], value, m0, h, hw, parallelism, blocklen, numblocks, repetitions, p)
    {
      value := IndependentRound(pl, h, p, wordHash, mem, blocklen, numblocks, parallelism, repetitions, value, m0);
      p := p + 1;
    }
  }

  /** Round p of that loop takes it from p threads done to p + 1. */
  method IndependentRound(pl: KeyPlacement, h: KeyedHash, p: nat, wordHash: array<word>, mem: array<word>,
                          blocklen: nat, numblocks: nat, parallelism: nat, repetitions: nat, value: word,
                          ghost m0: seq<word>)
    returns (newValue: word)
    requires wordHash != mem && p < parallelism <= TWO32 && blocklen >= 1 && 1 <= numblocks < 0x8000_0000
    requires 2 * parallelism * numblocks * blocklen <= |m0| == mem.Length
    requires IndepReached(pl, mem[..], value, m0, h, wordHash[..], parallelism, blocklen, numblocks, repetitions, p)
    modifies mem
    ensures IndepReached(pl, mem[..], newValue, m0, h, wordHash[..], parallelism, blocklen, numblocks, repetitions,
                         p + 1)
  {
    ghost var before := mem[..];
    newValue := IndependentPassAndKey(pl, h, p, wordHash, mem, blocklen, numblocks, parallelism, repetitions, value);
    IndepReachedNext(pl, before, value, mem[..], newValue, m0, h, wordHash[..], parallelism, blocklen, numblocks,
                     repetitions, p);
  }

  /** Thread p's pass, and the word it reads added to the sum, take the loop from p threads done to p + 1. */
  lemma IndepReachedNext(pl: KeyPlacement, mem: seq<word>, value: word, mem': seq<word>, value': word, m0: seq<word>,
                         h: KeyedHash, wordHash: seq<word>, par: nat, bl: nat, nb: nat, reps: nat, p: nat)
    requires p < par <= TWO32 && bl >= 1 && nb >= 1 && 2 * par * nb * bl <= |m0|
    requires IndepReached(pl, mem, value, m0, h, wordHash, par, bl, nb, reps, p)
    requires mem' == IndependentPass(pl, mem, h, wordHash, p, par, bl, nb, reps)
    requires SegmentStart(p, nb, bl) + bl <= |mem'|
    requires value' == Add32(value, mem'[SegmentStart(p, nb, bl) + bl - 1])
    ensures IndepReached(pl, mem', value', m0, h, wordHash, par, bl, nb, reps, p + 1)
  {
    KeyReadsStep(pl, m0, h, wordHash, par, bl, nb, reps, p);
    var seen := KeyReads(pl, m0, h, wordHash, par, bl, nb, reps, p + 1);
    assert seen[..p] == KeyReads(pl, m0, h, wordHash, par, bl, nb, reps, p);
  }

  /** One round of that loop: thread p's independent pass, then the word it reads added to value. */
  method IndependentPassAndKey(pl: KeyPlacement, h: KeyedHash, p: nat, wordHash: array<word>, mem: array<word>,
                               blocklen: nat, numblocks: nat, parallelism: nat, repetitions: nat, value: word)
    returns (newValue: word)
    requires wordHash != mem && p < parallelism <= TWO32 && blocklen >= 1 && 1 <= numblocks < 0x8000_0000
    requires 2 * parallelism * numblocks * blocklen <= mem.Length
    modifies mem
    ensures mem[..] == IndependentPass(pl, old(mem[..]), h, wordHash[..], p, parallelism, blocklen, numblocks, repetitions)
    ensures SegmentStart(p, numblocks, blocklen) + blocklen <= mem.Length
    ensures newValue == Add32(value, mem[SegmentStart(p, numblocks, blocklen) + blocklen - 1])
  {
    HashWithoutPassword(pl, h, p, wordHash, mem, blocklen, numblocks, parallelism, repetitions);
    KeyWordInLevel(p, parallelism, blocklen, numblocks);
    newValue := Add32(value, mem[SegmentStart(p, numblocks, blocklen) + blocklen - 1]);
  }

  /** The second loop of a garlic level: hashWithPassword for every thread, all from the same value. */
  method DependentPasses(mem: array<word>, blocklen: nat, numblocks: nat, parallelism: nat,
                         repetitions: nat, value: word)
    requires 1 <= numblocks < 0x8000_0000 && 2 * parallelism * numblocks * blocklen <= mem.Length
    modifies mem
    ensures mem[..] == DepAll(old(mem[..]), parallelism, blocklen, numblocks, repetitions, value, parallelism)
  {
    ghost var m0 := mem[..];
    var p: nat := 0;
    while p < parallelism
      invariant p <= parallelism
      invariant mem[..] == DepAll(m0, parallelism, blocklen, numblocks, repetitions, value, p)
    {
      HashWithPassword(p, mem, blocklen, numblocks, parallelism, repetitions, value);
      p := p + 1;
    }
  }

  /**
   * One garlic level: the independent passes of all threads, the dependent
   * passes of all threads from the summed value, then the last hashlen words
   * of every dependent segment XOR-ed into the hash.
   */
  function Level(pl: KeyPlacement, st: State, h: KeyedHash, par: nat, bl: nat, nb: nat, reps: nat): (r: State)
    requires LevelFits(par, bl, nb, |st.mem|, |st.wordHash|)
    ensures |r.mem| == |st.mem| && |r.wordHash| == |st.wordHash|
  {
    var ind := IndepAll(pl, st.mem, h, st.wordHash, par, bl, nb, reps, par);
    var dep := DepAll(ind, par, bl, nb, reps, WrapSum(KeyReads(pl, st.mem, h, st.wordHash, par, bl, nb, reps, par)), par);
    State(XorAll(st.wordHash, dep, bl, nb, par), dep)
  }

  /** numblocks doubled j times. */
  function Doubled(nb: nat, j: nat): nat
  {
    if j == 0 then nb else 2 * Doubled(nb, j - 1)
  }

  /** Doubling j times multiplies by 2^j. */
  lemma {:induction false} DoubledIsProduct(nb: nat, j: nat)
    ensures Doubled(nb, j) == nb * Pow2(j)
  {
    if j > 0 {
      DoubledIsProduct(nb, j - 1);
      MulAssoc(nb, 2, Pow2(j - 1));
    }
  }

  /** The levels with numblocks, 2 numblocks, ..., 2^(n-1) numblocks blocks per segment all fit. */
  predicate LevelsFit(par: nat, bl: nat, nb: nat, n: nat, len: nat, hashlen: nat)
    decreases n, 0
  {
    n == 0 || LevelsFitThrough(par, bl, nb, n - 1, len, hashlen)
  }

  /** Levels 0 .. j all fit. */
  predicate LevelsFitThrough(par: nat, bl: nat, nb: nat, j: nat, len: nat, hashlen: nat)
    decreases j, 1
  {
    LevelsFit(par, bl, nb, j, len, hashlen) && LevelFits(par, bl, Doubled(nb, j), len, hashlen)
  }

  /** If the first n levels fit, so do the first m for m <= n. */
  lemma {:induction false} LevelsFitPrefix(par: nat, bl: nat, nb: nat, n: nat, m: nat, len: nat, hashlen: nat)
    requires LevelsFit(par, bl, nb, n, len, hashlen) && m <= n
    ensures LevelsFit(par, bl, nb, m, len, hashlen)
  {
    if m < n {
      assert LevelsFitThrough(par, bl, nb, n - 1, len, hashlen);
      LevelsFitPrefix(par, bl, nb, n - 1, m, len, hashlen);
    }
  }

  /** The state after n garlic levels, numblocks doubling from one level to the next. */
  function Garlic(pl: KeyPlacement, st: State, h: KeyedHash, par: nat, bl: nat, nb: nat, reps: nat, n: nat): (r: State)
    requires LevelsFit(par, bl, nb, n, |st.mem|, |st.wordHash|)
    ensures |r.mem| == |st.mem| && |r.wordHash| == |st.wordHash|
    decreases n, 0
  {
    if n == 0 then st else AfterLevel(pl, st, h, par, bl, nb, reps, n - 1)
  }

  /** The state after level j (counting from 0), run on the state the levels before it left. */
  function AfterLevel(pl: KeyPlacement, st: State, h: KeyedHash, par: nat, bl: nat, nb: nat, reps: nat, j: nat): (r: State)
    requires LevelsFitThrough(par, bl, nb, j, |st.mem|, |st.wordHash|)
    ensures |r.mem| == |st.mem| && |r.wordHash| == |st.wordHash|
    decreases j, 1
  {
    Level(pl, Garlic(pl, st, h, par, bl, nb, reps, j), h, par, bl, Doubled(nb, j), reps)
  }

  /** One more level: the level after the first n, with numblocks doubled n times. */
  lemma GarlicNext(pl: KeyPlacement, st: State, h: KeyedHash, par: nat, bl: nat, nb: nat, reps: nat, n: nat)
    requires LevelsFit(par, bl, nb, n + 1, |st.mem|, |st.wordHash|)
    ensures LevelsFit(par, bl, nb, n, |st.mem|, |st.wordHash|)
    ensures var before := Garlic(pl, st, h, par, bl, nb, reps, n);
      LevelFits(par, bl, Doubled(nb, n), |before.mem|, |before.wordHash|) &&
      Garlic(pl, st, h, par, bl, nb, reps, n + 1) == Level(pl, before, h, par, bl, Doubled(nb, n), reps)
  {
    assert LevelsFitThrough(par, bl, nb, n, |st.mem|, |st.wordHash|);
    assert Garlic(pl, st, h, par, bl, nb, reps, n + 1) == AfterLevel(pl, st, h, par, bl, nb, reps, n);
  }

  /** One garlic level: the independent passes, the dependent passes, then xorIntoHash. */
  method RunLevel(pl: KeyPlacement, h: KeyedHash, wordHash: array<word>, mem: array<word>, blocklen: nat, numblocks: nat,
                  parallelism: nat, repetitions: nat)
    requires wordHash != mem && LevelFits(parallelism, blocklen, numblocks, mem.Length, wordHash.Length)
    modifies wordHash, mem
    ensures State(wordHash[..], mem[..]) == Level(pl, State(old(wordHash[..]), old(mem[..])), h, parallelism, blocklen, numblocks, repetitions)
  {
    var value := IndependentPasses(pl, h, wordHash, mem, blocklen, numblocks, parallelism, repetitions);
    DependentPasses(mem, blocklen, numblocks, parallelism, repetitions, value);
    XorIntoHash(wordHash, mem, blocklen, numblocks, parallelism);
  }

  // ---------------------------------------------------------------------
  // NoelKDF: the garlic loop
  // ---------------------------------------------------------------------

  /**
   * What NoelKDF relies on beyond verifyParameters: the hash is no longer
   * than one thread's two segments at the first level, so xorIntoHash reads
   * inside memory (see VerifyAcceptsHashBeyondSegment), and every address
   * lies below 2^32, since hashBlocks and the passes compute addresses in
   * 32 bits.
   */
  predicate EngineFits(hashSize: word, memSize: word, stopGarlic: word, blockSize: word, parallelism: word)
    requires blockSize >= 4 && parallelism >= 1
  {
    var bl := blockSize / 4;
    hashSize / 4 <= 2 * NumBlocks(memSize, bl, parallelism) * bl &&
    MemWords(memSize, blockSize, parallelism, stopGarlic) < TWO32
  }

  /**
   * The parameters NoelKDF runs on: verifyParameters accepts them (the
   * password and salt sizes play no part here) and they fit.
   */
  predicate EngineParameters(hashSize: word, memSize: word, startGarlic: word, stopGarlic: word,
                             blockSize: word, parallelism: word, repetitions: word)
  {
    VerifyParameters(hashSize, 1, 1, memSize, startGarlic, stopGarlic, 0, blockSize, parallelism, repetitions) &&
    EngineFits(hashSize, memSize, stopGarlic, blockSize, parallelism)
  }

  /**
   * Arithmetic behind the garlic loop: with Q <= P, a level with Q times
   * the first level's blocks fits a memory of P first levels below 2^32
   * words, and a hash that fits two segments of the first level fits two
   * of this one.
   */
  lemma ScaledLevelFits(par: nat, bl: nat, nb0: nat, P: nat, Q: nat, hashlen: nat)
    requires par >= 1 && bl >= 1 && nb0 >= 1 && 1 <= Q <= P && hashlen <= 2 * nb0 * bl
    requires P * (2 * par * nb0 * bl) < TWO32
    ensures var nb := nb0 * Q;
      1 <= nb < 0x8000_0000 && 2 * par * nb * bl <= P * (2 * par * nb0 * bl) && hashlen <= 2 * nb * bl
  {
    var L := 2 * par * nb0 * bl;
    var nb := nb0 * Q;
    MulMono(nb0, 1, Q);
    var c := 2 * par * bl;
    assert 2 * par * nb * bl == c * nb by {
      MulAssoc(2 * par, nb, bl);
    }
    assert L == c * nb0 by {
      MulAssoc(2 * par, nb0, bl);
    }
    assert c * nb == Q * L by {
      MulAssoc(c, nb0, Q);
    }
    MulMono(L, Q, P);
    MulMono(nb, 2, c);
    MulMono(bl, 2 * nb0, 2 * nb);
    assert 2 * nb * bl == bl * (2 * nb) && 2 * nb0 * bl == bl * (2 * nb0);
  }

  /** Level j of a run: 2^j times the first level's blocks still fit the memory malloc'd. */
  lemma LevelFitsAt(memSize: word, blockSize: word, parallelism: word, stopGarlic: word, hashSize: word, j: nat)
    requires blockSize >= 4 && blockSize % 4 == 0 && 1 <= parallelism <= TWO32
    requires blockSize * parallelism <= memSize * 0x40000
    requires hashSize / 4 <= 2 * NumBlocks(memSize, blockSize / 4, parallelism) * (blockSize / 4)
    requires j <= stopGarlic && MemWords(memSize, blockSize, parallelism, stopGarlic) < TWO32
    ensures var bl := blockSize / 4; var nb := Doubled(NumBlocks(memSize, bl, parallelism), j);
      LevelFits(parallelism, bl, nb, MemWords(memSize, blockSize, parallelism, stopGarlic), hashSize / 4)
  {
    var bl := blockSize / 4;
    var nb0 := NumBlocks(memSize, bl, parallelism);
    NumBlocksAtLeastTwo(memSize, blockSize, parallelism);
    DoubledIsProduct(nb0, j);
    Pow2Monotone(j, stopGarlic);
    ScaledLevelFits(parallelism, bl, nb0, Pow2(stopGarlic), Pow2(j), hashSize / 4);
  }

  /** All stopGarlic + 1 - startGarlic levels of a run fit. */
  lemma EngineLevelsFit(hashSize: word, memSize: word, startGarlic: word, stopGarlic: word,
                        blockSize: word, parallelism: word, repetitions: word)
    requires EngineParameters(hashSize, memSize, startGarlic, stopGarlic, blockSize, parallelism, repetitions)
    ensures var bl := blockSize / 4;
      LevelsFit(parallelism, bl, NumBlocks(memSize, bl, parallelism), stopGarlic + 1 - startGarlic,
                MemWords(memSize, blockSize, parallelism, stopGarlic), hashSize / 4)
  {
    LevelsFitBelow(hashSize, memSize, stopGarlic, blockSize, parallelism, stopGarlic + 1 - startGarlic);
  }

  /** The first n levels fit, for any n up to stopGarlic + 1. */
  lemma {:induction false} LevelsFitBelow(hashSize: word, memSize: word, stopGarlic: word, blockSize: word,
                                          parallelism: word, n: nat)
    requires blockSize >= 4 && blockSize % 4 == 0 && 1 <= parallelism <= TWO32
    requires blockSize * parallelism <= memSize * 0x40000
    requires hashSize / 4 <= 2 * NumBlocks(memSize, blockSize / 4, parallelism) * (blockSize / 4)
    requires n <= stopGarlic + 1 && MemWords(memSize, blockSize, parallelism, stopGarlic) < TWO32
    ensures LevelsFit(parallelism, blockSize / 4, NumBlocks(memSize, blockSize / 4, parallelism), n,
                      MemWords(memSize, blockSize, parallelism, stopGarlic), hashSize / 4)
  {
    if n > 0 {
      LevelsFitBelow(hashSize, memSize, stopGarlic, blockSize, parallelism, n - 1);
      LevelFitsAt(memSize, blockSize, parallelism, stopGarlic, hashSize, n - 1);
      assert LevelsFitThrough(parallelism, blockSize / 4, NumBlocks(memSize, blockSize / 4, parallelism), n - 1,
                              MemWords(memSize, blockSize, parallelism, stopGarlic), hashSize / 4);
    }
  }

  /** wordHash and mem hold the state n garlic levels leave, starting from st0. */
  ghost predicate AtLevel(pl: KeyPlacement, wordHash: seq<word>, mem: seq<word>, st0: State, h: KeyedHash, par: nat, bl: nat,
                          nb0: nat, reps: nat, n: nat)
  {
    LevelsFit(par, bl, nb0, n, |st0.mem|, |st0.wordHash|) &&
    State(wordHash, mem) == Garlic(pl, st0, h, par, bl, nb0, reps, n)
  }

  /** Level n + 1 of a run, computed in place from level n. */
  method GarlicStep(pl: KeyPlacement, h: KeyedHash, wordHash: array<word>, mem: array<word>, blocklen: nat, numblocks: nat,
                    parallelism: nat, repetitions: nat, ghost st0: State, ghost nb0: nat, ghost n: nat)
    requires wordHash != mem && numblocks == Doubled(nb0, n)
    requires LevelsFitThrough(parallelism, blocklen, nb0, n, |st0.mem|, |st0.wordHash|)
    requires AtLevel(pl, wordHash[..], mem[..], st0, h, parallelism, blocklen, nb0, repetitions, n)
    modifies wordHash, mem
    ensures AtLevel(pl, wordHash[..], mem[..], st0, h, parallelism, blocklen, nb0, repetitions, n + 1)
  {
    GarlicNext(pl, st0, h, parallelism, blocklen, nb0, repetitions, n);
    RunLevel(pl, h, wordHash, mem, blocklen, numblocks, parallelism, repetitions);
  }

  /**
   * The garlic loop: one level per garlic value, numblocks doubling after
   * each (levels is stopGarlic + 1 - startGarlic).
   */
  method RunGarlic(pl: KeyPlacement, h: KeyedHash, wordHash: array<word>, mem: array<word>, blocklen: nat, numblocks: nat,
                   parallelism: nat, repetitions: nat, levels: nat)
    requires wordHash != mem
    requires LevelsFit(parallelism, blocklen, numblocks, levels, mem.Length, wordHash.Length)
    modifies wordHash, mem
    ensures AtLevel(pl, wordHash[..], mem[..], State(old(wordHash[..]), old(mem[..])), h, parallelism, blocklen,
                    numblocks, repetitions, levels)
  {
    var nb := numblocks;
    var n := 0;
    while n != levels
      invariant n <= levels
      invariant nb == Doubled(numblocks, n)
      invariant AtLevel(pl, wordHash[..], mem[..], State(old(wordHash[..]), old(mem[..])), h, parallelism, blocklen,
                        numblocks, repetitions, n)
      decreases levels - n
    {
      LevelsFitPrefix(parallelism, blocklen, numblocks, levels, n + 1, mem.Length, wordHash.Length);
      GarlicStep(pl, h, wordHash, mem, blocklen, nb, parallelism, repetitions,
                 State(old(wordHash[..]), old(mem[..])), numblocks, n);
      nb := nb * 2;
      n := n + 1;
    }
  }

  /**
   * The hash NoelKDF computes from hash: garlic levels startGarlic ..
   * stopGarlic, numblocks starting at the first level's count whatever
   * startGarlic is, over memory that starts as junk.
   */
  function NoelKdfHash(pl: KeyPlacement, h: KeyedHash, hash: seq<byte>, memSize: word, startGarlic: word, stopGarlic: word,
                       blockSize: word, parallelism: word, repetitions: word, junk: nat -> word): (r: seq<byte>)
    requires |hash| < TWO32 && EngineParameters(|hash|, memSize, startGarlic, stopGarlic, blockSize, parallelism, repetitions)
    ensures |r| == |hash|
  {
    var bl := blockSize / 4;
    var st := State(Be32DecVect(hash), seq(MemWords(memSize, blockSize, parallelism, stopGarlic), k requires 0 <= k => junk(k)));
    EngineLevelsFit(|hash|, memSize, startGarlic, stopGarlic, blockSize, parallelism, repetitions);
    var last := Garlic(pl, st, h, parallelism, bl, NumBlocks(memSize, bl, parallelism), repetitions, stopGarlic + 1 - startGarlic);
    Be32EncVect(last.wordHash)
  }

  /**
   * NoelKDF: the hash as words, memory malloc'd (allocOk says whether
   * malloc succeeded; junk is what it holds), the garlic loop, then the
   * words back into hash.
   */
  method NoelKdf(pl: KeyPlacement, h: KeyedHash, hash: array<byte>, memSize: word, startGarlic: word, stopGarlic: word,
                 blockSize: word, parallelism: word, repetitions: word, allocOk: bool, junk: nat -> word)
    returns (ok: bool)
    requires hash.Length < TWO32
    requires EngineParameters(hash.Length, memSize, startGarlic, stopGarlic, blockSize, parallelism, repetitions)
    modifies hash
    ensures ok == allocOk
    ensures ok ==> hash[..] == NoelKdfHash(pl, h, old(hash[..]), memSize, startGarlic, stopGarlic, blockSize,
                                           parallelism, repetitions, junk)
    ensures !ok ==> hash[..] == old(hash[..])
  {
    var hashlen := hash.Length / 4;
    var wordHash := new word[hashlen];
    Be32DecInto(wordHash, 0, hash[..]);
    assert wordHash[..] == Be32DecVect(hash[..]);
    var blocklen := blockSize / 4;
    var numblocks := NumBlocks(memSize, blocklen, parallelism);
    if !allocOk {
      return false;
    }
    var mem := new word[MemWords(memSize, blockSize, parallelism, stopGarlic)](k requires 0 <= k => junk(k));
    ghost var st0 := State(wordHash[..], mem[..]);
    assert st0 == State(Be32DecVect(old(hash[..])),
                        seq(MemWords(memSize, blockSize, parallelism, stopGarlic), k requires 0 <= k => junk(k)));
    var levels: nat := stopGarlic + 1 - startGarlic;
    EngineLevelsFit(hash.Length, memSize, startGarlic, stopGarlic, blockSize, parallelism, repetitions);
    assert NoelKdfHash(pl, h, old(hash[..]), memSize, startGarlic, stopGarlic, blockSize, parallelism, repetitions, junk)
        == Be32EncVect(Garlic(pl, st0, h, parallelism, blocklen, numblocks, repetitions, levels).wordHash);
    RunGarlic(pl, h, wordHash, mem, blocklen, numblocks, parallelism, repetitions, levels);
    Be32EncInto(hash, wordHash[..]);
    ok := true;
  }

  // ---------------------------------------------------------------------
  // The password hashing entry points
  // ---------------------------------------------------------------------

  /** Parameters verifyParameters accepts and that fit are parameters the engine runs on. */
  lemma AcceptedRunEngine(hashSize: word, passwordSize: word, saltSize: word, memSize: word,
                          startGarlic: word, stopGarlic: word, dataSize: word, blockSize: word,
                          parallelism: word, repetitions: word)
    requires VerifyParameters(hashSize, passwordSize, saltSize, memSize, startGarlic, stopGarlic, dataSize,
                              blockSize, parallelism, repetitions)
    requires EngineFits(hashSize, memSize, stopGarlic, blockSize, parallelism)
    ensures EngineParameters(hashSize, memSize, startGarlic, stopGarlic, blockSize, parallelism, repetitions)
  {
  }

  /**
   * verifyParameters accepts a 1024-byte hash with 4-byte blocks and 65536
   * threads in 1 MiB: each segment is then 4 words long, so xorIntoHash's
   * first position, 2 * numblocks * blocklen - hashlen, lies below the start
   * of memory.
   */
  lemma VerifyAcceptsHashBeyondSegment()
    ensures VerifyParameters(1024, 1, 1, 1, 0, 0, 0, 4, 0x10000, 1)
    ensures 2 * NumBlocks(1, 1, 0x10000) * 1 < 1024 / 4
    ensures !EngineFits(1024, 1, 0, 4, 0x10000)
  {
    Pow2Of32();
    Pow2Add(16, 4);
    assert Pow2(20) == 0x10_0000;
    assert 0x40000 / 0x20000 == 2;
  }

  /** The bytes H makes before NoelKDF runs: from password and salt, or from password and a salt derived from data. */
  function InitialHash(h: KeyedHash, hashSize: nat, password: seq<byte>, salt: seq<byte>, data: seq<byte>): seq<byte>
  {
    if |data| != 0 then h(password, h(data, salt, |salt|), hashSize) else h(password, salt, hashSize)
  }

  /**
   * NoelKDF_SimpleHashPassword: verifyParameters with one thread, 4096-byte
   * blocks, garlic 0 and no data; then H(password, salt) into hash and
   * NoelKDF over it.
   */
  method SimpleHashPassword(h: KeyedHash, hash: array<byte>, password: seq<byte>, salt: seq<byte>, memSize: word,
                            allocOk: bool, junk: nat -> word)
    returns (ok: bool)
    requires hash.Length < TWO32 && |password| < TWO32 && |salt| < TWO32
    requires VerifyParameters(hash.Length, |password|, |salt|, memSize, 0, 0, 0, 4096, 1, 1) ==>
             EngineFits(hash.Length, memSize, 0, 4096, 1)
    modifies hash
    ensures ok <==> VerifyParameters(hash.Length, |password|, |salt|, memSize, 0, 0, 0, 4096, 1, 1) && allocOk
    ensures !VerifyParameters(hash.Length, |password|, |salt|, memSize, 0, 0, 0, 4096, 1, 1) ==>
            hash[..] == old(hash[..])
    ensures VerifyParameters(hash.Length, |password|, |salt|, memSize, 0, 0, 0, 4096, 1, 1) && !ok ==>
            hash[..] == InitialHash(h, hash.Length, password, salt, [])
    ensures ok ==> hash[..] == NoelKdfHash(AtWordZero, h, InitialHash(h, hash.Length, password, salt, []), memSize,
                                           0, 0, 4096, 1, 1, junk)
  {
    if !VerifyParameters(hash.Length, |password|, |salt|, memSize, 0, 0, 0, 4096, 1, 1) {
      return false;
    }
    AcceptedRunEngine(hash.Length, |password|, |salt|, memSize, 0, 0, 0, 4096, 1, 1);
    HashInto(h, hash, password, salt);
    ok := NoelKdf(AtWordZero, h, hash, memSize, 0, 0, 4096, 1, 1, allocOk, junk);
  }

  /**
   * NoelKDF_HashPassword: with data, H(data, salt) gives a derived salt of
   * saltSize bytes and hash is H(password, derived salt); without data (a
   * NULL pointer or dataSize 0, both an empty sequence here) hash is
   * H(password, salt); then NoelKDF from garlic 0 to garlic. passwordSize
   * is a uint8, so the password is shorter than 256 bytes.
   */
  method HashPassword(h: KeyedHash, hash: array<byte>, password: seq<byte>, salt: seq<byte>, memSize: word,
                      garlic: word, data: seq<byte>, blockSize: word, parallelism: word, repetitions: word,
                      allocOk: bool, junk: nat -> word)
    returns (ok: bool)
    requires hash.Length < TWO32 && |password| < 0x100 && |salt| < TWO32 && |data| < TWO32
    requires VerifyParameters(hash.Length, |password|, |salt|, memSize, 0, garlic, |data|, blockSize, parallelism,
                              repetitions) ==>
             EngineFits(hash.Length, memSize, garlic, blockSize, parallelism)
    modifies hash
    ensures ok <==> VerifyParameters(hash.Length, |password|, |salt|, memSize, 0, garlic, |data|, blockSize,
                                     parallelism, repetitions) && allocOk
    ensures !VerifyParameters(hash.Length, |password|, |salt|, memSize, 0, garlic, |data|, blockSize, parallelism,
                              repetitions) ==>
            hash[..] == old(hash[..])
    ensures VerifyParameters(hash.Length, |password|, |salt|, memSize, 0, garlic, |data|, blockSize, parallelism,
                             repetitions) && !ok ==>
            hash[..] == InitialHash(h, hash.Length, password, salt, data)
    ensures ok ==> hash[..] == NoelKdfHash(AtWordZero, h, InitialHash(h, hash.Length, password, salt, data), memSize,
                                           0, garlic, blockSize, parallelism, repetitions, junk)
  {
    ok := HashPasswordAnyLength(h, hash, password, salt, memSize, garlic, data, blockSize, parallelism, repetitions,
                                allocOk, junk);
  }

  /**
   * The body of NoelKDF_HashPassword for a password of any length below
   * 2^32, which is what PHS, passing a size_t inlen, evidently expects.
   */
  method HashPasswordAnyLength(h: KeyedHash, hash: array<byte>, password: seq<byte>, salt: seq<byte>, memSize: word,
                               garlic: word, data: seq<byte>, blockSize: word, parallelism: word, repetitions: word,
                               allocOk: bool, junk: nat -> word)
    returns (ok: bool)
    requires hash.Length < TWO32 && |password| < TWO32 && |salt| < TWO32 && |data| < TWO32
    requires VerifyParameters(hash.Length, |password|, |salt|, memSize, 0, garlic, |data|, blockSize, parallelism,
                              repetitions) ==>
             EngineFits(hash.Length, memSize, garlic, blockSize, parallelism)
    modifies hash
    ensures ok <==> VerifyParameters(hash.Length, |password|, |salt|, memSize, 0, garlic, |data|, blockSize,
                                     parallelism, repetitions) && allocOk
    ensures !VerifyParameters(hash.Length, |password|, |salt|, memSize, 0, garlic, |data|, blockSize, parallelism,
                              repetitions) ==>
            hash[..] == old(hash[..])
    ensures VerifyParameters(hash.Length, |password|, |salt|, memSize, 0, garlic, |data|, blockSize, parallelism,
                             repetitions) && !ok ==>
            hash[..] == InitialHash(h, hash.Length, password, salt, data)
    ensures ok ==> hash[..] == NoelKdfHash(AtWordZero, h, InitialHash(h, hash.Length, password, salt, data), memSize,
                                           0, garlic, blockSize, parallelism, repetitions, junk)
  {
    if !VerifyParameters(hash.Length, |password|, |salt|, memSize, 0, garlic, |data|, blockSize, parallelism,
                         repetitions) {
      return false;
    }
    AcceptedRunEngine(hash.Length, |password|, |salt|, memSize, 0, garlic, |data|, blockSize, parallelism,
                      repetitions);
    if |data| != 0 {
      var derivedSalt := new byte[|salt|];
      HashInto(h, derivedSalt, data, salt);
      HashInto(h, hash, password, derivedSalt[..]);
    } else {
      HashInto(h, hash, password, salt);
    }
    ok := NoelKdf(AtWordZero, h, hash, memSize, 0, garlic, blockSize, parallelism, repetitions, allocOk, junk);
  }

  /**
   * The derived salt as written: H writes saltSize bytes into a buffer of
   * hashSize bytes, which stays inside the buffer only when saltSize <=
   * hashSize.
   */
  method DeriveSaltAsWritten(h: KeyedHash, hashSize: nat, data: seq<byte>, salt: seq<byte>)
    returns (derivedSalt: seq<byte>)
    requires |salt| <= hashSize
    ensures derivedSalt == h(data, salt, |salt|)
  {
    var buffer := new byte[hashSize];
    var out := h(data, salt, |salt|);
    forall k | 0 <= k < |salt| {
      buffer[k] := out[k];
    }
    derivedSalt := buffer[..|salt|];
  }

  /** verifyParameters accepts 8 bytes of salt with a 4-byte hash, so the write above overflows its buffer. */
  lemma DerivedSaltOverflows(h: KeyedHash, data: seq<byte>, salt: seq<byte>)
    requires |salt| == 8 && |data| == 1
    ensures VerifyParameters(4, 1, |salt|, 1, 0, 0, |data|, 4, 1, 1)
    ensures |h(data, salt, |salt|)| > 4
  {
    Pow2Of32();
    Pow2Add(16, 4);
    assert Pow2(20) == 0x10_0000;
  }

  /**
   * NoelKDF_UpdatePasswordHash: verifyParameters with password and salt
   * sizes 16, then NoelKDF over the stored hash from oldGarlic to newGarlic.
   */
  method UpdatePasswordHash(h: KeyedHash, hash: array<byte>, memSize: word, oldGarlic: word, newGarlic: word,
                            blockSize: word, parallelism: word, repetitions: word, allocOk: bool, junk: nat -> word)
    returns (ok: bool)
    requires hash.Length < TWO32
    requires VerifyParameters(hash.Length, 16, 16, memSize, oldGarlic, newGarlic, 0, blockSize, parallelism,
                              repetitions) ==>
             EngineFits(hash.Length, memSize, newGarlic, blockSize, parallelism)
    modifies hash
    ensures ok <==> VerifyParameters(hash.Length, 16, 16, memSize, oldGarlic, newGarlic, 0, blockSize, parallelism,
                                     repetitions) && allocOk
    ensures !ok ==> hash[..] == old(hash[..])
    ensures ok ==> hash[..] == NoelKdfHash(AtWordZero, h, old(hash[..]), memSize, oldGarlic, newGarlic, blockSize,
                                           parallelism, repetitions, junk)
  {
    if !VerifyParameters(hash.Length, 16, 16, memSize, oldGarlic, newGarlic, 0, blockSize, parallelism, repetitions) {
      return false;
    }
    AcceptedRunEngine(hash.Length, 16, 16, memSize, oldGarlic, newGarlic, 0, blockSize, parallelism, repetitions);
    ok := NoelKdf(AtWordZero, h, hash, memSize, oldGarlic, newGarlic, blockSize, parallelism, repetitions, allocOk,
                  junk);
  }

  /**
   * PHS with the whole password hashed: HashPassword with m_cost MiB, garlic
   * 0, no data, 4096-byte blocks, one thread and t_cost repetitions; 0 on
   * success and 1 on failure.
   */
  method Phs(h: KeyedHash, out: array<byte>, input: seq<byte>, salt: seq<byte>, tCost: word, mCost: word,
             allocOk: bool, junk: nat -> word)
    returns (status: int)
    requires out.Length < TWO32 && |input| < TWO32 && |salt| < TWO32
    requires VerifyParameters(out.Length, |input|, |salt|, mCost, 0, 0, 0, 4096, 1, tCost) ==>
             EngineFits(out.Length, mCost, 0, 4096, 1)
    modifies out
    ensures status == 0 || status == 1
    ensures status == 0 <==> VerifyParameters(out.Length, |input|, |salt|, mCost, 0, 0, 0, 4096, 1, tCost) && allocOk
    ensures status == 0 ==> out[..] == NoelKdfHash(AtWordZero, h, InitialHash(h, out.Length, input, salt, []), mCost,
                                                   0, 0, 4096, 1, tCost, junk)
  {
    var ok := HashPasswordAnyLength(h, out, input, salt, mCost, 0, [], 4096, 1, tCost, allocOk, junk);
    status := if ok then 0 else 1;
  }

  /**
   * PHS as written: NoelKDF_HashPassword takes passwordSize as a uint8, so
   * inlen arrives modulo 256 and only that many password bytes are hashed.
   */
  method PhsAsWritten(h: KeyedHash, out: array<byte>, input: seq<byte>, salt: seq<byte>, tCost: word, mCost: word,
                      allocOk: bool, junk: nat -> word)
    returns (status: int)
    requires out.Length < TWO32 && |salt| < TWO32
    requires VerifyParameters(out.Length, |input| % 0x100, |salt|, mCost, 0, 0, 0, 4096, 1, tCost) ==>
             EngineFits(out.Length, mCost, 0, 4096, 1)
    modifies out
    ensures status == 0 || status == 1
    ensures status == 0 <==>
            VerifyParameters(out.Length, |input| % 0x100, |salt|, mCost, 0, 0, 0, 4096, 1, tCost) && allocOk
    ensures status == 0 ==> out[..] == NoelKdfHash(AtWordZero, h, InitialHash(h, out.Length, input[..|input| % 0x100],
                                                                              salt, []),
                                                   mCost, 0, 0, 4096, 1, tCost, junk)
  {
    var passwordSize := |input| % 0x100;
    var ok := HashPassword(h, out, input[..passwordSize], salt, mCost, 0, [], 4096, 1, tCost, allocOk, junk);
    status := if ok then 0 else 1;
  }

  /** A 256-byte password reaches verifyParameters as size 0, so PHS as written refuses it. */
  lemma PhsRefusesLongPassword(outlen: word, input: seq<byte>, saltlen: word, tCost: word, mCost: word)
    requires |input| == 256
    ensures !VerifyParameters(outlen, |input| % 0x100, saltlen, mCost, 0, 0, 0, 4096, 1, tCost)
  {
  }

  /** Two 300-byte passwords that share their first 44 bytes give PHS as written the same initial hash. */
  lemma PhsIgnoresPasswordTail(h: KeyedHash, hashSize: nat, a: seq<byte>, b: seq<byte>, salt: seq<byte>)
    requires |a| == 300 && |b| == 300 && a[..44] == b[..44]
    ensures InitialHash(h, hashSize, a[..|a| % 0x100], salt, []) == InitialHash(h, hashSize, b[..|b| % 0x100], salt, [])
  {
  }
}
