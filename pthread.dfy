/**
 * The threaded NoelKDF engine of noelkdf-pthread.c, its threads run one
 * after the other in thread order. Its workers are the reference engine's
 * hashWithoutPassword and hashWithPassword with a single repetition (their
 * inline loop is hashBlocks with repetitions 1); unlike the reference
 * engine it adds up the words after all independent workers have joined,
 * and it runs each level `repetitions` times before numblocks doubles.
 */
module NoelKdfPthread {
  import opened Words
  import opened Passes
  import NoelKdfRef

  // ---------------------------------------------------------------------
  // verifyParameters
  // ---------------------------------------------------------------------

  /**
   * verifyParameters: as in the reference engine, but hash, password, salt
   * and data are at most 256 bytes and the salt at least 4.
   */
  function VerifyParameters(hashSize: word, passwordSize: word, saltSize: word, memSize: word,
                            startGarlic: word, stopGarlic: word, dataSize: word, blockSize: word,
                            parallelism: word, repetitions: word): (ok: bool)
    ensures ok ==> 4 <= hashSize <= 256 && hashSize % 4 == 0
    ensures ok ==> 1 <= passwordSize <= 256 && 4 <= saltSize <= 256 && dataSize <= 256
    ensures ok ==> 4 <= blockSize <= 0x4000_0000 && blockSize % 4 == 0
    ensures ok ==> 1 <= memSize <= 0x4000_0000 && blockSize * parallelism <= memSize * 0x40000
    ensures ok ==> startGarlic <= stopGarlic <= 30
    ensures ok ==> 1 <= parallelism <= 0x10_0000 && 1 <= repetitions <= 0x4000_0000
    ensures ok ==> memSize * Pow2(20 + stopGarlic) < TWO64
    ensures (4 <= hashSize <= 256 && hashSize % 4 == 0 &&
             1 <= passwordSize <= 256 && 4 <= saltSize <= 256 && dataSize <= 256 &&
             4 <= blockSize <= 0x4000_0000 && blockSize % 4 == 0 &&
             1 <= memSize <= 0x4000_0000 && blockSize * parallelism <= memSize * 0x40000 &&
             startGarlic <= stopGarlic <= 30 &&
             1 <= parallelism <= 0x10_0000 && 1 <= repetitions <= 0x4000_0000 &&
             memSize * Pow2(20 + stopGarlic) < TWO64) ==> ok
  {
    if hashSize > 256 || hashSize < 4 || hashSize % 4 != 0 || passwordSize > 256 ||
       passwordSize == 0 || blockSize < 4 || blockSize % 4 != 0 || saltSize > 256 || saltSize < 4 ||
       memSize == 0 || memSize > 0x4000_0000 || startGarlic > stopGarlic || stopGarlic > 30 ||
       dataSize > 256 || blockSize > 0x4000_0000 ||
       memSize * 0x40000 < blockSize * parallelism || parallelism == 0 ||
       parallelism > 0x10_0000 || repetitions == 0 || repetitions > 0x4000_0000 then
      false
    else
      var shift := 20 + stopGarlic;
      ShiftRoundTrip(memSize, shift);
      var totalSize := memSize * Pow2(shift) % TWO64;
      totalSize / Pow2(shift) == memSize
  }

  /** Every parameter set this verifyParameters accepts, the reference engine's accepts too. */
  lemma TighterThanReference(hashSize: word, passwordSize: word, saltSize: word, memSize: word,
                             startGarlic: word, stopGarlic: word, dataSize: word, blockSize: word,
                             parallelism: word, repetitions: word)
    requires VerifyParameters(hashSize, passwordSize, saltSize, memSize, startGarlic, stopGarlic, dataSize,
                              blockSize, parallelism, repetitions)
    ensures NoelKdfRef.VerifyParameters(hashSize, passwordSize, saltSize, memSize, startGarlic, stopGarlic,
                                        dataSize, blockSize, parallelism, repetitions)
  {
  }

  /** A 3-byte salt passes the reference engine's verifyParameters and fails this one. */
  lemma RefusesShortSalt()
    ensures NoelKdfRef.VerifyParameters(4, 1, 3, 1, 0, 0, 0, 4, 1, 1)
    ensures !VerifyParameters(4, 1, 3, 1, 0, 0, 0, 4, 1, 1)
  {
    Pow2Of32();
    Pow2Add(16, 4);
    assert Pow2(20) == 0x10_0000;
  }

  // ---------------------------------------------------------------------
  // Memory geometry
  // ---------------------------------------------------------------------

  /**
   * numblocks as written: memlen = (1 << 20) * memSize / 4 is computed in
   * 32 bits, so the byte count wraps once memSize reaches 4096.
   */
  function NumBlocksAsWritten(memSize: word, blocklen: nat, parallelism: nat): (nb: nat)
    requires blocklen >= 1 && parallelism >= 1
    ensures memSize < 0x1000 ==> nb == NoelKdfRef.NumBlocks(memSize, blocklen, parallelism)
  {
    var memlen := Memlen(memSize);
    memlen / (2 * parallelism * blocklen)
  }

  /** memlen as written: (1 << 20) * memSize / 4 in 32 bits; below 4096 MiB it is 2^18 * memSize. */
  function Memlen(memSize: word): (memlen: nat)
    ensures memSize < 0x1000 ==> memlen == 0x40000 * memSize
  {
    var bytes := 0x10_0000 * memSize % TWO32;
    if memSize < 0x1000 then
      assert 0x10_0000 * memSize < TWO32;
      DivUnique(bytes, 4, 0x40000 * memSize, 0);
      bytes / 4
    else
      bytes / 4
  }

  /**
   * With 4096 MiB, which verifyParameters accepts, the 32-bit memlen is 0:
   * no block is allocated, yet the first worker writes its thread key into
   * memory.
   */
  lemma MemlenWraps()
    ensures VerifyParameters(4, 1, 4, 0x1000, 0, 0, 0, 4096, 1, 1)
    ensures NumBlocksAsWritten(0x1000, 1024, 1) == 0
    ensures NoelKdfRef.NumBlocks(0x1000, 1024, 1) == 0x8_0000
  {
    Pow2Of32();
    Pow2Add(16, 4);
    assert Pow2(20) == 0x10_0000;
  }

  /** The words allocated as written: one level with the first level's numblocks. */
  function AllocatedAsWritten(memSize: word, blockSize: nat, parallelism: nat): nat
    requires blockSize >= 4 && parallelism >= 1
  {
    var bl := blockSize / 4;
    NoelKdfRef.LevelWords(parallelism, NoelKdfRef.NumBlocks(memSize, bl, parallelism), bl)
  }

  /**
   * After the first garlic level numblocks doubles, and the second level
   * needs twice the words allocated as written.
   */
  lemma SecondLevelOverruns(memSize: word, blockSize: word, parallelism: word, hashlen: nat)
    requires blockSize >= 4 && parallelism >= 1
    requires NoelKdfRef.NumBlocks(memSize, blockSize / 4, parallelism) >= 1
    ensures !NoelKdfRef.LevelFits(parallelism, blockSize / 4, 2 * NoelKdfRef.NumBlocks(memSize, blockSize / 4, parallelism),
                                  AllocatedAsWritten(memSize, blockSize, parallelism), hashlen)
  {
    var bl := blockSize / 4;
    var nb := NoelKdfRef.NumBlocks(memSize, bl, parallelism);
    var w := 2 * parallelism * nb * bl;
    assert 2 * parallelism * (2 * nb) * bl == 2 * w;
    MulMono(2 * parallelism * nb, 1, bl);
    MulMono(2 * parallelism, 1, nb);
  }

  // ---------------------------------------------------------------------
  // One round of a level: the workers, the value summed after the join,
  // the dependent workers, then xorIntoHash
  // ---------------------------------------------------------------------

  /**
   * The words added up after all independent workers have joined, in
   * order: for each thread q < p the last word of the first block of
   * thread q's independent segment, read from mem.
   */
  function JoinReads(mem: seq<word>, par: nat, bl: nat, nb: nat, p: nat): (r: seq<word>)
    requires p <= par && bl >= 1 && nb >= 1 && 2 * par * nb * bl <= |mem|
    ensures |r| == p
  {
    if p == 0 then []
    else
      NoelKdfRef.KeyWordInLevel(p - 1, par, bl, nb);
      JoinReads(mem, par, bl, nb, p - 1) + [mem[SegmentStart(p - 1, nb, bl) + bl - 1]]
  }

  /** Entry q of JoinReads is the last word of the first block of thread q's independent segment. */
  lemma {:induction false} JoinReadsAt(mem: seq<word>, par: nat, bl: nat, nb: nat, p: nat, q: nat)
    requires q < p <= par && bl >= 1 && nb >= 1 && 2 * par * nb * bl <= |mem|
    ensures SegmentStart(q, nb, bl) + bl - 1 < |mem|
    ensures JoinReads(mem, par, bl, nb, p)[q] == mem[SegmentStart(q, nb, bl) + bl - 1]
  {
    NoelKdfRef.KeyWordInLevel(q, par, bl, nb);
    if q < p - 1 {
      JoinReadsAt(mem, par, bl, nb, p - 1, q);
    }
  }

  /**
   * One round of a level with numblocks fixed: every independent worker
   * with a single repetition, the dependent workers from the wrapping sum
   * of JoinReads, then xorIntoHash.
   */
  function Round(pl: KeyPlacement, st: NoelKdfRef.State, h: KeyedHash, par: nat, bl: nat, nb: nat)
    : (r: NoelKdfRef.State)
    requires NoelKdfRef.LevelFits(par, bl, nb, |st.mem|, |st.wordHash|)
    ensures |r.mem| == |st.mem| && |r.wordHash| == |st.wordHash|
  {
    var ind := NoelKdfRef.IndepAll(pl, st.mem, h, st.wordHash, par, bl, nb, 1, par);
    var dep := DepAll(ind, par, bl, nb, 1, WrapSum(JoinReads(ind, par, bl, nb, par)), par);
    NoelKdfRef.State(XorAll(st.wordHash, dep, bl, nb, par), dep)
  }

  /**
   * With each key at the start of its thread's segment, no later pass
   * writes the last word of thread q's key: after the passes of threads
   * 0 .. n - 1 it still holds that word.
   */
  lemma LaterPassesKeepKeyWord(m: seq<word>, h: KeyedHash, wordHash: seq<word>, par: nat, bl: nat,
                               nb: nat, reps: nat, q: nat, n: nat)
    requires q < n <= par <= TWO32 && bl >= 1 && nb >= 1 && 2 * par * nb * bl <= |m|
    ensures SegmentStart(q, nb, bl) + bl - 1 < |m|
    ensures NoelKdfRef.IndepAll(AtSegmentStart, m, h, wordHash, par, bl, nb, reps, n)[SegmentStart(q, nb, bl) + bl - 1]
         == Seed(h, wordHash, q, bl)[bl - 1]
  {
    NoelKdfRef.KeyWordInLevel(q, par, bl, nb);
    var k := SegmentStart(q, nb, bl) + bl - 1;
    assert NoelKdfRef.IndepAll(AtSegmentStart, m, h, wordHash, par, bl, nb, reps, q + 1)[k]
        == Seed(h, wordHash, q, bl)[bl - 1] by {
      NoelKdfRef.IndepAllKeyBlock(AtSegmentStart, m, h, wordHash, par, bl, nb, reps, q + 1, k);
    }
    assert NoelKdfRef.IndepAll(AtSegmentStart, m, h, wordHash, par, bl, nb, reps, n)[k]
        == NoelKdfRef.IndepAll(AtSegmentStart, m, h, wordHash, par, bl, nb, reps, q + 1)[k] by {
      forall j | q + 1 <= j < n
        ensures NoelKdfRef.OutsidePass(AtSegmentStart, k, j, nb, bl)
      {
        KeyWordOutsideLaterPass(q, j, nb, bl);
      }
      NoelKdfRef.IndepAllKeeps(AtSegmentStart, m, h, wordHash, par, bl, nb, reps, q + 1, n, k);
    }
  }

  /**
   * With each key at the start of its thread's segment, the words summed
   * after the join are the last words of the thread keys.
   */
  lemma {:induction false} CorrectedJoinReadsKeys(m: seq<word>, h: KeyedHash, wordHash: seq<word>, par: nat, bl: nat,
                                                  nb: nat, reps: nat, p: nat)
    requires p <= par <= TWO32 && bl >= 1 && nb >= 1 && 2 * par * nb * bl <= |m|
    ensures JoinReads(NoelKdfRef.IndepAll(AtSegmentStart, m, h, wordHash, par, bl, nb, reps, par), par, bl, nb, p)
         == NoelKdfRef.KeyWords(h, wordHash, bl, p)
  {
    if p > 0 {
      CorrectedJoinReadsKeys(m, h, wordHash, par, bl, nb, reps, p - 1);
      LaterPassesKeepKeyWord(m, h, wordHash, par, bl, nb, reps, p - 1, par);
    }
  }

  /**
   * With each key at the start of its thread's segment, summing after the
   * join reads what the reference engine reads after each pass: a round is
   * the reference level with one repetition.
   */
  lemma CorrectedRoundIsReference(st: NoelKdfRef.State, h: KeyedHash, par: nat, bl: nat, nb: nat)
    requires NoelKdfRef.LevelFits(par, bl, nb, |st.mem|, |st.wordHash|)
    ensures Round(AtSegmentStart, st, h, par, bl, nb) == NoelKdfRef.Level(AtSegmentStart, st, h, par, bl, nb, 1)
  {
    var ind := NoelKdfRef.IndepAll(AtSegmentStart, st.mem, h, st.wordHash, par, bl, nb, 1, par);
    CorrectedJoinReadsKeys(st.mem, h, st.wordHash, par, bl, nb, 1, par);
    NoelKdfRef.CorrectedReadsKeys(st.mem, h, st.wordHash, par, bl, nb, 1, par);
    assert JoinReads(ind, par, bl, nb, par)
        == NoelKdfRef.KeyReads(AtSegmentStart, st.mem, h, st.wordHash, par, bl, nb, 1, par);
  }

  /** As written, after n passes word blocklen - 1 holds the last word of thread n - 1's key. */
  lemma AtZeroLastKeyWord(m: seq<word>, h: KeyedHash, wordHash: seq<word>, par: nat, bl: nat, nb: nat, reps: nat,
                          n: nat)
    requires 1 <= n <= par <= TWO32 && bl >= 1 && nb >= 1 && 2 * par * nb * bl <= |m|
    ensures bl - 1 < |m|
    ensures NoelKdfRef.IndepAll(AtWordZero, m, h, wordHash, par, bl, nb, reps, n)[bl - 1]
         == Seed(h, wordHash, n - 1, bl)[bl - 1]
  {
    NoelKdfRef.KeyWordInLevel(0, par, bl, nb);
    NoelKdfRef.IndepAllKeyBlock(AtWordZero, m, h, wordHash, par, bl, nb, reps, n, bl - 1);
  }

  /**
   * As written, the first word summed after the join is the last word of
   * the last thread's key, which every thread wrote over thread 0's.
   */
  lemma AsWrittenJoinFirst(m: seq<word>, h: KeyedHash, wordHash: seq<word>, par: nat, bl: nat, nb: nat, reps: nat)
    requires 1 <= par <= TWO32 && bl >= 1 && nb >= 1 && 2 * par * nb * bl <= |m|
    ensures JoinReads(NoelKdfRef.IndepAll(AtWordZero, m, h, wordHash, par, bl, nb, reps, par), par, bl, nb, par)[0]
         == Seed(h, wordHash, par - 1, bl)[bl - 1]
  {
    var ind := NoelKdfRef.IndepAll(AtWordZero, m, h, wordHash, par, bl, nb, reps, par);
    JoinReadsAt(ind, par, bl, nb, par, 0);
    assert SegmentStart(0, nb, bl) == 0;
    AtZeroLastKeyWord(m, h, wordHash, par, bl, nb, reps, par);
  }

  /**
   * As written, every other word summed after the join is what memory held
   * before the level: no thread writes it.
   */
  lemma AsWrittenJoinStale(m: seq<word>, h: KeyedHash, wordHash: seq<word>, par: nat, bl: nat, nb: nat, reps: nat,
                           q: nat)
    requires 1 <= q < par <= TWO32 && bl >= 1 && nb >= 1 && 2 * par * nb * bl <= |m|
    ensures SegmentStart(q, nb, bl) + bl - 1 < |m|
    ensures JoinReads(NoelKdfRef.IndepAll(AtWordZero, m, h, wordHash, par, bl, nb, reps, par), par, bl, nb, par)[q]
         == m[SegmentStart(q, nb, bl) + bl - 1]
  {
    var ind := NoelKdfRef.IndepAll(AtWordZero, m, h, wordHash, par, bl, nb, reps, par);
    JoinReadsAt(ind, par, bl, nb, par, q);
    NoelKdfRef.AtZeroKeepsKeyWord(m, h, wordHash, par, bl, nb, reps, q, par);
  }

  // ---------------------------------------------------------------------
  // The workers and the join, one round at a time
  // ---------------------------------------------------------------------

  /** The independent workers, one after the other in thread order, each with a single repetition. */
  method IndependentWorkers(pl: KeyPlacement, h: KeyedHash, wordHash: array<word>, mem: array<word>, blocklen: nat,
                            numblocks: nat, parallelism: nat)
    requires wordHash != mem && 1 <= parallelism <= TWO32 && 1 <= numblocks < 0x8000_0000
    requires 2 * parallelism * numblocks * blocklen <= mem.Length
    modifies mem
    ensures mem[..] == NoelKdfRef.IndepAll(pl, old(mem[..]), h, wordHash[..], parallelism, blocklen, numblocks, 1,
                                           parallelism)
  {
    ghost var m0 := mem[..];
    var p: nat := 0;
    while p < parallelism
      invariant p <= parallelism
      invariant mem[..] == NoelKdfRef.IndepAll(pl, m0, h, wordHash[..], parallelism, blocklen, numblocks, 1, p)
    {
      NoelKdfRef.IndepAllStep(pl, m0, h, wordHash[..], parallelism, blocklen, numblocks, 1, p);
      NoelKdfRef.HashWithoutPassword(pl, h, p, wordHash, mem, blocklen, numblocks, parallelism, 1);
      p := p + 1;
    }
  }

  /**
   * The value handed to the dependent workers: after the join, the wrapping
   * sum of the last word of the first block of every thread's independent
   * segment. Nothing changes.
   */
  method JoinedValue(mem: array<word>, blocklen: nat, numblocks: nat, parallelism: nat) returns (value: word)
    requires blocklen >= 1 && numblocks >= 1 && 2 * parallelism * numblocks * blocklen <= mem.Length
    ensures value == WrapSum(JoinReads(mem[..], parallelism, blocklen, numblocks, parallelism))
  {
    value := 0;
    var p: nat := 0;
    while p < parallelism
      invariant p <= parallelism
      invariant value == WrapSum(JoinReads(mem[..], parallelism, blocklen, numblocks, p))
    {
      NoelKdfRef.KeyWordInLevel(p, parallelism, blocklen, numblocks);
      ghost var seen := JoinReads(mem[..], parallelism, blocklen, numblocks, p + 1);
      assert seen[..p] == JoinReads(mem[..], parallelism, blocklen, numblocks, p);
      value := Add32(value, mem[2 * p * numblocks * blocklen + blocklen - 1]);
      p := p + 1;
    }
  }

  /** One repetition of a level: the workers, the join, the dependent workers, then xorIntoHash. */
  method RunOnce(pl: KeyPlacement, h: KeyedHash, wordHash: array<word>, mem: array<word>, blocklen: nat,
                 numblocks: nat, parallelism: nat)
    requires wordHash != mem
    requires NoelKdfRef.LevelFits(parallelism, blocklen, numblocks, mem.Length, wordHash.Length)
    modifies wordHash, mem
    ensures NoelKdfRef.State(wordHash[..], mem[..])
         == Round(pl, NoelKdfRef.State(old(wordHash[..]), old(mem[..])), h, parallelism, blocklen, numblocks)
  {
    IndependentWorkers(pl, h, wordHash, mem, blocklen, numblocks, parallelism);
    var value := JoinedValue(mem, blocklen, numblocks, parallelism);
    NoelKdfRef.DependentPasses(mem, blocklen, numblocks, parallelism, 1, value);
    XorIntoHash(wordHash, mem, blocklen, numblocks, parallelism);
  }

  // ---------------------------------------------------------------------
  // Repetitions and the garlic loop
  // ---------------------------------------------------------------------

  /** A level run j times with numblocks fixed. */
  function Repeated(pl: KeyPlacement, st: NoelKdfRef.State, h: KeyedHash, par: nat, bl: nat, nb: nat, j: nat)
    : (r: NoelKdfRef.State)
    requires NoelKdfRef.LevelFits(par, bl, nb, |st.mem|, |st.wordHash|)
    ensures |r.mem| == |st.mem| && |r.wordHash| == |st.wordHash|
    decreases j, 0
  {
    if j == 0 then st else AfterRun(pl, st, h, par, bl, nb, j - 1)
  }

  /** Run k of a level (counting from 0), on the state the runs before it left. */
  function AfterRun(pl: KeyPlacement, st: NoelKdfRef.State, h: KeyedHash, par: nat, bl: nat, nb: nat, k: nat)
    : (r: NoelKdfRef.State)
    requires NoelKdfRef.LevelFits(par, bl, nb, |st.mem|, |st.wordHash|)
    ensures |r.mem| == |st.mem| && |r.wordHash| == |st.wordHash|
    decreases k, 1
  {
    Round(pl, Repeated(pl, st, h, par, bl, nb, k), h, par, bl, nb)
  }

  /** The state after n garlic levels, each run reps times, numblocks doubling after each level. */
  function Garlic(pl: KeyPlacement, st: NoelKdfRef.State, h: KeyedHash, par: nat, bl: nat, nb: nat, reps: nat, n: nat)
    : (r: NoelKdfRef.State)
    requires NoelKdfRef.LevelsFit(par, bl, nb, n, |st.mem|, |st.wordHash|)
    ensures |r.mem| == |st.mem| && |r.wordHash| == |st.wordHash|
    decreases n, 0
  {
    if n == 0 then st else AfterLevel(pl, st, h, par, bl, nb, reps, n - 1)
  }

  /** Level j (counting from 0), run reps times on the state the levels before it left. */
  function AfterLevel(pl: KeyPlacement, st: NoelKdfRef.State, h: KeyedHash, par: nat, bl: nat, nb: nat, reps: nat,
                      j: nat): (r: NoelKdfRef.State)
    requires NoelKdfRef.LevelsFitThrough(par, bl, nb, j, |st.mem|, |st.wordHash|)
    ensures |r.mem| == |st.mem| && |r.wordHash| == |st.wordHash|
    decreases j, 1
  {
    Repeated(pl, Garlic(pl, st, h, par, bl, nb, reps, j), h, par, bl, NoelKdfRef.Doubled(nb, j), reps)
  }

  /** Level j + 1 is level j's state run reps times over the doubled numblocks. */
  lemma GarlicNext(pl: KeyPlacement, st: NoelKdfRef.State, h: KeyedHash, par: nat, bl: nat, nb: nat, reps: nat,
                   j: nat)
    requires NoelKdfRef.LevelsFit(par, bl, nb, j + 1, |st.mem|, |st.wordHash|)
    ensures NoelKdfRef.LevelsFit(par, bl, nb, j, |st.mem|, |st.wordHash|)
    ensures var before := Garlic(pl, st, h, par, bl, nb, reps, j);
      NoelKdfRef.LevelFits(par, bl, NoelKdfRef.Doubled(nb, j), |before.mem|, |before.wordHash|) &&
      Garlic(pl, st, h, par, bl, nb, reps, j + 1) == Repeated(pl, before, h, par, bl, NoelKdfRef.Doubled(nb, j), reps)
  {
    assert NoelKdfRef.LevelsFitThrough(par, bl, nb, j, |st.mem|, |st.wordHash|);
  }

  /** With each key at its own segment, one run of a level is the reference level with one repetition. */
  lemma RepeatedOnce(st: NoelKdfRef.State, h: KeyedHash, par: nat, bl: nat, nb: nat)
    requires NoelKdfRef.LevelFits(par, bl, nb, |st.mem|, |st.wordHash|)
    ensures Repeated(AtSegmentStart, st, h, par, bl, nb, 1) == NoelKdfRef.Level(AtSegmentStart, st, h, par, bl, nb, 1)
  {
    assert Repeated(AtSegmentStart, st, h, par, bl, nb, 1) == AfterRun(AtSegmentStart, st, h, par, bl, nb, 0);
    CorrectedRoundIsReference(st, h, par, bl, nb);
  }

  /** n levels with reps repetitions each leave the state the reference engine leaves with repetitions reps. */
  ghost predicate SameAsReference(st: NoelKdfRef.State, h: KeyedHash, par: nat, bl: nat, nb: nat, reps: nat, n: nat)
    requires NoelKdfRef.LevelsFit(par, bl, nb, n, |st.mem|, |st.wordHash|)
  {
    Garlic(AtSegmentStart, st, h, par, bl, nb, reps, n) == NoelKdfRef.Garlic(AtSegmentStart, st, h, par, bl, nb, reps, n)
  }

  /** With one repetition, if the two engines agree after n - 1 levels, they agree after n. */
  lemma SameAsReferenceNext(st: NoelKdfRef.State, h: KeyedHash, par: nat, bl: nat, nb: nat, reps: nat, n: nat)
    requires reps == 1 && n > 0
    requires NoelKdfRef.LevelsFit(par, bl, nb, n, |st.mem|, |st.wordHash|)
    requires NoelKdfRef.LevelsFit(par, bl, nb, n - 1, |st.mem|, |st.wordHash|)
    requires SameAsReference(st, h, par, bl, nb, reps, n - 1)
    ensures SameAsReference(st, h, par, bl, nb, reps, n)
  {
    GarlicNext(AtSegmentStart, st, h, par, bl, nb, reps, n - 1);
    NoelKdfRef.GarlicNext(AtSegmentStart, st, h, par, bl, nb, reps, n - 1);
    var before := Garlic(AtSegmentStart, st, h, par, bl, nb, reps, n - 1);
    RepeatedOnce(before, h, par, bl, NoelKdfRef.Doubled(nb, n - 1));
  }

  /**
   * With each key at its own segment and one repetition per level, this
   * engine computes what the reference engine computes with repetitions 1.
   */
  lemma {:induction false} OneRepetitionIsReference(st: NoelKdfRef.State, h: KeyedHash, par: nat, bl: nat, nb: nat,
                                                    reps: nat, n: nat)
    requires reps == 1
    requires NoelKdfRef.LevelsFit(par, bl, nb, n, |st.mem|, |st.wordHash|)
    ensures SameAsReference(st, h, par, bl, nb, reps, n)
  {
    if n > 0 {
      NoelKdfRef.LevelsFitPrefix(par, bl, nb, n, n - 1, |st.mem|, |st.wordHash|);
      OneRepetitionIsReference(st, h, par, bl, nb, reps, n - 1);
      SameAsReferenceNext(st, h, par, bl, nb, reps, n);
    }
  }

  /** wordHash and mem hold the state j runs of a level leave, starting from st0. */
  ghost predicate RunsDone(pl: KeyPlacement, wordHash: seq<word>, mem: seq<word>, st0: NoelKdfRef.State, h: KeyedHash,
                           par: nat, bl: nat, nb: nat, j: nat)
    requires NoelKdfRef.LevelFits(par, bl, nb, |st0.mem|, |st0.wordHash|)
  {
    NoelKdfRef.State(wordHash, mem) == Repeated(pl, st0, h, par, bl, nb, j)
  }

  /** The repetitions loop of one garlic level, numblocks fixed. */
  method RunRepetitions(pl: KeyPlacement, h: KeyedHash, wordHash: array<word>, mem: array<word>, blocklen: nat,
                        numblocks: nat, parallelism: nat, repetitions: nat)
    requires wordHash != mem
    requires NoelKdfRef.LevelFits(parallelism, blocklen, numblocks, mem.Length, wordHash.Length)
    modifies wordHash, mem
    ensures RunsDone(pl, wordHash[..], mem[..], NoelKdfRef.State(old(wordHash[..]), old(mem[..])), h, parallelism,
                     blocklen, numblocks, repetitions)
  {
    ghost var st0 := NoelKdfRef.State(wordHash[..], mem[..]);
    var j := 0;
    while j != repetitions
      invariant j <= repetitions
      invariant RunsDone(pl, wordHash[..], mem[..], st0, h, parallelism, blocklen, numblocks, j)
      decreases repetitions - j
    {
      assert Repeated(pl, st0, h, parallelism, blocklen, numblocks, j + 1)
          == AfterRun(pl, st0, h, parallelism, blocklen, numblocks, j);
      RunOnce(pl, h, wordHash, mem, blocklen, numblocks, parallelism);
      j := j + 1;
    }
  }

  /** wordHash and mem hold the state n garlic levels leave, starting from st0. */
  ghost predicate AtLevel(pl: KeyPlacement, wordHash: seq<word>, mem: seq<word>, st0: NoelKdfRef.State, h: KeyedHash,
                          par: nat, bl: nat, nb0: nat, reps: nat, n: nat)
  {
    NoelKdfRef.LevelsFit(par, bl, nb0, n, |st0.mem|, |st0.wordHash|) &&
    NoelKdfRef.State(wordHash, mem) == Garlic(pl, st0, h, par, bl, nb0, reps, n)
  }

  /** Level n + 1 of a run: the repetitions loop, with numblocks doubled n times. */
  method GarlicStep(pl: KeyPlacement, h: KeyedHash, wordHash: array<word>, mem: array<word>, blocklen: nat,
                    numblocks: nat, parallelism: nat, repetitions: nat, ghost st0: NoelKdfRef.State, ghost nb0: nat,
                    ghost n: nat)
    requires wordHash != mem && numblocks == NoelKdfRef.Doubled(nb0, n)
    requires NoelKdfRef.LevelsFitThrough(parallelism, blocklen, nb0, n, |st0.mem|, |st0.wordHash|)
    requires AtLevel(pl, wordHash[..], mem[..], st0, h, parallelism, blocklen, nb0, repetitions, n)
    modifies wordHash, mem
    ensures AtLevel(pl, wordHash[..], mem[..], st0, h, parallelism, blocklen, nb0, repetitions, n + 1)
  {
    GarlicNext(pl, st0, h, parallelism, blocklen, nb0, repetitions, n);
    RunRepetitions(pl, h, wordHash, mem, blocklen, numblocks, parallelism, repetitions);
  }

  /** The garlic loop: levels startGarlic .. stopGarlic, numblocks doubling after all repetitions of each. */
  method RunGarlic(pl: KeyPlacement, h: KeyedHash, wordHash: array<word>, mem: array<word>, blocklen: nat,
                   numblocks: nat, parallelism: nat, repetitions: nat, levels: nat)
    requires wordHash != mem
    requires NoelKdfRef.LevelsFit(parallelism, blocklen, numblocks, levels, mem.Length, wordHash.Length)
    modifies wordHash, mem
    ensures AtLevel(pl, wordHash[..], mem[..], NoelKdfRef.State(old(wordHash[..]), old(mem[..])), h, parallelism,
                    blocklen, numblocks, repetitions, levels)
  {
    var nb := numblocks;
    var n := 0;
    while n != levels
      invariant n <= levels
      invariant nb == NoelKdfRef.Doubled(numblocks, n)
      invariant AtLevel(pl, wordHash[..], mem[..], NoelKdfRef.State(old(wordHash[..]), old(mem[..])), h, parallelism,
                        blocklen, numblocks, repetitions, n)
      decreases levels - n
    {
      NoelKdfRef.LevelsFitPrefix(parallelism, blocklen, numblocks, levels, n + 1, mem.Length, wordHash.Length);
      GarlicStep(pl, h, wordHash, mem, blocklen, nb, parallelism, repetitions,
                 NoelKdfRef.State(old(wordHash[..]), old(mem[..])), numblocks, n);
      nb := nb * 2;
      n := n + 1;
    }
  }

  // ---------------------------------------------------------------------
  // NoelKDF
  // ---------------------------------------------------------------------

  /**
   * The parameters NoelKDF as written runs on: verifyParameters accepts
   * them, there is a single garlic level (the memory allocated holds only
   * the first, see SecondLevelOverruns), memlen does not wrap (see
   * MemlenWraps), and the hash fits one thread's two segments.
   */
  predicate AsWrittenParameters(hashSize: word, memSize: word, startGarlic: word, stopGarlic: word,
                                blockSize: word, parallelism: word, repetitions: word)
  {
    VerifyParameters(hashSize, 1, 4, memSize, startGarlic, stopGarlic, 0, blockSize, parallelism, repetitions) &&
    startGarlic == stopGarlic && memSize < 0x1000 &&
    NoelKdfRef.EngineFits(hashSize, memSize, 0, blockSize, parallelism)
  }

  /**
   * The parameters the corrected NoelKDF runs on: verifyParameters accepts
   * them, the hash fits one thread's two segments and memory for the last
   * level lies below 2^32 words.
   */
  predicate EngineParameters(hashSize: word, memSize: word, startGarlic: word, stopGarlic: word,
                             blockSize: word, parallelism: word, repetitions: word)
  {
    VerifyParameters(hashSize, 1, 4, memSize, startGarlic, stopGarlic, 0, blockSize, parallelism, repetitions) &&
    NoelKdfRef.EngineFits(hashSize, memSize, stopGarlic - startGarlic, blockSize, parallelism)
  }

  /**
   * The hash NoelKDF as written computes from hash: one level run
   * `repetitions` times with every thread key at word 0, over the memory
   * allocated for the first level, which starts as junk.
   */
  function AsWrittenHash(h: KeyedHash, hash: seq<byte>, memSize: word, startGarlic: word, stopGarlic: word,
                         blockSize: word, parallelism: word, repetitions: word, junk: nat -> word): (r: seq<byte>)
    requires |hash| < TWO32
    requires AsWrittenParameters(|hash|, memSize, startGarlic, stopGarlic, blockSize, parallelism, repetitions)
    ensures |r| == |hash|
  {
    var bl := blockSize / 4;
    var words := AllocatedAsWritten(memSize, blockSize, parallelism);
    var st := NoelKdfRef.State(Be32DecVect(hash), seq(words, k requires 0 <= k => junk(k)));
    TighterThanReference(|hash|, 1, 4, memSize, startGarlic, stopGarlic, 0, blockSize, parallelism, repetitions);
    NoelKdfRef.LevelsFitBelow(|hash|, memSize, 0, blockSize, parallelism, 1);
    var last := Garlic(AtWordZero, st, h, parallelism, bl, NoelKdfRef.NumBlocks(memSize, bl, parallelism),
                       repetitions, 1);
    Be32EncVect(last.wordHash)
  }

  /**
   * The hash the corrected NoelKDF computes from hash: each thread key at
   * the start of its thread's segment, stopGarlic - startGarlic + 1 levels
   * each run `repetitions` times, over memory sized for the last level.
   */
  function CorrectedHash(h: KeyedHash, hash: seq<byte>, memSize: word, startGarlic: word, stopGarlic: word,
                         blockSize: word, parallelism: word, repetitions: word, junk: nat -> word): (r: seq<byte>)
    requires |hash| < TWO32
    requires EngineParameters(|hash|, memSize, startGarlic, stopGarlic, blockSize, parallelism, repetitions)
    ensures |r| == |hash|
  {
    var bl := blockSize / 4;
    var words := NoelKdfRef.MemWords(memSize, blockSize, parallelism, stopGarlic - startGarlic);
    var st := NoelKdfRef.State(Be32DecVect(hash), seq(words, k requires 0 <= k => junk(k)));
    TighterThanReference(|hash|, 1, 4, memSize, startGarlic, stopGarlic, 0, blockSize, parallelism, repetitions);
    NoelKdfRef.LevelsFitBelow(|hash|, memSize, stopGarlic - startGarlic, blockSize, parallelism,
                              stopGarlic + 1 - startGarlic);
    var last := Garlic(AtSegmentStart, st, h, parallelism, bl, NoelKdfRef.NumBlocks(memSize, bl, parallelism),
                       repetitions, stopGarlic + 1 - startGarlic);
    Be32EncVect(last.wordHash)
  }

  /**
   * NoelKDF as written: memlen in 32 bits, memory for the first level only,
   * the garlic loop with its repetitions, then the words back into hash.
   * allocOk says whether the three mallocs succeeded and spawnOk whether
   * every pthread_create did; either failure returns false with hash as it
   * was.
   */
  method NoelKdf(h: KeyedHash, hash: array<byte>, memSize: word, startGarlic: word, stopGarlic: word,
                 blockSize: word, parallelism: word, repetitions: word, allocOk: bool, spawnOk: bool,
                 junk: nat -> word)
    returns (ok: bool)
    requires hash.Length < TWO32
    requires AsWrittenParameters(hash.Length, memSize, startGarlic, stopGarlic, blockSize, parallelism, repetitions)
    modifies hash
    ensures ok == (allocOk && spawnOk)
    ensures ok ==> hash[..] == AsWrittenHash(h, old(hash[..]), memSize, startGarlic, stopGarlic, blockSize,
                                             parallelism, repetitions, junk)
    ensures !ok ==> hash[..] == old(hash[..])
  {
    var hashlen := hash.Length / 4;
    var wordHash := new word[hashlen];
    Be32DecInto(wordHash, 0, hash[..]);
    assert wordHash[..] == Be32DecVect(hash[..]);
    var blocklen := blockSize / 4;
    var numblocks := NumBlocksAsWritten(memSize, blocklen, parallelism);
    var memlen := 2 * parallelism * numblocks * blocklen;
    if !allocOk || !spawnOk {
      return false;
    }
    var mem := new word[memlen](k requires 0 <= k => junk(k));
    ghost var st0 := NoelKdfRef.State(wordHash[..], mem[..]);
    assert st0 == NoelKdfRef.State(Be32DecVect(old(hash[..])),
                                   seq(AllocatedAsWritten(memSize, blockSize, parallelism), k requires 0 <= k => junk(k)));
    TighterThanReference(hash.Length, 1, 4, memSize, startGarlic, stopGarlic, 0, blockSize, parallelism, repetitions);
    NoelKdfRef.LevelsFitBelow(hash.Length, memSize, 0, blockSize, parallelism, 1);
    var levels: nat := stopGarlic + 1 - startGarlic;
    RunGarlic(AtWordZero, h, wordHash, mem, blocklen, numblocks, parallelism, repetitions, levels);
    Be32EncInto(hash, wordHash[..]);
    ok := true;
  }

  /**
   * NoelKDF corrected: memory for the last level, memlen without wrapping,
   * each thread key at the start of its thread's segment. allocOk and
   * spawnOk as for NoelKdf.
   */
  method NoelKdfCorrected(h: KeyedHash, hash: array<byte>, memSize: word, startGarlic: word, stopGarlic: word,
                          blockSize: word, parallelism: word, repetitions: word, allocOk: bool, spawnOk: bool,
                          junk: nat -> word)
    returns (ok: bool)
    requires hash.Length < TWO32
    requires EngineParameters(hash.Length, memSize, startGarlic, stopGarlic, blockSize, parallelism, repetitions)
    modifies hash
    ensures ok == (allocOk && spawnOk)
    ensures ok ==> hash[..] == CorrectedHash(h, old(hash[..]), memSize, startGarlic, stopGarlic, blockSize,
                                             parallelism, repetitions, junk)
    ensures !ok ==> hash[..] == old(hash[..])
  {
    var hashlen := hash.Length / 4;
    var wordHash := new word[hashlen];
    Be32DecInto(wordHash, 0, hash[..]);
    assert wordHash[..] == Be32DecVect(hash[..]);
    var blocklen := blockSize / 4;
    var numblocks := NoelKdfRef.NumBlocks(memSize, blocklen, parallelism);
    if !allocOk || !spawnOk {
      return false;
    }
    var words := NoelKdfRef.MemWords(memSize, blockSize, parallelism, stopGarlic - startGarlic);
    var mem := new word[words](k requires 0 <= k => junk(k));
    ghost var st0 := NoelKdfRef.State(wordHash[..], mem[..]);
    assert st0 == NoelKdfRef.State(Be32DecVect(old(hash[..])), seq(words, k requires 0 <= k => junk(k)));
    var levels: nat := stopGarlic + 1 - startGarlic;
    TighterThanReference(hash.Length, 1, 4, memSize, startGarlic, stopGarlic, 0, blockSize, parallelism, repetitions);
    NoelKdfRef.LevelsFitBelow(hash.Length, memSize, stopGarlic - startGarlic, blockSize, parallelism, levels);
    RunGarlic(AtSegmentStart, h, wordHash, mem, blocklen, numblocks, parallelism, repetitions, levels);
    Be32EncInto(hash, wordHash[..]);
    ok := true;
  }
}
