/**
 * The TigerKDF engine of tigerkdf-sse.c, run one thread after another: each
 * pass keeps its own eight-word state, the thread key is written at the
 * start of the thread's own segment, the hash is XOR-ed byte by byte, and
 * the hash is rehashed after every garlic level (but the last when
 * skipLastHash holds). The SSE block mixer is a parameter.
 *
 * memSize is in KiB here: memory is 1024 * memSize / 4 words.
 */
module TigerKdfSse {
  import opened Words
  import opened Addressing
  import Passes
  import NoelKdfRef

  // ---------------------------------------------------------------------
  // The block mixer
  // ---------------------------------------------------------------------

  /** The state every pass starts from: eight words of 1. */
  const InitialState: seq<word> := [1, 1, 1, 1, 1, 1, 1, 1]

  /**
   * The number of words one hashBlocks call stores. Memory is read and
   * written as 128-bit slots of four words; each pass of the inner loop
   * handles slots i and i + 1 and moves i on by two, while i < blocklen / 8.
   * So blocklen / 8 slots are stored, rounded up to an even number.
   */
  function Sweep(bl: nat): (n: nat)
    ensures n <= bl && n % 8 == 0
  {
    var q := bl / 8;
    assert (q + 1) / 2 <= q || q == 0;
    8 * ((q + 1) / 2)
  }

  /**
   * The bound of hashBlocks' inner loop: blocklen / 8 as tigerkdf-sse.c has
   * it, which sweeps Sweep(blocklen) words, or the bound that sweeps the
   * whole block (blocklen / 4 when blocklen is a multiple of 8 words,
   * CorrectedSweepCoversBlock).
   */
  datatype LoopBound = AsWrittenBound | WholeBlockBound

  /** The number of words of each block hashBlocks reads and stores under bound. */
  function Swept(bound: LoopBound, bl: nat): (n: nat)
    ensures n <= bl
    ensures bound == WholeBlockBound ==> n == bl
  {
    match bound
    case AsWrittenBound => Sweep(bl)
    case WholeBlockBound => bl
  }

  /**
   * hashBlocks' arithmetic, seen from outside: from the state, the words
   * read of the previous block and of the block mixed in, and the
   * repetition count, the new eight-word state and one word to store per
   * word read. What the SSE lanes compute is not modelled.
   */
  type Lanes = f: (seq<word>, seq<word>, seq<word>, nat) -> (seq<word>, seq<word>)
    | forall state, prev, from, reps ::
        |f(state, prev, from, reps).0| == 8 && |f(state, prev, from, reps).1| == |prev|
    witness (state: seq<word>, prev: seq<word>, from: seq<word>, reps: nat) => ([1, 1, 1, 1, 1, 1, 1, 1], prev)

  /** hashBlocks: the bound of its loop and its arithmetic. */
  datatype BlockMixer = Mixer(bound: LoopBound, lanes: Lanes)

  /** What a pass carries from block to block: memory and its state. */
  datatype Run = Run(mem: seq<word>, state: seq<word>)

  /**
   * The mixer applied for the block at to: it reads the first Swept(bound, blocklen)
   * words of the block before to and of the block at from.
   */
  function MixOut(mix: BlockMixer, s: Run, bl: nat, from: nat, to: nat, reps: nat): (out: (seq<word>, seq<word>))
    requires bl <= to && to + bl <= |s.mem| && from + bl <= |s.mem|
    ensures |out.0| == 8 && |out.1| == Swept(mix.bound, bl) <= bl
  {
    var n := Swept(mix.bound, bl);
    var prev := s.mem[to - bl .. to - bl + n];
    assert |prev| == n;
    mix.lanes(s.state, prev, s.mem[from .. from + n], reps)
  }

  /**
   * hashBlocks(state, mem, blocklen, from, to, repetitions) with to, from and
   * blocklen multiples of four words: the mixer's words stored from to on,
   * its state kept. Nothing else in memory changes; in particular the block
   * at to past the first Swept(bound, blocklen) words keeps what it held.
   */
  function MixAt(mix: BlockMixer, s: Run, bl: nat, from: nat, to: nat, reps: nat): (r: Run)
    requires bl <= to && to + bl <= |s.mem| && from + bl <= |s.mem|
    ensures |r.mem| == |s.mem| && |r.state| == 8
  {
    var out := MixOut(mix, s, bl, from, to, reps);
    Run(WriteWords(s.mem, to, out.1), out.0)
  }

  /** A word outside the block at to is the same after MixAt. */
  lemma MixAtFrame(mix: BlockMixer, s: Run, bl: nat, from: nat, to: nat, reps: nat, k: nat)
    requires bl <= to && to + bl <= |s.mem| && from + bl <= |s.mem| && k < |s.mem|
    requires k < to || to + bl <= k
    ensures MixAt(mix, s, bl, from, to, reps).mem[k] == s.mem[k]
  {
    WriteWordsPoint(s.mem, to, MixOut(mix, s, bl, from, to, reps).1, k);
  }

  /** A multiple of a multiple of four words is a whole number of slots. */
  lemma WholeSlots(bl: nat, a: nat)
    requires bl % 4 == 0
    ensures (a * bl) % 4 == 0 && (bl * a) % 4 == 0
  {
    var m := bl / 4;
    assert bl == 4 * m;
    MulAssoc(a, 4, m);
    DivUnique(a * bl, 4, a * m, 0);
  }

  /** Block j of a run that starts on a slot starts on a slot. */
  lemma SlotAt(base: nat, bl: nat, j: nat)
    requires base % 4 == 0 && bl % 4 == 0
    ensures (base + bl * j) % 4 == 0
  {
    var b, m := base / 4, bl / 4;
    assert base == 4 * b && bl == 4 * m;
    MulAssoc(4, m, j);
    DivUnique(base + bl * j, 4, b + m * j, 0);
  }

  /**
   * Word d of block b, for d at or past Swept(bound, blocklen), lies past what
   * hashBlocks stores into any block: MixAt at block address c * blocklen
   * leaves it alone, whether c is b or not.
   */
  lemma MixAtTail(mix: BlockMixer, s: Run, bl: nat, from: nat, c: nat, reps: nat, b: nat, d: nat, k: nat)
    requires bl <= c * bl && c * bl + bl <= |s.mem| && from + bl <= |s.mem|
    requires Swept(mix.bound, bl) <= d < bl && k == b * bl + d && k < |s.mem|
    ensures MixAt(mix, s, bl, from, c * bl, reps).mem[k] == s.mem[k]
  {
    if b != c {
      Passes.BlocksApart(bl, b, c);
    }
    WriteWordsPoint(s.mem, c * bl, MixOut(mix, s, bl, from, c * bl, reps).1, k);
  }

  /** The words of ws stored from address at on, nothing else changed. */
  method StoreWords(mem: array<word>, at: nat, ws: seq<word>)
    requires at + |ws| <= mem.Length
    modifies mem
    ensures mem[..] == WriteWords(old(mem[..]), at, ws)
  {
    ghost var m0 := mem[..];
    forall k | 0 <= k < |ws| {
      mem[at + k] := ws[k];
    }
    WriteWordsFrom(m0, at, ws, mem[..]);
  }

  /**
   * hashBlocks with the mixer abstracted, for addresses that are whole
   * slots: the state array and the first Swept(bound, blocklen) words of the block
   * at toAddr receive what the mixer returns.
   */
  method HashBlocks(mix: BlockMixer, state: array<word>, mem: array<word>, blocklen: nat, fromAddr: nat,
                    toAddr: nat, repetitions: nat)
    requires repetitions >= 1
    requires state != mem && state.Length == 8
    requires blocklen % 4 == 0 && toAddr % 4 == 0 && fromAddr % 4 == 0
    requires blocklen <= toAddr && toAddr + blocklen <= mem.Length && fromAddr + blocklen <= mem.Length
    modifies state, mem
    ensures Run(mem[..], state[..]) == MixAt(mix, Run(old(mem[..]), old(state[..])), blocklen, fromAddr, toAddr, repetitions)
  {
    var cur := mem[..];
    ghost var s0 := Run(cur, state[..]);
    var prevAddr := toAddr - blocklen;
    var n := Swept(mix.bound, blocklen);
    var out := mix.lanes(state[..], cur[prevAddr .. prevAddr + n], cur[fromAddr .. fromAddr + n], repetitions);
    assert out == MixOut(mix, s0, blocklen, fromAddr, toAddr, repetitions);
    StoreWords(mem, toAddr, out.1);
    forall k | 0 <= k < 8 {
      state[k] := out.0[k];
    }
    assert state[..] == out.0;
  }

  /**
   * The words hashBlocks stores into, as the C computes them: from slot
   * toAddr / 4 on, Sweep(blocklen) words.
   */
  predicate Stored(bl: nat, to: nat, k: nat)
  {
    4 * (to / 4) <= k < 4 * (to / 4) + Sweep(bl)
  }

  /**
   * When blocklen is a multiple of 4 words, every block address j * blocklen
   * is a whole slot, and the words stored are the first Sweep(blocklen) of
   * the block, the words MixAt writes.
   */
  lemma StoredAtBlock(bl: nat, j: nat, k: nat)
    requires bl % 4 == 0
    ensures Stored(bl, j * bl, k) <==> j * bl <= k < j * bl + Sweep(bl)
  {
    var m := bl / 4;
    assert bl == 4 * m;
    assert j * bl == 4 * (j * m) by {
      MulAssoc(j, 4, m);
    }
    assert (j * bl) / 4 == j * m;
  }

  /**
   * When blocklen is a multiple of 16 words, hashBlocks stores exactly the
   * first half of the block: with 4096-byte blocks (blocklen 1024), words
   * 0 .. 511 of each block.
   */
  lemma HalfBlockStored(bl: nat)
    requires bl % 16 == 0
    ensures 2 * Sweep(bl) == bl
  {
    var q := bl / 8;
    assert bl == 8 * q && q % 2 == 0;
    assert (q + 1) / 2 == q / 2;
  }

  /**
   * Block sizes that the TigerKDF parameter check accepts (whole words, at
   * least hashSize bytes) but whose block addresses are not whole slots,
   * so that hashBlocks stores across a block boundary. With blocklen 9 (36
   * bytes), the store for block 1 covers words 8 .. 15: it overwrites the
   * last word of block 0, the thread key. With blocklen 4 (16 bytes) nothing
   * is stored at all.
   */
  lemma UnalignedBlocksMiss(k: nat)
    ensures !Stored(4, 4, k)
    ensures Stored(9, 9, 8) && Stored(9, 9, 15) && !Stored(9, 9, 16)
  {
  }

  /**
   * What the loop stores with the bound blocklen / 4 in place of
   * blocklen / 8: blocklen / 4 slots rounded up to an even number.
   */
  function CorrectedSweep(bl: nat): nat
  {
    8 * ((bl / 4 + 1) / 2)
  }

  /** With that bound and blocklen a multiple of 8 words, the whole block is stored. */
  lemma CorrectedSweepCoversBlock(bl: nat)
    requires bl % 8 == 0
    ensures CorrectedSweep(bl) == bl
  {
    var r := bl / 8;
    assert bl == 8 * r;
    assert bl / 4 == 2 * r;
    assert (2 * r + 1) / 2 == r;
  }

  // ---------------------------------------------------------------------
  // hashWithoutPassword
  // ---------------------------------------------------------------------

  /** The thread key: H(hash, be32(p)) of blocklen * 4 bytes, read as big-endian words. */
  function ThreadKey(h: KeyedHash, hash: seq<byte>, p: word, bl: nat): (key: seq<word>)
    ensures |key| == bl
    ensures Be32EncVect(key) == h(hash, Be32Enc(p), bl * 4)
  {
    var bytes := h(hash, Be32Enc(p), bl * 4);
    VectEncodeDecode(bytes);
    Be32DecVect(bytes)
  }

  /** Block k of the run at start mixed from block k - 1 and block IndependentSource(k) < k. */
  function IndependentStep(mix: BlockMixer, s: Run, start: nat, bl: nat, nb: nat, reps: nat, k: nat): (r: Run)
    requires 1 <= k < nb && start + bl * nb <= |s.mem|
    ensures |r.mem| == |s.mem| && |r.state| == 8
  {
    Passes.RunBlocks(start, bl, nb, k, IndependentSource(k));
    MixAt(mix, s, bl, start + bl * IndependentSource(k), start + bl * k, reps)
  }

  /** Memory and state once blocks 1 .. i - 1 of the run at start are filled, from the initial state. */
  function IndependentFill(mix: BlockMixer, m: seq<word>, start: nat, bl: nat, nb: nat, reps: nat, i: nat): (r: Run)
    requires 1 <= i <= nb && start + bl * nb <= |m|
    ensures |r.mem| == |m| && |r.state| == 8
    decreases i
  {
    if i == 1 then Run(m, InitialState)
    else IndependentStep(mix, IndependentFill(mix, m, start, bl, nb, reps, i - 1), start, bl, nb, reps, i - 1)
  }

  /** IndependentStep writes only block k: the words before block 1 and past the run stay. */
  lemma IndependentStepFrame(mix: BlockMixer, s: Run, start: nat, bl: nat, nb: nat, reps: nat, j: nat, k: nat)
    requires 1 <= j < nb && start + bl * nb <= |s.mem| && k < |s.mem|
    requires k < start + bl || start + bl * nb <= k
    ensures IndependentStep(mix, s, start, bl, nb, reps, j).mem[k] == s.mem[k]
  {
    var src := IndependentSource(j);
    Passes.RunStepApart(start, bl, nb, j, src, k);
    MixAtFrame(mix, s, bl, start + bl * src, start + bl * j, reps, k);
  }

  /** Filling the run writes neither its block 0 nor anything outside it. */
  lemma {:induction false} IndependentFillFrame(mix: BlockMixer, m: seq<word>, start: nat, bl: nat, nb: nat,
                                                reps: nat, i: nat, k: nat)
    requires 1 <= i <= nb && start + bl * nb <= |m| && k < |m|
    requires k < start + bl || start + bl * nb <= k
    ensures IndependentFill(mix, m, start, bl, nb, reps, i).mem[k] == m[k]
    decreases i
  {
    if i > 1 {
      var prev := IndependentFill(mix, m, start, bl, nb, reps, i - 1);
      IndependentFillFrame(mix, m, start, bl, nb, reps, i - 1, k);
      IndependentStepFrame(mix, prev, start, bl, nb, reps, i - 1, k);
      assert IndependentFill(mix, m, start, bl, nb, reps, i) == IndependentStep(mix, prev, start, bl, nb, reps, i - 1);
    }
  }

  /**
   * hashWithoutPassword(p): the thread key written at the first block of
   * thread p's independent segment, then blocks 1 .. numblocks - 1 of that
   * segment filled from the initial state.
   */
  function WithoutPassword(mix: BlockMixer, h: KeyedHash, hash: seq<byte>, m: seq<word>, p: nat, par: nat,
                           bl: nat, nb: nat, reps: nat): (r: seq<word>)
    requires p < par <= TWO32 && nb >= 1 && 2 * par * nb * bl <= |m|
    ensures |r| == |m|
  {
    var start := Passes.SegmentStart(p, nb, bl);
    Passes.IndependentSegment(p, par, nb, bl);
    Passes.BlockInRun(start, bl, 0, nb);
    IndependentFill(mix, WriteWords(m, start, ThreadKey(h, hash, p, bl)), start, bl, nb, reps, nb).mem
  }

  /** After hashWithoutPassword(p) the first block of thread p's independent segment holds the thread key. */
  lemma WithoutPasswordKeepsKey(mix: BlockMixer, h: KeyedHash, hash: seq<byte>, m: seq<word>, p: nat, par: nat,
                                bl: nat, nb: nat, reps: nat)
    requires p < par <= TWO32 && nb >= 1 && 2 * par * nb * bl <= |m|
    ensures var start := Passes.SegmentStart(p, nb, bl);
      start + bl <= |m| && WithoutPassword(mix, h, hash, m, p, par, bl, nb, reps)[start .. start + bl] == ThreadKey(h, hash, p, bl)
  {
    var start := Passes.SegmentStart(p, nb, bl);
    Passes.IndependentSegment(p, par, nb, bl);
    Passes.BlockInRun(start, bl, 0, nb);
    var key := ThreadKey(h, hash, p, bl);
    var seeded := WriteWords(m, start, key);
    var r := WithoutPassword(mix, h, hash, m, p, par, bl, nb, reps);
    forall k | start <= k < start + bl
      ensures r[k] == key[k - start]
    {
      IndependentFillFrame(mix, seeded, start, bl, nb, reps, nb, k);
      WriteWordsPoint(m, start, key, k);
    }
  }

  /** hashWithoutPassword(p) changes no word outside thread p's independent segment. */
  lemma WithoutPasswordFrame(mix: BlockMixer, h: KeyedHash, hash: seq<byte>, m: seq<word>, p: nat, par: nat,
                             bl: nat, nb: nat, reps: nat, k: nat)
    requires p < par <= TWO32 && nb >= 1 && 2 * par * nb * bl <= |m| && k < |m|
    requires k < Passes.SegmentStart(p, nb, bl) || Passes.SegmentStart(p, nb, bl) + bl * nb <= k
    ensures WithoutPassword(mix, h, hash, m, p, par, bl, nb, reps)[k] == m[k]
  {
    var start := Passes.SegmentStart(p, nb, bl);
    Passes.IndependentSegment(p, par, nb, bl);
    Passes.BlockInRun(start, bl, 0, nb);
    var key := ThreadKey(h, hash, p, bl);
    IndependentFillFrame(mix, WriteWords(m, start, key), start, bl, nb, reps, nb, k);
    WriteWordsPoint(m, start, key, k);
  }

  /** be32dec_vect(mem + start, H(hash, be32(p)), blocklen * 4). */
  method WriteThreadKey(h: KeyedHash, p: word, hash: array<byte>, mem: array<word>, start: nat, blocklen: nat)
    requires start + blocklen <= mem.Length
    modifies mem
    ensures mem[..] == WriteWords(old(mem[..]), start, ThreadKey(h, hash[..], p, blocklen))
  {
    var salt := Be32Enc(p);
    var threadKey := h(hash[..], salt, blocklen * 4);
    Be32DecInto(mem, start, threadKey);
  }

  /** One round of hashWithoutPassword's loop: mask and reversePos updated, then block i mixed. */
  method HashIndependentBlock(mix: BlockMixer, state: array<word>, mem: array<word>, start: nat, blocklen: nat,
                              numblocks: nat, repetitions: nat, i: nat, mask: nat, toAddr: nat)
    returns (newMask: nat)
    requires repetitions >= 1
    requires state != mem && state.Length == 8
    requires 1 <= i < numblocks < 0x8000_0000 && start + blocklen * numblocks <= mem.Length
    requires blocklen % 4 == 0 && start % 4 == 0
    requires mask == MaskAfter(i - 1) && toAddr == start + blocklen * i
    modifies state, mem
    ensures newMask == MaskAfter(i)
    ensures Run(mem[..], state[..]) == IndependentStep(mix, Run(old(mem[..]), old(state[..])), start, blocklen, numblocks, repetitions, i)
  {
    var reversePos;
    newMask, reversePos := NextIndependentSource(i, mask);
    MulMono(blocklen, 0, reversePos);
    var fromAddr := start + blocklen * reversePos;
    SlotAt(start, blocklen, reversePos);
    assert fromAddr % 4 == 0;
    SlotAt(start, blocklen, i);
    IndependentStepAt(mix, Run(mem[..], state[..]), start, blocklen, numblocks, repetitions, i, fromAddr, toAddr);
    HashBlocks(mix, state, mem, blocklen, fromAddr, toAddr, repetitions);
  }

  /** IndependentStep is MixAt at the addresses hashWithoutPassword computes, and those lie inside memory. */
  lemma IndependentStepAt(mix: BlockMixer, s: Run, start: nat, bl: nat, nb: nat, reps: nat, i: nat,
                          fromAddr: nat, toAddr: nat)
    requires 1 <= i < nb && start + bl * nb <= |s.mem|
    requires fromAddr == start + bl * IndependentSource(i) && toAddr == start + bl * i
    ensures bl <= toAddr && toAddr + bl <= |s.mem| && fromAddr + bl <= |s.mem|
    ensures IndependentStep(mix, s, start, bl, nb, reps, i) == MixAt(mix, s, bl, fromAddr, toAddr, reps)
  {
    Passes.RunBlocks(start, bl, nb, i, IndependentSource(i));
  }

  /** The loop of hashWithoutPassword, with its own state starting at eight 1s. */
  method FillIndependentBlocks(mix: BlockMixer, mem: array<word>, start: nat, blocklen: nat, numblocks: nat,
                               repetitions: nat)
    requires repetitions >= 1
    requires 1 <= numblocks < 0x8000_0000 && start + blocklen * numblocks <= mem.Length
    requires blocklen % 4 == 0 && start % 4 == 0
    modifies mem
    ensures mem[..] == IndependentFill(mix, old(mem[..]), start, blocklen, numblocks, repetitions, numblocks).mem
  {
    ghost var m0 := mem[..];
    var state := new word[8](_ => 1);
    assert state[..] == InitialState;
    var mask := 1;
    var toAddr: nat := start + blocklen;
    var i: nat := 1;
    while i < numblocks
      invariant 1 <= i <= numblocks && mask == MaskAfter(i - 1)
      invariant toAddr == start + blocklen * i
      invariant Run(mem[..], state[..]) == IndependentFill(mix, m0, start, blocklen, numblocks, repetitions, i)
    {
      mask := HashIndependentBlock(mix, state, mem, start, blocklen, numblocks, repetitions, i, mask, toAddr);
      Passes.NextBlock(start, blocklen, i);
      toAddr := toAddr + blocklen;
      i := i + 1;
    }
  }

  /** hashWithoutPassword(p): thread key at the segment start, then the segment filled. */
  method HashWithoutPassword(mix: BlockMixer, h: KeyedHash, p: nat, hash: array<byte>, mem: array<word>,
                             blocklen: nat, numblocks: nat, parallelism: nat, repetitions: nat)
    requires repetitions >= 1
    requires p < parallelism <= TWO32 && 1 <= numblocks < 0x8000_0000 && blocklen % 4 == 0
    requires 2 * parallelism * numblocks * blocklen <= mem.Length
    modifies mem
    ensures mem[..] == WithoutPassword(mix, h, hash[..], old(mem[..]), p, parallelism, blocklen, numblocks, repetitions)
  {
    ghost var m0 := mem[..];
    var start := Passes.SegmentStart(p, numblocks, blocklen);
    Passes.IndependentSegment(p, parallelism, numblocks, blocklen);
    Passes.BlockInRun(start, blocklen, 0, numblocks);
    WholeSlots(blocklen, 2 * p * numblocks);
    WriteThreadKey(h, p, hash, mem, start, blocklen);
    assert WithoutPassword(mix, h, hash[..], m0, p, parallelism, blocklen, numblocks, repetitions)
        == IndependentFill(mix, mem[..], start, blocklen, numblocks, repetitions, numblocks).mem;
    FillIndependentBlocks(mix, mem, start, blocklen, numblocks, repetitions);
  }

  // ---------------------------------------------------------------------
  // hashWithPassword
  // ---------------------------------------------------------------------

  /**
   * Block k of thread p's dependent segment, mixed from the block before it
   * (for k = 0 the last block of the thread's independent segment) and the
   * block chosen by the distance of the state's first word.
   */
  function DependentStep(mix: BlockMixer, s: Run, p: nat, par: nat, bl: nat, nb: nat, reps: nat, k: nat): (r: Run)
    requires p < par && k < nb <= 0x8000_0000 && 2 * par * nb * bl <= |s.mem| && |s.state| == 8
    ensures |r.mem| == |s.mem| && |r.state| == 8
  {
    var distance := Distance(s.state[0], k, nb);
    Passes.DepBlocks(p, par, nb, bl, k, distance);
    MixAt(mix, s, bl, Passes.DepFrom(p, par, nb, bl, k, distance), Passes.DepStart(p, nb, bl) + bl * k, reps)
  }

  /** Memory and state once blocks 0 .. i - 1 of thread p's dependent segment are filled, from the initial state. */
  function DependentFill(mix: BlockMixer, m: seq<word>, p: nat, par: nat, bl: nat, nb: nat, reps: nat, i: nat): (r: Run)
    requires p < par && i <= nb <= 0x8000_0000 && 2 * par * nb * bl <= |m|
    ensures |r.mem| == |m| && |r.state| == 8
    decreases i
  {
    if i == 0 then Run(m, InitialState)
    else DependentStep(mix, DependentFill(mix, m, p, par, bl, nb, reps, i - 1), p, par, bl, nb, reps, i - 1)
  }

  /** DependentStep writes only block k of thread p's dependent segment. */
  lemma DependentStepFrame(mix: BlockMixer, s: Run, p: nat, par: nat, bl: nat, nb: nat, reps: nat, j: nat, k: nat)
    requires p < par && j < nb <= 0x8000_0000 && 2 * par * nb * bl <= |s.mem| && |s.state| == 8 && k < |s.mem|
    requires k < Passes.DepStart(p, nb, bl) || Passes.DepStart(p, nb, bl) + bl * nb <= k
    ensures DependentStep(mix, s, p, par, bl, nb, reps, j).mem[k] == s.mem[k]
  {
    var distance := Distance(s.state[0], j, nb);
    var start := Passes.DepStart(p, nb, bl);
    Passes.DepBlocks(p, par, nb, bl, j, distance);
    Passes.BlockInRun(start, bl, j, nb);
    MixAtFrame(mix, s, bl, Passes.DepFrom(p, par, nb, bl, j, distance), start + bl * j, reps, k);
  }

  /** Filling thread p's dependent segment changes no word outside it. */
  lemma {:induction false} DependentFillFrame(mix: BlockMixer, m: seq<word>, p: nat, par: nat, bl: nat, nb: nat,
                                              reps: nat, i: nat, k: nat)
    requires p < par && i <= nb <= 0x8000_0000 && 2 * par * nb * bl <= |m| && k < |m|
    requires k < Passes.DepStart(p, nb, bl) || Passes.DepStart(p, nb, bl) + bl * nb <= k
    ensures DependentFill(mix, m, p, par, bl, nb, reps, i).mem[k] == m[k]
    decreases i
  {
    if i > 0 {
      var prev := DependentFill(mix, m, p, par, bl, nb, reps, i - 1);
      DependentFillFrame(mix, m, p, par, bl, nb, reps, i - 1, k);
      DependentStepFrame(mix, prev, p, par, bl, nb, reps, i - 1, k);
      assert DependentFill(mix, m, p, par, bl, nb, reps, i) == DependentStep(mix, prev, p, par, bl, nb, reps, i - 1);
    }
  }

  /**
   * One round of hashWithPassword's loop: the cubic distance of state[0],
   * the address of an earlier block of the thread's own dependent segment
   * when distance < i and of a block of thread (p + i) % parallelism's
   * independent segment otherwise, then block i mixed.
   */
  method HashDependentBlock(mix: BlockMixer, p: nat, state: array<word>, mem: array<word>, blocklen: nat,
                            numblocks: nat, parallelism: nat, repetitions: nat, i: nat, toAddr: nat)
    requires repetitions >= 1
    requires state != mem && state.Length == 8
    requires p < parallelism && i < numblocks < 0x8000_0000 && blocklen % 4 == 0
    requires 2 * parallelism * numblocks * blocklen <= mem.Length
    requires toAddr == Passes.DepStart(p, numblocks, blocklen) + blocklen * i
    modifies state, mem
    ensures Run(mem[..], state[..]) == DependentStep(mix, Run(old(mem[..]), old(state[..])), p, parallelism, blocklen, numblocks, repetitions, i)
  {
    var distance, fromAddr := Passes.DependentFromAddr(p, parallelism, numblocks, blocklen, i, state[0]);
    DependentSlots(p, parallelism, numblocks, blocklen, i, distance, fromAddr, toAddr);
    DependentStepAt(mix, Run(mem[..], state[..]), p, parallelism, blocklen, numblocks, repetitions, i, fromAddr, toAddr);
    HashBlocks(mix, state, mem, blocklen, fromAddr, toAddr, repetitions);
  }

  /** With blocklen a multiple of 4 words, both addresses of a dependent step are whole slots. */
  lemma DependentSlots(p: nat, par: nat, nb: nat, bl: nat, i: nat, distance: nat, fromAddr: nat, toAddr: nat)
    requires p < par && i < nb && bl % 4 == 0
    requires if i + nb >= 2 then distance <= i + nb - 2 else distance == 0
    requires fromAddr == Passes.DepFrom(p, par, nb, bl, i, distance)
    requires toAddr == Passes.DepStart(p, nb, bl) + bl * i
    ensures fromAddr % 4 == 0 && toAddr % 4 == 0
  {
    WholeSlots(bl, DependentSource(p, par, nb, i, distance));
    WholeSlots(bl, 2 * p * nb + nb);
    SlotAt(Passes.DepStart(p, nb, bl), bl, i);
  }

  /** DependentStep is MixAt at the addresses hashWithPassword computes, and those lie inside memory. */
  lemma DependentStepAt(mix: BlockMixer, s: Run, p: nat, par: nat, bl: nat, nb: nat, reps: nat, i: nat,
                        fromAddr: nat, toAddr: nat)
    requires p < par && i < nb <= 0x8000_0000 && 2 * par * nb * bl <= |s.mem| && |s.state| == 8
    requires fromAddr == Passes.DepFrom(p, par, nb, bl, i, Distance(s.state[0], i, nb))
    requires toAddr == Passes.DepStart(p, nb, bl) + bl * i
    ensures bl <= toAddr && toAddr + bl <= |s.mem| && fromAddr + bl <= |s.mem|
    ensures DependentStep(mix, s, p, par, bl, nb, reps, i) == MixAt(mix, s, bl, fromAddr, toAddr, reps)
  {
    Passes.DepBlocks(p, par, nb, bl, i, Distance(s.state[0], i, nb));
  }

  /** hashWithPassword(p): every block of thread p's dependent segment, with its own state starting at eight 1s. */
  method HashWithPassword(mix: BlockMixer, p: nat, mem: array<word>, blocklen: nat, numblocks: nat,
                          parallelism: nat, repetitions: nat)
    requires repetitions >= 1
    requires p < parallelism && 1 <= numblocks < 0x8000_0000 && blocklen % 4 == 0
    requires 2 * parallelism * numblocks * blocklen <= mem.Length
    modifies mem
    ensures mem[..] == DependentFill(mix, old(mem[..]), p, parallelism, blocklen, numblocks, repetitions, numblocks).mem
  {
    ghost var m0 := mem[..];
    var state := new word[8](_ => 1);
    assert state[..] == InitialState;
    var start := Passes.DepStart(p, numblocks, blocklen);
    var toAddr: nat := start;
    var i: nat := 0;
    while i < numblocks
      invariant i <= numblocks && toAddr == start + blocklen * i
      invariant Run(mem[..], state[..]) == DependentFill(mix, m0, p, parallelism, blocklen, numblocks, repetitions, i)
    {
      HashDependentBlock(mix, p, state, mem, blocklen, numblocks, parallelism, repetitions, i, toAddr);
      Passes.NextBlock(start, blocklen, i);
      toAddr := toAddr + blocklen;
      i := i + 1;
    }
  }

  // ---------------------------------------------------------------------
  // xorIntoHash
  // ---------------------------------------------------------------------

  /**
   * The hash after XOR-ing in, byte by byte, the big-endian encoding of the
   * last hashSize / 4 words of the dependent segments of threads 0 .. p - 1.
   */
  function XorLast(hash: seq<byte>, m: seq<word>, bl: nat, nb: nat, p: nat): (r: seq<byte>)
    requires |hash| % 4 == 0 && |hash| / 4 <= 2 * nb * bl && 2 * p * nb * bl <= |m|
    ensures |r| == |hash|
  {
    if p == 0 then hash
    else
      var q := p - 1;
      Passes.SegmentEnds(q, p, nb, bl);
      var pos := 2 * (q + 1) * nb * bl - |hash| / 4;
      XorBytes(XorLast(hash, m, bl, nb, q), Be32EncVect(m[pos .. pos + |hash| / 4]))
  }

  /** hash[i] ^= data[i] for every i. */
  method XorBytesInto(hash: array<byte>, data: array<byte>)
    requires hash != data && hash.Length == data.Length
    modifies hash
    ensures hash[..] == XorBytes(old(hash[..]), data[..])
  {
    ghost var before := hash[..];
    var i: nat := 0;
    while i < hash.Length
      invariant i <= hash.Length
      invariant forall k :: 0 <= k < i ==> hash[k] == Xor8(before[k], data[k])
      invariant forall k :: i <= k < hash.Length ==> hash[k] == before[k]
    {
      hash[i] := Xor8(hash[i], data[i]);
      i := i + 1;
    }
  }

  /** One round of xorIntoHash: data = be32enc_vect(mem + pos), then hash ^= data. */
  method XorThreadInto(hash: array<byte>, data: array<byte>, mem: array<word>, pos: nat)
    requires hash != data && hash.Length == data.Length && hash.Length % 4 == 0
    requires pos + hash.Length / 4 <= mem.Length
    modifies hash, data
    ensures hash[..] == XorBytes(old(hash[..]), Be32EncVect(mem[pos .. pos + hash.Length / 4]))
  {
    Be32EncInto(data, mem[pos .. pos + hash.Length / 4]);
    XorBytesInto(hash, data);
  }

  /** xorIntoHash: for every thread, the last words of its dependent segment, encoded, XOR-ed into hash; mem is only read. */
  method XorIntoHash(hash: array<byte>, mem: array<word>, blocklen: nat, numblocks: nat, parallelism: nat)
    requires hash.Length % 4 == 0 && hash.Length / 4 <= 2 * numblocks * blocklen
    requires 2 * parallelism * numblocks * blocklen <= mem.Length
    modifies hash
    ensures hash[..] == XorLast(old(hash[..]), mem[..], blocklen, numblocks, parallelism)
  {
    ghost var h0 := hash[..];
    var data := new byte[hash.Length];
    var p: nat := 0;
    while p < parallelism
      invariant p <= parallelism
      invariant hash[..] == XorLast(h0, mem[..], blocklen, numblocks, p)
    {
      var pos := 2 * (p + 1) * numblocks * blocklen - hash.Length / 4;
      XorLastNext(h0, mem[..], blocklen, numblocks, parallelism, p, pos);
      XorThreadInto(hash, data, mem, pos);
      p := p + 1;
    }
  }

  /** The words XOR-ed in for thread p end its dependent segment, inside memory; XorLast adds them to the hash. */
  lemma XorLastNext(hash: seq<byte>, m: seq<word>, bl: nat, nb: nat, par: nat, p: nat, pos: int)
    requires |hash| % 4 == 0 && |hash| / 4 <= 2 * nb * bl && 2 * par * nb * bl <= |m| && p < par
    requires pos == 2 * (p + 1) * nb * bl - |hash| / 4
    ensures 0 <= pos && pos + |hash| / 4 <= |m| && 2 * (p + 1) * nb * bl <= |m|
    ensures XorLast(hash, m, bl, nb, p + 1) == XorBytes(XorLast(hash, m, bl, nb, p), Be32EncVect(m[pos .. pos + |hash| / 4]))
  {
    Passes.SegmentEnds(p, par, nb, bl);
  }

  // ---------------------------------------------------------------------
  // One garlic level
  // ---------------------------------------------------------------------

  /** What TigerKDF carries from level to level: the hash and memory. */
  datatype Tiger = Tiger(hash: seq<byte>, mem: seq<word>)

  /** A level fits: the hash is whole words, and the level fits memory as NoelKdfRef.LevelFits says. */
  predicate LevelFits(par: nat, bl: nat, nb: nat, len: nat, hashSize: nat)
  {
    hashSize % 4 == 0 && NoelKdfRef.LevelFits(par, bl, nb, len, hashSize / 4)
  }

  /** hashWithoutPassword for threads 0 .. p - 1, one after the other. */
  function AllWithoutPassword(mix: BlockMixer, h: KeyedHash, hash: seq<byte>, m: seq<word>, par: nat, bl: nat,
                              nb: nat, reps: nat, p: nat): (r: seq<word>)
    requires p <= par <= TWO32 && nb >= 1 && 2 * par * nb * bl <= |m|
    ensures |r| == |m|
  {
    if p == 0 then m
    else WithoutPassword(mix, h, hash, AllWithoutPassword(mix, h, hash, m, par, bl, nb, reps, p - 1), p - 1, par, bl, nb, reps)
  }

  /** hashWithPassword for threads 0 .. p - 1, one after the other. */
  function AllWithPassword(mix: BlockMixer, m: seq<word>, par: nat, bl: nat, nb: nat, reps: nat, p: nat): (r: seq<word>)
    requires p <= par && nb <= 0x8000_0000 && 2 * par * nb * bl <= |m|
    ensures |r| == |m|
  {
    if p == 0 then m
    else DependentFill(mix, AllWithPassword(mix, m, par, bl, nb, reps, p - 1), p - 1, par, bl, nb, reps, nb).mem
  }

  /** One garlic level: every hashWithoutPassword, every hashWithPassword, then xorIntoHash. */
  function Level(mix: BlockMixer, h: KeyedHash, st: Tiger, par: nat, bl: nat, nb: nat, reps: nat): (r: Tiger)
    requires LevelFits(par, bl, nb, |st.mem|, |st.hash|)
    ensures |r.mem| == |st.mem| && |r.hash| == |st.hash|
  {
    var ind := AllWithoutPassword(mix, h, st.hash, st.mem, par, bl, nb, reps, par);
    var dep := AllWithPassword(mix, ind, par, bl, nb, reps, par);
    Tiger(XorLast(st.hash, dep, bl, nb, par), dep)
  }

  /** The first loop of a level: hashWithoutPassword for every thread. */
  method IndependentPasses(mix: BlockMixer, h: KeyedHash, hash: array<byte>, mem: array<word>, blocklen: nat,
                           numblocks: nat, parallelism: nat, repetitions: nat)
    requires repetitions >= 1
    requires parallelism <= TWO32 && 1 <= numblocks < 0x8000_0000 && blocklen % 4 == 0
    requires 2 * parallelism * numblocks * blocklen <= mem.Length
    modifies mem
    ensures mem[..] == AllWithoutPassword(mix, h, hash[..], old(mem[..]), parallelism, blocklen, numblocks, repetitions, parallelism)
  {
    ghost var m0 := mem[..];
    var p: nat := 0;
    while p < parallelism
      invariant p <= parallelism
      invariant mem[..] == AllWithoutPassword(mix, h, hash[..], m0, parallelism, blocklen, numblocks, repetitions, p)
    {
      HashWithoutPassword(mix, h, p, hash, mem, blocklen, numblocks, parallelism, repetitions);
      p := p + 1;
    }
  }

  /** The second loop of a level: hashWithPassword for every thread. */
  method DependentPasses(mix: BlockMixer, mem: array<word>, blocklen: nat, numblocks: nat, parallelism: nat,
                         repetitions: nat)
    requires repetitions >= 1
    requires 1 <= numblocks < 0x8000_0000 && 2 * parallelism * numblocks * blocklen <= mem.Length
    requires blocklen % 4 == 0
    modifies mem
    ensures mem[..] == AllWithPassword(mix, old(mem[..]), parallelism, blocklen, numblocks, repetitions, parallelism)
  {
    ghost var m0 := mem[..];
    var p: nat := 0;
    while p < parallelism
      invariant p <= parallelism
      invariant mem[..] == AllWithPassword(mix, m0, parallelism, blocklen, numblocks, repetitions, p)
    {
      HashWithPassword(mix, p, mem, blocklen, numblocks, parallelism, repetitions);
      p := p + 1;
    }
  }

  /** One garlic level, in place. */
  method RunLevel(mix: BlockMixer, h: KeyedHash, hash: array<byte>, mem: array<word>, blocklen: nat,
                  numblocks: nat, parallelism: nat, repetitions: nat)
    requires repetitions >= 1
    requires LevelFits(parallelism, blocklen, numblocks, mem.Length, hash.Length) && blocklen % 4 == 0
    modifies hash, mem
    ensures Tiger(hash[..], mem[..]) == Level(mix, h, Tiger(old(hash[..]), old(mem[..])), parallelism, blocklen, numblocks, repetitions)
  {
    IndependentPasses(mix, h, hash, mem, blocklen, numblocks, parallelism, repetitions);
    DependentPasses(mix, mem, blocklen, numblocks, parallelism, repetitions);
    XorIntoHash(hash, mem, blocklen, numblocks, parallelism);
  }

  // ---------------------------------------------------------------------
  // What xorIntoHash reads
  // ---------------------------------------------------------------------

  /** Thread p's segments, counted in runs of numblocks blocks: independent at 2p, dependent at 2p + 1. */
  lemma SegmentsInRuns(p: nat, nb: nat, bl: nat)
    ensures var w := nb * bl;
      Passes.SegmentStart(p, nb, bl) == (2 * p) * w &&
      Passes.DepStart(p, nb, bl) == (2 * p + 1) * w &&
      Passes.DepStart(p, nb, bl) + bl * nb == (2 * p + 2) * w
  {
    var w := nb * bl;
    MulAssoc(2 * p, nb, bl);
    MulAssoc(2 * p + 1, nb, bl);
    Distrib(w, 2 * p + 1, 1);
  }

  /** A word of thread q's dependent segment lies outside every thread's independent segment. */
  lemma DependentOutsideIndependent(q: nat, p: nat, nb: nat, bl: nat, k: nat)
    requires Passes.DepStart(q, nb, bl) <= k < Passes.DepStart(q, nb, bl) + bl * nb
    ensures k < Passes.SegmentStart(p, nb, bl) || Passes.SegmentStart(p, nb, bl) + bl * nb <= k
  {
    var w := nb * bl;
    SegmentsInRuns(q, nb, bl);
    SegmentsInRuns(p, nb, bl);
    Distrib(w, 2 * p, 1);
    if p <= q {
      MulMono(w, 2 * p + 1, 2 * q + 1);
    } else {
      MulMono(w, 2 * q + 2, 2 * p);
    }
  }

  /** Dependent segments of different threads do not overlap. */
  lemma DependentSegmentsApart(q: nat, r: nat, nb: nat, bl: nat)
    requires q < r
    ensures Passes.DepStart(q, nb, bl) + bl * nb <= Passes.DepStart(r, nb, bl)
  {
    SegmentsInRuns(q, nb, bl);
    SegmentsInRuns(r, nb, bl);
    MulMono(nb * bl, 2 * q + 2, 2 * r + 1);
  }

  /**
   * The hashSize / 4 words xorIntoHash reads for thread q start at pos, at
   * word blocklen - hashSize / 4 of block b, the last block of thread q's
   * dependent segment.
   */
  lemma Window(q: nat, par: nat, nb: nat, bl: nat, hl: nat) returns (pos: nat, b: nat)
    requires q < par && nb >= 1 && hl <= bl
    ensures pos == 2 * (q + 1) * nb * bl - hl && pos == b * bl + (bl - hl)
    ensures b * bl + bl == Passes.DepStart(q, nb, bl) + bl * nb <= 2 * par * nb * bl
    ensures Passes.DepStart(q, nb, bl) <= pos
  {
    var w := nb * bl;
    b := 2 * q * nb + 2 * nb - 1;
    SegmentsInRuns(q, nb, bl);
    Passes.DependentSegment(q, par, nb, bl);
    Distrib(nb, 2 * q, 2);
    MulAssoc(2 * q + 2, nb, bl);
    Distrib(bl, b, 1);
    Distrib(w, 2 * q + 1, 1);
    MulMono(bl, 1, nb);
    pos := b * bl + (bl - hl);
  }

  /** DependentStep leaves word d of every block alone when d is at or past what the mixer sweeps. */
  lemma DependentStepTail(mix: BlockMixer, s: Run, p: nat, par: nat, bl: nat, nb: nat, reps: nat, j: nat,
                          b: nat, d: nat, k: nat)
    requires p < par && j < nb <= 0x8000_0000 && 2 * par * nb * bl <= |s.mem| && |s.state| == 8
    requires Swept(mix.bound, bl) <= d < bl && b * bl + bl <= |s.mem| && k == b * bl + d && k < |s.mem|
    ensures DependentStep(mix, s, p, par, bl, nb, reps, j).mem[k] == s.mem[k]
  {
    var distance := Distance(s.state[0], j, nb);
    Passes.DepBlocks(p, par, nb, bl, j, distance);
    var c := DependentBlock(p, nb, bl, j);
    MixAtTail(mix, s, bl, Passes.DepFrom(p, par, nb, bl, j, distance), c, reps, b, d, k);
  }

  /** Block j of thread p's dependent segment is block (2p + 1) * numblocks + j of memory. */
  lemma DependentBlock(p: nat, nb: nat, bl: nat, j: nat) returns (c: nat)
    ensures c * bl == Passes.DepStart(p, nb, bl) + bl * j
  {
    c := 2 * p * nb + nb + j;
    Passes.AddBlocks(2 * p * nb + nb, j, bl);
  }

  /** Filling a dependent segment leaves word d of every block alone when d is past the sweep. */
  lemma {:induction false} DependentFillTail(mix: BlockMixer, m: seq<word>, p: nat, par: nat, bl: nat, nb: nat,
                                             reps: nat, i: nat, b: nat, d: nat, k: nat)
    requires p < par && i <= nb <= 0x8000_0000 && 2 * par * nb * bl <= |m|
    requires Swept(mix.bound, bl) <= d < bl && b * bl + bl <= |m| && k == b * bl + d && k < |m|
    ensures DependentFill(mix, m, p, par, bl, nb, reps, i).mem[k] == m[k]
    decreases i
  {
    if i > 0 {
      var prev := DependentFill(mix, m, p, par, bl, nb, reps, i - 1);
      DependentFillTail(mix, m, p, par, bl, nb, reps, i - 1, b, d, k);
      DependentStepTail(mix, prev, p, par, bl, nb, reps, i - 1, b, d, k);
      assert DependentFill(mix, m, p, par, bl, nb, reps, i) == DependentStep(mix, prev, p, par, bl, nb, reps, i - 1);
    }
  }

  /** All hashWithPassword passes leave word d of every block alone when d is past the sweep. */
  lemma {:induction false} AllWithPasswordTail(mix: BlockMixer, m: seq<word>, par: nat, bl: nat, nb: nat,
                                               reps: nat, p: nat, b: nat, d: nat, k: nat)
    requires p <= par && nb <= 0x8000_0000 && 2 * par * nb * bl <= |m|
    requires Swept(mix.bound, bl) <= d < bl && b * bl + bl <= |m| && k == b * bl + d && k < |m|
    ensures AllWithPassword(mix, m, par, bl, nb, reps, p)[k] == m[k]
  {
    if p > 0 {
      var prev := AllWithPassword(mix, m, par, bl, nb, reps, p - 1);
      AllWithPasswordTail(mix, m, par, bl, nb, reps, p - 1, b, d, k);
      DependentFillTail(mix, prev, p - 1, par, bl, nb, reps, nb, b, d, k);
    }
  }

  /** The hashWithoutPassword passes write no word of any dependent segment. */
  lemma {:induction false} AllWithoutPasswordKeepsDependent(mix: BlockMixer, h: KeyedHash, hash: seq<byte>,
                                                            m: seq<word>, par: nat, bl: nat, nb: nat, reps: nat,
                                                            p: nat, q: nat, k: nat)
    requires p <= par <= TWO32 && nb >= 1 && 2 * par * nb * bl <= |m| && k < |m|
    requires Passes.DepStart(q, nb, bl) <= k < Passes.DepStart(q, nb, bl) + bl * nb
    ensures AllWithoutPassword(mix, h, hash, m, par, bl, nb, reps, p)[k] == m[k]
    decreases p
  {
    if p > 0 {
      assert AllWithoutPassword(mix, h, hash, m, par, bl, nb, reps, p - 1)[k] == m[k] by {
        AllWithoutPasswordKeepsDependent(mix, h, hash, m, par, bl, nb, reps, p - 1, q, k);
      }
      WithoutPasswordKeepsDependent(mix, h, hash, m, par, bl, nb, reps, p, q, k);
    }
  }

  /** hashWithoutPassword of thread p - 1 leaves thread q's dependent segment alone. */
  lemma WithoutPasswordKeepsDependent(mix: BlockMixer, h: KeyedHash, hash: seq<byte>, m: seq<word>, par: nat,
                                      bl: nat, nb: nat, reps: nat, p: nat, q: nat, k: nat)
    requires 1 <= p <= par <= TWO32 && nb >= 1 && 2 * par * nb * bl <= |m| && k < |m|
    requires Passes.DepStart(q, nb, bl) <= k < Passes.DepStart(q, nb, bl) + bl * nb
    ensures AllWithoutPassword(mix, h, hash, m, par, bl, nb, reps, p)[k]
         == AllWithoutPassword(mix, h, hash, m, par, bl, nb, reps, p - 1)[k]
  {
    var prev := AllWithoutPassword(mix, h, hash, m, par, bl, nb, reps, p - 1);
    DependentOutsideIndependent(q, p - 1, nb, bl, k);
    WithoutPasswordFrame(mix, h, hash, prev, p - 1, par, bl, nb, reps, k);
  }

  /** A word of thread q's dependent segment past the sweep of its block is, after the level's passes, what it was. */
  lemma TailWordUnwritten(mix: BlockMixer, h: KeyedHash, st: Tiger, par: nat, bl: nat, nb: nat, reps: nat, q: nat,
                          b: nat, d: nat, k: nat, dep: seq<word>)
    requires LevelFits(par, bl, nb, |st.mem|, |st.hash|)
    requires Swept(mix.bound, bl) <= d < bl && k == b * bl + d && b * bl + bl <= |st.mem|
    requires Passes.DepStart(q, nb, bl) <= k < Passes.DepStart(q, nb, bl) + bl * nb
    requires dep == AllWithPassword(mix, AllWithoutPassword(mix, h, st.hash, st.mem, par, bl, nb, reps, par),
                                    par, bl, nb, reps, par)
    ensures dep[k] == st.mem[k]
  {
    var ind := AllWithoutPassword(mix, h, st.hash, st.mem, par, bl, nb, reps, par);
    AllWithPasswordTail(mix, ind, par, bl, nb, reps, par, b, d, k);
    AllWithoutPasswordKeepsDependent(mix, h, st.hash, st.mem, par, bl, nb, reps, par, q, k);
  }

  /**
   * The hashSize / 4 words from pos on, ending block b of thread q's
   * dependent segment, are after the level's passes what they were before it.
   */
  lemma WindowUnwritten(mix: BlockMixer, h: KeyedHash, st: Tiger, par: nat, bl: nat, nb: nat, reps: nat, q: nat,
                        pos: nat, b: nat)
    requires LevelFits(par, bl, nb, |st.mem|, |st.hash|) && |st.hash| / 4 + Swept(mix.bound, bl) <= bl
    requires pos + |st.hash| / 4 == b * bl + bl == Passes.DepStart(q, nb, bl) + bl * nb <= |st.mem|
    requires Passes.DepStart(q, nb, bl) <= pos
    ensures var dep := AllWithPassword(mix, AllWithoutPassword(mix, h, st.hash, st.mem, par, bl, nb, reps, par),
                                       par, bl, nb, reps, par);
      dep[pos .. pos + |st.hash| / 4] == st.mem[pos .. pos + |st.hash| / 4]
  {
    var hl := |st.hash| / 4;
    var dep := AllWithPassword(mix, AllWithoutPassword(mix, h, st.hash, st.mem, par, bl, nb, reps, par),
                               par, bl, nb, reps, par);
    var now, before := dep[pos .. pos + hl], st.mem[pos .. pos + hl];
    forall i | 0 <= i < hl
      ensures now[i] == before[i]
    {
      assert now[i] == dep[pos + i] && before[i] == st.mem[pos + i];
      var d := bl - hl + i;
      assert pos + i == b * bl + d;
      assert Swept(mix.bound, bl) <= d < bl;
      assert b * bl + bl <= |st.mem|;
      assert Passes.DepStart(q, nb, bl) <= pos + i < Passes.DepStart(q, nb, bl) + bl * nb;
      assert LevelFits(par, bl, nb, |st.mem|, |st.hash|);
      assert dep == AllWithPassword(mix, AllWithoutPassword(mix, h, st.hash, st.mem, par, bl, nb, reps, par),
                                    par, bl, nb, reps, par);
      assert dep[pos + i] == st.mem[pos + i] by { TailWordUnwritten(mix, h, st, par, bl, nb, reps, q, b, d, pos + i, dep); }
    }
    assert now == before;
  }

  /** Memories m1 and m2 agree on the hl words xorIntoHash reads for thread q. */
  predicate SameWindow(hl: nat, m1: seq<word>, m2: seq<word>, bl: nat, nb: nat, q: nat)
  {
    var end := 2 * (q + 1) * nb * bl;
    hl <= end <= |m1| && end <= |m2| && m1[end - hl .. end] == m2[end - hl .. end]
  }

  /** XorLast over two memories that agree on the words read for threads 0 .. q - 1 and for thread q. */
  lemma XorLastAgrees(hash: seq<byte>, m1: seq<word>, m2: seq<word>, bl: nat, nb: nat, q: nat, pos: nat)
    requires |hash| % 4 == 0 && |hash| / 4 <= 2 * nb * bl
    requires 2 * (q + 1) * nb * bl <= |m1| == |m2| && 2 * q * nb * bl <= |m1|
    requires pos == 2 * (q + 1) * nb * bl - |hash| / 4 && pos + |hash| / 4 <= |m1|
    requires XorLast(hash, m1, bl, nb, q) == XorLast(hash, m2, bl, nb, q)
    requires m1[pos .. pos + |hash| / 4] == m2[pos .. pos + |hash| / 4]
    ensures XorLast(hash, m1, bl, nb, q + 1) == XorLast(hash, m2, bl, nb, q + 1)
  {
    XorLastNext(hash, m1, bl, nb, q + 1, q, pos);
    XorLastNext(hash, m2, bl, nb, q + 1, q, pos);
  }

  /** xorIntoHash over two memories that agree on every word it reads gives the same hash. */
  lemma {:induction false} XorLastAgreesAll(hash: seq<byte>, m1: seq<word>, m2: seq<word>, bl: nat, nb: nat, p: nat)
    requires |hash| % 4 == 0 && |hash| / 4 <= 2 * nb * bl && 2 * p * nb * bl <= |m1| == |m2|
    requires forall q: nat :: q < p ==> SameWindow(|hash| / 4, m1, m2, bl, nb, q)
    ensures XorLast(hash, m1, bl, nb, p) == XorLast(hash, m2, bl, nb, p)
  {
    if p > 0 {
      var q := p - 1;
      Passes.SegmentEnds(q, p, nb, bl);
      XorLastAgreesAll(hash, m1, m2, bl, nb, q);
      assert SameWindow(|hash| / 4, m1, m2, bl, nb, q);
      XorLastAgrees(hash, m1, m2, bl, nb, q, 2 * (q + 1) * nb * bl - |hash| / 4);
    }
  }

  /**
   * When the mixer sweeps no further than blocklen - hashSize / 4 words of a
   * block, the hash a level leaves is the hash XOR-ed with memory as it was
   * before the level: nothing the level mixes reaches the hash.
   */
  lemma UnsweptXorReadsOldMemory(mix: BlockMixer, h: KeyedHash, st: Tiger, par: nat, bl: nat, nb: nat, reps: nat)
    requires LevelFits(par, bl, nb, |st.mem|, |st.hash|) && |st.hash| / 4 + Swept(mix.bound, bl) <= bl
    ensures Level(mix, h, st, par, bl, nb, reps).hash == XorLast(st.hash, st.mem, bl, nb, par)
  {
    var hl := |st.hash| / 4;
    var dep := AllWithPassword(mix, AllWithoutPassword(mix, h, st.hash, st.mem, par, bl, nb, reps, par),
                               par, bl, nb, reps, par);
    forall q: nat | q < par
      ensures SameWindow(hl, dep, st.mem, bl, nb, q)
    {
      var pos, b := Window(q, par, nb, bl, hl);
      assert pos + hl == b * bl + bl <= |st.mem|;
      WindowUnwritten(mix, h, st, par, bl, nb, reps, q, pos, b);
    }
    XorLastAgreesAll(st.hash, dep, st.mem, bl, nb, par);
  }

  /**
   * tigerkdf-sse.c as written, with blocklen a multiple of 16 words and the
   * hash at most half a block (4096-byte blocks and a 32-byte hash, say):
   * a level's hash is the old hash XOR-ed with the words the previous
   * level left, whatever the mixer computes.
   */
  lemma AsWrittenLevelIgnoresMixing(mix: BlockMixer, h: KeyedHash, st: Tiger, par: nat, bl: nat, nb: nat, reps: nat)
    requires LevelFits(par, bl, nb, |st.mem|, |st.hash|)
    requires mix.bound == AsWrittenBound && bl % 16 == 0 && |st.hash| / 4 <= bl / 2
    ensures Level(mix, h, st, par, bl, nb, reps).hash == XorLast(st.hash, st.mem, bl, nb, par)
  {
    HalfBlockStored(bl);
    UnsweptXorReadsOldMemory(mix, h, st, par, bl, nb, reps);
  }

  /** The words the last hashBlocks of thread p's dependent pass stores, from the run before it. */
  function LastStore(mix: BlockMixer, s: Run, p: nat, par: nat, bl: nat, nb: nat, reps: nat): (ws: seq<word>)
    requires p < par && 1 <= nb <= 0x8000_0000 && 2 * par * nb * bl <= |s.mem| && |s.state| == 8
    ensures |ws| == Swept(mix.bound, bl)
  {
    var distance := Distance(s.state[0], nb - 1, nb);
    Passes.DepBlocks(p, par, nb, bl, nb - 1, distance);
    MixOut(mix, s, bl, Passes.DepFrom(p, par, nb, bl, nb - 1, distance), Passes.DepStart(p, nb, bl) + bl * (nb - 1), reps).1
  }

  /** hashWithPassword of later threads leaves thread q's dependent segment alone. */
  lemma {:induction false} LaterPassesKeepDependent(mix: BlockMixer, m: seq<word>, par: nat, bl: nat, nb: nat,
                                                    reps: nat, p: nat, q: nat, k: nat)
    requires q < p <= par && 1 <= nb <= 0x8000_0000 && 2 * par * nb * bl <= |m|
    requires Passes.DepStart(q, nb, bl) <= k < Passes.DepStart(q, nb, bl) + bl * nb && k < |m|
    ensures AllWithPassword(mix, m, par, bl, nb, reps, p)[k] == AllWithPassword(mix, m, par, bl, nb, reps, q + 1)[k]
  {
    if p > q + 1 {
      LaterPassesKeepDependent(mix, m, par, bl, nb, reps, p - 1, q, k);
      PassKeepsOthers(mix, m, par, bl, nb, reps, p, q, k);
    }
  }

  /** hashWithPassword of thread p > q leaves thread q's dependent segment alone. */
  lemma PassKeepsOthers(mix: BlockMixer, m: seq<word>, par: nat, bl: nat, nb: nat, reps: nat, p: nat, q: nat, k: nat)
    requires q + 1 < p <= par && 1 <= nb <= 0x8000_0000 && 2 * par * nb * bl <= |m|
    requires Passes.DepStart(q, nb, bl) <= k < Passes.DepStart(q, nb, bl) + bl * nb && k < |m|
    ensures AllWithPassword(mix, m, par, bl, nb, reps, p)[k] == AllWithPassword(mix, m, par, bl, nb, reps, p - 1)[k]
  {
    DependentSegmentsApart(q, p - 1, nb, bl);
    var prev := AllWithPassword(mix, m, par, bl, nb, reps, p - 1);
    DependentFillFrame(mix, prev, p - 1, par, bl, nb, reps, nb, k);
  }

  /** The block that ends thread q's dependent segment holds ws. */
  predicate LastBlockHolds(m: seq<word>, bl: nat, nb: nat, q: nat, ws: seq<word>)
  {
    var end := 2 * (q + 1) * nb * bl;
    bl <= end <= |m| && m[end - bl .. end] == ws
  }

  /**
   * With a loop that sweeps the whole block, the last block of every
   * thread's dependent segment holds, once every hashWithPassword of the
   * level is done (Level's memory), the words the thread's last hashBlocks
   * stored; xorIntoHash reads the last hashSize / 4 of them.
   */
  lemma WholeBlockKeepsLastStore(mix: BlockMixer, m: seq<word>, par: nat, bl: nat, nb: nat, reps: nat, q: nat)
    requires q < par && 1 <= nb <= 0x8000_0000 && 2 * par * nb * bl <= |m| && mix.bound == WholeBlockBound
    ensures var before := DependentFill(mix, AllWithPassword(mix, m, par, bl, nb, reps, q), q, par, bl, nb, reps, nb - 1);
      LastBlockHolds(AllWithPassword(mix, m, par, bl, nb, reps, par), bl, nb, q, LastStore(mix, before, q, par, bl, nb, reps))
  {
    var mq := AllWithPassword(mix, m, par, bl, nb, reps, q);
    var last, b := Window(q, par, nb, bl, bl);
    LastBlockHoldsLastStore(mix, mq, q, par, bl, nb, reps);
    assert last == Passes.DepStart(q, nb, bl) + bl * (nb - 1);
    assert AllWithPassword(mix, m, par, bl, nb, reps, q + 1) == DependentFill(mix, mq, q, par, bl, nb, reps, nb).mem;
    LaterPassesKeepBlock(mix, m, par, bl, nb, reps, q, last);
  }

  /** The passes after thread q's leave the last block of its dependent segment as thread q left it. */
  lemma LaterPassesKeepBlock(mix: BlockMixer, m: seq<word>, par: nat, bl: nat, nb: nat, reps: nat, q: nat, last: nat)
    requires q < par && 1 <= nb <= 0x8000_0000 && 2 * par * nb * bl <= |m|
    requires Passes.DepStart(q, nb, bl) <= last && last + bl == Passes.DepStart(q, nb, bl) + bl * nb <= |m|
    ensures AllWithPassword(mix, m, par, bl, nb, reps, par)[last .. last + bl]
         == AllWithPassword(mix, m, par, bl, nb, reps, q + 1)[last .. last + bl]
  {
    var dep := AllWithPassword(mix, m, par, bl, nb, reps, par);
    var filled := AllWithPassword(mix, m, par, bl, nb, reps, q + 1);
    forall k | last <= k < last + bl
      ensures dep[k] == filled[k]
    {
      LaterPassesKeepDependent(mix, m, par, bl, nb, reps, par, q, k);
    }
    var now, was := dep[last .. last + bl], filled[last .. last + bl];
    assert now == was;
  }

  /** With a whole-block loop, thread q's last hashBlocks output stays in the last block of its dependent segment. */
  lemma LastBlockHoldsLastStore(mix: BlockMixer, m: seq<word>, q: nat, par: nat, bl: nat, nb: nat, reps: nat)
    requires q < par && 1 <= nb <= 0x8000_0000 && 2 * par * nb * bl <= |m| && mix.bound == WholeBlockBound
    ensures var before := DependentFill(mix, m, q, par, bl, nb, reps, nb - 1);
      var last := Passes.DepStart(q, nb, bl) + bl * (nb - 1);
      last + bl == Passes.DepStart(q, nb, bl) + bl * nb <= |m| &&
      DependentFill(mix, m, q, par, bl, nb, reps, nb).mem[last .. last + bl] == LastStore(mix, before, q, par, bl, nb, reps)
  {
    var before := DependentFill(mix, m, q, par, bl, nb, reps, nb - 1);
    var distance := Distance(before.state[0], nb - 1, nb);
    Passes.DepBlocks(q, par, nb, bl, nb - 1, distance);
    var last := Passes.DepStart(q, nb, bl) + bl * (nb - 1);
    var out := LastStore(mix, before, q, par, bl, nb, reps);
    assert DependentFill(mix, m, q, par, bl, nb, reps, nb).mem == WriteWords(before.mem, last, out);
    WriteWordsSlice(before.mem, last, out);
  }

  // ---------------------------------------------------------------------
  // TigerKDF: sizing and the garlic loop
  // ---------------------------------------------------------------------

  /** memlen / (2 * parallelism * blocklen) with memlen = 1024 * memSize / 4 words. */
  function BaseBlocks(memSize: nat, bl: nat, par: nat): nat
    requires bl >= 1 && par >= 1
  {
    MulMono(2 * par, 1, bl);
    1024 * memSize / 4 / (2 * par * bl)
  }

  /** numblocks at the first level: the base count shifted left by startGarlic. */
  function StartBlocks(memSize: nat, bl: nat, par: nat, startGarlic: nat): nat
    requires bl >= 1 && par >= 1
  {
    BaseBlocks(memSize, bl, par) * Pow2(startGarlic)
  }

  /** The words allocated: the first level's 2 * parallelism * numblocks * blocklen, shifted by stopGarlic - startGarlic. */
  function MemWords(memSize: nat, bl: nat, par: nat, startGarlic: nat, stopGarlic: nat): nat
    requires bl >= 1 && par >= 1 && startGarlic <= stopGarlic
  {
    2 * par * StartBlocks(memSize, bl, par, startGarlic) * bl * Pow2(stopGarlic - startGarlic)
  }

  /**
   * What TigerKDF needs of its parameters: the hash whole words, blocklen a
   * multiple of 4 words (so that every block starts on a 128-bit slot and
   * hashBlocks stores from toAddr on, StoredAtBlock), at least one block
   * per segment, the hash no longer than one segment (xorIntoHash reads the
   * last hashSize / 4 words of each dependent segment), and every
   * 32-bit block count the engine forms below 2^32 (2 * parallelism *
   * blocklen when sizing, 2 * parallelism * numblocks at the last level).
   */
  predicate EngineParameters(hashSize: nat, memSize: word, startGarlic: byte, stopGarlic: byte, blockSize: word,
                             parallelism: word)
  {
    var bl := blockSize / 4;
    hashSize % 4 == 0 && startGarlic <= stopGarlic && bl >= 1 && bl % 4 == 0 && parallelism >= 1 &&
    2 * parallelism * bl < TWO32 &&
    StartBlocks(memSize, bl, parallelism, startGarlic) >= 1 &&
    hashSize / 4 <= 2 * StartBlocks(memSize, bl, parallelism, startGarlic) * bl &&
    2 * parallelism * NoelKdfRef.Doubled(StartBlocks(memSize, bl, parallelism, startGarlic), stopGarlic - startGarlic) < TWO32
  }

  /** Doubling more often gives more blocks. */
  lemma {:induction false} DoubledMonotone(nb: nat, j: nat, n: nat)
    requires j <= n
    ensures nb <= NoelKdfRef.Doubled(nb, j) <= NoelKdfRef.Doubled(nb, n)
  {
    if j < n {
      DoubledMonotone(nb, j, n - 1);
    } else if j > 0 {
      DoubledMonotone(nb, j - 1, j - 1);
    }
  }

  /**
   * At garlic level startGarlic + j, after j doublings, numblocks is the base
   * count shifted left by startGarlic + j.
   */
  lemma NumBlocksAtLevel(memSize: nat, bl: nat, par: nat, startGarlic: nat, j: nat)
    requires bl >= 1 && par >= 1
    ensures NoelKdfRef.Doubled(StartBlocks(memSize, bl, par, startGarlic), j) == BaseBlocks(memSize, bl, par) * Pow2(startGarlic + j)
  {
    var b := BaseBlocks(memSize, bl, par);
    NoelKdfRef.DoubledIsProduct(StartBlocks(memSize, bl, par, startGarlic), j);
    Pow2Add(startGarlic, j);
    MulAssoc(b, Pow2(startGarlic), Pow2(j));
  }

  /** The memory allocated is exactly the last level's 2 * parallelism segments of numblocks blocks. */
  lemma AllocationCoversLastLevel(memSize: nat, bl: nat, par: nat, startGarlic: nat, stopGarlic: nat)
    requires bl >= 1 && par >= 1 && startGarlic <= stopGarlic
    ensures MemWords(memSize, bl, par, startGarlic, stopGarlic)
         == 2 * par * NoelKdfRef.Doubled(StartBlocks(memSize, bl, par, startGarlic), stopGarlic - startGarlic) * bl
  {
    var s := StartBlocks(memSize, bl, par, startGarlic);
    var P := Pow2(stopGarlic - startGarlic);
    NoelKdfRef.DoubledIsProduct(s, stopGarlic - startGarlic);
    calc {
      2 * par * s * bl * P;
      { MulAssoc(2 * par * s, bl, P); }
      2 * par * s * (bl * P);
      { MulAssoc(2 * par, s, bl * P); }
      2 * par * (s * (bl * P));
      { MulAssoc(s, bl, P); MulAssoc(s, P, bl); }
      2 * par * (s * P * bl);
      { MulAssoc(2 * par, s * P, bl); }
      2 * par * (s * P) * bl;
    }
  }

  /**
   * Arithmetic behind the garlic loop: a level with nb blocks per segment,
   * between the first level's s and the last level's top, fits the memory of
   * the last level, and a hash that fits one first-level segment fits one of
   * its segments.
   */
  lemma ScaledLevelFits(par: nat, bl: nat, s: nat, nb: nat, top: nat, hashlen: nat)
    requires par >= 1 && bl >= 1 && 1 <= s <= nb <= top && 2 * par * top < TWO32 && hashlen <= 2 * s * bl
    ensures NoelKdfRef.LevelFits(par, bl, nb, 2 * par * top * bl, hashlen)
  {
    MulMono(top, 1, par);
    MulMono(2 * par, nb, top);
    MulMono(bl, 2 * par * nb, 2 * par * top);
    MulMono(2 * bl, s, nb);
  }

  /** Level j of a run (j doublings, j <= stopGarlic - startGarlic) fits the memory allocated. */
  lemma LevelFitsAt(hashSize: nat, memSize: word, startGarlic: byte, stopGarlic: byte, blockSize: word,
                    parallelism: word, j: nat)
    requires EngineParameters(hashSize, memSize, startGarlic, stopGarlic, blockSize, parallelism)
    requires j <= stopGarlic - startGarlic
    ensures var bl := blockSize / 4;
      var s := StartBlocks(memSize, bl, parallelism, startGarlic);
      NoelKdfRef.LevelFits(parallelism, bl, NoelKdfRef.Doubled(s, j),
                           MemWords(memSize, bl, parallelism, startGarlic, stopGarlic), hashSize / 4)
  {
    var bl := blockSize / 4;
    var s := StartBlocks(memSize, bl, parallelism, startGarlic);
    var n := stopGarlic - startGarlic;
    DoubledMonotone(s, j, n);
    AllocationCoversLastLevel(memSize, bl, parallelism, startGarlic, stopGarlic);
    ScaledLevelFits(parallelism, bl, s, NoelKdfRef.Doubled(s, j), NoelKdfRef.Doubled(s, n), hashSize / 4);
  }

  /** The first n levels of a run fit, for any n up to all stopGarlic - startGarlic + 1 of them. */
  lemma {:induction false} LevelsFitBelow(hashSize: nat, memSize: word, startGarlic: byte, stopGarlic: byte,
                                          blockSize: word, parallelism: word, n: nat)
    requires EngineParameters(hashSize, memSize, startGarlic, stopGarlic, blockSize, parallelism)
    requires n <= stopGarlic - startGarlic + 1
    ensures var bl := blockSize / 4;
      NoelKdfRef.LevelsFit(parallelism, bl, StartBlocks(memSize, bl, parallelism, startGarlic), n,
                           MemWords(memSize, bl, parallelism, startGarlic, stopGarlic), hashSize / 4)
  {
    if n > 0 {
      var bl := blockSize / 4;
      var s := StartBlocks(memSize, bl, parallelism, startGarlic);
      var len := MemWords(memSize, bl, parallelism, startGarlic, stopGarlic);
      LevelsFitBelow(hashSize, memSize, startGarlic, stopGarlic, blockSize, parallelism, n - 1);
      LevelFitsAt(hashSize, memSize, startGarlic, stopGarlic, blockSize, parallelism, n - 1);
      assert NoelKdfRef.LevelsFitThrough(parallelism, bl, s, n - 1, len, hashSize / 4);
    }
  }

  /** H(hash, hash, [garlic]) after a level, unless it is the last and skipLastHash holds. */
  function Rehash(h: KeyedHash, hash: seq<byte>, garlic: byte, last: bool, skipLastHash: bool): (r: seq<byte>)
    ensures |r| == |hash|
  {
    if !last || !skipLastHash then h(hash, [garlic], |hash|) else hash
  }

  /**
   * The state after the first n levels of a run starting at startGarlic,
   * numblocks doubling from one level to the next, each level followed by
   * the rehash with its garlic value.
   */
  function Garlic(mix: BlockMixer, h: KeyedHash, st: Tiger, par: nat, bl: nat, nb: nat, reps: nat,
                  startGarlic: byte, n: nat): (r: Tiger)
    requires |st.hash| % 4 == 0 && NoelKdfRef.LevelsFit(par, bl, nb, n, |st.mem|, |st.hash| / 4)
    requires startGarlic + n <= 0x100
    ensures |r.mem| == |st.mem| && |r.hash| == |st.hash|
    decreases n, 0
  {
    if n == 0 then st else AfterLevel(mix, h, st, par, bl, nb, reps, startGarlic, n - 1)
  }

  /**
   * The state after level j (garlic value startGarlic + j): the level run
   * with numblocks doubled j times, then H(hash, [startGarlic + j]).
   */
  function AfterLevel(mix: BlockMixer, h: KeyedHash, st: Tiger, par: nat, bl: nat, nb: nat, reps: nat,
                      startGarlic: byte, j: nat): (r: Tiger)
    requires |st.hash| % 4 == 0 && NoelKdfRef.LevelsFitThrough(par, bl, nb, j, |st.mem|, |st.hash| / 4)
    requires startGarlic + j < 0x100
    ensures |r.mem| == |st.mem| && |r.hash| == |st.hash|
    decreases j, 1
  {
    var before := Garlic(mix, h, st, par, bl, nb, reps, startGarlic, j);
    var after := Level(mix, h, before, par, bl, NoelKdfRef.Doubled(nb, j), reps);
    Tiger(h(after.hash, [startGarlic + j], |after.hash|), after.mem)
  }

  /** One more level: the level after the first n, with numblocks doubled n times, and its rehash. */
  lemma GarlicNext(mix: BlockMixer, h: KeyedHash, st: Tiger, par: nat, bl: nat, nb: nat, reps: nat,
                   startGarlic: byte, n: nat)
    requires |st.hash| % 4 == 0 && NoelKdfRef.LevelsFit(par, bl, nb, n + 1, |st.mem|, |st.hash| / 4)
    requires startGarlic + n < 0x100
    ensures NoelKdfRef.LevelsFit(par, bl, nb, n, |st.mem|, |st.hash| / 4)
    ensures var before := Garlic(mix, h, st, par, bl, nb, reps, startGarlic, n);
      LevelFits(par, bl, NoelKdfRef.Doubled(nb, n), |before.mem|, |before.hash|)
    ensures var before := Garlic(mix, h, st, par, bl, nb, reps, startGarlic, n);
      var after := Level(mix, h, before, par, bl, NoelKdfRef.Doubled(nb, n), reps);
      Garlic(mix, h, st, par, bl, nb, reps, startGarlic, n + 1) == Tiger(h(after.hash, [startGarlic + n], |after.hash|), after.mem)
  {
    assert NoelKdfRef.LevelsFitThrough(par, bl, nb, n, |st.mem|, |st.hash| / 4);
    assert Garlic(mix, h, st, par, bl, nb, reps, startGarlic, n + 1)
        == AfterLevel(mix, h, st, par, bl, nb, reps, startGarlic, n);
  }

  /**
   * The hash at the end of a run of n + 1 levels from startGarlic: every
   * level but the last followed by its rehash, then the last level (garlic
   * value startGarlic + n), rehashed unless skipLastHash holds.
   */
  function Finish(mix: BlockMixer, h: KeyedHash, st: Tiger, par: nat, bl: nat, nb: nat, reps: nat,
                  startGarlic: byte, n: nat, skipLastHash: bool): (r: seq<byte>)
    requires |st.hash| % 4 == 0 && startGarlic + n < 0x100
    requires NoelKdfRef.LevelsFit(par, bl, nb, n + 1, |st.mem|, |st.hash| / 4)
    ensures |r| == |st.hash|
  {
    assert NoelKdfRef.LevelsFitThrough(par, bl, nb, n, |st.mem|, |st.hash| / 4);
    var last := Level(mix, h, Garlic(mix, h, st, par, bl, nb, reps, startGarlic, n), par, bl, NoelKdfRef.Doubled(nb, n), reps);
    Rehash(h, last.hash, startGarlic + n, true, skipLastHash)
  }

  /**
   * The hash TigerKDF computes: levels startGarlic .. stopGarlic over memory
   * that starts as junk, numblocks starting at StartBlocks and doubling.
   */
  function TigerKdfHash(mix: BlockMixer, h: KeyedHash, hash: seq<byte>, memSize: word, startGarlic: byte,
                        stopGarlic: byte, blockSize: word, parallelism: word, repetitions: word,
                        skipLastHash: bool, junk: nat -> word): (r: seq<byte>)
    requires EngineParameters(|hash|, memSize, startGarlic, stopGarlic, blockSize, parallelism)
    requires repetitions >= 1
    ensures |r| == |hash|
  {
    var bl := blockSize / 4;
    var len := MemWords(memSize, bl, parallelism, startGarlic, stopGarlic);
    LevelsFitBelow(|hash|, memSize, startGarlic, stopGarlic, blockSize, parallelism, stopGarlic - startGarlic + 1);
    Finish(mix, h, Tiger(hash, seq(len, k requires 0 <= k => junk(k))), parallelism, bl,
           StartBlocks(memSize, bl, parallelism, startGarlic), repetitions, startGarlic, stopGarlic - startGarlic,
           skipLastHash)
  }

  /**
   * Server relief: the hash with skipLastHash is the full hash before its
   * last rehash, so H(that, [stopGarlic]) is the full hash.
   */
  lemma SkipLastHash(mix: BlockMixer, h: KeyedHash, hash: seq<byte>, memSize: word, startGarlic: byte,
                     stopGarlic: byte, blockSize: word, parallelism: word, repetitions: word, junk: nat -> word)
    requires EngineParameters(|hash|, memSize, startGarlic, stopGarlic, blockSize, parallelism)
    requires repetitions >= 1
    ensures TigerKdfHash(mix, h, hash, memSize, startGarlic, stopGarlic, blockSize, parallelism, repetitions, false, junk)
         == h(TigerKdfHash(mix, h, hash, memSize, startGarlic, stopGarlic, blockSize, parallelism, repetitions, true, junk),
              [stopGarlic], |hash|)
  {
  }

  /** The state after n levels is what hash and mem hold. */
  ghost predicate AtLevel(hash: seq<byte>, mem: seq<word>, st0: Tiger, mix: BlockMixer, h: KeyedHash, par: nat,
                          bl: nat, nb0: nat, reps: nat, startGarlic: byte, n: nat)
  {
    |st0.hash| % 4 == 0 && NoelKdfRef.LevelsFit(par, bl, nb0, n, |st0.mem|, |st0.hash| / 4) && startGarlic + n <= 0x100 &&
    Tiger(hash, mem) == Garlic(mix, h, st0, par, bl, nb0, reps, startGarlic, n)
  }

  /**
   * Where TigerKDF's loop stands after n passes of a run from startGarlic to
   * stopGarlic: the state after n levels while levels remain, the final hash
   * once the last level has run.
   */
  ghost predicate Progress(hash: seq<byte>, mem: seq<word>, st0: Tiger, mix: BlockMixer, h: KeyedHash, par: nat,
                           bl: nat, nb0: nat, reps: nat, startGarlic: byte, stopGarlic: byte, skipLastHash: bool,
                           n: nat)
  {
    |st0.hash| % 4 == 0 && startGarlic <= stopGarlic &&
    NoelKdfRef.LevelsFit(par, bl, nb0, stopGarlic - startGarlic + 1, |st0.mem|, |st0.hash| / 4) &&
    if startGarlic + n <= stopGarlic then
      AtLevel(hash, mem, st0, mix, h, par, bl, nb0, reps, startGarlic, n)
    else
      startGarlic + n == stopGarlic + 1 &&
      hash == Finish(mix, h, st0, par, bl, nb0, reps, startGarlic, stopGarlic - startGarlic, skipLastHash)
  }

  /**
   * The body of TigerKDF's loop at garlic value i = startGarlic + n: one
   * level, then the rehash, skipped at stopGarlic when skipLastHash holds.
   */
  method GarlicStep(mix: BlockMixer, h: KeyedHash, hash: array<byte>, mem: array<word>, blocklen: nat,
                    numblocks: nat, parallelism: nat, repetitions: nat, i: byte, stopGarlic: byte, skipLastHash: bool,
                    ghost st0: Tiger, ghost nb0: nat, ghost startGarlic: byte, ghost n: nat)
    returns (ghost next: nat)
    requires repetitions >= 1
    requires i == startGarlic + n <= stopGarlic && numblocks == NoelKdfRef.Doubled(nb0, n) && blocklen % 4 == 0
    requires Progress(hash[..], mem[..], st0, mix, h, parallelism, blocklen, nb0, repetitions, startGarlic, stopGarlic,
                      skipLastHash, n)
    modifies hash, mem
    ensures next == n + 1
    ensures Progress(hash[..], mem[..], st0, mix, h, parallelism, blocklen, nb0, repetitions, startGarlic, stopGarlic,
                     skipLastHash, next)
  {
    next := n + 1;
    ghost var before := Tiger(hash[..], mem[..]);
    GarlicStepSpec(mix, h, st0, parallelism, blocklen, nb0, repetitions, startGarlic, stopGarlic, skipLastHash,
                   before, n, next);
    ghost var after := Level(mix, h, before, parallelism, blocklen, numblocks, repetitions);
    RunLevel(mix, h, hash, mem, blocklen, numblocks, parallelism, repetitions);
    assert mem[..] == after.mem && hash[..] == after.hash;
    RehashInto(h, hash, i, stopGarlic, skipLastHash);
    assert hash[..] == Rehash(h, after.hash, startGarlic + n, startGarlic + n == stopGarlic, skipLastHash);
  }

  /**
   * What one pass of TigerKDF's loop body makes of the state after n
   * levels: the state after n + 1 levels before stopGarlic, the final hash
   * at stopGarlic.
   */
  lemma GarlicStepSpec(mix: BlockMixer, h: KeyedHash, st0: Tiger, par: nat, bl: nat, nb0: nat, reps: nat,
                       startGarlic: byte, stopGarlic: byte, skipLastHash: bool, before: Tiger, n: nat, next: nat)
    requires startGarlic + n <= stopGarlic && next == n + 1
    requires Progress(before.hash, before.mem, st0, mix, h, par, bl, nb0, reps, startGarlic, stopGarlic, skipLastHash, n)
    ensures LevelFits(par, bl, NoelKdfRef.Doubled(nb0, n), |before.mem|, |before.hash|)
    ensures var after := Level(mix, h, before, par, bl, NoelKdfRef.Doubled(nb0, n), reps);
      Progress(Rehash(h, after.hash, startGarlic + n, startGarlic + n == stopGarlic, skipLastHash), after.mem, st0, mix,
               h, par, bl, nb0, reps, startGarlic, stopGarlic, skipLastHash, next)
  {
    NoelKdfRef.LevelsFitPrefix(par, bl, nb0, stopGarlic - startGarlic + 1, n + 1, |st0.mem|, |st0.hash| / 4);
    GarlicNext(mix, h, st0, par, bl, nb0, reps, startGarlic, n);
    assert before == Garlic(mix, h, st0, par, bl, nb0, reps, startGarlic, n);
    var after := Level(mix, h, before, par, bl, NoelKdfRef.Doubled(nb0, n), reps);
    var hash := Rehash(h, after.hash, startGarlic + n, startGarlic + n == stopGarlic, skipLastHash);
    if startGarlic + n < stopGarlic {
      assert AtLevel(hash, after.mem, st0, mix, h, par, bl, nb0, reps, startGarlic, n + 1);
      assert Progress(hash, after.mem, st0, mix, h, par, bl, nb0, reps, startGarlic, stopGarlic, skipLastHash, n + 1);
    } else {
      assert hash == Finish(mix, h, st0, par, bl, nb0, reps, startGarlic, n, skipLastHash);
      Finished(hash, after.mem, st0, mix, h, par, bl, nb0, reps, startGarlic, stopGarlic, skipLastHash, n);
    }
    ProgressAt(hash, after.mem, st0, mix, h, par, bl, nb0, reps, startGarlic, stopGarlic, skipLastHash, n + 1, next);
  }

  /** Progress depends on the number of levels only through its value. */
  lemma ProgressAt(hash: seq<byte>, mem: seq<word>, st0: Tiger, mix: BlockMixer, h: KeyedHash, par: nat,
                   bl: nat, nb0: nat, reps: nat, startGarlic: byte, stopGarlic: byte, skipLastHash: bool, a: nat, b: nat)
    requires a == b
    requires Progress(hash, mem, st0, mix, h, par, bl, nb0, reps, startGarlic, stopGarlic, skipLastHash, a)
    ensures Progress(hash, mem, st0, mix, h, par, bl, nb0, reps, startGarlic, stopGarlic, skipLastHash, b)
  {
  }

  /** Once the level at stopGarlic has run and its hash is the final one, the loop is done. */
  lemma Finished(hash: seq<byte>, mem: seq<word>, st0: Tiger, mix: BlockMixer, h: KeyedHash, par: nat,
                 bl: nat, nb0: nat, reps: nat, startGarlic: byte, stopGarlic: byte, skipLastHash: bool, n: nat)
    requires startGarlic + n == stopGarlic && |st0.hash| % 4 == 0
    requires NoelKdfRef.LevelsFit(par, bl, nb0, n + 1, |st0.mem|, |st0.hash| / 4)
    requires hash == Finish(mix, h, st0, par, bl, nb0, reps, startGarlic, n, skipLastHash)
    ensures Progress(hash, mem, st0, mix, h, par, bl, nb0, reps, startGarlic, stopGarlic, skipLastHash, n + 1)
  {
    FinishAt(mix, h, st0, par, bl, nb0, reps, startGarlic, skipLastHash, n, stopGarlic - startGarlic);
  }

  /** Finish depends on the number of levels only through its value. */
  lemma FinishAt(mix: BlockMixer, h: KeyedHash, st: Tiger, par: nat, bl: nat, nb: nat, reps: nat,
                 startGarlic: byte, skipLastHash: bool, a: nat, b: nat)
    requires a == b && |st.hash| % 4 == 0 && startGarlic + a < 0x100
    requires NoelKdfRef.LevelsFit(par, bl, nb, a + 1, |st.mem|, |st.hash| / 4)
    ensures NoelKdfRef.LevelsFit(par, bl, nb, b + 1, |st.mem|, |st.hash| / 4)
    ensures Finish(mix, h, st, par, bl, nb, reps, startGarlic, a, skipLastHash)
         == Finish(mix, h, st, par, bl, nb, reps, startGarlic, b, skipLastHash)
  {
  }

  /** The end of TigerKDF's loop body: H(hash, hash, [i]) unless i is stopGarlic and skipLastHash holds. */
  method RehashInto(h: KeyedHash, hash: array<byte>, i: byte, stopGarlic: byte, skipLastHash: bool)
    requires i <= stopGarlic
    modifies hash
    ensures hash[..] == Rehash(h, old(hash[..]), i, i == stopGarlic, skipLastHash)
  {
    if i < stopGarlic || !skipLastHash {
      HashInto(h, hash, hash[..], [i]);
    }
  }

  /** The loop of TigerKDF: garlic values startGarlic .. stopGarlic, numblocks doubling after each. */
  method RunGarlic(mix: BlockMixer, h: KeyedHash, hash: array<byte>, mem: array<word>, blocklen: nat,
                   numblocks: nat, parallelism: nat, repetitions: nat, startGarlic: byte, stopGarlic: byte,
                   skipLastHash: bool)
    requires repetitions >= 1
    requires hash.Length % 4 == 0 && startGarlic <= stopGarlic && blocklen % 4 == 0
    requires NoelKdfRef.LevelsFit(parallelism, blocklen, numblocks, stopGarlic - startGarlic + 1, mem.Length, hash.Length / 4)
    modifies hash, mem
    ensures hash[..] == Finish(mix, h, Tiger(old(hash[..]), old(mem[..])), parallelism, blocklen, numblocks, repetitions,
                               startGarlic, stopGarlic - startGarlic, skipLastHash)
  {
    ghost var st0 := Tiger(hash[..], mem[..]);
    var nb := numblocks;
    var i: nat := startGarlic;
    ghost var n: nat := 0;
    while i <= stopGarlic
      invariant i == startGarlic + n <= stopGarlic + 1
      invariant nb == NoelKdfRef.Doubled(numblocks, n)
      invariant Progress(hash[..], mem[..], st0, mix, h, parallelism, blocklen, numblocks, repetitions, startGarlic,
                         stopGarlic, skipLastHash, n)
      decreases stopGarlic + 1 - i
    {
      n := GarlicStep(mix, h, hash, mem, blocklen, nb, parallelism, repetitions, i, stopGarlic, skipLastHash, st0,
                      numblocks, startGarlic, n);
      nb := nb * 2;
      i := i + 1;
    }
  }

  /**
   * TigerKDF: memory sized from memSize in KiB, numblocks shifted by
   * startGarlic, the allocation shifted by stopGarlic - startGarlic, then the
   * garlic loop. allocOk says whether the allocations succeed (false is
   * returned before the hash is touched); junk is what fresh memory holds.
   */
  method TigerKdf(mix: BlockMixer, h: KeyedHash, hash: array<byte>, memSize: word, startGarlic: byte,
                  stopGarlic: byte, blockSize: word, parallelism: word, repetitions: word, skipLastHash: bool,
                  allocOk: bool, junk: nat -> word)
    returns (ok: bool)
    requires repetitions >= 1
    requires EngineParameters(hash.Length, memSize, startGarlic, stopGarlic, blockSize, parallelism)
    modifies hash
    ensures ok == allocOk
    ensures ok ==> hash[..] == TigerKdfHash(mix, h, old(hash[..]), memSize, startGarlic, stopGarlic, blockSize,
                                            parallelism, repetitions, skipLastHash, junk)
    ensures !ok ==> hash[..] == old(hash[..])
  {
    var memlen: nat := 1024 * memSize / 4;
    var blocklen: nat := blockSize / 4;
    MulMono(2 * parallelism, 1, blocklen);
    var numblocks: nat := memlen / (2 * parallelism * blocklen) * Pow2(startGarlic);
    assert numblocks == StartBlocks(memSize, blocklen, parallelism, startGarlic);
    // (2 * parallelism * numblocks * blocklen) << (stopGarlic - startGarlic)
    memlen := MemWords(memSize, blocklen, parallelism, startGarlic, stopGarlic);
    if !allocOk {
      return false;
    }
    var mem := new word[memlen](k requires 0 <= k => junk(k));
    assert mem[..] == seq(memlen, k requires 0 <= k => junk(k));
    LevelsFitBelow(hash.Length, memSize, startGarlic, stopGarlic, blockSize, parallelism, stopGarlic - startGarlic + 1);
    RunGarlic(mix, h, hash, mem, blocklen, numblocks, parallelism, repetitions, startGarlic, stopGarlic, skipLastHash);
    ok := true;
  }
}
