/**
 * The earlier multi-threaded NoelKDF of noelkdf-pthreads.c: every thread
 * fills its own run of numBlocks blocks, the first half choosing source
 * blocks with a small multiply-with-carry generator and the second half with
 * its own running value, all threads meeting half way to combine their
 * values; afterwards xorIntoHash scatters words of memory over the output.
 * The threads are run one after the other in two phases, split where they
 * meet. PBKDF2 is the keyed hash H; malloc's outcome and contents are
 * parameters.
 */
module NoelKdfPthreads {
  import opened Words
  import opened Addressing
  import opened Mixing
  import Passes
  import NoelKdfRef

  // ---------------------------------------------------------------------
  // fastRand
  // ---------------------------------------------------------------------

  /**
   * One multiply-with-carry step with multiplier a: a times the low 16 bits
   * plus the high 16 bits. For a below 2^16 it never needs more than 32
   * bits, so the uint32 arithmetic of fastRand does not wrap.
   */
  function Mwc(a: nat, x: word): (r: word)
    requires a < 0x1_0000
  {
    MulMono(x % 0x1_0000, a, 0xFFFF);
    MulMono(0xFFFF, x % 0x1_0000, 0xFFFF);
    a * (x % 0x1_0000) + x / 0x1_0000
  }

  /**
   * A multiply-with-carry step is multiplication by a modulo a * 2^16 - 1:
   * the generator is a multiplicative congruential generator in disguise.
   */
  lemma MwcIsMultiplication(a: nat, x: word)
    requires 1 <= a < 0x1_0000
    ensures (a * x) % (a * 0x1_0000 - 1) == Mwc(a, x) % (a * 0x1_0000 - 1)
  {
    var m := a * 0x1_0000 - 1;
    var hi, lo := x / 0x1_0000, x % 0x1_0000;
    assert a * x == a * (hi * 0x1_0000) + a * lo by {
      Distrib(a, hi * 0x1_0000, lo);
    }
    assert a * (hi * 0x1_0000) == hi * m + hi by {
      MulAssoc(a, hi, 0x1_0000);
      MulAssoc(hi, a, 0x1_0000);
      Distrib(hi, a * 0x1_0000, -1);
    }
    DivAddMultiple(Mwc(a, x), hi, m);
  }

  /** The word fastRand returns: (z << 16) + w in 32 bits. */
  function RandWord(z: word, w: word): word
  {
    (z * 0x1_0000 + w) % TWO32
  }

  /**
   * fastRand(&z, &w): both halves of the generator advance, with
   * multipliers 36969 and 18000, and the new z shifted left 16 bits plus
   * the new w is returned.
   */
  method FastRand(z: word, w: word) returns (z': word, w': word, r: word)
    ensures z' == Mwc(36969, z) && w' == Mwc(18000, w)
    ensures r == RandWord(z', w')
  {
    z' := 36969 * (z % 0x1_0000) + z / 0x1_0000;
    w' := 18000 * (w % 0x1_0000) + w / 0x1_0000;
    r := (z' * 0x1_0000 + w') % TWO32;
  }

  // ---------------------------------------------------------------------
  // The source block of hashMem
  // ---------------------------------------------------------------------

  /**
   * The block hashMem mixes into block i of its run: d cubed as a fraction
   * of 2^32 (d * d >> 32, then times d >> 32) scaled onto i - 1, that many
   * blocks back from block i - 1. It is always an earlier block, and block
   * 0 (the thread key) is the source only of block 1.
   */
  function SourceBlock(d: word, i: nat): (b: nat)
    requires i >= 1
    ensures b <= i - 1
    ensures i >= 2 ==> b >= 1
  {
    var squared := Scale(d, d);
    var cubed := Scale(squared, d);
    i - 1 - Scale(i - 1, cubed)
  }

  /** The 64-bit products behind SourceBlock never wrap: each factor is below 2^32. */
  lemma SourceBlockNoWrap(d: word, i: word)
    requires i >= 1
    ensures d * d < TWO64
    ensures Scale(d, d) * d < TWO64
    ensures (i - 1) * Scale(Scale(d, d), d) < TWO64
  {
    Pow2Of64();
    Pow2Of32();
    Pow2Add(32, 32);
    MulMono(d, d, TWO32 - 1);
    MulMono(TWO32 - 1, d, TWO32);
    MulMono(d, Scale(d, d), TWO32 - 1);
    MulMono(i - 1, Scale(Scale(d, d), d), TWO32);
    MulMono(TWO32, i - 1, TWO32);
  }

  // ---------------------------------------------------------------------
  // hashMem
  // ---------------------------------------------------------------------

  /**
   * The words of n blocks of blockLength words, block after block: n *
   * blockLength (SpanIsProduct), built up by addition so that the
   * addresses of blocks within a run stay linear.
   */
  function Span(n: nat, bl: nat): nat
  {
    if n == 0 then 0 else Span(n - 1, bl) + bl
  }

  /** n blocks hold n * blockLength words. */
  lemma {:induction false} SpanIsProduct(n: nat, bl: nat)
    ensures Span(n, bl) == bl * n
  {
    if n > 0 {
      SpanIsProduct(n - 1, bl);
      Distrib(bl, n - 1, 1);
    }
  }

  /** More blocks take more words. */
  lemma {:induction false} SpanMonotone(a: nat, b: nat, bl: nat)
    requires a <= b
    ensures Span(a, bl) <= Span(b, bl)
    decreases b
  {
    if a < b {
      SpanMonotone(a, b - 1, bl);
    }
  }

  /** Block i >= 1 of a run of nb blocks lies past block 0 and inside the run, after block src < i. */
  lemma {:induction false} SpanBlocks(bl: nat, nb: nat, i: nat, src: nat)
    requires src < i < nb
    ensures bl <= Span(i, bl) && Span(i, bl) + bl <= Span(nb, bl) && Span(src, bl) + bl <= Span(i, bl)
  {
    SpanMonotone(1, i, bl);
    SpanMonotone(i + 1, nb, bl);
    SpanMonotone(src + 1, i, bl);
  }

  /**
   * The word address of thread t's run of numBlocks blocks: the runs of
   * threads 0 .. t - 1 laid end to end (RunStartIsProduct: the source's
   * `mem + t*numBlocks*blockLength`).
   */
  function RunStart(t: nat, nb: nat, bl: nat): nat
  {
    if t == 0 then 0 else RunStart(t - 1, nb, bl) + Span(nb, bl)
  }

  /** The address as the source computes it, t * numBlocks * blockLength. */
  lemma RunStartIsProduct(t: nat, nb: nat, bl: nat)
    ensures RunStart(t, nb, bl) == t * nb * bl
  {
    RunStartIsSpans(t, nb, bl);
    SpanIsProduct(nb, bl);
    MulAssoc(t, nb, bl);
  }

  /** The runs of t threads take t times the words of one run. */
  lemma {:induction false} RunStartIsSpans(t: nat, nb: nat, bl: nat)
    ensures RunStart(t, nb, bl) == t * Span(nb, bl)
  {
    if t > 0 {
      RunStartIsSpans(t - 1, nb, bl);
      Distrib(Span(nb, bl), t - 1, 1);
    }
  }

  /** The run of thread t ends where the run of thread t + 1 starts, and a run holds at least one block. */
  lemma NextRun(t: nat, nb: nat, bl: nat)
    ensures RunStart(t, nb, bl) + Span(nb, bl) == RunStart(t + 1, nb, bl)
    ensures bl <= Span(nb, bl) || nb == 0
  {
    if nb >= 1 {
      SpanMonotone(1, nb, bl);
    }
  }

  /** Runs of later threads start later. */
  lemma {:induction false} RunStartMonotone(t: nat, u: nat, nb: nat, bl: nat)
    requires t <= u
    ensures RunStart(t, nb, bl) <= RunStart(u, nb, bl)
  {
    if t < u {
      RunStartMonotone(t, u - 1, nb, bl);
    }
  }

  /**
   * The thread key: H of the key bytes salted with the big-endian thread
   * id, blockLength * 4 bytes long, read as words.
   */
  function ThreadKey(h: KeyedHash, key: seq<byte>, t: word, bl: nat): (ws: seq<word>)
    ensures |ws| == bl
    ensures Be32EncVect(ws) == h(key, Be32Enc(t), 4 * bl)
  {
    var bytes := h(key, Be32Enc(t), 4 * bl);
    VectEncodeDecode(bytes);
    Be32DecVect(bytes)
  }

  /**
   * Block i of the run at start, filled by one pass over the previous block
   * and block src of the same run with the running value.
   */
  function MixBlock(s: Mixed, start: nat, bl: nat, nb: nat, i: nat, src: nat): (r: Mixed)
    requires src < i < nb && start + Span(nb, bl) <= |s.mem|
    ensures |r.mem| == |s.mem|
  {
    SpanBlocks(bl, nb, i, src);
    OnePass(s.mem, s.value, bl, start + Span(src, bl), start + Span(i, bl))
  }

  /** A thread before the meeting point: memory and value, and the generator halves z and w. */
  datatype Walk = Walk(mixed: Mixed, z: word, w: word)

  /** A block of the first half: fastRand draws the distance. */
  function RandBlock(s: Walk, start: nat, bl: nat, nb: nat, i: nat): (r: Walk)
    requires 1 <= i < nb && start + Span(nb, bl) <= |s.mixed.mem|
    ensures |r.mixed.mem| == |s.mixed.mem|
  {
    var z, w := Mwc(36969, s.z), Mwc(18000, s.w);
    Walk(MixBlock(s.mixed, start, bl, nb, i, SourceBlock(RandWord(z, w), i)), z, w)
  }

  /** The first half of a run: blocks 1 up to i - 1 filled, each from a fastRand distance. */
  function FirstHalf(s: Walk, start: nat, bl: nat, nb: nat, i: nat): (r: Walk)
    requires 1 <= i <= nb && start + Span(nb, bl) <= |s.mixed.mem|
    ensures |r.mixed.mem| == |s.mixed.mem|
    decreases i, 0
  {
    if i == 1 then s else FirstHalfBlock(s, start, bl, nb, i - 1)
  }

  /** The first half of a run up to and including block k. */
  function FirstHalfBlock(s: Walk, start: nat, bl: nat, nb: nat, k: nat): (r: Walk)
    requires 1 <= k < nb && start + Span(nb, bl) <= |s.mixed.mem|
    ensures |r.mixed.mem| == |s.mixed.mem|
    decreases k, 1
  {
    RandBlock(FirstHalf(s, start, bl, nb, k), start, bl, nb, k)
  }

  /** A block of the second half: the running value is the distance. */
  function ValueBlock(s: Mixed, start: nat, bl: nat, nb: nat, i: nat): (r: Mixed)
    requires 1 <= i < nb && start + Span(nb, bl) <= |s.mem|
    ensures |r.mem| == |s.mem|
  {
    MixBlock(s, start, bl, nb, i, SourceBlock(s.value, i))
  }

  /** The second half of a run: blocks mid up to i - 1 filled, each from a distance the value gives. */
  function SecondHalf(s: Mixed, start: nat, bl: nat, nb: nat, mid: nat, i: nat): (r: Mixed)
    requires 1 <= mid <= i <= nb && start + Span(nb, bl) <= |s.mem|
    ensures |r.mem| == |s.mem|
    decreases i, 0
  {
    if i == mid then s else SecondHalfBlock(s, start, bl, nb, mid, i - 1)
  }

  /** The second half of a run up to and including block k. */
  function SecondHalfBlock(s: Mixed, start: nat, bl: nat, nb: nat, mid: nat, k: nat): (r: Mixed)
    requires 1 <= mid <= k < nb && start + Span(nb, bl) <= |s.mem|
    ensures |r.mem| == |s.mem|
    decreases k, 1
  {
    ValueBlock(SecondHalf(s, start, bl, nb, mid, k), start, bl, nb, k)
  }

  /**
   * The block where the threads meet, numBlocks >> 1. With a single block
   * neither half has any block; 1 then stands for the empty first half.
   */
  function Meet(nb: nat): (mid: nat)
    requires nb >= 1
    ensures 1 <= mid <= nb
    ensures nb >= 2 ==> mid == nb / 2
  {
    if nb < 2 then 1 else nb / 2
  }

  /**
   * hashMem up to the meeting point for thread t: the thread key in block 0
   * of its run, then the first-half blocks from z = w = 1 and value 1; the
   * value it brings to the meeting.
   */
  function ThreadFirstHalf(mem: seq<word>, h: KeyedHash, key: seq<byte>, t: word, bl: nat, nb: nat): (r: Mixed)
    requires nb >= 1 && RunStart(t, nb, bl) + Span(nb, bl) <= |mem|
    ensures |r.mem| == |mem|
  {
    var start := RunStart(t, nb, bl);
    NextRun(t, nb, bl);
    var keyed := WriteWords(mem, start, ThreadKey(h, key, t, bl));
    FirstHalf(Walk(Mixed(keyed, 1), 1, 1), start, bl, nb, Meet(nb)).mixed
  }

  /** The memory and the values the threads bring to the meeting point. */
  datatype Halfway = Halfway(mem: seq<word>, values: seq<word>)

  /** The first halves of threads 0 .. t - 1, one after the other. */
  function FirstHalves(mem: seq<word>, h: KeyedHash, keys: nat -> seq<byte>, bl: nat, nb: nat, t: nat): (r: Halfway)
    requires nb >= 1 && t <= TWO32 && RunStart(t, nb, bl) <= |mem|
    ensures |r.mem| == |mem| && |r.values| == t
  {
    if t == 0 then Halfway(mem, [])
    else
      NextRun(t - 1, nb, bl);
      var before := FirstHalves(mem, h, keys, bl, nb, t - 1);
      var r := ThreadFirstHalf(before.mem, h, keys(t - 1), t - 1, bl, nb);
      Halfway(r.mem, before.values + [r.value])
  }

  /**
   * The second halves of threads 0 .. t - 1: each XORs its value with the
   * combined value, then fills the rest of its run.
   */
  function SecondHalves(mem: seq<word>, values: seq<word>, combined: word, bl: nat, nb: nat, t: nat): (r: seq<word>)
    requires nb >= 1 && t <= |values| && RunStart(t, nb, bl) <= |mem|
    ensures |r| == |mem|
  {
    if t == 0 then mem
    else
      NextRun(t - 1, nb, bl);
      var before := SecondHalves(mem, values, combined, bl, nb, t - 1);
      var s := Mixed(before, Xor32(values[t - 1], combined));
      SecondHalf(s, RunStart(t - 1, nb, bl), bl, nb, Meet(nb), nb).mem
  }

  /**
   * All threads of one repetition: the first halves, the meeting, at which
   * findHalfWayCombineThreadValue hands every thread the 32-bit sum of all
   * their values, and the second halves.
   */
  function HashMem(mem: seq<word>, h: KeyedHash, keys: nat -> seq<byte>, par: nat, bl: nat, nb: nat): (r: seq<word>)
    requires nb >= 1 && par <= TWO32 && RunStart(par, nb, bl) <= |mem|
    ensures |r| == |mem|
  {
    var half := FirstHalves(mem, h, keys, bl, nb, par);
    SecondHalves(half.mem, half.values, WrapSum(half.values), bl, nb, par)
  }

  /** The inner loop of hashMem for block i: one pass over block i - 1 and block src of the run. */
  method MixBlockInto(mem: array<word>, value: word, start: nat, bl: nat, nb: nat, i: nat, src: nat)
    returns (result: word)
    requires src < i < nb && start + Span(nb, bl) <= mem.Length
    modifies mem
    ensures Mixed(mem[..], result) == MixBlock(Mixed(old(mem[..]), value), start, bl, nb, i, src)
  {
    SpanBlocks(bl, nb, i, src);
    SpanIsProduct(src, bl);
    SpanIsProduct(i, bl);
    result := MixPass(mem, value, bl, start + bl * src, start + bl * i);
  }

  /** hashMem of thread t up to the meeting point. */
  method RunFirstHalf(mem: array<word>, h: KeyedHash, key: seq<byte>, t: word, bl: nat, nb: nat)
    returns (value: word)
    requires nb >= 1 && RunStart(t, nb, bl) + Span(nb, bl) <= mem.Length
    modifies mem
    ensures Mixed(mem[..], value) == ThreadFirstHalf(old(mem[..]), h, key, t, bl, nb)
  {
    var start := RunAddress(t, nb, bl);
    NextRun(t, nb, bl);
    WriteThreadKey(mem, h, key, t, bl, start);
    value := WalkFirstHalf(mem, start, bl, nb);
  }

  /** The first block of thread t's run: its key, hashed from the derived key and t. */
  method WriteThreadKey(mem: array<word>, h: KeyedHash, key: seq<byte>, t: word, bl: nat, start: nat)
    requires start + bl <= mem.Length
    modifies mem
    ensures mem[..] == WriteWords(old(mem[..]), start, ThreadKey(h, key, t, bl))
  {
    Be32DecInto(mem, start, h(key, Be32Enc(t), 4 * bl));
  }

  /** `c->mem + (uint64)t*numBlocks*blockLength`: where the run of thread t starts. */
  method RunAddress(t: nat, nb: nat, bl: nat) returns (start: nat)
    ensures start == RunStart(t, nb, bl)
  {
    start := t * nb * bl;
    RunStartIsProduct(t, nb, bl);
  }

  /** The loop of hashMem up to the meeting point, from z = w = value = 1. */
  method WalkFirstHalf(mem: array<word>, start: nat, bl: nat, nb: nat) returns (value: word)
    requires nb >= 1 && start + Span(nb, bl) <= mem.Length
    modifies mem
    ensures Mixed(mem[..], value) == FirstHalf(Walk(Mixed(old(mem[..]), 1), 1, 1), start, bl, nb, Meet(nb)).mixed
  {
    ghost var s0 := Walk(Mixed(mem[..], 1), 1, 1);
    var z: word, w: word := 1, 1;
    value := 1;
    var mid: nat := if nb < 2 then 1 else nb / 2;
    var i: nat := 1;
    while i < mid
      invariant 1 <= i <= mid == Meet(nb)
      invariant Walk(Mixed(mem[..], value), z, w) == FirstHalf(s0, start, bl, nb, i)
    {
      var next := i + 1;
      FirstHalfNext(s0, start, bl, nb, i, next);
      z, w, value := RandStep(mem, z, w, value, start, bl, nb, i);
      i := next;
    }
  }

  /** One pass of the loop of hashMem before the meeting point: fastRand, then block i. */
  method RandStep(mem: array<word>, z: word, w: word, value: word, start: nat, bl: nat, nb: nat, i: nat)
    returns (z': word, w': word, value': word)
    requires 1 <= i < nb && start + Span(nb, bl) <= mem.Length
    modifies mem
    ensures Walk(Mixed(mem[..], value'), z', w') == RandBlock(Walk(Mixed(old(mem[..]), value), z, w), start, bl, nb, i)
  {
    var d;
    z', w', d := FastRand(z, w);
    value' := MixBlockInto(mem, value, start, bl, nb, i, SourceBlock(d, i));
  }

  /** One more block of the first half. */
  lemma {:induction false} FirstHalfNext(s: Walk, start: nat, bl: nat, nb: nat, i: nat, next: nat)
    requires 1 <= i < nb && start + Span(nb, bl) <= |s.mixed.mem| && next == i + 1
    ensures FirstHalf(s, start, bl, nb, next) == RandBlock(FirstHalf(s, start, bl, nb, i), start, bl, nb, i)
  {
    assert FirstHalf(s, start, bl, nb, next) == FirstHalfBlock(s, start, bl, nb, i);
  }

  /** hashMem of thread t from the meeting point on, with its value already combined. */
  method RunSecondHalf(mem: array<word>, value: word, start: nat, bl: nat, nb: nat)
    requires nb >= 1 && start + Span(nb, bl) <= mem.Length
    modifies mem
    ensures mem[..] == SecondHalf(Mixed(old(mem[..]), value), start, bl, nb, Meet(nb), nb).mem
  {
    ghost var s0 := Mixed(mem[..], value);
    var v := value;
    var i: nat := if nb < 2 then 1 else nb / 2;
    while i < nb
      invariant Meet(nb) <= i <= nb
      invariant Mixed(mem[..], v) == SecondHalf(s0, start, bl, nb, Meet(nb), i)
    {
      var next := i + 1;
      SecondHalfNext(s0, start, bl, nb, Meet(nb), i, next);
      v := MixBlockInto(mem, v, start, bl, nb, i, SourceBlock(v, i));
      i := next;
    }
  }

  /** One more block of the second half. */
  lemma SecondHalfNext(s: Mixed, start: nat, bl: nat, nb: nat, mid: nat, i: nat, next: nat)
    requires 1 <= mid <= i < nb && start + Span(nb, bl) <= |s.mem| && next == i + 1
    ensures var before := SecondHalf(s, start, bl, nb, mid, i);
      SecondHalf(s, start, bl, nb, mid, next) == MixBlock(before, start, bl, nb, i, SourceBlock(before.value, i))
  {
  }

  /** One more thread's first half. */
  lemma FirstHalvesNext(mem: seq<word>, h: KeyedHash, keys: nat -> seq<byte>, bl: nat, nb: nat, t: nat, next: nat)
    requires nb >= 1 && t < TWO32 && next == t + 1 && RunStart(next, nb, bl) <= |mem|
    ensures RunStart(t, nb, bl) + Span(nb, bl) <= |mem|
    ensures var before := FirstHalves(mem, h, keys, bl, nb, t);
      var r := ThreadFirstHalf(before.mem, h, keys(t), t, bl, nb);
      FirstHalves(mem, h, keys, bl, nb, next) == Halfway(r.mem, before.values + [r.value])
  {
    NextRun(t, nb, bl);
  }

  /** One more thread's second half. */
  lemma SecondHalvesNext(mem: seq<word>, values: seq<word>, combined: word, bl: nat, nb: nat, t: nat, next: nat)
    requires nb >= 1 && t < |values| && next == t + 1 && RunStart(next, nb, bl) <= |mem|
    ensures RunStart(t, nb, bl) + Span(nb, bl) <= |mem|
    ensures var before := SecondHalves(mem, values, combined, bl, nb, t);
      SecondHalves(mem, values, combined, bl, nb, next)
      == SecondHalf(Mixed(before, Xor32(values[t], combined)), RunStart(t, nb, bl), bl, nb, Meet(nb), nb).mem
  {
    NextRun(t, nb, bl);
  }

  /** The threads of one repetition up to the meeting point, in thread order. */
  method FirstPhase(mem: array<word>, h: KeyedHash, keys: nat -> seq<byte>, par: word, bl: nat, nb: nat)
    returns (values: seq<word>)
    requires nb >= 1 && RunStart(par, nb, bl) <= mem.Length
    modifies mem
    ensures Halfway(mem[..], values) == FirstHalves(old(mem[..]), h, keys, bl, nb, par)
  {
    values := [];
    var t: nat := 0;
    while t < par
      invariant t <= par && RunStart(t, nb, bl) <= mem.Length
      invariant Halfway(mem[..], values) == FirstHalves(old(mem[..]), h, keys, bl, nb, t)
    {
      var next := t + 1;
      RunStartMonotone(next, par, nb, bl);
      FirstHalvesNext(old(mem[..]), h, keys, bl, nb, t, next);
      var v := RunFirstHalf(mem, h, keys(t), t, bl, nb);
      values := values + [v];
      t := next;
    }
  }

  /** The threads of one repetition from the meeting point on, in thread order. */
  method SecondPhase(mem: array<word>, values: seq<word>, combined: word, par: word, bl: nat, nb: nat)
    requires nb >= 1 && par <= |values| && RunStart(par, nb, bl) <= mem.Length
    modifies mem
    ensures mem[..] == SecondHalves(old(mem[..]), values, combined, bl, nb, par)
  {
    var t: nat := 0;
    while t < par
      invariant t <= par && RunStart(t, nb, bl) <= mem.Length
      invariant mem[..] == SecondHalves(old(mem[..]), values, combined, bl, nb, t)
    {
      var next := t + 1;
      RunStartMonotone(next, par, nb, bl);
      SecondHalvesNext(old(mem[..]), values, combined, bl, nb, t, next);
      var start := RunAddress(t, nb, bl);
      RunSecondHalf(mem, Xor32(values[t], combined), start, bl, nb);
      t := next;
    }
  }

  // ---------------------------------------------------------------------
  // xorIntoHash
  // ---------------------------------------------------------------------

  /** `hash[hashPos++] ^= b`, with hashPos first wrapped to 0 when it has reached hashSize. */
  function XorByte(hash: seq<byte>, pos: nat, b: byte): (r: (seq<byte>, nat))
    requires 1 <= |hash| && pos <= |hash|
    ensures |r.0| == |hash| && 1 <= r.1 <= |hash|
  {
    var p := if pos == |hash| then 0 else pos;
    (hash[p := Xor8(hash[p], b)], p + 1)
  }

  /** The bytes of bs XOR-ed into the hash one after another from hashPos on, wrapping around. */
  function XorAt(hash: seq<byte>, pos: nat, bs: seq<byte>): (r: (seq<byte>, nat))
    requires 1 <= |hash| && pos <= |hash|
    ensures |r.0| == |hash| && r.1 <= |hash|
  {
    if bs == [] then (hash, pos)
    else
      var t := XorAt(hash, pos, bs[..|bs| - 1]);
      XorByte(t.0, t.1, bs[|bs| - 1])
  }

  /** The state of xorIntoHash: the output hash, hashPos and value. */
  datatype Scatter = Scatter(hash: seq<byte>, pos: nat, value: word)

  /** hashPos never passes hashSize (on reaching it, it wraps before the next write). */
  predicate InHash(s: Scatter)
  {
    1 <= |s.hash| && s.pos <= |s.hash|
  }

  /** `value <<= 8` on a uint32. */
  function Shl8(v: word): word
  {
    v * 0x100 % TWO32
  }

  /** One pass of the inner loop: the top byte of value goes into the hash and value shifts left 8 bits. */
  function ByteStep(s: Scatter): (r: Scatter)
    requires InHash(s)
    ensures InHash(r) && |r.hash| == |s.hash|
  {
    var t := XorByte(s.hash, s.pos, s.value / 0x100_0000);
    Scatter(t.0, t.1, Shl8(s.value))
  }

  /** The inner loop after k of its passes. */
  function ByteSteps(s: Scatter, k: nat): (r: Scatter)
    requires InHash(s)
    ensures InHash(r) && |r.hash| == |s.hash|
  {
    if k == 0 then s else ByteStep(ByteSteps(s, k - 1))
  }

  /** The top byte of a word is byte 0 of its big-endian encoding, and shifting left by 8 drops it. */
  lemma ShiftOutTopByte(v: word)
    ensures v / 0x100_0000 == Be32Enc(v)[0]
    ensures Be32Enc(Shl8(v)) == Be32Enc(v)[1..] + [0]
  {
    var b := Be32Enc(v);
    DecodeEncode(v);
    var b0, b1, b2, b3: nat := b[0], b[1], b[2], b[3];
    var rest := (b1 * 0x100 + b2) * 0x100 + b3;
    assert v == b0 * 0x100_0000 + rest;
    DivUnique(v, 0x100_0000, b0, rest);
    DivUnique(v * 0x100, TWO32, b0, rest * 0x100);
    var c := [b[1], b[2], b[3], 0];
    assert Be32Dec(c) == rest * 0x100;
    EncodeDecode(c);
    assert c == b[1..] + [0];
  }

  /**
   * After k <= 4 passes the inner loop has XOR-ed in the first k bytes of
   * the word's big-endian encoding, and what is left of value encodes the
   * remaining bytes followed by k zero bytes.
   */
  lemma {:induction false} ByteStepsEncode(s: Scatter, k: nat)
    requires InHash(s) && k <= 4
    ensures var r := ByteSteps(s, k);
      var t := XorAt(s.hash, s.pos, Be32Enc(s.value)[..k]);
      r.hash == t.0 && r.pos == t.1 && Be32Enc(r.value) == Be32Enc(s.value)[k..] + seq(k, _ => 0)
  {
    var e := Be32Enc(s.value);
    if k == 0 {
      assert e[..0] == [];
    } else {
      ByteStepsEncode(s, k - 1);
      var r := ByteSteps(s, k - 1);
      ShiftOutTopByte(r.value);
      assert e[..k][..k - 1] == e[..k - 1];
      assert (e[k - 1..] + seq(k - 1, _ => 0))[1..] + [0] == e[k..] + seq(k, _ => 0);
    }
  }

  /**
   * The whole inner loop XORs the word into the hash high byte first, and
   * leaves nothing of value: after four shifts by 8 bits it is 0.
   */
  lemma ScatterWord(s: Scatter)
    requires InHash(s)
    ensures var t := XorAt(s.hash, s.pos, Be32Enc(s.value));
      ByteSteps(s, 4) == Scatter(t.0, t.1, 0)
  {
    ByteStepsEncode(s, 4);
    var r := ByteSteps(s, 4);
    assert Be32Enc(s.value)[..4] == Be32Enc(s.value);
    assert Be32Enc(r.value) == Be32Enc(0);
    DecodeEncode(r.value);
    DecodeEncode(0);
  }

  /** `value += mem[value % memLength] ^ i`. */
  function Load(value: word, mem: seq<word>, len: nat, i: word): (r: word)
    requires 1 <= len <= |mem|
  {
    Add32(value, Xor32(mem[value % len], i))
  }

  /**
   * One step of xorIntoHash: load a word into value, then XOR value into
   * the hash high byte first. As written the shifts leave value 0 (keep is
   * false); kept, value carries on to the next step.
   */
  function XorStep(s: Scatter, mem: seq<word>, len: nat, i: word, keep: bool): (r: Scatter)
    requires InHash(s) && 1 <= len <= |mem|
    ensures InHash(r) && |r.hash| == |s.hash|
  {
    var v := Load(s.value, mem, len, i);
    var t := XorAt(s.hash, s.pos, Be32Enc(v));
    Scatter(t.0, t.1, if keep then v else 0)
  }

  /** xorIntoHash after its first n steps, from hashPos 0 and value UINT32_MAX. */
  function XorRun(hash: seq<byte>, mem: seq<word>, len: nat, n: nat, keep: bool): (r: Scatter)
    requires 1 <= |hash| && 1 <= len <= |mem| && n <= TWO32
    ensures InHash(r) && |r.hash| == |hash|
  {
    if n == 0 then Scatter(hash, 0, TWO32 - 1)
    else XorStep(XorRun(hash, mem, len, n - 1, keep), mem, len, n - 1, keep)
  }

  /** The number of steps: `parallelism*100` in uint32 arithmetic. */
  function XorSteps(par: word): (n: word)
  {
    par * 100 % TWO32
  }

  /**
   * The inner loop of xorIntoHash over the array: the word goes into the
   * hash as its four big-endian bytes from hashPos on, and the shifted
   * copy of value that the loop leaves behind is 0.
   */
  method ScatterWordInto(hash: array<byte>, pos: nat, value: word) returns (newPos: nat, shifted: word)
    requires 1 <= hash.Length && pos <= hash.Length
    modifies hash
    ensures (hash[..], newPos) == XorAt(old(hash[..]), pos, Be32Enc(value))
    ensures shifted == 0
  {
    ghost var s0 := Scatter(hash[..], pos, value);
    newPos, shifted := pos, value;
    var j := 0;
    while j < 4
      invariant j <= 4
      invariant Scatter(hash[..], newPos, shifted) == ByteSteps(s0, j)
    {
      if newPos == hash.Length {
        newPos := 0;
      }
      hash[newPos] := Xor8(hash[newPos], shifted / 0x100_0000);
      newPos := newPos + 1;
      shifted := shifted * 0x100 % TWO32;
      j := j + 1;
    }
    ScatterWord(s0);
  }

  /**
   * xorIntoHash: each of the parallelism * 100 steps loads the word at
   * value mod memLength into value and XORs value into the hash. With keep
   * false the shifts leave value 0 after every step, as written; with keep
   * true value carries on to the next step, as evidently intended.
   */
  method XorIntoHash(par: word, mem: array<word>, hash: array<byte>, bl: word, nb: word, keep: bool)
    requires 1 <= hash.Length && 1 <= par * bl * nb <= mem.Length && par * bl * nb < TWO32
    modifies hash
    ensures hash[..] == XorRun(old(hash[..]), mem[..], par * bl * nb, XorSteps(par), keep).hash
  {
    var value: word := TWO32 - 1;
    var pos: nat := 0;
    var len: nat := par * bl * nb;
    var steps := par * 100 % TWO32;
    var i: nat := 0;
    while i < steps
      invariant i <= steps
      invariant Scatter(hash[..], pos, value) == XorRun(old(hash[..]), mem[..], len, i, keep)
    {
      var next := i + 1;
      XorRunNext(old(hash[..]), mem[..], len, i, next, keep);
      pos, value := XorStepInto(mem, hash, len, pos, value, i, keep);
      i := next;
    }
  }

  /** One pass of the outer loop of xorIntoHash; value is the shifted copy unless kept. */
  method XorStepInto(mem: array<word>, hash: array<byte>, len: nat, pos: nat, value: word, i: word, keep: bool)
    returns (newPos: nat, newValue: word)
    requires 1 <= hash.Length && pos <= hash.Length && 1 <= len <= mem.Length
    modifies hash
    ensures Scatter(hash[..], newPos, newValue) == XorStep(Scatter(old(hash[..]), pos, value), mem[..], len, i, keep)
  {
    var loaded := (value + Xor32(mem[value % len], i)) % TWO32;
    assert loaded == Load(value, mem[..], len, i);
    var shifted;
    newPos, shifted := ScatterWordInto(hash, pos, loaded);
    newValue := if keep then loaded else shifted;
  }

  /** One more step. */
  lemma XorRunNext(hash: seq<byte>, mem: seq<word>, len: nat, i: nat, next: nat, keep: bool)
    requires 1 <= |hash| && 1 <= len <= |mem| && i < TWO32 && next == i + 1
    ensures XorRun(hash, mem, len, next, keep) == XorStep(XorRun(hash, mem, len, i, keep), mem, len, i, keep)
  {
  }

  /** One as-written step from the same state over memories that agree at the word it reads. */
  lemma SameLoadStep(s: Scatter, m1: seq<word>, m2: seq<word>, len: nat, i: word)
    requires InHash(s) && 1 <= len <= |m1| && len <= |m2| && m1[s.value % len] == m2[s.value % len]
    ensures XorStep(s, m1, len, i, false) == XorStep(s, m2, len, i, false)
  {
    assert Load(s.value, m1, len, i) == Load(s.value, m2, len, i);
  }

  /** As written, value is UINT32_MAX before the first step and 0 after every step. */
  lemma {:induction false} AsWrittenValueLost(hash: seq<byte>, mem: seq<word>, len: nat, n: nat)
    requires 1 <= |hash| && 1 <= len <= |mem| && n <= TWO32
    ensures XorRun(hash, mem, len, n, false).value == if n == 0 then TWO32 - 1 else 0
  {
  }

  /**
   * As written, xorIntoHash reads only two words of memory, mem[0] and
   * mem[UINT32_MAX % memLength]: memories that agree there give the same
   * hash, however many steps are taken.
   */
  lemma {:induction false} AsWrittenReadsTwoWords(hash: seq<byte>, m1: seq<word>, m2: seq<word>, len: nat, n: nat)
    requires 1 <= |hash| && 1 <= len <= |m1| && len <= |m2| && n <= TWO32
    requires m1[0] == m2[0] && m1[(TWO32 - 1) % len] == m2[(TWO32 - 1) % len]
    ensures XorRun(hash, m1, len, n, false) == XorRun(hash, m2, len, n, false)
  {
    if n > 0 {
      AsWrittenReadsTwoWords(hash, m1, m2, len, n - 1);
      var s := XorRun(hash, m1, len, n - 1, false);
      AsWrittenValueLost(hash, m1, len, n - 1);
      if n == 1 {
        SameLoadStep(s, m1, m2, len, n - 1);
      } else {
        DivUnique(s.value, len, 0, 0);
        SameLoadStep(s, m1, m2, len, n - 1);
      }
    }
  }

  /** XOR with zero keeps the low n bits. */
  lemma {:induction false} XorBitsZero(a: nat, n: nat)
    ensures XorBits(0, a, n) == a % Pow2(n)
    ensures XorBits(a, 0, n) == a % Pow2(n)
  {
    if n > 0 {
      XorBitsZero(a / 2, n - 1);
      ModSplit(a, Pow2(n - 1));
    }
  }

  /** XOR of 32-bit words with zero: `0 ^ b == b`. */
  lemma Xor32Zero(b: word)
    ensures Xor32(0, b) == b
  {
    Pow2Of32();
    XorBitsZero(b, 32);
    DivUnique(b, TWO32, 0, b);
  }

  /** XOR-ing one more byte: the prefix of length k + 1 is the prefix of length k, then byte k. */
  lemma XorAtSnoc(hash: seq<byte>, pos: nat, bs: seq<byte>, k: nat)
    requires 1 <= |hash| && pos <= |hash| && k < |bs|
    ensures var t := XorAt(hash, pos, bs[..k]);
      XorAt(hash, pos, bs[..k + 1]) == XorByte(t.0, t.1, bs[k])
  {
    assert bs[..k + 1][..k] == bs[..k];
  }

  /** XOR-ing four bytes into a four-byte hash whose hashPos is 0 or at the end: byte k goes to position k. */
  lemma {:induction false} XorAtFour(hash: seq<byte>, pos: nat, bs: seq<byte>)
    requires |hash| == 4 && |bs| == 4 && (pos == 0 || pos == 4)
    ensures XorAt(hash, pos, bs) == (XorBytes(hash, bs), 4)
  {
    assert bs[..0] == [];
    var x0 := Xor8(hash[0], bs[0]);
    var x1 := Xor8(hash[1], bs[1]);
    var x2 := Xor8(hash[2], bs[2]);
    var x3 := Xor8(hash[3], bs[3]);
    assert XorAt(hash, pos, bs[..0]) == (hash, pos);
    XorAtSnoc(hash, pos, bs, 0);
    assert XorAt(hash, pos, bs[..1]).1 == 1;
    assert XorAt(hash, pos, bs[..1]).0 == hash[0 := x0];
    assert hash[0 := x0] == [x0, hash[1], hash[2], hash[3]];
    assert XorAt(hash, pos, bs[..1]) == ([x0, hash[1], hash[2], hash[3]], 1);
    XorAtSnoc(hash, pos, bs, 1);
    assert XorAt(hash, pos, bs[..2]).0 == [x0, hash[1], hash[2], hash[3]][1 := x1];
    assert [x0, hash[1], hash[2], hash[3]][1 := x1] == [x0, x1, hash[2], hash[3]];
    assert XorAt(hash, pos, bs[..2]) == ([x0, x1, hash[2], hash[3]], 2);
    XorAtSnoc(hash, pos, bs, 2);
    assert XorAt(hash, pos, bs[..3]).0 == [x0, x1, hash[2], hash[3]][2 := x2];
    assert [x0, x1, hash[2], hash[3]][2 := x2] == [x0, x1, x2, hash[3]];
    assert XorAt(hash, pos, bs[..3]) == ([x0, x1, x2, hash[3]], 3);
    XorAtSnoc(hash, pos, bs, 3);
    assert bs[..4] == bs;
    assert XorAt(hash, pos, bs).0 == [x0, x1, x2, hash[3]][3 := x3];
    assert [x0, x1, x2, hash[3]][3 := x3] == [x0, x1, x2, x3];
    assert XorAt(hash, pos, bs) == ([x0, x1, x2, x3], 4);
    assert [x0, x1, x2, x3] == XorBytes(hash, bs);
  }

  /**
   * One kept-value step over two memories from the same state, with hashPos
   * 0 or at the end of a four-byte hash, where both load the same value v:
   * the states stay the same, with value v.
   */
  lemma SameStep(hash: seq<byte>, m1: seq<word>, m2: seq<word>, n: nat, v: word)
    requires |hash| == 4 && |m1| == |m2| == 4 && n < 4
    requires var s := XorRun(hash, m1, 4, n, true);
      s == XorRun(hash, m2, 4, n, true) && (s.pos == 0 || s.pos == 4) &&
      Load(s.value, m1, 4, n) == v == Load(s.value, m2, 4, n)
    ensures var s := XorRun(hash, m1, 4, n + 1, true);
      s == XorRun(hash, m2, 4, n + 1, true) && s.pos == 4 && s.value == v
  {
    var s := XorRun(hash, m1, 4, n, true);
    XorAtFour(s.hash, s.pos, Be32Enc(v));
  }

  /** UINT32_MAX modulo 4. */
  lemma LastWordMod4(d: nat)
    requires d == 4
    ensures (TWO32 - 1) % d == 3
  {
    DivUnique(TWO32 - 1, d, 0x3FFF_FFFF, 3);
  }

  /** Four words of memory that are 0 at words 0 and 3. */
  predicate ZeroEnds(m: seq<word>)
  {
    |m| == 4 && m[0] == 0 && m[3] == 0
  }

  /**
   * The first three kept-value steps over any memory of four words that is
   * 0 at words 0 and 3 read words 3, 3 and 0 and leave value 2, with
   * hashPos at the end of a four-byte hash: two such memories give the same
   * state.
   */
  lemma ThreeSteps(hash: seq<byte>, m1: seq<word>, m2: seq<word>)
    requires |hash| == 4 && ZeroEnds(m1) && ZeroEnds(m2)
    ensures var s := XorRun(hash, m1, 4, 3, true);
      s == XorRun(hash, m2, 4, 3, true) && s.value == 2 && s.pos == 4
  {
    LastWordMod4(4);
    assert XorRun(hash, m1, 4, 0, true) == Scatter(hash, 0, TWO32 - 1) == XorRun(hash, m2, 4, 0, true);
    Xor32Zero(0);
    SameStep(hash, m1, m2, 0, TWO32 - 1);
    Xor32Zero(1);
    SameStep(hash, m1, m2, 1, 0);
    Xor32Zero(2);
    SameStep(hash, m1, m2, 2, 2);
  }

  /**
   * Kept from step to step, value steers the reads through memory: with a
   * four-byte hash, two memories of four words that agree at words 0 and 3
   * (the only ones the code as written reads) but differ at word 2 already
   * give different hashes after four steps, the fourth step reading word 2.
   */
  lemma CorrectedReadsFurther(hash: seq<byte>, m1: seq<word>, m2: seq<word>)
    requires |hash| == 4 && ZeroEnds(m1) && ZeroEnds(m2) && m1[2] != m2[2]
    ensures XorRun(hash, m1, 4, 4, true).hash != XorRun(hash, m2, 4, 4, true).hash
  {
    ThreeSteps(hash, m1, m2);
    var s3 := XorRun(hash, m1, 4, 3, true);
    var v1, v2 := Load(2, m1, 4, 3), Load(2, m2, 4, 3);
    assert v1 != v2 by {
      Xor32Twice(m1[2], 3);
      Xor32Twice(m2[2], 3);
      Add32Injective(2, Xor32(m1[2], 3), Xor32(m2[2], 3));
    }
    XorAtFour(s3.hash, 4, Be32Enc(v1));
    XorAtFour(s3.hash, 4, Be32Enc(v2));
    DecodeEncode(v1);
    DecodeEncode(v2);
    BytesDiffer(s3.hash, Be32Enc(v1), Be32Enc(v2));
  }

  /** Adding the same word in 32 bits keeps different words different. */
  lemma Add32Injective(c: word, a: word, b: word)
    requires a != b
    ensures Add32(c, a) != Add32(c, b)
  {
    if c + a < TWO32 {
      DivUnique(c + a, TWO32, 0, c + a);
    } else {
      DivUnique(c + a, TWO32, 1, c + a - TWO32);
    }
    if c + b < TWO32 {
      DivUnique(c + b, TWO32, 0, c + b);
    } else {
      DivUnique(c + b, TWO32, 1, c + b - TWO32);
    }
  }

  /** XOR is symmetric. */
  lemma {:induction false} XorBitsSymmetric(a: nat, b: nat, n: nat)
    ensures XorBits(a, b, n) == XorBits(b, a, n)
  {
    if n > 0 {
      XorBitsSymmetric(a / 2, b / 2, n - 1);
    }
  }

  /** XOR-ing different byte strings into the same hash gives different hashes. */
  lemma BytesDiffer(hash: seq<byte>, a: seq<byte>, b: seq<byte>)
    requires |hash| == |a| == |b| && a != b
    ensures XorBytes(hash, a) != XorBytes(hash, b)
  {
    var k :| 0 <= k < |a| && a[k] != b[k];
    XorBitsSymmetric(hash[k], a[k], 8);
    XorBitsSymmetric(hash[k], b[k], 8);
    Xor8Twice(a[k], hash[k]);
    Xor8Twice(b[k], hash[k]);
    assert XorBytes(hash, a)[k] == Xor8(hash[k], a[k]) && XorBytes(hash, b)[k] == Xor8(hash[k], b[k]);
  }

  /** XOR-ing the same bits into two values keeps their difference. */
  lemma {:induction false} XorBitsCancel(a: nat, b: nat, c: nat, n: nat)
    ensures XorBits(XorBits(a, c, n), XorBits(b, c, n), n) == XorBits(a, b, n)
  {
    if n > 0 {
      var x, y := XorBits(a, c, n), XorBits(b, c, n);
      XorBitsSplit(a, c, n);
      XorBitsSplit(b, c, n);
      XorBitsSplit(x, y, n);
      XorBitsCancel(a / 2, b / 2, c / 2, n - 1);
      ParitySum(x, y, a, b, c);
    }
  }

  /** If x has the parity of a + c and y that of b + c, then x + y has the parity of a + b. */
  lemma ParitySum(x: nat, y: nat, a: nat, b: nat, c: nat)
    requires x % 2 == (a + c) % 2 && y % 2 == (b + c) % 2
    ensures (x + y) % 2 == (a + b) % 2
  {
    ParityCancel(x, a, c);
    ParityCancel(y, b, c);
  }

  /** XOR-ing the same byte into the same position of two hashes keeps their difference. */
  lemma XorByteKeepsDifference(h1: seq<byte>, h2: seq<byte>, pos: nat, b: byte)
    requires 1 <= |h1| == |h2| && pos <= |h1|
    ensures XorByte(h1, pos, b).1 == XorByte(h2, pos, b).1
    ensures XorBytes(XorByte(h1, pos, b).0, XorByte(h2, pos, b).0) == XorBytes(h1, h2)
  {
    var p := if pos == |h1| then 0 else pos;
    XorBitsCancel(h1[p], h2[p], b, 8);
    assert XorBytes(XorByte(h1, pos, b).0, XorByte(h2, pos, b).0)[p] == XorBytes(h1, h2)[p];
  }

  /** XOR-ing the same bytes from the same position into two hashes keeps their difference. */
  lemma {:induction false} XorAtKeepsDifference(h1: seq<byte>, h2: seq<byte>, pos: nat, bs: seq<byte>)
    requires 1 <= |h1| == |h2| && pos <= |h1|
    ensures XorAt(h1, pos, bs).1 == XorAt(h2, pos, bs).1
    ensures XorBytes(XorAt(h1, pos, bs).0, XorAt(h2, pos, bs).0) == XorBytes(h1, h2)
    decreases |bs|
  {
    if bs != [] {
      XorAtKeepsDifference(h1, h2, pos, bs[..|bs| - 1]);
      var t1, t2 := XorAt(h1, pos, bs[..|bs| - 1]), XorAt(h2, pos, bs[..|bs| - 1]);
      XorByteKeepsDifference(t1.0, t2.0, t1.1, bs[|bs| - 1]);
    }
  }

  /**
   * xorIntoHash never reads the hash: run over the same memory, two hashes
   * of the same length end with the same hashPos and value, and differ
   * exactly as they did at the start.
   */
  lemma {:induction false} XorRunKeepsDifference(h1: seq<byte>, h2: seq<byte>, mem: seq<word>, len: nat, n: nat,
                                                 keep: bool)
    requires 1 <= |h1| == |h2| && 1 <= len <= |mem| && n <= TWO32
    ensures var r1, r2 := XorRun(h1, mem, len, n, keep), XorRun(h2, mem, len, n, keep);
      r1.pos == r2.pos && r1.value == r2.value && XorBytes(r1.hash, r2.hash) == XorBytes(h1, h2)
  {
    if n > 0 {
      XorRunKeepsDifference(h1, h2, mem, len, n - 1, keep);
      var s1, s2 := XorRun(h1, mem, len, n - 1, keep), XorRun(h2, mem, len, n - 1, keep);
      XorAtKeepsDifference(s1.hash, s2.hash, s1.pos, Be32Enc(Load(s1.value, mem, len, n - 1)));
    }
  }

  // ---------------------------------------------------------------------
  // NoelKDF
  // ---------------------------------------------------------------------

  /**
   * Which key the threads hash and how xorIntoHash carries value. The code
   * as written hands each thread's hashMem a key pointer and length that the
   * launch loop never sets: the contents of that thread's context in a fresh
   * malloc, the same in every repetition, given here as stale(t) for thread
   * t. It also loses value after every xorIntoHash step. Corrected, every
   * thread keys on the current output and value is kept.
   */
  datatype Variant = Corrected | AsWritten(stale: nat -> seq<byte>)

  /** For each thread, the bytes its thread key is derived from. */
  function ThreadSecret(v: Variant, out: seq<byte>): (keys: nat -> seq<byte>)
    ensures v.Corrected? ==> forall t :: keys(t) == out
  {
    match v
    case Corrected => (t: nat) => out
    case AsWritten(stale) => stale
  }

  /** The output hash and the memory between repetitions. */
  datatype State = State(out: seq<byte>, mem: seq<word>)

  /**
   * A level with numBlocks blocks per thread fits: at least one thread, one
   * word per block and one block, every run inside the memory, and the
   * uint32 memLength of xorIntoHash exact.
   */
  predicate LevelFits(par: nat, bl: nat, nb: nat, memLen: nat)
  {
    1 <= par && 1 <= bl && 1 <= nb && RunStart(par, nb, bl) <= memLen && RunStart(par, nb, bl) < TWO32
  }

  /** The runs of par threads end at the product that sizes the level. */
  lemma RunsEnd(par: nat, bl: nat, nb: nat)
    ensures RunStart(par, nb, bl) == par * bl * nb
  {
    RunStartIsProduct(par, nb, bl);
    MulAssoc(par, nb, bl);
    MulAssoc(par, bl, nb);
  }

  /** A level that fits has its thread count, block length and block count in uint32. */
  lemma FitsInWords(par: nat, bl: nat, nb: nat, memLen: nat)
    requires LevelFits(par, bl, nb, memLen)
    ensures par < TWO32 && bl < TWO32 && nb < TWO32
    ensures 1 <= par * bl * nb
  {
    RunsEnd(par, bl, nb);
    MulMono(par, 1, bl);
    MulMono(par * bl, 1, nb);
    MulMono(bl, 1, par);
    MulAssoc(par, bl, nb);
    MulMono(par * nb, 1, bl);
    MulAssoc(par, nb, bl);
  }

  /** The same facts without products: the threads fit in uint32 and the level is not empty. */
  lemma LevelFitsLinear(par: nat, bl: nat, nb: nat, memLen: nat)
    requires LevelFits(par, bl, nb, memLen)
    ensures par < TWO32 && 1 <= RunStart(par, nb, bl)
  {
    FitsInWords(par, bl, nb, memLen);
    RunsEnd(par, bl, nb);
  }

  /** If level b fits, so does every earlier level a, with 2^(b-a) times fewer blocks. */
  lemma LevelFitsBelow(par: nat, bl: nat, nb0: nat, a: nat, b: nat, memLen: nat)
    requires a <= b && LevelFits(par, bl, NoelKdfRef.Doubled(nb0, b), memLen)
    ensures LevelFits(par, bl, NoelKdfRef.Doubled(nb0, a), memLen)
  {
    DoubledGrows(nb0, a, b);
    RunStartBlocksMonotone(par, NoelKdfRef.Doubled(nb0, a), NoelKdfRef.Doubled(nb0, b), bl);
  }

  /** Doubling more often gives more blocks, and never fewer than at the start. */
  lemma {:induction false} DoubledGrows(nb0: nat, a: nat, b: nat)
    requires a <= b
    ensures nb0 <= NoelKdfRef.Doubled(nb0, a) <= NoelKdfRef.Doubled(nb0, b)
    ensures nb0 == 0 ==> NoelKdfRef.Doubled(nb0, b) == 0
  {
    if b > 0 {
      if a == b {
        DoubledGrows(nb0, a - 1, b - 1);
      } else {
        DoubledGrows(nb0, a, b - 1);
      }
    }
  }

  /** Runs of more blocks end later. */
  lemma {:induction false} RunStartBlocksMonotone(t: nat, nb: nat, nb': nat, bl: nat)
    requires nb <= nb'
    ensures RunStart(t, nb, bl) <= RunStart(t, nb', bl)
  {
    if t > 0 {
      RunStartBlocksMonotone(t - 1, nb, nb', bl);
      SpanMonotone(nb, nb', bl);
    }
  }

  /** Levels 0 .. n - 1 all fit, level j with numBlocks doubled j times. */
  predicate LevelsFit(par: nat, bl: nat, nb0: nat, n: nat, memLen: nat)
  {
    n == 0 || (LevelFits(par, bl, NoelKdfRef.Doubled(nb0, n - 1), memLen) && LevelsFit(par, bl, nb0, n - 1, memLen))
  }

  /** When the last of n levels fits, all of them do. */
  lemma {:induction false} LastLevelFitsAll(par: nat, bl: nat, nb0: nat, n: nat, memLen: nat)
    requires n >= 1 && LevelFits(par, bl, NoelKdfRef.Doubled(nb0, n - 1), memLen)
    ensures LevelsFit(par, bl, nb0, n, memLen)
  {
    if n >= 2 {
      LevelFitsBelow(par, bl, nb0, n - 2, n - 1, memLen);
      LastLevelFitsAll(par, bl, nb0, n - 1, memLen);
    }
  }

  /**
   * One repetition: the threads fill their runs (hashMem) from the key the
   * variant names, then xorIntoHash folds par * 100 words of memory into
   * the output.
   */
  function Repetition(st: State, h: KeyedHash, v: Variant, par: nat, bl: nat, nb: nat): (r: State)
    requires LevelFits(par, bl, nb, |st.mem|) && 1 <= |st.out|
    ensures |r.mem| == |st.mem| && |r.out| == |st.out|
  {
    LevelFitsLinear(par, bl, nb, |st.mem|);
    var mem := HashMem(st.mem, h, ThreadSecret(v, st.out), par, bl, nb);
    State(XorRun(st.out, mem, RunStart(par, nb, bl), XorSteps(par), v.Corrected?).hash, mem)
  }

  /**
   * The state after the levels before level i and the first j repetitions
   * of level i. LevelRun, Repeated and Levels unfold one another one step
   * at a time.
   */
  function LevelRun(st: State, h: KeyedHash, v: Variant, par: nat, bl: nat, nb0: nat, reps: nat, i: nat, j: nat)
    : (r: State)
    requires LevelsFit(par, bl, nb0, i + 1, |st.mem|) && 1 <= |st.out|
    ensures |r.mem| == |st.mem| && |r.out| == |st.out|
    decreases i, j, 1
  {
    if j == 0 then Levels(st, h, v, par, bl, nb0, reps, i) else Repeated(st, h, v, par, bl, nb0, reps, i, j - 1)
  }

  /** Repetition j of level i, on what the repetitions and levels before it left. */
  function Repeated(st: State, h: KeyedHash, v: Variant, par: nat, bl: nat, nb0: nat, reps: nat, i: nat, j: nat)
    : (r: State)
    requires LevelsFit(par, bl, nb0, i + 1, |st.mem|) && 1 <= |st.out|
    ensures |r.mem| == |st.mem| && |r.out| == |st.out|
    decreases i, j, 2
  {
    Repetition(LevelRun(st, h, v, par, bl, nb0, reps, i, j), h, v, par, bl, NoelKdfRef.Doubled(nb0, i))
  }

  /** The first n levels (t_cost + 1 in all), numBlocks doubling from one level to the next. */
  function Levels(st: State, h: KeyedHash, v: Variant, par: nat, bl: nat, nb0: nat, reps: nat, n: nat): (r: State)
    requires LevelsFit(par, bl, nb0, n, |st.mem|) && 1 <= |st.out|
    ensures |r.mem| == |st.mem| && |r.out| == |st.out|
    decreases n, 0, 0
  {
    if n == 0 then st else LevelRun(st, h, v, par, bl, nb0, reps, n - 1, reps)
  }

  // ---------------------------------------------------------------------
  // What the thread keys give the memory
  // ---------------------------------------------------------------------

  /** Block i >= 1 of the run at start leaves every word of block 0 and outside the run alone. */
  lemma {:induction false} MixBlockKeepsWord(s: Mixed, start: nat, bl: nat, nb: nat, i: nat, src: nat, k: nat)
    requires src < i < nb && start + Span(nb, bl) <= |s.mem| && k < |s.mem|
    requires k < start + bl || start + Span(nb, bl) <= k
    ensures MixBlock(s, start, bl, nb, i, src).mem[k] == s.mem[k]
  {
    SpanBlocks(bl, nb, i, src);
    var to, from := start + Span(i, bl), start + Span(src, bl);
    WriteWordsPoint(s.mem, to, Pass(s.value, s.mem[to - bl .. to], s.mem[from .. from + bl]), k);
  }

  /** The second half of a run leaves every word of block 0 and outside the run alone. */
  lemma {:induction false} SecondHalfKeepsWord(s: Mixed, start: nat, bl: nat, nb: nat, mid: nat, i: nat, k: nat)
    requires 1 <= mid <= i <= nb && start + Span(nb, bl) <= |s.mem| && k < |s.mem|
    requires k < start + bl || start + Span(nb, bl) <= k
    ensures SecondHalf(s, start, bl, nb, mid, i).mem[k] == s.mem[k]
    decreases i
  {
    if i > mid {
      SecondHalfKeepsWord(s, start, bl, nb, mid, i - 1, k);
      var before := SecondHalf(s, start, bl, nb, mid, i - 1);
      MixBlockKeepsWord(before, start, bl, nb, i - 1, SourceBlock(before.value, i - 1), k);
    }
  }

  /** The first half of a run leaves every word of block 0 and outside the run alone. */
  lemma {:induction false} FirstHalfKeepsWord(s: Walk, start: nat, bl: nat, nb: nat, i: nat, k: nat)
    requires 1 <= i <= nb && start + Span(nb, bl) <= |s.mixed.mem| && k < |s.mixed.mem|
    requires k < start + bl || start + Span(nb, bl) <= k
    ensures FirstHalf(s, start, bl, nb, i).mixed.mem[k] == s.mixed.mem[k]
  {
    if i > 1 {
      FirstHalfKeepsWord(s, start, bl, nb, i - 1, k);
      var before := FirstHalf(s, start, bl, nb, i - 1);
      var z, w := Mwc(36969, before.z), Mwc(18000, before.w);
      MixBlockKeepsWord(before.mixed, start, bl, nb, i - 1, SourceBlock(RandWord(z, w), i - 1), k);
    }
  }

  /**
   * Thread t up to the meeting point, word by word outside blocks 1 and up
   * of its run: block 0 holds its thread key, the rest of memory is as it
   * was.
   */
  lemma ThreadFirstHalfWord(mem: seq<word>, h: KeyedHash, key: seq<byte>, t: word, bl: nat, nb: nat, k: nat)
    requires nb >= 1 && RunStart(t, nb, bl) + Span(nb, bl) <= |mem| && k < |mem|
    requires k < RunStart(t, nb, bl) + bl || RunStart(t, nb, bl) + Span(nb, bl) <= k
    ensures var start := RunStart(t, nb, bl);
      ThreadFirstHalf(mem, h, key, t, bl, nb).mem[k]
      == if start <= k < start + bl then ThreadKey(h, key, t, bl)[k - start] else mem[k]
  {
    var start := RunStart(t, nb, bl);
    NextRun(t, nb, bl);
    var tk := ThreadKey(h, key, t, bl);
    var keyed := WriteWords(mem, start, tk);
    WriteWordsPoint(mem, start, tk, k);
    FirstHalfKeepsWord(Walk(Mixed(keyed, 1), 1, 1), start, bl, nb, Meet(nb), k);
  }

  /** After the first halves of threads 0 .. t - 1, word k of block 0 of run u < t is word k of u's thread key. */
  lemma {:induction false} FirstHalvesKeyWord(mem: seq<word>, h: KeyedHash, keys: nat -> seq<byte>, bl: nat, nb: nat, t: nat,
                                              u: nat, k: nat)
    requires nb >= 1 && t <= TWO32 && RunStart(t, nb, bl) <= |mem| && u < t
    requires RunStart(u, nb, bl) <= k < RunStart(u, nb, bl) + bl
    ensures k < |mem| && FirstHalves(mem, h, keys, bl, nb, t).mem[k] == ThreadKey(h, keys(u), u, bl)[k - RunStart(u, nb, bl)]
  {
    var p := t - 1;
    KeyInRun(u, p, nb, bl);
    NextRun(p, nb, bl);
    var before := FirstHalves(mem, h, keys, bl, nb, p);
    ThreadFirstHalfWord(before.mem, h, keys(p), p, bl, nb, k);
    if u < p {
      RunStartMonotone(p, t, nb, bl);
      FirstHalvesKeyWord(mem, h, keys, bl, nb, p, u, k);
    }
  }

  /** After the first halves of threads 0 .. t - 1, block 0 of the run of every u < t holds u's thread key. */
  lemma {:induction false} FirstHalvesKeys(mem: seq<word>, h: KeyedHash, keys: nat -> seq<byte>, bl: nat, nb: nat, t: nat, u: nat)
    requires nb >= 1 && t <= TWO32 && RunStart(t, nb, bl) <= |mem| && u < t
    ensures RunStart(u, nb, bl) + bl <= RunStart(t, nb, bl)
    ensures FirstHalves(mem, h, keys, bl, nb, t).mem[RunStart(u, nb, bl) .. RunStart(u, nb, bl) + bl]
         == ThreadKey(h, keys(u), u, bl)
  {
    var lo := RunStart(u, nb, bl);
    KeyInRun(u, t - 1, nb, bl);
    NextRun(t - 1, nb, bl);
    var r := FirstHalves(mem, h, keys, bl, nb, t).mem;
    var tk := ThreadKey(h, keys(u), u, bl);
    forall j | 0 <= j < bl
      ensures r[lo + j] == tk[j]
    {
      FirstHalvesKeyWord(mem, h, keys, bl, nb, t, u, lo + j);
    }
    SliceIs(r, lo, tk);
  }

  /** Block 0 of run u is inside the runs of threads 0 .. w, and before the run of w when u < w. */
  lemma KeyInRun(u: nat, w: nat, nb: nat, bl: nat)
    requires u <= w && nb >= 1
    ensures RunStart(u, nb, bl) + bl <= RunStart(w, nb, bl) + Span(nb, bl)
    ensures u < w ==> RunStart(u, nb, bl) + bl <= RunStart(w, nb, bl)
  {
    NextRun(u, nb, bl);
    NextRun(w, nb, bl);
    RunStartMonotone(u + 1, w + 1, nb, bl);
    if u < w {
      RunStartMonotone(u + 1, w, nb, bl);
    }
  }

  /** The second halves leave every word of block 0 of run u alone. */
  lemma {:induction false} SecondHalvesKeepWord(mem: seq<word>, values: seq<word>, combined: word, bl: nat, nb: nat,
                                                t: nat, u: nat, k: nat)
    requires nb >= 1 && t <= |values| && RunStart(t, nb, bl) <= |mem|
    requires RunStart(u, nb, bl) <= k < RunStart(u, nb, bl) + bl && k < |mem|
    ensures SecondHalves(mem, values, combined, bl, nb, t)[k] == mem[k]
  {
    if t > 0 {
      var p := t - 1;
      SecondHalvesNext(mem, values, combined, bl, nb, p, t);
      SecondHalvesKeepWord(mem, values, combined, bl, nb, p, u, k);
      KeyOutsideRun(u, p, nb, bl);
      var before := SecondHalves(mem, values, combined, bl, nb, p);
      SecondHalfKeepsWord(Mixed(before, Xor32(values[p], combined)), RunStart(p, nb, bl), bl, nb, Meet(nb), nb, k);
    }
  }

  /** The second halves leave block 0 of run u alone. */
  lemma SecondHalvesKeepKey(mem: seq<word>, values: seq<word>, combined: word, bl: nat, nb: nat, t: nat, u: nat)
    requires nb >= 1 && t <= |values| && RunStart(t, nb, bl) <= |mem| && RunStart(u, nb, bl) + bl <= |mem|
    ensures var lo := RunStart(u, nb, bl);
      SecondHalves(mem, values, combined, bl, nb, t)[lo .. lo + bl] == mem[lo .. lo + bl]
  {
    var lo := RunStart(u, nb, bl);
    var after := SecondHalves(mem, values, combined, bl, nb, t);
    forall k | lo <= k < lo + bl
      ensures after[k] == mem[k]
    {
      SecondHalvesKeepWord(mem, values, combined, bl, nb, t, u, k);
    }
    SameSlice(after, mem, lo, lo + bl);
  }

  /** Block 0 of run u lies inside block 0 of run p or outside run p altogether. */
  lemma KeyOutsideRun(u: nat, p: nat, nb: nat, bl: nat)
    requires nb >= 1
    ensures RunStart(u, nb, bl) + bl <= RunStart(p, nb, bl) + bl || RunStart(p, nb, bl) + Span(nb, bl) <= RunStart(u, nb, bl)
  {
    if u < p {
      KeyInRun(u, p, nb, bl);
    } else if u > p {
      NextRun(p, nb, bl);
      RunStartMonotone(p + 1, u, nb, bl);
    }
  }

  /**
   * Corrected, the threads key on the output: after a repetition, block 0
   * of the run of every thread u holds H(output, u) as words, so the whole
   * memory the repetition fills depends on the output and through it on
   * the password.
   */
  lemma CorrectedThreadKeys(st: State, h: KeyedHash, par: nat, bl: nat, nb: nat, u: nat)
    requires LevelFits(par, bl, nb, |st.mem|) && 1 <= |st.out| && u < par
    ensures RunStart(u, nb, bl) + bl <= |st.mem| && u < TWO32
    ensures var lo := RunStart(u, nb, bl);
      Repetition(st, h, Corrected, par, bl, nb).mem[lo .. lo + bl] == ThreadKey(h, st.out, u, bl)
  {
    LevelFitsLinear(par, bl, nb, |st.mem|);
    var keys := ThreadSecret(Corrected, st.out);
    var half := FirstHalves(st.mem, h, keys, bl, nb, par);
    FirstHalvesKeys(st.mem, h, keys, bl, nb, par, u);
    SecondHalvesKeepKey(half.mem, half.values, WrapSum(half.values), bl, nb, par, u);
  }

  /** r1 and r2 share their memory, and their outputs differ exactly as those of st1 and st2 do. */
  predicate KeepsDifference(st1: State, st2: State, r1: State, r2: State)
  {
    |st1.out| == |st2.out| && |r1.out| == |r2.out| && r1.mem == r2.mem &&
    XorBytes(r1.out, r2.out) == XorBytes(st1.out, st2.out)
  }

  /**
   * As written, a repetition fills memory without looking at the output,
   * and xorIntoHash only XORs memory words into it: started from the same
   * memory, two outputs end with the same memory and differ exactly as
   * they did before.
   */
  lemma AsWrittenRepetitionKeepsDifference(st1: State, st2: State, h: KeyedHash, stale: nat -> seq<byte>, par: nat, bl: nat,
                                           nb: nat)
    requires st1.mem == st2.mem && 1 <= |st1.out| == |st2.out| && LevelFits(par, bl, nb, |st1.mem|)
    ensures KeepsDifference(st1, st2, Repetition(st1, h, AsWritten(stale), par, bl, nb),
                            Repetition(st2, h, AsWritten(stale), par, bl, nb))
  {
    LevelFitsLinear(par, bl, nb, |st1.mem|);
    var mem := HashMem(st1.mem, h, stale, par, bl, nb);
    XorRunKeepsDifference(st1.out, st2.out, mem, RunStart(par, nb, bl), XorSteps(par), false);
  }

  /**
   * As written, all the memory-hard work adds to the output a mask that
   * does not depend on it: from the same memory, two outputs differ after
   * every level exactly as they did before the first.
   */
  lemma {:induction false} AsWrittenLevelsKeepDifference(st1: State, st2: State, h: KeyedHash, stale: nat -> seq<byte>,
                                                         par: nat, bl: nat, nb0: nat, reps: nat, n: nat)
    requires st1.mem == st2.mem && 1 <= |st1.out| == |st2.out| && LevelsFit(par, bl, nb0, n, |st1.mem|)
    ensures KeepsDifference(st1, st2, Levels(st1, h, AsWritten(stale), par, bl, nb0, reps, n),
                            Levels(st2, h, AsWritten(stale), par, bl, nb0, reps, n))
    decreases n, 0
  {
    if n > 0 {
      AsWrittenLevelRunKeepsDifference(st1, st2, h, stale, par, bl, nb0, reps, n - 1, reps);
    }
  }

  /** The same up to repetition j of level i. */
  lemma {:induction false} AsWrittenLevelRunKeepsDifference(st1: State, st2: State, h: KeyedHash, stale: nat -> seq<byte>,
                                                            par: nat, bl: nat, nb0: nat, reps: nat, i: nat, j: nat)
    requires st1.mem == st2.mem && 1 <= |st1.out| == |st2.out| && LevelsFit(par, bl, nb0, i + 1, |st1.mem|)
    ensures KeepsDifference(st1, st2, LevelRun(st1, h, AsWritten(stale), par, bl, nb0, reps, i, j),
                            LevelRun(st2, h, AsWritten(stale), par, bl, nb0, reps, i, j))
    decreases i, j + 1
  {
    if j == 0 {
      AsWrittenLevelsKeepDifference(st1, st2, h, stale, par, bl, nb0, reps, i);
    } else {
      AsWrittenLevelRunKeepsDifference(st1, st2, h, stale, par, bl, nb0, reps, i, j - 1);
      var r1 := LevelRun(st1, h, AsWritten(stale), par, bl, nb0, reps, i, j - 1);
      var r2 := LevelRun(st2, h, AsWritten(stale), par, bl, nb0, reps, i, j - 1);
      AsWrittenRepetitionKeepsDifference(r1, r2, h, stale, par, bl, NoelKdfRef.Doubled(nb0, i));
      assert Repeated(st1, h, AsWritten(stale), par, bl, nb0, reps, i, j - 1)
          == Repetition(r1, h, AsWritten(stale), par, bl, NoelKdfRef.Doubled(nb0, i));
      assert Repeated(st2, h, AsWritten(stale), par, bl, nb0, reps, i, j - 1)
          == Repetition(r2, h, AsWritten(stale), par, bl, NoelKdfRef.Doubled(nb0, i));
    }
  }

  // ---------------------------------------------------------------------
  // The levels, NoelKDF and PHS
  // ---------------------------------------------------------------------

  /** Levels 0 .. m - 1 fit when levels 0 .. n - 1 do, m <= n. */
  lemma {:induction false} LevelsFitPrefix(par: nat, bl: nat, nb0: nat, m: nat, n: nat, memLen: nat)
    requires m <= n && LevelsFit(par, bl, nb0, n, memLen)
    ensures LevelsFit(par, bl, nb0, m, memLen)
  {
    if m < n {
      LevelsFitPrefix(par, bl, nb0, m, n - 1, memLen);
    }
  }

  /**
   * Repetition j of level i: the threads in two phases around their
   * meeting, then xorIntoHash.
   */
  method RunRepetition(h: KeyedHash, v: Variant, out: array<byte>, mem: array<word>, par: word, bl: word, nb0: nat,
                       nb: nat, reps: word, ghost st0: State, ghost i: nat, ghost j: nat)
    requires 1 <= out.Length && |st0.out| == out.Length && |st0.mem| == mem.Length
    requires LevelsFit(par, bl, nb0, i + 1, mem.Length) && nb == NoelKdfRef.Doubled(nb0, i)
    requires State(out[..], mem[..]) == LevelRun(st0, h, v, par, bl, nb0, reps, i, j)
    modifies out, mem
    ensures State(out[..], mem[..]) == LevelRun(st0, h, v, par, bl, nb0, reps, i, j + 1)
  {
    FitsInWords(par, bl, nb, mem.Length);
    RunsEnd(par, bl, nb);
    var values := FirstPhase(mem, h, ThreadSecret(v, out[..]), par, bl, nb);
    SecondPhase(mem, values, WrapSum(values), par, bl, nb);
    XorIntoHash(par, mem, out, bl, nb, v.Corrected?);
    RepeatedIsRepetition(st0, h, v, par, bl, nb0, reps, i, j);
  }

  /** Repetition j of level i is one Repetition on what came before it. */
  lemma RepeatedIsRepetition(st0: State, h: KeyedHash, v: Variant, par: nat, bl: nat, nb0: nat, reps: nat, i: nat,
                             j: nat)
    requires LevelsFit(par, bl, nb0, i + 1, |st0.mem|) && 1 <= |st0.out|
    ensures LevelRun(st0, h, v, par, bl, nb0, reps, i, j + 1)
         == Repetition(LevelRun(st0, h, v, par, bl, nb0, reps, i, j), h, v, par, bl, NoelKdfRef.Doubled(nb0, i))
  {
    assert LevelRun(st0, h, v, par, bl, nb0, reps, i, j + 1) == Repeated(st0, h, v, par, bl, nb0, reps, i, j);
  }

  /** Level i: its repeat_count repetitions on what levels 0 .. i - 1 left. */
  method RunLevel(h: KeyedHash, v: Variant, out: array<byte>, mem: array<word>, par: word, bl: word, nb0: nat,
                  nb: nat, reps: word, ghost st0: State, ghost i: nat)
    requires 1 <= out.Length && |st0.out| == out.Length && |st0.mem| == mem.Length
    requires LevelsFit(par, bl, nb0, i + 1, mem.Length) && nb == NoelKdfRef.Doubled(nb0, i)
    requires State(out[..], mem[..]) == Levels(st0, h, v, par, bl, nb0, reps, i)
    modifies out, mem
    ensures State(out[..], mem[..]) == Levels(st0, h, v, par, bl, nb0, reps, i + 1)
  {
    var j: nat := 0;
    while j < reps
      invariant j <= reps
      invariant State(out[..], mem[..]) == LevelRun(st0, h, v, par, bl, nb0, reps, i, j)
    {
      RunRepetition(h, v, out, mem, par, bl, nb0, nb, reps, st0, i, j);
      j := j + 1;
    }
  }

  /** The level loop: n = t_cost + 1 levels, numBlocks doubling after each. */
  method RunLevels(h: KeyedHash, v: Variant, out: array<byte>, mem: array<word>, par: word, bl: word, nb0: nat,
                   reps: word, n: nat)
    requires 1 <= out.Length && LevelsFit(par, bl, nb0, n, mem.Length)
    modifies out, mem
    ensures State(out[..], mem[..]) == Levels(State(old(out[..]), old(mem[..])), h, v, par, bl, nb0, reps, n)
  {
    ghost var st0 := State(out[..], mem[..]);
    var nb: nat := nb0;
    var i: nat := 0;
    while i < n
      invariant i <= n && nb == NoelKdfRef.Doubled(nb0, i) && LevelsFit(par, bl, nb0, i, mem.Length)
      invariant State(out[..], mem[..]) == Levels(st0, h, v, par, bl, nb0, reps, i)
    {
      LevelsFitPrefix(par, bl, nb0, i + 1, n, mem.Length);
      RunLevel(h, v, out, mem, par, bl, nb0, nb, reps, st0, i);
      nb := nb * 2;
      i := i + 1;
    }
  }

  /**
   * numBlocks for the first level: m_cost MiB over the bytes of one block
   * per thread, plus one, with parallelism * blockLength in uint32 and the
   * quotient truncated to uint32.
   */
  function FirstBlocks(mCost: word, par: word, bl: word): (nb: word)
    requires par * bl % TWO32 != 0
  {
    (mCost * 0x10_0000 / (par * bl % TWO32 * 4) + 1) % TWO32
  }

  /** When nothing wraps, numBlocks - 1 blocks per thread fall short of m_cost MiB and numBlocks do not. */
  lemma FirstBlocksCover(mCost: word, par: word, bl: word)
    requires par * bl % TWO32 != 0
    ensures var nb := FirstBlocks(mCost, par, bl);
      par * bl < TWO32 && mCost * 0x10_0000 / (4 * par * bl) + 1 < TWO32 ==>
      (nb - 1) * (4 * par * bl) <= mCost * 0x10_0000 < nb * (4 * par * bl)
  {
    var p := par * bl;
    if p < TWO32 && mCost * 0x10_0000 / (4 * par * bl) + 1 < TWO32 {
      MulAssoc(4, par, bl);
      CoverOfQuotient(mCost * 0x10_0000, 4 * par * bl, p % TWO32 * 4);
    }
  }

  /** The quotient by e == d, plus one, held in a word: that many d's pass a and one fewer do not. */
  lemma CoverOfQuotient(a: nat, d: nat, e: nat)
    requires 0 < d == e && a / d + 1 < TWO32
    ensures var nb := (a / e + 1) % TWO32; (nb - 1) * d <= a < nb * d
  {
    var q := a / d;
    assert a / e == q;
    assert (q + 1) % TWO32 == q + 1;
    QuotientBounds(a, d);
  }

  /** A quotient rounded down: the divisor times it is at most the dividend, times one more is above it. */
  lemma QuotientBounds(a: nat, d: nat)
    requires d > 0
    ensures (a / d) * d <= a < (a / d + 1) * d
  {
    var q, r := a / d, a % d;
    assert a == q * d + r;
    assert (q + 1) * d == q * d + d;
  }

  /**
   * memLength: numBlocks * blockLength * parallelism shifted left by t_cost
   * in uint64. When the last level's runs stay below 2^32 words it is
   * exactly their length.
   */
  function MemLength(nb: word, bl: word, par: word, tCost: word): (len: nat)
    ensures len < TWO64
    ensures RunStart(par, NoelKdfRef.Doubled(nb, tCost), bl) < TWO32 ==>
      len == RunStart(par, NoelKdfRef.Doubled(nb, tCost), bl)
  {
    LastRunsEnd(nb, bl, par, tCost);
    nb * bl * par * Pow2(tCost) % TWO64
  }

  /** The last level's runs end at numBlocks * blockLength * parallelism * 2^t_cost. */
  lemma LastRunsEnd(nb: nat, bl: nat, par: nat, tCost: nat)
    ensures RunStart(par, NoelKdfRef.Doubled(nb, tCost), bl) == nb * bl * par * Pow2(tCost)
  {
    var x := Pow2(tCost);
    NoelKdfRef.DoubledIsProduct(nb, tCost);
    RunsEnd(par, bl, nb * x);
    MulAssoc(par * bl, nb, x);
    MulAssoc(nb, bl, par);
    MulAssoc(par, bl, nb);
    assert par * bl * nb == nb * bl * par;
  }

  /**
   * The parameters NoelKDF is modelled for: a block of at least one word,
   * at least one thread, and a last level whose parallelism * numBlocks *
   * blockLength words stay below 2^32, so that neither the divisor of
   * numBlocks nor memLength in xorIntoHash wraps.
   */
  predicate Sized(tCost: word, mCost: word, par: word, blockSize: word)
  {
    var bl := blockSize / 4;
    4 <= blockSize && 1 <= par && par * bl < TWO32 &&
    LevelFits(par, bl, NoelKdfRef.Doubled(FirstBlocks(mCost, par, bl), tCost),
              MemLength(FirstBlocks(mCost, par, bl), bl, par, tCost))
  }

  /**
   * The salt the password is hashed with: H(data, salt, saltlen) when there
   * is data, else the salt itself; a NULL data pointer is the empty
   * sequence.
   */
  function DerivedSalt(h: KeyedHash, salt: seq<byte>, data: seq<byte>): (s: seq<byte>)
    ensures |s| == |salt|
    ensures |data| == 0 ==> s == salt
  {
    if |data| != 0 then h(data, salt, |salt|) else salt
  }

  /**
   * What NoelKDF leaves in out: from the password hashed under the derived
   * salt and memory of memLength words that starts as junk, t_cost + 1
   * levels of repeat_count repetitions, thread keys and xorIntoHash as the
   * variant says.
   */
  function Hash(h: KeyedHash, v: Variant, password: seq<byte>, salt: seq<byte>, data: seq<byte>, outLen: nat,
                tCost: word, mCost: word, reps: word, par: word, blockSize: word, junk: nat -> word): (r: seq<byte>)
    requires 1 <= outLen && Sized(tCost, mCost, par, blockSize)
    ensures |r| == outLen
  {
    var bl := blockSize / 4;
    var nb := FirstBlocks(mCost, par, bl);
    var len := MemLength(nb, bl, par, tCost);
    LastLevelFitsAll(par, bl, nb, tCost + 1, len);
    var st := State(h(password, DerivedSalt(h, salt, data), outLen), seq(len, k requires 0 <= k => junk(k)));
    Levels(st, h, v, par, bl, nb, reps, tCost + 1).out
  }

  /**
   * As written, NoelKDF is its first keyed hash XORed with a mask that does
   * not depend on the password: two passwords' outputs differ exactly as
   * their first keyed hashes do.
   */
  lemma {:induction false} AsWrittenHashIsMasked(h: KeyedHash, stale: nat -> seq<byte>, p1: seq<byte>, p2: seq<byte>, salt: seq<byte>,
                              data: seq<byte>, outLen: nat, tCost: word, mCost: word, reps: word, par: word,
                              blockSize: word, junk: nat -> word)
    requires 1 <= outLen && Sized(tCost, mCost, par, blockSize)
    ensures XorBytes(Hash(h, AsWritten(stale), p1, salt, data, outLen, tCost, mCost, reps, par, blockSize, junk),
                     Hash(h, AsWritten(stale), p2, salt, data, outLen, tCost, mCost, reps, par, blockSize, junk))
         == XorBytes(h(p1, DerivedSalt(h, salt, data), outLen), h(p2, DerivedSalt(h, salt, data), outLen))
  {
    var bl := blockSize / 4;
    var nb := FirstBlocks(mCost, par, bl);
    var len := MemLength(nb, bl, par, tCost);
    LastLevelFitsAll(par, bl, nb, tCost + 1, len);
    var mem := seq(len, k requires 0 <= k => junk(k));
    var ds := DerivedSalt(h, salt, data);
    var st1, st2 := State(h(p1, ds, outLen), mem), State(h(p2, ds, outLen), mem);
    var end1 := Levels(st1, h, AsWritten(stale), par, bl, nb, reps, tCost + 1);
    var end2 := Levels(st2, h, AsWritten(stale), par, bl, nb, reps, tCost + 1);
    assert KeepsDifference(st1, st2, end1, end2) by {
      AsWrittenLevelsKeepDifference(st1, st2, h, stale, par, bl, nb, reps, tCost + 1);
    }
    assert Hash(h, AsWritten(stale), p1, salt, data, outLen, tCost, mCost, reps, par, blockSize, junk) == end1.out;
    assert Hash(h, AsWritten(stale), p2, salt, data, outLen, tCost, mCost, reps, par, blockSize, junk) == end2.out;
  }

  /** memset(a, 0, length). */
  method Clear(a: array<byte>)
    modifies a
    ensures a[..] == seq(a.Length, _ => 0 as byte)
  {
    forall k | 0 <= k < a.Length {
      a[k] := 0;
    }
  }

  /**
   * NoelKDF: size and allocate the memory, hash data into the salt and the
   * password into out, clear the password and data when asked, then run
   * the levels. allocOk says whether the three mallocs succeed (0 is
   * returned before anything is written otherwise), spawnOk whether
   * pthread_create does (1 is returned at the first launch otherwise), junk
   * is what malloc leaves in memory, and v is AsWritten(t => the bytes
   * behind thread t's context hash pointer) for the code as written.
   */
  method NoelKdf(h: KeyedHash, v: Variant, out: array<byte>, input: array<byte>, salt: seq<byte>, data: array<byte>,
                 tCost: word, mCost: word, repeatCount: word, parallelism: word, blockSize: word, clearIn: bool,
                 allocOk: bool, spawnOk: bool, junk: nat -> word)
    returns (status: int)
    requires out != input && out != data
    requires 1 <= out.Length && Sized(tCost, mCost, parallelism, blockSize)
    modifies out, input, data
    ensures status == (if allocOk && !spawnOk && 1 <= repeatCount then 1 else 0)
    ensures !allocOk ==> out[..] == old(out[..]) && input[..] == old(input[..]) && data[..] == old(data[..])
    ensures allocOk ==> input[..] == (if clearIn then seq(input.Length, _ => 0 as byte) else old(input[..]))
    ensures allocOk ==> data[..] == (if clearIn then seq(data.Length, _ => 0 as byte) else old(data[..]))
    ensures allocOk && status == 1 ==> out[..] == h(old(input[..]), DerivedSalt(h, salt, old(data[..])), out.Length)
    ensures allocOk && status == 0 ==>
      out[..] == Hash(h, v, old(input[..]), salt, old(data[..]), out.Length, tCost, mCost, repeatCount, parallelism,
                      blockSize, junk)
  {
    var bl := blockSize / 4;
    var nb := FirstBlocks(mCost, parallelism, bl);
    var len := MemLength(nb, bl, parallelism, tCost);
    if !allocOk {
      return 0;
    }
    var mem := new word[len](k requires 0 <= k => junk(k));
    ghost var password, secret := input[..], data[..];
    HashInto(h, out, input[..], DerivedSalt(h, salt, data[..]));
    ghost var st := State(out[..], mem[..]);
    assert st == State(h(password, DerivedSalt(h, salt, secret), out.Length), seq(len, k requires 0 <= k => junk(k)));
    if clearIn {
      Clear(input);
      Clear(data);
    }
    if !spawnOk && 1 <= repeatCount {
      return 1;
    }
    LastLevelFitsAll(parallelism, bl, nb, tCost + 1, len);
    RunLevels(h, v, out, mem, parallelism, bl, nb, repeatCount, tCost + 1);
    assert out[..] == Hash(h, v, password, salt, secret, out.Length, tCost, mCost, repeatCount, parallelism,
                           blockSize, junk);
    return 0;
  }

  /**
   * PHS: NoelKDF without data and without clearing the password, with
   * 2048 repetitions, two threads and 4096-byte blocks.
   */
  method Phs(h: KeyedHash, v: Variant, out: array<byte>, input: array<byte>, salt: seq<byte>, tCost: word,
             mCost: word, allocOk: bool, spawnOk: bool, junk: nat -> word)
    returns (status: int)
    requires out != input && 1 <= out.Length && Sized(tCost, mCost, 2, 4096)
    modifies out, input
    ensures status == (if allocOk && !spawnOk then 1 else 0)
    ensures input[..] == old(input[..])
    ensures !allocOk ==> out[..] == old(out[..])
    ensures allocOk && !spawnOk ==> out[..] == h(input[..], salt, out.Length)
    ensures allocOk && spawnOk ==>
      out[..] == Hash(h, v, input[..], salt, [], out.Length, tCost, mCost, 2048, 2, 4096, junk)
  {
    var none := new byte[0];
    status := NoelKdf(h, v, out, input, salt, none, tCost, mCost, 2048, 2, 4096, false, allocOk, spawnOk, junk);
  }
}
