/**
 * The multiply-add block mixer of NoelKDF (hashBlocks of noelkdf-ref.c):
 * every word written is
 * value = value * (prev | 3) + from (mod 2^32), where prev and from are the
 * matching words of the previous block and of the source block.
 */
module Mixing {
  import opened Words

  /** C's `x | 3` on a uint32: the two lowest bits set, the others kept. */
  function Or3(x: word): (r: word)
    ensures r % 4 == 3 && r / 4 == x / 4
  {
    x - x % 4 + 3
  }

  /** One word of mixing, value * (prev | 3) + from in 32-bit wrapping arithmetic. */
  function Step(value: word, prev: word, from: word): word
  {
    (value * Or3(prev) + from) % TWO32
  }

  /** The words one pass writes, starting from the running value `value`. */
  function Pass(value: word, prev: seq<word>, from: seq<word>): (out: seq<word>)
    requires |prev| == |from|
    ensures |out| == |prev|
    decreases |prev|
  {
    if |prev| == 0 then []
    else
      var v := Step(value, prev[0], from[0]);
      [v] + Pass(v, prev[1..], from[1..])
  }

  /** The running value at the end of one pass. */
  function Final(value: word, prev: seq<word>, from: seq<word>): word
    requires |prev| == |from|
    decreases |prev|
  {
    if |prev| == 0 then value else Final(Step(value, prev[0], from[0]), prev[1..], from[1..])
  }

  /** The running value after r whole passes. */
  function Repeat(value: word, prev: seq<word>, from: seq<word>, r: nat): word
    requires |prev| == |from|
  {
    if r == 0 then value else Final(Repeat(value, prev, from, r - 1), prev, from)
  }

  /** The block left behind by r >= 1 passes: the words of the last one. */
  function MixedBlock(value: word, prev: seq<word>, from: seq<word>, r: nat): (out: seq<word>)
    requires |prev| == |from| && r >= 1
    ensures |out| == |prev|
  {
    Pass(Repeat(value, prev, from, r - 1), prev, from)
  }

  /**
   * Each word of a pass is the step from the word before it (from the
   * incoming value for word 0) with the matching prev and from words.
   */
  lemma {:induction false} PassRecurrence(value: word, prev: seq<word>, from: seq<word>, j: nat)
    requires j < |prev| == |from|
    ensures j == 0 ==> Pass(value, prev, from)[0] == Step(value, prev[0], from[0])
    ensures j > 0 ==> Pass(value, prev, from)[j] == Step(Pass(value, prev, from)[j - 1], prev[j], from[j])
    decreases j
  {
    if j > 1 {
      var v := Step(value, prev[0], from[0]);
      PassRecurrence(v, prev[1..], from[1..], j - 1);
    }
  }

  /** The running value at the end of a pass is the last word the pass wrote. */
  lemma {:induction false} FinalIsLastWord(value: word, prev: seq<word>, from: seq<word>)
    requires 1 <= |prev| == |from|
    ensures Final(value, prev, from) == Pass(value, prev, from)[|prev| - 1]
    decreases |prev|
  {
    if |prev| > 1 {
      FinalIsLastWord(Step(value, prev[0], from[0]), prev[1..], from[1..]);
    }
  }

  /** What hashBlocks returns is the last word of the block it leaves behind. */
  lemma ValueIsLastWord(value: word, prev: seq<word>, from: seq<word>, r: nat)
    requires 1 <= |prev| == |from| && r >= 1
    ensures Repeat(value, prev, from, r) == MixedBlock(value, prev, from, r)[|prev| - 1]
  {
    FinalIsLastWord(Repeat(value, prev, from, r - 1), prev, from);
  }

  /** Memory and running value after a pass or a call of hashBlocks. */
  datatype Mixed = Mixed(mem: seq<word>, value: word)

  /** One pass over the block at toAddr: the memory with the pass's words written there, and its final value. */
  function OnePass(m: seq<word>, value: word, blocklen: nat, fromAddr: nat, toAddr: nat): (r: Mixed)
    requires blocklen <= toAddr && toAddr + blocklen <= |m| && fromAddr + blocklen <= |m|
    ensures |r.mem| == |m|
  {
    var prev := m[toAddr - blocklen .. toAddr];
    var from := m[fromAddr .. fromAddr + blocklen];
    Mixed(WriteWords(m, toAddr, Pass(value, prev, from)), Final(value, prev, from))
  }

  /**
   * One word of a pass, on the memory as a sequence: while the first j words
   * of the pass are written, word j reads untouched prev and from words, its
   * step is word j of the pass, and writing it extends the written prefix.
   */
  lemma PassAdvance(m0: seq<word>, cur: seq<word>, toAddr: nat, fromAddr: nat, blocklen: nat,
                    value: word, out: seq<word>, result: word, j: nat)
    requires blocklen <= toAddr && toAddr + blocklen <= |m0| && fromAddr + blocklen <= |m0|
    requires fromAddr + blocklen <= toAddr || toAddr + blocklen <= fromAddr
    requires out == Pass(value, m0[toAddr - blocklen .. toAddr], m0[fromAddr .. fromAddr + blocklen])
    requires j < blocklen && cur == WriteWords(m0, toAddr, out[..j])
    requires result == if j == 0 then value else out[j - 1]
    ensures Step(result, cur[toAddr - blocklen + j], cur[fromAddr + j]) == out[j]
    ensures cur[toAddr + j := out[j]] == WriteWords(m0, toAddr, out[..j + 1])
  {
    var prev := m0[toAddr - blocklen .. toAddr];
    var from := m0[fromAddr .. fromAddr + blocklen];
    WriteWordsRead(m0, toAddr, out[..j], toAddr - blocklen, blocklen, j);
    WriteWordsRead(m0, toAddr, out[..j], fromAddr, blocklen, j);
    PassRecurrence(value, prev, from, j);
    WriteWordsExtend(m0, toAddr, out[..j], out[j]);
    PrefixExtend(out, j);
  }

  /** After the last word the whole pass is written, and result is its running value. */
  lemma PassEnds(m0: seq<word>, toAddr: nat, fromAddr: nat, blocklen: nat, value: word, out: seq<word>, result: word)
    requires blocklen <= toAddr && toAddr + blocklen <= |m0| && fromAddr + blocklen <= |m0|
    requires out == Pass(value, m0[toAddr - blocklen .. toAddr], m0[fromAddr .. fromAddr + blocklen])
    requires result == if blocklen == 0 then value else out[blocklen - 1]
    ensures Mixed(WriteWords(m0, toAddr, out[..blocklen]), result) == OnePass(m0, value, blocklen, fromAddr, toAddr)
  {
    PrefixAll(out);
    if blocklen > 0 {
      FinalIsLastWord(value, m0[toAddr - blocklen .. toAddr], m0[fromAddr .. fromAddr + blocklen]);
    }
  }

  /**
   * The inner loop of hashBlocks: one pass over the block at toAddr. Only
   * those blocklen words change, and they become Pass of the incoming value
   * over the previous block and the source block; the result is the running
   * value at the end.
   */
  method MixPass(mem: array<word>, value: word, blocklen: nat, fromAddr: nat, toAddr: nat)
    returns (result: word)
    requires blocklen <= toAddr && toAddr + blocklen <= mem.Length && fromAddr + blocklen <= mem.Length
    requires fromAddr + blocklen <= toAddr || toAddr + blocklen <= fromAddr
    modifies mem
    ensures Mixed(mem[..], result) == OnePass(old(mem[..]), value, blocklen, fromAddr, toAddr)
  {
    ghost var m0 := mem[..];
    ghost var out := Pass(value, m0[toAddr - blocklen .. toAddr], m0[fromAddr .. fromAddr + blocklen]);
    result := value;
    WriteWordsEmpty(m0, toAddr, out[..0]);
    var j := 0;
    while j < blocklen
      invariant 0 <= j <= blocklen
      invariant mem[..] == WriteWords(m0, toAddr, out[..j])
      invariant result == if j == 0 then value else out[j - 1]
    {
      PassAdvance(m0, mem[..], toAddr, fromAddr, blocklen, value, out, result, j);
      result := MixWord(mem, result, blocklen, fromAddr, toAddr, j);
      j := j + 1;
    }
    PassEnds(m0, toAddr, fromAddr, blocklen, value, out, result);
  }

  /**
   * One word of the inner loop: value * (prev | 3) + from with the words at
   * toAddr - blocklen + j and fromAddr + j, stored at toAddr + j.
   */
  method MixWord(mem: array<word>, value: word, blocklen: nat, fromAddr: nat, toAddr: nat, j: nat)
    returns (result: word)
    requires blocklen <= toAddr && toAddr + blocklen <= mem.Length && fromAddr + blocklen <= mem.Length
    requires j < blocklen
    modifies mem
    ensures result == Step(value, old(mem[..])[toAddr - blocklen + j], old(mem[..])[fromAddr + j])
    ensures mem[..] == old(mem[..])[toAddr + j := result]
  {
    var prevAddr := toAddr - blocklen;
    result := Step(value, mem[prevAddr + j], mem[fromAddr + j]);
    mem[toAddr + j] := result;
  }

  /** Memory after r passes: only the last pass's block is visible at toAddr. */
  function AfterPasses(mem: seq<word>, value: word, prev: seq<word>, from: seq<word>, toAddr: nat, r: nat): (m: seq<word>)
    requires |prev| == |from| && toAddr + |prev| <= |mem|
    ensures |m| == |mem|
  {
    if r == 0 then mem else WriteWords(mem, toAddr, MixedBlock(value, prev, from, r))
  }

  /** One more pass over the memory after r passes gives the memory after r + 1. */
  lemma AfterOneMore(mem: seq<word>, value: word, prev: seq<word>, from: seq<word>, toAddr: nat, r: nat)
    requires |prev| == |from| && toAddr + |prev| <= |mem|
    ensures WriteWords(AfterPasses(mem, value, prev, from, toAddr, r), toAddr, Pass(Repeat(value, prev, from, r), prev, from))
      == AfterPasses(mem, value, prev, from, toAddr, r + 1)
  {
    if r > 0 {
      WriteWordsTwice(mem, toAddr, MixedBlock(value, prev, from, r), MixedBlock(value, prev, from, r + 1));
    }
  }

  /** The passes leave every range that does not overlap the destination as it was. */
  lemma AfterPassesOutside(mem: seq<word>, value: word, prev: seq<word>, from: seq<word>, toAddr: nat, r: nat, lo: nat, hi: nat)
    requires |prev| == |from| && toAddr + |prev| <= |mem|
    requires lo <= hi <= |mem| && (hi <= toAddr || toAddr + |prev| <= lo)
    ensures AfterPasses(mem, value, prev, from, toAddr, r)[lo .. hi] == mem[lo .. hi]
  {
    if r > 0 {
      WriteWordsOutside(mem, toAddr, MixedBlock(value, prev, from, r), lo, hi);
    }
  }

  /**
   * What hashBlocks(value, mem, blocklen, fromAddr, toAddr, repetitions)
   * leaves behind: the memory after the passes and the final running value.
   */
  function MixBlocks(m: seq<word>, value: word, blocklen: nat, fromAddr: nat, toAddr: nat, repetitions: nat): (r: Mixed)
    requires blocklen <= toAddr && toAddr + blocklen <= |m| && fromAddr + blocklen <= |m|
    ensures |r.mem| == |m|
  {
    var prev := m[toAddr - blocklen .. toAddr];
    var from := m[fromAddr .. fromAddr + blocklen];
    Mixed(AfterPasses(m, value, prev, from, toAddr, repetitions), Repeat(value, prev, from, repetitions))
  }

  /**
   * One more pass, on the memory as a sequence: it reads the untouched prev
   * and from blocks, so it takes what r repetitions leave to what r + 1 leave.
   */
  lemma PassesAdvance(m0: seq<word>, before: seq<word>, after: seq<word>, toAddr: nat, fromAddr: nat,
                      blocklen: nat, value: word, r: nat, result: word, next: word)
    requires blocklen <= toAddr && toAddr + blocklen <= |m0| && fromAddr + blocklen <= |m0|
    requires fromAddr + blocklen <= toAddr || toAddr + blocklen <= fromAddr
    requires Mixed(before, result) == MixBlocks(m0, value, blocklen, fromAddr, toAddr, r)
    requires Mixed(after, next) == OnePass(before, result, blocklen, fromAddr, toAddr)
    ensures Mixed(after, next) == MixBlocks(m0, value, blocklen, fromAddr, toAddr, r + 1)
  {
    var prev := m0[toAddr - blocklen .. toAddr];
    var from := m0[fromAddr .. fromAddr + blocklen];
    assert before == AfterPasses(m0, value, prev, from, toAddr, r) && result == Repeat(value, prev, from, r);
    assert after == WriteWords(before, toAddr, Pass(result, prev, from)) && next == Final(result, prev, from) by {
      KeepsSources(m0, value, blocklen, fromAddr, toAddr, r);
    }
    AfterOneMore(m0, value, prev, from, toAddr, r);
  }

  /** The repetitions leave the previous block and the source block as they were. */
  lemma KeepsSources(m0: seq<word>, value: word, blocklen: nat, fromAddr: nat, toAddr: nat, r: nat)
    requires blocklen <= toAddr && toAddr + blocklen <= |m0| && fromAddr + blocklen <= |m0|
    requires fromAddr + blocklen <= toAddr || toAddr + blocklen <= fromAddr
    ensures var b := MixBlocks(m0, value, blocklen, fromAddr, toAddr, r).mem;
      b[toAddr - blocklen .. toAddr] == m0[toAddr - blocklen .. toAddr] &&
      b[fromAddr .. fromAddr + blocklen] == m0[fromAddr .. fromAddr + blocklen]
  {
    var prev := m0[toAddr - blocklen .. toAddr];
    var from := m0[fromAddr .. fromAddr + blocklen];
    AfterPassesOutside(m0, value, prev, from, toAddr, r, toAddr - blocklen, toAddr);
    AfterPassesOutside(m0, value, prev, from, toAddr, r, fromAddr, fromAddr + blocklen);
  }

  /** hashBlocks writes only the blocklen words at toAddr. */
  lemma MixBlocksFrame(m: seq<word>, value: word, blocklen: nat, fromAddr: nat, toAddr: nat, repetitions: nat, k: nat)
    requires blocklen <= toAddr && toAddr + blocklen <= |m| && fromAddr + blocklen <= |m|
    requires k < |m| && !(toAddr <= k < toAddr + blocklen)
    ensures MixBlocks(m, value, blocklen, fromAddr, toAddr, repetitions).mem[k] == m[k]
  {
    if repetitions > 0 {
      var prev := m[toAddr - blocklen .. toAddr];
      var from := m[fromAddr .. fromAddr + blocklen];
      WriteWordsPoint(m, toAddr, MixedBlock(value, prev, from, repetitions), k);
    }
  }

  /**
   * With at least one repetition, word j of the destination is the
   * multiply-add step from word j - 1 (from the value the last pass started
   * with, for word 0) with word j of the previous block and of the source
   * block; with none, nothing changes.
   */
  lemma MixBlocksRecurrence(m: seq<word>, value: word, blocklen: nat, fromAddr: nat, toAddr: nat, repetitions: nat, j: nat)
    requires blocklen <= toAddr && toAddr + blocklen <= |m| && fromAddr + blocklen <= |m|
    requires j < blocklen
    ensures repetitions >= 1 ==>
      var r := MixBlocks(m, value, blocklen, fromAddr, toAddr, repetitions);
      var start := Repeat(value, m[toAddr - blocklen .. toAddr], m[fromAddr .. fromAddr + blocklen], repetitions - 1);
      r.mem[toAddr + j] == Step(if j == 0 then start else r.mem[toAddr + j - 1], m[toAddr - blocklen + j], m[fromAddr + j])
    ensures repetitions == 0 ==> MixBlocks(m, value, blocklen, fromAddr, toAddr, repetitions) == Mixed(m, value)
  {
    if repetitions >= 1 {
      var prev := m[toAddr - blocklen .. toAddr];
      var from := m[fromAddr .. fromAddr + blocklen];
      var block := MixedBlock(value, prev, from, repetitions);
      PassRecurrence(Repeat(value, prev, from, repetitions - 1), prev, from, j);
      WriteWordsPoint(m, toAddr, block, toAddr + j);
      if j > 0 {
        WriteWordsPoint(m, toAddr, block, toAddr + j - 1);
      }
    }
  }

  /** With at least one repetition and one word, hashBlocks returns the last word it wrote. */
  lemma MixBlocksValue(m: seq<word>, value: word, blocklen: nat, fromAddr: nat, toAddr: nat, repetitions: nat)
    requires blocklen <= toAddr && toAddr + blocklen <= |m| && fromAddr + blocklen <= |m|
    requires blocklen >= 1 && repetitions >= 1
    ensures var r := MixBlocks(m, value, blocklen, fromAddr, toAddr, repetitions);
      r.value == r.mem[toAddr + blocklen - 1]
  {
    var prev := m[toAddr - blocklen .. toAddr];
    var from := m[fromAddr .. fromAddr + blocklen];
    ValueIsLastWord(value, prev, from, repetitions);
    WriteWordsPoint(m, toAddr, MixedBlock(value, prev, from, repetitions), toAddr + blocklen - 1);
  }

  /**
   * hashBlocks: repetitions passes of the mixer over the block at toAddr,
   * reading the block just before it and the block at fromAddr. Only the
   * blocklen words at toAddr change, and they hold the last pass's words; the
   * result is the final running value. The source block never overlaps the
   * destination (the callers only name earlier blocks or other segments).
   */
  method HashBlocks(mem: array<word>, value: word, blocklen: nat, fromAddr: nat, toAddr: nat, repetitions: nat)
    returns (result: word)
    requires blocklen <= toAddr && toAddr + blocklen <= mem.Length && fromAddr + blocklen <= mem.Length
    requires fromAddr + blocklen <= toAddr || toAddr + blocklen <= fromAddr
    modifies mem
    ensures Mixed(mem[..], result) == MixBlocks(old(mem[..]), value, blocklen, fromAddr, toAddr, repetitions)
  {
    ghost var m0 := mem[..];
    result := value;
    var r := 0;
    while r < repetitions
      invariant 0 <= r <= repetitions
      invariant Mixed(mem[..], result) == MixBlocks(m0, value, blocklen, fromAddr, toAddr, r)
    {
      ghost var before := mem[..];
      ghost var old_result := result;
      result := MixPass(mem, result, blocklen, fromAddr, toAddr);
      PassesAdvance(m0, before, mem[..], toAddr, fromAddr, blocklen, value, r, old_result, result);
      r := r + 1;
    }
  }
}
