/**
 * Machine words, bytes, the big-endian conversions the engines call
 * (be32enc, be32enc_vect) and the keyed hash H that stands for PBKDF2-SHA256.
 */
module Words {

  const TWO32: nat := 0x1_0000_0000
  const TWO64: nat := 0x1_0000_0000_0000_0000

  /** C's uint8 and uint32, as integers in range; arithmetic on them is reduced explicitly. */
  type byte = x: int | 0 <= x < 0x100
  type word = x: int | 0 <= x < TWO32

  /** A value, or None where the source stops with an error. */
  datatype Option<T> = None | Some(value: T)

  /** 2^k */
  function Pow2(k: nat): (r: nat)
    ensures r >= 1
  {
    if k == 0 then 1 else 2 * Pow2(k - 1)
  }

  lemma {:induction false} Pow2Add(a: nat, b: nat)
    ensures Pow2(a + b) == Pow2(a) * Pow2(b)
  {
    if a > 0 {
      Pow2Add(a - 1, b);
      assert Pow2(a + b) == 2 * Pow2(a - 1 + b);
    }
  }

  lemma Pow2Split(m: nat, j: nat)
    requires j <= m
    ensures Pow2(m) == Pow2(m - j) * Pow2(j)
  {
    Pow2Add(m - j, j);
  }

  lemma {:induction false} Pow2Monotone(a: nat, b: nat)
    requires a <= b
    ensures Pow2(a) <= Pow2(b)
  {
    if a < b {
      Pow2Monotone(a, b - 1);
    }
  }

  lemma MulMono(a: nat, b: nat, c: nat)
    requires b <= c
    ensures a * b <= a * c
  {
    var e := c - b;
    assert a * c == a * b + a * e;
  }

  lemma Distrib(a: int, b: int, c: int)
    ensures a * (b + c) == a * b + a * c
  {
  }

  lemma MulAssoc(a: int, b: int, c: int)
    ensures a * (b * c) == (a * b) * c
  {
  }

  /** A non-zero integer multiple of d is at least d in size. */
  lemma MulSign(d: nat, e: int)
    ensures e >= 1 ==> d * e >= d
    ensures e <= -1 ==> d * e <= 0 - d
  {
    if e >= 1 {
      MulMono(d, 1, e);
    } else if e <= -1 {
      MulMono(d, 1, -e);
      Distrib(d, e, -e);
    }
  }

  /** Quotient and remainder are determined by x == d*q + r with r < d. */
  lemma DivUnique(x: nat, d: nat, q: nat, r: nat)
    requires d > 0 && r < d && x == d * q + r
    ensures x / d == q && x % d == r
  {
    var q', r' := x / d, x % d;
    var e: int := q - q';
    Distrib(d, q', e);
    MulSign(d, e);
  }

  /** The quotient times the divisor never exceeds the dividend. */
  lemma QuotientTimesDivisor(x: nat, d: nat)
    requires d > 0
    ensures x / d * d <= x
  {
    assert x == d * (x / d) + x % d;
  }

  /** Adding a multiple of d shifts the quotient and keeps the remainder. */
  lemma DivAddMultiple(x: nat, c: nat, d: nat)
    requires d > 0
    ensures (c * d + x) / d == c + x / d
    ensures (c * d + x) % d == x % d
  {
    Distrib(d, c, x / d);
    DivUnique(c * d + x, d, c + x / d, x % d);
  }

  /** Scaling x by y/m, for y < m, cannot exceed x, and stays below x when x > 0. */
  lemma ScaleDown(x: nat, y: nat, m: nat)
    requires y < m
    ensures x * y / m <= x
    ensures x > 0 ==> x * y / m < x
  {
    var q := x * y / m;
    MulMono(x, y, m - 1);
    Distrib(x, m, -1);
    if q >= x {
      MulMono(m, x, q);
    }
  }

  /** be32enc: one word as four bytes, most significant first (w >> 24, w >> 16, w >> 8, w). */
  function Be32Enc(w: word): (b: seq<byte>)
    ensures |b| == 4
  {
    [w / 0x100 / 0x100 / 0x100, w / 0x100 / 0x100 % 0x100, w / 0x100 % 0x100, w % 0x100]
  }

  /** be32dec: four bytes, most significant first, as one word. */
  function Be32Dec(b: seq<byte>): word
    requires |b| == 4
  {
    ((b[0] as int * 0x100 + b[1] as int) * 0x100 + b[2] as int) * 0x100 + b[3] as int
  }

  lemma DecodeEncode(w: word)
    ensures Be32Dec(Be32Enc(w)) == w
  {
    var q1 := w / 0x100;
    var q2 := q1 / 0x100;
    var q3 := q2 / 0x100;
    assert w == q1 * 0x100 + w % 0x100;
    assert q1 == q2 * 0x100 + q1 % 0x100;
    assert q2 == q3 * 0x100 + q2 % 0x100;
  }

  lemma EncodeDecode(b: seq<byte>)
    requires |b| == 4
    ensures Be32Enc(Be32Dec(b)) == b
  {
    var t2 := b[0] as int * 0x100 + b[1] as int;
    var t1 := t2 * 0x100 + b[2] as int;
    DivAddMultiple(b[3] as int, t1, 0x100);
    DivAddMultiple(b[2] as int, t2, 0x100);
    DivAddMultiple(b[1] as int, b[0] as int, 0x100);
  }

  /** be32enc_vect: a word vector as bytes, four per word. */
  function Be32EncVect(ws: seq<word>): (b: seq<byte>)
    ensures |b| == 4 * |ws|
  {
    if ws == [] then [] else Be32Enc(ws[0]) + Be32EncVect(ws[1..])
  }

  /** Bytes 4k .. 4k + 3 of be32enc_vect are word k, encoded. */
  lemma {:induction false} Be32EncVectWords(ws: seq<word>)
    ensures forall k :: 0 <= k < |ws| ==> Be32EncVect(ws)[4 * k .. 4 * k + 4] == Be32Enc(ws[k])
  {
    if ws != [] {
      Be32EncVectWords(ws[1..]);
      var b := Be32EncVect(ws);
      var rest := Be32EncVect(ws[1..]);
      forall k | 1 <= k < |ws|
        ensures b[4 * k .. 4 * k + 4] == Be32Enc(ws[k])
      {
        assert ws[k] == ws[1..][k - 1];
        assert b[4 * k .. 4 * k + 4] == rest[4 * (k - 1) .. 4 * (k - 1) + 4];
      }
    }
  }

  /** A slice of a suffix is a slice of the whole sequence, shifted. */
  lemma SliceOfSuffix<T>(s: seq<T>, d: nat, lo: nat, hi: nat)
    requires d <= |s| && lo <= hi <= |s| - d
    ensures s[d..][lo..hi] == s[d + lo .. d + hi]
  {
    assert forall i :: 0 <= i < hi - lo ==> s[d..][lo..hi][i] == s[d + lo + i];
  }

  /** be32dec_vect: bytes as words, four bytes per word. */
  function Be32DecVect(b: seq<byte>): (ws: seq<word>)
    requires |b| % 4 == 0
    ensures |ws| == |b| / 4
  {
    if b == [] then [] else [Be32Dec(b[..4])] + Be32DecVect(b[4..])
  }

  /** Word k of be32dec_vect is bytes 4k .. 4k + 3, decoded. */
  lemma {:induction false} Be32DecVectWords(b: seq<byte>)
    requires |b| % 4 == 0
    ensures forall k :: 0 <= k < |b| / 4 ==> Be32DecVect(b)[k] == Be32Dec(b[4 * k .. 4 * k + 4])
  {
    if b != [] {
      Be32DecVectWords(b[4..]);
      forall k | 1 <= k < |b| / 4
        ensures Be32DecVect(b)[k] == Be32Dec(b[4 * k .. 4 * k + 4])
      {
        var j := k - 1;
        assert 4 * k == 4 + 4 * j;
        SliceOfSuffix(b, 4, 4 * j, 4 * j + 4);
      }
    }
  }

  lemma VectDecodeEncode(ws: seq<word>)
    ensures Be32DecVect(Be32EncVect(ws)) == ws
  {
    var b := Be32EncVect(ws);
    var d := Be32DecVect(b);
    Be32EncVectWords(ws);
    Be32DecVectWords(b);
    forall k | 0 <= k < |ws| ensures d[k] == ws[k] {
      DecodeEncode(ws[k]);
    }
  }

  lemma {:induction false} VectEncodeDecode(b: seq<byte>)
    requires |b| % 4 == 0
    ensures Be32EncVect(Be32DecVect(b)) == b
    decreases |b|
  {
    if b != [] {
      var ws := Be32DecVect(b);
      assert ws == [Be32Dec(b[..4])] + Be32DecVect(b[4..]);
      assert ws[1..] == Be32DecVect(b[4..]);
      VectEncodeDecode(b[4..]);
      EncodeDecode(b[..4]);
      assert Be32EncVect(ws) == Be32Enc(ws[0]) + Be32EncVect(ws[1..]);
      assert b == b[..4] + b[4..];
    }
  }

  /**
   * H(password, salt, outLength): the keyed hash the KDFs are built on (in the
   * repository, PBKDF2 over HMAC-SHA-256 with one iteration, section 5.2 of
   * RFC 8018). It is opaque here: any deterministic function that returns
   * exactly outLength bytes.
   */
  type KeyedHash = f: (seq<byte>, seq<byte>, nat) -> seq<byte>
    | forall password, salt, n :: |f(password, salt, n)| == n
    witness (password: seq<byte>, salt: seq<byte>, n: nat) => seq(n, _ => 0 as byte)

  /** H(hash, hashSize, password, salt): the buffer receives H's output of its own length. */
  method HashInto(h: KeyedHash, hash: array<byte>, password: seq<byte>, salt: seq<byte>)
    modifies hash
    ensures hash[..] == h(password, salt, hash.Length)
  {
    var out := h(password, salt, hash.Length);
    forall k | 0 <= k < hash.Length {
      hash[k] := out[k];
    }
  }

  /** mem with the words starting at address at replaced by ws. */
  function WriteWords(mem: seq<word>, at: nat, ws: seq<word>): (r: seq<word>)
    requires at + |ws| <= |mem|
    ensures |r| == |mem|
  {
    mem[..at] + ws + mem[at + |ws|..]
  }

  /** Word k after a write: from ws inside the written range, from mem outside it. */
  lemma WriteWordsAt(mem: seq<word>, at: nat, ws: seq<word>)
    requires at + |ws| <= |mem|
    ensures forall k :: 0 <= k < |mem| ==>
      WriteWords(mem, at, ws)[k] == if at <= k < at + |ws| then ws[k - at] else mem[k]
  {
  }

  /** One word of a write, without quantifying over the whole memory. */
  lemma WriteWordsPoint(mem: seq<word>, at: nat, ws: seq<word>, k: nat)
    requires at + |ws| <= |mem| && k < |mem|
    ensures WriteWords(mem, at, ws)[k] == if at <= k < at + |ws| then ws[k - at] else mem[k]
  {
  }

  /** Writing no words leaves the memory as it was. */
  lemma WriteWordsEmpty(mem: seq<word>, at: nat, ws: seq<word>)
    requires |ws| == 0 && at <= |mem|
    ensures WriteWords(mem, at, ws) == mem
  {
    assert mem[..at] + ws + mem[at..] == mem;
  }

  /** A write leaves the words of a block it does not reach as they were. */
  lemma WriteWordsRead(mem: seq<word>, at: nat, ws: seq<word>, base: nat, len: nat, j: nat)
    requires at + |ws| <= |mem| && base + len <= |mem| && j < len
    requires base + len <= at || at + |ws| <= base
    ensures WriteWords(mem, at, ws)[base + j] == mem[base .. base + len][j]
  {
  }

  /** Growing a prefix by one element. */
  lemma PrefixExtend<T>(s: seq<T>, j: nat)
    requires j < |s|
    ensures s[..j] + [s[j]] == s[..j + 1]
  {
  }

  /** The prefix as long as the sequence is the sequence. */
  lemma PrefixAll<T>(s: seq<T>)
    ensures s[..|s|] == s
  {
  }

  /** A memory that agrees with ws on the written range and with mem elsewhere is the write. */
  lemma WriteWordsFrom(mem: seq<word>, at: nat, ws: seq<word>, m: seq<word>)
    requires at + |ws| <= |mem| == |m|
    requires forall k :: 0 <= k < |m| && !(at <= k < at + |ws|) ==> m[k] == mem[k]
    requires forall k :: 0 <= k < |ws| ==> m[at + k] == ws[k]
    ensures m == WriteWords(mem, at, ws)
  {
    var w := WriteWords(mem, at, ws);
    forall k | 0 <= k < |m|
      ensures m[k] == w[k]
    {
      WriteWordsPoint(mem, at, ws, k);
      if at <= k < at + |ws| {
        assert m[at + (k - at)] == ws[k - at];
      }
    }
  }

  /** Writing one more word right after a write extends it. */
  lemma WriteWordsExtend(mem: seq<word>, at: nat, ws: seq<word>, x: word)
    requires at + |ws| < |mem|
    ensures WriteWords(mem, at, ws)[at + |ws| := x] == WriteWords(mem, at, ws + [x])
  {
    WriteWordsAt(mem, at, ws);
    WriteWordsAt(mem, at, ws + [x]);
  }

  /** A second write to the same words hides the first. */
  lemma WriteWordsTwice(mem: seq<word>, at: nat, a: seq<word>, b: seq<word>)
    requires at + |a| <= |mem| && |a| == |b|
    ensures WriteWords(WriteWords(mem, at, a), at, b) == WriteWords(mem, at, b)
  {
  }

  /** The written range holds the words written. */
  lemma WriteWordsSlice(mem: seq<word>, at: nat, ws: seq<word>)
    requires at + |ws| <= |mem|
    ensures WriteWords(mem, at, ws)[at .. at + |ws|] == ws
  {
    assert (mem[..at] + ws + mem[at + |ws|..])[at .. at + |ws|] == ws;
  }

  /** Two sequences that agree on every index of [lo, hi) have equal slices there. */
  lemma SameSlice<T>(a: seq<T>, b: seq<T>, lo: nat, hi: nat)
    requires lo <= hi <= |a| && hi <= |b|
    requires forall k :: lo <= k < hi ==> a[k] == b[k]
    ensures a[lo .. hi] == b[lo .. hi]
  {
  }

  /** A slice that agrees with b word by word is b. */
  lemma SliceIs<T>(a: seq<T>, lo: nat, b: seq<T>)
    requires lo + |b| <= |a|
    requires forall j :: 0 <= j < |b| ==> a[lo + j] == b[j]
    ensures a[lo .. lo + |b|] == b
  {
  }

  /** A write leaves every range it does not overlap as it was. */
  lemma WriteWordsOutside(mem: seq<word>, at: nat, ws: seq<word>, lo: nat, hi: nat)
    requires at + |ws| <= |mem| && lo <= hi <= |mem|
    requires hi <= at || at + |ws| <= lo
    ensures WriteWords(mem, at, ws)[lo .. hi] == mem[lo .. hi]
  {
  }

  /** be32dec_vect into memory: the words of b stored from address at on, nothing else changed. */
  method Be32DecInto(mem: array<word>, at: nat, b: seq<byte>)
    requires |b| % 4 == 0 && at + |b| / 4 <= mem.Length
    modifies mem
    ensures mem[..] == WriteWords(old(mem[..]), at, Be32DecVect(b))
  {
    ghost var m0 := mem[..];
    ghost var ws := Be32DecVect(b);
    Be32DecVectWords(b);
    forall k | 0 <= k < |b| / 4 {
      mem[at + k] := Be32Dec(b[4 * k .. 4 * k + 4]);
    }
    WriteWordsFrom(m0, at, ws, mem[..]);
  }

  /** be32enc_vect into a byte buffer of four bytes per word: the buffer becomes the encoding of ws. */
  method Be32EncInto(buf: array<byte>, ws: seq<word>)
    requires buf.Length == 4 * |ws|
    modifies buf
    ensures buf[..] == Be32EncVect(ws)
  {
    forall k | 0 <= k < buf.Length {
      buf[k] := Be32Enc(ws[k / 4])[k % 4];
    }
    ghost var b := Be32EncVect(ws);
    Be32EncVectWords(ws);
    forall k | 0 <= k < buf.Length
      ensures buf[k] == b[k]
    {
      var w := k / 4;
      assert b[4 * w .. 4 * w + 4] == Be32Enc(ws[w]);
      assert b[k] == b[4 * w .. 4 * w + 4][k % 4];
    }
  }

  /** C's uint32 addition, wrapping modulo 2^32. */
  function Add32(a: word, b: word): (r: word)
    ensures r == (a + b) % TWO32
  {
    (a + b) % TWO32
  }

  /** Wrapping 32-bit sum of a word sequence (C's uint32 `+=` over it, from 0). */
  function WrapSum(ws: seq<word>): word
  {
    if ws == [] then 0 else Add32(WrapSum(ws[..|ws| - 1]), ws[|ws| - 1])
  }

  /** Bitwise exclusive or of the low n bits of a and b. */
  function XorBits(a: nat, b: nat, n: nat): (r: nat)
    ensures r < Pow2(n)
  {
    if n == 0 then 0 else (a + b) % 2 + 2 * XorBits(a / 2, b / 2, n - 1)
  }

  /** The remainder by 2P, split into the lowest bit and the remainder of the half by P. */
  lemma ModSplit(a: nat, p: nat)
    requires p > 0
    ensures a % (2 * p) == a % 2 + 2 * ((a / 2) % p)
  {
    var h := a / 2;
    var q := h / p;
    var r := a % 2 + 2 * (h % p);
    assert h == p * q + h % p;
    assert a == 2 * h + a % 2;
    MulAssoc(2, p, q);
    Distrib(2, p * q, h % p);
    assert a == (2 * p) * q + r;
    DivUnique(a, 2 * p, q, r);
  }

  /** The lowest bit of a XOR, and the XOR of the remaining bits. */
  lemma XorBitsSplit(a: nat, b: nat, n: nat)
    requires n > 0
    ensures XorBits(a, b, n) % 2 == (a + b) % 2
    ensures XorBits(a, b, n) / 2 == XorBits(a / 2, b / 2, n - 1)
  {
    DivAddMultiple((a + b) % 2, XorBits(a / 2, b / 2, n - 1), 2);
  }

  /** If x has the parity of a + b, then x + b has the parity of a. */
  lemma ParityCancel(x: nat, a: nat, b: nat)
    requires x % 2 == (a + b) % 2
    ensures (x + b) % 2 == a % 2
  {
    var qx, qa, qb := x / 2, a / 2, b / 2;
    assert x == 2 * qx + x % 2 && a == 2 * qa + a % 2 && b == 2 * qb + b % 2;
  }

  lemma {:induction false} XorBitsTwice(a: nat, b: nat, n: nat)
    ensures XorBits(XorBits(a, b, n), b, n) == a % Pow2(n)
  {
    if n > 0 {
      var x := XorBits(a, b, n);
      XorBitsSplit(a, b, n);
      ParityCancel(x, a, b);
      XorBitsTwice(a / 2, b / 2, n - 1);
      assert XorBits(x, b, n) == a % 2 + 2 * ((a / 2) % Pow2(n - 1));
      ModSplit(a, Pow2(n - 1));
    }
  }

  lemma Pow2Of32()
    ensures Pow2(8) == 0x100 && Pow2(32) == TWO32
  {
    assert Pow2(4) == 16;
    Pow2Add(4, 4);
    Pow2Add(8, 8);
    Pow2Add(16, 16);
  }

  lemma Pow2Of64()
    ensures Pow2(64) == TWO64
  {
    Pow2Of32();
    Pow2Add(32, 32);
  }

  /**
   * Shifting a 64-bit value left by s and back right gives the value back
   * exactly when nothing was shifted out: x * 2^s fits in 64 bits.
   */
  lemma ShiftRoundTrip(x: nat, s: nat)
    requires s <= 64
    ensures (x * Pow2(s)) % TWO64 / Pow2(s) == x <==> x * Pow2(s) < TWO64
  {
    Pow2Of64();
    Pow2Split(64, s);
    ScaleRoundTrip(x, Pow2(s), Pow2(64 - s));
  }

  /** Multiplying by P, reducing modulo Q * P and dividing by P is exact iff x * P < Q * P. */
  lemma ScaleRoundTrip(x: nat, P: nat, Q: nat)
    requires P >= 1 && Q >= 1
    ensures (x * P) % (Q * P) / P == x <==> x * P < Q * P
  {
    var a, b := x / Q, x % Q;
    assert x * P == a * (Q * P) + b * P by {
      assert x == a * Q + b;
      Distrib(P, a * Q, b);
      MulAssoc(a, Q, P);
    }
    assert b * P < Q * P by {
      MulMono(P, b, Q - 1);
      Distrib(P, Q, -1);
    }
    DivUnique(x * P, Q * P, a, b * P);
    DivUnique(b * P, P, b, 0);
    if x * P < Q * P {
      DivUnique(x * P, Q * P, 0, x * P);
    } else {
      assert a > 0;
      assert b < x by {
        MulMono(Q, 1, a);
      }
    }
  }

  /** C's `^` on uint32 values. */
  function Xor32(a: word, b: word): word
  {
    Pow2Of32();
    XorBits(a, b, 32)
  }

  /** C's `^` on uint8 values. */
  function Xor8(a: byte, b: byte): byte
  {
    Pow2Of32();
    XorBits(a, b, 8)
  }

  /** XOR-ing the same word twice gives back the original. */
  lemma Xor32Twice(a: word, b: word)
    ensures Xor32(Xor32(a, b), b) == a
  {
    Pow2Of32();
    var x := Xor32(a, b);
    assert x == XorBits(a, b, 32);
    assert Xor32(x, b) == XorBits(x, b, 32);
    XorBitsTwice(a, b, 32);
    DivUnique(a, TWO32, 0, a);
  }

  /** XOR-ing the same byte twice gives back the original. */
  lemma Xor8Twice(a: byte, b: byte)
    ensures Xor8(Xor8(a, b), b) == a
  {
    Pow2Of32();
    var x := Xor8(a, b);
    assert x == XorBits(a, b, 8);
    assert Xor8(x, b) == XorBits(x, b, 8);
    XorBitsTwice(a, b, 8);
    DivUnique(a, 0x100, 0, a);
  }

  /** Word-wise XOR of two equally long word vectors. */
  function XorWords(a: seq<word>, b: seq<word>): (r: seq<word>)
    requires |a| == |b|
    ensures |r| == |a|
  {
    seq(|a|, i requires 0 <= i < |a| => Xor32(a[i], b[i]))
  }

  /** Byte-wise XOR of two equally long byte vectors. */
  function XorBytes(a: seq<byte>, b: seq<byte>): (r: seq<byte>)
    requires |a| == |b|
    ensures |r| == |a|
  {
    seq(|a|, i requires 0 <= i < |a| => Xor8(a[i], b[i]))
  }
}
