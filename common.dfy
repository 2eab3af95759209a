/**
 * The password hashing interface of tigerkdf-common.c: its parameter check,
 * the entry points built from H and a raw KDF, and the server-relief split.
 * The raw KDF (the function the file declares and calls without defining)
 * is a parameter; TigerKDF of tigerkdf-sse.c is one such function.
 */
module TigerKdfCommon {
  import opened Words
  import TigerKdfSse

  // ---------------------------------------------------------------------
  // verifyParameters
  // ---------------------------------------------------------------------

  /**
   * The memory check in verifyParameters: memSize MiB shifted by 20 +
   * stopGarlic bits gives totalSize, which must survive the shift back,
   * stay at most 2^50 and hold at most 2^30 blocks.
   */
  function TotalSizeFits(memSize: word, stopGarlic: byte, blockSize: word): (ok: bool)
    requires stopGarlic <= 30 && blockSize >= 1
    ensures ok <==> memSize * Pow2(20 + stopGarlic) <= Pow2(50) &&
                    memSize * Pow2(20 + stopGarlic) / blockSize <= 0x4000_0000
  {
    var shift := 20 + stopGarlic;
    MulMono(memSize, 0, Pow2(shift));
    var shifted := memSize * Pow2(shift);
    var totalSize := shifted % TWO64;
    ShiftRoundTrip(memSize, shift);
    Pow2Of64();
    Pow2Monotone(50, 64);
    ModBelow(shifted, TWO64);
    totalSize / Pow2(shift) == memSize && totalSize <= Pow2(50) && totalSize / blockSize <= 0x4000_0000
  }

  /** A number below the modulus is its own remainder. */
  lemma ModBelow(x: nat, m: nat)
    requires m > 0
    ensures x < m ==> x % m == x
  {
    if x < m {
      DivUnique(x, m, 0, x);
    }
  }

  /**
   * verifyParameters: the hash 12 to 1024 bytes in whole words, password,
   * salt and data at most 1024 bytes (password and salt not empty), memSize
   * 1 to 2^30 MiB, garlic levels ordered and at most 30, the block a whole
   * number of words between the hash size and 2^30 bytes, four blocks per
   * thread in memSize MiB, 1 to 2^20 threads, 1 to 2^30 repetitions, and the
   * memory of the last garlic level within TotalSizeFits.
   */
  function VerifyParameters(hashSize: word, passwordSize: word, saltSize: word, memSize: word,
                            startGarlic: byte, stopGarlic: byte, dataSize: word, blockSize: word,
                            parallelism: word, repetitions: word): (ok: bool)
    ensures ok <==>
      12 <= hashSize <= 1024 && hashSize % 4 == 0 &&
      1 <= passwordSize <= 1024 && 1 <= saltSize <= 1024 && dataSize <= 1024 &&
      1 <= memSize <= 0x4000_0000 && startGarlic <= stopGarlic <= 30 &&
      hashSize <= blockSize <= 0x4000_0000 && blockSize % 4 == 0 &&
      4 * blockSize * parallelism <= memSize * 0x10_0000 &&
      1 <= parallelism <= 0x10_0000 && 1 <= repetitions <= 0x4000_0000 &&
      memSize * Pow2(20 + stopGarlic) <= Pow2(50) &&
      memSize * Pow2(20 + stopGarlic) / blockSize <= 0x4000_0000
  {
    if hashSize > 1024 || hashSize < 12 || hashSize % 4 != 0 || passwordSize > 1024 ||
       passwordSize == 0 || saltSize > 1024 || saltSize == 0 ||
       memSize == 0 || memSize > 0x4000_0000 || startGarlic > stopGarlic || stopGarlic > 30 ||
       dataSize > 1024 || blockSize > 0x4000_0000 || blockSize < hashSize || blockSize % 4 != 0 ||
       memSize * 0x10_0000 < 4 * blockSize * parallelism || parallelism == 0 ||
       parallelism > 0x10_0000 || repetitions == 0 || repetitions > 0x4000_0000 then
      false
    else
      TotalSizeFits(memSize, stopGarlic, blockSize)
  }

  /**
   * The two products of the four-block check never wrap in 64 bits:
   * memSize << 20 is at most 2^50, and 4 * blockSize * parallelism, with
   * blockSize at most 2^30 when it is formed, is below 2^64.
   */
  lemma FourBlockCheckExact(memSize: word, blockSize: word, parallelism: word)
    requires memSize <= 0x4000_0000 && blockSize <= 0x4000_0000
    ensures memSize * 0x10_0000 < TWO64 && 4 * blockSize * parallelism < TWO64
  {
    MulMono(4 * blockSize, parallelism, TWO32 - 1);
    MulMono(TWO32 - 1, 4 * blockSize, TWO32);
  }

  /** Parameters verifyParameters accepts leave every thread at least four blocks of memory at garlic 0. */
  lemma AcceptedThreadsFit(hashSize: word, passwordSize: word, saltSize: word, memSize: word,
                           startGarlic: byte, stopGarlic: byte, dataSize: word, blockSize: word,
                           parallelism: word, repetitions: word)
    requires VerifyParameters(hashSize, passwordSize, saltSize, memSize, startGarlic, stopGarlic, dataSize,
                              blockSize, parallelism, repetitions)
    ensures 4 * parallelism <= memSize * 0x10_0000 / blockSize
  {
    BlocksPerThread(memSize * 0x10_0000, blockSize, parallelism);
  }

  /** Memory m holding 4 * par blocks of bs bytes holds at least 4 * par whole blocks. */
  lemma BlocksPerThread(m: nat, bs: nat, par: nat)
    requires bs >= 1 && 4 * bs * par <= m
    ensures 4 * par <= m / bs
  {
    MulAssoc(4, bs, par);
    MulAssoc(4, par, bs);
    DivUnique(4 * par * bs, bs, 4 * par, 0);
    DivMonotone(4 * par * bs, m, bs);
  }

  /** Division by a positive number is monotone. */
  lemma DivMonotone(a: nat, b: nat, d: nat)
    requires a <= b && d >= 1
    ensures a / d <= b / d
  {
    QuotientTimesDivisor(a, d);
    QuotientTimesDivisor(b, d);
    if a / d > b / d {
      MulMono(d, b / d + 1, a / d);
    }
  }

  // ---------------------------------------------------------------------
  // The raw KDF and H
  // ---------------------------------------------------------------------

  /**
   * The raw KDF the entry points call: from the hash so far, memSize,
   * startGarlic, stopGarlic, blockSize, parallelism, repetitions and
   * skipLastHash, whether it succeeded and what the hash buffer then holds.
   */
  type RawKdf = f: (seq<byte>, word, byte, byte, word, word, word, bool) -> (bool, seq<byte>)
    | forall hash, memSize, startGarlic, stopGarlic, blockSize, parallelism, repetitions, skipLastHash ::
        |f(hash, memSize, startGarlic, stopGarlic, blockSize, parallelism, repetitions, skipLastHash).1| == |hash|
    witness Unchanged

  /** A raw KDF that succeeds without touching the hash. */
  function Unchanged(hash: seq<byte>, memSize: word, startGarlic: byte, stopGarlic: byte, blockSize: word,
                     parallelism: word, repetitions: word, skipLastHash: bool): (bool, seq<byte>)
  {
    (true, hash)
  }

  /**
   * Server relief works for a raw KDF whose run with skipLastHash, when it
   * succeeds, stops just before a final H(hash, [stopGarlic]) that the full
   * run would apply.
   */
  ghost predicate RehashesLast(raw: RawKdf, h: KeyedHash)
  {
    forall hash, memSize, startGarlic, stopGarlic, blockSize, parallelism, repetitions ::
      var client := raw(hash, memSize, startGarlic, stopGarlic, blockSize, parallelism, repetitions, true);
      client.0 ==>
        raw(hash, memSize, startGarlic, stopGarlic, blockSize, parallelism, repetitions, false) ==
        (true, h(client.1, [stopGarlic], |hash|))
  }

  /**
   * The hash of a password before the raw KDF: with data, H(data, salt)
   * makes a derived salt of hashSize bytes and the hash is H(password,
   * derived salt); without data (a NULL pointer or dataSize 0, both an
   * empty sequence here), H(password, salt).
   */
  function InitialHash(h: KeyedHash, hashSize: nat, password: seq<byte>, salt: seq<byte>, data: seq<byte>)
    : (r: seq<byte>)
    ensures |r| == hashSize
    ensures |data| != 0 ==> r == h(password, h(data, salt, hashSize), hashSize)
    ensures |data| == 0 ==> r == h(password, salt, hashSize)
  {
    if |data| != 0 then
      var derivedSalt := h(data, salt, hashSize);
      h(password, derivedSalt, hashSize)
    else
      h(password, salt, hashSize)
  }

  /**
   * What HashPassword (skipLastHash false) and ClientHashPassword
   * (skipLastHash true) leave: failure and the hash as it was when the
   * verifyParameters refuses, otherwise the raw KDF from garlic 0 to garlic over the
   * initial hash.
   */
  function PasswordHash(raw: RawKdf, h: KeyedHash, hash: seq<byte>, password: seq<byte>, salt: seq<byte>,
                        memSize: word, garlic: byte, data: seq<byte>, blockSize: word, parallelism: word,
                        repetitions: word, skipLastHash: bool): (r: (bool, seq<byte>))
    requires |hash| < TWO32 && |password| < 0x100 && |salt| < TWO32 && |data| < TWO32
    ensures |r.1| == |hash|
    ensures !VerifyParameters(|hash|, |password|, |salt|, memSize, 0, garlic, |data|, blockSize, parallelism,
                              repetitions) ==>
            r == (false, hash)
  {
    if !VerifyParameters(|hash|, |password|, |salt|, memSize, 0, garlic, |data|, blockSize, parallelism,
                         repetitions) then
      (false, hash)
    else
      raw(InitialHash(h, |hash|, password, salt, data), memSize, 0, garlic, blockSize, parallelism, repetitions,
          skipLastHash)
  }

  /**
   * Server relief: for a raw KDF that rehashes last, when the client's
   * part succeeds, applying the server's part to its result gives exactly
   * what HashPassword gives for the same inputs.
   */
  lemma ServerReliefMatches(raw: RawKdf, h: KeyedHash, hash: seq<byte>, password: seq<byte>, salt: seq<byte>,
                            memSize: word, garlic: byte, data: seq<byte>, blockSize: word, parallelism: word,
                            repetitions: word)
    requires RehashesLast(raw, h)
    requires |hash| < TWO32 && |password| < 0x100 && |salt| < TWO32 && |data| < TWO32
    ensures var client := PasswordHash(raw, h, hash, password, salt, memSize, garlic, data, blockSize, parallelism,
                                       repetitions, true);
      client.0 ==>
        PasswordHash(raw, h, hash, password, salt, memSize, garlic, data, blockSize, parallelism, repetitions, false)
        == (true, ServerHash(h, client.1, garlic))
  {
    var init := InitialHash(h, |hash|, password, salt, data);
    var client := raw(init, memSize, 0, garlic, blockSize, parallelism, repetitions, true);
    assert client.0 ==>
      raw(init, memSize, 0, garlic, blockSize, parallelism, repetitions, false) == (true, h(client.1, [garlic], |init|));
  }

  // ---------------------------------------------------------------------
  // The entry points
  // ---------------------------------------------------------------------

  /**
   * NoelKDF_SimpleHashPassword: verifyParameters with garlic 0, no data, 4096-byte
   * blocks, one thread and one repetition, then H(password, salt) and the
   * raw KDF: HashPassword with those settings.
   */
  method SimpleHashPassword(raw: RawKdf, h: KeyedHash, hash: array<byte>, password: seq<byte>, salt: seq<byte>,
                            memSize: word)
    returns (ok: bool)
    requires hash.Length < TWO32 && |password| < TWO32 && |salt| < TWO32
    modifies hash
    ensures !VerifyParameters(hash.Length, |password|, |salt|, memSize, 0, 0, 0, 4096, 1, 1) ==>
            !ok && hash[..] == old(hash[..])
    ensures |password| < 0x100 ==>
            (ok, hash[..]) == PasswordHash(raw, h, old(hash[..]), password, salt, memSize, 0, [], 4096, 1, 1, false)
    ensures VerifyParameters(hash.Length, |password|, |salt|, memSize, 0, 0, 0, 4096, 1, 1) ==>
            (ok, hash[..]) == raw(h(password, salt, hash.Length), memSize, 0, 0, 4096, 1, 1, false)
  {
    if !VerifyParameters(hash.Length, |password|, |salt|, memSize, 0, 0, 0, 4096, 1, 1) {
      return false;
    }
    HashInto(h, hash, password, salt);
    var r := raw(hash[..], memSize, 0, 0, 4096, 1, 1, false);
    ok := r.0;
    Overwrite(hash, r.1);
  }

  /** The raw KDF's hash buffer written back into the caller's. */
  method Overwrite(hash: array<byte>, bytes: seq<byte>)
    requires |bytes| == hash.Length
    modifies hash
    ensures hash[..] == bytes
  {
    forall k | 0 <= k < hash.Length {
      hash[k] := bytes[k];
    }
  }

  /**
   * The shared body of NoelKDF_HashPassword and NoelKDF_ClientHashPassword:
   * verifyParameters, the initial hash (with a derived salt of hashSize bytes when
   * there is data), then the raw KDF from garlic 0 to garlic.
   */
  method DerivePassword(raw: RawKdf, h: KeyedHash, hash: array<byte>, password: seq<byte>, salt: seq<byte>,
                        memSize: word, garlic: byte, data: seq<byte>, blockSize: word, parallelism: word,
                        repetitions: word, skipLastHash: bool)
    returns (ok: bool)
    requires hash.Length < TWO32 && |password| < 0x100 && |salt| < TWO32 && |data| < TWO32
    modifies hash
    ensures (ok, hash[..]) == PasswordHash(raw, h, old(hash[..]), password, salt, memSize, garlic, data, blockSize,
                                           parallelism, repetitions, skipLastHash)
  {
    if !VerifyParameters(hash.Length, |password|, |salt|, memSize, 0, garlic, |data|, blockSize, parallelism,
                         repetitions) {
      return false;
    }
    if |data| != 0 {
      var derivedSalt := new byte[hash.Length];
      HashInto(h, derivedSalt, data, salt);
      HashInto(h, hash, password, derivedSalt[..]);
    } else {
      HashInto(h, hash, password, salt);
    }
    var r := raw(hash[..], memSize, 0, garlic, blockSize, parallelism, repetitions, skipLastHash);
    ok := r.0;
    Overwrite(hash, r.1);
  }

  /** NoelKDF_HashPassword: the full hash, skipLastHash false. The password size is a uint8. */
  method HashPassword(raw: RawKdf, h: KeyedHash, hash: array<byte>, password: seq<byte>, salt: seq<byte>,
                      memSize: word, garlic: byte, data: seq<byte>, blockSize: word, parallelism: word,
                      repetitions: word)
    returns (ok: bool)
    requires hash.Length < TWO32 && |password| < 0x100 && |salt| < TWO32 && |data| < TWO32
    modifies hash
    ensures !VerifyParameters(hash.Length, |password|, |salt|, memSize, 0, garlic, |data|, blockSize, parallelism,
                              repetitions) ==>
            !ok && hash[..] == old(hash[..])
    ensures (ok, hash[..]) == PasswordHash(raw, h, old(hash[..]), password, salt, memSize, garlic, data, blockSize,
                                           parallelism, repetitions, false)
  {
    ok := DerivePassword(raw, h, hash, password, salt, memSize, garlic, data, blockSize, parallelism, repetitions,
                         false);
  }

  /** NoelKDF_ClientHashPassword: the client's part of server relief, HashPassword with skipLastHash true. */
  method ClientHashPassword(raw: RawKdf, h: KeyedHash, hash: array<byte>, password: seq<byte>, salt: seq<byte>,
                            memSize: word, garlic: byte, data: seq<byte>, blockSize: word, parallelism: word,
                            repetitions: word)
    returns (ok: bool)
    requires hash.Length < TWO32 && |password| < 0x100 && |salt| < TWO32 && |data| < TWO32
    modifies hash
    ensures !VerifyParameters(hash.Length, |password|, |salt|, memSize, 0, garlic, |data|, blockSize, parallelism,
                              repetitions) ==>
            !ok && hash[..] == old(hash[..])
    ensures (ok, hash[..]) == PasswordHash(raw, h, old(hash[..]), password, salt, memSize, garlic, data, blockSize,
                                           parallelism, repetitions, true)
  {
    ok := DerivePassword(raw, h, hash, password, salt, memSize, garlic, data, blockSize, parallelism, repetitions,
                         true);
  }

  /** The server's part of server relief: H of the client's hash, salted with the one garlic byte. */
  function ServerHash(h: KeyedHash, hash: seq<byte>, garlic: byte): (r: seq<byte>)
    ensures |r| == |hash|
  {
    h(hash, [garlic], |hash|)
  }

  /**
   * NoelKDF_ServerHashPassword: H(hash, hash, [garlic]). H computes into a
   * buffer of its own before copying, so the hash read is the one passed
   * in even though output and password are the same buffer.
   */
  method ServerHashPassword(h: KeyedHash, hash: array<byte>, garlic: byte)
    modifies hash
    ensures hash[..] == ServerHash(h, old(hash[..]), garlic)
  {
    HashInto(h, hash, hash[..], [garlic]);
  }

  /**
   * NoelKDF_UpdatePasswordHash: verifyParameters with password and salt sizes 16
   * and no data, then the raw KDF over the stored hash from oldGarlic to
   * newGarlic.
   */
  method UpdatePasswordHash(raw: RawKdf, hash: array<byte>, memSize: word, oldGarlic: byte, newGarlic: byte,
                            blockSize: word, parallelism: word, repetitions: word)
    returns (ok: bool)
    requires hash.Length < TWO32
    modifies hash
    ensures !VerifyParameters(hash.Length, 16, 16, memSize, oldGarlic, newGarlic, 0, blockSize, parallelism,
                              repetitions) ==>
            !ok && hash[..] == old(hash[..])
    ensures VerifyParameters(hash.Length, 16, 16, memSize, oldGarlic, newGarlic, 0, blockSize, parallelism,
                             repetitions) ==>
            (ok, hash[..]) == raw(old(hash[..]), memSize, oldGarlic, newGarlic, blockSize, parallelism, repetitions,
                                  false)
  {
    if !VerifyParameters(hash.Length, 16, 16, memSize, oldGarlic, newGarlic, 0, blockSize, parallelism,
                         repetitions) {
      return false;
    }
    var r := raw(hash[..], memSize, oldGarlic, newGarlic, blockSize, parallelism, repetitions, false);
    ok := r.0;
    Overwrite(hash, r.1);
  }

  /**
   * The sizes 16 that UpdatePasswordHash checks are never the reason for a
   * refusal: it accepts exactly the memory settings that verifyParameters accepts
   * for any password, salt and data sizes the entry points allow.
   */
  lemma UpdateChecksMemoryOnly(hashSize: word, passwordSize: word, saltSize: word, dataSize: word, memSize: word,
                               oldGarlic: byte, newGarlic: byte, blockSize: word, parallelism: word,
                               repetitions: word)
    requires 1 <= passwordSize <= 1024 && 1 <= saltSize <= 1024 && dataSize <= 1024
    ensures VerifyParameters(hashSize, 16, 16, memSize, oldGarlic, newGarlic, 0, blockSize, parallelism, repetitions)
        <==> VerifyParameters(hashSize, passwordSize, saltSize, memSize, oldGarlic, newGarlic, dataSize, blockSize,
                              parallelism, repetitions)
  {
  }

  /**
   * PHS: HashPassword with m_cost MiB, garlic 0, no data, 4096-byte blocks,
   * one thread and t_cost repetitions, returning 0 on success and 1 on
   * failure. inlen reaches HashPassword's uint8 password size modulo 256,
   * so only that many bytes of the password are hashed.
   */
  method Phs(raw: RawKdf, h: KeyedHash, out: array<byte>, input: seq<byte>, salt: seq<byte>, tCost: word, mCost: word)
    returns (status: int)
    requires out.Length < TWO32 && |salt| < TWO32
    modifies out
    ensures status == 0 || status == 1
    ensures var r := PasswordHash(raw, h, old(out[..]), input[..|input| % 0x100], salt, mCost, 0, [], 4096, 1,
                                  tCost, false);
      (status == 0 <==> r.0) && out[..] == r.1
    ensures !VerifyParameters(out.Length, |input| % 0x100, |salt|, mCost, 0, 0, 0, 4096, 1, tCost) ==>
            status == 1 && out[..] == old(out[..])
  {
    var passwordSize := |input| % 0x100;
    var ok := HashPassword(raw, h, out, input[..passwordSize], salt, mCost, 0, [], 4096, 1, tCost);
    status := if ok then 0 else 1;
  }

  /** A 256-byte password reaches verifyParameters as size 0, so PHS refuses it whatever the other parameters. */
  lemma PhsRefusesLongPassword(outlen: word, input: seq<byte>, saltlen: word, tCost: word, mCost: word)
    requires |input| == 256
    ensures !VerifyParameters(outlen, |input| % 0x100, saltlen, mCost, 0, 0, 0, 4096, 1, tCost)
  {
  }

  // ---------------------------------------------------------------------
  // TigerKDF of tigerkdf-sse.c as the raw KDF
  // ---------------------------------------------------------------------

  /**
   * TigerKDF as a raw KDF: with the block mixer, H, whether malloc succeeds
   * and what it returns given, it fails when the memory cannot be had, and
   * otherwise gives TigerKdfSse.TigerKdfHash. Parameters that do not meet
   * TigerKdfSse.EngineParameters, or zero repetitions, are reported as a failure
   * here.
   */
  function SseRaw(mix: TigerKdfSse.BlockMixer, h: KeyedHash, allocOk: bool, junk: nat -> word): (raw: RawKdf)
  {
    (hash: seq<byte>, memSize: word, startGarlic: byte, stopGarlic: byte, blockSize: word, parallelism: word,
     repetitions: word, skipLastHash: bool) =>
      if allocOk && TigerKdfSse.EngineParameters(|hash|, memSize, startGarlic, stopGarlic, blockSize, parallelism) &&
         repetitions >= 1
      then (true, TigerKdfSse.TigerKdfHash(mix, h, hash, memSize, startGarlic, stopGarlic, blockSize, parallelism,
                                           repetitions, skipLastHash, junk))
      else (false, hash)
  }

  /** TigerKDF rehashes last: with skipLastHash it stops just before its final H(hash, [stopGarlic]). */
  lemma SseRehashesLast(mix: TigerKdfSse.BlockMixer, h: KeyedHash, allocOk: bool, junk: nat -> word)
    ensures RehashesLast(SseRaw(mix, h, allocOk, junk), h)
  {
    var raw := SseRaw(mix, h, allocOk, junk);
    forall hash, memSize, startGarlic, stopGarlic, blockSize, parallelism, repetitions
      | raw(hash, memSize, startGarlic, stopGarlic, blockSize, parallelism, repetitions, true).0
      ensures raw(hash, memSize, startGarlic, stopGarlic, blockSize, parallelism, repetitions, false) ==
              (true, h(raw(hash, memSize, startGarlic, stopGarlic, blockSize, parallelism, repetitions, true).1,
                       [stopGarlic], |hash|))
    {
      TigerKdfSse.SkipLastHash(mix, h, hash, memSize, startGarlic, stopGarlic, blockSize, parallelism, repetitions,
                               junk);
    }
  }

  /**
   * Server relief over TigerKDF: the server's H over the client's result is
   * the hash HashPassword computes.
   */
  lemma SseServerRelief(mix: TigerKdfSse.BlockMixer, h: KeyedHash, allocOk: bool, junk: nat -> word,
                        hash: seq<byte>, password: seq<byte>, salt: seq<byte>, memSize: word, garlic: byte,
                        data: seq<byte>, blockSize: word, parallelism: word, repetitions: word)
    requires |hash| < TWO32 && |password| < 0x100 && |salt| < TWO32 && |data| < TWO32
    ensures var raw := SseRaw(mix, h, allocOk, junk);
      var client := PasswordHash(raw, h, hash, password, salt, memSize, garlic, data, blockSize, parallelism,
                                 repetitions, true);
      client.0 ==>
        PasswordHash(raw, h, hash, password, salt, memSize, garlic, data, blockSize, parallelism, repetitions, false)
        == (true, ServerHash(h, client.1, garlic))
  {
    SseRehashesLast(mix, h, allocOk, junk);
    ServerReliefMatches(SseRaw(mix, h, allocOk, junk), h, hash, password, salt, memSize, garlic, data, blockSize,
                        parallelism, repetitions);
  }

  // ---------------------------------------------------------------------
  // memSize: MiB here, KiB in tigerkdf-sse.c
  // ---------------------------------------------------------------------

  /**
   * verifyParameters reads memSize in MiB, TigerKDF in KiB. It accepts 1
   * MiB of 4096-byte blocks for one thread, but TigerKDF then has 256 words
   * of memory and no block at all per segment, so it cannot run.
   */
  lemma KiBMemoryTooSmall()
    ensures VerifyParameters(12, 1, 1, 1, 0, 0, 0, 4096, 1, 1)
    ensures TigerKdfSse.StartBlocks(1, 1024, 1, 0) == 0
    ensures !TigerKdfSse.EngineParameters(12, 1, 0, 0, 4096, 1)
  {
    Pow2Of32();
    Pow2Add(16, 4);
    Pow2Add(20, 30);
    assert Pow2(20) == 0x10_0000;
  }

  /**
   * Passed in KiB, memSize MiB gives every segment of the first level at
   * least two blocks whenever verifyParameters accepts.
   */
  lemma MiBMemoryFits(hashSize: word, passwordSize: word, saltSize: word, memSize: word, stopGarlic: byte,
                      dataSize: word, blockSize: word, parallelism: word, repetitions: word)
    requires VerifyParameters(hashSize, passwordSize, saltSize, memSize, 0, stopGarlic, dataSize, blockSize,
                              parallelism, repetitions)
    ensures TigerKdfSse.StartBlocks(1024 * memSize, blockSize / 4, parallelism, 0) >= 2
  {
    SegmentsFromMiB(memSize, blockSize, parallelism);
  }

  /** With four blocks per thread in memSize MiB, 1024 * memSize KiB cut into 2 * par segments holds two blocks each. */
  lemma SegmentsFromMiB(memSize: nat, blockSize: nat, parallelism: nat)
    requires blockSize >= 4 && blockSize % 4 == 0 && parallelism >= 1
    requires 4 * blockSize * parallelism <= memSize * 0x10_0000
    ensures TigerKdfSse.StartBlocks(1024 * memSize, blockSize / 4, parallelism, 0) >= 2
  {
    var bl := blockSize / 4;
    var d := 2 * parallelism * bl;
    var pb := parallelism * bl;
    assert 4 * blockSize * parallelism == 16 * pb by {
      assert blockSize == 4 * bl;
      MulAssoc(16, bl, parallelism);
    }
    assert d == 2 * pb by {
      MulAssoc(2, parallelism, bl);
    }
    MulMono(parallelism, 1, bl);
    DivUnique(2 * d, d, 2, 0);
    DivMonotone(2 * d, 0x40000 * memSize, d);
    assert TigerKdfSse.StartBlocks(1024 * memSize, bl, parallelism, 0) == 0x40000 * memSize / d;
  }
}
