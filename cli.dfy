/**
 * The command-line front end of NoelKDF (main.c): the upper-case base16 codec
 * (section 8 of RFC 4648) used for the salt argument and for the printed key,
 * which also accepts lower-case digits on input, and the bounds the tool puts
 * on its parameters before it derives a key.
 */
module HexCli {
  import opened Words

  /** C's toupper in the "C" locale: only 'a' .. 'z' change. */
  function ToUpper(c: char): char
  {
    if 'a' <= c <= 'z' then (c as int - 32) as char else c
  }

  /** The value of one hex digit of either case, as readHexByte decodes it; None for any other character. */
  function DigitValue(c: char): (v: Option<nat>)
    ensures v.Some? <==> '0' <= c <= '9' || 'A' <= c <= 'F' || 'a' <= c <= 'f'
    ensures v.Some? ==> v.value < 16
  {
    var u := ToUpper(c);
    if '0' <= u <= '9' then Some(u as int - '0' as int)
    else if 'A' <= u <= 'F' then Some(u as int - 'A' as int + 10)
    else None
  }

  /** findHexDigit: the digit printHex emits for a nibble, upper case for 10 .. 15. */
  function FindHexDigit(value: byte): (c: char)
    ensures value <= 9 ==> '0' <= c <= '9'
    ensures 10 <= value <= 15 ==> 'A' <= c <= 'F'
    ensures value < 16 ==> DigitValue(c) == Some(value)
  {
    if value <= 9 then ('0' as int + value) as char else ('A' as int + value - 10) as char
  }

  /** A digit of either case is the upper-case digit of its own value. */
  lemma DigitOfValue(c: char)
    requires DigitValue(c).Some?
    ensures FindHexDigit(DigitValue(c).value) == ToUpper(c)
  {
  }

  /** The byte two hex digits denote, high nibble first; None when either is not a hex digit. */
  function PairValue(hi: char, lo: char): Option<byte>
  {
    match (DigitValue(hi), DigitValue(lo))
    case (Some(h), Some(l)) => Some(h * 16 + l)
    case _ => None
  }

  /**
   * readHexByte(dest, value): decodes the two characters at value into
   * dest[at]; on a character that is not a hex digit it returns false and
   * leaves dest as it was.
   */
  method ReadHexByte(dest: array<byte>, at: nat, hi: char, lo: char) returns (ok: bool)
    requires at < dest.Length
    modifies dest
    ensures ok <==> PairValue(hi, lo).Some?
    ensures ok ==> dest[..] == old(dest[..])[at := PairValue(hi, lo).value]
    ensures !ok ==> dest[..] == old(dest[..])
  {
    var c := ToUpper(hi);
    var b: nat;
    if '0' <= c <= '9' {
      b := c as int - '0' as int;
    } else if 'A' <= c <= 'F' {
      b := c as int - 'A' as int + 10;
    } else {
      return false;
    }
    b := b * 16;
    c := ToUpper(lo);
    // the low nibble of b is 0 here, so `|=` adds
    if '0' <= c <= '9' {
      b := b + (c as int - '0' as int);
    } else if 'A' <= c <= 'F' {
      b := b + (c as int - 'A' as int + 10);
    } else {
      return false;
    }
    dest[at] := b;
    return true;
  }

  /** The two characters printHex emits for one byte, high nibble first. */
  function HexPair(b: byte): seq<char>
  {
    [FindHexDigit(b / 16), FindHexDigit(b % 16)]
  }

  /** Everything printHex emits for a byte string. */
  function HexEncode(bs: seq<byte>): (s: seq<char>)
    ensures |s| == 2 * |bs|
  {
    if |bs| == 0 then [] else HexPair(bs[0]) + HexEncode(bs[1..])
  }

  /** printHex: the characters it writes, returned instead of sent to standard output. */
  method PrintHex(values: seq<byte>) returns (out: seq<char>)
    requires |values| < TWO32
    ensures out == HexEncode(values)
  {
    out := [];
    var i: nat := 0;
    while i != |values|
      invariant i <= |values|
      invariant out + HexEncode(values[i..]) == HexEncode(values)
    {
      assert HexEncode(values[i..]) == HexPair(values[i]) + HexEncode(values[i + 1..]);
      out := out + HexPair(values[i]);
      i := i + 1;
    }
  }

  /** The bytes readHexSalt decodes from text: pair after pair, up to the first pair that is not hex. */
  function DecodedPrefix(text: seq<char>): (bs: seq<byte>)
    ensures 2 * |bs| <= |text|
  {
    if |text| < 2 then []
    else match PairValue(text[0], text[1])
      case None => []
      case Some(b) => [b] + DecodedPrefix(text[2..])
  }

  /** DecodedPrefix holds the value of every pair before it stops, and it stops only at a pair that is not hex. */
  lemma {:induction false} DecodedPrefixPairs(text: seq<char>, k: nat)
    ensures var bs := DecodedPrefix(text);
      k < |bs| ==> PairValue(text[2 * k], text[2 * k + 1]) == Some(bs[k])
    ensures var bs := DecodedPrefix(text);
      k == |bs| && 2 * k + 2 <= |text| ==> PairValue(text[2 * k], text[2 * k + 1]).None?
  {
    if |text| >= 2 && PairValue(text[0], text[1]).Some? && k > 0 {
      DecodedPrefixPairs(text[2..], k - 1);
    }
  }

  /** Reading back what printHex writes gives the bytes back: hex decoding inverts hex encoding. */
  lemma {:induction false} DecodeEncode(bs: seq<byte>)
    ensures DecodedPrefix(HexEncode(bs)) == bs
  {
    if |bs| > 0 {
      var s := HexEncode(bs);
      var b := bs[0];
      assert s[0] == FindHexDigit(b / 16) && s[1] == FindHexDigit(b % 16);
      assert PairValue(s[0], s[1]) == Some(b);
      assert s[2..] == HexEncode(bs[1..]);
      DecodeEncode(bs[1..]);
    }
  }

  /**
   * readHexSalt: an odd number of digits is refused (the tool stops with its
   * usage message, modelled as null); otherwise a salt of |text| / 2 bytes is
   * allocated and filled pair by pair, stopping at the first pair that is not
   * hex. Bytes after that point keep what the allocator left in them (junk).
   */
  method ReadHexSalt(text: seq<char>, junk: seq<byte>) returns (salt: array?<byte>)
    requires |text| < TWO32 && |junk| == |text| / 2
    ensures salt == null <==> |text| % 2 == 1
    ensures salt != null ==> fresh(salt) && salt.Length == |text| / 2
    ensures salt != null ==>
      var bs := DecodedPrefix(text);
      salt[..] == bs + junk[|bs|..]
  {
    if |text| % 2 == 1 {
      return null;
    }
    var a := new byte[|text| / 2](i requires 0 <= i < |text| / 2 => junk[i]);
    ghost var bs := DecodedPrefix(text);
    var i: nat := 0;
    while i < a.Length
      invariant i <= |bs| && a.Length == |text| / 2
      invariant a[..] == bs[..i] + junk[i..]
    {
      DecodedPrefixPairs(text, i);
      var ok := ReadHexByte(a, i, text[2 * i], text[2 * i + 1]);
      if !ok {
        break;
      }
      i := i + 1;
      assert a[..] == bs[..i] + junk[i..] by {
        assert forall k :: 0 <= k < a.Length ==> a[k] == (bs[..i] + junk[i..])[k];
      }
    }
    assert i == |bs|;
    return a;
  }

  /** A number is a power of two when it is 2^k for some k. */
  ghost predicate IsPowerOfTwo(x: nat)
  {
    exists k: nat :: Pow2(k) == x
  }

  /** An odd number times 2^s is a power of two only when the odd number is 1. */
  lemma {:induction false} OddPartOfPowerOfTwo(p: nat, s: nat, k: nat)
    requires p % 2 == 1 && Pow2(k) == p * Pow2(s)
    ensures p == 1
  {
    if s == 0 {
      Pow2Parity(k);
    } else {
      assert p * Pow2(s) == 2 * (p * Pow2(s - 1));
      Pow2Parity(k);
      assert Pow2(k) == 2 * Pow2(k - 1);
      OddPartOfPowerOfTwo(p, s - 1, k - 1);
    }
  }

  /** 2^k is even for k > 0 (and 1 for k = 0). */
  lemma Pow2Parity(k: nat)
    ensures k == 0 ==> Pow2(k) == 1
    ensures k > 0 ==> Pow2(k) % 2 == 0
  {
    if k > 0 {
      assert Pow2(k) == 2 * Pow2(k - 1);
    }
  }

  /**
   * verifyParameters of the command-line tool: each check that fails stops the
   * tool with its usage message (modelled as false). page_size must be a
   * power of two; the loop that strips its trailing zero bits ends because
   * page_size >= 1 is checked before it.
   */
  method VerifyParameters(garlic: word, memorySize: nat, derivedKeySize: word, saltSize: word,
                          passwordSize: word, numHashRounds: word, repeatCount: word, numThreads: word,
                          pageSize: word)
    returns (ok: bool)
    requires memorySize < TWO64
    ensures ok <==>
      garlic <= 16 && 1 <= memorySize <= 0x10_0000 && 8 <= derivedKeySize <= 0x10_0000 &&
      4 <= saltSize <= 0x1_0000 && passwordSize != 0 && numHashRounds >= 1 && repeatCount >= 1 &&
      numThreads >= 1 && IsPowerOfTwo(pageSize)
  {
    if garlic > 16 || memorySize > 0x10_0000 || memorySize < 1 || derivedKeySize < 8 ||
       derivedKeySize > 0x10_0000 || saltSize > 0x1_0000 || saltSize < 4 || passwordSize == 0 ||
       numHashRounds < 1 || pageSize < 1 || repeatCount < 1 || numThreads < 1 {
      return false;
    }
    var p: nat := pageSize;
    ghost var s: nat := 0;
    while p % 2 == 0
      invariant p >= 1 && pageSize == p * Pow2(s)
      decreases p
    {
      p := p / 2;
      s := s + 1;
      assert Pow2(s) == 2 * Pow2(s - 1);
    }
    ok := p == 1;
    if p != 1 && IsPowerOfTwo(pageSize) {
      var k: nat :| Pow2(k) == pageSize;
      OddPartOfPowerOfTwo(p, s, k);
    }
  }
}
