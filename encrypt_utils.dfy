/**
 * `EncryptUtils`: the MD5 keystream cipher actually used for class payloads, the
 * hex rendering of digests, the AES/RSA dispatch with its key derivation, the RSA
 * chunking loop and the random password characters. MD5, AES and RSA themselves
 * are collaborators passed in as functions.
 */
module EncryptUtils {
  import opened Wrappers
  import opened Seqs
  import opened Bytes
  import StrUtils
  import IoUtils

  /** An MD5 digest: 16 bytes (RFC 1321). */
  type Digest = d: seq<Byte> | |d| == 16 witness seq(16, k => 0 as Byte)

  /** Index into the random alphabet, as `nextInt(77)` returns. */
  type Draw = k: nat | k < 77

  datatype EncryptType = MD5 | AES | RSA

  datatype CipherMode = Encrypt | Decrypt

  /**
   * The foreign cryptography: `md5` digests the UTF-8 bytes of a string;
   * `aes(mode, key, msg)` is an AES/ECB/PKCS5 `doFinal`; `rsaKey(mode, key)` says
   * whether the Base64/X.509 (or PKCS#8) key decoding succeeds and
   * `rsa(mode, key, block)` is one RSA `doFinal`. A failure (a
   * GeneralSecurityException in Java) is `None`.
   */
  datatype Crypto = Crypto(
    md5: string -> Digest,
    aes: (CipherMode, seq<Byte>, seq<Byte>) -> Option<seq<Byte>>,
    rsaKey: (CipherMode, seq<Byte>) -> bool,
    rsa: (CipherMode, seq<Byte>, seq<Byte>) -> Option<seq<Byte>>)

  const SALT: string := "com.hz.classFinal"
  /** "0123456789abcdef". */
  const HEX_DIGITS: seq<char> := CharRange('0', 10) + CharRange('a', 6)
  const KEY_LENGTH: nat := 1024

  /** `n` consecutive characters starting at `first`. */
  function CharRange(first: char, n: nat): (r: seq<char>)
    requires first as int + n <= 128
    ensures |r| == n && forall i :: 0 <= i < n ==> r[i] as int == first as int + i
  {
    seq(n, i requires 0 <= i < n => (first as int + i) as char)
  }

  const SYMBOLS: seq<char> := ['!', '@', '#', '$', '%', '^', '&', '*', '(', ')', '-', '=', '_', '+', '.']

  /** The 77 characters `randomChars` draws from: '0'..'9', 'A'..'Z', 'a'..'z', then `SYMBOLS`. */
  const CHARS: seq<char> := CharRange('0', 10) + CharRange('A', 26) + CharRange('a', 26) + SYMBOLS

  // ---------------------------------------------------------------- MD5 keystream

  /** The 32-byte keystream: md5(key ‖ SALT) followed by md5(SALT ‖ key). */
  function Keystream(md5: string -> Digest, key: string): (ks: seq<Byte>)
    ensures |ks| == 32
    ensures ks[..16] == md5(key + SALT) && ks[16..] == md5(SALT + key)
  {
    md5(key + SALT) + md5(SALT + key)
  }

  /** Byte i of the result is byte i of `msg` XOR byte `i mod |ks|` of the keystream. */
  function Xor(msg: seq<Byte>, ks: seq<Byte>): (r: seq<Byte>)
    requires |ks| > 0
    ensures |r| == |msg|
  {
    seq(|msg|, i requires 0 <= i < |msg| => msg[i] ^ ks[i % |ks|])
  }

  /** The MD5-mode transformation of `msg` under `key`. */
  function XorMd5(md5: string -> Digest, msg: seq<Byte>, key: string): (r: seq<Byte>)
    ensures |r| == |msg|
    ensures forall i :: 0 <= i < |msg| ==> r[i] == msg[i] ^ Keystream(md5, key)[i % 32]
  {
    Xor(msg, Keystream(md5, key))
  }

  /** XOR with a fixed keystream undoes itself. */
  lemma XorInvolution(msg: seq<Byte>, ks: seq<Byte>)
    requires |ks| > 0
    ensures Xor(Xor(msg, ks), ks) == msg
  {
    var once := Xor(msg, ks);
    forall i | 0 <= i < |msg| ensures Xor(once, ks)[i] == msg[i] {
      assert once[i] == msg[i] ^ ks[i % |ks|];
    }
  }

  /** Applying the MD5 mode twice with the same key gives back the message. */
  lemma XorMd5Involution(md5: string -> Digest, msg: seq<Byte>, key: string)
    ensures XorMd5(md5, XorMd5(md5, msg, key), key) == msg
  {
    XorInvolution(msg, Keystream(md5, key));
  }

  /**
   * The keystream array `xorMd5byte` builds: `md5byte(merger(key, SALT))` and
   * `md5byte(merger(SALT, key))` joined by `IoUtils.merger`.
   */
  method Keys(md5: string -> Digest, key: string) returns (keys: array<Byte>)
    ensures fresh(keys)
    ensures keys[..] == Keystream(md5, key)
  {
    var keySalt := StrUtils.Merger([key, SALT]);
    var saltKey := StrUtils.Merger([SALT, key]);
    assert keySalt == key + SALT by { FlattenSmall([key]); FlattenSnoc([key], SALT); }
    assert saltKey == SALT + key by { FlattenSmall([SALT]); FlattenSnoc([SALT], key); }
    var d1 := md5(keySalt);
    var d2 := md5(saltKey);
    var bs1 := new Byte[16](i requires 0 <= i < 16 => d1[i]);
    var bs2 := new Byte[16](i requires 0 <= i < 16 => d2[i]);
    assert bs1[..] == d1 && bs2[..] == d2;
    keys := IoUtils.Merger([bs1, bs2]);
    FlattenSmall([d1]);
    FlattenSnoc([d1], d2);
  }

  /**
   * `xorMd5byte(msg, start, end, key)`: XORs `msg[start..end]` in place with the
   * keystream (byte i with keystream byte `i % 32`) and returns `msg` itself.
   */
  method XorMd5Byte(md5: string -> Digest, msg: array<Byte>, start: nat, end: nat, key: string)
    returns (r: array<Byte>)
    requires start <= end <= msg.Length
    modifies msg
    ensures r == msg
    ensures forall k :: 0 <= k < msg.Length ==>
      msg[k] == if start <= k < end then XorMd5(md5, old(msg[..]), key)[k] else old(msg[k])
    ensures start == 0 && end == msg.Length ==> msg[..] == XorMd5(md5, old(msg[..]), key)
  {
    var keys := Keys(md5, key);
    ghost var ks := Keystream(md5, key);
    ghost var m := msg[..];
    for i := start to end
      invariant keys[..] == ks
      invariant forall k :: 0 <= k < msg.Length ==>
        msg[k] == if start <= k < i then m[k] ^ ks[k % 32] else m[k]
    {
      msg[i] := msg[i] ^ keys[i % keys.Length];
    }
    r := msg;
  }

  // ---------------------------------------------------------------- hex digests

  /** `HEX_DIGITS[b]` for a nibble `b`. */
  function HexDigit(b: bv8): char
    requires b < 16
  {
    HEX_DIGITS[b as int]
  }

  /** `(b >> 4) & 0xF` on a Java byte: the high four bits. */
  function High(b: Byte): (n: bv8)
    ensures n < 16
  {
    (b >> 4) & 0xF
  }

  /** `b & 0xF`: the low four bits. */
  function Low(b: Byte): (n: bv8)
    ensures n < 16
  {
    b & 0xF
  }

  /** Hex char `k` of a rendering: the high nibble of byte `k / 2` for even `k`, the low one for odd. */
  function HexChar(bytes: seq<Byte>, k: nat): char
    requires k < 2 * |bytes|
  {
    if k % 2 == 0 then HexDigit(High(bytes[k / 2])) else HexDigit(Low(bytes[k / 2]))
  }

  /** Two lower-case hex chars per byte, high nibble first. */
  function Hex(bytes: seq<Byte>): (s: string)
    ensures |s| == 2 * |bytes|
  {
    seq(2 * |bytes|, k requires 0 <= k < 2 * |bytes| => HexChar(bytes, k))
  }

  /** The value of one of `HEX_DIGITS`. */
  function HexValue(c: char): (v: bv8)
    ensures v < 16
  {
    if '0' <= c <= '9' then (c as int - '0' as int) as bv8
    else if 'a' <= c <= 'f' then (c as int - 'a' as int + 10) as bv8
    else 0
  }

  /** The byte with the given high and low nibbles. */
  function Nibbles(hi: bv8, lo: bv8): Byte
  {
    (hi << 4) | lo
  }

  /** Reads a hex string back into bytes. */
  function Unhex(s: string): (b: seq<Byte>)
    ensures |b| == |s| / 2
  {
    seq(|s| / 2, i requires 0 <= i < |s| / 2 => Nibbles(HexValue(s[2 * i]), HexValue(s[2 * i + 1])))
  }

  lemma HexDigitValue(b: bv8)
    requires b < 16
    ensures HexValue(HexDigit(b)) == b
  {
    if b < 10 {
      assert HexDigit(b) as int == '0' as int + b as int;
    } else {
      assert HexDigit(b) as int == 'a' as int + b as int - 10;
    }
  }

  lemma NibblesJoin(b: Byte)
    ensures Nibbles(High(b), Low(b)) == b
  {
  }

  lemma UnhexByte(b: Byte)
    ensures Nibbles(HexValue(HexDigit(High(b))), HexValue(HexDigit(Low(b)))) == b
  {
    HexDigitValue(High(b));
    HexDigitValue(Low(b));
    NibblesJoin(b);
  }

  lemma HexAt(bytes: seq<Byte>, i: nat)
    requires i < |bytes|
    ensures Hex(bytes)[2 * i] == HexDigit(High(bytes[i]))
    ensures Hex(bytes)[2 * i + 1] == HexDigit(Low(bytes[i]))
  {
    assert (2 * i) % 2 == 0 && (2 * i) / 2 == i;
    assert (2 * i + 1) % 2 == 1 && (2 * i + 1) / 2 == i;
  }

  /** The hex rendering loses nothing: it reads back to the same bytes. */
  lemma UnhexHex(bytes: seq<Byte>)
    ensures Unhex(Hex(bytes)) == bytes
  {
    var s := Hex(bytes);
    assert |s| / 2 == |bytes|;
    forall i | 0 <= i < |bytes| ensures Unhex(s)[i] == bytes[i] {
      HexAt(bytes, i);
      UnhexByte(bytes[i]);
    }
  }

  /** Every char of a hex rendering is a lower-case hex digit. */
  lemma HexDigitsOnly(bytes: seq<Byte>)
    ensures forall k :: 0 <= k < |Hex(bytes)| ==> Hex(bytes)[k] in HEX_DIGITS
  {
  }

  /** The digest bytes `md5(str, small)` renders: all 16, or bytes 8..15. */
  function Md5Slice(md5: string -> Digest, str: string, small: bool): (b: seq<Byte>)
    ensures |b| == if small then 8 else 16
  {
    if small then md5(str)[8..16] else md5(str)
  }

  /** What `md5(str, small)` returns: 32 hex chars, or 16 when `small`. */
  function Md5Hex(md5: string -> Digest, str: string, small: bool): (r: string)
    ensures |r| == if small then 16 else 32
    ensures Unhex(r) == Md5Slice(md5, str, small)
  {
    UnhexHex(Md5Slice(md5, str, small));
    Hex(Md5Slice(md5, str, small))
  }

  /** Two full digests render alike exactly when they are the same digest. */
  lemma Md5HexInjective(md5: string -> Digest, x: string, y: string)
    ensures Md5Hex(md5, x, false) == Md5Hex(md5, y, false) <==> md5(x) == md5(y)
  {
    if Md5Hex(md5, x, false) == Md5Hex(md5, y, false) {
      assert Md5Slice(md5, x, false) == Unhex(Md5Hex(md5, x, false)) == Unhex(Md5Hex(md5, y, false)) == Md5Slice(md5, y, false);
    }
  }

  /** `md5(str, small)`: fills `result[2i]`, `result[2i+1]` with the nibbles of byte `begin + i`. */
  method Md5(md5: string -> Digest, str: string, small: bool) returns (r: string)
    ensures r == Md5Hex(md5, str, small)
    ensures |r| == if small then 16 else 32
    ensures forall k :: 0 <= k < |r| ==> r[k] in HEX_DIGITS
  {
    var bytes := md5(str);
    var begin := if small then 8 else 0;
    var end := if small then 16 else |bytes|;
    var len := end - begin;
    ghost var slice := Md5Slice(md5, str, small);
    assert slice == bytes[begin..end];
    var result := new char[len * 2];
    assert len == |slice| && result.Length == 2 * len;
    for i := 0 to len
      invariant forall k :: 0 <= k < 2 * i ==> result[k] == Hex(slice)[k]
    {
      var b := bytes[begin + i];
      assert b == slice[i] && i * 2 + 1 < result.Length;
      HexAt(slice, i);
      result[i * 2] := HEX_DIGITS[High(b)];
      result[i * 2 + 1] := HEX_DIGITS[Low(b)];
    }
    r := result[..];
    assert r == Hex(slice);
    HexDigitsOnly(slice);
  }

  /** Hex text is ASCII, so its UTF-8 bytes are one per char. */
  lemma Md5HexIsAscii(md5: string -> Digest, str: string, small: bool)
    ensures IsAscii(Md5Hex(md5, str, small))
  {
    HexDigitsOnly(Md5Slice(md5, str, small));
  }

  // ---------------------------------------------------------------- RSA chunking

  /** Block size of one `doFinal`: 117 bytes in (PKCS#1 v1.5 padding, section 7.2.1 of RFC 8017) or 128 out. */
  function BlockLength(mode: CipherMode): (n: nat)
    ensures n == if mode == Encrypt then 117 else 128
  {
    if mode == Encrypt then KEY_LENGTH / 8 - 11 else KEY_LENGTH / 8
  }

  function Min(a: int, b: int): int { if a <= b then a else b }

  /** The consecutive blocks of `msg` from `start` on: all `n` long except a shorter last one. */
  function ChunksFrom(msg: seq<Byte>, n: nat, start: nat): seq<seq<Byte>>
    requires n > 0
    decreases |msg| - start
  {
    if start >= |msg| then []
    else [msg[start..Min(start + n, |msg|)]] + ChunksFrom(msg, n, start + n)
  }

  function Chunks(msg: seq<Byte>, n: nat): seq<seq<Byte>>
    requires n > 0
  {
    ChunksFrom(msg, n, 0)
  }

  /** Prefixes the output of earlier blocks to the output of the rest, if the rest succeeded. */
  function Prepend(out: seq<Byte>, rest: Option<seq<Byte>>): Option<seq<Byte>>
  {
    if rest.None? then None else Some(out + rest.value)
  }

  /** One `doFinal` per block, outputs concatenated in order; the first failure fails the whole call. */
  function DoFinalAll(doFinal: seq<Byte> -> Option<seq<Byte>>, chunks: seq<seq<Byte>>): Option<seq<Byte>>
  {
    if chunks == [] then Some([])
    else
      var first := doFinal(chunks[0]);
      if first.None? then None else Prepend(first.value, DoFinalAll(doFinal, chunks[1..]))
  }

  /** The blocks partition the message: concatenated, they are the message from `start` on. */
  lemma {:induction false} ChunksFromFlatten(msg: seq<Byte>, n: nat, start: nat)
    requires n > 0 && start <= |msg|
    ensures Flatten(ChunksFrom(msg, n, start)) == msg[start..]
    decreases |msg| - start
  {
    if start < |msg| {
      var e := Min(start + n, |msg|);
      var rest := ChunksFrom(msg, n, start + n);
      if start + n <= |msg| {
        ChunksFromFlatten(msg, n, start + n);
      } else {
        assert rest == [];
      }
      assert Flatten(rest) == msg[e..];
      FlattenCons(msg[start..e], rest);
      assert msg[start..] == msg[start..e] + msg[e..];
    }
  }

  /** Every block holds between one and `n` bytes, and all but the last exactly `n`. */
  lemma {:induction false} ChunksFromSizes(msg: seq<Byte>, n: nat, start: nat)
    requires n > 0
    ensures forall j :: 0 <= j < |ChunksFrom(msg, n, start)| ==> 0 < |ChunksFrom(msg, n, start)[j]| <= n
    ensures forall j :: 0 <= j < |ChunksFrom(msg, n, start)| - 1 ==> |ChunksFrom(msg, n, start)[j]| == n
    decreases |msg| - start
  {
    if start < |msg| {
      var cs := ChunksFrom(msg, n, start);
      var rest := ChunksFrom(msg, n, start + n);
      ChunksFromSizes(msg, n, start + n);
      assert cs == [msg[start..Min(start + n, |msg|)]] + rest;
      assert forall j :: 1 <= j < |cs| ==> cs[j] == rest[j - 1];
      if start + n < |msg| {
        assert rest != [];
      }
    }
  }


  /** `Chunks` splits the message into blocks of `n`, the last one possibly shorter. */
  lemma ChunksPartition(msg: seq<Byte>, n: nat)
    requires n > 0
    ensures Flatten(Chunks(msg, n)) == msg
    ensures forall j :: 0 <= j < |Chunks(msg, n)| ==> 0 < |Chunks(msg, n)[j]| <= n
    ensures forall j :: 0 <= j < |Chunks(msg, n)| - 1 ==> |Chunks(msg, n)[j]| == n
    ensures msg == [] <==> Chunks(msg, n) == []
  {
    ChunksFromFlatten(msg, n, 0);
    ChunksFromSizes(msg, n, 0);
    assert msg[0..] == msg;
  }

  /** The result of `cipherDoFinal`: one `doFinal` per block of `BlockLength(mode)`. */
  function ChunkedDoFinal(doFinal: seq<Byte> -> Option<seq<Byte>>, msg: seq<Byte>, mode: CipherMode): Option<seq<Byte>>
  {
    DoFinalAll(doFinal, Chunks(msg, BlockLength(mode)))
  }

  lemma PrependAssoc(a: seq<Byte>, b: seq<Byte>, rest: Option<seq<Byte>>)
    ensures Prepend(a, Prepend(b, rest)) == Prepend(a + b, rest)
  {
    if rest.Some? {
      assert a + (b + rest.value) == (a + b) + rest.value;
    }
  }

  lemma PrependEmpty(rest: Option<seq<Byte>>)
    ensures Prepend([], rest) == rest
  {
    if rest.Some? {
      assert [] + rest.value == rest.value;
    }
  }

  /** `(c * n + p) % n == p` for `0 <= p < n`. */
  lemma Mod117(start: nat, p: nat)
    requires start % 117 == 0 && p < 117
    ensures (start + p) % 117 == p
    ensures (start + 117) % 117 == 0
  {
  }

  lemma Mod128(start: nat, p: nat)
    requires start % 128 == 0 && p < 128
    ensures (start + p) % 128 == p
    ensures (start + 128) % 128 == 0
  {
  }

  /** Within a block that starts at a multiple of the block size, `i % n` is the offset in the block. */
  lemma BlockPosition(start: nat, n: nat, i: nat)
    requires n == 117 || n == 128
    requires start % n == 0 && start <= i < start + n
    ensures i % n == i - start
    ensures i + 1 == start + n ==> (i + 1) % n == 0
  {
    if n == 117 {
      Mod117(start, i - start);
      Mod117(start, 0);
    } else {
      Mod128(start, i - start);
      Mod128(start, 0);
    }
  }

  /**
   * `cipherDoFinal(cipher, msg, mode)`: copies `msg` byte by byte into the block
   * buffer `in`, which is reallocated once at the start of a short last block,
   * and hands `in` to `doFinal` when a block is full or the message ends.
   */
  method CipherDoFinal(doFinal: seq<Byte> -> Option<seq<Byte>>, msg: seq<Byte>, mode: CipherMode)
    returns (r: Option<seq<Byte>>)
    ensures r == ChunkedDoFinal(doFinal, msg, mode)
  {
    var length := if mode == Encrypt then KEY_LENGTH / 8 - 11 else KEY_LENGTH / 8;
    var block := new Byte[length];
    var out: seq<Byte> := [];
    ghost var start: nat := 0;
    ghost var total := ChunksFromResult(doFinal, msg, length, 0);
    assert total == ChunkedDoFinal(doFinal, msg, mode);
    PrependEmpty(total);
    for i := 0 to |msg|
      invariant fresh(block)
      invariant BlockState(block[..], msg, length, start, i)
      invariant total == Prepend(out, ChunksFromResult(doFinal, msg, length, start))
    {
      var flush;
      ghost var next;
      block, flush, next := LoadByte(block, msg, length, start, i);
      if flush {
        var res := doFinal(block[..]);
        FlushStep(doFinal, msg, length, start, i + 1, out, total);
        if res.None? {
          return None;
        }
        out := out + res.value;
      }
      start := next;
    }
    assert out + [] == out;
    r := Some(out);
  }

  /**
   * One turn of the `cipherDoFinal` loop up to the `doFinal` call: `in` is
   * reallocated at the start of a short last block, byte `i` is stored at
   * `i % length`, and `flush` tells whether the block is complete.
   */
  method LoadByte(block: array<Byte>, msg: seq<Byte>, length: nat, ghost start: nat, i: nat)
    returns (buffer: array<Byte>, flush: bool, ghost next: nat)
    requires length == 117 || length == 128
    requires BlockState(block[..], msg, length, start, i) && i < |msg|
    modifies block
    ensures buffer == block || fresh(buffer)
    ensures flush ==> buffer[..] == msg[start..i + 1] && i + 1 == Min(start + length, |msg|)
    ensures next == if flush then i + 1 else start
    ensures BlockState(buffer[..], msg, length, next, i + 1)
  {
    ghost var b0 := block[..];
    BlockPosition(start, length, i);
    var k := i % length;
    buffer := block;
    if |msg| - i < length && k == 0 {
      buffer := new Byte[|msg| - i];
    }
    BlockSlot(b0, buffer[..], msg, length, start, i);
    ghost var b1 := buffer[..];
    buffer[k] := msg[i];
    assert buffer[..] == b1[i - start := msg[i]];
    flush := i == |msg| - 1 || k + 1 == length;
    BlockStep(b1, msg, length, start, i, flush);
    next := if flush then i + 1 else start;
  }

  /**
   * What the buffer `in` holds before byte `i` is copied: the bytes of the current
   * block read so far, the block starting at `start`; its length is the block
   * size, or the length of the short last block once that one has begun.
   */
  predicate BlockState(b: seq<Byte>, msg: seq<Byte>, n: nat, start: nat, i: nat)
  {
    && n > 0 && start <= i <= |msg| && i - start < n
    && (start < |msg| ==> start % n == 0)
    && (i > start ==> |b| == Min(start + n, |msg|) - start)
    && (i == start < |msg| ==> |b| == n)
    && (i == |msg| ==> start == i)
    && i - start <= |b| && b[..i - start] == msg[start..i]
  }

  /** The slot `i % n` exists in the buffer, reallocated or not. */
  lemma BlockSlot(b0: seq<Byte>, b1: seq<Byte>, msg: seq<Byte>, n: nat, start: nat, i: nat)
    requires n == 117 || n == 128
    requires BlockState(b0, msg, n, start, i) && i < |msg|
    requires i % n == i - start
    requires if |msg| - i < n && i % n == 0 then |b1| == |msg| - i else b1 == b0
    ensures i - start < |b1| && b1[..i - start] == msg[start..i]
    ensures |msg| - i < n && i % n == 0 ==> i == start
  {
  }

  /** After byte `i` is stored, the buffer holds the block read so far, or the complete block at a flush. */
  lemma BlockStep(b1: seq<Byte>, msg: seq<Byte>, n: nat, start: nat, i: nat, flush: bool)
    requires n == 117 || n == 128
    requires start % n == 0 && start <= i < |msg| && i - start < n && i % n == i - start
    requires i - start < |b1| && b1[..i - start] == msg[start..i]
    requires |b1| == Min(start + n, |msg|) - start
    requires flush == (i == |msg| - 1 || i % n + 1 == n)
    ensures flush ==> b1[i - start := msg[i]] == msg[start..i + 1] && i + 1 == Min(start + n, |msg|)
    ensures flush ==> BlockState(b1[i - start := msg[i]], msg, n, i + 1, i + 1)
    ensures !flush ==> BlockState(b1[i - start := msg[i]], msg, n, start, i + 1)
  {
    var b2 := b1[i - start := msg[i]];
    assert b2[..i + 1 - start] == msg[start..i + 1] by {
      assert b2[..i + 1 - start] == b1[..i - start] + [msg[i]];
      assert msg[start..i + 1] == msg[start..i] + [msg[i]];
    }
    if flush {
      BlockPosition(start, n, i);
      assert b2 == b2[..i + 1 - start];
    }
  }

  /** One block step of `DoFinalAll`: the block `msg[start..e]`, then the blocks from `e` on. */
  lemma ChunkStep(doFinal: seq<Byte> -> Option<seq<Byte>>, msg: seq<Byte>, n: nat, start: nat, e: nat)
    requires n > 0 && start < |msg| && e == Min(start + n, |msg|)
    ensures var first := doFinal(msg[start..e]);
      ChunksFromResult(doFinal, msg, n, start) ==
        if first.None? then None else Prepend(first.value, ChunksFromResult(doFinal, msg, n, e))
  {
    var cs := ChunksFrom(msg, n, start);
    assert cs == [msg[start..e]] + ChunksFrom(msg, n, start + n);
    assert cs[1..] == ChunksFrom(msg, n, start + n);
    if e < start + n {
      assert ChunksFrom(msg, n, start + n) == [] == ChunksFrom(msg, n, e);
    }
  }

  /** A flush hands the block `msg[start..e]` to `doFinal`: its failure is the result, its output extends `out`. */
  lemma FlushStep(doFinal: seq<Byte> -> Option<seq<Byte>>, msg: seq<Byte>, n: nat, start: nat, e: nat,
                  out: seq<Byte>, total: Option<seq<Byte>>)
    requires n > 0 && start < |msg| && e == Min(start + n, |msg|)
    requires total == Prepend(out, ChunksFromResult(doFinal, msg, n, start))
    ensures doFinal(msg[start..e]).None? ==> total == None
    ensures doFinal(msg[start..e]).Some? ==>
      total == Prepend(out + doFinal(msg[start..e]).value, ChunksFromResult(doFinal, msg, n, e))
  {
    ChunkStep(doFinal, msg, n, start, e);
    if doFinal(msg[start..e]).Some? {
      PrependAssoc(out, doFinal(msg[start..e]).value, ChunksFromResult(doFinal, msg, n, e));
    }
  }

  /** `DoFinalAll` over the blocks from `start` on. */
  function ChunksFromResult(doFinal: seq<Byte> -> Option<seq<Byte>>, msg: seq<Byte>, n: nat, start: nat): Option<seq<Byte>>
    requires n > 0
  {
    DoFinalAll(doFinal, ChunksFrom(msg, n, start))
  }

  // ---------------------------------------------------------------- dispatch

  /** The key material of the AES and RSA modes: the UTF-8 bytes of the 16-char md5(key ‖ SALT). */
  function DerivedKey(md5: string -> Digest, key: string): (k: seq<Byte>)
    ensures |k| == 16
  {
    AsciiBytes(Md5Hex(md5, key + SALT, true))
  }

  /** `enRSA`/`deRSA`: key decoding, then the chunked `doFinal`. */
  function RsaCipher(crypto: Crypto, msg: seq<Byte>, key: seq<Byte>, mode: CipherMode): Option<seq<Byte>>
  {
    if !crypto.rsaKey(mode, key) then None
    else ChunkedDoFinal(b => crypto.rsa(mode, key, b), msg, mode)
  }

  /** `encryption(msg, key, type)`; `None` is a GeneralSecurityException. */
  function Encryption(crypto: Crypto, msg: seq<Byte>, key: string, t: EncryptType): (r: Option<seq<Byte>>)
    ensures t == MD5 ==> r == Some(XorMd5(crypto.md5, msg, key))
  {
    match t
    case MD5 => Some(XorMd5(crypto.md5, msg, key))
    case AES => crypto.aes(Encrypt, msg, DerivedKey(crypto.md5, key))
    case RSA => RsaCipher(crypto, msg, DerivedKey(crypto.md5, key), Encrypt)
  }

  /** `decryption(msg, key, type)`; `None` is a GeneralSecurityException. */
  function Decryption(crypto: Crypto, msg: seq<Byte>, key: string, t: EncryptType): (r: Option<seq<Byte>>)
    ensures t == MD5 ==> r == Some(XorMd5(crypto.md5, msg, key))
  {
    match t
    case MD5 => Some(XorMd5(crypto.md5, msg, key))
    case AES => crypto.aes(Decrypt, msg, DerivedKey(crypto.md5, key))
    case RSA => RsaCipher(crypto, msg, DerivedKey(crypto.md5, key), Decrypt)
  }

  /** In MD5 mode encryption and decryption are the same map, and each undoes the other. */
  lemma Md5ModeRoundTrip(crypto: Crypto, msg: seq<Byte>, key: string)
    ensures Encryption(crypto, msg, key, MD5) == Decryption(crypto, msg, key, MD5)
    ensures Decryption(crypto, Encryption(crypto, msg, key, MD5).value, key, MD5) == Some(msg)
  {
    XorMd5Involution(crypto.md5, msg, key);
  }

  /** AES and RSA see only the 16-char md5(key ‖ SALT): keys with the same such digest behave alike. */
  lemma DerivedKeyDecides(crypto: Crypto, msg: seq<Byte>, k1: string, k2: string, t: EncryptType)
    requires t != MD5
    requires crypto.md5(k1 + SALT)[8..16] == crypto.md5(k2 + SALT)[8..16]
    ensures Encryption(crypto, msg, k1, t) == Encryption(crypto, msg, k2, t)
    ensures Decryption(crypto, msg, k1, t) == Decryption(crypto, msg, k2, t)
  {
    assert Md5Slice(crypto.md5, k1 + SALT, true) == Md5Slice(crypto.md5, k2 + SALT, true);
  }

  // ---------------------------------------------------------------- random chars

  /** The chars `randomChars` returns for the given draws. */
  function RandomCharsOf(length: nat, random: nat -> Draw): (r: string)
    ensures |r| == length
  {
    seq(length, i requires 0 <= i < length => CHARS[random(i)])
  }

  /** `randomChars(length)`: `result[i] = chars[random.nextInt(77)]`; draw i is `random(i)`. */
  method RandomChars(length: nat, random: nat -> Draw) returns (r: string)
    ensures r == RandomCharsOf(length, random)
    ensures |r| == length && forall i :: 0 <= i < length ==> r[i] in CHARS
  {
    var result := new char[length];
    var maxLength := |CHARS|;
    for i := 0 to length
      invariant forall k :: 0 <= k < i ==> result[k] == CHARS[random(k)]
    {
      var draw := random(i);
      assert draw < maxLength;
      result[i] := CHARS[draw];
    }
    r := result[..];
  }

  lemma SymbolsAscii(j: nat)
    requires j < |SYMBOLS|
    ensures SYMBOLS[j] as int < 128
  {
  }

  lemma CharsAscii(j: nat)
    requires j < |CHARS|
    ensures CHARS[j] as int < 128
  {
    if j >= 62 {
      SymbolsAscii(j - 62);
    }
  }

  /** Random password chars are ASCII, so their UTF-8 bytes are one per char. */
  lemma RandomCharsAscii(length: nat, random: nat -> Draw)
    ensures IsAscii(RandomCharsOf(length, random))
  {
    var r := RandomCharsOf(length, random);
    forall k | 0 <= k < |r| ensures r[k] as int < 128 {
      CharsAscii(random(k));
    }
  }
}
