/** The streaming SHA-256 context of src/drivers/hwcrypto.c: buffering, padding and the digest bytes.
    The block function is a parameter: nothing here depends on what it computes. */
module Sha256Stream {
  import opened MachineTypes
  newtype Word = x: int | 0 <= x < 0x1_0000_0000

  /** The eight words of the hash value. */
  type HashValue = h: seq<Word> | |h| == 8 witness [0, 0, 0, 0, 0, 0, 0, 0]

  type BlockFunction = (HashValue, seq<Octet>) -> HashValue

  const BLOCK := 64
  const TWO_TO_64 := 0x1_0000_0000_0000_0000

  const INITIAL_HASH: HashValue := [
    0x6a09e667, 0xbb67ae85, 0x3c6ef372, 0xa54ff53a, 0x510e527f, 0x9b05688c, 0x1f83d9ab, 0x5be0cd19]

  // ---------- The definition (sections 5.1.1 and 6.2 of FIPS 180-4) ----------

  /** The block function folded over whole blocks. */
  function Fold(f: BlockFunction, h: HashValue, blocks: seq<Octet>): HashValue
    requires |blocks| % BLOCK == 0
    decreases |blocks|
  {
    if blocks == [] then h else Fold(f, f(h, blocks[..BLOCK]), blocks[BLOCK..])
  }

  /** n >> 8k */
  function DropBytes(n: nat, k: nat): nat {
    if k == 0 then n else DropBytes(n / 256, k - 1)
  }

  /** Octet `k` of `n`, counted from the least significant. */
  function Digit(n: nat, k: nat): Octet {
    (DropBytes(n, k) % 256) as Octet
  }

  /** The low `k` bytes of `n`, most significant first. */
  function BigEndian(n: nat, k: nat): (b: seq<Octet>)
    ensures |b| == k
  {
    if k == 0 then [] else BigEndian(n / 256, k - 1) + [(n % 256) as Octet]
  }

  function Zeros(n: nat): (z: seq<Octet>)
    ensures |z| == n
  {
    seq(n, _ => 0)
  }

  /** The zero bytes of section 5.1.1: as few as make room for the length at the end of a block. */
  function ZeroCount(length: nat): (k: nat)
    ensures (length + 1 + k) % 64 == 56
    ensures k < 64
  {
    (55 - length) % BLOCK
  }

  lemma PaddedLength(length: nat)
    ensures (length + 1 + ZeroCount(length) + 8) % BLOCK == 0
  {
    var n := length + 1 + ZeroCount(length);
    assert n + 8 == BLOCK * (n / BLOCK) + BLOCK;
  }

  function Padded(message: seq<Octet>): (p: seq<Octet>)
    ensures |p| % BLOCK == 0
  {
    PaddedLength(|message|);
    message + [0x80] + Zeros(ZeroCount(|message|)) + BigEndian(8 * |message| % TWO_TO_64, 8)
  }

  /** The digest bytes: each word most significant byte first. */
  function WordBytes(w: Word): seq<Octet> {
    [(w / 0x1000000) as Octet, (w / 0x10000 % 0x100) as Octet, (w / 0x100 % 0x100) as Octet, (w % 0x100) as Octet]
  }

  function HashBytes(h: seq<Word>): (b: seq<Octet>)
    ensures |b| == 4 * |h|
  {
    if h == [] then [] else HashBytes(h[..|h| - 1]) + WordBytes(h[|h| - 1])
  }

  function Sha256(f: BlockFunction, message: seq<Octet>): seq<Octet> {
    HashBytes(Fold(f, INITIAL_HASH, Padded(message)))
  }

  // ---------- Properties of the definition ----------

  lemma {:induction false} FoldAppend(f: BlockFunction, h: HashValue, x: seq<Octet>, y: seq<Octet>)
    requires |x| % BLOCK == 0 && |y| % BLOCK == 0
    ensures |x + y| % BLOCK == 0
    ensures Fold(f, h, x + y) == Fold(f, Fold(f, h, x), y)
    decreases |x|
  {
    if x == [] {
      assert x + y == y;
    } else {
      assert (x + y)[..BLOCK] == x[..BLOCK] && (x + y)[BLOCK..] == x[BLOCK..] + y;
      FoldAppend(f, f(h, x[..BLOCK]), x[BLOCK..], y);
    }
  }

  lemma FoldOne(f: BlockFunction, h: HashValue, block: seq<Octet>)
    requires |block| == BLOCK
    ensures Fold(f, h, block) == f(h, block)
  {
    assert block[..BLOCK] == block && block[BLOCK..] == [];
  }

  /** The value of a byte string read most significant first. */
  function FromBigEndian(b: seq<Octet>): nat {
    if b == [] then 0 else 256 * FromBigEndian(b[..|b| - 1]) + b[|b| - 1] as nat
  }

  function Pow256(k: nat): nat {
    if k == 0 then 1 else 256 * Pow256(k - 1)
  }

  /** The digest bytes read back as the words of the hash value, most significant byte first. */
  lemma {:induction false} HashBytesReadBack(h: seq<Word>, i: nat)
    requires i < |h|
    ensures |HashBytes(h)| == 4 * |h| && FromBigEndian(HashBytes(h)[4 * i..4 * i + 4]) == h[i] as nat
  {
    hide WordBytes, FromBigEndian;
    var n := |h| - 1;
    var front, last := HashBytes(h[..n]), WordBytes(h[n]);
    assert HashBytes(h) == front + last;
    WordReadsBack(h[n]);
    if i < n {
      HashBytesReadBack(h[..n], i);
      assert HashBytes(h)[4 * i..4 * i + 4] == front[4 * i..4 * i + 4];
    } else {
      assert HashBytes(h)[4 * i..4 * i + 4] == last;
    }
  }

  lemma WordReadsBack(w: Word)
    ensures |WordBytes(w)| == 4 && FromBigEndian(WordBytes(w)) == w as nat
  {
    var b := WordBytes(w);
    assert b[..3][..2][..1] == [b[0]] && b[..3][..2][1] == b[1] && b[..3][2] == b[2];
    assert FromBigEndian(b[..3][..2][..1]) == b[0] as nat;
    assert FromBigEndian(b[..3][..2]) == 256 * b[0] as nat + b[1] as nat;
    assert FromBigEndian(b[..3]) == 256 * (256 * b[0] as nat + b[1] as nat) + b[2] as nat;
    assert FromBigEndian(b) == 256 * (256 * (256 * b[0] as nat + b[1] as nat) + b[2] as nat) + b[3] as nat;
    WordDigits(w as nat);
  }

  lemma WordDigits(n: nat)
    requires n < 0x1_0000_0000
    ensures n == 256 * (256 * (256 * (n / 0x1000000) + n / 0x10000 % 0x100) + n / 0x100 % 0x100) + n % 0x100
  {
    assert n / 0x10000 / 0x100 == n / 0x1000000 && n / 0x100 / 0x100 == n / 0x10000;
  }

  /** The array holds a digest: eight words, most significant byte first. */
  predicate Holds(bytes: seq<Octet>, h: HashValue) {
    |bytes| >= 32 && forall i :: 0 <= i < 8 ==> FromBigEndian(bytes[4 * i..4 * i + 4]) == h[i] as nat
  }

  lemma HashHeld(bytes: seq<Octet>, h: HashValue)
    requires |bytes| >= 32 && bytes[..32] == HashBytes(h)
    ensures Holds(bytes, h)
  {
    hide HashBytes, FromBigEndian;
    forall i | 0 <= i < 8 ensures FromBigEndian(bytes[4 * i..4 * i + 4]) == h[i] as nat {
      HashBytesReadBack(h, i);
      assert bytes[4 * i..4 * i + 4] == bytes[..32][4 * i..4 * i + 4];
    }
  }

  /** Section 5.3.3 of FIPS 180-4: the initial hash value is the first 32 fraction bits of the square roots of
      the first eight primes. */
  predicate IsRootFraction(h: Word, prime: nat, whole: nat) {
    var root := whole * 0x1_0000_0000 + h as nat;
    root * root <= prime * TWO_TO_64 < (root + 1) * (root + 1)
  }

  lemma InitialHashIsRoots()
    ensures IsRootFraction(INITIAL_HASH[0], 2, 1) && IsRootFraction(INITIAL_HASH[1], 3, 1)
    ensures IsRootFraction(INITIAL_HASH[2], 5, 2) && IsRootFraction(INITIAL_HASH[3], 7, 2)
    ensures IsRootFraction(INITIAL_HASH[4], 11, 3) && IsRootFraction(INITIAL_HASH[5], 13, 3)
    ensures IsRootFraction(INITIAL_HASH[6], 17, 4) && IsRootFraction(INITIAL_HASH[7], 19, 4)
  {}

  lemma {:induction false} BigEndianRoundTrip(n: nat, k: nat)
    requires n < Pow256(k)
    ensures FromBigEndian(BigEndian(n, k)) == n
  {
    if k > 0 {
      BigEndianRoundTrip(n / 256, k - 1);
      assert BigEndian(n, k)[..k - 1] == BigEndian(n / 256, k - 1);
    }
  }

  lemma {:induction false} BigEndianAt(n: nat, k: nat, i: nat)
    requires i < k
    ensures BigEndian(n, k)[i] == Digit(n, k - 1 - i)
  {
    if i < k - 1 {
      BigEndianAt(n / 256, k - 1, i);
    }
  }

  lemma BigEndian64RoundTrip(n: nat)
    requires n < TWO_TO_64
    ensures FromBigEndian(BigEndian(n, 8)) == n
  {
    assert Pow256(4) == 0x1_0000_0000;
    assert Pow256(8) == TWO_TO_64;
    BigEndianRoundTrip(n, 8);
  }

  /** Padding is unambiguous: below the 2^64-bit limit of the standard, different messages are never
      padded to the same blocks. */
  lemma PaddedInjective(x: seq<Octet>, y: seq<Octet>)
    requires 8 * |x| < TWO_TO_64 && 8 * |y| < TWO_TO_64
    requires Padded(x) == Padded(y)
    ensures x == y
  {
    hide BigEndian, ZeroCount;
    var p := Padded(x);
    assert p[|p| - 8..] == BigEndian(8 * |x|, 8);
    assert p[|p| - 8..] == BigEndian(8 * |y|, 8);
    BigEndian64RoundTrip(8 * |x|);
    BigEndian64RoundTrip(8 * |y|);
    assert |x| == |y|;
    assert p[..|x|] == x && p[..|y|] == y;
  }

  // ---------- What a partly filled buffer stands for ----------

  /** The whole blocks of `m` are folded into `h`, and `tail` is the rest. */
  ghost predicate Tracks(f: BlockFunction, h: HashValue, tail: seq<Octet>, m: seq<Octet>) {
    && |tail| <= |m| && (|m| - |tail|) % BLOCK == 0
    && tail == m[|m| - |tail|..]
    && h == Fold(f, INITIAL_HASH, m[..|m| - |tail|])
  }

  lemma TracksStart(f: BlockFunction)
    ensures Tracks(f, INITIAL_HASH, [], [])
  {}

  lemma TracksMore(f: BlockFunction, h: HashValue, tail: seq<Octet>, m: seq<Octet>, more: seq<Octet>)
    requires Tracks(f, h, tail, m)
    ensures Tracks(f, h, tail + more, m + more)
  {
    hide Fold;
    assert (m + more)[..|m| - |tail|] == m[..|m| - |tail|];
  }

  lemma TracksBlock(f: BlockFunction, h: HashValue, tail: seq<Octet>, m: seq<Octet>)
    requires Tracks(f, h, tail, m) && |tail| == BLOCK
    ensures Tracks(f, f(h, tail), [], m)
  {
    hide Fold;
    var whole := m[..|m| - BLOCK];
    FoldAppend(f, INITIAL_HASH, whole, tail);
    FoldOne(f, h, tail);
    assert m == whole + tail && m[..|m| - 0] == m;
  }

  lemma TracksWhole(f: BlockFunction, h: HashValue, m: seq<Octet>)
    requires Tracks(f, h, [], m)
    ensures |m| % BLOCK == 0 && h == Fold(f, INITIAL_HASH, m)
  {
    assert m[..|m| - 0] == m;
  }

  // ---------- The context ----------

  /** sha256_ctx_t.  `message` records everything fed since Init. */
  class Sha256Context {
    const compress: BlockFunction
    const hasShani: bool
    var h: HashValue
    const buffer: array<Octet>
    var bufferLen: nat
    var totalLen: nat
    ghost var message: seq<Octet>

    ghost predicate Buffered()
      reads this, buffer
    {
      && buffer.Length == BLOCK
      && bufferLen <= BLOCK
      && Tracks(compress, h, buffer[..bufferLen], message)
      && totalLen == |message| % TWO_TO_64
    }

    /** Between calls less than a block is buffered. */
    ghost predicate Valid()
      reads this, buffer
    {
      bufferLen < BLOCK && Buffered()
    }

    constructor (f: BlockFunction, shani: bool)
      ensures Valid() && compress == f && hasShani == shani && message == [] && fresh(buffer)
    {
      compress, hasShani := f, shani;
      h := INITIAL_HASH;
      buffer := new Octet[BLOCK](_ => 0);
      bufferLen, totalLen, message := 0, 0, [];
      TracksStart(f);
    }

    /** hwcrypto_sha256_init */
    method Init()
      requires buffer.Length == BLOCK
      modifies this
      ensures Valid() && message == []
    {
      hide Tracks;
      h := INITIAL_HASH;
      bufferLen, totalLen := 0, 0;
      message := [];
      TracksStart(compress);
      assert buffer[..0] == [];
    }

    /** The copying loop of hwcrypto_sha256_update: `n` bytes go behind the buffered ones. */
    method CopyIn(data: seq<Octet>, n: nat)
      requires buffer.Length == BLOCK && n <= |data| && bufferLen + n <= BLOCK
      modifies buffer
      ensures buffer[..bufferLen + n] == old(buffer[..bufferLen]) + data[..n]
    {
      for i := 0 to n
        invariant buffer[..bufferLen + i] == old(buffer[..bufferLen]) + data[..i]
      {
        buffer[bufferLen + i] := data[i];
      }
    }

    /** One turn of the loop of hwcrypto_sha256_update, up to the check for a full block. */
    method Append(data: seq<Octet>, n: nat)
      requires Valid() && n <= |data| && bufferLen + n <= BLOCK
      modifies this`bufferLen, this`totalLen, this`message, buffer
      ensures Buffered() && bufferLen == old(bufferLen) + n && message == old(message) + data[..n]
    {
      hide Tracks;
      TracksMore(compress, h, buffer[..bufferLen], message, data[..n]);
      CopyIn(data, n);
      bufferLen := bufferLen + n;
      TotalLength(|message|, n);
      totalLen := (totalLen + n) % TWO_TO_64;
      message := message + data[..n];
    }

    /** sha256_process_block_shani on the full buffer, which is then empty. */
    method ProcessBuffer()
      requires Buffered() && bufferLen == BLOCK
      modifies this`h, this`bufferLen
      ensures Valid() && bufferLen == 0
    {
      hide Tracks;
      TracksBlock(compress, h, buffer[..bufferLen], message);
      h := compress(h, buffer[..]);
      bufferLen := 0;
      assert buffer[..BLOCK] == buffer[..] && buffer[..0] == [];
    }

    /** hwcrypto_sha256_update.  Without SHA extensions the call gives up at the first full block,
        leaving the buffer full. */
    method Update(bytes: seq<Octet>) returns (ok: bool)
      requires Valid()
      modifies this, buffer
      ensures ok ==> Valid() && message == old(message) + bytes
      ensures ok <==> hasShani || old(bufferLen) + |bytes| < BLOCK
      ensures !ok ==> Buffered() && bufferLen == BLOCK
    {
      hide Tracks;
      var data, len := bytes, |bytes|;
      while len > 0
        invariant Valid() && len == |data| <= |bytes|
        invariant data == bytes[|bytes| - len..]
        invariant message == old(message) + bytes[..|bytes| - len]
        invariant !hasShani ==> bufferLen == old(bufferLen) + |bytes| - len
      {
        var spaceLeft := BLOCK - bufferLen;
        var toCopy := if len < spaceLeft then len else spaceLeft;
        ghost var fed := bytes[..|bytes| - len];
        assert bytes[..|bytes| - len + toCopy] == fed + data[..toCopy];
        assert (old(message) + fed) + data[..toCopy] == old(message) + (fed + data[..toCopy]);
        Append(data, toCopy);
        data := data[toCopy..];
        len := len - toCopy;
        if bufferLen == BLOCK {
          if hasShani {
            ProcessBuffer();
          } else {
            return false;
          }
        }
      }
      assert bytes[..|bytes|] == bytes;
      ok := true;
    }

    /** One of the zero-filling loops of hwcrypto_sha256_final. */
    method ZeroFill(upTo: nat)
      requires buffer.Length == BLOCK && bufferLen <= upTo <= BLOCK
      modifies this`bufferLen, buffer
      ensures bufferLen == upTo
      ensures buffer[..upTo] == old(buffer[..bufferLen]) + Zeros(upTo - old(bufferLen))
    {
      while bufferLen < upTo
        invariant old(bufferLen) <= bufferLen <= upTo
        invariant buffer[..bufferLen] == old(buffer[..bufferLen]) + Zeros(bufferLen - old(bufferLen))
      {
        buffer[bufferLen] := 0;
        bufferLen := bufferLen + 1;
      }
    }

    /** The last eight bytes of the last block. */
    method PutBitLength()
      requires buffer.Length == BLOCK
      modifies buffer
      ensures buffer[..56] == old(buffer[..56])
      ensures buffer[56..] == BigEndian(8 * totalLen % TWO_TO_64, 8)
    {
      hide BigEndian;
      var bitLen := totalLen * 8 % TWO_TO_64;
      for i := 0 to 8
        invariant buffer[..56] == old(buffer[..56])
        invariant forall k :: 0 <= k < i ==> buffer[56 + k] == BigEndian(bitLen, 8)[k]
      {
        BigEndianAt(bitLen, 8, i);
        buffer[56 + i] := Digit(bitLen, 7 - i);
      }
    }

    method PutHash(hash: array<Octet>)
      requires hash.Length >= 32 && hash != buffer
      modifies hash
      ensures hash[..32] == HashBytes(h) && Holds(hash[..], h)
    {
      for i := 0 to 8
        invariant hash[..4 * i] == HashBytes(h[..i])
      {
        assert h[..i + 1][..i] == h[..i];
        var bytes := WordBytes(h[i]);
        hash[4 * i], hash[4 * i + 1], hash[4 * i + 2], hash[4 * i + 3] := bytes[0], bytes[1], bytes[2], bytes[3];
        assert hash[..4 * i + 4] == hash[..4 * i] + bytes;
      }
      assert h[..8] == h;
      HashHeld(hash[..], h);
    }

    /** The first half of hwcrypto_sha256_final: the byte 0x80, and zeros up to the place of the length,
        in a block of their own if need be. */
    method Pad() returns (ok: bool)
      requires Valid()
      modifies this`h, this`bufferLen, buffer
      ensures hasShani ==> ok
      ensures ok ==>
        bufferLen == 56 && Tracks(compress, h, buffer[..56], message + [0x80] + Zeros(ZeroCount(|message|)))
    {
      hide Tracks, Fold, Zeros, ZeroCount;
      ghost var m, l := message, bufferLen;
      ghost var p := m + [0x80];
      TracksLength(compress, h, buffer[..bufferLen], m);
      ZerosToLength(|m|, l);
      NoZeros();
      TracksMore(compress, h, buffer[..bufferLen], m, [0x80]);
      buffer[bufferLen] := 0x80;
      bufferLen := bufferLen + 1;
      assert buffer[..bufferLen] == old(buffer[..bufferLen]) + [0x80];
      ghost var z := 0;
      if bufferLen > 56 {
        z := BLOCK - bufferLen;
        TracksMore(compress, h, buffer[..bufferLen], p, Zeros(z));
        ZeroFill(BLOCK);
        p := p + Zeros(z);
        if !hasShani { return false; }
        TracksBlock(compress, h, buffer[..bufferLen], p);
        h := compress(h, buffer[..]);
        bufferLen := 0;
        assert buffer[..BLOCK] == buffer[..] && buffer[..0] == [];
      }
      ghost var oldLen := bufferLen;
      TracksMore(compress, h, buffer[..bufferLen], p, Zeros(56 - bufferLen));
      p := p + Zeros(56 - bufferLen);
      z := z + 56 - bufferLen;
      ZeroFill(56);
      ZerosJoin(m + [0x80], z - 56 + oldLen, 56 - oldLen);
      ok := true;
    }

    /** hwcrypto_sha256_final */
    method Final(hash: array<Octet>) returns (ok: bool)
      requires Valid() && hash.Length >= 32 && hash != buffer
      modifies this, buffer, hash
      ensures ok == hasShani
      ensures ok ==> hash[..32] == Sha256(compress, old(message))
      ensures ok ==> Holds(hash[..], Fold(compress, INITIAL_HASH, Padded(old(message))))
    {
      hide Tracks, Fold, BigEndian, HashBytes, Zeros, ZeroCount;
      ghost var m := message;
      var padded := Pad();
      if !padded { return false; }
      ghost var p := m + [0x80] + Zeros(ZeroCount(|m|));
      TracksMore(compress, h, buffer[..56], p, BigEndian(8 * totalLen % TWO_TO_64, 8));
      PutBitLength();
      p := p + BigEndian(8 * totalLen % TWO_TO_64, 8);
      assert buffer[..] == buffer[..56] + buffer[56..];
      if !hasShani { return false; }
      TracksBlock(compress, h, buffer[..], p);
      h := compress(h, buffer[..]);
      TracksWhole(compress, h, p);
      BitLength(|m|);
      PutHash(hash);
      ok := true;
    }
  }

  lemma TotalLength(length: nat, n: nat)
    ensures (length % TWO_TO_64 + n) % TWO_TO_64 == (length + n) % TWO_TO_64
  {
    var q, r := length / TWO_TO_64, length % TWO_TO_64;
    assert length + n == q * TWO_TO_64 + (r + n);
  }

  /** How many zeros take a block with `l` message bytes and the byte 0x80 to its length field, through a
      further block if they do not fit. */
  lemma ZerosToLength(length: nat, l: nat)
    requires l == length % BLOCK
    ensures ZeroCount(length) == if l + 1 > 56 then BLOCK - (l + 1) + 56 else 56 - (l + 1)
  {}

  lemma ZerosJoin(p: seq<Octet>, i: nat, j: nat)
    ensures (p + Zeros(i)) + Zeros(j) == p + Zeros(i + j)
  {}

  lemma NoZeros()
    ensures forall p: seq<Octet> :: p + Zeros(0) == p
  {}

  lemma TracksLength(f: BlockFunction, h: HashValue, tail: seq<Octet>, m: seq<Octet>)
    requires Tracks(f, h, tail, m) && |tail| < BLOCK
    ensures |tail| == |m| % BLOCK
  {}

  /** The 64-bit byte counter may have wrapped; the bit count it gives is right modulo 2^64. */
  lemma BitLength(n: nat)
    ensures 8 * (n % TWO_TO_64) % TWO_TO_64 == 8 * n % TWO_TO_64
  {
    var q, r := n / TWO_TO_64, n % TWO_TO_64;
    assert 8 * n == 8 * q * TWO_TO_64 + 8 * r;
  }

  /** hwcrypto_sha256_oneshot */
  method Oneshot(f: BlockFunction, shani: bool, data: seq<Octet>, hash: array<Octet>) returns (ok: bool)
    requires hash.Length >= 32
    modifies hash
    ensures ok == shani
    ensures ok ==> hash[..32] == Sha256(f, data) && Holds(hash[..], Fold(f, INITIAL_HASH, Padded(data)))
  {
    hide Sha256;
    var ctx := new Sha256Context(f, shani);
    ctx.Init();
    assert [] + data == data;
    ok := ctx.Update(data);
    if !ok { return false; }
    ok := ctx.Final(hash);
  }

  function Concat(pieces: seq<seq<Octet>>): seq<Octet> {
    if pieces == [] then [] else Concat(pieces[..|pieces| - 1]) + pieces[|pieces| - 1]
  }

  /** However a message is cut into update calls, the digest is the digest of the whole message, which
      is what `Oneshot` computes. */
  method HashInPieces(f: BlockFunction, pieces: seq<seq<Octet>>, hash: array<Octet>)
    requires hash.Length >= 32
    modifies hash
    ensures hash[..32] == Sha256(f, Concat(pieces))
    ensures Holds(hash[..], Fold(f, INITIAL_HASH, Padded(Concat(pieces))))
  {
    hide Sha256;
    var ctx := new Sha256Context(f, true);
    for i := 0 to |pieces|
      invariant ctx.Valid() && fresh(ctx) && fresh(ctx.buffer)
      invariant ctx.hasShani && ctx.compress == f && ctx.message == Concat(pieces[..i])
    {
      assert pieces[..i + 1][..i] == pieces[..i];
      var ok := ctx.Update(pieces[i]);
    }
    assert pieces[..|pieces|] == pieces;
    var ok := ctx.Final(hash);
  }
}
