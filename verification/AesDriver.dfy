/** AES-128 on AES-NI (src/drivers/hwcrypto.c): the instructions by their architectural definition,
    and the driver's register sequences over them. */
module AesDriver {
  import opened MachineTypes
  import opened GaloisField
  import opened Fips197

  // ---------- The instructions, on a 16-byte register ----------

  function AesEnc(s: Block, k: Block): Block {
    AddRoundKey(MixColumns(SubBytes(ShiftRows(s))), k)
  }

  function AesEncLast(s: Block, k: Block): Block {
    AddRoundKey(SubBytes(ShiftRows(s)), k)
  }

  function AesDec(s: Block, k: Block): Block {
    AddRoundKey(InvMixColumns(InvSubBytes(InvShiftRows(s))), k)
  }

  function AesDecLast(s: Block, k: Block): Block {
    AddRoundKey(InvSubBytes(InvShiftRows(s)), k)
  }

  function AesImc(k: Block): Block {
    InvMixColumns(k)
  }

  function AesKeyGenAssist(s: Block, rcon: Byte): Block {
    var r := Word(rcon, 0, 0, 0);
    Block(SubWord(s.w1), AddWord(RotWord(SubWord(s.w1)), r),
          SubWord(s.w3), AddWord(RotWord(SubWord(s.w3)), r))
  }

  /** pshufd $0xff: the top word in all four places. */
  function BroadcastTop(s: Block): Block {
    Block(s.w3, s.w3, s.w3, s.w3)
  }

  /** pslldq $4: every word moves one place up. */
  function ShiftUpWord(s: Block): Block {
    Block(Word(0, 0, 0, 0), s.w0, s.w1, s.w2)
  }

  function Pxor(s: Block, t: Block): Block {
    AddRoundKey(s, t)
  }

  // ---------- Memory operands ----------

  function LoadBytes(b: seq<Byte>): Block
    requires |b| >= 16
  {
    Block(Word(b[0], b[1], b[2], b[3]), Word(b[4], b[5], b[6], b[7]),
          Word(b[8], b[9], b[10], b[11]), Word(b[12], b[13], b[14], b[15]))
  }

  function StoredBytes(s: Block): seq<Byte> {
    [s.w0.b0, s.w0.b1, s.w0.b2, s.w0.b3, s.w1.b0, s.w1.b1, s.w1.b2, s.w1.b3,
     s.w2.b0, s.w2.b1, s.w2.b2, s.w2.b3, s.w3.b0, s.w3.b1, s.w3.b2, s.w3.b3]
  }

  /** The register loaded from the four words at word offset 4r. */
  function LoadWords(words: seq<Word>, r: nat): Block
    requires 4 * r + 4 <= |words|
  {
    Block(words[4 * r], words[4 * r + 1], words[4 * r + 2], words[4 * r + 3])
  }

  function Keys(words: seq<Word>): Schedule
    requires |words| >= 44
  {
    seq(11, r requires 0 <= r < 11 => LoadWords(words, r))
  }

  /** Byte r + 4c in memory is byte (r, c) of the state (section 3.4 of FIPS 197). */
  lemma MemoryLayout(b: seq<Byte>, s: Block, r: nat, c: nat)
    requires |b| >= 16 && r < 4 && c < 4
    ensures StateByte(LoadBytes(b), r, c) == b[r + 4 * c]
    ensures StoredBytes(s)[r + 4 * c] == StateByte(s, r, c)
  {
    hide ByteOf;
    Rows(r, c);
    assert Column(LoadBytes(b), c) == Word(b[4 * c], b[4 * c + 1], b[4 * c + 2], b[4 * c + 3]);
    ColumnBytes(Column(LoadBytes(b), c), b, 4 * c, r);
    StoredColumn(s, c);
    ColumnBytes(Column(s, c), StoredBytes(s), 4 * c, r);
  }

  lemma ColumnBytes(w: Word, b: seq<Byte>, at: nat, r: nat)
    requires r < 4 && at + 4 <= |b| && w == Word(b[at], b[at + 1], b[at + 2], b[at + 3])
    ensures ByteOf(w, r) == b[at + r]
  {}

  lemma StoredColumn(s: Block, c: nat)
    requires c < 4
    ensures
      var b := StoredBytes(s);
      Column(s, c) == Word(b[4 * c], b[4 * c + 1], b[4 * c + 2], b[4 * c + 3])
  {
    Rows(0, c);
  }

  /** movups of a register to memory. */
  method StoreBlock(s: Block, output: array<Byte>)
    requires output.Length >= 16
    modifies output
    ensures output[..16] == StoredBytes(s)
    ensures output[16..] == old(output[16..])
  {
    var bytes := StoredBytes(s);
    forall i | 0 <= i < 16 {
      output[i] := bytes[i];
    }
  }

  // ---------- Key expansion ----------

  /** The table of round constants the source keeps beside the immediates it uses. */
  const AES_RCON: seq<Byte> := [0x01, 0x02, 0x04, 0x08, 0x10, 0x20, 0x40, 0x80, 0x1b, 0x36]

  /** The constants are the powers of x in GF(2^8): repeated doubling from 1. */
  lemma RconTable(i: nat)
    requires 1 <= i <= 10
    ensures AES_RCON[i - 1] == Rcon(i)
  {
    assert Rcon(2) == 0x02 && Rcon(3) == 0x04 && Rcon(4) == 0x08 && Rcon(5) == 0x10;
    assert Rcon(6) == 0x20 && Rcon(7) == 0x40 && Rcon(8) == 0x80;
    assert Rcon(9) == 0x1b && Rcon(10) == 0x36;
  }

  /** Each word of the next round key is the word before it plus the word four places back; the
      first one starts from the word `t` of the key generation assist. */
  function NextKey(k: Block, t: Word): Block {
    var n0 := AddWord(k.w0, t);
    var n1 := AddWord(k.w1, n0);
    var n2 := AddWord(k.w2, n1);
    Block(n0, n1, n2, AddWord(k.w3, n2))
  }

  lemma AddWordLaws(u: Word, v: Word, w: Word)
    ensures AddWord(AddWord(u, v), w) == AddWord(u, AddWord(v, w))
    ensures AddWord(u, Word(0, 0, 0, 0)) == u
  {
    hide Add;
    AddLaws(u.b0, v.b0, w.b0);
    AddLaws(u.b1, v.b1, w.b1);
    AddLaws(u.b2, v.b2, w.b2);
    AddLaws(u.b3, v.b3, w.b3);
  }

  /** The subroutine aes_key_expand_128_assist: three shifted xors leave every word xored with all
      the words below it, and the assist word is xored into all four at once. */
  method KeyExpandAssist(key: Block, assist: Block) returns (xmm1: Block)
    ensures xmm1 == NextKey(key, assist.w3)
  {
    hide AddWord;
    xmm1 := key;
    var xmm2 := BroadcastTop(assist);
    var xmm3 := xmm1;
    xmm3 := ShiftUpWord(xmm3);
    xmm1 := Pxor(xmm1, xmm3);
    xmm3 := ShiftUpWord(xmm3);
    xmm1 := Pxor(xmm1, xmm3);
    xmm3 := ShiftUpWord(xmm3);
    xmm1 := Pxor(xmm1, xmm3);
    xmm1 := Pxor(xmm1, xmm2);
    PrefixXor(key, assist.w3);
  }

  lemma PrefixXor(k: Block, t: Word)
    ensures
      var zero := Word(0, 0, 0, 0);
      var s0, s1, s2 := k.w0, AddWord(k.w1, k.w0), AddWord(AddWord(k.w2, k.w1), k.w0);
      Block(AddWord(AddWord(AddWord(AddWord(s0, zero), zero), zero), t),
            AddWord(AddWord(AddWord(s1, zero), zero), t),
            AddWord(AddWord(s2, zero), t),
            AddWord(AddWord(AddWord(AddWord(k.w3, k.w2), k.w1), k.w0), t)) == NextKey(k, t)
  {
    hide AddWord;
    AddWordLaws(k.w0, t, t);
    AddWordLaws(AddWord(k.w1, k.w0), t, t);
    AddWordLaws(AddWord(AddWord(k.w2, k.w1), k.w0), t, t);
    AddWordLaws(k.w1, k.w0, t);
    AddWordLaws(AddWord(k.w2, k.w1), k.w0, t);
    AddWordLaws(k.w2, k.w1, AddWord(k.w0, t));
    AddWordLaws(AddWord(AddWord(k.w3, k.w2), k.w1), k.w0, t);
    AddWordLaws(AddWord(k.w3, k.w2), k.w1, AddWord(k.w0, t));
    AddWordLaws(k.w3, k.w2, AddWord(k.w1, AddWord(k.w0, t)));
  }

  /** One assist step advances the FIPS 197 recurrence by the four words of a round key. */
  lemma AssistIsRecurrence(key: Block, r: nat)
    requires r >= 1
    ensures NextKey(RoundKey(key, r - 1), AesKeyGenAssist(RoundKey(key, r - 1), Rcon(r)).w3) == RoundKey(key, r)
  {
    hide Add, SubByte, Rcon;
    var i := 4 * r;
    assert i % 4 == 0 && (i + 1) % 4 == 1 && (i + 2) % 4 == 2 && (i + 3) % 4 == 3 && i / 4 == r;
    assert 4 * (r - 1) == i - 4;
  }

  lemma FirstWords(key: Block)
    ensures RoundKey(key, 0) == key
    ensures KeyWord(key, 0) == key.w0 && KeyWord(key, 1) == key.w1
    ensures KeyWord(key, 2) == key.w2 && KeyWord(key, 3) == key.w3
  {}

  /** The words are those of section 5.2 of FIPS 197, said on the bytes of the key and of the words. */
  ghost predicate ExpansionOf(key: seq<Byte>, words: seq<Word>)
    requires |key| >= 16 && |words| >= 44
  {
    && (forall i, k :: 0 <= i < 4 && 0 <= k < 4 ==> ByteOf(words[i], k) == key[4 * i + k])
    && forall i :: 4 <= i < 44 ==> ExpandedAt(words, i)
  }

  ghost predicate ExpandedAt(words: seq<Word>, i: nat)
    requires 4 <= i < 44 <= |words|
  {
    forall k :: 0 <= k < 4 ==>
      ByteOf(words[i], k) == Add(ByteOf(words[i - 4], k),
        if i % 4 != 0 then ByteOf(words[i - 1], k)
        else Add(SubByte(ByteOf(words[i - 1], (k + 1) % 4)), if k == 0 then AES_RCON[i / 4 - 1] else 0))
  }

  lemma KeyWordsExpand(key: seq<Byte>, words: seq<Word>)
    requires |key| >= 16 && |words| >= 44
    requires forall i :: 0 <= i < 44 ==> words[i] == KeyWord(LoadBytes(key), i)
    ensures ExpansionOf(key, words)
  {
    hide KeyWord, SubByte, Rcon, LoadBytes, ByteOf, Add;
    var block := LoadBytes(key);
    forall i, k | 0 <= i < 4 && 0 <= k < 4 ensures ByteOf(words[i], k) == key[4 * i + k] {
      KeyBytes(key, i, k);
    }
    forall i | 4 <= i < 44 ensures ExpandedAt(words, i) {
      WordExpanded(block, words, i);
    }
  }

  lemma WordExpanded(key: Block, words: seq<Word>, i: nat)
    requires 4 <= i < 44 <= |words| && forall j :: 0 <= j < 44 ==> words[j] == KeyWord(key, j)
    ensures ExpandedAt(words, i)
  {
    hide KeyWord, SubByte, Rcon, ByteOf, Add;
    forall k | 0 <= k < 4
      ensures ByteOf(words[i], k) == Add(ByteOf(words[i - 4], k),
        if i % 4 != 0 then ByteOf(words[i - 1], k)
        else Add(SubByte(ByteOf(words[i - 1], (k + 1) % 4)), if k == 0 then AES_RCON[i / 4 - 1] else 0))
    {
      KeyWordBytes(key, i, k);
      if i % 4 == 0 {
        RconTable(i / 4);
      }
    }
  }

  lemma KeyBytes(key: seq<Byte>, i: nat, k: nat)
    requires |key| >= 16 && i < 4 && k < 4
    ensures ByteOf(KeyWord(LoadBytes(key), i), k) == key[4 * i + k]
  {
    FirstWords(LoadBytes(key));
    Rows(k, i);
  }

  method ExpandRound(ghost key: Block, r: nat, rcon: Byte, xmm1: Block, expanded: array<Word>)
    returns (next: Block)
    requires 1 <= r <= 10 && expanded.Length >= 44 && rcon == Rcon(r)
    requires xmm1 == RoundKey(key, r - 1)
    requires forall i :: 0 <= i < 4 * r ==> expanded[i] == KeyWord(key, i)
    modifies expanded
    ensures next == RoundKey(key, r)
    ensures forall i :: 0 <= i < 4 * r + 4 ==> expanded[i] == KeyWord(key, i)
  {
    hide KeyWord, NextKey, AesKeyGenAssist;
    var xmm2 := AesKeyGenAssist(xmm1, rcon);
    next := KeyExpandAssist(xmm1, xmm2);
    AssistIsRecurrence(key, r);
    expanded[4 * r], expanded[4 * r + 1] := next.w0, next.w1;
    expanded[4 * r + 2], expanded[4 * r + 3] := next.w2, next.w3;
  }

  method AesKeyExpand128(key: array<Byte>, expanded: array<Word>)
    requires key.Length >= 16 && expanded.Length >= 44
    modifies expanded
    ensures forall i :: 0 <= i < 44 ==> expanded[i] == KeyWord(LoadBytes(old(key[..])), i)
    ensures ExpansionOf(old(key[..]), expanded[..])
  {
    hide Rcon, KeyWord, RoundKey, LoadBytes, ExpansionOf;
    ghost var k := LoadBytes(key[..]);
    var xmm1 := LoadBytes(key[..]);
    expanded[0], expanded[1], expanded[2], expanded[3] := xmm1.w0, xmm1.w1, xmm1.w2, xmm1.w3;
    FirstWords(k);
    RconTable(1);
    xmm1 := ExpandRound(k, 1, 0x01, xmm1, expanded);
    RconTable(2);
    xmm1 := ExpandRound(k, 2, 0x02, xmm1, expanded);
    RconTable(3);
    xmm1 := ExpandRound(k, 3, 0x04, xmm1, expanded);
    RconTable(4);
    xmm1 := ExpandRound(k, 4, 0x08, xmm1, expanded);
    RconTable(5);
    xmm1 := ExpandRound(k, 5, 0x10, xmm1, expanded);
    RconTable(6);
    xmm1 := ExpandRound(k, 6, 0x20, xmm1, expanded);
    RconTable(7);
    xmm1 := ExpandRound(k, 7, 0x40, xmm1, expanded);
    RconTable(8);
    xmm1 := ExpandRound(k, 8, 0x80, xmm1, expanded);
    RconTable(9);
    xmm1 := ExpandRound(k, 9, 0x1b, xmm1, expanded);
    RconTable(10);
    xmm1 := ExpandRound(k, 10, 0x36, xmm1, expanded);
    KeyWordsExpand(old(key[..]), expanded[..]);
  }

  // ---------- Rounds on the instructions ----------

  /** aesenc is one middle round: it shifts before it substitutes, which makes no difference. */
  lemma AesEncIsRound(s: Block, k: Block)
    ensures AesEnc(s, k) == AddRoundKey(MixColumns(ShiftRows(SubBytes(s))), k)
    ensures AesEncLast(s, k) == AddRoundKey(ShiftRows(SubBytes(s)), k)
  {
    hide AddRoundKey, MixColumns, ShiftRows, SubBytes;
    ShiftSubCommute(s);
  }

  /** aesdec with an aesimc-transformed key is one round of the straightforward inverse cipher. */
  lemma AesDecIsInvRound(s: Block, k: Block)
    ensures AesDec(s, AesImc(k)) == InvMixColumns(AddRoundKey(InvSubBytes(InvShiftRows(s)), k))
  {
    hide AddRoundKey, InvMixColumns, InvShiftRows, InvSubBytes;
    InvMixColumnsLinear(InvSubBytes(InvShiftRows(s)), k);
  }

  lemma EncRound(s: Block, words: seq<Word>, n: nat)
    requires |words| >= 44 && 1 <= n <= 9
    ensures AesEnc(Rounds(s, Keys(words), n - 1), LoadWords(words, n)) == Rounds(s, Keys(words), n)
  {
    hide AddRoundKey, MixColumns, ShiftRows, SubBytes, AesEnc, LoadWords;
    AesEncIsRound(Rounds(s, Keys(words), n - 1), LoadWords(words, n));
  }

  lemma EncEnds(input: Block, words: seq<Word>)
    requires |words| >= 44
    ensures
      var s := Pxor(input, LoadWords(words, 0));
      && Rounds(s, Keys(words), 0) == s
      && AesEncLast(Rounds(s, Keys(words), 9), LoadWords(words, 10)) == Cipher(input, Keys(words))
  {
    hide AddRoundKey, MixColumns, ShiftRows, SubBytes, AesEncLast, LoadWords;
    var s := Pxor(input, LoadWords(words, 0));
    AesEncIsRound(Rounds(s, Keys(words), 9), LoadWords(words, 10));
  }

  lemma DecRound(s: Block, words: seq<Word>, n: nat)
    requires |words| >= 44 && 1 <= n <= 9
    ensures AesDec(InvRounds(s, Keys(words), n), AesImc(LoadWords(words, n))) == InvRounds(s, Keys(words), n - 1)
  {
    hide AddRoundKey, InvMixColumns, InvShiftRows, InvSubBytes, AesDec, AesImc, LoadWords;
    AesDecIsInvRound(InvRounds(s, Keys(words), n), LoadWords(words, n));
  }

  lemma DecEnds(input: Block, words: seq<Word>)
    requires |words| >= 44
    ensures
      var s := Pxor(input, LoadWords(words, 10));
      && InvRounds(s, Keys(words), 9) == s
      && AesDecLast(InvRounds(s, Keys(words), 0), LoadWords(words, 0)) == InvCipher(input, Keys(words))
  {
    hide AddRoundKey, InvMixColumns, InvShiftRows, InvSubBytes, LoadWords;
  }

  const AES_KEY_128 := 128

  /** aes_ctx_t.  Whether the CPU has AES-NI is fixed at start-up. */
  class AesContext {
    const hasAesni: bool
    var key: array<Byte>
    var keyLen: nat
    var rounds: nat
    var expandedKey: array<Word>

    ghost predicate Valid()
      reads this
    {
      key.Length == 32 && expandedKey.Length == 60
    }

    constructor (aesni: bool)
      ensures Valid() && hasAesni == aesni && fresh(key) && fresh(expandedKey)
    {
      hasAesni := aesni;
      key := new Byte[32](_ => 0);
      expandedKey := new Word[60](_ => Word(0, 0, 0, 0));
      keyLen, rounds := 0, 0;
    }

    /** The round keys the context holds. */
    ghost function RoundKeys(): Schedule
      requires Valid()
      reads this, expandedKey
    {
      Keys(expandedKey[..])
    }

    /** hwcrypto_aes_init.  Only 128-bit keys are expanded; the 192- and 256-bit cases record their
        round count and fail. */
    method Init(userKey: array<Byte>, userKeyLen: nat) returns (ok: bool)
      requires Valid() && userKey != key
      requires userKey.Length >= userKeyLen / 8 || userKey.Length >= 32
      modifies this`keyLen, this`rounds, key, expandedKey
      ensures Valid()
      ensures ok <==> hasAesni && userKeyLen == AES_KEY_128
      ensures ok ==> RoundKeys() == KeySchedule(LoadBytes(old(userKey[..])))
      ensures ok ==> rounds == 10
      ensures hasAesni ==> keyLen == userKeyLen
      ensures hasAesni ==>
        forall j :: 0 <= j < 32 ==> key[j] == if j < userKeyLen / 8 then old(userKey[j]) else 0
      ensures !ok ==> expandedKey[..] == old(expandedKey[..])
      ensures !hasAesni ==> key[..] == old(key[..]) && keyLen == old(keyLen)
    {
      hide KeyWord, LoadBytes;
      if !hasAesni { return false; }
      keyLen := userKeyLen;
      for i := 0 to 32
        invariant userKey[..] == old(userKey[..]) && expandedKey[..] == old(expandedKey[..])
        invariant keyLen == userKeyLen
        invariant forall j :: 0 <= j < i ==> key[j] == if j < userKeyLen / 8 then userKey[j] else 0
      {
        key[i] := if i < userKeyLen / 8 then userKey[i] else 0;
      }
      if userKeyLen == 128 {
        rounds := 10;
        AesKeyExpand128(userKey, expandedKey);
        ok := true;
      } else if userKeyLen == 192 {
        rounds := 12;
        ok := false;
      } else if userKeyLen == 256 {
        rounds := 14;
        ok := false;
      } else {
        ok := false;
      }
    }

    /** hwcrypto_aes_encrypt_block. */
    method EncryptBlock(input: array<Byte>, output: array<Byte>) returns (ok: bool)
      requires Valid() && input.Length >= 16 && output.Length >= 16
      modifies output
      ensures ok == hasAesni
      ensures ok ==> output[..16] == StoredBytes(Cipher(LoadBytes(old(input[..])), old(RoundKeys())))
      ensures output[16..] == old(output[16..])
      ensures !ok ==> output[..] == old(output[..])
    {
      hide Cipher, Rounds, AesEnc, AesEncLast, Pxor, LoadBytes, LoadWords, Keys;
      if !hasAesni { return false; }
      var words := expandedKey[..];
      var xmm0 := LoadBytes(input[..]);
      var xmm1 := LoadWords(words, 0);
      xmm0 := Pxor(xmm0, xmm1);
      ghost var s := xmm0;
      EncEnds(LoadBytes(input[..]), words);
      xmm1 := LoadWords(words, 1);
      xmm0 := AesEnc(xmm0, xmm1);
      EncRound(s, words, 1);
      xmm1 := LoadWords(words, 2);
      xmm0 := AesEnc(xmm0, xmm1);
      EncRound(s, words, 2);
      xmm1 := LoadWords(words, 3);
      xmm0 := AesEnc(xmm0, xmm1);
      EncRound(s, words, 3);
      xmm1 := LoadWords(words, 4);
      xmm0 := AesEnc(xmm0, xmm1);
      EncRound(s, words, 4);
      xmm1 := LoadWords(words, 5);
      xmm0 := AesEnc(xmm0, xmm1);
      EncRound(s, words, 5);
      xmm1 := LoadWords(words, 6);
      xmm0 := AesEnc(xmm0, xmm1);
      EncRound(s, words, 6);
      xmm1 := LoadWords(words, 7);
      xmm0 := AesEnc(xmm0, xmm1);
      EncRound(s, words, 7);
      xmm1 := LoadWords(words, 8);
      xmm0 := AesEnc(xmm0, xmm1);
      EncRound(s, words, 8);
      xmm1 := LoadWords(words, 9);
      xmm0 := AesEnc(xmm0, xmm1);
      EncRound(s, words, 9);
      xmm1 := LoadWords(words, 10);
      xmm0 := AesEncLast(xmm0, xmm1);
      StoreBlock(xmm0, output);
      ok := true;
    }

    /** hwcrypto_aes_decrypt_block: the equivalent inverse cipher, with aesimc on the fly. */
    method DecryptBlock(input: array<Byte>, output: array<Byte>) returns (ok: bool)
      requires Valid() && input.Length >= 16 && output.Length >= 16
      modifies output
      ensures ok == hasAesni
      ensures ok ==> output[..16] == StoredBytes(InvCipher(LoadBytes(old(input[..])), old(RoundKeys())))
      ensures ok ==>
        output[..16] == StoredBytes(EqInvCipher(LoadBytes(old(input[..])), TransformedKeys(old(RoundKeys()))))
      ensures output[16..] == old(output[16..])
      ensures !ok ==> output[..] == old(output[..])
    {
      hide InvCipher, EqInvCipher, TransformedKeys, InvRounds, AesDec, AesDecLast, AesImc, Pxor;
      hide LoadBytes, LoadWords, Keys;
      if !hasAesni { return false; }
      var words := expandedKey[..];
      var xmm0 := LoadBytes(input[..]);
      var xmm1 := LoadWords(words, 10);
      xmm0 := Pxor(xmm0, xmm1);
      ghost var s := xmm0;
      DecEnds(LoadBytes(input[..]), words);
      EqInvCipherIsInvCipher(LoadBytes(input[..]), Keys(words));
      xmm1 := AesImc(LoadWords(words, 9));
      xmm0 := AesDec(xmm0, xmm1);
      DecRound(s, words, 9);
      xmm1 := AesImc(LoadWords(words, 8));
      xmm0 := AesDec(xmm0, xmm1);
      DecRound(s, words, 8);
      xmm1 := AesImc(LoadWords(words, 7));
      xmm0 := AesDec(xmm0, xmm1);
      DecRound(s, words, 7);
      xmm1 := AesImc(LoadWords(words, 6));
      xmm0 := AesDec(xmm0, xmm1);
      DecRound(s, words, 6);
      xmm1 := AesImc(LoadWords(words, 5));
      xmm0 := AesDec(xmm0, xmm1);
      DecRound(s, words, 5);
      xmm1 := AesImc(LoadWords(words, 4));
      xmm0 := AesDec(xmm0, xmm1);
      DecRound(s, words, 4);
      xmm1 := AesImc(LoadWords(words, 3));
      xmm0 := AesDec(xmm0, xmm1);
      DecRound(s, words, 3);
      xmm1 := AesImc(LoadWords(words, 2));
      xmm0 := AesDec(xmm0, xmm1);
      DecRound(s, words, 2);
      xmm1 := AesImc(LoadWords(words, 1));
      xmm0 := AesDec(xmm0, xmm1);
      DecRound(s, words, 1);
      xmm1 := LoadWords(words, 0);
      xmm0 := AesDecLast(xmm0, xmm1);
      StoreBlock(xmm0, output);
      ok := true;
    }
  }

  lemma StoreLoad(s: Block, rest: seq<Byte>)
    ensures LoadBytes(StoredBytes(s) + rest) == s
  {}

  lemma LoadStore(b: seq<Byte>)
    requires |b| >= 16
    ensures StoredBytes(LoadBytes(b)) == b[..16]
  {}

  /** The round trip the driver is for, run through memory: with AES-NI present and any expanded key,
      decrypting what was encrypted gives the block back, also in place. */
  method EncryptThenDecrypt(ctx: AesContext, input: array<Byte>, mid: array<Byte>, output: array<Byte>)
    requires ctx.Valid() && ctx.hasAesni
    requires input.Length >= 16 && mid.Length >= 16 && output.Length >= 16
    requires mid as object != ctx.expandedKey as object
    modifies mid, output
    ensures output[..16] == old(input[..16])
  {
    hide Cipher, InvCipher, LoadBytes, StoredBytes, Keys;
    ghost var words := ctx.expandedKey[..];
    ghost var block := LoadBytes(input[..]);
    ghost var bytes := input[..16];
    LoadStore(input[..]);
    assert bytes == StoredBytes(block);
    var ok := ctx.EncryptBlock(input, mid);
    assert mid[..16] == StoredBytes(Cipher(block, Keys(words)));
    StoreLoad(Cipher(block, Keys(words)), mid[16..]);
    assert mid[..] == mid[..16] + mid[16..];
    assert LoadBytes(mid[..]) == Cipher(block, Keys(words));
    ok := ctx.DecryptBlock(mid, output);
    InvCipherUndoesCipher(block, Keys(words));
  }
}
