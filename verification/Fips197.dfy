/** The AES-128 cipher and its inverse, as sections 5.1 to 5.3 of FIPS 197 define them. */
module Fips197 {
  import opened MachineTypes
  import opened GaloisField

  /** Four bytes in memory order: a word of the key schedule, or a column of the state. */
  datatype Word = Word(b0: Byte, b1: Byte, b2: Byte, b3: Byte)

  /** Sixteen bytes in memory order, as four columns: byte (r, c) of the state is byte r of column c. */
  datatype Block = Block(w0: Word, w1: Word, w2: Word, w3: Word)

  /** Eleven round keys. */
  type Schedule = keys: seq<Block> | |keys| == 11 witness seq(11, _ => ZERO_BLOCK)

  const ZERO_BLOCK := Block(Word(0, 0, 0, 0), Word(0, 0, 0, 0), Word(0, 0, 0, 0), Word(0, 0, 0, 0))

  function AddWord(v: Word, w: Word): Word {
    Word(Add(v.b0, w.b0), Add(v.b1, w.b1), Add(v.b2, w.b2), Add(v.b3, w.b3))
  }

  function SubWord(w: Word): Word {
    Word(SubByte(w.b0), SubByte(w.b1), SubByte(w.b2), SubByte(w.b3))
  }

  function InvSubWord(w: Word): Word {
    Word(InvSubByte(w.b0), InvSubByte(w.b1), InvSubByte(w.b2), InvSubByte(w.b3))
  }

  function RotWord(w: Word): Word {
    Word(w.b1, w.b2, w.b3, w.b0)
  }

  /** One column of section 5.1.3. */
  function MixWord(w: Word): Word {
    Word(Add4(Mul(0x02, w.b0), Mul(0x03, w.b1), w.b2, w.b3),
         Add4(w.b0, Mul(0x02, w.b1), Mul(0x03, w.b2), w.b3),
         Add4(w.b0, w.b1, Mul(0x02, w.b2), Mul(0x03, w.b3)),
         Add4(Mul(0x03, w.b0), w.b1, w.b2, Mul(0x02, w.b3)))
  }

  /** One column of section 5.3.3. */
  function InvMixWord(w: Word): Word {
    Word(Add4(Mul(0x0e, w.b0), Mul(0x0b, w.b1), Mul(0x0d, w.b2), Mul(0x09, w.b3)),
         Add4(Mul(0x09, w.b0), Mul(0x0e, w.b1), Mul(0x0b, w.b2), Mul(0x0d, w.b3)),
         Add4(Mul(0x0d, w.b0), Mul(0x09, w.b1), Mul(0x0e, w.b2), Mul(0x0b, w.b3)),
         Add4(Mul(0x0b, w.b0), Mul(0x0d, w.b1), Mul(0x09, w.b2), Mul(0x0e, w.b3)))
  }

  function AddRoundKey(s: Block, k: Block): Block {
    Block(AddWord(s.w0, k.w0), AddWord(s.w1, k.w1), AddWord(s.w2, k.w2), AddWord(s.w3, k.w3))
  }

  function SubBytes(s: Block): Block {
    Block(SubWord(s.w0), SubWord(s.w1), SubWord(s.w2), SubWord(s.w3))
  }

  function InvSubBytes(s: Block): Block {
    Block(InvSubWord(s.w0), InvSubWord(s.w1), InvSubWord(s.w2), InvSubWord(s.w3))
  }

  /** Row r moves left by r columns (section 5.1.2). */
  function ShiftRows(s: Block): Block {
    Block(Word(s.w0.b0, s.w1.b1, s.w2.b2, s.w3.b3),
          Word(s.w1.b0, s.w2.b1, s.w3.b2, s.w0.b3),
          Word(s.w2.b0, s.w3.b1, s.w0.b2, s.w1.b3),
          Word(s.w3.b0, s.w0.b1, s.w1.b2, s.w2.b3))
  }

  /** Row r moves right by r columns (section 5.3.1). */
  function InvShiftRows(s: Block): Block {
    Block(Word(s.w0.b0, s.w3.b1, s.w2.b2, s.w1.b3),
          Word(s.w1.b0, s.w0.b1, s.w3.b2, s.w2.b3),
          Word(s.w2.b0, s.w1.b1, s.w0.b2, s.w3.b3),
          Word(s.w3.b0, s.w2.b1, s.w1.b2, s.w0.b3))
  }

  function MixColumns(s: Block): Block {
    Block(MixWord(s.w0), MixWord(s.w1), MixWord(s.w2), MixWord(s.w3))
  }

  function InvMixColumns(s: Block): Block {
    Block(InvMixWord(s.w0), InvMixWord(s.w1), InvMixWord(s.w2), InvMixWord(s.w3))
  }

  /** The state after `n` middle rounds of section 5.1, from the state after the first key addition. */
  function Rounds(s: Block, keys: Schedule, n: nat): Block
    requires n <= 9
  {
    if n == 0 then s
    else AddRoundKey(MixColumns(ShiftRows(SubBytes(Rounds(s, keys, n - 1)))), keys[n])
  }

  /** Section 5.1. */
  function Cipher(input: Block, keys: Schedule): Block {
    var s := Rounds(AddRoundKey(input, keys[0]), keys, 9);
    AddRoundKey(ShiftRows(SubBytes(s)), keys[10])
  }

  /** The state after the inverse rounds 9 down to `n + 1` of section 5.3. */
  function InvRounds(s: Block, keys: Schedule, n: nat): Block
    requires n <= 9
    decreases 9 - n
  {
    if n == 9 then s
    else InvMixColumns(AddRoundKey(InvSubBytes(InvShiftRows(InvRounds(s, keys, n + 1))), keys[n + 1]))
  }

  /** The straightforward inverse cipher of section 5.3. */
  function InvCipher(input: Block, keys: Schedule): Block {
    var s := InvRounds(AddRoundKey(input, keys[10]), keys, 0);
    AddRoundKey(InvSubBytes(InvShiftRows(s)), keys[0])
  }

  /** The round keys of the equivalent inverse cipher: the inner ones go through InvMixColumns. */
  function TransformedKeys(keys: Schedule): Schedule {
    seq(11, i requires 0 <= i < 11 => if 1 <= i <= 9 then InvMixColumns(keys[i]) else keys[i])
  }

  /** The state after the rounds 9 down to `n + 1` of section 5.3.5. */
  function EqInvRounds(s: Block, dkeys: Schedule, n: nat): Block
    requires n <= 9
    decreases 9 - n
  {
    if n == 9 then s
    else AddRoundKey(InvMixColumns(InvShiftRows(InvSubBytes(EqInvRounds(s, dkeys, n + 1)))), dkeys[n + 1])
  }

  /** The equivalent inverse cipher of section 5.3.5. */
  function EqInvCipher(input: Block, dkeys: Schedule): Block {
    var s := EqInvRounds(AddRoundKey(input, dkeys[10]), dkeys, 0);
    AddRoundKey(InvShiftRows(InvSubBytes(s)), dkeys[0])
  }

  /** x^(i-1) in the first byte (section 5.2). */
  function Rcon(i: nat): Byte
    requires i > 0
  {
    if i == 1 then 0x01 else XTime(Rcon(i - 1))
  }

  /** Word `i` of the key schedule of a 128-bit key (section 5.2). */
  function KeyWord(key: Block, i: nat): Word {
    if i == 0 then key.w0
    else if i == 1 then key.w1
    else if i == 2 then key.w2
    else if i == 3 then key.w3
    else if i % 4 == 0 then
      AddWord(KeyWord(key, i - 4), AddWord(SubWord(RotWord(KeyWord(key, i - 1))), Word(Rcon(i / 4), 0, 0, 0)))
    else AddWord(KeyWord(key, i - 4), KeyWord(key, i - 1))
  }

  /** Round key `r` is words 4r to 4r + 3 (section 5.1.4). */
  function RoundKey(key: Block, r: nat): Block {
    Block(KeyWord(key, 4 * r), KeyWord(key, 4 * r + 1), KeyWord(key, 4 * r + 2), KeyWord(key, 4 * r + 3))
  }

  function KeySchedule(key: Block): Schedule {
    seq(11, r requires 0 <= r => RoundKey(key, r))
  }

  // ---------- The key schedule, byte by byte ----------

  function ByteOf(w: Word, k: nat): Byte
    requires k < 4
  {
    [w.b0, w.b1, w.b2, w.b3][k]
  }

  /** Section 5.2 on the bytes: the first word of a round key takes the bytes of the word before it one place
      further on, substituted, with the round constant on the first one; every other word takes the word
      before it as it is. */
  lemma KeyWordBytes(key: Block, i: nat, k: nat)
    requires 4 <= i && k < 4
    ensures i % 4 != 0 ==>
      ByteOf(KeyWord(key, i), k) == Add(ByteOf(KeyWord(key, i - 4), k), ByteOf(KeyWord(key, i - 1), k))
    ensures i % 4 == 0 ==>
      ByteOf(KeyWord(key, i), k) ==
        Add(ByteOf(KeyWord(key, i - 4), k),
            Add(SubByte(ByteOf(KeyWord(key, i - 1), (k + 1) % 4)), if k == 0 then Rcon(i / 4) else 0))
  {
    hide SubByte, Rcon, Add;
    Rows(k, 0);
    var old4, last := KeyWord(key, i - 4), KeyWord(key, i - 1);
    if i % 4 == 0 {
      assert KeyWord(key, i) == AddWord(old4, AddWord(SubWord(RotWord(last)), Word(Rcon(i / 4), 0, 0, 0)));
    } else {
      assert KeyWord(key, i) == AddWord(old4, last);
    }
  }

  /** The words of round `r` from those of the round before. */
  lemma NextWords(key: Block, r: nat)
    requires r >= 1
    ensures KeyWord(key, 4 * r) ==
      AddWord(KeyWord(key, 4 * r - 4), AddWord(SubWord(RotWord(KeyWord(key, 4 * r - 1))), Word(Rcon(r), 0, 0, 0)))
    ensures KeyWord(key, 4 * r + 1) == AddWord(KeyWord(key, 4 * r - 3), KeyWord(key, 4 * r))
    ensures KeyWord(key, 4 * r + 2) == AddWord(KeyWord(key, 4 * r - 2), KeyWord(key, 4 * r + 1))
    ensures KeyWord(key, 4 * r + 3) == AddWord(KeyWord(key, 4 * r - 1), KeyWord(key, 4 * r + 2))
  {
    hide AddWord, SubWord, RotWord, Rcon;
    var i := 4 * r;
    assert i % 4 == 0 && (i + 1) % 4 == 1 && (i + 2) % 4 == 2 && (i + 3) % 4 == 3 && i / 4 == r;
  }

  // The example of appendix A.1.

  const EXAMPLE_KEY := Block(Word(0x2b, 0x7e, 0x15, 0x16), Word(0x28, 0xae, 0xd2, 0xa6),
                             Word(0xab, 0xf7, 0x15, 0x88), Word(0x09, 0xcf, 0x4f, 0x3c))

  lemma Example0()
    ensures KeyWord(EXAMPLE_KEY, 0) == Word(0x2b, 0x7e, 0x15, 0x16)
    ensures KeyWord(EXAMPLE_KEY, 1) == Word(0x28, 0xae, 0xd2, 0xa6)
    ensures KeyWord(EXAMPLE_KEY, 2) == Word(0xab, 0xf7, 0x15, 0x88)
    ensures KeyWord(EXAMPLE_KEY, 3) == Word(0x09, 0xcf, 0x4f, 0x3c)
  {}

  lemma Example1()
    ensures KeyWord(EXAMPLE_KEY, 4) == Word(0xa0, 0xfa, 0xfe, 0x17)
    ensures KeyWord(EXAMPLE_KEY, 5) == Word(0x88, 0x54, 0x2c, 0xb1)
    ensures KeyWord(EXAMPLE_KEY, 6) == Word(0x23, 0xa3, 0x39, 0x39)
    ensures KeyWord(EXAMPLE_KEY, 7) == Word(0x2a, 0x6c, 0x76, 0x05)
  {
    hide KeyWord, SubByte, Rcon;
    Example0();
    NextWords(EXAMPLE_KEY, 1);
    ExampleSub1();
    RconTo10();
  }

  lemma ExampleSub1()
    ensures SubByte(0xcf) == 0x8a && SubByte(0x4f) == 0x84 && SubByte(0x3c) == 0xeb && SubByte(0x09) == 0x01
  {}

  lemma Example2()
    ensures KeyWord(EXAMPLE_KEY, 8) == Word(0xf2, 0xc2, 0x95, 0xf2)
    ensures KeyWord(EXAMPLE_KEY, 9) == Word(0x7a, 0x96, 0xb9, 0x43)
    ensures KeyWord(EXAMPLE_KEY, 10) == Word(0x59, 0x35, 0x80, 0x7a)
    ensures KeyWord(EXAMPLE_KEY, 11) == Word(0x73, 0x59, 0xf6, 0x7f)
  {
    hide KeyWord, SubByte, Rcon;
    Example1();
    NextWords(EXAMPLE_KEY, 2);
    ExampleSub2();
    RconTo10();
  }

  lemma ExampleSub2()
    ensures SubByte(0x6c) == 0x50 && SubByte(0x76) == 0x38 && SubByte(0x05) == 0x6b && SubByte(0x2a) == 0xe5
  {}

  lemma Example3()
    ensures KeyWord(EXAMPLE_KEY, 12) == Word(0x3d, 0x80, 0x47, 0x7d)
    ensures KeyWord(EXAMPLE_KEY, 13) == Word(0x47, 0x16, 0xfe, 0x3e)
    ensures KeyWord(EXAMPLE_KEY, 14) == Word(0x1e, 0x23, 0x7e, 0x44)
    ensures KeyWord(EXAMPLE_KEY, 15) == Word(0x6d, 0x7a, 0x88, 0x3b)
  {
    hide KeyWord, SubByte, Rcon;
    Example2();
    NextWords(EXAMPLE_KEY, 3);
    ExampleSub3();
    RconTo10();
  }

  lemma ExampleSub3()
    ensures SubByte(0x59) == 0xcb && SubByte(0xf6) == 0x42 && SubByte(0x7f) == 0xd2 && SubByte(0x73) == 0x8f
  {}

  lemma Example4()
    ensures KeyWord(EXAMPLE_KEY, 16) == Word(0xef, 0x44, 0xa5, 0x41)
    ensures KeyWord(EXAMPLE_KEY, 17) == Word(0xa8, 0x52, 0x5b, 0x7f)
    ensures KeyWord(EXAMPLE_KEY, 18) == Word(0xb6, 0x71, 0x25, 0x3b)
    ensures KeyWord(EXAMPLE_KEY, 19) == Word(0xdb, 0x0b, 0xad, 0x00)
  {
    hide KeyWord, SubByte, Rcon;
    Example3();
    NextWords(EXAMPLE_KEY, 4);
    ExampleSub4();
    RconTo10();
  }

  lemma ExampleSub4()
    ensures SubByte(0x7a) == 0xda && SubByte(0x88) == 0xc4 && SubByte(0x3b) == 0xe2 && SubByte(0x6d) == 0x3c
  {}

  lemma Example5()
    ensures KeyWord(EXAMPLE_KEY, 20) == Word(0xd4, 0xd1, 0xc6, 0xf8)
    ensures KeyWord(EXAMPLE_KEY, 21) == Word(0x7c, 0x83, 0x9d, 0x87)
    ensures KeyWord(EXAMPLE_KEY, 22) == Word(0xca, 0xf2, 0xb8, 0xbc)
    ensures KeyWord(EXAMPLE_KEY, 23) == Word(0x11, 0xf9, 0x15, 0xbc)
  {
    hide KeyWord, SubByte, Rcon;
    Example4();
    NextWords(EXAMPLE_KEY, 5);
    ExampleSub5();
    RconTo10();
  }

  lemma ExampleSub5()
    ensures SubByte(0x0b) == 0x2b && SubByte(0xad) == 0x95 && SubByte(0x00) == 0x63 && SubByte(0xdb) == 0xb9
  {}

  lemma Example6()
    ensures KeyWord(EXAMPLE_KEY, 24) == Word(0x6d, 0x88, 0xa3, 0x7a)
    ensures KeyWord(EXAMPLE_KEY, 25) == Word(0x11, 0x0b, 0x3e, 0xfd)
    ensures KeyWord(EXAMPLE_KEY, 26) == Word(0xdb, 0xf9, 0x86, 0x41)
    ensures KeyWord(EXAMPLE_KEY, 27) == Word(0xca, 0x00, 0x93, 0xfd)
  {
    hide KeyWord, SubByte, Rcon;
    Example5();
    NextWords(EXAMPLE_KEY, 6);
    ExampleSub6();
    RconTo10();
  }

  lemma ExampleSub6()
    ensures SubByte(0xf9) == 0x99 && SubByte(0x15) == 0x59 && SubByte(0xbc) == 0x65 && SubByte(0x11) == 0x82
  {}

  lemma Example7()
    ensures KeyWord(EXAMPLE_KEY, 28) == Word(0x4e, 0x54, 0xf7, 0x0e)
    ensures KeyWord(EXAMPLE_KEY, 29) == Word(0x5f, 0x5f, 0xc9, 0xf3)
    ensures KeyWord(EXAMPLE_KEY, 30) == Word(0x84, 0xa6, 0x4f, 0xb2)
    ensures KeyWord(EXAMPLE_KEY, 31) == Word(0x4e, 0xa6, 0xdc, 0x4f)
  {
    hide KeyWord, SubByte, Rcon;
    Example6();
    NextWords(EXAMPLE_KEY, 7);
    ExampleSub7();
    RconTo10();
  }

  lemma ExampleSub7()
    ensures SubByte(0x00) == 0x63 && SubByte(0x93) == 0xdc && SubByte(0xfd) == 0x54 && SubByte(0xca) == 0x74
  {}

  lemma Example8()
    ensures KeyWord(EXAMPLE_KEY, 32) == Word(0xea, 0xd2, 0x73, 0x21)
    ensures KeyWord(EXAMPLE_KEY, 33) == Word(0xb5, 0x8d, 0xba, 0xd2)
    ensures KeyWord(EXAMPLE_KEY, 34) == Word(0x31, 0x2b, 0xf5, 0x60)
    ensures KeyWord(EXAMPLE_KEY, 35) == Word(0x7f, 0x8d, 0x29, 0x2f)
  {
    hide KeyWord, SubByte, Rcon;
    Example7();
    NextWords(EXAMPLE_KEY, 8);
    ExampleSub8();
    RconTo10();
  }

  lemma ExampleSub8()
    ensures SubByte(0xa6) == 0x24 && SubByte(0xdc) == 0x86 && SubByte(0x4f) == 0x84 && SubByte(0x4e) == 0x2f
  {}

  lemma Example9()
    ensures KeyWord(EXAMPLE_KEY, 36) == Word(0xac, 0x77, 0x66, 0xf3)
    ensures KeyWord(EXAMPLE_KEY, 37) == Word(0x19, 0xfa, 0xdc, 0x21)
    ensures KeyWord(EXAMPLE_KEY, 38) == Word(0x28, 0xd1, 0x29, 0x41)
    ensures KeyWord(EXAMPLE_KEY, 39) == Word(0x57, 0x5c, 0x00, 0x6e)
  {
    hide KeyWord, SubByte, Rcon;
    Example8();
    NextWords(EXAMPLE_KEY, 9);
    ExampleSub9();
    RconTo10();
  }

  lemma ExampleSub9()
    ensures SubByte(0x8d) == 0x5d && SubByte(0x29) == 0xa5 && SubByte(0x2f) == 0x15 && SubByte(0x7f) == 0xd2
  {}

  lemma Example10()
    ensures KeyWord(EXAMPLE_KEY, 40) == Word(0xd0, 0x14, 0xf9, 0xa8)
    ensures KeyWord(EXAMPLE_KEY, 41) == Word(0xc9, 0xee, 0x25, 0x89)
    ensures KeyWord(EXAMPLE_KEY, 42) == Word(0xe1, 0x3f, 0x0c, 0xc8)
    ensures KeyWord(EXAMPLE_KEY, 43) == Word(0xb6, 0x63, 0x0c, 0xa6)
  {
    hide KeyWord, SubByte, Rcon;
    Example9();
    NextWords(EXAMPLE_KEY, 10);
    ExampleSub10();
    RconTo10();
  }

  lemma ExampleSub10()
    ensures SubByte(0x5c) == 0x4a && SubByte(0x00) == 0x63 && SubByte(0x6e) == 0x9f && SubByte(0x57) == 0x5b
  {}

  lemma RconTo10()
    ensures Rcon(1) == 0x01 && Rcon(2) == 0x02 && Rcon(3) == 0x04 && Rcon(4) == 0x08 && Rcon(5) == 0x10
    ensures Rcon(6) == 0x20 && Rcon(7) == 0x40 && Rcon(8) == 0x80 && Rcon(9) == 0x1b && Rcon(10) == 0x36
  {
    assert Rcon(5) == 0x10;
  }

  /** The first word the expansion computes for the example key, and the last. */
  lemma ExampleSchedule()
    ensures KeyWord(EXAMPLE_KEY, 4) == Word(0xa0, 0xfa, 0xfe, 0x17)
    ensures KeyWord(EXAMPLE_KEY, 43) == Word(0xb6, 0x63, 0x0c, 0xa6)
  {
    hide KeyWord;
    Example1();
    Example10();
  }

  // ---------- Each step and its inverse ----------

  lemma AddRoundKeyTwice(s: Block, k: Block)
    ensures AddRoundKey(AddRoundKey(s, k), k) == s
  {
    hide Add;
    AddTwice(s.w0, k.w0);
    AddTwice(s.w1, k.w1);
    AddTwice(s.w2, k.w2);
    AddTwice(s.w3, k.w3);
  }

  lemma AddTwice(v: Word, w: Word)
    ensures AddWord(AddWord(v, w), w) == v
  {
    hide Add;
    AddLaws(v.b0, w.b0, w.b0);
    AddLaws(v.b1, w.b1, w.b1);
    AddLaws(v.b2, w.b2, w.b2);
    AddLaws(v.b3, w.b3, w.b3);
    AddLaws(w.b0, w.b0, w.b0);
    AddLaws(w.b1, w.b1, w.b1);
    AddLaws(w.b2, w.b2, w.b2);
    AddLaws(w.b3, w.b3, w.b3);
  }

  lemma SubWordInverse(w: Word)
    ensures InvSubWord(SubWord(w)) == w
    ensures SubWord(InvSubWord(w)) == w
  {
    hide SubByte, InvSubByte;
    SubByteInverse(w.b0);
    SubByteInverse(w.b1);
    SubByteInverse(w.b2);
    SubByteInverse(w.b3);
  }

  lemma SubBytesInverse(s: Block)
    ensures InvSubBytes(SubBytes(s)) == s
    ensures SubBytes(InvSubBytes(s)) == s
  {
    hide SubWord, InvSubWord;
    SubWordInverse(s.w0);
    SubWordInverse(s.w1);
    SubWordInverse(s.w2);
    SubWordInverse(s.w3);
  }

  lemma ShiftRowsInverse(s: Block)
    ensures InvShiftRows(ShiftRows(s)) == s
    ensures ShiftRows(InvShiftRows(s)) == s
  {}

  /** Substitution acts byte by byte, so it does not matter where the rows stand. */
  lemma ShiftSubCommute(s: Block)
    ensures ShiftRows(SubBytes(s)) == SubBytes(ShiftRows(s))
    ensures InvShiftRows(InvSubBytes(s)) == InvSubBytes(InvShiftRows(s))
  {
    hide SubByte, InvSubByte;
  }

  // ---------- The steps on the bytes of the state ----------

  /** Byte (r, c) of the state: row r of column c (section 3.4). */
  function StateByte(s: Block, r: nat, c: nat): Byte
    requires r < 4 && c < 4
  {
    ByteOf(Column(s, c), r)
  }

  function Column(s: Block, c: nat): Word
    requires c < 4
  {
    [s.w0, s.w1, s.w2, s.w3][c]
  }

  /** Two states with the same bytes are the same. */
  lemma SameBytes(s: Block, t: Block)
    requires forall r, c :: 0 <= r < 4 && 0 <= c < 4 ==> StateByte(s, r, c) == StateByte(t, r, c)
    ensures s == t
  {
    assert StateByte(s, 0, 0) == StateByte(t, 0, 0) && StateByte(s, 1, 0) == StateByte(t, 1, 0);
    assert StateByte(s, 2, 0) == StateByte(t, 2, 0) && StateByte(s, 3, 0) == StateByte(t, 3, 0);
    assert StateByte(s, 0, 1) == StateByte(t, 0, 1) && StateByte(s, 1, 1) == StateByte(t, 1, 1);
    assert StateByte(s, 2, 1) == StateByte(t, 2, 1) && StateByte(s, 3, 1) == StateByte(t, 3, 1);
    assert StateByte(s, 0, 2) == StateByte(t, 0, 2) && StateByte(s, 1, 2) == StateByte(t, 1, 2);
    assert StateByte(s, 2, 2) == StateByte(t, 2, 2) && StateByte(s, 3, 2) == StateByte(t, 3, 2);
    assert StateByte(s, 0, 3) == StateByte(t, 0, 3) && StateByte(s, 1, 3) == StateByte(t, 1, 3);
    assert StateByte(s, 2, 3) == StateByte(t, 2, 3) && StateByte(s, 3, 3) == StateByte(t, 3, 3);
  }

  /** Sections 5.1.1, 5.1.2 and 5.1.4: what SubBytes, ShiftRows and AddRoundKey do to each byte. */
  lemma StepBytes(s: Block, k: Block, r: nat, c: nat)
    requires r < 4 && c < 4
    ensures StateByte(SubBytes(s), r, c) == SubByte(StateByte(s, r, c))
    ensures StateByte(ShiftRows(s), r, c) == StateByte(s, r, (c + r) % 4)
    ensures StateByte(AddRoundKey(s, k), r, c) == Add(StateByte(s, r, c), StateByte(k, r, c))
  {
    SubbedByte(s, r, c);
    ShiftedByte(s, r, c);
    AddedByte(s, k, r, c);
  }

  lemma SubbedByte(s: Block, r: nat, c: nat)
    requires r < 4 && c < 4
    ensures StateByte(SubBytes(s), r, c) == SubByte(StateByte(s, r, c))
  {
    hide SubByte, ByteOf, SubWord;
    Rows(r, c);
    var w := Column(s, c);
    assert Column(SubBytes(s), c) == SubWord(w);
    SubbedWord(w, r);
  }

  lemma SubbedWord(w: Word, r: nat)
    requires r < 4
    ensures ByteOf(SubWord(w), r) == SubByte(ByteOf(w, r))
  {
    hide SubByte, ByteOf;
    WordBytes(w);
    WordBytes(SubWord(w));
    Rows(r, 0);
  }

  lemma AddedByte(s: Block, k: Block, r: nat, c: nat)
    requires r < 4 && c < 4
    ensures StateByte(AddRoundKey(s, k), r, c) == Add(StateByte(s, r, c), StateByte(k, r, c))
  {
    hide Add, ByteOf, AddWord;
    Rows(r, c);
    assert Column(AddRoundKey(s, k), c) == AddWord(Column(s, c), Column(k, c));
    AddedWord(Column(s, c), Column(k, c), r);
  }

  lemma AddedWord(v: Word, w: Word, r: nat)
    requires r < 4
    ensures ByteOf(AddWord(v, w), r) == Add(ByteOf(v, r), ByteOf(w, r))
  {
    hide Add, ByteOf;
    WordBytes(v);
    WordBytes(w);
    WordBytes(AddWord(v, w));
    Rows(r, 0);
  }

  /** Row r of the state. */
  function Row(s: Block, r: nat): seq<Byte>
    requires r < 4
  {
    if r == 0 then [s.w0.b0, s.w1.b0, s.w2.b0, s.w3.b0]
    else if r == 1 then [s.w0.b1, s.w1.b1, s.w2.b1, s.w3.b1]
    else if r == 2 then [s.w0.b2, s.w1.b2, s.w2.b2, s.w3.b2]
    else [s.w0.b3, s.w1.b3, s.w2.b3, s.w3.b3]
  }

  lemma RowByte(s: Block, r: nat, c: nat)
    requires r < 4 && c < 4
    ensures |Row(s, r)| == 4 && StateByte(s, r, c) == Row(s, r)[c]
  {
    hide ByteOf;
    Bytes(s);
    Rows(r, c);
  }

  lemma ShiftedRow(s: Block, r: nat)
    requires r < 4
    ensures |Row(s, r)| == 4 && Row(ShiftRows(s), r) == Row(s, r)[r..] + Row(s, r)[..r]
  {
    Rotations(s.w0.b0, s.w1.b0, s.w2.b0, s.w3.b0);
    Rotations(s.w0.b1, s.w1.b1, s.w2.b1, s.w3.b1);
    Rotations(s.w0.b2, s.w1.b2, s.w2.b2, s.w3.b2);
    Rotations(s.w0.b3, s.w1.b3, s.w2.b3, s.w3.b3);
  }

  lemma Rotations<T>(a: T, b: T, c: T, d: T)
    ensures var q := [a, b, c, d]; q[0..] + q[..0] == q && q[1..] + q[..1] == [b, c, d, a]
    ensures var q := [a, b, c, d]; q[2..] + q[..2] == [c, d, a, b] && q[3..] + q[..3] == [d, a, b, c]
  {}

  lemma ShiftedByte(s: Block, r: nat, c: nat)
    requires r < 4 && c < 4
    ensures StateByte(ShiftRows(s), r, c) == StateByte(s, r, (c + r) % 4)
  {
    hide StateByte, ShiftRows, Row;
    RowByte(ShiftRows(s), r, c);
    RowByte(s, r, (c + r) % 4);
    ShiftedRow(s, r);
  }

  lemma Bytes(s: Block)
    ensures Column(s, 0) == s.w0 && Column(s, 1) == s.w1 && Column(s, 2) == s.w2 && Column(s, 3) == s.w3
    ensures BytesAre(s.w0) && BytesAre(s.w1) && BytesAre(s.w2) && BytesAre(s.w3)
  {
    hide ByteOf;
    WordBytes(s.w0);
    WordBytes(s.w1);
    WordBytes(s.w2);
    WordBytes(s.w3);
  }

  predicate BytesAre(w: Word) {
    ByteOf(w, 0) == w.b0 && ByteOf(w, 1) == w.b1 && ByteOf(w, 2) == w.b2 && ByteOf(w, 3) == w.b3
  }

  lemma WordBytes(w: Word)
    ensures BytesAre(w)
  {}

  /** There are four rows and four columns. */
  lemma Rows(r: nat, c: nat)
    requires r < 4 && c < 4
    ensures r == 0 || r == 1 || r == 2 || r == 3
    ensures c == 0 || c == 1 || c == 2 || c == 3
  {}

  /** Section 5.1.3: each byte of a mixed column is twice the byte of its own row, three times the next, and
      the other two. */
  lemma MixColumnsBytes(s: Block, r: nat, c: nat)
    requires r < 4 && c < 4
    ensures StateByte(MixColumns(s), r, c) ==
      Add4(Mul(0x02, StateByte(s, r, c)), Mul(0x03, StateByte(s, (r + 1) % 4, c)),
           StateByte(s, (r + 2) % 4, c), StateByte(s, (r + 3) % 4, c))
  {
    hide MixWord, ByteOf, Mul, Add4;
    Rows(r, c);
    assert Column(MixColumns(s), c) == MixWord(Column(s, c));
    MixedByte(Column(s, c), r);
  }

  lemma MixedByte(w: Word, r: nat)
    requires r < 4
    ensures ByteOf(MixWord(w), r) ==
      Add4(Mul(0x02, ByteOf(w, r)), Mul(0x03, ByteOf(w, (r + 1) % 4)), ByteOf(w, (r + 2) % 4), ByteOf(w, (r + 3) % 4))
  {
    hide Mul, Add4, ByteOf, MixWord;
    WordBytes(w);
    WordBytes(MixWord(w));
    MixedBytes(w);
    if r == 0 {
      assert (r + 1) % 4 == 1 && (r + 2) % 4 == 2 && (r + 3) % 4 == 3;
    } else if r == 1 {
      assert (r + 1) % 4 == 2 && (r + 2) % 4 == 3 && (r + 3) % 4 == 0;
    } else if r == 2 {
      assert (r + 1) % 4 == 3 && (r + 2) % 4 == 0 && (r + 3) % 4 == 1;
    } else {
      assert r == 3 && (r + 1) % 4 == 0 && (r + 2) % 4 == 1 && (r + 3) % 4 == 2;
    }
  }

  lemma MixedBytes(w: Word)
    ensures MixWord(w).b0 == Add4(Mul(0x02, w.b0), Mul(0x03, w.b1), w.b2, w.b3)
    ensures MixWord(w).b1 == Add4(Mul(0x02, w.b1), Mul(0x03, w.b2), w.b3, w.b0)
    ensures MixWord(w).b2 == Add4(Mul(0x02, w.b2), Mul(0x03, w.b3), w.b0, w.b1)
    ensures MixWord(w).b3 == Add4(Mul(0x02, w.b3), Mul(0x03, w.b0), w.b1, w.b2)
  {
    hide Mul, Add4;
    Add4Rotate(w.b0, Mul(0x02, w.b1), Mul(0x03, w.b2), w.b3);
    Add4Rotate(w.b0, w.b1, Mul(0x02, w.b2), Mul(0x03, w.b3));
    Add4Rotate(w.b1, Mul(0x02, w.b2), Mul(0x03, w.b3), w.b0);
    Add4Rotate(Mul(0x02, w.b3), Mul(0x03, w.b0), w.b1, w.b2);
  }

  // ---------- MixColumns is linear and invertible ----------

  // One byte of a mixed column, with its own column rotated to start at that byte's row.

  function MixRow(a: Byte, b: Byte, c: Byte, d: Byte): Byte {
    Add4(XTime(a), Times3(b), c, d)
  }

  function InvMixRow(a: Byte, b: Byte, c: Byte, d: Byte): Byte {
    Add4(TimesE(a), TimesB(b), TimesD(c), Times9(d))
  }

  lemma Add4Rotate(a: Byte, b: Byte, c: Byte, d: Byte)
    ensures Add4(a, b, c, d) == Add4(b, c, d, a)
  {
    hide Add;
    AddLaws(a, b, Add(c, d));
    AddLaws(b, Add(c, d), a);
    AddLaws(a, Add(b, Add(c, d)), a);
    AddLaws(b, c, Add(d, a));
    AddLaws(c, d, a);
  }

  lemma MixWordRows(w: Word)
    ensures MixWord(w) == Word(MixRow(w.b0, w.b1, w.b2, w.b3), MixRow(w.b1, w.b2, w.b3, w.b0),
                               MixRow(w.b2, w.b3, w.b0, w.b1), MixRow(w.b3, w.b0, w.b1, w.b2))
  {
    hide Add, Add4, Mul, XTime, Times3;
    TimesIsMul(w.b0);
    TimesIsMul(w.b1);
    TimesIsMul(w.b2);
    TimesIsMul(w.b3);
    Add4Rotate(w.b0, XTime(w.b1), Times3(w.b2), w.b3);
    Add4Rotate(w.b0, w.b1, XTime(w.b2), Times3(w.b3));
    Add4Rotate(w.b1, XTime(w.b2), Times3(w.b3), w.b0);
    Add4Rotate(XTime(w.b3), Times3(w.b0), w.b1, w.b2);
  }

  lemma InvMixWordRows(w: Word)
    ensures InvMixWord(w) == Word(InvMixRow(w.b0, w.b1, w.b2, w.b3), InvMixRow(w.b1, w.b2, w.b3, w.b0),
                                  InvMixRow(w.b2, w.b3, w.b0, w.b1), InvMixRow(w.b3, w.b0, w.b1, w.b2))
  {
    hide Add, Add4, Mul, Times9, TimesB, TimesD, TimesE;
    TimesIsMul(w.b0);
    TimesIsMul(w.b1);
    TimesIsMul(w.b2);
    TimesIsMul(w.b3);
    Add4Rotate(Times9(w.b0), TimesE(w.b1), TimesB(w.b2), TimesD(w.b3));
    Add4Rotate(TimesD(w.b0), Times9(w.b1), TimesE(w.b2), TimesB(w.b3));
    Add4Rotate(Times9(w.b1), TimesE(w.b2), TimesB(w.b3), TimesD(w.b0));
    Add4Rotate(TimesE(w.b3), TimesB(w.b0), TimesD(w.b1), Times9(w.b2));
  }

  lemma TimesAdd4(a: Byte, b: Byte, c: Byte, d: Byte)
    ensures XTime(Add4(a, b, c, d)) == Add4(XTime(a), XTime(b), XTime(c), XTime(d))
    ensures Times3(Add4(a, b, c, d)) == Add4(Times3(a), Times3(b), Times3(c), Times3(d))
    ensures Times9(Add4(a, b, c, d)) == Add4(Times9(a), Times9(b), Times9(c), Times9(d))
    ensures TimesB(Add4(a, b, c, d)) == Add4(TimesB(a), TimesB(b), TimesB(c), TimesB(d))
    ensures TimesD(Add4(a, b, c, d)) == Add4(TimesD(a), TimesD(b), TimesD(c), TimesD(d))
    ensures TimesE(Add4(a, b, c, d)) == Add4(TimesE(a), TimesE(b), TimesE(c), TimesE(d))
  {
    hide Add, XTime, Times3, Times9, TimesB, TimesD, TimesE;
    TimesLinear(a, b);
    TimesLinear(c, d);
    TimesLinear(Add(a, b), Add(c, d));
  }

  lemma InvMixRowOfMixRows(a: Byte, b: Byte, c: Byte, d: Byte)
    ensures InvMixRow(MixRow(a, b, c, d), MixRow(b, c, d, a), MixRow(c, d, a, b), MixRow(d, a, b, c)) == a
  {
    hide Add4, XTime, Times3, Times9, TimesB, TimesD, TimesE;
    TimesAdd4(XTime(a), Times3(b), c, d);
    TimesAdd4(XTime(b), Times3(c), d, a);
    TimesAdd4(XTime(c), Times3(d), a, b);
    TimesAdd4(XTime(d), Times3(a), b, c);
    Add4Rotate(TimesB(a), TimesB(XTime(b)), TimesB(Times3(c)), TimesB(d));
    Add4Rotate(TimesD(a), TimesD(b), TimesD(XTime(c)), TimesD(Times3(d)));
    Add4Rotate(TimesD(b), TimesD(XTime(c)), TimesD(Times3(d)), TimesD(a));
    Add4Rotate(Times9(XTime(d)), Times9(Times3(a)), Times9(b), Times9(c));
    Add4Transpose(
      TimesE(XTime(a)), TimesE(Times3(b)), TimesE(c), TimesE(d),
      TimesB(a), TimesB(XTime(b)), TimesB(Times3(c)), TimesB(d),
      TimesD(a), TimesD(b), TimesD(XTime(c)), TimesD(Times3(d)),
      Times9(Times3(a)), Times9(b), Times9(c), Times9(XTime(d)));
    InvMixCoefficients(a);
    InvMixCoefficients(b);
    InvMixCoefficients(c);
    InvMixCoefficients(d);
    Add4Zeros(a);
  }

  lemma MixRowOfInvMixRows(a: Byte, b: Byte, c: Byte, d: Byte)
    ensures MixRow(InvMixRow(a, b, c, d), InvMixRow(b, c, d, a), InvMixRow(c, d, a, b), InvMixRow(d, a, b, c)) == a
  {
    hide Add4, XTime, Times3, Times9, TimesB, TimesD, TimesE;
    TimesAdd4(TimesE(a), TimesB(b), TimesD(c), Times9(d));
    TimesAdd4(TimesE(b), TimesB(c), TimesD(d), Times9(a));
    Add4Rotate(Times3(Times9(a)), Times3(TimesE(b)), Times3(TimesB(c)), Times3(TimesD(d)));
    Add4Rotate(TimesD(a), Times9(b), TimesE(c), TimesB(d));
    Add4Rotate(Times9(b), TimesE(c), TimesB(d), TimesD(a));
    Add4Rotate(TimesE(d), TimesB(a), TimesD(b), Times9(c));
    Add4Transpose(
      XTime(TimesE(a)), XTime(TimesB(b)), XTime(TimesD(c)), XTime(Times9(d)),
      Times3(Times9(a)), Times3(TimesE(b)), Times3(TimesB(c)), Times3(TimesD(d)),
      TimesD(a), Times9(b), TimesE(c), TimesB(d),
      TimesB(a), TimesD(b), Times9(c), TimesE(d));
    MixCoefficients(a);
    MixCoefficients(b);
    MixCoefficients(c);
    MixCoefficients(d);
    Add4Zeros(a);
  }

  lemma Add4Zeros(a: Byte)
    ensures Add4(a, 0, 0, 0) == a
  {}

  lemma MixWordInverse(w: Word)
    ensures InvMixWord(MixWord(w)) == w
    ensures MixWord(InvMixWord(w)) == w
  {
    hide MixWord, InvMixWord, MixRow, InvMixRow;
    MixWordRows(w);
    InvMixWordRows(w);
    MixWordRows(InvMixWord(w));
    InvMixWordRows(MixWord(w));
    InvMixRowOfMixRows(w.b0, w.b1, w.b2, w.b3);
    InvMixRowOfMixRows(w.b1, w.b2, w.b3, w.b0);
    InvMixRowOfMixRows(w.b2, w.b3, w.b0, w.b1);
    InvMixRowOfMixRows(w.b3, w.b0, w.b1, w.b2);
    MixRowOfInvMixRows(w.b0, w.b1, w.b2, w.b3);
    MixRowOfInvMixRows(w.b1, w.b2, w.b3, w.b0);
    MixRowOfInvMixRows(w.b2, w.b3, w.b0, w.b1);
    MixRowOfInvMixRows(w.b3, w.b0, w.b1, w.b2);
  }

  lemma MixColumnsInverse(s: Block)
    ensures InvMixColumns(MixColumns(s)) == s
    ensures MixColumns(InvMixColumns(s)) == s
  {
    hide MixWord, InvMixWord;
    MixWordInverse(s.w0);
    MixWordInverse(s.w1);
    MixWordInverse(s.w2);
    MixWordInverse(s.w3);
  }

  lemma InvMixRowLinear(a: Byte, b: Byte, c: Byte, d: Byte, a': Byte, b': Byte, c': Byte, d': Byte)
    ensures InvMixRow(Add(a, a'), Add(b, b'), Add(c, c'), Add(d, d')) ==
            Add(InvMixRow(a, b, c, d), InvMixRow(a', b', c', d'))
  {
    hide Add, Add4, Times9, TimesB, TimesD, TimesE;
    TimesLinear(a, a');
    TimesLinear(b, b');
    TimesLinear(c, c');
    TimesLinear(d, d');
    Add4Sum(TimesE(a), TimesB(b), TimesD(c), Times9(d), TimesE(a'), TimesB(b'), TimesD(c'), Times9(d'));
  }

  lemma InvMixWordLinear(v: Word, w: Word)
    ensures InvMixWord(AddWord(v, w)) == AddWord(InvMixWord(v), InvMixWord(w))
  {
    hide InvMixWord, InvMixRow, Add;
    InvMixWordRows(v);
    InvMixWordRows(w);
    InvMixWordRows(AddWord(v, w));
    InvMixRowLinear(v.b0, v.b1, v.b2, v.b3, w.b0, w.b1, w.b2, w.b3);
    InvMixRowLinear(v.b1, v.b2, v.b3, v.b0, w.b1, w.b2, w.b3, w.b0);
    InvMixRowLinear(v.b2, v.b3, v.b0, v.b1, w.b2, w.b3, w.b0, w.b1);
    InvMixRowLinear(v.b3, v.b0, v.b1, v.b2, w.b3, w.b0, w.b1, w.b2);
  }

  /** Why the round keys of the equivalent inverse cipher are transformed (section 5.3.5). */
  lemma InvMixColumnsLinear(s: Block, k: Block)
    ensures InvMixColumns(AddRoundKey(s, k)) == AddRoundKey(InvMixColumns(s), InvMixColumns(k))
  {
    hide InvMixWord, AddWord;
    InvMixWordLinear(s.w0, k.w0);
    InvMixWordLinear(s.w1, k.w1);
    InvMixWordLinear(s.w2, k.w2);
    InvMixWordLinear(s.w3, k.w3);
  }

  lemma TransformedAt(keys: Schedule, i: nat)
    requires i <= 10
    ensures TransformedKeys(keys)[i] == if 1 <= i <= 9 then InvMixColumns(keys[i]) else keys[i]
  {
    hide InvMixColumns;
  }

  lemma {:induction false} EqInvRoundsAreInvRounds(s: Block, keys: Schedule, n: nat)
    requires n <= 9
    ensures EqInvRounds(s, TransformedKeys(keys), n) == InvRounds(s, keys, n)
    decreases 9 - n
  {
    hide AddRoundKey, InvMixColumns, InvSubBytes, InvShiftRows, TransformedKeys;
    if n < 9 {
      TransformedAt(keys, n + 1);
      EqInvRoundsAreInvRounds(s, keys, n + 1);
      var before := InvRounds(s, keys, n + 1);
      ShiftSubCommute(before);
      InvMixColumnsLinear(InvSubBytes(InvShiftRows(before)), keys[n + 1]);
    }
  }

  /** The equivalent inverse cipher on the transformed round keys is the straightforward inverse cipher. */
  lemma EqInvCipherIsInvCipher(input: Block, keys: Schedule)
    ensures EqInvCipher(input, TransformedKeys(keys)) == InvCipher(input, keys)
  {
    hide AddRoundKey, InvMixColumns, InvSubBytes, InvShiftRows, EqInvRounds, InvRounds, TransformedKeys;
    var s := AddRoundKey(input, keys[10]);
    TransformedAt(keys, 0);
    TransformedAt(keys, 10);
    EqInvRoundsAreInvRounds(s, keys, 0);
    ShiftSubCommute(InvRounds(s, keys, 0));
  }

  // ---------- The inverse cipher undoes the cipher ----------

  /** After undoing rounds 9 to n + 1, the inverse cipher is where the cipher stood before its
      round n + 1 mixed anything in: the round-n state, substituted and shifted. */
  lemma {:induction false} InvRoundsUndoRounds(input: Block, keys: Schedule, n: nat)
    requires n <= 9
    ensures InvRounds(ShiftRows(SubBytes(Rounds(input, keys, 9))), keys, n) ==
            ShiftRows(SubBytes(Rounds(input, keys, n)))
    decreases 9 - n
  {
    hide MixColumns, InvMixColumns, AddRoundKey, SubBytes, InvSubBytes, ShiftRows, InvShiftRows;
    if n < 9 {
      InvRoundsUndoRounds(input, keys, n + 1);
      var s := Rounds(input, keys, n);
      var next := Rounds(input, keys, n + 1);
      ShiftRowsInverse(SubBytes(next));
      SubBytesInverse(next);
      AddRoundKeyTwice(MixColumns(ShiftRows(SubBytes(s))), keys[n + 1]);
      MixColumnsInverse(ShiftRows(SubBytes(s)));
    }
  }

  /** For every schedule and every block, deciphering the enciphered block gives it back. */
  lemma InvCipherUndoesCipher(input: Block, keys: Schedule)
    ensures InvCipher(Cipher(input, keys), keys) == input
  {
    hide AddRoundKey, MixColumns, InvMixColumns, SubBytes, InvSubBytes, ShiftRows, InvShiftRows;
    var first := AddRoundKey(input, keys[0]);
    AddRoundKeyTwice(ShiftRows(SubBytes(Rounds(first, keys, 9))), keys[10]);
    InvRoundsUndoRounds(first, keys, 0);
    ShiftRowsInverse(SubBytes(first));
    SubBytesInverse(first);
    AddRoundKeyTwice(input, keys[0]);
  }

  lemma {:induction false} RoundsRedoInvRounds(input: Block, keys: Schedule, n: nat)
    requires n <= 9
    ensures Rounds(InvSubBytes(InvShiftRows(InvRounds(input, keys, 0))), keys, n) ==
            InvSubBytes(InvShiftRows(InvRounds(input, keys, n)))
  {
    hide MixColumns, InvMixColumns, AddRoundKey, SubBytes, InvSubBytes, ShiftRows, InvShiftRows;
    if n > 0 {
      RoundsRedoInvRounds(input, keys, n - 1);
      var s := InvRounds(input, keys, n - 1);
      var before := InvSubBytes(InvShiftRows(InvRounds(input, keys, n)));
      SubBytesInverse(InvShiftRows(s));
      ShiftRowsInverse(s);
      MixColumnsInverse(AddRoundKey(before, keys[n]));
      AddRoundKeyTwice(before, keys[n]);
    }
  }

  /** For every schedule, every block is the encipherment of its decipherment. */
  lemma CipherUndoesInvCipher(input: Block, keys: Schedule)
    ensures Cipher(InvCipher(input, keys), keys) == input
  {
    hide AddRoundKey, MixColumns, InvMixColumns, SubBytes, InvSubBytes, ShiftRows, InvShiftRows;
    var last := InvSubBytes(InvShiftRows(InvRounds(AddRoundKey(input, keys[10]), keys, 0)));
    AddRoundKeyTwice(last, keys[0]);
    RoundsRedoInvRounds(AddRoundKey(input, keys[10]), keys, 9);
    SubBytesInverse(InvShiftRows(AddRoundKey(input, keys[10])));
    ShiftRowsInverse(AddRoundKey(input, keys[10]));
    AddRoundKeyTwice(input, keys[10]);
  }
}
