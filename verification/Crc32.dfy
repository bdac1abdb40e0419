/** The CRC-32 of the RP2040 boot loader (arch/rp2040/flash_qspi.c): reflected polynomial 0xEDB88320,
    as in section 8 of RFC 1952.  The reference is division one message bit at a time, least
    significant bit of each byte first; the driver works a byte at a time from a table. */
module Crc32 {
  import opened MachineTypes
  type Word = bv32

  // ---------- The bit-at-a-time reference ----------

  function Xor(a: Word, b: Word): Word {
    a ^ b
  }

  predicate LowBit(w: Word) {
    w & 1 == 1
  }

  function Down(w: Word): Word {
    w >> 1
  }

  function Up(w: Word): Word {
    w << 1
  }

  /** The register moves one place; a bit that falls out subtracts the polynomial. */
  function Step(c: Word): Word {
    if LowBit(c) then Xor(Down(c), 0xEDB88320) else Down(c)
  }

  function Steps(n: nat, c: Word): Word {
    if n == 0 then c else Steps(n - 1, Step(c))
  }

  function BitWord(b: bool): Word {
    if b then 1 else 0
  }

  /** Division of a bit string, starting from register `c`. */
  function Feed(c: Word, bits: seq<bool>): Word
    decreases |bits|
  {
    if bits == [] then c else Feed(Step(Xor(c, BitWord(bits[0]))), bits[1..])
  }

  /** The low `n` bits of a word, lowest first. */
  function LowBits(n: nat, w: Word): (bits: seq<bool>)
    ensures |bits| == n
  {
    if n == 0 then [] else [LowBit(w)] + LowBits(n - 1, Down(w))
  }

  /** A byte enters the division least significant bit first. */
  function ByteBits(d: Byte): (bits: seq<bool>)
    ensures |bits| == 8
  {
    LowBits(8, d as Word)
  }

  function Bits(data: seq<Byte>): (bits: seq<bool>)
    ensures |bits| == 8 * |data|
  {
    if data == [] then [] else ByteBits(data[0]) + Bits(data[1..])
  }

  /** The checksum of a message. */
  function Crc(data: seq<Byte>): Word {
    Xor(Feed(0xFFFFFFFF, Bits(data)), 0xFFFFFFFF)
  }

  // ---------- The register step is linear and injective ----------

  lemma XorAssociative(a: Word, b: Word, c: Word)
    ensures Xor(Xor(a, b), c) == Xor(a, Xor(b, c))
  {}

  lemma XorZero(a: Word)
    ensures Xor(a, 0) == a == Xor(0, a)
  {}

  lemma XorInjective(a: Word, b: Word, c: Word)
    requires Xor(a, c) == Xor(b, c) || Xor(c, a) == Xor(c, b)
    ensures a == b
  {}

  lemma DownLinear(a: Word, b: Word)
    ensures Down(Xor(a, b)) == Xor(Down(a), Down(b))
    ensures LowBit(Xor(a, b)) <==> LowBit(a) != LowBit(b)
  {}

  lemma StepLinear(a: Word, b: Word)
    ensures Step(Xor(a, b)) == Xor(Step(a), Step(b))
  {
    hide Xor, Down, LowBit;
    DownLinear(a, b);
    StepIs(a);
    StepIs(b);
    StepIs(Xor(a, b));
    var p, q := if LowBit(a) then 0xEDB88320 else 0, if LowBit(b) then 0xEDB88320 else 0;
    XorSwap(Down(a), p, Down(b), q);
    XorSelf(0xEDB88320);
    XorZero(0xEDB88320);
    XorZero(0);
  }

  lemma StepIs(c: Word)
    ensures Step(c) == Xor(Down(c), if LowBit(c) then 0xEDB88320 else 0)
  {
    hide Xor;
    XorZero(Down(c));
  }

  lemma StepInjective(a: Word, b: Word)
    requires Step(a) == Step(b)
    ensures a == b
  {
    if a & 1 == 1 {
      if b & 1 == 1 {} else {}
    } else {
      if b & 1 == 1 {} else {}
    }
  }

  lemma {:induction false} StepsLinear(n: nat, a: Word, b: Word)
    ensures Steps(n, Xor(a, b)) == Xor(Steps(n, a), Steps(n, b))
  {
    hide Step, Xor;
    if n > 0 {
      StepLinear(a, b);
      StepsLinear(n - 1, Step(a), Step(b));
    }
  }

  lemma {:induction false} StepsInjective(n: nat, a: Word, b: Word)
    requires Steps(n, a) == Steps(n, b)
    ensures a == b
  {
    hide Step;
    if n > 0 {
      StepsInjective(n - 1, Step(a), Step(b));
      StepInjective(a, b);
    }
  }

  lemma {:induction false} FeedAppend(c: Word, x: seq<bool>, y: seq<bool>)
    ensures Feed(c, x + y) == Feed(Feed(c, x), y)
    decreases |x|
  {
    hide Step, BitWord, Xor;
    if x == [] {
      assert x + y == y;
    } else {
      assert (x + y)[1..] == x[1..] + y;
      FeedAppend(Step(Xor(c, BitWord(x[0]))), x[1..], y);
    }
  }

  /** Two registers that differ never meet again on the same message. */
  lemma {:induction false} FeedInjective(a: Word, b: Word, bits: seq<bool>)
    requires Feed(a, bits) == Feed(b, bits)
    ensures a == b
    decreases |bits|
  {
    hide Step, Xor;
    if bits != [] {
      var e := BitWord(bits[0]);
      FeedInjective(Step(Xor(a, e)), Step(Xor(b, e)), bits[1..]);
      StepInjective(Xor(a, e), Xor(b, e));
      XorInjective(a, b, e);
    }
  }

  // ---------- Up to 32 bits enter the register as one word ----------

  /** The bits as a word, first bit lowest. */
  function WordOf(bits: seq<bool>): Word {
    if bits == [] then 0 else Xor(BitWord(bits[0]), Up(WordOf(bits[1..])))
  }

  function UpWithOne(m: Word): Word {
    Up(m) | 1
  }

  /** `n` ones from the bottom. */
  function Mask(n: nat): Word {
    if n == 0 then 0 else UpWithOne(Mask(n - 1))
  }

  lemma {:induction false} MaskGrows(m: nat, n: nat)
    requires m <= n
    ensures Within(Mask(m), Mask(n))
  {
    if m > 0 {
      MaskGrows(m - 1, n - 1);
    }
  }

  lemma Mask31()
    ensures Mask(31) == 0x7FFFFFFF
  {
    assert Mask(4) == 0xF;
    assert Mask(8) == 0xFF;
    assert Mask(12) == 0xFFF;
    assert Mask(16) == 0xFFFF;
    assert Mask(20) == 0xFFFFF;
    assert Mask(24) == 0xFFFFFF;
    assert Mask(28) == 0xFFFFFFF;
  }

  /** Every bit of `w` is a bit of `m`. */
  predicate Within(w: Word, m: Word) {
    w & m == w
  }

  lemma {:induction false} WordOfWithinMask(bits: seq<bool>)
    ensures Within(WordOf(bits), Mask(|bits|))
  {
    hide Within, Xor, BitWord, Up, UpWithOne;
    if bits == [] {
      ZeroWithin(Mask(0));
    } else {
      var rest := bits[1..];
      WordOfWithinMask(rest);
      ShiftWithin(WordOf(rest), Mask(|rest|), bits[0]);
    }
  }

  lemma ZeroWithin(m: Word)
    ensures Within(0, m)
  {}

  lemma ShiftWithin(w: Word, m: Word, b: bool)
    requires Within(w, m)
    ensures Within(Xor(BitWord(b), Up(w)), UpWithOne(m))
  {
    if b {} else {}
  }

  lemma WithinTransitive(w: Word, m: Word, n: Word)
    requires Within(w, m) && Within(m, n)
    ensures Within(w, n)
  {}

  /** Fewer than 32 bits leave the top bit of the word clear, so shifting up loses nothing. */
  lemma WordOfTop(bits: seq<bool>)
    requires |bits| < 32
    ensures Within(WordOf(bits), 0x7FFFFFFF)
  {
    hide Within, WordOf, Mask;
    WordOfWithinMask(bits);
    MaskGrows(|bits|, 31);
    Mask31();
    WithinTransitive(WordOf(bits), Mask(|bits|), Mask(31));
  }

  lemma StepOfShifted(w: Word)
    requires Within(w, 0x7FFFFFFF)
    ensures Step(Up(w)) == w
  {}

  lemma LowBitSplits(b: bool, w: Word, b': bool, w': Word)
    requires Within(w, 0x7FFFFFFF) && Within(w', 0x7FFFFFFF)
    requires Xor(BitWord(b), Up(w)) == Xor(BitWord(b'), Up(w'))
    ensures b == b' && w == w'
  {
    if b { if b' {} else {} } else { if b' {} else {} }
  }

  lemma {:induction false} WordOfInjective(x: seq<bool>, y: seq<bool>)
    requires |x| == |y| <= 32 && WordOf(x) == WordOf(y)
    ensures x == y
  {
    hide Xor, BitWord, Within;
    if x != [] {
      WordOfTop(x[1..]);
      WordOfTop(y[1..]);
      LowBitSplits(x[0], WordOf(x[1..]), y[0], WordOf(y[1..]));
      WordOfInjective(x[1..], y[1..]);
      assert x == [x[0]] + x[1..] && y == [y[0]] + y[1..];
    }
  }

  lemma {:induction false} WordOfLowBits(n: nat, w: Word)
    requires Within(w, Mask(n))
    ensures WordOf(LowBits(n, w)) == w
  {
    hide Xor, BitWord, Within, LowBit, Down, Up, UpWithOne;
    if n == 0 {
      WithinZero(w);
    } else {
      RejoinLowBit(w);
      DropLowBit(w, Mask(n - 1));
      assert LowBits(n, w)[1..] == LowBits(n - 1, Down(w));
      WordOfLowBits(n - 1, Down(w));
    }
  }

  lemma WithinZero(w: Word)
    requires Within(w, 0)
    ensures w == 0
  {}

  lemma RejoinLowBit(w: Word)
    ensures Xor(BitWord(LowBit(w)), Up(Down(w))) == w
  {
    hide Up, Down;
    BitOfLowBit(w);
    UpDown(w);
  }

  lemma BitOfLowBit(w: Word)
    ensures BitWord(LowBit(w)) == w & 1
  {
    if w & 1 == 1 {
    } else {
      assert w & 1 == 0;
    }
  }

  lemma UpDown(w: Word)
    ensures (w & 1) ^ Up(Down(w)) == w
  {}

  lemma DropLowBit(w: Word, m: Word)
    requires Within(w, UpWithOne(m))
    ensures Within(Down(w), m)
  {}

  /** Feeding at most 32 bits is adding them all at once and then shifting. */
  lemma {:induction false} FeedIsSteps(c: Word, bits: seq<bool>)
    requires |bits| <= 32
    ensures Feed(c, bits) == Steps(|bits|, Xor(c, WordOf(bits)))
    decreases |bits|
  {
    hide Xor, BitWord, Step, Within, Up;
    if bits == [] {
      XorZero(c);
    } else {
      var e, w := BitWord(bits[0]), WordOf(bits[1..]);
      FeedIsSteps(Step(Xor(c, e)), bits[1..]);
      WordOfTop(bits[1..]);
      StepOfShifted(w);
      StepLinear(Xor(c, e), Up(w));
      XorAssociative(c, e, Up(w));
    }
  }

  // ---------- Burst detection ----------

  /** Equal-length bit strings that agree outside the 32 bits from `s`. */
  ghost predicate DifferWithin32(x: seq<bool>, y: seq<bool>, s: nat) {
    && |x| == |y|
    && forall i :: 0 <= i < |x| && (i < s || i >= s + 32) ==> x[i] == y[i]
  }

  lemma BurstDetected(c: Word, x: seq<bool>, y: seq<bool>, s: nat)
    requires DifferWithin32(x, y, s) && x != y
    ensures Feed(c, x) != Feed(c, y)
  {
    hide Feed, WordOf;
    assert s < |x|;
    var e := if s + 32 <= |x| then s + 32 else |x|;
    var p, u, v, q := x[..s], x[s..e], y[s..e], x[e..];
    assert x == p + u + q && y == p + v + q by {
      assert y[..s] == p && y[e..] == q;
    }
    FeedAppend(c, p + u, q);
    FeedAppend(c, p, u);
    FeedAppend(c, p + v, q);
    FeedAppend(c, p, v);
    if Feed(c, x) == Feed(c, y) {
      var r := Feed(c, p);
      FeedInjective(Feed(r, u), Feed(r, v), q);
      FeedIsSteps(r, u);
      FeedIsSteps(r, v);
      StepsInjective(|u|, Xor(r, WordOf(u)), Xor(r, WordOf(v)));
      XorInjective(WordOf(u), WordOf(v), r);
      WordOfInjective(u, v);
    }
  }

  // ---------- Exactly when a difference is missed ----------

  function XorBits(x: seq<bool>, y: seq<bool>): (d: seq<bool>)
    requires |x| == |y|
    ensures |d| == |x|
  {
    seq(|x|, i requires 0 <= i < |x| => x[i] != y[i])
  }

  lemma XorBitWord(a: bool, b: bool)
    ensures Xor(BitWord(a), BitWord(b)) == BitWord(a != b)
  {}

  lemma XorSwap(a: Word, b: Word, c: Word, d: Word)
    ensures Xor(Xor(a, b), Xor(c, d)) == Xor(Xor(a, c), Xor(b, d))
  {
    hide Xor;
    XorAssociative(a, b, Xor(c, d));
    XorAssociative(b, c, d);
    XorCommutative(b, c);
    XorAssociative(c, b, d);
    XorAssociative(a, c, Xor(b, d));
  }

  lemma XorCommutative(a: Word, b: Word)
    ensures Xor(a, b) == Xor(b, a)
  {}

  lemma {:induction false} FeedLinear(a: Word, b: Word, x: seq<bool>, y: seq<bool>)
    requires |x| == |y|
    ensures Feed(Xor(a, b), XorBits(x, y)) == Xor(Feed(a, x), Feed(b, y))
    decreases |x|
  {
    hide Xor, Step, BitWord;
    if x != [] {
      var e, f := BitWord(x[0]), BitWord(y[0]);
      XorSwap(a, b, e, f);
      XorBitWord(x[0], y[0]);
      StepLinear(Xor(a, e), Xor(b, f));
      assert XorBits(x, y)[1..] == XorBits(x[1..], y[1..]);
      FeedLinear(Step(Xor(a, e)), Step(Xor(b, f)), x[1..], y[1..]);
    }
  }

  /** Two messages of one length have the same checksum exactly when dividing their difference from an
      empty register leaves none. */
  lemma SameCrcIffZero(c: Word, x: seq<bool>, y: seq<bool>)
    requires |x| == |y|
    ensures Feed(c, x) == Feed(c, y) <==> Feed(0, XorBits(x, y)) == 0
  {
    hide Feed;
    FeedLinear(c, c, x, y);
    SameIffXorZero(c, c);
    SameIffXorZero(Feed(c, x), Feed(c, y));
  }

  lemma SameIffXorZero(a: Word, b: Word)
    ensures Xor(a, b) == 0 <==> a == b
  {
    hide Xor;
    XorSelf(b);
    if Xor(a, b) == 0 {
      XorInjective(a, b, b);
    }
  }

  lemma XorSelf(a: Word)
    ensures Xor(a, a) == 0
  {}

  function Zeros(n: nat): seq<bool> {
    seq(n, _ => false)
  }

  lemma {:induction false} FeedZeros(n: nat)
    ensures Feed(0, Zeros(n)) == 0
  {
    if n > 0 {
      assert Zeros(n)[1..] == Zeros(n - 1);
      FeedZeros(n - 1);
    }
  }

  /** The generator itself, as 33 consecutive message bits. */
  function Generator(): seq<bool> {
    [true] + LowBits(32, 0xEDB88320)
  }

  lemma FeedGenerator()
    ensures Feed(0, Generator()) == 0
  {
    var tail := LowBits(32, 0xEDB88320);
    assert Generator()[1..] == tail;
    assert Feed(0, Generator()) == Feed(0xEDB88320, tail);
    FeedIsSteps(0xEDB88320, tail);
    Mask31();
    assert Mask(32) == 0xFFFFFFFF;
    WordOfLowBits(32, 0xEDB88320);
    StepsZero(32);
  }

  lemma {:induction false} StepsZero(n: nat)
    ensures Steps(n, 0) == 0
  {
    if n > 0 {
      StepsZero(n - 1);
    }
  }

  // The remainder is zero exactly when there is a quotient.

  /** The polynomial with the coefficients `q` times the generator, without carries, highest power first. */
  function Product(q: seq<bool>): (p: seq<bool>)
    ensures |p| == |q| + 32
  {
    if q == [] then Zeros(32) else XorBits(Shifted(q[0], |q| - 1), [false] + Product(q[1..]))
  }

  /** The generator times x^n, or nothing. */
  function Shifted(b: bool, n: nat): (p: seq<bool>)
    ensures |p| == n + 33
  {
    (if b then Generator() else Zeros(33)) + Zeros(n)
  }

  /** The generator divides the polynomial: it is a multiple, or zero where it has no room for one. */
  ghost predicate Divides(d: seq<bool>) {
    if |d| < 32 then d == Zeros(|d|) else exists q :: |q| + 32 == |d| && Product(q) == d
  }

  lemma FeedShifted(b: bool, n: nat)
    ensures Feed(0, Shifted(b, n)) == 0
  {
    hide Feed, Generator;
    FeedAppend(0, if b then Generator() else Zeros(33), Zeros(n));
    FeedGenerator();
    FeedZeros(33);
    FeedZeros(n);
  }

  lemma FeedFalse(d: seq<bool>)
    ensures Feed(0, [false] + d) == Feed(0, d)
  {
    assert ([false] + d)[1..] == d;
  }

  lemma FeedSum(x: seq<bool>, y: seq<bool>)
    requires |x| == |y|
    ensures Feed(0, XorBits(x, y)) == Xor(Feed(0, x), Feed(0, y))
  {
    hide Feed;
    FeedLinear(0, 0, x, y);
    XorSelf(0);
  }

  /** A multiple of the generator leaves no remainder. */
  lemma {:induction false} ProductRemainder(q: seq<bool>)
    ensures Feed(0, Product(q)) == 0
  {
    hide Feed, Xor, XorBits, Shifted;
    if q == [] {
      FeedZeros(32);
    } else {
      ProductRemainder(q[1..]);
      FeedShifted(q[0], |q| - 1);
      FeedFalse(Product(q[1..]));
      FeedSum(Shifted(q[0], |q| - 1), [false] + Product(q[1..]));
      XorSelf(0);
    }
  }

  /** At most 32 bits without a remainder are all zero. */
  lemma ShortRemainder(d: seq<bool>)
    requires |d| <= 32 && Feed(0, d) == 0
    ensures d == Zeros(|d|)
  {
    hide Feed, Xor, WordOf, Steps;
    var n := |d|;
    FeedZeros(n);
    FeedIsSteps(0, d);
    FeedIsSteps(0, Zeros(n));
    StepsInjective(n, Xor(0, WordOf(d)), Xor(0, WordOf(Zeros(n))));
    XorCommutative(0, WordOf(d));
    XorCommutative(0, WordOf(Zeros(n)));
    XorInjective(WordOf(d), WordOf(Zeros(n)), 0);
    WordOfInjective(d, Zeros(n));
  }

  /** Long division. */
  lemma {:induction false} Quotient(d: seq<bool>) returns (q: seq<bool>)
    requires |d| >= 32 && Feed(0, d) == 0
    ensures |q| + 32 == |d| && Product(q) == d
    decreases |d|
  {
    hide Feed, Xor, Shifted;
    if |d| == 32 {
      ShortRemainder(d);
      q := [];
    } else {
      var g := Shifted(d[0], |d| - 33);
      var rest := XorBits(d, g);
      ShiftedHead(d[0], |d| - 33);
      assert rest == [false] + rest[1..];
      FeedShifted(d[0], |d| - 33);
      FeedSum(d, g);
      XorSelf(0);
      FeedFalse(rest[1..]);
      var tail := Quotient(rest[1..]);
      q := [d[0]] + tail;
      assert q[1..] == tail;
      assert XorBits(g, rest) == d;
    }
  }

  lemma ShiftedHead(b: bool, n: nat)
    ensures Shifted(b, n)[0] == b
  {}

  /** Two messages of one length have the same checksum exactly when the generator divides their
      difference: some polynomial times the generator is that difference. */
  lemma SameCrcIffDivides(c: Word, x: seq<bool>, y: seq<bool>)
    requires |x| == |y|
    ensures Feed(c, x) == Feed(c, y) <==> Divides(XorBits(x, y))
  {
    hide Feed, Product;
    var d := XorBits(x, y);
    SameCrcIffZero(c, x, y);
    if Feed(0, d) == 0 {
      if |d| < 32 {
        ShortRemainder(d);
      } else {
        var q := Quotient(d);
      }
    }
    if Divides(d) {
      if |d| < 32 {
        FeedZeros(|d|);
      } else {
        var q :| |q| + 32 == |d| && Product(q) == d;
        ProductRemainder(q);
      }
    }
  }

  lemma {:induction false} StepsAdd(m: nat, n: nat, c: Word)
    ensures Steps(m, Steps(n, c)) == Steps(m + n, c)
  {
    hide Step;
    if n > 0 {
      StepsAdd(m, n - 1, Step(c));
    }
  }

  lemma {:induction false} FeedOnlyZeros(n: nat, c: Word)
    ensures Feed(c, Zeros(n)) == Steps(n, c)
  {
    hide Step, Xor;
    if n > 0 {
      XorZero(c);
      assert Zeros(n)[1..] == Zeros(n - 1);
      FeedOnlyZeros(n - 1, Step(c));
    }
  }

  lemma XorBack(a: Word, b: Word)
    ensures Xor(a, Xor(a, b)) == b
  {
    hide Xor;
    XorAssociative(a, a, b);
    XorSelf(a);
    XorCommutative(0, b);
    XorZero(b);
  }

  lemma XorMoves(a: Word, b: Word, c: Word)
    ensures Xor(a, b) == c <==> Xor(a, c) == b
  {
    hide Xor;
    XorBack(a, b);
    XorBack(a, c);
  }

  /** A register as the 32 bits that bring it about. */
  lemma FeedRegister(c: Word, w: Word)
    ensures Feed(c, LowBits(32, w)) == Steps(32, Xor(c, w))
  {
    hide Feed, Steps, LowBits, Xor;
    FeedIsSteps(c, LowBits(32, w));
    FullMask(w);
    WordOfLowBits(32, w);
  }

  lemma FullMask(w: Word)
    ensures Within(w, Mask(32))
  {
    Mask31();
    assert Mask(32) == 0xFFFFFFFF;
  }

  /** What a message does to a register: its own remainder, and the register moved on. */
  lemma FeedSplits(c: Word, y: seq<bool>)
    ensures Feed(c, y) == Xor(Feed(0, y), Steps(|y|, c))
  {
    hide Feed, Steps, Xor;
    FeedLinear(0, c, y, Zeros(|y|));
    XorCommutative(0, c);
    XorZero(c);
    assert XorBits(y, Zeros(|y|)) == y;
    FeedOnlyZeros(|y|, c);
  }

  lemma FeedInFront(c: Word, n: nat)
    ensures Feed(0, LowBits(32, c) + Zeros(n)) == Steps(32, Steps(n, c))
  {
    hide Feed, Steps, Xor, LowBits, Zeros;
    FeedAppend(0, LowBits(32, c), Zeros(n));
    FeedRegister(0, c);
    XorCommutative(0, c);
    XorZero(c);
    FeedOnlyZeros(n, Steps(32, c));
    StepsAdd(n, 32, c);
    StepsAdd(32, n, c);
  }

  /** A message takes the register from one value to another exactly when the generator divides the sum of
      the message followed by the new value and of the old value moved in front of as many zeros. */
  lemma ReachesIffDivides(c: Word, y: seq<bool>, t: Word)
    ensures Feed(c, y) == t <==> Divides(XorBits(y + LowBits(32, t), LowBits(32, c) + Zeros(|y|)))
  {
    hide Feed, Steps, LowBits, Xor, Divides, XorBits, Zeros, StepsMeet;
    ZerosLength(|y|);
    ReachesIffSteps(c, y, t);
    DividesIffSteps(c, y, t);
  }

  lemma DividesIffSteps(c: Word, y: seq<bool>, t: Word)
    requires |Zeros(|y|)| == |y|
    ensures Divides(XorBits(y + LowBits(32, t), LowBits(32, c) + Zeros(|y|))) <==> StepsMeet(c, y, t)
  {
    hide Feed, Steps, LowBits, Xor, Divides, XorBits, Zeros, StepsMeet;
    SidesIffSteps(c, y, t);
    SameCrcIffDivides(0, y + LowBits(32, t), LowBits(32, c) + Zeros(|y|));
  }

  /** Said with the remainder of the message and the register moved on. */
  predicate StepsMeet(c: Word, y: seq<bool>, t: Word) {
    Steps(32, Xor(Feed(0, y), t)) == Steps(32, Steps(|y|, c))
  }

  lemma ReachesIffSteps(c: Word, y: seq<bool>, t: Word)
    ensures Feed(c, y) == t <==> StepsMeet(c, y, t)
  {
    hide Feed, Steps, Xor;
    FeedSplits(c, y);
    XorMoves(Feed(0, y), Steps(|y|, c), t);
    StepsSameIff(32, Xor(Feed(0, y), t), Steps(|y|, c));
  }

  lemma SidesIffSteps(c: Word, y: seq<bool>, t: Word)
    ensures Feed(0, y + LowBits(32, t)) == Feed(0, LowBits(32, c) + Zeros(|y|)) <==> StepsMeet(c, y, t)
  {
    hide Feed, Steps, LowBits, Xor, Zeros;
    FeedAppend(0, y, LowBits(32, t));
    FeedRegister(Feed(0, y), t);
    FeedInFront(c, |y|);
  }

  lemma ZerosLength(n: nat)
    ensures |Zeros(n)| == n
  {}

  lemma StepsSameIff(n: nat, a: Word, b: Word)
    ensures Steps(n, a) == Steps(n, b) <==> a == b
  {
    hide Steps;
    if Steps(n, a) == Steps(n, b) {
      StepsInjective(n, a, b);
    }
  }

  /** 32 bits is the limit: a difference that is the 33-bit generator, anywhere in any message, is missed. */
  lemma Burst33Missed(c: Word, x: seq<bool>, y: seq<bool>, before: nat, after: nat)
    requires |x| == |y| && XorBits(x, y) == Zeros(before) + Generator() + Zeros(after)
    ensures x != y && Feed(c, x) == Feed(c, y)
  {
    hide Feed;
    SameCrcIffZero(c, x, y);
    FeedAppend(0, Zeros(before) + Generator(), Zeros(after));
    FeedAppend(0, Zeros(before), Generator());
    FeedZeros(before);
    FeedGenerator();
    FeedZeros(after);
    assert XorBits(x, y)[before];
  }

  // ---------- A byte at a time ----------

  function LowByte(x: Word): Word {
    x & 0xFF
  }

  function HighBytes(x: Word): Word {
    x & 0xFFFFFF00
  }

  function DropByte(x: Word): Word {
    x >> 8
  }

  function ShiftUp(n: nat, w: Word): Word {
    if n == 0 then w else Up(ShiftUp(n - 1, w))
  }

  lemma {:induction false} ShiftUpWithin(n: nat, w: Word)
    requires Within(w, Mask(24))
    ensures Within(ShiftUp(n, w), Mask(24 + n))
  {
    hide Within, Xor, Up, UpWithOne;
    if n > 0 {
      ShiftUpWithin(n - 1, w);
      ShiftWithin(ShiftUp(n - 1, w), Mask(23 + n), false);
      XorZero(ShiftUp(n, w));
    }
  }

  /** Zeros at the bottom of the register just shift out. */
  lemma {:induction false} StepsOfShifted(n: nat, w: Word)
    requires n <= 8 && Within(w, Mask(24))
    ensures Steps(n, ShiftUp(n, w)) == w
  {
    hide Step, Within, Mask;
    if n > 0 {
      var v := ShiftUp(n - 1, w);
      ShiftUpWithin(n - 1, w);
      MaskGrows(23 + n, 31);
      Mask31();
      WithinTransitive(v, Mask(23 + n), Mask(31));
      StepOfShifted(v);
      StepsOfShifted(n - 1, w);
    }
  }

  lemma ShiftUpEight(x: Word)
    ensures ShiftUp(8, DropByte(x)) == HighBytes(x)
  {
    hide Up, ShiftUp;
    var w := DropByte(x);
    ShiftUpUnfold(8, w);
    ShiftUpUnfold(7, w);
    ShiftUpUnfold(6, w);
    ShiftUpUnfold(5, w);
    ShiftUpUnfold(4, w);
    ShiftUpUnfold(3, w);
    ShiftUpUnfold(2, w);
    ShiftUpUnfold(1, w);
    UpEight(w);
    assert (x >> 8) << 8 == x & 0xFFFFFF00;
  }

  lemma ShiftUpUnfold(n: nat, w: Word)
    requires n > 0
    ensures ShiftUp(n, w) == Up(ShiftUp(n - 1, w))
    ensures ShiftUp(0, w) == w
  {}

  lemma UpEight(w: Word)
    ensures Up(Up(Up(Up(Up(Up(Up(Up(w)))))))) == w << 8
  {}

  lemma WordOfByte(d: Byte)
    ensures WordOf(ByteBits(d)) == d as Word
  {
    hide WordOf, LowBits;
    assert Mask(4) == 0xF;
    assert Mask(8) == 0xFF;
    WordOfLowBits(8, d as Word);
  }

  lemma SplitByte(c: Word, d: Byte)
    ensures var x := Xor(c, d as Word);
      Xor(LowByte(x), HighBytes(x)) == x && DropByte(x) == DropByte(c)
  {}

  lemma HighWithin(x: Word)
    ensures Within(DropByte(x), Mask(24))
  {
    assert Mask(12) == 0xFFF;
    assert Mask(24) == 0xFFFFFF;
  }

  /** One table look-up does the work of eight register steps. */
  lemma TableStep(c: Word, d: Byte)
    ensures Feed(c, ByteBits(d)) == Xor(Steps(8, LowByte(Xor(c, d as Word))), DropByte(c))
  {
    hide Xor, Steps, Feed, WordOf, ShiftUp, Within, ByteBits, Mask, LowByte, HighBytes, DropByte;
    var x := Xor(c, d as Word);
    FeedIsSteps(c, ByteBits(d));
    WordOfByte(d);
    SplitByte(c, d);
    StepsLinear(8, LowByte(x), HighBytes(x));
    HighWithin(x);
    ShiftUpEight(x);
    StepsOfShifted(8, DropByte(x));
  }

  lemma {:induction false} BitsAppend(x: seq<Byte>, d: Byte)
    ensures Bits(x + [d]) == Bits(x) + ByteBits(d)
  {
    hide ByteBits;
    if x == [] {
      assert [d][1..] == [];
    } else {
      assert (x + [d])[1..] == x[1..] + [d];
      BitsAppend(x[1..], d);
    }
  }

  lemma {:induction false} BitsConcat(x: seq<Byte>, y: seq<Byte>)
    ensures Bits(x + y) == Bits(x) + Bits(y)
  {
    hide ByteBits;
    if x == [] {
      assert x + y == y;
    } else {
      assert (x + y)[1..] == x[1..] + y;
      BitsConcat(x[1..], y);
    }
  }

  /** The register once a message has been fed, before the final complement. */
  function Register(data: seq<Byte>): Word {
    Feed(0xFFFFFFFF, Bits(data))
  }

  /** Appending bytes changes a checksum as they change the register. */
  lemma CrcChange(x: seq<Byte>, y: seq<Byte>)
    ensures Xor(Crc(x + y), Crc(x)) == Xor(Feed(Register(x), Bits(y)), Register(x))
  {
    hide Feed, Bits, Xor;
    BitsConcat(x, y);
    FeedAppend(0xFFFFFFFF, Bits(x), Bits(y));
    BothComplemented(Register(x + y), Register(x));
  }

  lemma BothComplemented(a: Word, b: Word)
    ensures Xor(Xor(a, 0xFFFFFFFF), Xor(b, 0xFFFFFFFF)) == Xor(a, b)
  {}

  /** Four bytes with the checksum of the empty message. */
  const SILENT: seq<Byte> := [0x9d, 0x0a, 0xd9, 0x6d]

  lemma SilentCrc()
    ensures Crc([]) == 0 && Crc(SILENT) == 0
  {
    hide Feed, ByteBits;
    SilentBits();
    FeedAppend(0xFFFFFFFF, ByteBits(0x9d), ByteBits(0x0a) + (ByteBits(0xd9) + ByteBits(0x6d)));
    FeedAppend(0xa343ff8b, ByteBits(0x0a), ByteBits(0xd9) + ByteBits(0x6d));
    FeedAppend(0x9a1cf049, ByteBits(0xd9), ByteBits(0x6d));
    SilentSteps();
    FeedEnd(0xFFFFFFFF);
  }

  lemma SilentBits()
    ensures Bits(SILENT) == ByteBits(0x9d) + (ByteBits(0x0a) + (ByteBits(0xd9) + ByteBits(0x6d)))
    ensures Bits([]) == []
  {
    hide ByteBits;
    assert SILENT[1..] == [0x0a, 0xd9, 0x6d] && SILENT[1..][1..] == [0xd9, 0x6d] && SILENT[1..][1..][1..] == [0x6d];
    assert Bits([0x6d]) == ByteBits(0x6d);
  }

  lemma SilentSteps()
    ensures Feed(0xFFFFFFFF, ByteBits(0x9d)) == 0xa343ff8b && Feed(0xa343ff8b, ByteBits(0x0a)) == 0x9a1cf049
    ensures Feed(0x9a1cf049, ByteBits(0xd9)) == 0xf0958fb4 && Feed(0xf0958fb4, ByteBits(0x6d)) == 0xFFFFFFFF
  {
    hide Feed, ByteBits;
    TableStep(0xFFFFFFFF, 0x9d);
    TableStep(0xa343ff8b, 0x0a);
    TableStep(0x9a1cf049, 0xd9);
    TableStep(0xf0958fb4, 0x6d);
    assert Steps(8, 0x62) == 0xa3bc0074;
    assert Steps(8, 0x81) == 0x9abfb3b6;
    assert Steps(8, 0x90) == 0xf00f9344;
    assert Steps(8, 0xd9) == 0xff0f6a70;
  }

  /** Entry `i` is the register after eight steps from `i`. */
  ghost predicate IsTable(t: seq<Word>) {
    |t| == 256 && forall i :: 0 <= i < 256 ==> t[i] == Steps(8, i as Word)
  }

  /** crc32_table with its initialization flag. */
  class CrcEngine {
    const table: array<Word>
    var ready: bool

    ghost predicate Valid()
      reads this, table
    {
      && table.Length == 256
      && (ready ==> IsTable(table[..]))
    }

    constructor ()
      ensures Valid() && fresh(table)
    {
      table := new Word[256](_ => 0);
      ready := false;
    }

    /** crc32_generate_table */
    method GenerateTable()
      requires Valid()
      modifies this`ready, table
      ensures Valid() && ready
    {
      hide Steps;
      for i := 0 to 256
        invariant forall k :: 0 <= k < i ==> table[k] == Steps(8, k as Word)
      {
        var crc: Word := i as Word;
        assert Steps(0, crc) == crc by { StepsEnd(crc); }
        for j := 0 to 8
          invariant Steps(8 - j, crc) == Steps(8, i as Word)
          invariant forall k :: 0 <= k < i ==> table[k] == Steps(8, k as Word)
        {
          StepsUnfold(8 - j, crc);
          if crc & 1 == 1 {
            crc := (crc >> 1) ^ 0xEDB88320;
          } else {
            crc := crc >> 1;
          }
        }
        StepsEnd(crc);
        table[i] := crc;
      }
      ready := true;
    }

    /** crc32_calc: the table-driven checksum is the bit-at-a-time one. */
    method Calc(data: seq<Byte>) returns (crc: Word)
      requires Valid()
      modifies this`ready, table
      ensures Valid() && crc == Crc(data)
    {
      hide Steps, Feed, Xor, Bits;
      if !ready { GenerateTable(); }
      crc := 0xFFFFFFFF;
      FeedEnd(crc);
      for i := 0 to |data|
        invariant Valid() && ready
        invariant crc == Feed(0xFFFFFFFF, Bits(data[..i]))
      {
        CalcStep(crc, data, i);
        var index := LowByte(Xor(crc, data[i] as Word));
        IndexInTable(index);
        assert table[index as int] == table[..][index as int];
        crc := Xor(table[index as int], DropByte(crc));
      }
      assert data[..|data|] == data;
      crc := Xor(crc, 0xFFFFFFFF);
    }
  }

  lemma CalcStep(crc: Word, data: seq<Byte>, i: nat)
    requires i < |data| && crc == Feed(0xFFFFFFFF, Bits(data[..i]))
    ensures Feed(0xFFFFFFFF, Bits(data[..i + 1])) == Xor(Steps(8, LowByte(Xor(crc, data[i] as Word))), DropByte(crc))
  {
    hide Steps, Feed, Xor, Bits, ByteBits;
    TableStep(crc, data[i]);
    BitsAppend(data[..i], data[i]);
    FeedAppend(0xFFFFFFFF, Bits(data[..i]), ByteBits(data[i]));
    assert data[..i + 1] == data[..i] + [data[i]];
  }

  lemma StepsUnfold(n: nat, c: Word)
    requires n > 0
    ensures Steps(n, c) == Steps(n - 1, Step(c))
  {}

  lemma StepsEnd(c: Word)
    ensures Steps(0, c) == c
  {}

  lemma FeedEnd(c: Word)
    ensures Feed(c, Bits([])) == c
  {}

  lemma IndexInTable(x: Word)
    requires x & 0xFF == x
    ensures 0 <= x as int < 256 && (x as int) as Word == x
  {}
}
