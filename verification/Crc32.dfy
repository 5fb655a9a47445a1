// CRC-32 as computed by common/include/kafka/rdcrc32.h (the build without zlib):
// width 32, polynomial 0x04c11db7, input and output reflected, initial value and
// final xor 0xffffffff.
//
// Bit-vector operators are given names so that proofs about many steps can hide
// them and reason with their laws; the laws are proved on bare expressions.
module Crc32 {

  type Byte = bv8
  type Word = bv32   // rd_crc32_t

  const INIT: Word := 0xffffffff
  const XOR_OUT: Word := 0xffffffff

  function Xor(x: Word, y: Word): Word {
    x ^ y
  }

  function Shl(x: Word): Word {
    x << 1
  }

  // ----- bits of a message, in the order in which they are fed ("ReflectIn") -----

  function ByteBits(b: Byte): (s: seq<bool>)
    ensures |s| == 8
  {
    [b & 1 != 0, b & 2 != 0, b & 4 != 0, b & 8 != 0, b & 16 != 0, b & 32 != 0, b & 64 != 0, b & 128 != 0]
  }

  function Bits(data: seq<Byte>): (s: seq<bool>)
    ensures |s| == 8 * |data|
  {
    if data == [] then [] else ByteBits(data[0]) + Bits(data[1..])
  }

  // ----- reference definition: long division, most significant bit first -----

  // One bit of polynomial long division by x^32 + 0x04c11db7.
  function DivideBit(r: Word, bit: bool): Word {
    if Top(r) != bit then Xor(Shl(r), 0x04c11db7) else Shl(r)
  }

  function Top(r: Word): bool {
    r & 0x80000000 != 0
  }

  function Divide(r: Word, bits: seq<bool>): Word
    decreases bits
  {
    if bits == [] then r else Divide(DivideBit(r, bits[0]), bits[1..])
  }

  // All 32 bits in reverse order ("ReflectOut"), by exchanging halves, bytes,
  // nibbles, pairs and neighbours.
  function Reflect(x: Word): Word {
    var a := (x >> 16) | (x << 16);
    var b := ((a & 0xff00ff00) >> 8) | ((a & 0x00ff00ff) << 8);
    var c := ((b & 0xf0f0f0f0) >> 4) | ((b & 0x0f0f0f0f) << 4);
    var d := ((c & 0xcccccccc) >> 2) | ((c & 0x33333333) << 2);
    ((d & 0xaaaaaaaa) >> 1) | ((d & 0x55555555) << 1)
  }

  // The CRC of a message, read off the parameters.
  function Reference(data: seq<Byte>): Word {
    Xor(Reflect(Divide(INIT, Bits(data))), XOR_OUT)
  }

  // ----- the same division on reflected registers, one bit at a time -----

  function Odd(x: Word): bool {
    x & 1 == 1
  }

  function Half(x: Word): Word {
    x >> 1
  }

  function Step(c: Word): Word {
    if Odd(c) then Xor(Half(c), 0xedb88320) else Half(c)
  }

  function Steps(n: nat, c: Word): Word {
    if n == 0 then c else Step(Steps(n - 1, c))
  }

  function Bit(bit: bool): Word {
    if bit then 1 else 0
  }

  function Feed(c: Word, bits: seq<bool>): Word
    decreases bits
  {
    if bits == [] then c else Feed(Step(Xor(c, Bit(bits[0]))), bits[1..])
  }

  // ----- the code -----

  // crc_table[i], whose contents the header only declares.
  function Table(i: Word): Word {
    Steps(8, i)
  }

  function Widen(b: Byte): Word {
    b as bv32
  }

  function Low(x: Word): Word {
    x & 0xff
  }

  function Shr8(x: Word): Word {
    x >> 8
  }

  function Mask(x: Word): Word {
    x & 0xffffffff
  }

  // One round of the loop of rd_crc32_update.
  function Absorb(crc: Word, b: Byte): Word {
    var idx := Low(Xor(crc, Widen(b)));
    Mask(Xor(Table(idx), Shr8(crc)))
  }

  // rd_crc32_update
  method Update(crc: Word, data: seq<Byte>) returns (r: Word)
    ensures r == Feed(crc, Bits(data))
  {
    hide Absorb, Table, Step, Xor;
    r := crc;
    var i: nat, len: nat := 0, |data|;
    while len > 0
      invariant i + len == |data|
      invariant Feed(crc, Bits(data)) == Feed(r, Bits(data[i..]))
      decreases len
    {
      len := len - 1;
      AbsorbIsFeed(r, data[i..]);
      r := Absorb(r, data[i]);
      i := i + 1;
    }
    MaskAll(r);
    r := Mask(r);
  }

  // rd_crc32_init, rd_crc32_finalize
  function Init(): Word {
    0xffffffff
  }

  function Finalize(crc: Word): Word {
    crc ^ 0xffffffff
  }

  // rd_crc32
  method Crc(data: seq<Byte>) returns (r: Word)
    ensures r == Reference(data)
  {
    hide Feed, Divide, Reflect;
    r := Update(Init(), data);
    r := Finalize(r);
    FeedIsDivide(INIT, Bits(data));
    ReflectInit();
  }

  // ----- laws of single expressions -----

  ghost predicate Within(p: Word, m: Word) {
    p & m == p
  }

  lemma MaskAll(x: Word)
    ensures Mask(x) == x
  {
  }

  lemma XorZero(x: Word)
    ensures Xor(x, 0) == x
  {
  }

  lemma XorAssoc(x: Word, y: Word, z: Word)
    ensures Xor(x, Xor(y, z)) == Xor(Xor(x, y), z)
  {
  }

  lemma XorCancel(x: Word, y: Word, z: Word)
    requires Xor(x, y) == Xor(x, z)
    ensures y == z
  {
    assert x ^ (x ^ y) == y && x ^ (x ^ z) == z;
  }

  lemma XorBits(x: Word, y: Word)
    ensures (x ^ y) & 1 == (x & 1) ^ (y & 1)
    ensures (x ^ y) >> 1 == (x >> 1) ^ (y >> 1)
    ensures x & 1 == 0 || x & 1 == 1
  {
  }

  lemma XorPoly(a: Word, b: Word, p: Word)
    ensures (a ^ p) ^ (b ^ p) == a ^ b && (a ^ p) ^ b == (a ^ b) ^ p && a ^ (b ^ p) == (a ^ b) ^ p
  {
  }

  lemma StepIsLinear(x: Word, y: Word)
    ensures Step(Xor(x, y)) == Xor(Step(x), Step(y))
  {
    XorBits(x, y);
    XorBits(y, x);
    XorPoly(x >> 1, y >> 1, 0xedb88320);
  }

  lemma StepIsInjective(x: Word, y: Word)
    requires Step(x) == Step(y)
    ensures x == y
  {
  }

  // All bits of p << 1 but the lowest, which is clear, pass through a step by a shift.
  lemma StepShift(x: Word, p: Word)
    requires Within(p, 0x7fffffff)
    ensures Step(Xor(x, Shl(p))) == Xor(Step(x), p)
  {
    hide Xor, Shl, Odd, Half, Within;
    ShiftBits(x, p);
    XorSwap(Half(x), p, 0xedb88320);
  }

  lemma ShiftBits(x: Word, p: Word)
    requires Within(p, 0x7fffffff)
    ensures Odd(Xor(x, Shl(p))) == Odd(x)
    ensures Half(Xor(x, Shl(p))) == Xor(Half(x), p)
  {
    hide Xor, Shl, Odd, Half;
    OddShift(x, p);
    HalfShift(x, p);
  }

  lemma OddShift(x: Word, p: Word)
    ensures Odd(Xor(x, Shl(p))) == Odd(x)
  {
    RawOddShift(x, p);
  }

  lemma RawOddShift(x: bv32, p: bv32)
    ensures (x ^ (p << 1)) & 1 == x & 1
  {
  }

  lemma HalfShift(x: Word, p: Word)
    requires Within(p, 0x7fffffff)
    ensures Half(Xor(x, Shl(p))) == Xor(Half(x), p)
  {
    RawHalfShift(x, p);
  }

  lemma RawHalfShift(x: bv32, p: bv32)
    requires p & 0x7fffffff == p
    ensures (x ^ (p << 1)) >> 1 == (x >> 1) ^ p
  {
  }

  lemma XorSwap(x: Word, y: Word, z: Word)
    ensures Xor(Xor(x, y), z) == Xor(Xor(x, z), y)
  {
    hide Xor;
    XorAssoc(x, y, z);
    XorComm(y, z);
    XorAssoc(x, z, y);
  }

  lemma ReflectShift(r: Word)
    ensures Reflect(Shl(r)) == Half(Reflect(r))
  {
    hide Reflect;
    RawReflectShift(r);
  }

  lemma RawReflectShift(r: bv32)
    ensures Reflect(r << 1) == Reflect(r) >> 1
  {
  }

  lemma ReflectTop(r: Word)
    ensures Top(r) == Odd(Reflect(r))
  {
  }

  lemma ReflectPoly(r: Word)
    ensures Reflect(Xor(r, 0x04c11db7)) == Xor(Reflect(r), 0xedb88320)
  {
    hide Reflect;
    RawReflectPoly(r);
  }

  lemma RawReflectPoly(r: bv32)
    ensures Reflect(r ^ 0x04c11db7) == Reflect(r) ^ 0xedb88320
  {
  }

  lemma StepBit(x: Word, bit: bool)
    ensures Step(Xor(x, Bit(bit))) == if Odd(x) != bit then Xor(Half(x), 0xedb88320) else Half(x)
  {
    hide Xor;
    RawBit(x);
    XorZero(x);
    RawXorOne(x);
  }

  lemma RawXorOne(x: Word)
    ensures Xor(x, 1) == x ^ 1
  {
  }

  lemma RawBit(x: bv32)
    ensures (x ^ 1) >> 1 == x >> 1
    ensures ((x ^ 1) & 1 == 1) == (x & 1 != 1)
  {
  }

  lemma ReflectInit()
    ensures Reflect(INIT) == INIT
  {
  }

  // Eight zero bits leave the register by a plain shift.
  lemma HighBits(x: Word)
    ensures Step(Step(Step(Step(Step(Step(Step(Step(x & 0xffffff00)))))))) == x >> 8
  {
  }

  lemma ByteSplit(x: Word)
    ensures x == Xor(Low(x), x & 0xffffff00)
  {
  }

  lemma LowByteShiftsOut(crc: Word, b: Byte)
    ensures Shr8(Xor(crc, Widen(b))) == Shr8(crc)
  {
    LowShiftsOut(crc, Widen(b));
  }

  lemma LowShiftsOut(crc: Word, b: Word)
    requires b <= 0xff
    ensures (crc ^ b) >> 8 == crc >> 8
  {
  }

  // ----- many steps -----

  lemma {:induction false} StepsAreLinear(n: nat, x: Word, y: Word)
    ensures Steps(n, Xor(x, y)) == Xor(Steps(n, x), Steps(n, y))
  {
    hide Xor, Step;
    if n > 0 {
      StepsAreLinear(n - 1, x, y);
      StepIsLinear(Steps(n - 1, x), Steps(n - 1, y));
    }
  }

  lemma {:induction false} StepsAreInjective(n: nat, x: Word, y: Word)
    requires Steps(n, x) == Steps(n, y)
    ensures x == y
  {
    hide Step;
    if n > 0 {
      StepIsInjective(Steps(n - 1, x), Steps(n - 1, y));
      StepsAreInjective(n - 1, x, y);
    }
  }

  lemma {:induction false} StepsInner(n: nat, x: Word)
    ensures Steps(n + 1, x) == Steps(n, Step(x))
  {
    hide Step;
    if n > 0 {
      StepsInner(n - 1, x);
    }
  }

  lemma {:induction false} FeedAppend(c: Word, s: seq<bool>, t: seq<bool>)
    ensures Feed(c, s + t) == Feed(Feed(c, s), t)
    decreases s
  {
    hide Xor, Step, Bit;
    if s == [] {
      assert s + t == t;
    } else {
      assert (s + t)[1..] == s[1..] + t;
      FeedAppend(Step(Xor(c, Bit(s[0]))), s[1..], t);
    }
  }

  lemma {:induction false} BitsAppend(a: seq<Byte>, b: seq<Byte>)
    ensures Bits(a + b) == Bits(a) + Bits(b)
  {
    hide ByteBits;
    if a == [] {
      assert a + b == b;
    } else {
      assert (a + b)[1..] == a[1..] + b;
      BitsAppend(a[1..], b);
    }
  }

  lemma {:induction false} FeedIsInjective(x: Word, y: Word, bits: seq<bool>)
    requires Feed(x, bits) == Feed(y, bits)
    ensures x == y
    decreases bits
  {
    hide Xor, Step, Bit;
    if bits != [] {
      var b := Bit(bits[0]);
      FeedIsInjective(Step(Xor(x, b)), Step(Xor(y, b)), bits[1..]);
      StepIsInjective(Xor(x, b), Xor(y, b));
      XorComm(x, b);
      XorComm(y, b);
      XorCancel(b, x, y);
    }
  }

  lemma XorComm(x: Word, y: Word)
    ensures Xor(x, y) == Xor(y, x)
  {
  }

  lemma {:induction false} FeedIsDivide(r: Word, bits: seq<bool>)
    ensures Feed(Reflect(r), bits) == Reflect(Divide(r, bits))
    decreases bits
  {
    hide Reflect, Step, Xor, Bit, DivideBit;
    if bits != [] {
      DivideBitIsStep(r, bits[0]);
      FeedIsDivide(DivideBit(r, bits[0]), bits[1..]);
    }
  }

  lemma DivideBitIsStep(r: Word, bit: bool)
    ensures Step(Xor(Reflect(r), Bit(bit))) == Reflect(DivideBit(r, bit))
  {
    hide Reflect, Step, Xor, Bit, Shl, Top, Odd, Half;
    ReflectShift(r);
    ReflectTop(r);
    ReflectPoly(Shl(r));
    StepBit(Reflect(r), bit);
  }

  // ----- up to 32 bits at once -----

  // The bits as a number, the first one least significant.
  function Pack(bits: seq<bool>): Word {
    if bits == [] then 0 else Xor(Bit(bits[0]), Shl(Pack(bits[1..])))
  }

  // n low one bits.
  function Ones(n: nat): Word {
    if n == 0 then 0 else (Ones(n - 1) << 1) | 1
  }

  lemma WithinPut(p: Word, m: Word, bit: bool)
    requires Within(p, m)
    ensures Within(Xor(Bit(bit), Shl(p)), (m << 1) | 1)
    ensures Within((p << 1) | 1, (m << 1) | 1)
  {
  }

  lemma WithinTrans(p: Word, m: Word, k: Word)
    requires Within(p, m) && Within(m, k)
    ensures Within(p, k)
  {
  }

  lemma {:induction false} PackIsWithin(w: seq<bool>)
    ensures Within(Pack(w), Ones(|w|))
  {
    hide Within, Xor, Shl, Bit;
    if w == [] {
      ZeroIsWithin(0);
    } else {
      PackIsWithin(w[1..]);
      WithinPut(Pack(w[1..]), Ones(|w| - 1), w[0]);
    }
  }

  lemma ZeroIsWithin(m: Word)
    ensures Within(0, m)
  {
  }

  lemma {:induction false} OnesGrow(n: nat)
    ensures Within(Ones(n), Ones(n + 1))
  {
    hide Within;
    if n == 0 {
      ZeroIsWithin(Ones(1));
    } else {
      OnesGrow(n - 1);
      WithinPut(Ones(n - 1), Ones(n), true);
    }
  }

  lemma OnesAre(n: nat)
    ensures n == 31 ==> Ones(n) == 0x7fffffff
  {
    assert Ones(8) == 0xff;
    assert Ones(16) == 0xffff;
    assert Ones(24) == 0xffffff;
  }

  lemma {:induction false} OnesBelow(n: nat)
    requires n <= 31
    ensures Within(Ones(n), 0x7fffffff)
    decreases 31 - n
  {
    if n == 31 {
      OnesAre(n);
    } else {
      hide *;
      OnesGrow(n);
      OnesBelow(n + 1);
      WithinTrans(Ones(n), Ones(n + 1), 0x7fffffff);
    }
  }

  lemma StepPut(c: Word, bit: bool, p: Word, n: nat)
    requires n <= 31 && Within(p, Ones(n))
    ensures Step(Xor(c, Xor(Bit(bit), Shl(p)))) == Xor(Step(Xor(c, Bit(bit))), p)
  {
    hide Ones, Xor, Step, Shl, Bit;
    OnesBelow(n);
    WithinTrans(p, Ones(n), 0x7fffffff);
    XorAssoc(c, Bit(bit), Shl(p));
    StepShift(Xor(c, Bit(bit)), p);
  }

  // Feeding up to 32 bits is one xor followed by as many steps.
  lemma {:induction false} FeedIsSteps(c: Word, w: seq<bool>)
    requires |w| <= 32
    ensures Feed(c, w) == Steps(|w|, Xor(c, Pack(w)))
    decreases w
  {
    hide Xor, Step, Bit, Shl, Ones, Within;
    if w == [] {
      XorZero(c);
    } else {
      FeedIsSteps(Step(Xor(c, Bit(w[0]))), w[1..]);
      PackIsWithin(w[1..]);
      StepPut(c, w[0], Pack(w[1..]), |w| - 1);
      StepsInner(|w| - 1, Xor(c, Pack(w)));
    }
  }

  function Shl8(x: Word): Word {
    x << 8
  }

  lemma PackByteThen(b: Byte, w: seq<bool>)
    ensures Pack(ByteBits(b) + w) == Xor(Widen(b), Shl8(Pack(w)))
  {
    hide *;
    var s, p := ByteBits(b), Pack(w);
    FourAndFour(s, w);
    PackEightThen(s[0], s[1], s[2], s[3], s[4], s[5], s[6], s[7], w);
    ByteThen(b, p);
  }

  lemma FourAndFour(s: seq<bool>, w: seq<bool>)
    requires |s| == 8
    ensures s + w == [s[0], s[1], s[2], s[3]] + ([s[4], s[5], s[6], s[7]] + w)
  {
  }

  lemma PackEightThen(a: bool, b: bool, c: bool, d: bool, e: bool, f: bool, g: bool, h: bool, w: seq<bool>)
    ensures Pack([a, b, c, d] + ([e, f, g, h] + w)) == Nest(a, b, c, d, Nest(e, f, g, h, Pack(w)))
  {
    hide Pack, Xor, Shl, Bit;
    PackFour(a, b, c, d, [e, f, g, h] + w);
    PackFour(e, f, g, h, w);
  }

  function Nest(a: bool, b: bool, c: bool, d: bool, p: Word): Word {
    Xor(Bit(a), Shl(Xor(Bit(b), Shl(Xor(Bit(c), Shl(Xor(Bit(d), Shl(p))))))))
  }

  lemma ByteThen(b: Byte, p: Word)
    ensures var s := ByteBits(b);
            Nest(s[0], s[1], s[2], s[3], Nest(s[4], s[5], s[6], s[7], p)) == Xor(Widen(b), Shl8(p))
  {
  }

  lemma PackByte(b: Byte)
    ensures Pack(ByteBits(b)) == Widen(b)
  {
    hide ByteBits, Xor, Widen;
    PackByteThen(b, []);
    assert ByteBits(b) + [] == ByteBits(b);
    XorZero(Widen(b));
  }

  lemma PackFour(a: bool, b: bool, c: bool, d: bool, w: seq<bool>)
    ensures Pack([a, b, c, d] + w) ==
            Xor(Bit(a), Shl(Xor(Bit(b), Shl(Xor(Bit(c), Shl(Xor(Bit(d), Shl(Pack(w)))))))))
  {
    hide *;
    PackCons(d, w);
    PackCons(c, [d] + w);
    PackCons(b, [c] + ([d] + w));
    PackCons(a, [b] + ([c] + ([d] + w)));
    assert [a] + ([b] + ([c] + ([d] + w))) == [a, b, c, d] + w;
  }

  lemma PackCons(b: bool, w: seq<bool>)
    ensures Pack([b] + w) == Xor(Bit(b), Shl(Pack(w)))
  {
    assert ([b] + w)[1..] == w;
  }

  lemma StepsHigh(x: Word)
    ensures Steps(8, x & 0xffffff00) == Shr8(x)
  {
    HighBits(x);
    StepsEight(x & 0xffffff00);
  }

  lemma StepsEight(x: Word)
    ensures Steps(8, x) == Step(Step(Step(Step(Step(Step(Step(Step(x))))))))
  {
    hide Step;
    assert Steps(1, x) == Step(x);
    assert Steps(3, x) == Step(Step(Steps(1, x)));
    assert Steps(5, x) == Step(Step(Steps(3, x)));
    assert Steps(7, x) == Step(Step(Steps(5, x)));
  }

  lemma AbsorbByte(c: Word, b: Byte)
    ensures Absorb(c, b) == Feed(c, ByteBits(b))
  {
    hide Step, Steps, Feed, Pack, ByteBits, Xor, Low, Shr8, Mask, Widen;
    var x := Xor(c, Widen(b));
    FeedIsSteps(c, ByteBits(b));
    PackByte(b);
    ByteSplit(x);
    LowByteShiftsOut(c, b);
    StepsAreLinear(8, Low(x), x & 0xffffff00);
    StepsHigh(x);
    MaskAll(Xor(Table(Low(x)), Shr8(c)));
  }

  lemma AbsorbIsFeed(c: Word, data: seq<Byte>)
    requires data != []
    ensures Feed(c, Bits(data)) == Feed(Absorb(c, data[0]), Bits(data[1..]))
  {
    hide Absorb, Feed;
    AbsorbByte(c, data[0]);
    FeedAppend(c, ByteBits(data[0]), Bits(data[1..]));
  }

  // ----- what the checksum detects -----

  lemma CodeIsReference(data: seq<Byte>)
    ensures Finalize(Feed(Init(), Bits(data))) == Reference(data)
  {
    hide Feed, Divide, Reflect, Xor, Finalize;
    FeedIsDivide(INIT, Bits(data));
    ReflectInit();
    FinalizeIsXor(Feed(INIT, Bits(data)));
  }

  lemma FinalizeIsXor(x: Word)
    ensures Finalize(x) == Xor(x, XOR_OUT)
  {
  }

  lemma UnputBit(bit: bool, p: Word)
    requires Within(p, 0x7fffffff)
    ensures Odd(Xor(Bit(bit), Shl(p))) == bit
    ensures Half(Xor(Bit(bit), Shl(p))) == p
  {
  }

  lemma {:induction false} PackIsInjective(w: seq<bool>, v: seq<bool>)
    requires |w| == |v| <= 32 && Pack(w) == Pack(v)
    ensures w == v
  {
    hide Xor, Shl, Bit, Odd, Half, Within, Ones;
    if w != [] {
      PackIsLow(w[1..]);
      PackIsLow(v[1..]);
      UnputBit(w[0], Pack(w[1..]));
      UnputBit(v[0], Pack(v[1..]));
      PackIsInjective(w[1..], v[1..]);
      assert w == [w[0]] + w[1..] && v == [v[0]] + v[1..];
    }
  }

  lemma PackIsLow(w: seq<bool>)
    requires |w| <= 31
    ensures Within(Pack(w), 0x7fffffff)
  {
    hide *;
    PackIsWithin(w);
    OnesBelow(|w|);
    WithinTrans(Pack(w), Ones(|w|), 0x7fffffff);
  }

  // Up to 32 bits fed from the same register can be told apart.
  lemma FeedTellsApart(c: Word, w: seq<bool>, v: seq<bool>)
    requires |w| == |v| <= 32 && Feed(c, w) == Feed(c, v)
    ensures w == v
  {
    hide Feed, Steps, Pack, Xor;
    FeedIsSteps(c, w);
    FeedIsSteps(c, v);
    StepsAreInjective(|w|, Xor(c, Pack(w)), Xor(c, Pack(v)));
    XorCancel(c, Pack(w), Pack(v));
    PackIsInjective(w, v);
  }

  lemma SameChecksumSameWindow(a: seq<Byte>, b: seq<Byte>, lo: nat, hi: nat)
    requires |a| == |b| && lo <= hi <= lo + 32 && hi <= 8 * |a|
    requires Bits(a)[..lo] == Bits(b)[..lo] && Bits(a)[hi..] == Bits(b)[hi..]
    requires Reference(a) == Reference(b)
    ensures a == b
  {
    hide *;
    var s, t := Bits(a), Bits(b);
    CodeIsReference(a);
    CodeIsReference(b);
    FinalizeIsInjective(Feed(Init(), s), Feed(Init(), t));
    FeedInThree(Init(), s, lo, hi);
    FeedInThree(Init(), t, lo, hi);
    var c := Feed(Init(), s[..lo]);
    FeedIsInjective(Feed(c, s[lo..hi]), Feed(c, t[lo..hi]), s[hi..]);
    FeedTellsApart(c, s[lo..hi], t[lo..hi]);
    SameParts(s, t, lo, hi);
    BitsAreInjective(a, b);
  }

  lemma SameParts(s: seq<bool>, t: seq<bool>, lo: nat, hi: nat)
    requires lo <= hi <= |s| && hi <= |t|
    requires s[..lo] == t[..lo] && s[lo..hi] == t[lo..hi] && s[hi..] == t[hi..]
    ensures s == t
  {
    assert s == s[..lo] + s[lo..hi] + s[hi..];
    assert t == t[..lo] + t[lo..hi] + t[hi..];
  }

  // Two messages of the same length whose bits differ, but only inside a window of
  // at most 32 consecutive bits, have different checksums.
  lemma BurstIsDetected(a: seq<Byte>, b: seq<Byte>, lo: nat, hi: nat)
    requires |a| == |b| && lo <= hi <= lo + 32 && hi <= 8 * |a|
    requires Bits(a)[..lo] == Bits(b)[..lo] && Bits(a)[hi..] == Bits(b)[hi..]
    requires a != b
    ensures Reference(a) != Reference(b)
  {
    if Reference(a) == Reference(b) {
      SameChecksumSameWindow(a, b, lo, hi);
    }
  }

  // Messages that differ in the middle only have one checksum exactly if the middles lead
  // from the register before them to one register.
  lemma SameChecksumInMiddle(pre: seq<Byte>, u: seq<Byte>, v: seq<Byte>, suf: seq<Byte>)
    ensures Reference(pre + u + suf) == Reference(pre + v + suf)
            <==> Feed(Feed(INIT, Bits(pre)), Bits(u)) == Feed(Feed(INIT, Bits(pre)), Bits(v))
  {
    hide *;
    ReferenceInThree(pre, u, suf);
    ReferenceInThree(pre, v, suf);
    var c := Feed(INIT, Bits(pre));
    var x, y := Feed(c, Bits(u)), Feed(c, Bits(v));
    if Reference(pre + u + suf) == Reference(pre + v + suf) {
      FinalizeIsInjective(Feed(x, Bits(suf)), Feed(y, Bits(suf)));
      FeedIsInjective(x, y, Bits(suf));
    }
  }

  lemma ReferenceInThree(pre: seq<Byte>, u: seq<Byte>, suf: seq<Byte>)
    ensures Reference(pre + u + suf) == Finalize(Feed(Feed(Feed(INIT, Bits(pre)), Bits(u)), Bits(suf)))
  {
    hide Reference, Feed, Bits, Finalize;
    CodeIsReference(pre + u + suf);
    BitsAppend(pre + u, suf);
    BitsAppend(pre, u);
    FeedAppend(INIT, Bits(pre + u), Bits(suf));
    FeedAppend(INIT, Bits(pre), Bits(u));
  }

  lemma FourBytesTellApart(c: Word, u: seq<Byte>, v: seq<Byte>)
    requires |u| == |v| <= 4
    ensures Feed(c, Bits(u)) == Feed(c, Bits(v)) <==> u == v
  {
    hide Feed, ByteBits;
    if Feed(c, Bits(u)) == Feed(c, Bits(v)) {
      FeedTellsApart(c, Bits(u), Bits(v));
      BitsAreInjective(u, v);
    }
  }

  lemma FinalizeIsInjective(x: Word, y: Word)
    requires Finalize(x) == Finalize(y)
    ensures x == y
  {
    assert (x ^ 0xffffffff) ^ 0xffffffff == x && (y ^ 0xffffffff) ^ 0xffffffff == y;
  }

  lemma FeedInThree(c: Word, s: seq<bool>, lo: nat, hi: nat)
    requires lo <= hi <= |s|
    ensures Feed(c, s) == Feed(Feed(Feed(c, s[..lo]), s[lo..hi]), s[hi..])
  {
    hide *;
    assert s == s[..hi] + s[hi..] && s[..hi] == s[..lo] + s[lo..hi];
    FeedAppend(c, s[..hi], s[hi..]);
    FeedAppend(c, s[..lo], s[lo..hi]);
  }

  lemma ByteBitsAreInjective(x: Byte, y: Byte)
    requires ByteBits(x) == ByteBits(y)
    ensures x == y
  {
    hide Pack;
    PackByte(x);
    PackByte(y);
  }

  lemma {:induction false} BitsAreInjective(a: seq<Byte>, b: seq<Byte>)
    requires |a| == |b| && Bits(a) == Bits(b)
    ensures a == b
  {
    hide ByteBits;
    if a != [] {
      assert Bits(a)[..8] == ByteBits(a[0]) && Bits(a)[8..] == Bits(a[1..]);
      assert Bits(b)[..8] == ByteBits(b[0]) && Bits(b)[8..] == Bits(b[1..]);
      ByteBitsAreInjective(a[0], b[0]);
      BitsAreInjective(a[1..], b[1..]);
      assert a == [a[0]] + a[1..] && b == [b[0]] + b[1..];
    }
  }

  // What is left in the register when a message is followed by its own checksum.
  const RESIDUE: Word := 0xdebb20e3

  // A checksum as it is appended to a message: least significant byte first.
  function Trailer(x: Word): (s: seq<Byte>)
    ensures |s| == 4
  {
    [(x & 0xff) as bv8, ((x >> 8) & 0xff) as bv8, ((x >> 16) & 0xff) as bv8, ((x >> 24) & 0xff) as bv8]
  }

  // A receiver may run the loop over message and trailer and compare with one
  // constant: that accepts the right trailer of every message, and no other.
  lemma TrailerIsAccepted(data: seq<Byte>, t: seq<Byte>)
    requires |t| == 4
    ensures Feed(INIT, Bits(data + t)) == RESIDUE <==> t == Trailer(Reference(data))
  {
    var c := Feed(INIT, Bits(data));
    CodeIsReference(data);
    hide Feed, Steps, Pack, Xor, Bits, Trailer;
    BitsAppend(data, t);
    FeedAppend(INIT, Bits(data), Bits(t));
    FeedIsSteps(c, Bits(t));
    StepsOfAllOnes();
    if t == Trailer(Reference(data)) {
      PackTrailer(Reference(data));
      XorFinalize(c, Pack(Bits(t)));
    }
    if Feed(c, Bits(t)) == RESIDUE {
      StepsAreInjective(32, Xor(c, Pack(Bits(t))), INIT);
      XorFinalize(c, Pack(Bits(t)));
      PackTrailer(Reference(data));
      PackIsInjective(Bits(t), Bits(Trailer(Reference(data))));
      BitsAreInjective(t, Trailer(Reference(data)));
    }
  }

  lemma XorFinalize(c: Word, p: Word)
    ensures Xor(c, p) == INIT <==> p == Finalize(c)
  {
    hide Xor, Finalize;
    XorOwnComplement(c);
    if Xor(c, p) == INIT {
      XorCancel(c, p, Finalize(c));
    }
  }

  lemma XorOwnComplement(c: Word)
    ensures Xor(c, Finalize(c)) == INIT
  {
  }

  lemma {:induction false} StepsAdd(m: nat, n: nat, x: Word)
    ensures Steps(m + n, x) == Steps(m, Steps(n, x))
  {
    hide Step;
    if m > 0 {
      StepsAdd(m - 1, n, x);
    }
  }

  lemma StepsOfAllOnes()
    ensures Steps(32, INIT) == RESIDUE
  {
    assert Steps(8, INIT) == 0x2dfd1072;
    assert Steps(8, 0x2dfd1072 as bv32) == 0xbe26ed00;
    assert Steps(8, 0xbe26ed00 as bv32) == 0x00be26ed;
    assert Steps(8, 0x00be26ed as bv32) == RESIDUE;
    StepsAdd(8, 8, INIT);
    StepsAdd(8, 16, INIT);
    StepsAdd(8, 24, INIT);
  }

  lemma PackTrailer(x: Word)
    ensures Pack(Bits(Trailer(x))) == x
  {
    var t := Trailer(x);
    hide Pack, Xor, Shl8, Widen, ByteBits, Trailer;
    PackByteThen(t[3], []);
    PackByteThen(t[2], Bits(t[3..]));
    PackByteThen(t[1], Bits(t[2..]));
    PackByteThen(t[0], Bits(t[1..]));
    assert t[1..][1..] == t[2..] && t[2..][1..] == t[3..] && t[3..][1..] == [];
    assert Bits(t[3..]) == ByteBits(t[3]) + [];
    PackEmpty();
    BytesOfTrailer(x);
  }

  lemma PackEmpty()
    ensures Pack([]) == 0
  {
  }

  lemma BytesOfTrailer(x: Word)
    ensures var t := Trailer(x);
            Xor(Widen(t[0]), Shl8(Xor(Widen(t[1]), Shl8(Xor(Widen(t[2]), Shl8(Xor(Widen(t[3]), Shl8(0)))))))) == x
  {
  }

  // ----- two values that fix the parameters -----

  // The empty message has the checksum 0, and "a" has 0xe8b7be43.
  lemma KnownValues()
    ensures Reference([]) == 0
    ensures Reference([0x61]) == 0xe8b7be43
  {
    hide *;
    CodeIsReference([]);
    var a: seq<Byte> := [0x61];
    CodeIsReference(a);
    FeedNothing(Init());
    AbsorbIsFeed(Init(), a);
    assert a[1..] == [];
    FirstRound();
    FeedNothing(0x174841bc);
  }

  lemma FeedNothing(c: Word)
    ensures Feed(c, Bits([])) == c
  {
  }

  lemma FirstRound()
    ensures Absorb(Init(), 0x61) == 0x174841bc
    ensures Finalize(Init()) == 0 && Finalize(0x174841bc) == 0xe8b7be43
  {
  }
}
