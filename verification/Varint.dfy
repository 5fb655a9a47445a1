// Bytes, C integer conversions, fixed-width integers and the base-128 varints of
// common/include/kafka/rdvarint.h.
module Varint {
  import opened Arithmetic
  import opened Words
  import Crc32

  type Byte = Crc32.Byte

  function ToByte(n: nat): Byte {
    SmallByte(n % 256)
  }

  function SmallByte(n: nat): Byte
    requires n < 256
  {
    n as bv8
  }

  function FromByte(b: Byte): (n: nat)
    ensures n < 256
  {
    b as nat
  }

  lemma ByteRoundTrip(n: nat)
    ensures FromByte(ToByte(n)) == n % 256
  {
    hide SmallByte, FromByte;
    SmallByteRoundTrip(n % 256);
  }

  lemma SmallByteRoundTrip(n: nat)
    requires n < 256
    ensures FromByte(SmallByte(n)) == n
  {
    assert n % 256 == n;
  }

  // ----- integers of k bytes -----

  function Pow256(k: nat): (p: int)
    ensures 0 < p && (0 < k ==> p % 2 == 0)
  {
    if k == 0 then 1 else 256 * Pow256(k - 1)
  }

  lemma Pow256Values()
    ensures Pow256(0) == 1 && Pow256(1) == 0x100 && Pow256(2) == 0x1_0000 && Pow256(3) == 0x100_0000
    ensures Pow256(4) == 0x1_0000_0000 && Pow256(5) == 0x100_0000_0000 && Pow256(6) == 0x1_0000_0000_0000
    ensures Pow256(7) == 0x100_0000_0000_0000 && Pow256(8) == POW64
  {
  }

  // The conversion of an integer to a signed type of k bytes.
  function Cast(x: int, k: nat): (r: int)
    requires 0 < k
    ensures -Pow256(k) / 2 <= r < Pow256(k) / 2
  {
    var u: int := x % Pow256(k);
    if u < Pow256(k) / 2 then u else u - Pow256(k)
  }

  ghost predicate InRange(x: int, k: nat) {
    -Pow256(k) <= 2 * x < Pow256(k)
  }

  lemma CastIsIdentity(x: int, k: nat)
    requires 0 < k
    ensures Cast(x, k) == x <==> InRange(x, k)
  {
    if InRange(x, k) {
      if 0 <= x {
        DivModUnique(x, Pow256(k), 0, x);
      } else {
        DivModUnique(x, Pow256(k), -1, x + Pow256(k));
      }
    }
  }

  // The k bytes of n in network order.
  function BigEndian(n: nat, k: nat): (s: seq<Byte>)
    ensures |s| == k
  {
    if k == 0 then [] else BigEndian(n / 256, k - 1) + [ToByte(n)]
  }

  function FromBigEndian(s: seq<Byte>): nat {
    if s == [] then 0 else 256 * FromBigEndian(s[..|s| - 1]) + FromByte(s[|s| - 1])
  }

  lemma {:induction false} BigEndianRoundTrip(n: nat, k: nat)
    requires n < Pow256(k)
    ensures FromBigEndian(BigEndian(n, k)) == n
  {
    hide ToByte, FromByte;
    if k > 0 {
      BigEndianRoundTrip(n / 256, k - 1);
      ByteRoundTrip(n);
      FromBigEndianSnoc(BigEndian(n / 256, k - 1), ToByte(n));
    }
  }

  lemma FromBigEndianSnoc(s: seq<Byte>, b: Byte)
    ensures FromBigEndian(s + [b]) == 256 * FromBigEndian(s) + FromByte(b)
  {
    hide FromByte;
    assert (s + [b])[..|s|] == s;
  }

  lemma ByteValue(b: Byte)
    ensures FromByte(b) == b as int
  {
  }

  // Byte j of k is the digit of n with weight 256^(k-1-j): most significant first.
  lemma {:induction false} BigEndianAt(n: nat, k: nat, j: nat)
    requires j < k
    ensures BigEndian(n, k)[j] as int == n / Pow256(k - 1 - j) % 256
  {
    hide ToByte, FromByte;
    if j == k - 1 {
      ByteRoundTrip(n);
      ByteValue(ToByte(n));
    } else {
      BigEndianAt(n / 256, k - 1, j);
      DivDiv(n, 256, Pow256(k - 2 - j));
    }
  }

  lemma {:induction false} FromBigEndianAt(s: seq<Byte>, j: nat)
    requires j < |s|
    ensures FromBigEndian(s) / Pow256(|s| - 1 - j) % 256 == s[j] as int
  {
    hide FromByte, FromBigEndian;
    var init, b := s[..|s| - 1], s[|s| - 1];
    var x, y := FromBigEndian(init), FromBigEndian(s);
    ByteValue(b);
    assert s == init + [b];
    FromBigEndianSnoc(init, b);
    DivModUnique(y, 256, x, FromByte(b));
    if j < |init| {
      FromBigEndianAt(init, j);
      DivDiv(y, 256, Pow256(|init| - 1 - j));
    }
  }

  lemma {:induction false} FromBigEndianBelow(s: seq<Byte>)
    ensures FromBigEndian(s) < Pow256(|s|)
  {
    hide FromByte;
    if s != [] {
      FromBigEndianBelow(s[..|s| - 1]);
    }
  }

  // ----- base-128 varints -----

  // The encoding of n: seven bits a byte, least significant first, the top bit
  // set on every byte but the last.
  function Uvarint(n: nat): (s: seq<Byte>)
    ensures |s| > 0
  {
    if n <= 0x7f then [ToByte(n)] else [ToByte(n % 128 + 128)] + Uvarint(n / 128)
  }

  // The number spelt by the low seven bits of the bytes.
  function Base128(s: seq<Byte>): nat {
    if s == [] then 0 else FromByte(s[0]) % 128 + 128 * Base128(s[1..])
  }

  // The number of bytes up to the first one whose top bit is clear; 0 if there is none.
  function RunLength(s: seq<Byte>): (n: nat)
    ensures n <= |s|
  {
    if s == [] then 0
    else if FromByte(s[0]) < 128 then 1
    else if RunLength(s[1..]) == 0 then 0
    else 1 + RunLength(s[1..])
  }

  // The low seven bits and the top bit of the bytes that Uvarint writes.
  lemma SevenBits(n: nat)
    ensures n <= 0x7f ==> FromByte(ToByte(n)) == n == n % 128
    ensures FromByte(ToByte(n % 128 + 128)) == n % 128 + 128
    ensures (n % 128 + 128) % 128 == n % 128
  {
    hide ToByte, FromByte;
    ByteRoundTrip(n);
    ByteRoundTrip(n % 128 + 128);
  }

  lemma {:induction false} UvarintRunLength(n: nat, rest: seq<Byte>)
    ensures RunLength(Uvarint(n) + rest) == |Uvarint(n)|
  {
    hide ToByte, FromByte;
    SevenBits(n);
    if n > 0x7f {
      UvarintRunLength(n / 128, rest);
      assert (Uvarint(n) + rest)[1..] == Uvarint(n / 128) + rest;
    }
  }

  lemma {:induction false} UvarintValue(n: nat)
    ensures Base128(Uvarint(n)) == n
  {
    hide ToByte, FromByte;
    SevenBits(n);
    if n > 0x7f {
      UvarintValue(n / 128);
      assert Uvarint(n)[1..] == Uvarint(n / 128);
    }
  }

  function Pow128(k: nat): (p: nat)
    ensures 0 < p
  {
    if k == 0 then 1 else 128 * Pow128(k - 1)
  }

  // Exactly the numbers below 128^k are spelt in k bytes.
  lemma {:induction false} UvarintLength(n: nat, k: nat)
    requires 0 < k
    ensures |Uvarint(n)| <= k <==> n < Pow128(k)
  {
    if k == 1 {
    } else if n > 0x7f {
      UvarintLength(n / 128, k - 1);
    } else {
      Pow128AtLeast(k);
    }
  }

  lemma {:induction false} Pow128AtLeast(k: nat)
    requires 0 < k
    ensures Pow128(k) >= 128
  {
    if k > 1 {
      Pow128AtLeast(k - 1);
    }
  }

  lemma UvarintUnfold(n: nat, b: Byte)
    requires b == ToByte(n % 128 + if n > 0x7f then 128 else 0)
    ensures Uvarint(n) == [b] + if n / 128 != 0 then Uvarint(n / 128) else []
  {
    hide ToByte;
  }

  // Byte j is the digit of n with weight 128^j, with the top bit set on all but the last.
  lemma {:induction false} UvarintAt(n: nat, j: nat)
    requires j < |Uvarint(n)|
    ensures Uvarint(n)[j] as int == n / Pow128(j) % 128 + if j < |Uvarint(n)| - 1 then 128 else 0
  {
    hide ToByte, FromByte;
    SevenBits(n);
    ByteValue(Uvarint(n)[0]);
    if j > 0 {
      UvarintAt(n / 128, j - 1);
      DivDiv(n, 128, Pow128(j - 1));
    }
  }

  // The low seven bits of byte j are the digit with weight 128^j.
  lemma {:induction false} Base128At(s: seq<Byte>, j: nat)
    requires j < |s|
    ensures Base128(s) < Pow128(|s|)
    ensures Base128(s) / Pow128(j) % 128 == s[j] as int % 128
  {
    hide FromByte;
    ByteValue(s[0]);
    if |s| > 1 {
      Base128At(s[1..], if j > 0 then j - 1 else 0);
    }
    DivModUnique(Base128(s), 128, Base128(s[1..]), FromByte(s[0]) % 128);
    if j > 0 {
      DivDiv(Base128(s), 128, Pow128(j - 1));
    }
  }

  // The run ends at the first byte with a clear top bit.
  lemma {:induction false} RunLengthIs(s: seq<Byte>)
    ensures RunLength(s) == 0 <==> forall j :: 0 <= j < |s| ==> s[j] as int >= 128
    ensures 0 < RunLength(s) ==> s[RunLength(s) - 1] as int < 128
    ensures forall j :: 0 <= j < RunLength(s) - 1 ==> s[j] as int >= 128
  {
    hide FromByte;
    if s != [] {
      ByteValue(s[0]);
      RunLengthIs(s[1..]);
      assert forall j :: 0 < j < |s| ==> s[j] == s[1..][j - 1];
    }
  }

  lemma {:induction false} RunLengthOfPrefix(s: seq<Byte>, n: nat)
    requires n <= |s|
    ensures RunLength(s[..n]) == if RunLength(s) <= n then RunLength(s) else 0
  {
    hide FromByte;
    if 0 < n {
      RunLengthOfPrefix(s[1..], n - 1);
      assert s[..n][1..] == s[1..][..n - 1];
    }
  }

  // rd_uvarint_enc_u64: writes at most dst.Length bytes, and returns 0 when the
  // encoding is longer than that.
  method EncodeU64(dst: array<Byte>, num: nat) returns (of: nat)
    modifies dst
    ensures of == if |Uvarint(num)| <= dst.Length then |Uvarint(num)| else 0
    ensures dst[..of] == if |Uvarint(num)| <= dst.Length then Uvarint(num) else []
    ensures 0 < of ==> forall i :: of <= i < dst.Length ==> dst[i] == old(dst[i])
  {
    hide ToByte, Uvarint;
    of := 0;
    var n := num;
    ghost var todo := Uvarint(num);
    var more := true;
    while more
      invariant of <= dst.Length
      invariant Uvarint(num) == dst[..of] + todo
      invariant todo == if more then Uvarint(n) else []
      invariant forall i :: of <= i < dst.Length ==> dst[i] == old(dst[i])
      decreases more, n
    {
      if of >= dst.Length {
        return 0;
      }
      var b := ToByte(n % 128 + if n > 0x7f then 128 else 0);
      UvarintUnfold(n, b);
      dst[of] := b;
      of := of + 1;
      n := n / 128;
      more := n != 0;
      todo := todo[1..];
    }
  }

  // rd_uvarint_dec on the bytes that remain; 0 when they run out.
  method Decode(src: seq<Byte>) returns (of: nat, num: nat)
    ensures of == RunLength(src)
    ensures 0 < of ==> num == Base128(src[..of]) % POW64
  {
    hide FromByte, Base128, Pow128;
    of, num := 0, 0;
    var weight: nat, srcsize: nat, more := 1, |src|, true;
    DecodeInit(src);
    while more
      invariant of + srcsize == |src|
      invariant RunLength(src) ==
        if !more then of else if RunLength(src[of..]) == 0 then 0 else of + RunLength(src[of..])
      invariant num == Base128(src[..of]) % POW64
      invariant weight == Pow128(of)
      decreases srcsize, more
    {
      if srcsize == 0 {
        return 0, num;
      }
      srcsize := srcsize - 1;
      DecodeStep(src, of);
      num := (num + FromByte(src[of]) % 128 * weight % POW64) % POW64;
      weight := 128 * weight;
      more := FromByte(src[of]) >= 128;
      of := of + 1;
    }
  }

  lemma DecodeInit(src: seq<Byte>)
    ensures Base128(src[..0]) == 0 && Pow128(0) == 1 && src[0..] == src
  {
  }

  // One byte more, modulo 2^64.
  lemma DecodeStep(src: seq<Byte>, of: nat)
    requires of < |src|
    ensures Pow128(of + 1) == 128 * Pow128(of)
    ensures Base128(src[..of + 1]) % POW64 ==
            (Base128(src[..of]) % POW64 + FromByte(src[of]) % 128 * Pow128(of) % POW64) % POW64
    ensures src[of..][1..] == src[of + 1..]
  {
    hide FromByte, Base128;
    Base128Snoc(src[..of], src[of]);
    assert src[..of] + [src[of]] == src[..of + 1];
    ModAdd(Base128(src[..of]), FromByte(src[of]) % 128 * Pow128(of), POW64);
  }

  lemma {:induction false} Base128Snoc(s: seq<Byte>, b: Byte)
    ensures Base128(s + [b]) == Base128(s) + FromByte(b) % 128 * Pow128(|s|)
  {
    hide FromByte;
    if s == [] {
      assert ([] + [b])[1..] == [];
    } else {
      assert (s + [b])[1..] == s[1..] + [b];
      Base128Snoc(s[1..], b);
      MulShift(FromByte(b) % 128, Pow128(|s| - 1));
    }
  }

  lemma MulShift(d: nat, p: nat)
    ensures 128 * (d * p) == d * (128 * p)
  {
  }

  // ----- zig-zag -----

  function ZigZag(v: int): nat {
    if v >= 0 then 2 * v else -2 * v - 1
  }

  function UnZigZag(n: nat): int {
    if n % 2 == 0 then n / 2 else -(n / 2) - 1
  }

  // The expressions of the source on two's complement words: (num << 1) ^ (num >> 63),
  // where the right shift copies the sign, and (n >> 1) ^ -(n & 1).
  function ZigZagWord(w: Word): Word {
    (w << 1) ^ (if w & 0x8000_0000_0000_0000 != 0 then 0xffff_ffff_ffff_ffff else 0)
  }

  function UnZigZagWord(w: Word): Word {
    (w >> 1) ^ (0 - (w & 1))
  }

  lemma ZigZagCases(w: Word)
    ensures ZigZagWord(w) == if Top(w) then Flip(Shl(w)) else Shl(w)
  {
    RawXorZero(w << 1);
  }

  lemma RawXorZero(w: bv64)
    ensures w ^ 0 == w
  {
  }

  lemma UnZigZagCases(w: Word)
    ensures UnZigZagWord(w) == if Lowest(w) then Flip(Shr(w)) else Shr(w)
  {
    hide Shr, Flip;
    if Lowest(w) {
      UnZigZagOdd(w);
    } else {
      UnZigZagEven(w);
    }
  }

  lemma UnZigZagOdd(w: Word)
    requires w & 1 != 0
    ensures UnZigZagWord(w) == Flip(Shr(w))
  {
    assert w & 1 == 1;
  }

  lemma UnZigZagEven(w: Word)
    requires w & 1 == 0
    ensures UnZigZagWord(w) == Shr(w)
  {
  }

  // The word expressions compute the functions on numbers.
  lemma ZigZagWordIsZigZag(w: Word)
    ensures AsUnsigned(ZigZagWord(w)) == ZigZag(AsSigned(w))
  {
    hide AsUnsigned, ZigZagWord, Shl, Flip, Top;
    ZigZagCases(w);
    ShlDoubles(w);
    FlipSubtracts(Shl(w));
    TopIsHalf(w);
  }

  lemma UnZigZagWordIsUnZigZag(w: Word)
    ensures AsSigned(UnZigZagWord(w)) == UnZigZag(AsUnsigned(w))
  {
    hide AsUnsigned, UnZigZagWord, Shr, Flip, Top, Lowest;
    UnZigZagCases(w);
    ShrHalves(w);
    FlipSubtracts(Shr(w));
    TopIsHalf(UnZigZagWord(w));
  }

  // Each undoes the other, on every word.
  lemma ZigZagWordRoundTrip(w: Word)
    ensures UnZigZagWord(ZigZagWord(w)) == w
    ensures ZigZagWord(UnZigZagWord(w)) == w
  {
    hide ZigZagWord, UnZigZagWord, AsSigned, AsUnsigned;
    ZigZagWordIsZigZag(w);
    UnZigZagWordIsUnZigZag(ZigZagWord(w));
    SameSigned(w, UnZigZagWord(ZigZagWord(w)));
    UnZigZagWordIsUnZigZag(w);
    ZigZagWordIsZigZag(UnZigZagWord(w));
    SameUnsigned(w, ZigZagWord(UnZigZagWord(w)));
  }

  // Zig-zag numbers all integers by magnitude, a negative one before its opposite.
  lemma ZigZagOrder(v: int, w: int)
    ensures ZigZag(v) < ZigZag(w) <==> Abs(v) < Abs(w) || (Abs(v) == Abs(w) && v < w)
  {
  }

  function Abs(v: int): nat {
    if v >= 0 then v else -v
  }

  lemma ZigZagRoundTrip(v: int)
    ensures UnZigZag(ZigZag(v)) == v
    ensures InRange(v, 8) <==> ZigZag(v) < POW64
  {
    Pow256Values();
  }
}
