// The Kafka wire format as common/include/kafka/rdkafka_buf.h writes and reads it:
// what one value looks like in the buffer, and what the reader makes of the bytes.
module Wire {
  import opened Arithmetic
  import opened Options
  import opened Varint
  import opened Words

  // What is written.  None stands for a NULL string or a NULL byte array.
  datatype Field =
    | Int(size: nat, i: int)            // write_i8, write_i16, write_i32, write_i64
    | Unsigned(u: nat)                  // write_uvarint
    | Signed(v: int)                    // write_varint
    | Str(str: Option<seq<Byte>>)       // write_str, write_kstr
    | Bytes(bytes: Option<seq<Byte>>)   // write_bytes, write_kbytes
    | Tags                              // write_tags

  // What is asked for when reading.
  datatype Kind = IntKind(size: nat) | UnsignedKind | SignedKind | StrKind | BytesKind | TagsKind

  function KindOf(f: Field): Kind {
    match f
    case Int(k, _) => IntKind(k)
    case Unsigned(_) => UnsignedKind
    case Signed(_) => SignedKind
    case Str(_) => StrKind
    case Bytes(_) => BytesKind
    case Tags => TagsKind
  }

  // The C types: int8_t to int64_t, uint64_t, int64_t, and lengths of type size_t
  // other than (size_t)-1, which asks for strlen().
  ghost predicate WellTyped(f: Field) {
    match f
    case Int(k, i) => k in {1, 2, 4, 8} && InRange(i, k)
    case Unsigned(u) => u < POW64
    case Signed(v) => InRange(v, 8)
    case Str(s) => s.Some? ==> |s.value| < POW64 - 1
    case Bytes(s) => s.Some? ==> |s.value| < POW64 - 1
    case Tags => true
  }

  // ----- writing -----

  function EncodeInt(i: int, k: nat): (s: seq<Byte>)
    ensures |s| == k
  {
    BigEndian(i % Pow256(k), k)
  }

  function EncodeStr(flexver: bool, s: Option<seq<Byte>>): seq<Byte> {
    if !flexver then
      match s
      case None => EncodeInt(-1, 2)
      case Some(b) => EncodeInt(Cast(|b|, 2), 2) + b
    else
      match s
      case None => Uvarint(0)
      case Some(b) => Uvarint(|b| + 1) + b
  }

  function EncodeBytes(s: Option<seq<Byte>>): seq<Byte> {
    match s
    case None => EncodeInt(-1, 4)
    case Some(b) => EncodeInt(Cast(|b|, 4), 4) + b
  }

  function EncodeTags(flexver: bool): seq<Byte> {
    if flexver then EncodeInt(0, 1) else []
  }

  function Encode(flexver: bool, f: Field): seq<Byte> {
    match f
    case Int(k, i) => EncodeInt(i, k)
    case Unsigned(u) => Uvarint(u)
    case Signed(v) => Uvarint(ZigZag(v))
    case Str(s) => EncodeStr(flexver, s)
    case Bytes(s) => EncodeBytes(s)
    case Tags => EncodeTags(flexver)
  }

  function EncodeAll(flexver: bool, fs: seq<Field>): seq<Byte> {
    if fs == [] then [] else Encode(flexver, fs[0]) + EncodeAll(flexver, fs[1..])
  }

  // ----- reading -----

  // A value and the number of bytes it took.
  datatype Parsed<T> = Underflow | OutOfRange | Parsed(value: T, size: nat)

  function DecodeInt(src: seq<Byte>, k: nat): (r: Parsed<int>)
    requires 0 < k
    ensures r.Parsed? ==> r.size <= |src|
  {
    if |src| < k then Underflow else Parsed.Parsed(Cast(FromBigEndian(src[..k]), k), k)
  }

  function DecodeUvarint(src: seq<Byte>): (r: Parsed<nat>)
    ensures r.Parsed? ==> 0 < r.size <= |src| && r.value < POW64
  {
    var n := RunLength(src);
    if n == 0 then Underflow else Parsed.Parsed(Base128(src[..n]) % POW64, n)
  }

  // A value that starts n bytes further on.
  function After<T>(n: nat, r: Parsed<T>): Parsed<T> {
    match r
    case Parsed(x, m) => Parsed.Parsed(x, n + m)
    case e => e
  }

  // Contents of the length just read; a length of -1 means NULL.  Another negative
  // length is a huge one once converted to size_t.
  function DecodeContents(len: int, src: seq<Byte>): (r: Parsed<Option<seq<Byte>>>)
  {
    if len == -1 then Parsed.Parsed(None, 0)
    else if len < 0 || len > |src| then Underflow
    else Parsed.Parsed(Some(src[..len]), len)
  }

  function DecodeStr(flexver: bool, src: seq<Byte>): Parsed<Option<seq<Byte>>> {
    if flexver then
      match DecodeUvarint(src)
      case Parsed(u, n) => After(n, DecodeContents(Cast(Cast(u, 4) - 1, 4), src[n..]))
      case _ => Underflow
    else
      match DecodeInt(src, 2)
      case Parsed(len, n) => After(n, DecodeContents(len, src[n..]))
      case _ => Underflow
  }

  function DecodeBytes(src: seq<Byte>): Parsed<Option<seq<Byte>>> {
    match DecodeInt(src, 4)
    case Parsed(len, n) => After(n, DecodeContents(len, src[n..]))
    case _ => Underflow
  }

  // skip_tags: `cnt` times a type, a length, and a skip of that length less one.
  function SkipTags(cnt: nat, src: seq<Byte>): (r: Parsed<()>)
    decreases cnt
  {
    if cnt == 0 then Parsed.Parsed((), 0)
    else
      match SkipTag(src)
      case Parsed(_, n) => After(n, SkipTags(cnt - 1, src[n..]))
      case _ => Underflow
  }

  function SkipTag(src: seq<Byte>): (r: Parsed<()>)
    ensures r.Parsed? ==> r.size <= |src|
  {
    match DecodeUvarint(src)
    case Parsed(_, n) => (
      match DecodeUvarint(src[n..])
      case Parsed(len, m) =>
        var skip := if len > 1 then len - 1 else 0;
        if n + m + skip > |src| then Underflow else Parsed.Parsed((), n + m + skip)
      case _ => Underflow)
    case _ => Underflow
  }

  function DecodeTags(flexver: bool, src: seq<Byte>): Parsed<()> {
    if !flexver then Parsed.Parsed((), 0)
    else
      match DecodeUvarint(src)
      case Parsed(cnt, n) => After(n, SkipTags(cnt, src[n..]))
      case _ => Underflow
  }

  function DecodeArrayCnt(flexver: bool, maxval: int, src: seq<Byte>): (r: Parsed<int>)
    ensures r.Parsed? ==> 0 <= r.value && (maxval == -1 || r.value <= maxval)
  {
    var r: Parsed<int> :=
      if flexver then
        match DecodeUvarint(src)
        case Parsed(u, n) => Parsed.Parsed(Cast(Cast(u, 4) - 1, 4), n)
        case _ => Underflow
      else DecodeInt(src, 4);
    if r.Parsed? && (r.value < 0 || (maxval != -1 && r.value > maxval)) then OutOfRange else r
  }

  function MapParsed<T, U>(r: Parsed<T>, f: T -> U): Parsed<U> {
    match r
    case Parsed(x, n) => Parsed.Parsed(f(x), n)
    case Underflow => Underflow
    case OutOfRange => OutOfRange
  }

  function Decode(flexver: bool, kind: Kind, src: seq<Byte>): Parsed<Field> {
    match kind
    case IntKind(k) => if k == 0 then OutOfRange else MapParsed(DecodeInt(src, k), i => Int(k, i))
    case UnsignedKind => MapParsed(DecodeUvarint(src), u => Unsigned(u))
    case SignedKind => MapParsed(DecodeUvarint(src), u => Signed(UnZigZag(u)))
    case StrKind => MapParsed(DecodeStr(flexver, src), s => Str(s))
    case BytesKind => MapParsed(DecodeBytes(src), s => Bytes(s))
    case TagsKind => MapParsed(DecodeTags(flexver, src), _ => Tags)
  }

  function DecodeAll(flexver: bool, kinds: seq<Kind>, src: seq<Byte>): Parsed<seq<Field>> {
    if kinds == [] then Parsed.Parsed([], 0)
    else match Decode(flexver, kinds[0], src)
      case Parsed(f, n) => (
        if n > |src| then Underflow
        else match DecodeAll(flexver, kinds[1..], src[n..])
          case Parsed(fs, m) => Parsed.Parsed([f] + fs, n + m)
          case e => Underflow)
      case _ => Underflow
  }

  // ----- the bytes on the wire -----

  // An integer is its two's complement in network order: byte j of k is the digit with
  // weight 256^(k-1-j).
  lemma IntOnWire(i: int, k: nat, j: nat)
    requires j < k
    ensures EncodeInt(i, k)[j] as int == i % Pow256(k) / Pow256(k - 1 - j) % 256
  {
    BigEndianAt(i % Pow256(k), k, j);
  }

  // Of any bytes, what is read is the one integer in the range of k bytes that has the
  // first k of them as its digits.
  lemma IntOffWire(src: seq<Byte>, k: nat, j: nat)
    requires j < k <= |src|
    ensures var r := DecodeInt(src, k);
            && r.Parsed? && r.size == k && InRange(r.value, k)
            && r.value % Pow256(k) / Pow256(k - 1 - j) % 256 == src[j] as int
  {
    var u := FromBigEndian(src[..k]);
    FromBigEndianAt(src[..k], j);
    FromBigEndianBelow(src[..k]);
    DivModUnique(u, Pow256(k), 0, u);
    if u >= Pow256(k) / 2 {
      DivModUnique(u - Pow256(k), Pow256(k), -1, u);
    }
  }

  // Of any bytes, what is read is the number that the low seven bits spell, least
  // significant first, up to the first byte below 0x80; without such a byte, nothing is.
  lemma UvarintOffWire(src: seq<Byte>)
    ensures var r := DecodeUvarint(src);
            && (!r.Parsed? <==> forall j :: 0 <= j < |src| ==> src[j] as int >= 128)
            && (r.Parsed? ==> && r.value == Base128(src[..r.size]) % POW64
                              && src[r.size - 1] as int < 128
                              && forall j :: 0 <= j < r.size - 1 ==> src[j] as int >= 128)
  {
    hide RunLength, Base128;
    RunLengthIs(src);
  }

  // A string within its limit is its length, or -1, and the characters ...
  lemma StrOnWire(s: Option<seq<Byte>>)
    ensures s == None ==> AllBytes(EncodeStr(false, s), 2, 255)
    ensures s.Some? && |s.value| < 0x8000 ==>
              var e := EncodeStr(false, s);
              |e| == |s.value| + 2 && e[0] as int * 256 + e[1] as int == |s.value| && e[2..] == s.value
  {
    hide EncodeInt;
    NullHeaders();
    if s.Some? && |s.value| < 0x8000 {
      Header2(|s.value|);
    }
  }

  // ... and in the compact encoding its length plus one, or 0, as a varint in front.
  lemma CompactStrOnWire(s: Option<seq<Byte>>)
    ensures s == None ==> AllBytes(EncodeStr(true, s), 1, 0)
    ensures s.Some? ==>
              var e := EncodeStr(true, s); var n := |e| - |s.value|;
              && 0 < n && e[n..] == s.value && (forall j :: 0 <= j < n - 1 ==> e[j] as int >= 128)
              && e[n - 1] as int < 128 && Base128(e[..n]) == |s.value| + 1
  {
    hide Uvarint, EncodeInt, Base128;
    NullHeaders();
    if s.Some? {
      var u := Uvarint(|s.value| + 1);
      assert (u + s.value)[..|u|] == u && (u + s.value)[|u|..] == s.value;
      UvarintValue(|s.value| + 1);
      UvarintTops(|s.value| + 1);
    }
  }

  lemma UvarintTops(n: nat)
    ensures var u := Uvarint(n);
            (forall j :: 0 <= j < |u| - 1 ==> u[j] as int >= 128) && u[|u| - 1] as int < 128
  {
    hide Uvarint, Pow128;
    forall j | 0 <= j < |Uvarint(n)|
      ensures j < |Uvarint(n)| - 1 <==> Uvarint(n)[j] as int >= 128
    {
      UvarintAt(n, j);
    }
  }

  lemma Header2(n: nat)
    requires n < 0x8000
    ensures var h := EncodeInt(Cast(n, 2), 2); h[0] as int * 256 + h[1] as int == n
  {
    hide EncodeInt, Cast, Pow256;
    Pow256Values();
    CastIsIdentity(n, 2);
    Digit(n, 2, 0, 0x1_0000, 0x100);
    Digit(n, 2, 1, 0x1_0000, 1);
    TwoDigits(n, EncodeInt(n, 2)[0] as int, EncodeInt(n, 2)[1] as int);
  }

  lemma Header4(n: nat)
    requires n < 0x8000_0000
    ensures var h := EncodeInt(Cast(n, 4), 4);
            h[0] as int * 0x100_0000 + h[1] as int * 0x1_0000 + h[2] as int * 0x100 + h[3] as int == n
  {
    hide EncodeInt, Cast, Pow256;
    Pow256Values();
    CastIsIdentity(n, 4);
    Digit(n, 4, 0, 0x1_0000_0000, 0x100_0000);
    Digit(n, 4, 1, 0x1_0000_0000, 0x1_0000);
    Digit(n, 4, 2, 0x1_0000_0000, 0x100);
    Digit(n, 4, 3, 0x1_0000_0000, 1);
    FourDigits(n);
  }

  lemma TwoDigits(n: nat, x: int, y: int)
    requires n < 0x1_0000 && x == n / 0x100 % 256 && y == n / 1 % 256
    ensures x * 256 + y == n
  {
  }

  lemma FourDigits(n: nat)
    requires n < 0x1_0000_0000
    ensures n / 0x100_0000 % 256 * 0x100_0000 + n / 0x1_0000 % 256 * 0x1_0000 + n / 0x100 % 256 * 0x100 + n % 256 == n
  {
    var a, b, c := n / 0x100, n / 0x1_0000, n / 0x100_0000;
    assert b == a / 256 && c == b / 256;
  }

  // Byte j of an integer of k bytes, with the powers of 256 given.
  lemma Digit(i: int, k: nat, j: nat, all: nat, weight: nat)
    requires j < k && all == Pow256(k) && weight == Pow256(k - 1 - j)
    ensures EncodeInt(i, k)[j] as int == i % all / weight % 256
    ensures 0 <= i < all ==> i % all == i
  {
    hide EncodeInt, Pow256;
    IntOnWire(i, k, j);
    if 0 <= i < all {
      DivModUnique(i, all, 0, i);
    }
  }

  // All bytes have the same value.
  ghost predicate AllBytes(s: seq<Byte>, size: nat, value: int) {
    |s| == size && forall j :: 0 <= j < size ==> s[j] as int == value
  }

  lemma NullHeaders()
    ensures AllBytes(EncodeInt(-1, 2), 2, 255) && AllBytes(EncodeInt(-1, 4), 4, 255)
    ensures AllBytes(Uvarint(0), 1, 0) && AllBytes(EncodeInt(0, 1), 1, 0)
  {
    hide Pow256;
    Pow256Values();
    MinusOneDigits();
    Digit(-1, 2, 0, 0x1_0000, 0x100);
    Digit(-1, 2, 1, 0x1_0000, 1);
    Digit(-1, 4, 0, 0x1_0000_0000, 0x100_0000);
    Digit(-1, 4, 1, 0x1_0000_0000, 0x1_0000);
    Digit(-1, 4, 2, 0x1_0000_0000, 0x100);
    Digit(-1, 4, 3, 0x1_0000_0000, 1);
    hide EncodeInt, Uvarint;
    UvarintAt(0, 0);
    ZeroTags();
  }

  lemma MinusOneDigits()
    ensures var m: int := -1; m % 0x1_0000 == 0xffff && m % 0x1_0000_0000 == 0xffff_ffff
  {
  }

  // A byte array within its limit is its length, or -1, and the bytes.
  lemma BytesOnWire(s: Option<seq<Byte>>)
    ensures s == None ==> AllBytes(EncodeBytes(s), 4, 255)
    ensures s.Some? && |s.value| < 0x8000_0000 ==>
              var e := EncodeBytes(s);
              && |e| == |s.value| + 4 && e[4..] == s.value
              && e[0] as int * 0x100_0000 + e[1] as int * 0x1_0000 + e[2] as int * 0x100 + e[3] as int == |s.value|
  {
    hide EncodeInt;
    NullHeaders();
    if s.Some? && |s.value| < 0x8000_0000 {
      Header4(|s.value|);
    }
  }

  // No tags are a single 0, in flexible mode only.
  lemma TagsOnWire(flexver: bool)
    ensures AllBytes(EncodeTags(flexver), if flexver then 1 else 0, 0)
  {
    NullHeaders();
  }

  // ----- bytes that are not there -----

  // p is what a reader that makes r of all bytes makes of the first n: the same if these
  // are all that it took, an underflow otherwise.
  ghost predicate OnPrefix<T>(r: Parsed<T>, p: Parsed<T>, n: nat) {
    r.Parsed? ==> p == if r.size <= n then r else Underflow
  }

  lemma IntOnPrefix(src: seq<Byte>, k: nat, n: nat)
    requires 0 < k && n <= |src|
    ensures OnPrefix(DecodeInt(src, k), DecodeInt(src[..n], k), n)
  {
    assert k <= n ==> src[..n][..k] == src[..k];
  }

  lemma UvarintOnPrefix(src: seq<Byte>, n: nat)
    requires n <= |src|
    ensures OnPrefix(DecodeUvarint(src), DecodeUvarint(src[..n]), n)
  {
    hide RunLength, Base128;
    RunLengthOfPrefix(src, n);
    assert RunLength(src) <= n ==> src[..n][..RunLength(src)] == src[..RunLength(src)];
  }

  lemma ContentsOnPrefix(len: int, src: seq<Byte>, n: nat)
    requires n <= |src|
    ensures OnPrefix(DecodeContents(len, src), DecodeContents(len, src[..n]), n)
    ensures DecodeContents(len, src).Parsed? ==> DecodeContents(len, src).size <= |src|
  {
    assert 0 <= len <= n ==> src[..n][..len] == src[..len];
  }

  lemma RestOfPrefix(src: seq<Byte>, m: nat, n: nat)
    requires m <= n <= |src|
    ensures src[..n][m..] == src[m..][..n - m]
  {
  }

  lemma StrOnPrefix(flexver: bool, src: seq<Byte>, n: nat)
    requires n <= |src|
    ensures OnPrefix(DecodeStr(flexver, src), DecodeStr(flexver, src[..n]), n)
    ensures DecodeStr(flexver, src).Parsed? ==> DecodeStr(flexver, src).size <= |src|
  {
    hide DecodeUvarint, DecodeInt, DecodeContents, Cast;
    var m, len := 0, 0;
    if flexver {
      UvarintOnPrefix(src, n);
      var r := DecodeUvarint(src);
      if r.Parsed? {
        m, len := r.size, Cast(Cast(r.value, 4) - 1, 4);
      }
    } else {
      IntOnPrefix(src, 2, n);
      var r := DecodeInt(src, 2);
      if r.Parsed? {
        m, len := r.size, r.value;
      }
    }
    ContentsOnPrefix(len, src[m..], if m <= n then n - m else 0);
    if m <= n {
      RestOfPrefix(src, m, n);
    }
  }

  lemma BytesOnPrefix(src: seq<Byte>, n: nat)
    requires n <= |src|
    ensures OnPrefix(DecodeBytes(src), DecodeBytes(src[..n]), n)
    ensures DecodeBytes(src).Parsed? ==> DecodeBytes(src).size <= |src|
  {
    hide DecodeInt, DecodeContents;
    IntOnPrefix(src, 4, n);
    var r := DecodeInt(src, 4);
    if r.Parsed? {
      ContentsOnPrefix(r.value, src[r.size..], if r.size <= n then n - r.size else 0);
      if r.size <= n {
        RestOfPrefix(src, r.size, n);
      }
    }
  }

  lemma SkipTagOnPrefix(src: seq<Byte>, n: nat)
    requires n <= |src|
    ensures OnPrefix(SkipTag(src), SkipTag(src[..n]), n)
  {
    hide DecodeUvarint;
    UvarintOnPrefix(src, n);
    var r := DecodeUvarint(src);
    if r.Parsed? && r.size <= n {
      RestOfPrefix(src, r.size, n);
      UvarintOnPrefix(src[r.size..], n - r.size);
    }
  }

  lemma SkipNone(src: seq<Byte>)
    ensures SkipTags(0, src) == Parsed.Parsed((), 0)
  {
  }

  lemma SkipUnfold(cnt: nat, src: seq<Byte>)
    requires 0 < cnt
    ensures SkipTags(cnt, src) ==
            if SkipTag(src).Parsed? then After(SkipTag(src).size, SkipTags(cnt - 1, src[SkipTag(src).size..]))
            else Underflow
  {
  }

  lemma {:induction false} SkipTagsOnPrefix(cnt: nat, src: seq<Byte>, n: nat)
    requires n <= |src|
    ensures OnPrefix(SkipTags(cnt, src), SkipTags(cnt, src[..n]), n)
    ensures SkipTags(cnt, src).Parsed? ==> SkipTags(cnt, src).size <= |src|
  {
    hide SkipTag, SkipTags;
    if cnt == 0 {
      SkipNone(src);
      SkipNone(src[..n]);
      return;
    }
    SkipUnfold(cnt, src);
    SkipUnfold(cnt, src[..n]);
    SkipTagOnPrefix(src, n);
    var r := SkipTag(src);
    if r.Parsed? {
      SkipTagsOnPrefix(cnt - 1, src[r.size..], if r.size <= n then n - r.size else 0);
      if r.size <= n {
        RestOfPrefix(src, r.size, n);
      }
    }
  }

  lemma TagsOnPrefix(flexver: bool, src: seq<Byte>, n: nat)
    requires n <= |src|
    ensures OnPrefix(DecodeTags(flexver, src), DecodeTags(flexver, src[..n]), n)
    ensures DecodeTags(flexver, src).Parsed? ==> DecodeTags(flexver, src).size <= |src|
  {
    hide DecodeUvarint, SkipTags;
    UvarintOnPrefix(src, n);
    var r := DecodeUvarint(src);
    if r.Parsed? {
      SkipTagsOnPrefix(r.value, src[r.size..], if r.size <= n then n - r.size else 0);
      if r.size <= n {
        RestOfPrefix(src, r.size, n);
      }
    }
  }

  lemma ArrayCntOnPrefix(flexver: bool, maxval: int, src: seq<Byte>, n: nat)
    requires n <= |src|
    ensures OnPrefix(DecodeArrayCnt(flexver, maxval, src), DecodeArrayCnt(flexver, maxval, src[..n]), n)
  {
    hide DecodeUvarint, DecodeInt, Cast;
    UvarintOnPrefix(src, n);
    IntOnPrefix(src, 4, n);
  }

  // A value that was read from some bytes is read from any first part of them that holds
  // all it took, and from no shorter part.
  lemma FieldOnPrefix(flexver: bool, kind: Kind, src: seq<Byte>, n: nat)
    requires n <= |src|
    ensures OnPrefix(Decode(flexver, kind, src), Decode(flexver, kind, src[..n]), n)
    ensures Decode(flexver, kind, src).Parsed? ==> Decode(flexver, kind, src).size <= |src|
  {
    hide DecodeUvarint, DecodeInt, DecodeStr, DecodeBytes, DecodeTags;
    match kind
    case IntKind(k) => if k > 0 { IntOnPrefix(src, k, n); }
    case UnsignedKind => UvarintOnPrefix(src, n);
    case SignedKind => UvarintOnPrefix(src, n);
    case StrKind => StrOnPrefix(flexver, src, n);
    case BytesKind => BytesOnPrefix(src, n);
    case TagsKind => TagsOnPrefix(flexver, src, n);
  }

  lemma {:induction false} MessageOnPrefix(flexver: bool, kinds: seq<Kind>, src: seq<Byte>, n: nat)
    requires n <= |src|
    ensures OnPrefix(DecodeAll(flexver, kinds, src), DecodeAll(flexver, kinds, src[..n]), n)
    decreases kinds
  {
    hide Decode;
    if kinds != [] {
      FieldOnPrefix(flexver, kinds[0], src, n);
      var r := Decode(flexver, kinds[0], src);
      if r.Parsed? && r.size <= n {
        RestOfPrefix(src, r.size, n);
        MessageOnPrefix(flexver, kinds[1..], src[r.size..], n - r.size);
      }
    }
  }

  // A truncated message is never read: every part of it that lacks bytes at the end
  // underflows.
  lemma TruncatedMessage(flexver: bool, fs: seq<Field>, n: nat)
    requires forall f :: f in fs ==> WellTyped(f) && Fits(flexver, f)
    requires n < |EncodeAll(flexver, fs)|
    ensures DecodeAll(flexver, KindsOf(fs), EncodeAll(flexver, fs)[..n]) == Underflow
  {
    hide DecodeAll, EncodeAll, KindsOf, WellTyped, Fits;
    var e := EncodeAll(flexver, fs);
    assert e + [] == e;
    MessageRoundTrip(flexver, fs, []);
    MessageOnPrefix(flexver, KindsOf(fs), e, n);
  }

  // Whatever the bytes, a string or a byte array is read exactly if the length in front is
  // there, is -1 or not negative, and no larger than what remains; otherwise it underflows.
  lemma StrFailsIff(src: seq<Byte>)
    ensures var r := DecodeStr(false, src);
            && (r == Underflow
                <==> |src| < 2 || var len := DecodeInt(src, 2).value; len < -1 || len > |src| - 2)
            && r != OutOfRange
  {
    hide Cast, FromBigEndian;
  }

  lemma BytesFailIff(src: seq<Byte>)
    ensures var r := DecodeBytes(src);
            && (r == Underflow
                <==> |src| < 4 || var len := DecodeInt(src, 4).value; len < -1 || len > |src| - 4)
            && r != OutOfRange
  {
    hide Cast, FromBigEndian;
  }

  lemma CompactStrFailsIff(src: seq<Byte>)
    ensures var r, u := DecodeStr(true, src), DecodeUvarint(src);
            && (r == Underflow
                <==> !u.Parsed? || var len := Cast(u.value - 1, 4); len < -1 || len > |src| - u.size)
            && r != OutOfRange
  {
    hide DecodeUvarint, Cast;
    NeverOutOfRange(src);
    if DecodeUvarint(src).Parsed? {
      CastPred(DecodeUvarint(src).value, 4);
    }
  }

  // An array count fails exactly on missing bytes, below zero, and above a maximum other
  // than -1; otherwise it is the number in front, less one in flexible mode.
  lemma ArrayCntIs(maxval: int, src: seq<Byte>)
    ensures |src| < 4 <==> DecodeArrayCnt(false, maxval, src) == Underflow
    ensures |src| >= 4 ==>
              var v := DecodeInt(src, 4).value;
              DecodeArrayCnt(false, maxval, src)
              == if v < 0 || (maxval != -1 && v > maxval) then OutOfRange else Parsed.Parsed(v, 4)
    ensures DecodeUvarint(src) == Underflow <==> DecodeArrayCnt(true, maxval, src) == Underflow
    ensures DecodeUvarint(src).Parsed? ==>
              var v := Cast(DecodeUvarint(src).value - 1, 4);
              DecodeArrayCnt(true, maxval, src)
              == if v < 0 || (maxval != -1 && v > maxval) then OutOfRange
                 else Parsed.Parsed(v, DecodeUvarint(src).size)
  {
    hide DecodeUvarint, Cast, FromBigEndian;
    NeverOutOfRange(src);
    if DecodeUvarint(src).Parsed? {
      CastPred(DecodeUvarint(src).value, 4);
    }
  }

  lemma NeverOutOfRange(src: seq<Byte>)
    ensures DecodeUvarint(src) != OutOfRange
  {
  }

  // ----- round trips -----

  lemma IntRoundTrip(i: int, k: nat, rest: seq<Byte>)
    requires 0 < k
    ensures DecodeInt(EncodeInt(i, k) + rest, k) == Parsed.Parsed(Cast(i, k), k)
  {
    var u := i % Pow256(k);
    assert (EncodeInt(i, k) + rest)[..k] == EncodeInt(i, k);
    BigEndianRoundTrip(u, k);
    DivModUnique(u, Pow256(k), 0, u);
  }

  lemma UvarintRoundTrip(n: nat, rest: seq<Byte>)
    requires n < POW64
    ensures DecodeUvarint(Uvarint(n) + rest) == Parsed.Parsed(n, |Uvarint(n)|)
  {
    hide Uvarint, RunLength, Base128;
    UvarintRunLength(n, rest);
    UvarintValue(n);
    assert (Uvarint(n) + rest)[..|Uvarint(n)|] == Uvarint(n);
  }

  // A length that went through a signed type of k bytes brings the contents back
  // exactly when it is below half the range of that type.
  lemma ContentsRoundTrip(b: seq<Byte>, k: nat, rest: seq<Byte>)
    requires 0 < k
    ensures var r := DecodeContents(Cast(|b|, k), b + rest);
            && (r == Parsed.Parsed(Some(b), |b|) <==> 2 * |b| < Pow256(k))
            && (r.Parsed? && r.value == Some(b) ==> 2 * |b| < Pow256(k))
  {
    var src, len := b + rest, Cast(|b|, k);
    CastIsIdentity(|b|, k);
    if 0 <= len <= |src| {
      assert |src[..len]| == len;
    }
    assert src[..|b|] == b;
  }

  // Casting to a narrower type before or after subtracting one makes no difference.
  lemma CastPred(x: int, k: nat)
    requires 0 < k
    ensures Cast(Cast(x, k) - 1, k) == Cast(x - 1, k)
  {
    var p := Pow256(k);
    var c := Cast(x, k);
    assert x == (x / p) * p + x % p;
    assert c == x % p || c == x % p - p;
    ModShift(c - 1, x - 1, p, if c == x % p then x / p else x / p + 1);
  }

  lemma ModShift(a: int, b: int, p: int, q: int)
    requires 0 < p && b == a + q * p
    ensures a % p == b % p
  {
    assert a == (a / p) * p + a % p;
    assert b == (a / p + q) * p + a % p;
    DivModUnique(b, p, a / p + q, a % p);
  }

  // The length limits: 2^15 for a standard string, 2^31 for a compact string or bytes.
  predicate Fits(flexver: bool, f: Field) {
    match f
    case Str(Some(b)) => |b| < if flexver then 0x8000_0000 else 0x8000
    case Bytes(Some(b)) => |b| < 0x8000_0000
    case _ => true
  }

  lemma StrRoundTrip(flexver: bool, s: Option<seq<Byte>>, rest: seq<Byte>)
    requires WellTyped(Str(s))
    ensures DecodeStr(flexver, EncodeStr(flexver, s) + rest) == Parsed.Parsed(s, |EncodeStr(flexver, s)|)
            <==> Fits(flexver, Str(s))
    ensures var r := DecodeStr(flexver, EncodeStr(flexver, s) + rest);
            r.Parsed? && r.value == s ==> Fits(flexver, Str(s))
  {
    hide DecodeUvarint, DecodeInt, Uvarint, EncodeInt, Cast;
    Pow256Values();
    match s
    case None =>
      NullLengths();
      IntRoundTrip(-1, 2, rest);
      UvarintRoundTrip(0, rest);
    case Some(b) =>
      if flexver {
        UvarintRoundTrip(|b| + 1, b + rest);
        CastPred(|b| + 1, 4);
        PrefixedRoundTrip(Uvarint(|b| + 1), b, 4, rest);
      } else {
        IntRoundTrip(Cast(|b|, 2), 2, b + rest);
        CastTwice(|b|, 2);
        PrefixedRoundTrip(EncodeInt(Cast(|b|, 2), 2), b, 2, rest);
      }
  }

  lemma NullLengths()
    ensures Cast(-1, 2) == -1 && Cast(-1, 4) == -1 && Cast(Cast(0, 4) - 1, 4) == -1
  {
    Pow256Values();
    CastIsIdentity(-1, 2);
    CastIsIdentity(-1, 4);
    CastPred(0, 4);
  }

  // Contents behind a header that has just been read.
  lemma PrefixedRoundTrip(h: seq<Byte>, b: seq<Byte>, k: nat, rest: seq<Byte>)
    requires 0 < k
    ensures h + b + rest == h + (b + rest)
    ensures var r := After(|h|, DecodeContents(Cast(|b|, k), (h + (b + rest))[|h|..]));
            && (r == Parsed.Parsed(Some(b), |h + b|) <==> 2 * |b| < Pow256(k))
            && (r.Parsed? && r.value == Some(b) ==> 2 * |b| < Pow256(k))
  {
    assert (h + (b + rest))[|h|..] == b + rest;
    ContentsRoundTrip(b, k, rest);
  }

  lemma CastTwice(x: int, k: nat)
    requires 0 < k
    ensures Cast(Cast(x, k), k) == Cast(x, k)
  {
    CastIsIdentity(Cast(x, k), k);
  }

  lemma BytesRoundTrip(s: Option<seq<Byte>>, rest: seq<Byte>)
    ensures DecodeBytes(EncodeBytes(s) + rest) == Parsed.Parsed(s, |EncodeBytes(s)|)
            <==> Fits(false, Bytes(s))
    ensures var r := DecodeBytes(EncodeBytes(s) + rest);
            r.Parsed? && r.value == s ==> Fits(false, Bytes(s))
  {
    hide DecodeInt, EncodeInt, Cast;
    Pow256Values();
    match s
    case None =>
      NullLengths();
      IntRoundTrip(-1, 4, rest);
    case Some(b) =>
      IntRoundTrip(Cast(|b|, 4), 4, b + rest);
      CastTwice(|b|, 4);
      PrefixedRoundTrip(EncodeInt(Cast(|b|, 4), 4), b, 4, rest);
  }

  // The one tag section that is ever written is skipped exactly.
  lemma TagsRoundTrip(flexver: bool, rest: seq<Byte>)
    ensures DecodeTags(flexver, EncodeTags(flexver) + rest) == Parsed.Parsed((), |EncodeTags(flexver)|)
  {
    if flexver {
      ZeroTags();
      UvarintRoundTrip(0, rest);
    }
  }

  lemma ZeroTags()
    ensures EncodeInt(0, 1) == Uvarint(0)
  {
    assert BigEndian(0, 1) == BigEndian(0, 0) + [ToByte(0)];
  }

  // What is read back is what was written, from exactly the bytes that were written,
  // if and only if the length limits are kept.
  lemma FieldRoundTrip(flexver: bool, f: Field, rest: seq<Byte>)
    requires WellTyped(f)
    ensures Decode(flexver, KindOf(f), Encode(flexver, f) + rest) == Parsed.Parsed(f, |Encode(flexver, f)|)
            <==> Fits(flexver, f)
    ensures var r := Decode(flexver, KindOf(f), Encode(flexver, f) + rest);
            r.Parsed? && r.value == f ==> Fits(flexver, f)
  {
    hide DecodeUvarint, DecodeInt, Uvarint, EncodeInt, Cast, DecodeStr, EncodeStr, DecodeBytes, EncodeBytes,
         DecodeTags, EncodeTags;
    match f
    case Int(k, i) =>
      IntRoundTrip(i, k, rest);
      CastIsIdentity(i, k);
    case Unsigned(u) =>
      UvarintRoundTrip(u, rest);
    case Signed(v) =>
      ZigZagRoundTrip(v);
      UvarintRoundTrip(ZigZag(v), rest);
    case Str(s) =>
      StrRoundTrip(flexver, s, rest);
    case Bytes(s) =>
      BytesRoundTrip(s, rest);
    case Tags =>
      TagsRoundTrip(flexver, rest);
  }

  function KindsOf(fs: seq<Field>): seq<Kind> {
    if fs == [] then [] else [KindOf(fs[0])] + KindsOf(fs[1..])
  }

  // A list whose first value is read as it was written ...
  lemma HeadRead(flexver: bool, fs: seq<Field>, src: seq<Byte>, n: nat)
    requires fs != [] && n <= |src| && Decode(flexver, KindOf(fs[0]), src) == Parsed.Parsed(fs[0], n)
    ensures var r := DecodeAll(flexver, KindsOf(fs[1..]), src[n..]);
            DecodeAll(flexver, KindsOf(fs), src)
            == if r.Parsed? then Parsed.Parsed([fs[0]] + r.value, n + r.size) else Underflow
  {
    hide Decode;
    assert KindsOf(fs)[1..] == KindsOf(fs[1..]);
  }

  // ... or not.
  lemma HeadMisread(flexver: bool, fs: seq<Field>, src: seq<Byte>)
    requires fs != []
    requires var r := Decode(flexver, KindOf(fs[0]), src); r.Parsed? ==> r.value != fs[0]
    ensures var r := DecodeAll(flexver, KindsOf(fs), src); r.Parsed? ==> r.value != fs
  {
    hide Decode;
  }

  // The same for any list of values written one after the other.
  lemma {:induction false} MessageRoundTrip(flexver: bool, fs: seq<Field>, rest: seq<Byte>)
    requires forall f :: f in fs ==> WellTyped(f)
    ensures DecodeAll(flexver, KindsOf(fs), EncodeAll(flexver, fs) + rest)
            == Parsed.Parsed(fs, |EncodeAll(flexver, fs)|)
            <==> forall f :: f in fs ==> Fits(flexver, f)
  {
    if fs == [] {
      return;
    }
    hide Decode, Encode, WellTyped, Fits;
    var f, tail := fs[0], EncodeAll(flexver, fs[1..]);
    var e := Encode(flexver, f);
    assert EncodeAll(flexver, fs) + rest == e + (tail + rest);
    assert (e + (tail + rest))[|e|..] == tail + rest;
    assert fs == [f] + fs[1..];
    hide DecodeAll, EncodeAll, KindsOf;
    FieldRoundTrip(flexver, f, tail + rest);
    if Fits(flexver, f) {
      MessageRoundTrip(flexver, fs[1..], rest);
      HeadRead(flexver, fs, e + (tail + rest), |e|);
      var r := DecodeAll(flexver, KindsOf(fs[1..]), tail + rest);
      if r.Parsed? {
        assert ([f] + r.value)[1..] == r.value;
      }
    } else {
      HeadMisread(flexver, fs, e + (tail + rest));
    }
  }

  // ----- tag sections that carry tags -----

  datatype Tag = Tag(tagtype: nat, data: seq<Byte>)

  // A tag as KIP-482 lays it out: type, length, data; and a section: their number, the tags.
  function EncodeTag(t: Tag): seq<Byte> {
    Uvarint(t.tagtype) + Uvarint(|t.data|) + t.data
  }

  function EncodeTagList(ts: seq<Tag>): seq<Byte> {
    if ts == [] then [] else EncodeTag(ts[0]) + EncodeTagList(ts[1..])
  }

  function TagSection(ts: seq<Tag>): seq<Byte> {
    Uvarint(|ts|) + EncodeTagList(ts)
  }

  ghost predicate TagsWellTyped(ts: seq<Tag>) {
    |ts| < POW64 && forall t :: t in ts ==> t.tagtype < POW64 && |t.data| < POW64
  }

  // The skip of a tag with data stops at its last byte, which is then taken for the start
  // of what follows.
  function LeftOver(ts: seq<Tag>): (d: seq<Byte>)
    ensures |d| <= 1
  {
    if ts == [] || ts[|ts| - 1].data == [] then []
    else var data := ts[|ts| - 1].data; [data[|data| - 1]]
  }

  // As the first byte of a type, a byte with its top bit set does no harm.
  ghost predicate Harmless(lead: seq<Byte>) {
    lead == [] || (|lead| == 1 && FromByte(lead[0]) >= 128)
  }

  ghost predicate HarmlessTags(ts: seq<Tag>) {
    forall t :: t in ts ==> Harmless(LeftOver([t]))
  }

  lemma LeadingByte(lead: seq<Byte>, n: nat, src: seq<Byte>)
    requires Harmless(lead)
    ensures RunLength(lead + Uvarint(n) + src) == |lead| + |Uvarint(n)|
  {
    hide Uvarint, FromByte;
    UvarintRunLength(n, src);
    assert lead + Uvarint(n) + src == lead + (Uvarint(n) + src);
    if lead == [] {
      assert lead + (Uvarint(n) + src) == Uvarint(n) + src;
    } else {
      assert (lead + (Uvarint(n) + src))[1..] == Uvarint(n) + src;
    }
  }

  lemma SkipOne(lead: seq<Byte>, t: Tag, src: seq<Byte>)
    requires Harmless(lead) && |t.data| < POW64
    ensures SkipTag(lead + EncodeTag(t) + src)
            == Parsed.Parsed((), |lead| + |EncodeTag(t)| - |LeftOver([t])|)
  {
    hide Uvarint, FromByte, Base128, RunLength, Harmless;
    var ut, ul := Uvarint(t.tagtype), Uvarint(|t.data|);
    var all, behind := lead + EncodeTag(t) + src, ul + (t.data + src);
    assert all == lead + ut + behind;
    LeadingByte(lead, t.tagtype, behind);
    assert all[|lead + ut|..] == behind;
    UvarintRoundTrip(|t.data|, t.data + src);
  }

  lemma AfterOne(lead: seq<Byte>, t: Tag, src: seq<Byte>)
    ensures (lead + EncodeTag(t) + src)[|lead| + |EncodeTag(t)| - |LeftOver([t])|..] == LeftOver([t]) + src
  {
    hide Uvarint;
    var ut, ul, lo := Uvarint(t.tagtype), Uvarint(|t.data|), LeftOver([t]);
    var head := t.data[..|t.data| - |lo|];
    assert t.data == head + lo;
    var front := lead + (ut + ul + head);
    assert lead + EncodeTag(t) + src == front + (lo + src);
    assert |front| == |lead| + |EncodeTag(t)| - |lo|;
  }

  // Some tags skipped on the way: each that carries data must end in a harmless byte,
  // unless it is the last of them.
  lemma {:induction false} SkipSome(lead: seq<Byte>, ts: seq<Tag>, more: nat, src: seq<Byte>)
    requires ts != [] && TagsWellTyped(ts) && Harmless(lead) && HarmlessTags(ts[..|ts| - 1])
    ensures SkipTags(|ts| + more, lead + EncodeTagList(ts) + src)
            == After(|lead| + |EncodeTagList(ts)| - |LeftOver(ts)|, SkipTags(more, LeftOver(ts) + src))
    decreases ts
  {
    hide SkipTag, SkipTags, EncodeTag, Harmless, LeftOver;
    var t, tail := ts[0], EncodeTagList(ts[1..]);
    var lo, n := LeftOver([t]), |lead| + |EncodeTag(t)| - |LeftOver([t])|;
    var all := lead + EncodeTag(t) + (tail + src);
    assert lead + EncodeTagList(ts) + src == all;
    SkipOne(lead, t, tail + src);
    AfterOne(lead, t, tail + src);
    SkipFirst(|ts| - 1 + more, all, n);
    if |ts| == 1 {
      assert ts == [t] && tail + src == src;
    } else {
      assert t in ts[..|ts| - 1] && ts[1..][..|ts| - 2] == ts[..|ts| - 1][1..];
      SameLeftOver(ts);
      assert lo + (tail + src) == lo + tail + src;
      SkipSome(lo, ts[1..], more, src);
    }
  }

  lemma SkipFirst(cnt: nat, src: seq<Byte>, n: nat)
    requires n <= |src| && SkipTag(src) == Parsed.Parsed((), n)
    ensures SkipTags(cnt + 1, src) == After(n, SkipTags(cnt, src[n..]))
  {
    hide SkipTag;
  }

  lemma SameLeftOver(ts: seq<Tag>)
    requires |ts| > 1
    ensures LeftOver(ts) == LeftOver(ts[1..])
  {
  }

  // skip_tags on any section in which only the last tag carries data that does not end in
  // a byte with the top bit set: skipped exactly if the last tag is empty, one byte short
  // otherwise.
  lemma TagSectionIsSkipped(ts: seq<Tag>, rest: seq<Byte>)
    requires TagsWellTyped(ts) && (ts != [] ==> HarmlessTags(ts[..|ts| - 1]))
    ensures DecodeTags(true, TagSection(ts) + rest)
            == Parsed.Parsed((), |TagSection(ts)| - if ts == [] || ts[|ts| - 1].data == [] then 0 else 1)
  {
    hide DecodeUvarint, Uvarint, EncodeTagList;
    var n, list := Uvarint(|ts|), EncodeTagList(ts);
    UvarintRoundTrip(|ts|, list + rest);
    assert TagSection(ts) + rest == n + (list + rest);
    assert (n + (list + rest))[|n|..] == list + rest;
    if ts == [] {
      NoTags();
    } else {
      assert [] + list + rest == list + rest;
      SkipSome([], ts, 0, rest);
    }
  }

  lemma NoTags()
    ensures EncodeTagList([]) == []
  {
  }

  // The first tag whose data ends in a byte d below 0x80 puts the reader off, if others
  // follow: it goes on with d as a type, and the next tag's type as a length.
  lemma TagSectionGoesOff(ts: seq<Tag>, t: Tag, us: seq<Tag>, rest: seq<Byte>)
    requires TagsWellTyped(ts + [t] + us) && HarmlessTags(ts)
    ensures DecodeTags(true, TagSection(ts + [t] + us) + rest)
            == After(|Uvarint(|ts + [t] + us|)| + |EncodeTagList(ts + [t])| - |LeftOver([t])|,
                     SkipTags(|us|, LeftOver([t]) + (EncodeTagList(us) + rest)))
  {
    hide DecodeUvarint, Uvarint, EncodeTagList, SkipTags;
    var xs := ts + [t];
    var n, list, more := Uvarint(|xs + us|), EncodeTagList(xs), EncodeTagList(us) + rest;
    TagListAppend(xs, us);
    UvarintRoundTrip(|xs + us|, list + more);
    assert TagSection(xs + us) + rest == n + (list + more);
    assert (n + (list + more))[|n|..] == list + more == [] + list + more;
    assert xs[..|xs| - 1] == ts;
    assert forall x :: x in xs ==> x in xs + us;
    SkipSome([], xs, |us|, more);
  }

  lemma {:induction false} TagListAppend(ts: seq<Tag>, us: seq<Tag>)
    ensures EncodeTagList(ts + us) == EncodeTagList(ts) + EncodeTagList(us)
  {
    hide EncodeTag;
    if ts == [] {
      assert ts + us == us;
    } else {
      assert (ts + us)[1..] == ts[1..] + us;
      TagListAppend(ts[1..], us);
    }
  }

  lemma SkipOff(d: Byte, t: Tag, src: seq<Byte>)
    requires FromByte(d) < 128 && t.tagtype < POW64
    ensures var k := 1 + |Uvarint(t.tagtype)| + if t.tagtype > 1 then t.tagtype - 1 else 0;
            SkipTag([d] + (EncodeTag(t) + src))
            == if k > 1 + |EncodeTag(t)| + |src| then Underflow else Parsed.Parsed((), k)
  {
    hide Uvarint, FromByte, Base128;
    var ut, behind := Uvarint(t.tagtype), Uvarint(|t.data|) + t.data + src;
    var all := [d] + (EncodeTag(t) + src);
    assert all == [d] + (ut + behind) && all[1..] == ut + behind;
    assert RunLength(all) == 1;
    UvarintRoundTrip(t.tagtype, behind);
  }

  // Two tags, the first with data that ends in a byte below 0x80: whether the section is
  // skipped exactly depends on the type of the second, which is taken for its length.
  lemma TwoTagsAreSkippedIff(a: Tag, b: Tag, rest: seq<Byte>)
    requires TagsWellTyped([a, b]) && a.data != [] && FromByte(a.data[|a.data| - 1]) < 128
    ensures DecodeTags(true, TagSection([a, b]) + rest) == Parsed.Parsed((), |TagSection([a, b])|)
            <==> (if b.tagtype > 1 then b.tagtype - 1 else 0) == |Uvarint(|b.data|)| + |b.data|
  {
    hide SkipTag, Uvarint, FromByte;
    var d := a.data[|a.data| - 1];
    assert [] + [a] + [b] == [a, b];
    TagSectionGoesOff([], a, [b], rest);
    OneTagList(b);
    SkipOff(d, b, rest);
    var src := [d] + (EncodeTag(b) + rest);
    OnlyTag(src);
  }

  lemma OneTagList(b: Tag)
    ensures EncodeTagList([b]) == EncodeTag(b)
  {
    hide EncodeTag;
    assert [b][1..] == [];
  }

  lemma OnlyTag(src: seq<Byte>)
    ensures SkipTags(1, src) == SkipTag(src)
  {
    assert SkipTag(src).Parsed? ==> SkipTags(0, src[SkipTag(src).size..]) == Parsed.Parsed((), 0);
  }

  // So data in an earlier tag goes either way.
  lemma EarlierDataGoesEitherWay(rest: seq<Byte>)
    ensures DecodeTags(true, TagSection([Tag(0, [0]), Tag(2, [])]) + rest)
            == Parsed.Parsed((), |TagSection([Tag(0, [0]), Tag(2, [])])|)
    ensures DecodeTags(true, TagSection([Tag(0, [0]), Tag(1, [])]) + rest)
            != Parsed.Parsed((), |TagSection([Tag(0, [0]), Tag(1, [])])|)
  {
    TwoTagsAreSkippedIff(Tag(0, [0]), Tag(2, []), rest);
    TwoTagsAreSkippedIff(Tag(0, [0]), Tag(1, []), rest);
  }

  // ----- array counts, written after the fact -----

  // finalize_arraycnt at offset `of` of the buffer, where four bytes were kept.
  function Patched(flexver: bool, buf: seq<Byte>, of: nat, cnt: int): seq<Byte>
    requires of + 4 <= |buf|
  {
    if !flexver then
      buf[..of] + EncodeInt(cnt, 4) + buf[of + 4..]
    else
      var u := Uvarint(Cast(cnt + 1, 4) % POW64);
      var sz := if |u| <= 4 then |u| else 0;
      var written := buf[..of] + u[..sz] + buf[of + sz..];
      written[..of + sz] + written[of + 4..]
  }

  // Counts up to 2^28 - 2 leave their compact encoding.  From 2^28 - 1 on the encoding
  // does not fit the four bytes, the overflow test does not notice, and the count
  // is missing from the buffer.
  lemma PatchedFlexible(pre: seq<Byte>, hole: seq<Byte>, suf: seq<Byte>, cnt: int)
    requires |hole| == 4 && 0 <= cnt && InRange(cnt, 4)
    ensures var p := Patched(true, pre + hole + suf, |pre|, cnt);
            && (p == pre + Uvarint(cnt + 1) + suf <==> cnt + 1 < 0x1000_0000)
            && (cnt + 1 >= 0x1000_0000 ==> p == pre + suf)
  {
    hide Uvarint, Cast;
    var u := Uvarint(Cast(cnt + 1, 4) % POW64);
    CountOnWire(cnt);
    UvarintLength(Cast(cnt + 1, 4) % POW64, 4);
    Pow128Four();
    PatchedWith(pre, hole, suf, u, if |u| <= 4 then |u| else 0);
    if |u| <= 4 {
      assert u[..|u|] == u;
    } else {
      assert pre + u[..0] + suf == pre + suf;
    }
    assert |pre + Uvarint(cnt + 1) + suf| > |pre + suf|;
  }

  // Overwriting sz bytes of the hole and erasing the others.
  lemma PatchedWith(pre: seq<Byte>, hole: seq<Byte>, suf: seq<Byte>, u: seq<Byte>, sz: nat)
    requires |hole| == 4 && sz <= 4 && sz <= |u|
    ensures var buf := pre + hole + suf;
            var written := buf[..|pre|] + u[..sz] + buf[|pre| + sz..];
            written[..|pre| + sz] + written[|pre| + 4..] == pre + u[..sz] + suf
  {
    var buf := pre + hole + suf;
    var written := buf[..|pre|] + u[..sz] + buf[|pre| + sz..];
    assert buf[..|pre|] == pre;
    assert written[..|pre| + sz] == pre + u[..sz];
    assert written[|pre| + 4..] == buf[|pre| + 4..] == suf;
  }

  lemma Pow128Four()
    ensures Pow128(4) == 0x1000_0000
  {
  }

  lemma CountOnWire(cnt: int)
    requires 0 <= cnt && InRange(cnt, 4)
    ensures var c := Cast(cnt + 1, 4) % POW64; c >= cnt + 1 && (cnt + 1 < 0x1000_0000 ==> c == cnt + 1)
  {
    Pow256Values();
    CastIsIdentity(cnt + 1, 4);
    var c := Cast(cnt + 1, 4);
    if c < 0 {
      DivModUnique(c, POW64, -1, c + POW64);
    } else {
      DivModUnique(c, POW64, 0, c);
    }
  }

  lemma PatchedStandard(pre: seq<Byte>, hole: seq<Byte>, suf: seq<Byte>, cnt: int)
    requires |hole| == 4
    ensures Patched(false, pre + hole + suf, |pre|, cnt) == pre + EncodeInt(cnt, 4) + suf
  {
    assert (pre + hole + suf)[..|pre|] == pre;
    assert (pre + hole + suf)[|pre| + 4..] == suf;
  }

  // A patched count reads back, and what stands before and after it is as it was.
  lemma ArrayCntRoundTrip(flexver: bool, pre: seq<Byte>, hole: seq<Byte>, suf: seq<Byte>, cnt: int, maxval: int)
    returns (n: nat)
    requires |hole| == 4 && 0 <= cnt && InRange(cnt, 4)
    requires flexver ==> cnt + 1 < 0x1000_0000
    requires maxval == -1 || cnt <= maxval
    ensures var p := Patched(flexver, pre + hole + suf, |pre|, cnt);
            && |p| == |pre| + n + |suf| && p[..|pre|] == pre && p[|pre| + n..] == suf
            && DecodeArrayCnt(flexver, maxval, p[|pre|..]) == Parsed.Parsed(cnt, n)
  {
    hide DecodeUvarint, DecodeInt, Uvarint, EncodeInt, Cast, Patched;
    Pow256Values();
    var h := if flexver then Uvarint(cnt + 1) else EncodeInt(cnt, 4);
    n := |h|;
    CastIsIdentity(cnt, 4);
    if flexver {
      PatchedFlexible(pre, hole, suf, cnt);
      UvarintRoundTrip(cnt + 1, suf);
      CastPred(cnt + 1, 4);
    } else {
      PatchedStandard(pre, hole, suf, cnt);
      IntRoundTrip(cnt, 4, suf);
    }
    var p := pre + h + suf;
    assert p[|pre|..] == h + suf;
    assert p[..|pre|] == pre && p[|pre| + n..] == suf;
  }

  // A message with an array count patched in between decodes, in order, to what was
  // written.
  lemma PatchedMessageRoundTrip(flexver: bool, before: seq<Field>, cnt: int, after: seq<Field>, maxval: int)
    returns (n: nat)
    requires forall f :: f in before + after ==> WellTyped(f) && Fits(flexver, f)
    requires 0 <= cnt && InRange(cnt, 4) && (flexver ==> cnt + 1 < 0x1000_0000)
    requires maxval == -1 || cnt <= maxval
    ensures var b, a := EncodeAll(flexver, before), EncodeAll(flexver, after);
            var p := Patched(flexver, b + EncodeInt(0, 4) + a, |b|, cnt);
            && |p| == |b| + n + |a|
            && DecodeAll(flexver, KindsOf(before), p) == Parsed.Parsed(before, |b|)
            && DecodeArrayCnt(flexver, maxval, p[|b|..]) == Parsed.Parsed(cnt, n)
            && DecodeAll(flexver, KindsOf(after), p[|b| + n..]) == Parsed.Parsed(after, |a|)
  {
    hide DecodeAll, EncodeAll, DecodeArrayCnt, Patched, WellTyped, Fits, EncodeInt;
    var b, a := EncodeAll(flexver, before), EncodeAll(flexver, after);
    var p := Patched(flexver, b + EncodeInt(0, 4) + a, |b|, cnt);
    n := ArrayCntRoundTrip(flexver, b, EncodeInt(0, 4), a, cnt, maxval);
    assert forall f :: f in before ==> f in before + after;
    assert forall f :: f in after ==> f in before + after;
    MessageRoundTrip(flexver, before, p[|b|..]);
    MessageRoundTrip(flexver, after, []);
    assert b + p[|b|..] == p;
    assert a + [] == a == p[|b| + n..];
  }

  // A flexible patch leaves the buffer as it was only if the four bytes already were the
  // encoding.
  lemma FlexiblePatchChangesBytes(buf: seq<Byte>, of: nat, cnt: int)
    requires of + 4 <= |buf| && 0 <= cnt && InRange(cnt, 4)
    ensures Patched(true, buf, of, cnt) == buf <==> Uvarint(cnt + 1) == buf[of..of + 4]
  {
    hide Uvarint, Patched;
    var pre, hole, suf := buf[..of], buf[of..of + 4], buf[of + 4..];
    assert buf == pre + hole + suf;
    PatchedFlexible(pre, hole, suf, cnt);
    UvarintLength(cnt + 1, 4);
    Pow128Four();
    SameInTheMiddle(pre, Uvarint(cnt + 1), hole, suf);
  }

  lemma SameInTheMiddle(pre: seq<Byte>, u: seq<Byte>, v: seq<Byte>, suf: seq<Byte>)
    ensures pre + u + suf == pre + v + suf <==> u == v
    ensures v != [] ==> pre + suf != pre + v + suf
  {
    assert |pre + u + suf| == |pre| + |u| + |suf| && |pre + v + suf| == |pre| + |v| + |suf|;
    assert (pre + u + suf)[|pre|..|pre| + |u|] == u && (pre + v + suf)[|pre|..|pre| + |v|] == v;
  }
}
