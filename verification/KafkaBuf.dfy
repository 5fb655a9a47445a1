// rd_kafka_buf_t of common/include/kafka/rdkafka_buf.h as an object: the byte buffer
// that writers append to, the running checksum, and the reader position.
//
// The segmented store behind rkbuf_buf and rkbuf_reader has no body in the headers.
// It is taken by its documentation as one sequence of bytes with append, overwrite
// and erase, and a read position that moves on only when a read succeeds.
module KafkaBuf {
  import opened Options
  import opened Varint
  import opened Words
  import opened Wire
  import Crc32

  // A rd_kafkap_str_t: its length field, its characters, and whether the serialized
  // form made by rd_kafkap_str_new() precedes them.
  datatype KafkaStr = NullStr | Plain(chars: seq<Byte>) | Serialized(chars: seq<Byte>)

  class Buf {
    var data: seq<Byte>       // rkbuf_buf
    var flexver: bool         // RD_KAFKA_OP_F_FLEXVER of rkbuf_flags
    var crcOn: bool           // RD_KAFKA_OP_F_CRC of rkbuf_flags
    var crc: Crc32.Word       // rkbuf_crc
    var rof: nat              // read position of rkbuf_reader
    var end: nat              // end of rkbuf_reader
    var err: bool             // rkbuf_err is set
    ghost var fed: seq<Byte>  // what was appended since crc_init
    ghost var mark: nat       // where the bytes appended since crc_init start
    ghost var clean: bool     // no count was patched among them to another value

    constructor (flexver: bool)
      ensures data == [] && this.flexver == flexver && !crcOn && !err && CrcValid() && ReaderValid()
    {
      this.flexver, data, crcOn, crc, rof, end, err := flexver, [], false, 0, 0, 0, false;
      fed, mark, clean := [], 0, true;
    }

    // The running checksum covers what was appended since crc_init, which is the rest of
    // the buffer from there on unless a patch has changed it.
    ghost predicate CrcValid()
      reads this
    {
      Covers(data)
    }

    ghost predicate Covers(bytes: seq<Byte>)
      reads this
    {
      crcOn ==> && crc == Crc32.Feed(Crc32.INIT, Crc32.Bits(fed))
                && mark <= |bytes| && (clean ==> bytes[mark..] == fed)
    }

    // ----- writing -----

    method Write(payload: seq<Byte>) returns (r: nat)
      requires CrcValid()
      modifies this`data, this`crc, this`fed
      ensures CrcValid() && r == |old(data)| && data == old(data) + payload
      ensures fed == if crcOn then old(fed) + payload else old(fed)
      ensures !crcOn ==> crc == old(crc)
    {
      r := |data|;
      data := data + payload;
      if crcOn {
        assert data[mark..] == old(data[mark..]) + payload;
        Crc32.BitsAppend(fed, payload);
        Crc32.FeedAppend(Crc32.INIT, Crc32.Bits(fed), Crc32.Bits(payload));
        crc := Crc32.Update(crc, payload);
        fed := fed + payload;
      }
    }

    method CrcInit()
      requires !crcOn
      modifies this`crcOn, this`crc, this`fed, this`mark, this`clean
      ensures crcOn && fed == [] && mark == |data| && clean && CrcValid()
    {
      crcOn := true;
      crc := Crc32.Init();
      fed, mark, clean := [], |data|, true;
    }

    // However the bytes of the bracket were split into writes, the result is the
    // checksum of all of them, and of what stands in the buffer from the start of the
    // bracket on unless a patch has changed it.
    method CrcFinalize() returns (r: Crc32.Word)
      requires CrcValid()
      modifies this`crcOn
      ensures !crcOn
      ensures old(crcOn) ==> r == Crc32.Reference(fed)
      ensures old(crcOn) && clean ==> r == Crc32.Reference(data[mark..])
    {
      crcOn := false;
      r := Crc32.Finalize(crc);
      Crc32.CodeIsReference(fed);
    }

    method WriteInt(v: int, k: nat) returns (r: nat)
      requires CrcValid() && k in {1, 2, 4, 8} && InRange(v, k)
      modifies this`data, this`crc, this`fed
      ensures CrcValid() && r == |old(data)| && data == old(data) + EncodeInt(v, k)
      ensures fed == if crcOn then old(fed) + EncodeInt(v, k) else old(fed)
    {
      var be := BigEndian(v % Pow256(k), k);
      r := Write(be);
    }

    method WriteUvarint(v: nat) returns (r: nat)
      requires CrcValid() && v < POW64
      modifies this`data, this`crc, this`fed
      ensures CrcValid() && r == |old(data)| && data == old(data) + Uvarint(v)
      ensures fed == if crcOn then old(fed) + Uvarint(v) else old(fed)
    {
      var varint := new Byte[10];
      UvarintLength(v, 10);
      Pow128Ten();
      var sz := EncodeU64(varint, v);
      r := Write(varint[..sz]);
    }

    method WriteVarint(v: int) returns (r: nat)
      requires CrcValid() && InRange(v, 8)
      modifies this`data, this`crc, this`fed
      ensures CrcValid() && r == |old(data)| && data == old(data) + Encode(flexver, Signed(v))
      ensures fed == if crcOn then old(fed) + Encode(flexver, Signed(v)) else old(fed)
    {
      hide ZigZagWord, AsUnsigned, AsSigned, WordOf, Uvarint;
      Pow256Values();
      SignedOf(v);
      ZigZagWordIsZigZag(WordOf(v));
      r := WriteUvarint(AsUnsigned(ZigZagWord(WordOf(v))));
    }

    method WriteStr(str: Option<seq<Byte>>) returns (r: nat)
      requires CrcValid() && WellTyped(Str(str))
      modifies this`data, this`crc, this`fed
      ensures CrcValid() && r == |old(data)| && data == old(data) + EncodeStr(flexver, str)
      ensures fed == if crcOn then old(fed) + EncodeStr(flexver, str) else old(fed)
    {
      hide Uvarint, EncodeInt, Cast;
      if !flexver {
        var len := if str.None? then -1 else |str.value|;
        MinusOneFits();
        CastFits(len, 2);
        r := WriteInt(Cast(len, 2), 2);
        if str.Some? {
          Assoc(old(data), EncodeInt(Cast(len, 2), 2), str.value);
          Assoc(old(fed), EncodeInt(Cast(len, 2), 2), str.value);
          var _ := Write(str.value);
        }
        return;
      }
      var len := if str.None? then 0 else |str.value| + 1;
      r := WriteUvarint(len);
      if len > 1 {
        Assoc(old(data), Uvarint(len), str.value);
        Assoc(old(fed), Uvarint(len), str.value);
        var _ := Write(str.value);
      }
    }

    method WriteKstr(kstr: KafkaStr) returns (r: nat)
      requires CrcValid() && (!kstr.NullStr? ==> |kstr.chars| < 0x8000_0000)
      modifies this`data, this`crc, this`fed
      ensures CrcValid() && r == |old(data)|
      ensures var s := EncodeStr(flexver, if kstr.NullStr? then None else Some(kstr.chars));
              data == old(data) + s && fed == if crcOn then old(fed) + s else old(fed)
    {
      hide Uvarint, EncodeInt, Cast;
      if !flexver {
        if kstr.NullStr? {
          MinusOneFits();
          r := WriteInt(-1, 2);
          return;
        }
        var len := |kstr.chars|;
        if kstr.Serialized? {
          r := Write(EncodeInt(Cast(len, 2), 2) + kstr.chars);
          return;
        }
        CastFits(len, 2);
        r := WriteInt(Cast(len, 2), 2);
        Assoc(old(data), EncodeInt(Cast(len, 2), 2), kstr.chars);
        Assoc(old(fed), EncodeInt(Cast(len, 2), 2), kstr.chars);
        var _ := Write(kstr.chars);
        return;
      }
      var len := if kstr.NullStr? then 0 else |kstr.chars| + 1;
      r := WriteUvarint(len);
      if len > 1 {
        Assoc(old(data), Uvarint(len), kstr.chars);
        Assoc(old(fed), Uvarint(len), kstr.chars);
        var _ := Write(kstr.chars);
      }
    }

    method WriteBytes(payload: Option<seq<Byte>>) returns (r: nat)
      requires CrcValid() && WellTyped(Bytes(payload))
      modifies this`data, this`crc, this`fed
      ensures CrcValid() && r == |old(data)| && data == old(data) + EncodeBytes(payload)
      ensures fed == if crcOn then old(fed) + EncodeBytes(payload) else old(fed)
    {
      hide EncodeInt, Cast;
      var size := if payload.None? then -1 else |payload.value|;
      MinusOneFits();
      CastFits(size, 4);
      r := WriteInt(Cast(size, 4), 4);
      if payload.Some? {
        var _ := Write(payload.value);
      }
    }

    method WriteTags()
      requires CrcValid()
      modifies this`data, this`crc, this`fed
      ensures CrcValid() && data == old(data) + EncodeTags(flexver)
      ensures fed == if crcOn then old(fed) + EncodeTags(flexver) else old(fed)
    {
      hide EncodeInt;
      if flexver {
        ZeroFits();
        var _ := WriteInt(0, 1);
      }
    }

    // Overwrites earlier bytes; not allowed while a checksum is being computed.
    method Update(of: nat, payload: seq<Byte>)
      requires !crcOn && of + |payload| <= |data|
      modifies this`data
      ensures data == old(data)[..of] + payload + old(data)[of + |payload|..]
    {
      data := data[..of] + payload + data[of + |payload|..];
    }

    method WriteArrayCntPos() returns (r: nat)
      requires CrcValid()
      modifies this`data, this`crc, this`fed
      ensures CrcValid() && r == |old(data)| && data == old(data) + EncodeInt(0, 4)
      ensures fed == if crcOn then old(fed) + EncodeInt(0, 4) else old(fed)
    {
      hide EncodeInt;
      ZeroFits();
      r := WriteInt(0, 4);
    }

    // In flexible mode the bytes behind the count move, and with them the start of a
    // bracket; inside an open bracket the checksum is not told.
    method FinalizeArrayCnt(of: nat, cnt: int)
      requires of + 4 <= |data| && 0 <= cnt && InRange(cnt, 4) && CrcValid()
      requires flexver || !crcOn
      modifies this`data, this`mark, this`clean
      ensures data == Patched(flexver, old(data), of, cnt) && CrcValid()
      ensures crcOn && of + 4 <= old(mark) ==> mark + |old(data)| == old(mark) + |data| && clean == old(clean)
      ensures crcOn && old(mark) <= of ==> mark == old(mark) && clean == (old(clean) && data == old(data))
    {
      hide Uvarint, EncodeInt, Cast;
      if !flexver {
        Update(of, EncodeInt(cnt, 4));
        return;
      }
      var buf := new Byte[4];
      var c := Cast(cnt + 1, 4);
      var sz := EncodeU64(buf, c % POW64);
      data := data[..of] + buf[..sz] + data[of + sz..];
      if sz < 4 {
        data := data[..of + sz] + data[of + 4..];
      }
      Moved(old(data), of, cnt);
    }

    ghost method Moved(was: seq<Byte>, of: nat, cnt: int)
      requires of + 4 <= |was| && Covers(was) && data == Patched(true, was, of, cnt)
      modifies this`mark, this`clean
      ensures CrcValid()
      ensures crcOn && of + 4 <= old(mark) ==> mark + |was| == old(mark) + |data| && clean == old(clean)
      ensures crcOn && old(mark) <= of ==> mark == old(mark) && clean == (old(clean) && data == was)
    {
      hide Patched, Crc32.Feed, Crc32.Bits;
      if !crcOn {
        return;
      }
      PatchMovesTail(was, of, cnt);
      if of + 4 <= mark {
        mark := mark + |data| - |was|;
      } else if of < mark {
        mark, clean := of, false;
      } else {
        clean := clean && data == was;
      }
    }

    // ----- reading -----

    ghost predicate ReaderValid()
      reads this
    {
      rof <= end <= |data|
    }

    // The bytes not read yet.
    function Rest(): (s: seq<Byte>)
      requires ReaderValid()
      reads this
      ensures |s| == end - rof
    {
      data[rof..end]
    }

    method InitReader()
      modifies this`rof, this`end, this`err
      ensures ReaderValid() && Rest() == data && !err
    {
      rof, end, err := 0, |data|, false;
    }

    // rd_kafka_buf_read, and rd_slice_ensure_contig: `len` bytes, or an underflow.
    method Read(len: int) returns (ok: bool, bytes: seq<Byte>)
      requires ReaderValid()
      modifies this`rof, this`err
      ensures ReaderValid() && ok == (0 <= len <= |old(Rest())|)
      ensures ok ==> bytes == old(Rest())[..len] && rof == old(rof) + len && err == old(err)
      ensures !ok ==> rof == old(rof) && err
    {
      if 0 <= len <= end - rof {
        bytes := data[rof..rof + len];
        assert bytes == Rest()[..len];
        rof := rof + len;
        return true, bytes;
      }
      err := true;
      return false, [];
    }

    method ReadInt(k: nat) returns (ok: bool, v: int)
      requires ReaderValid() && k in {1, 2, 4, 8}
      modifies this`rof, this`err
      ensures ReaderValid() && Outcome(ok, v, DecodeInt(old(Rest()), k), old(rof), old(err))
    {
      var bytes;
      ok, bytes := Read(k);
      v := if ok then Cast(FromBigEndian(bytes), k) else 0;
    }

    // What a reader does with a decoded value: take it and move on, or fail.
    ghost predicate Outcome<T>(ok: bool, v: T, r: Parsed<T>, from: nat, failed: bool)
      reads this
    {
      && ok == r.Parsed?
      && (ok ==> v == r.value && rof == from + r.size && err == failed)
      && (!ok ==> err)
    }

    method ReadUvarint() returns (ok: bool, v: nat)
      requires ReaderValid()
      modifies this`rof, this`err
      ensures ReaderValid() && Outcome(ok, v, DecodeUvarint(old(Rest())), old(rof), old(err))
      ensures ok ==> v < POW64
    {
      var n;
      n, v := Varint.Decode(data[rof..end]);
      ok := n > 0;
      if ok {
        rof := rof + n;
      } else {
        err := true;
      }
    }

    method ReadVarint() returns (ok: bool, v: int)
      requires ReaderValid()
      modifies this`rof, this`err
      ensures ReaderValid()
      ensures Outcome(ok, v, MapParsed(DecodeUvarint(old(Rest())), u => UnZigZag(u)), old(rof), old(err))
    {
      hide UnZigZagWord, AsUnsigned, AsSigned, WordOf, DecodeUvarint;
      var u;
      ok, u := ReadUvarint();
      UnsignedOf(u);
      UnZigZagWordIsUnZigZag(WordOf(u));
      v := AsSigned(UnZigZagWord(WordOf(u)));
    }

    // The part of read_str and read_bytes after the length.
    method ReadContents(len: int) returns (ok: bool, s: Option<seq<Byte>>)
      requires ReaderValid()
      modifies this`rof, this`err
      ensures ReaderValid() && Outcome(ok, s, DecodeContents(len, old(Rest())), old(rof), old(err))
    {
      if len == -1 {
        return true, None;
      }
      if len == 0 {
        return true, Some([]);
      }
      var bytes;
      ok, bytes := Read(len);
      s := Some(bytes);
    }

    method ReadStr() returns (ok: bool, s: Option<seq<Byte>>)
      requires ReaderValid()
      modifies this`rof, this`err
      ensures ReaderValid() && Outcome(ok, s, DecodeStr(flexver, old(Rest())), old(rof), old(err))
    {
      hide DecodeUvarint, DecodeInt, Cast, DecodeContents;
      ghost var src := Rest();
      var len;
      if flexver {
        var uva;
        ok, uva := ReadUvarint();
        len := Cast(Cast(uva, 4) - 1, 4);
      } else {
        ok, len := ReadInt(2);
      }
      if !ok {
        return false, None;
      }
      assert Rest() == src[|src| - |Rest()|..];
      ok, s := ReadContents(len);
    }

    method ReadBytes() returns (ok: bool, s: Option<seq<Byte>>)
      requires ReaderValid()
      modifies this`rof, this`err
      ensures ReaderValid() && Outcome(ok, s, DecodeBytes(old(Rest())), old(rof), old(err))
    {
      hide DecodeInt, Cast;
      ghost var src := Rest();
      var len;
      ok, len := ReadInt(4);
      if !ok {
        return false, None;
      }
      assert Rest() == src[|src| - |Rest()|..];
      ok, s := ReadContents(len);
    }

    method SkipTagsLoop() returns (ok: bool)
      requires ReaderValid()
      modifies this`rof, this`err
      ensures ReaderValid() && Outcome(ok, (), DecodeTags(flexver, old(Rest())), old(rof), old(err))
    {
      hide DecodeUvarint, SkipTag, SkipTags;
      if !flexver {
        return true;
      }
      ghost var src, from := Rest(), rof;
      var cnt;
      ok, cnt := ReadUvarint();
      if !ok {
        return false;
      }
      assert Rest() == src[rof - from..];
      while cnt > 0
        invariant ReaderValid() && from <= rof && err == old(err)
        invariant DecodeTags(flexver, src) == After(rof - from, SkipTags(cnt, Rest()))
        decreases cnt
      {
        cnt := cnt - 1;
        ghost var here, at := Rest(), rof;
        SkipUnfold(cnt + 1, here);
        ok := SkipOneTag();
        if !ok {
          return false;
        }
        assert Rest() == here[rof - at..];
      }
      SkipNone(Rest());
      return true;
    }

    method SkipOneTag() returns (ok: bool)
      requires ReaderValid()
      modifies this`rof, this`err
      ensures ReaderValid() && Outcome(ok, (), SkipTag(old(Rest())), old(rof), old(err))
    {
      hide DecodeUvarint;
      ghost var src, from := Rest(), rof;
      var tagtype, taglen;
      ok, tagtype := ReadUvarint();
      if !ok {
        return false;
      }
      assert Rest() == src[rof - from..];
      ok, taglen := ReadUvarint();
      if !ok {
        return false;
      }
      if taglen > 1 {
        var skipped;
        ok, skipped := Read(taglen - 1);
      }
    }

    method ReadArrayCnt(maxval: int) returns (ok: bool, cnt: int)
      requires ReaderValid()
      modifies this`rof, this`err
      ensures ReaderValid() && Outcome(ok, cnt, DecodeArrayCnt(flexver, maxval, old(Rest())), old(rof), old(err))
      ensures ok ==> 0 <= cnt && (maxval == -1 || cnt <= maxval)
    {
      hide DecodeUvarint, DecodeInt, Cast;
      if flexver {
        var uva;
        ok, uva := ReadUvarint();
        cnt := Cast(Cast(uva, 4) - 1, 4);
      } else {
        ok, cnt := ReadInt(4);
      }
      if ok && (cnt < 0 || (maxval != -1 && cnt > maxval)) {
        err := true;
        ok := false;
      }
    }

    // ----- whole messages -----

    method WriteField(f: Field)
      requires CrcValid() && WellTyped(f)
      modifies this`data, this`crc, this`fed
      ensures CrcValid() && data == old(data) + Encode(flexver, f)
      ensures fed == if crcOn then old(fed) + Encode(flexver, f) else old(fed)
    {
      hide EncodeInt, EncodeStr, EncodeBytes, EncodeTags, Uvarint, ZigZag;
      match f {
        case Int(k, i) => var _ := WriteInt(i, k);
        case Unsigned(u) => var _ := WriteUvarint(u);
        case Signed(v) => var _ := WriteVarint(v);
        case Str(str) => var _ := WriteStr(str);
        case Bytes(bytes) => var _ := WriteBytes(bytes);
        case Tags => WriteTags();
      }
    }

    method WriteFields(fs: seq<Field>)
      requires CrcValid() && forall f :: f in fs ==> WellTyped(f)
      modifies this`data, this`crc, this`fed
      ensures CrcValid() && data == old(data) + EncodeAll(flexver, fs)
      ensures fed == if crcOn then old(fed) + EncodeAll(flexver, fs) else old(fed)
      decreases |fs|
    {
      hide Encode, WellTyped;
      if fs != [] {
        WriteField(fs[0]);
        WriteFields(fs[1..]);
        Assoc(old(data), Encode(flexver, fs[0]), EncodeAll(flexver, fs[1..]));
        Assoc(old(fed), Encode(flexver, fs[0]), EncodeAll(flexver, fs[1..]));
      }
    }

    method ReadField(kind: Kind) returns (ok: bool, f: Field)
      requires ReaderValid() && (kind.IntKind? ==> kind.size in {1, 2, 4, 8})
      modifies this`rof, this`err
      ensures ReaderValid() && Outcome(ok, f, Wire.Decode(flexver, kind, old(Rest())), old(rof), old(err))
    {
      hide DecodeInt, DecodeUvarint, DecodeStr, DecodeBytes, DecodeTags, UnZigZag;
      match kind {
        case IntKind(k) => var i; ok, i := ReadInt(k); f := Int(k, i);
        case UnsignedKind => var u; ok, u := ReadUvarint(); f := Unsigned(u);
        case SignedKind => var v; ok, v := ReadVarint(); f := Signed(v);
        case StrKind => var str; ok, str := ReadStr(); f := Str(str);
        case BytesKind => var bytes; ok, bytes := ReadBytes(); f := Bytes(bytes);
        case TagsKind => ok := SkipTagsLoop(); f := Tags;
      }
    }

    method ReadFields(kinds: seq<Kind>) returns (ok: bool, fs: seq<Field>)
      requires ReaderValid() && forall kind :: kind in kinds && kind.IntKind? ==> kind.size in {1, 2, 4, 8}
      modifies this`rof, this`err
      ensures ReaderValid() && Outcome(ok, fs, DecodeAll(flexver, kinds, old(Rest())), old(rof), old(err))
      decreases |kinds|
    {
      hide Wire.Decode;
      if kinds == [] {
        return true, [];
      }
      ghost var src, from := Rest(), rof;
      var f;
      ok, f := ReadField(kinds[0]);
      if !ok {
        return false, [];
      }
      assert Rest() == src[rof - from..];
      ok, fs := ReadFields(kinds[1..]);
      fs := [f] + fs;
    }

    // What one side writes the other reads: the same values in the same order, up to the
    // last byte, if and only if all keep their length limits.
    method Exchange(fs: seq<Field>) returns (ok: bool, got: seq<Field>)
      requires data == [] && CrcValid() && forall f :: f in fs ==> WellTyped(f)
      modifies this
      ensures ok && got == fs && rof == |data| <==> forall f :: f in fs ==> Fits(flexver, f)
    {
      hide EncodeAll, DecodeAll, WellTyped, Fits, Encode, Wire.Decode;
      WriteFields(fs);
      InitReader();
      KindsAreWellTyped(fs);
      MessageRoundTrip(flexver, fs, []);
      assert data + [] == data == EncodeAll(flexver, fs);
      ok, got := ReadFields(KindsOf(fs));
    }

    // A message that lost bytes at its end is not read.
    method ExchangeTruncated(fs: seq<Field>, n: nat) returns (ok: bool, got: seq<Field>)
      requires data == [] && CrcValid() && forall f :: f in fs ==> WellTyped(f) && Fits(flexver, f)
      requires n < |EncodeAll(flexver, fs)|
      modifies this
      ensures !ok && err
    {
      hide EncodeAll, DecodeAll, WellTyped, Fits, Encode, Wire.Decode;
      WriteFields(fs);
      InitReader();
      end := n;
      KindsAreWellTyped(fs);
      assert data == EncodeAll(flexver, fs);
      TruncatedMessage(flexver, fs, n);
      assert Rest() == EncodeAll(flexver, fs)[..n];
      ok, got := ReadFields(KindsOf(fs));
    }
  }

  lemma {:induction false} KindsAreWellTyped(fs: seq<Field>)
    requires forall f :: f in fs ==> WellTyped(f)
    ensures forall kind :: kind in KindsOf(fs) && kind.IntKind? ==> kind.size in {1, 2, 4, 8}
  {
    if fs != [] {
      assert WellTyped(fs[0]);
      KindsAreWellTyped(fs[1..]);
    }
  }

  // The bytes behind the count stay the last ones of the buffer.
  lemma PatchMovesTail(buf: seq<Byte>, of: nat, cnt: int)
    requires of + 4 <= |buf|
    ensures var p := Patched(true, buf, of, cnt);
            && of <= |p| && |buf| - 4 <= |p| <= |buf|
            && forall at :: of + 4 <= at <= |buf| ==> p[at + |p| - |buf|..] == buf[at..]
  {
    hide Uvarint, Cast;
  }

  // What a flexible patch inside an open bracket does to the checksum, for every count:
  // with c the register in front of the count, the checksum of the patched bytes is still
  // that of the bytes as appended exactly if c takes the four old bytes and the new
  // encoding to one register; what follows the count makes no difference.
  lemma PatchInsideBracket(buf: seq<Byte>, mark: nat, of: nat, cnt: int)
    requires mark <= of && of + 4 <= |buf| && 0 <= cnt && InRange(cnt, 4)
    ensures var u := if cnt + 1 < 0x1000_0000 then Uvarint(cnt + 1) else [];
            var c := Crc32.Feed(Crc32.INIT, Crc32.Bits(buf[mark..of]));
            && mark <= |Patched(true, buf, of, cnt)|
            && (Crc32.Reference(Patched(true, buf, of, cnt)[mark..]) == Crc32.Reference(buf[mark..])
                <==> Crc32.Feed(c, Crc32.Bits(u)) == Crc32.Feed(c, Crc32.Bits(buf[of..of + 4])))
  {
    hide Uvarint, Patched;
    var pre, hole, suf := buf[..of], buf[of..of + 4], buf[of + 4..];
    var u := if cnt + 1 < 0x1000_0000 then Uvarint(cnt + 1) else [];
    var p := Patched(true, buf, of, cnt);
    assert buf == pre + hole + suf;
    PatchedFlexible(pre, hole, suf, cnt);
    assert p == pre + u + suf;
    assert p[mark..] == buf[mark..of] + u + suf;
    assert buf[mark..] == buf[mark..of] + hole + suf;
    Crc32.SameChecksumInMiddle(buf[mark..of], u, hole, suf);
  }

  // Counts whose encoding fills the four bytes: the checksum is right if and only if the
  // patch changed nothing.
  lemma FourBytePatchInsideBracket(buf: seq<Byte>, mark: nat, of: nat, cnt: int)
    requires mark <= of && of + 4 <= |buf| && 0x20_0000 <= cnt + 1 < 0x1000_0000
    ensures mark <= |Patched(true, buf, of, cnt)|
    ensures Crc32.Reference(Patched(true, buf, of, cnt)[mark..]) == Crc32.Reference(buf[mark..])
            <==> Patched(true, buf, of, cnt) == buf
  {
    hide Uvarint, Patched;
    var c, u := Crc32.Feed(Crc32.INIT, Crc32.Bits(buf[mark..of])), Uvarint(cnt + 1);
    Pow256Values();
    PatchInsideBracket(buf, mark, of, cnt);
    UvarintLength(cnt + 1, 3);
    UvarintLength(cnt + 1, 4);
    Pow128Four();
    FlexiblePatchChangesBytes(buf, of, cnt);
    Crc32.FourBytesTellApart(c, u, buf[of..of + 4]);
  }

  lemma Assoc(a: seq<Byte>, b: seq<Byte>, c: seq<Byte>)
    ensures a + b + c == a + (b + c)
  {
  }

  lemma Pow128Ten()
    ensures Pow128(10) > POW64
  {
  }

  // Lengths as the C types of k bytes take them.
  lemma CastFits(x: int, k: nat)
    requires k in {2, 4}
    ensures InRange(Cast(x, k), k)
  {
  }

  lemma MinusOneFits()
    ensures InRange(-1, 2) && Cast(-1, 2) == -1 && Cast(-1, 4) == -1
  {
    Pow256Values();
    CastIsIdentity(-1, 2);
    CastIsIdentity(-1, 4);
  }

  lemma ZeroFits()
    ensures InRange(0, 1) && InRange(0, 4)
  {
  }
}
