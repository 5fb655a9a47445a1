// rd_tmpabuf_t of common/include/kafka/rdkafka_buf.h: a buffer that hands out aligned
// regions one after the other.
module TmpBuf {
  import opened Arithmetic
  import opened Options
  import opened Varint
  import opened Words
  import opened Wire

  // RD_ROUNDUP(size, 8) of common/include/kafka/rd.h on size_t.
  function RoundUp8(size: nat): nat {
    (size + 7) % POW64 / 8 * 8
  }

  // The expression of the source clears the low three bits.
  lemma RoundUpExpression(x: bv64)
    ensures (x + 7) & 0xffff_ffff_ffff_fff8 == ((x + 7) / 8) * 8
  {
  }

  lemma RoundUpBounds(size: nat)
    requires size + 7 < POW64
    ensures size <= RoundUp8(size) < size + 8 && RoundUp8(size) % 8 == 0
  {
  }

  // ----- a run of allocations -----

  function Sum(sizes: seq<nat>): nat {
    if sizes == [] then 0 else Sum(sizes[..|sizes| - 1]) + RoundUp8(sizes[|sizes| - 1])
  }

  // Each of the allocations, one after the other from an empty buffer, succeeds.
  predicate AllSucceed(sizes: seq<nat>, cap: nat) {
    sizes == [] ||
    (AllSucceed(sizes[..|sizes| - 1], cap) && Sum(sizes[..|sizes| - 1]) + sizes[|sizes| - 1] <= cap)
  }

  // They all succeed if and only if the rounded sizes of all but the last, and the
  // last as it is, fit the buffer; in particular if all rounded sizes do.
  lemma {:induction false} AllSucceedIff(sizes: seq<nat>, cap: nat)
    requires forall i :: 0 <= i < |sizes| ==> sizes[i] + 7 < POW64
    ensures AllSucceed(sizes, cap) <==>
            sizes == [] || Sum(sizes[..|sizes| - 1]) + sizes[|sizes| - 1] <= cap
    ensures Sum(sizes) <= cap ==> AllSucceed(sizes, cap)
  {
    if sizes != [] {
      var init, last := sizes[..|sizes| - 1], sizes[|sizes| - 1];
      AllSucceedIff(init, cap);
      RoundUpBounds(last);
      if init != [] {
        RoundUpBounds(init[|init| - 1]);
      }
    }
  }

  // ----- the buffer -----

  // A region handed out, and what was written to it by rd_tmpabuf_write.
  datatype Region = Region(at: nat, len: nat, written: Option<seq<Byte>>)

  function Lens(rs: seq<Region>): (s: seq<nat>)
    ensures |s| == |rs|
  {
    if rs == [] then [] else Lens(rs[..|rs| - 1]) + [rs[|rs| - 1].len]
  }

  predicate Apart(r: Region, q: Region) {
    r.at + r.len <= q.at || q.at + q.len <= r.at
  }

  // Regions are 8-aligned, pairwise disjoint, inside the buffer and below `of`, which
  // is the sum of their rounded sizes; and they could be allocated one after the other.
  ghost predicate Laid(rs: seq<Region>, of: nat, cap: nat) {
    && of == Sum(Lens(rs)) && of % 8 == 0 && of < cap + 8 && AllSucceed(Lens(rs), cap)
    && (forall i :: 0 <= i < |rs| ==> rs[i].at % 8 == 0 && rs[i].at + rs[i].len <= cap && rs[i].at + rs[i].len <= of)
    && (forall i, j :: 0 <= i < j < |rs| ==> Apart(rs[i], rs[j]))
  }

  // What was written to a region is still there.
  ghost predicate Kept(rs: seq<Region>, m: seq<Byte>) {
    forall i :: 0 <= i < |rs| ==> Holds(rs[i], m)
  }

  ghost predicate Holds(r: Region, m: seq<Byte>) {
    r.written.Some? ==> r.at + r.len <= |m| && m[r.at..r.at + r.len] == r.written.value
  }

  lemma LaidOneMore(rs: seq<Region>, of: nat, cap: nat, r: Region)
    requires Laid(rs, of, cap) && r.at == of && of + r.len <= cap < POW64 - 16
    ensures Laid(rs + [r], of + RoundUp8(r.len), cap) && of + RoundUp8(r.len) < POW64
  {
    hide AllSucceed, RoundUp8, Sum, Lens;
    var t := rs + [r];
    RoundUpBounds(r.len);
    LensSnoc(rs, r);
    SumSnoc(Lens(rs), r.len);
    NextSucceeds(rs, of, cap, r.len);
    assert forall i {:trigger t[i]} :: 0 <= i < |rs| ==> t[i] == rs[i];
  }

  lemma SumSnoc(sizes: seq<nat>, size: nat)
    ensures Sum(sizes + [size]) == Sum(sizes) + RoundUp8(size)
  {
    assert (sizes + [size])[..|sizes|] == sizes;
  }

  lemma LastIsInside(rs: seq<Region>, of: nat, cap: nat, r: Region)
    ensures Laid(rs + [r], of, cap) ==> r.at + r.len <= cap
  {
    assert (rs + [r])[|rs|] == r;
  }

  lemma KeptOneMore(rs: seq<Region>, m: seq<Byte>, r: Region)
    requires Kept(rs, m) && r.written.None?
    ensures Kept(rs + [r], m)
  {
  }

  lemma Unfolded(rs: seq<Region>, of: nat, m: seq<Byte>)
    requires Laid(rs, of, |m|) && Kept(rs, m)
    ensures forall i :: 0 <= i < |rs| ==>
              var r := rs[i];
              && r.at % 8 == 0 && r.at + r.len <= |m|
              && (r.written.Some? ==> m[r.at..r.at + r.len] == r.written.value)
    ensures forall i, j :: 0 <= i < j < |rs| ==> rs[i].at + rs[i].len <= rs[j].at || rs[j].at + rs[j].len <= rs[i].at
  {
    forall i | 0 <= i < |rs|
      ensures rs[i].written.Some? ==> m[rs[i].at..rs[i].at + rs[i].len] == rs[i].written.value
    {
      assert Holds(rs[i], m);
    }
    assert forall i, j :: 0 <= i < j < |rs| ==> Apart(rs[i], rs[j]);
  }

  lemma LensSnoc(rs: seq<Region>, r: Region)
    ensures Lens(rs + [r]) == Lens(rs) + [r.len]
    ensures Lens(rs + [r])[..|rs|] == Lens(rs)
  {
    assert (rs + [r])[..|rs|] == rs;
  }

  class Buf {
    const mem: array<Byte>       // buf, of `size` bytes
    var of: nat
    var failed: bool
    ghost var regions: seq<Region>  // what was handed out

    ghost predicate Valid()
      reads this, mem
    {
      mem.Length < POW64 - 16 && !failed && Laid(regions, of, mem.Length) && Kept(regions, mem[..])
    }

    constructor (size: nat)
      requires size < POW64 - 16
      ensures Valid() && mem.Length == size && regions == [] && of == 0 && fresh(mem)
    {
      mem := new Byte[size];
      of, failed, regions := 0, false, [];
    }

    // rd_tmpabuf_failed: nothing ever sets the flag.
    method Failed() returns (r: bool)
      requires Valid()
      ensures !r
    {
      r := failed;
    }

    method Alloc(size: nat) returns (r: Option<nat>)
      requires Valid() && size < POW64
      modifies this
      ensures r == if (old(of) + size) % POW64 > mem.Length then None else Some(old(of))
      ensures r.None? ==> Valid() && of == old(of) && regions == old(regions)
      ensures r.Some? ==> of == (old(of) + RoundUp8(size)) % POW64
      ensures r.Some? ==> regions == old(regions) + [Region(old(of), size, None)]
      ensures r.Some? ==> (Valid() <==> old(of) + size < POW64)
    {
      hide Laid, Kept, RoundUp8;
      if failed {
        return None;
      }
      if (of + size) % POW64 > mem.Length {
        return None;
      }
      r := Some(of);
      ghost var at, before := of, regions;
      of := (of + RoundUp8(size)) % POW64;
      regions := regions + [Region(at, size, None)];
      LastIsInside(before, of, mem.Length, Region(at, size, None));
      if at + size < POW64 {
        DivModUnique(at + size, POW64, 0, at + size);
        KeptOneMore(before, mem[..], Region(at, size, None));
        LaidOneMore(before, at, mem.Length, Region(at, size, None));
        DivModUnique(at + RoundUp8(size), POW64, 0, at + RoundUp8(size));
      }
    }

    // rd_tmpabuf_write: a region filled with the given bytes, and nothing else changed.
    method Write(bytes: seq<Byte>) returns (r: Option<nat>)
      requires Valid() && of + |bytes| < POW64
      modifies this, mem
      ensures Valid()
      ensures r == if old(of) + |bytes| > mem.Length then None else Some(old(of))
      ensures r.None? ==> of == old(of) && regions == old(regions) && mem[..] == old(mem[..])
      ensures r.Some? ==> regions == old(regions) + [Region(r.value, |bytes|, Some(bytes))]
      ensures r.Some? ==> mem[..] == Filled(old(mem[..]), r.value, bytes)
    {
      hide Laid, Kept, Filled;
      DivModUnique(of + |bytes|, POW64, 0, of + |bytes|);
      ghost var at, before, m := of, regions, mem[..];
      r := Alloc(|bytes|);
      if r.Some? {
        if |bytes| > 0 {
          Copy(mem, r.value, bytes);
        }
        LaidOneMore(before, at, mem.Length, Region(at, |bytes|, Some(bytes)));
        WriteKeepsRegions(before, at, m, bytes);
        regions := before + [Region(at, |bytes|, Some(bytes))];
      }
    }

    // A user of the buffer: allocations and writes in any order, up to the first that
    // fails.  All succeed if and only if the sizes fit.
    method Serve(requests: seq<Request>) returns (ok: bool)
      requires Valid() && forall q :: q in requests ==> mem.Length + 8 + Size(q) <= POW64
      modifies this, mem
      ensures Valid()
      ensures ok <==> AllSucceed(Lens(old(regions)) + Sizes(requests), mem.Length)
      ensures old(regions) <= regions
      ensures ok ==> Asked(regions[|old(regions)|..], requests)
      ensures forall i :: 0 <= i < |regions| ==>
                var r := regions[i];
                && r.at % 8 == 0 && r.at + r.len <= mem.Length
                && (r.written.Some? ==> mem[r.at..r.at + r.len] == r.written.value)
      ensures forall i, j :: 0 <= i < j < |regions| ==>
                regions[i].at + regions[i].len <= regions[j].at || regions[j].at + regions[j].len <= regions[i].at
    {
      hide Laid, Kept, AllSucceed, Lens, Granted, Size, Asked;
      NothingAsked();
      ghost var before := regions;
      ok := true;
      var i := 0;
      assert regions[|before|..] == [] && requests[..0] == [];
      assert Sizes(requests[..0]) == [] && Lens(before) + [] == Lens(before);
      StillFits(before, of, mem.Length);
      while i < |requests|
        invariant 0 <= i <= |requests| && Valid()
        invariant before <= regions && Lens(regions) == Lens(before) + Sizes(requests[..i])
        invariant Asked(regions[|before|..], requests[..i])
        invariant AllSucceed(Lens(before) + Sizes(requests[..i]), mem.Length)
      {
        ghost var rs := regions;
        SizesSnoc(requests, i);
        SucceedPrefix(Lens(before) + Sizes(requests[..i + 1]), Lens(before) + Sizes(requests), mem.Length);
        assert Lens(rs) + [Size(requests[i])] == Lens(before) + Sizes(requests[..i + 1]);
        ok := ServeOne(requests[i]);
        if !ok {
          Unfolded(regions, of, mem[..]);
          return;
        }
        assert regions == rs + [regions[|rs|]];
        assert regions[|before|..|before| + i] == rs[|before|..];
        AskedSnoc(regions, |before|, requests, i);
        i := i + 1;
      }
      assert requests[..i] == requests;
      Unfolded(regions, of, mem[..]);
    }

    method ServeOne(q: Request) returns (ok: bool)
      requires Valid() && mem.Length + 8 + Size(q) <= POW64
      modifies this, mem
      ensures Valid()
      ensures ok <==> AllSucceed(Lens(old(regions)) + [Size(q)], mem.Length)
      ensures ok ==> |regions| == |old(regions)| + 1 && old(regions) <= regions && Granted(regions[|old(regions)|], q)
      ensures ok ==> Lens(regions) == Lens(old(regions)) + [Size(q)]
      ensures !ok ==> regions == old(regions)
    {
      hide Laid, Kept;
      NextSucceeds(regions, of, mem.Length, Size(q));
      var r: Option<nat>;
      match q {
        case Reserve(size) =>
          DivModUnique(of + size, POW64, 0, of + size);
          r := Alloc(size);
        case Store(bytes) => r := Write(bytes);
      }
      ok := r.Some?;
      if ok {
        LensSnoc(old(regions), regions[|old(regions)|]);
      }
    }
  }

  function Filled(m: seq<Byte>, at: nat, bytes: seq<Byte>): (s: seq<Byte>)
    requires at + |bytes| <= |m|
    ensures |s| == |m| && (bytes == [] ==> s == m)
    ensures forall i :: 0 <= i < |m| ==> s[i] == if at <= i < at + |bytes| then bytes[i - at] else m[i]
  {
    m[..at] + bytes + m[at + |bytes|..]
  }

  // memcpy
  method Copy(mem: array<Byte>, at: nat, bytes: seq<Byte>)
    requires at + |bytes| <= mem.Length
    modifies mem
    ensures mem[..] == Filled(old(mem[..]), at, bytes)
  {
    forall i | 0 <= i < |bytes| {
      mem[at + i] := bytes[i];
    }
  }

  // A write leaves the regions handed out before it alone and fills its own.
  lemma WriteKeepsRegions(rs: seq<Region>, of: nat, m: seq<Byte>, bytes: seq<Byte>)
    requires Laid(rs, of, |m|) && Kept(rs, m) && of + |bytes| <= |m|
    ensures Kept(rs + [Region(of, |bytes|, Some(bytes))], Filled(m, of, bytes))
  {
    var s, t := Filled(m, of, bytes), rs + [Region(of, |bytes|, Some(bytes))];
    forall i | 0 <= i < |t|
      ensures Holds(t[i], s)
    {
      if i < |rs| {
        assert Holds(rs[i], m);
        assert s[rs[i].at..rs[i].at + rs[i].len] == m[rs[i].at..rs[i].at + rs[i].len];
      }
    }
  }

  // ----- requests -----

  datatype Request = Reserve(size: nat) | Store(bytes: seq<Byte>)

  function Size(q: Request): nat {
    match q
    case Reserve(size) => size
    case Store(bytes) => |bytes|
  }

  function Sizes(qs: seq<Request>): (s: seq<nat>)
    ensures |s| == |qs|
    ensures forall i :: 0 <= i < |qs| ==> s[i] == Size(qs[i])
  {
    seq(|qs|, i requires 0 <= i < |qs| => Size(qs[i]))
  }

  // A region is the one asked for, with the bytes of a write in it.
  ghost predicate Granted(r: Region, q: Request) {
    match q
    case Reserve(size) => r.len == size
    case Store(bytes) => r.len == |bytes| && r.written == Some(bytes)
  }

  ghost predicate Asked(rs: seq<Region>, qs: seq<Request>) {
    |rs| == |qs| && forall i :: 0 <= i < |rs| ==> Granted(rs[i], qs[i])
  }

  lemma NothingAsked()
    ensures Asked([], [])
  {
  }

  lemma AskedSnoc(rs: seq<Region>, k: nat, qs: seq<Request>, i: nat)
    requires i < |qs| && |rs| == k + i + 1
    requires Asked(rs[k..k + i], qs[..i]) && Granted(rs[k + i], qs[i])
    ensures Asked(rs[k..], qs[..i + 1])
  {
    assert rs[k..] == rs[k..k + i] + [rs[k + i]] && qs[..i + 1] == qs[..i] + [qs[i]];
  }

  lemma SizesSnoc(qs: seq<Request>, i: nat)
    requires i < |qs|
    ensures Sizes(qs[..i + 1]) == Sizes(qs[..i]) + [Size(qs[i])]
    ensures Sizes(qs[..i + 1]) <= Sizes(qs)
  {
  }

  lemma StillFits(rs: seq<Region>, of: nat, cap: nat)
    requires Laid(rs, of, cap)
    ensures AllSucceed(Lens(rs), cap)
  {
  }

  lemma NextSucceeds(rs: seq<Region>, of: nat, cap: nat, size: nat)
    requires Laid(rs, of, cap)
    ensures AllSucceed(Lens(rs) + [size], cap) <==> of + size <= cap
    ensures of < cap + 8
  {
    assert (Lens(rs) + [size])[..|rs|] == Lens(rs);
  }

  lemma {:induction false} SucceedPrefix(a: seq<nat>, b: seq<nat>, cap: nat)
    requires a <= b
    ensures AllSucceed(b, cap) ==> AllSucceed(a, cap)
    decreases |b|
  {
    if |a| < |b| {
      SucceedPrefix(a, b[..|b| - 1], cap);
    } else {
      assert a == b;
    }
  }
}
