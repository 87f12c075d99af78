/** BitVector: a window on a buffer of bits, with integer fields in both bit orders,
    per-octet reversal and octet packing.  Windows may share a buffer. */
module BitVectors {
  import opened Fields

  const TWO64: nat := 0x1_0000_0000_0000_0000

  newtype Octet = x: int | 0 <= x < 256

  /** Every whole group of eight bits reversed; bits after the last whole group stay. */
  function ReverseOctets(s: seq<bool>): (r: seq<bool>)
    ensures |r| == |s|
  {
    if |s| < 8 then s else Reverse(s[..8]) + ReverseOctets(s[8..])
  }

  lemma {:induction false} ReverseOctetsInvolution(s: seq<bool>)
    ensures ReverseOctets(ReverseOctets(s)) == s
    decreases |s|
  {
    if |s| >= 8 {
      var r := ReverseOctets(s);
      ReverseOctetsInvolution(s[8..]);
      assert r[..8] == Reverse(s[..8]) && r[8..] == ReverseOctets(s[8..]);
      assert Reverse(Reverse(s[..8])) == s[..8];
    }
  }

  /** A whole number of octets, each first bit most significant. */
  function Octets(s: seq<bool>): (r: seq<Octet>)
    requires |s| % 8 == 0
    ensures |r| == |s| / 8
  {
    if s == [] then []
    else
      MsbBitsOfValue(s[..8]);
      Pow2Eight();
      [MsbValue(s[..8]) as Octet] + Octets(s[8..])
  }

  lemma Pow2Eight()
    ensures Pow2(8) == 256
  {
    assert Pow2(4) == 16;
  }

  /** Octets of any bit string, the last one filled with zeros. */
  function Packed(s: seq<bool>): (r: seq<Octet>)
    ensures |r| == (|s| + 7) / 8
  {
    Octets(s + Falses((8 - |s| % 8) % 8))
  }

  function AllBits(o: seq<Octet>): (r: seq<bool>)
    ensures |r| == 8 * |o|
  {
    if o == [] then [] else MsbBits(o[0] as nat, 8) + AllBits(o[1..])
  }

  /** The first n bits of a string of octets. */
  function Unpacked(o: seq<Octet>, n: nat): (r: seq<bool>)
    requires (n + 7) / 8 <= |o|
    ensures |r| == n
  {
    AllBits(o)[..n]
  }

  lemma {:induction false} BitsOfOctets(s: seq<bool>)
    requires |s| % 8 == 0
    ensures AllBits(Octets(s)) == s
    decreases |s|
  {
    if s != [] {
      hide MsbBits, MsbValue;
      MsbBitsOfValue(s[..8]);
      BitsOfOctets(s[8..]);
      assert Octets(s)[1..] == Octets(s[8..]);
      assert s == s[..8] + s[8..];
    }
  }

  lemma EightBitValue(v: nat)
    requires v < 256
    ensures MsbValue(MsbBits(v, 8)) == v
  {
    hide *;
    MsbValueOfBits(v, 8);
    Pow2Eight();
  }

  lemma {:induction false} OctetsOfBits(o: seq<Octet>)
    ensures Octets(AllBits(o)) == o
  {
    if o != [] {
      var s := AllBits(o);
      assert s[..8] == MsbBits(o[0] as nat, 8) && s[8..] == AllBits(o[1..]);
      EightBitValue(o[0] as nat);
      OctetsOfBits(o[1..]);
    }
  }

  lemma {:induction false} ShiftLeftGrows(v: nat, k: nat)
    ensures v <= ShiftLeft(v, k)
  {
    if k > 0 { ShiftLeftGrows(v, k - 1); }
  }

  lemma {:induction false} OctetAt(s: seq<bool>, i: nat)
    requires |s| % 8 == 0 && i < |s| / 8
    ensures Octets(s)[i] as nat == MsbValue(s[8 * i..8 * i + 8])
  {
    if i > 0 {
      OctetAt(s[8..], i - 1);
      assert s[8..][8 * (i - 1)..8 * (i - 1) + 8] == s[8 * i..8 * i + 8];
    } else {
      assert s[8 * i..8 * i + 8] == s[..8];
    }
  }

  lemma {:induction false} AllBitsAt(o: seq<Octet>, i: nat)
    requires i < |o|
    ensures AllBits(o)[8 * i..8 * i + 8] == MsbBits(o[i] as nat, 8)
  {
    var first, rest := MsbBits(o[0] as nat, 8), AllBits(o[1..]);
    assert AllBits(o) == first + rest;
    hide AllBits, MsbBits;
    if i > 0 {
      AllBitsAt(o[1..], i - 1);
      BehindEight(first, rest, i);
    }
  }

  lemma BehindEight(first: seq<bool>, rest: seq<bool>, i: nat)
    requires |first| == 8 && i > 0 && 8 * i <= |rest|
    ensures (first + rest)[8 * i..8 * i + 8] == rest[8 * (i - 1)..8 * (i - 1) + 8]
  {
  }

  lemma PartialBits(o: seq<Octet>, i: nat, rem: nat)
    requires i < |o| && rem < 8
    ensures forall k :: 8 * i <= k < 8 * i + rem ==>
      AllBits(o)[k] == MsbBits(ShiftRight(o[i] as nat, 8 - rem), rem)[k - 8 * i]
  {
    ShiftRightKeepsTop(o[i] as nat, 8 - rem, 8);
    AllBitsAt(o, i);
    var octet := AllBits(o)[8 * i..8 * i + 8];
    forall k | 8 * i <= k < 8 * i + rem
      ensures AllBits(o)[k] == MsbBits(ShiftRight(o[i] as nat, 8 - rem), rem)[k - 8 * i]
    {
      assert AllBits(o)[k] == octet[k - 8 * i] == octet[..rem][k - 8 * i];
    }
  }

  /** A partial octet is its bits shifted to the top. */
  lemma PartialOctet(s: seq<bool>, bytes: nat, rem: nat)
    requires |s| == 8 * bytes + rem && 0 < rem < 8
    ensures var last := s[8 * bytes..]; var v := ShiftLeft(MsbValue(last), 8 - rem);
      MsbValue(last) <= v < 256 && Packed(s)[bytes] as nat == v
  {
    hide Packed, Octets, MsbValue, ShiftLeft, ShiftRight, MsbBits;
    var last, pad := s[8 * bytes..], Falses(8 - rem);
    PackedWithPad(s, bytes, rem);
    ShiftLeftPads(last, 8 - rem);
    ShiftLeftGrows(MsbValue(last), 8 - rem);
    MsbBitsOfValue(last + pad);
    Pow2Eight();
    OctetAt(s + pad, bytes);
    assert (s + pad)[8 * bytes..8 * bytes + 8] == last + pad;
  }

  lemma PackedWithPad(s: seq<bool>, bytes: nat, rem: nat)
    requires |s| == 8 * bytes + rem && 0 < rem < 8
    ensures Packed(s) == Octets(s + Falses(8 - rem))
  {
    hide Octets, Falses;
    RemainderIs(bytes, rem);
  }

  lemma RemainderIs(bytes: nat, rem: nat)
    requires 0 < rem < 8
    ensures (8 * bytes + rem) % 8 == rem && (8 - rem) % 8 == 8 - rem
  {
  }

  lemma PackedAt(s: seq<bool>, i: nat)
    requires i < |s| / 8
    ensures MsbValue(s[8 * i..8 * i + 8]) < 256
    ensures Packed(s)[i] as nat == MsbValue(s[8 * i..8 * i + 8])
  {
    var all := s + Falses((8 - |s| % 8) % 8);
    OctetAt(all, i);
    assert all[8 * i..8 * i + 8] == s[8 * i..8 * i + 8];
  }

  lemma ReverseOctetsStep(s: seq<bool>)
    requires |s| >= 8
    ensures ReverseOctets(s) == Reverse(s[..8]) + ReverseOctets(s[8..])
  {
  }

  lemma {:induction false} ReverseOctetsGroup(s: seq<bool>, n: nat)
    requires 8 * n + 8 <= |s|
    ensures ReverseOctets(s)[8 * n..8 * n + 8] == Reverse(s[8 * n..8 * n + 8])
  {
    hide Reverse, ReverseOctets;
    ReverseOctetsStep(s);
    var head, tail, i := Reverse(s[..8]), ReverseOctets(s[8..]), 8 * n;
    if n > 0 {
      ReverseOctetsGroup(s[8..], n - 1);
      assert (head + tail)[i..i + 8] == tail[i - 8..i];
      SliceOfSlice(s, 8, |s|, i - 8, 8);
    } else {
      assert (head + tail)[0..8] == head && s[0..8] == s[..8];
    }
  }

  lemma EightReversed(a: seq<bool>, s: nat)
    requires s + 8 <= |a|
    ensures var b := a[s := a[s + 7]][s + 7 := a[s]]; var c := b[s + 1 := b[s + 6]][s + 6 := b[s + 1]];
      var d := c[s + 2 := c[s + 5]][s + 5 := c[s + 2]]; var e := d[s + 3 := d[s + 4]][s + 4 := d[s + 3]];
      e == a[..s] + Reverse(a[s..s + 8]) + a[s + 8..]
  {
  }

  lemma {:induction false} ReverseOctetsRest(s: seq<bool>, k: nat)
    requires |s| / 8 * 8 <= k < |s|
    ensures ReverseOctets(s)[k] == s[k]
    decreases |s|
  {
    if |s| >= 8 { ReverseOctetsRest(s[8..], k - 8); }
  }

  /** unpack undoes pack, also when the last octet is partial. */
  lemma UnpackPacked(s: seq<bool>)
    ensures Unpacked(Packed(s), |s|) == s
  {
    BitsOfOctets(s + Falses((8 - |s| % 8) % 8));
  }

  /** pack undoes unpack on whole octets. */
  lemma PackUnpacked(o: seq<Octet>)
    ensures Packed(Unpacked(o, 8 * |o|)) == o
  {
    OctetsOfBits(o);
    assert AllBits(o)[..8 * |o|] == AllBits(o);
    assert AllBits(o) + Falses(0) == AllBits(o);
  }

  // ---------- the loops over the buffer ----------

  lemma MsbValueSnoc(s: seq<bool>, b: bool)
    ensures MsbValue(s + [b]) == 2 * MsbValue(s) + Bit(b)
  {
    assert (s + [b])[..|s|] == s;
  }

  lemma MsbValueEmpty()
    ensures MsbValue([]) == 0
  {
  }

  lemma ModAccum(x: nat, b: nat)
    ensures (x % TWO64 * 2 + b) % TWO64 == (2 * x + b) % TWO64
  {
  }

  lemma WholeAndPartial(bits: nat, bytes: nat, count: nat)
    requires bytes == bits / 8 && count == (bits + 7) / 8
    ensures count == if bits % 8 == 0 then bytes else bytes + 1
  {
  }

  lemma SpliceNone<T>(s: seq<T>, base: nat)
    requires base <= |s|
    ensures Splice(s, base, []) == s
  {
  }

  lemma SpliceOneMore<T>(s: seq<T>, base: nat, x: seq<T>, i: nat)
    requires i < |x| && base + i < |s|
    ensures Splice(s, base, x[..i])[base + i := x[i]] == Splice(s, base, x[..i + 1])
  {
  }

  lemma SpliceWindow<T>(s: seq<T>, from: nat, to: nat, start: nat, x: seq<T>)
    requires from <= to <= |s| && start + |x| <= to - from
    ensures Splice(s, from + start, x)[from..to] == Splice(s[from..to], start, x)
  {
  }

  /** The first i items are copied; the next one comes over. */
  lemma OneMore<T>(want: seq<T>, was: seq<T>, i: nat)
    requires i < |want| <= |was|
    ensures (want[..i] + was[i..])[i := want[i]] == want[..i + 1] + was[i + 1..]
  {
  }

  lemma AllOfThem<T>(want: seq<T>, was: seq<T>, i: nat)
    requires i <= |want| <= |was|
    ensures i == |want| ==> (want[..i] + was[i..])[..i] == want && (want[..i] + was[i..])[i..] == was[i..]
  {
  }

  lemma SliceOfSlice(s: seq<bool>, from: nat, to: nat, i: nat, n: nat)
    requires from <= to <= |s| && i + n <= to - from
    ensures s[from..to][i..i + n] == s[from + i..from + i + n]
  {
    var t := s[from..to];
    assert forall j {:trigger t[j]} :: 0 <= j < |t| ==> t[j] == s[from + j];
    assert t[i..i + n] == s[from + i..from + i + n];
  }

  method Swap(a: array<bool>, i: nat, j: nat)
    requires i < j < a.Length
    modifies a
    ensures a[..] == old(a[..])[i := old(a[j])][j := old(a[i])]
  {
    var tmp := a[i];
    a[i] := a[j];
    a[j] := tmp;
  }

  method PeekRaw(a: array<bool>, base: nat, length: nat) returns (accum: nat)
    requires base + length <= a.Length
    ensures accum == MsbValue(a[base..base + length]) % TWO64
  {
    hide MsbValue;
    accum := 0;
    MsbValueEmpty();
    assert a[base..base] == [];
    var dp := base;
    while dp < base + length
      invariant base <= dp <= base + length
      invariant accum == MsbValue(a[base..dp]) % TWO64
    {
      MsbValueSnoc(a[base..dp], a[dp]);
      assert a[base..dp] + [a[dp]] == a[base..dp + 1];
      ModAccum(MsbValue(a[base..dp]), Bit(a[dp]));
      accum := (accum * 2 + Bit(a[dp])) % TWO64;
      dp := dp + 1;
    }
  }

  method PeekRawReversed(a: array<bool>, base: nat, length: nat) returns (accum: nat)
    requires base + length <= a.Length
    ensures accum == LsbValue(a[base..base + length]) % TWO64
  {
    accum := 0;
    var end := base + length;
    var dp := end;
    while dp > base
      invariant base <= dp <= end
      invariant accum == LsbValue(a[dp..end]) % TWO64
    {
      dp := dp - 1;
      assert a[dp..end][1..] == a[dp + 1..end] && a[dp..end][0] == a[dp];
      ModAccum(LsbValue(a[dp + 1..end]), Bit(a[dp]));
      accum := (accum * 2 + Bit(a[dp])) % TWO64;
    }
  }

  lemma MsbBitsStep(v: nat, len: nat)
    requires len > 0
    ensures MsbBits(v, len) == MsbBits(v / 2, len - 1) + [v % 2 == 1]
  {
  }

  lemma LsbBitsStep(v: nat, len: nat)
    requires len > 0
    ensures LsbBits(v, len) == [v % 2 == 1] + LsbBits(v / 2, len - 1)
  {
  }

  method FillRaw(a: array<bool>, base: nat, value: nat, length: nat)
    requires base + length <= a.Length
    modifies a
    ensures a[base..base + length] == MsbBits(value, length)
    ensures a[..base] == old(a[..base]) && a[base + length..] == old(a[base + length..])
  {
    hide MsbBits;
    var dp, v := base + length, value;
    while dp > base
      invariant base <= dp <= base + length
      invariant MsbBits(value, length) == MsbBits(v, dp - base) + a[dp..base + length]
      invariant a[..base] == old(a[..base]) && a[base + length..] == old(a[base + length..])
    {
      ghost var done := a[dp..base + length];
      MsbBitsStep(v, dp - base);
      dp := dp - 1;
      a[dp] := v % 2 == 1;
      assert a[dp..base + length] == [v % 2 == 1] + done;
      v := v / 2;
    }
  }

  method FillRawReversed(a: array<bool>, base: nat, value: nat, length: nat)
    requires base + length <= a.Length
    modifies a
    ensures a[base..base + length] == LsbBits(value, length)
    ensures a[..base] == old(a[..base]) && a[base + length..] == old(a[base + length..])
  {
    hide LsbBits;
    var dp, v := base, value;
    while dp < base + length
      invariant base <= dp <= base + length
      invariant LsbBits(value, length) == a[base..dp] + LsbBits(v, base + length - dp)
      invariant a[..base] == old(a[..base]) && a[base + length..] == old(a[base + length..])
    {
      ghost var done := a[base..dp];
      LsbBitsStep(v, base + length - dp);
      a[dp] := v % 2 == 1;
      assert a[base..dp + 1] == done + [v % 2 == 1];
      v := v / 2;
      dp := dp + 1;
    }
  }

  /** Three parts of a buffer as one splice, in the whole buffer and in a window on it. */
  lemma PartsAreSplice(before: seq<bool>, after: seq<bool>, base: nat, x: seq<bool>, from: nat, to: nat)
    requires |after| == |before| && from <= base && base + |x| <= to <= |before|
    requires after[base..base + |x|] == x
    requires after[..base] == before[..base] && after[base + |x|..] == before[base + |x|..]
    ensures after == Splice(before, base, x)
    ensures after[from..to] == Splice(before[from..to], base - from, x)
  {
    assert after == after[..base] + after[base..base + |x|] + after[base + |x|..];
    SpliceIs(before[from..to], base - from, x, after[from..to]);
  }

  /** The eight bits from i on reversed. */
  function OctetReversed(s: seq<bool>, i: nat): (r: seq<bool>)
    requires i + 8 <= |s|
    ensures |r| == |s|
  {
    s[..i] + Reverse(s[i..i + 8]) + s[i + 8..]
  }

  /** The boundary between a done part and a part to do moves over n done elements. */
  lemma BoundaryMoves(done: seq<bool>, todo: seq<bool>, i: nat, n: nat, t: seq<bool>)
    requires |done| == |todo| && i + n <= |done| && t == done[..i] + todo[i..]
    ensures t[i..i + n] == todo[i..i + n]
    ensures t[..i] + done[i..i + n] + t[i + n..] == done[..i + n] + todo[i + n..]
  {
    assert t[..i] == done[..i] && t[i + n..] == todo[i + n..];
    assert done[..i] + done[i..i + n] == done[..i + n];
  }

  lemma OctetStep(s: seq<bool>, n: nat, i: nat)
    requires i == 8 * n && i + 8 <= |s|
    ensures OctetReversed(ReverseOctets(s)[..i] + s[i..], i) == ReverseOctets(s)[..i + 8] + s[i + 8..]
  {
    ReverseOctetsGroup(s, n);
    hide Reverse, ReverseOctets;
    BoundaryMoves(ReverseOctets(s), s, i, 8, ReverseOctets(s)[..i] + s[i..]);
  }

  lemma ReverseOctetsEnd(s: seq<bool>, n: nat, i: nat)
    requires i == 8 * n && n == |s| / 8
    ensures ReverseOctets(s)[..i] + s[i..] == ReverseOctets(s)
  {
    hide ReverseOctets;
    forall k | i <= k < |s| ensures ReverseOctets(s)[k] == s[k] { ReverseOctetsRest(s, k); }
  }

  lemma WindowOctet(a: seq<bool>, start: nat, end: nat, i: nat)
    requires start + i + 8 <= end <= |a|
    ensures OctetReversed(a, start + i)[start..end] == OctetReversed(a[start..end], i)
    ensures forall k :: 0 <= k < |a| && !(start <= k < end) ==> OctetReversed(a, start + i)[k] == a[k]
  {
    hide Reverse;
    SliceOfSlice(a, start, end, i, 8);
    MiddleOfWindow(a, Reverse(a[start + i..start + i + 8]), start, end, start + i, OctetReversed(a, start + i));
  }

  lemma MiddleOfWindow(a: seq<bool>, o: seq<bool>, start: nat, end: nat, at: nat, b: seq<bool>)
    requires start <= at && at + |o| <= end <= |a| && b == a[..at] + o + a[at + |o|..]
    ensures b[start..end] == a[start..end][..at - start] + o + a[start..end][at - start + |o|..]
    ensures forall k :: 0 <= k < |a| && !(start <= k < end) ==> b[k] == a[k]
  {
    InTheMiddle(a, o, at, b);
    var s, t, from := b[start..end], a[start..end], at - start;
    var r := t[..from] + o + t[from + |o|..];
    forall k | 0 <= k < |s| ensures s[k] == r[k] {
      assert s[k] == b[start + k] && t[k] == a[start + k];
      InTheMiddle(t, o, from, r);
    }
  }

  lemma InTheMiddle(a: seq<bool>, o: seq<bool>, at: nat, b: seq<bool>)
    requires at + |o| <= |a| && b == a[..at] + o + a[at + |o|..]
    ensures |b| == |a| && forall k :: 0 <= k < |a| ==> b[k] == if at <= k < at + |o| then o[k - at] else a[k]
  {
  }

  lemma WindowIs(a: seq<bool>, start: nat, end: nat, t: seq<bool>)
    requires start <= end <= |a| && end - start <= |t|
    requires forall k :: start <= k < end ==> a[k] == t[k - start]
    ensures a[start..end] == t[..end - start]
  {
  }

  method SetOne(a: array<bool>, i: nat, b: bool)
    requires i < a.Length
    modifies a
    ensures a[..] == old(a[..])[i := b]
  {
    a[i] := b;
  }

  class BitVector {
    var mData: array<bool>
    var mStart: nat
    var mEnd: nat

    ghost predicate Valid()
      reads this
    {
      mStart <= mEnd <= mData.Length
    }

    function Size(): nat
      requires Valid()
      reads this
    {
      mEnd - mStart
    }

    ghost function Bits(): (s: seq<bool>)
      requires Valid()
      reads this, mData
      ensures |s| == Size()
    {
      mData[mStart..mEnd]
    }

    constructor (n: nat)
      ensures Valid() && fresh(mData) && mStart == 0 && mEnd == mData.Length == n
    {
      mData := new bool[n];
      mStart, mEnd := 0, n;
    }

    /** segment(): a second window on the same buffer. */
    constructor Segment(of: BitVector, start: nat, span: nat)
      requires of.Valid() && start + span <= of.Size()
      ensures Valid() && mData == of.mData && mStart == of.mStart + start && mEnd == mStart + span
      ensures Bits() == of.Bits()[start..start + span]
    {
      mData := of.mData;
      mStart, mEnd := of.mStart + start, of.mStart + start + span;
    }

    /** clone(): an own copy of the bits of another vector. */
    method Clone(other: BitVector)
      requires other.Valid()
      modifies this
      ensures Valid() && fresh(mData) && mStart == 0 && Bits() == old(other.Bits())
    {
      var n, source, base := other.mEnd - other.mStart, other.mData, other.mStart;
      var data := new bool[n];
      for i := 0 to n
        invariant data[..i] == source[base..base + i]
      {
        data[i] := source[base + i];
      }
      mData, mStart, mEnd := data, 0, n;
    }

    method Resize(n: nat)
      modifies this
      ensures Valid() && fresh(mData) && mStart == 0 && mEnd == mData.Length == n
    {
      mData := new bool[n];
      mStart, mEnd := 0, n;
    }

    /** copyToSegment(): the first span bits over a segment of another vector. */
    method CopyToSegment(other: BitVector, start: nat, span: nat)
      requires Valid() && other.Valid() && other.mData != mData
      requires start + span <= other.Size() && span <= Size()
      modifies other.mData
      ensures other.mData[..] == Splice(old(other.mData[..]), other.mStart + start, Bits()[..span])
      ensures other.Bits() == Splice(old(other.Bits()), start, Bits()[..span])
    {
      var base := other.mStart + start;
      ghost var was, bits := other.mData[..], Bits();
      hide Splice;
      SpliceNone(was, base);
      for i := 0 to span
        invariant other.mData[..] == Splice(was, base, bits[..i]) && Bits() == bits
      {
        SpliceOneMore(was, base, bits, i);
        SetOne(other.mData, base + i, mData[mStart + i]);
      }
      SpliceWindow(was, other.mStart, other.mEnd, start, bits[..span]);
    }

    /** segmentCopyTo(): a segment over the first bits of another vector. */
    method SegmentCopyTo(other: BitVector, start: nat, span: nat)
      requires Valid() && other.Valid() && other.mData != mData
      requires start + span <= Size() && span <= other.Size()
      modifies other.mData
      ensures other.Bits() == Splice(old(other.Bits()), 0, Bits()[start..start + span])
    {
      var segment := new BitVector.Segment(this, start, span);
      segment.CopyToSegment(other, 0, span);
      assert segment.Bits()[..span] == Bits()[start..start + span];
    }

    // ---------- fields ----------

    /** The next length bits as an integer, first bit most significant; a uint64_t accumulates. */
    method PeekField(readIndex: nat, length: nat) returns (accum: nat)
      requires Valid() && readIndex + length <= Size()
      ensures accum == MsbValue(Bits()[readIndex..readIndex + length]) % TWO64
    {
      accum := PeekRaw(mData, mStart + readIndex, length);
      SliceOfSlice(mData[..], mStart, mEnd, readIndex, length);
    }

    /** The same with the first bit least significant. */
    method PeekFieldReversed(readIndex: nat, length: nat) returns (accum: nat)
      requires Valid() && readIndex + length <= Size()
      ensures accum == LsbValue(Bits()[readIndex..readIndex + length]) % TWO64
    {
      accum := PeekRawReversed(mData, mStart + readIndex, length);
      SliceOfSlice(mData[..], mStart, mEnd, readIndex, length);
    }

    method ReadField(readIndex: nat, length: nat) returns (v: nat, readIndex': nat)
      requires Valid() && readIndex + length <= Size()
      ensures v == MsbValue(Bits()[readIndex..readIndex + length]) % TWO64
      ensures readIndex' == readIndex + length
    {
      v := PeekField(readIndex, length);
      readIndex' := readIndex + length;
    }

    method ReadFieldReversed(readIndex: nat, length: nat) returns (v: nat, readIndex': nat)
      requires Valid() && readIndex + length <= Size()
      ensures v == LsbValue(Bits()[readIndex..readIndex + length]) % TWO64
      ensures readIndex' == readIndex + length
    {
      v := PeekFieldReversed(readIndex, length);
      readIndex' := readIndex + length;
    }

    method FillField(writeIndex: nat, value: nat, length: nat)
      requires Valid() && (length != 0 ==> writeIndex + length <= Size())
      modifies mData
      ensures mData[..] == Splice(old(mData[..]), mStart + writeIndex, MsbBits(value, length))
      ensures Bits() == Splice(old(Bits()), writeIndex, MsbBits(value, length))
    {
      if length != 0 {
        FillRaw(mData, mStart + writeIndex, value, length);
        PartsAreSplice(old(mData[..]), mData[..], mStart + writeIndex, MsbBits(value, length), mStart, mEnd);
      }
    }

    method FillFieldReversed(writeIndex: nat, value: nat, length: nat)
      requires Valid() && (length != 0 ==> writeIndex + length <= Size())
      modifies mData
      ensures mData[..] == Splice(old(mData[..]), mStart + writeIndex, LsbBits(value, length))
      ensures Bits() == Splice(old(Bits()), writeIndex, LsbBits(value, length))
    {
      if length != 0 {
        FillRawReversed(mData, mStart + writeIndex, value, length);
        PartsAreSplice(old(mData[..]), mData[..], mStart + writeIndex, LsbBits(value, length), mStart, mEnd);
      }
    }

    method WriteField(writeIndex: nat, value: nat, length: nat) returns (writeIndex': nat)
      requires Valid() && (length != 0 ==> writeIndex + length <= Size())
      modifies mData
      ensures writeIndex' == writeIndex + length
      ensures mData[..] == Splice(old(mData[..]), mStart + writeIndex, MsbBits(value, length))
      ensures Bits() == Splice(old(Bits()), writeIndex, MsbBits(value, length))
    {
      FillField(writeIndex, value, length);
      writeIndex' := writeIndex + length;
    }

    method WriteFieldReversed(writeIndex: nat, value: nat, length: nat) returns (writeIndex': nat)
      requires Valid() && (length != 0 ==> writeIndex + length <= Size())
      modifies mData
      ensures writeIndex' == writeIndex + length
      ensures mData[..] == Splice(old(mData[..]), mStart + writeIndex, LsbBits(value, length))
      ensures Bits() == Splice(old(Bits()), writeIndex, LsbBits(value, length))
    {
      FillFieldReversed(writeIndex, value, length);
      writeIndex' := writeIndex + length;
    }

    // ---------- octets ----------

    method Reverse8()
      requires Valid() && Size() >= 8
      modifies mData
      ensures mData[..] == OctetReversed(old(mData[..]), mStart)
    {
      hide Reverse;
      var s := mStart;
      ghost var a := mData[..];
      Swap(mData, s, s + 7);
      Swap(mData, s + 1, s + 6);
      Swap(mData, s + 2, s + 5);
      Swap(mData, s + 3, s + 4);
      EightReversed(a, s);
    }

    /** segment(i,8).reverse8() */
    method ReverseOctet(i: nat)
      requires Valid() && i + 8 <= Size()
      modifies mData
      ensures Bits() == OctetReversed(old(Bits()), i)
      ensures forall k :: 0 <= k < mData.Length && !(mStart <= k < mEnd) ==> mData[k] == old(mData[k])
    {
      hide Reverse, OctetReversed;
      var octet := new BitVector.Segment(this, i, 8);
      ghost var a := mData[..];
      octet.Reverse8();
      WindowOctet(a, mStart, mEnd, i);
    }

    method LSB8MSB()
      requires Valid()
      modifies mData
      ensures Bits() == ReverseOctets(old(Bits()))
      ensures forall k :: 0 <= k < mData.Length && !(mStart <= k < mEnd) ==> mData[k] == old(mData[k])
    {
      if mEnd - mStart < 8 { return; }
      hide ReverseOctets, OctetReversed;
      var groups := (mEnd - mStart) / 8;
      var size8 := 8 * groups;
      ghost var bits := Bits();
      var i := 0;
      ghost var n := 0;
      while i + 8 <= size8
        invariant i == 8 * n && n <= groups
        invariant Bits() == ReverseOctets(bits)[..i] + bits[i..]
        invariant forall k :: 0 <= k < mData.Length && !(mStart <= k < mEnd) ==> mData[k] == old(mData[k])
      {
        ReverseOctet(i);
        OctetStep(bits, n, i);
        i, n := i + 8, n + 1;
      }
      ReverseOctetsEnd(bits, n, i);
    }

    /** peekField(whole,rem) << (8-rem) */
    method PeekPartialOctet() returns (o: Octet)
      requires Valid() && Size() % 8 != 0
      ensures o == Packed(Bits())[Size() / 8]
    {
      hide MsbValue, Packed, ShiftLeft;
      var bytes := (mEnd - mStart) / 8;
      var whole := bytes * 8;
      var rem := (mEnd - mStart) - whole;
      var v := PeekField(whole, rem);
      PartialOctet(Bits(), bytes, rem);
      assert Bits()[whole..whole + rem] == Bits()[whole..];
      o := ShiftLeft(v, 8 - rem) as Octet;
    }

    /** targ[i] = peekField(8*i,8) */
    method PackOctet(targ: array<Octet>, i: nat)
      requires Valid() && 8 * i + 8 <= Size() && i < targ.Length
      modifies targ
      ensures targ[..] == old(targ[..])[i := Packed(Bits())[i]]
    {
      hide Packed, MsbValue;
      var v := PeekField(i * 8, 8);
      PackedAt(Bits(), i);
      targ[i] := v as Octet;
    }

    /** pack(): most significant bit first into an octet buffer. */
    method Pack(targ: array<Octet>)
      requires Valid() && (Size() + 7) / 8 <= targ.Length
      modifies targ
      ensures targ[..|Packed(Bits())|] == Packed(Bits())
      ensures targ[|Packed(Bits())|..] == old(targ[|Packed(Bits())|..])
    {
      var size, bytes := mEnd - mStart, (mEnd - mStart) / 8;
      ghost var want, was := Packed(Bits()), targ[..];
      WholeAndPartial(size, bytes, |want|);
      hide Packed;
      for i := 0 to bytes
        invariant targ[..] == want[..i] + was[i..]
      {
        OneMore(want, was, i);
        PackOctet(targ, i);
      }
      AllOfThem(want, was, bytes);
      if size % 8 == 0 { return; }
      var o := PeekPartialOctet();
      OneMore(want, was, bytes);
      AllOfThem(want, was, bytes + 1);
      targ[bytes] := o;
    }

    /** unpack(): the octets of a buffer over the bits of this vector. */
    method Unpack(src: array<Octet>)
      requires Valid() && (Size() + 7) / 8 <= src.Length
      modifies mData
      ensures Bits() == Unpacked(src[..], Size())
      ensures forall k :: 0 <= k < mData.Length && !(mStart <= k < mEnd) ==> mData[k] == old(mData[k])
    {
      hide AllBits;
      var bytes := (mEnd - mStart) / 8;
      ghost var o := src[..];
      ghost var all := AllBits(o);
      for i := 0 to bytes
        invariant forall k :: 0 <= k < mData.Length ==>
          mData[k] == if mStart <= k < mStart + 8 * i then all[k - mStart] else old(mData[k])
      {
        UnpackOctet(i, src[i] as nat, o);
      }
      var whole := bytes * 8;
      var rem := (mEnd - mStart) - whole;
      if rem > 0 { UnpackPartialOctet(bytes, rem, src[bytes] as nat, o); }
      WindowIs(mData[..], mStart, mEnd, all);
    }

    /** fillField(whole,src[bytes] >> (8-rem),rem) */
    method UnpackPartialOctet(bytes: nat, rem: nat, v: nat, ghost o: seq<Octet>)
      requires Valid() && Size() == 8 * bytes + rem && 0 < rem < 8 && bytes < |o| && v == o[bytes] as nat
      modifies mData
      ensures forall k :: 0 <= k < mData.Length ==>
        mData[k] == if mEnd - rem <= k < mEnd then AllBits(o)[k - mStart] else old(mData[k])
    {
      hide AllBits, MsbBits, ShiftRight, Splice;
      FillField(8 * bytes, ShiftRight(v, 8 - rem), rem);
      PartialBits(o, bytes, rem);
    }

    /** fillField(i*8,src[i],8) */
    method UnpackOctet(i: nat, v: nat, ghost o: seq<Octet>)
      requires Valid() && 8 * i + 8 <= Size() && i < |o| && v == o[i] as nat
      modifies mData
      ensures forall k :: 0 <= k < mData.Length ==>
        mData[k] == if mStart + 8 * i <= k < mStart + 8 * i + 8 then AllBits(o)[k - mStart] else old(mData[k])
    {
      hide AllBits, MsbBits, Splice;
      FillField(i * 8, v, 8);
      AllBitsAt(o, i);
      forall k | 8 * i <= k < 8 * i + 8 ensures AllBits(o)[k] == MsbBits(v, 8)[k - 8 * i] {
        assert AllBits(o)[k] == AllBits(o)[8 * i..8 * i + 8][k - 8 * i];
      }
    }
  }
}
