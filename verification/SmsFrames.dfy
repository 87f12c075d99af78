/** The element and message classes that write SMS frames and parse them, moving a position
    over a BitVector.  What they write and read is stated by the functions of SmsLayers. */
module SmsFrames {
  import opened Fields
  import opened BitVectors
  import opened CStrings
  import L = SmsLayers

  /** How a parser ends: normally, with a read error, or before an access outside of the frame
      or of the digit array, behind which nothing is defined. */
  datatype Status = Done | ReadError | OutOfFrame | Overrun

  /** A parser that has read v and stopped at rp, against the outcome the bits should give. */
  ghost predicate Agrees<T(!new)>(st: Status, v: T, bits: seq<bool>, rp: nat, expected: L.Outcome<T>) {
    match expected
    case Ok(w, rest) => st == Done && v == w && rp <= |bits| && rest == bits[rp..]
    case ReadError => st == ReadError
    case OutOfFrame => st == OutOfFrame
    case Overrun => st == Overrun
  }

  /** A frame that was before, with done written from start on; wp is just behind. */
  ghost predicate Written(dest: BitVector, before: seq<bool>, start: nat, done: seq<bool>, wp: nat)
    reads dest, dest.mData
  {
    dest.Valid() && wp == start + |done| <= |before| && dest.Bits() == Splice(before, start, done)
  }

  lemma SpliceThen(s: seq<bool>, i: nat, x: seq<bool>, y: seq<bool>)
    requires i + |x| + |y| <= |s|
    ensures Splice(Splice(s, i, x), i + |x|, y) == Splice(s, i, x + y)
  {
  }

  lemma SpliceNothing(s: seq<bool>, i: nat)
    ensures Splice(s, i, []) == s
  {
  }

  /** dest.writeField(wp,value,n) behind what has been written. */
  method WriteNext(dest: BitVector, wp: nat, value: nat, n: nat,
                   ghost before: seq<bool>, ghost start: nat, ghost done: seq<bool>)
    returns (wp': nat)
    requires Written(dest, before, start, done, wp) && wp + n <= |before|
    modifies dest.mData
    ensures Written(dest, before, start, done + MsbBits(value, n), wp')
  {
    hide Splice, MsbBits;
    wp' := dest.WriteField(wp, value, n);
    SpliceThen(before, start, done, MsbBits(value, n));
  }

  const DIGITS_SIZE: nat := L.MAX_DIGITS + 1

  lemma SpliceHas(s: seq<bool>, i: nat, x: seq<bool>)
    requires i + |x| <= |s|
    ensures Splice(s, i, x)[i..i + |x|] == x
  {
  }

  /** One octet of digits behind what has been written. */
  method WriteOctet(dest: BitVector, wp: nat, high: nat, low: nat,
                    ghost before: seq<bool>, ghost start: nat, ghost done: seq<bool>)
    returns (wp': nat)
    requires Written(dest, before, start, done, wp) && wp + 8 <= |before|
    modifies dest.mData
    ensures Written(dest, before, start, done + (MsbBits(high, 4) + MsbBits(low, 4)), wp')
  {
    hide Splice, MsbBits;
    wp' := WriteNext(dest, wp, high, 4, before, start, done);
    wp' := WriteNext(dest, wp', low, 4, before, start, done + MsbBits(high, 4));
    assert done + MsbBits(high, 4) + MsbBits(low, 4) == done + (MsbBits(high, 4) + MsbBits(low, 4));
  }

  lemma DigitsFrom(text: string, index: nat, next: nat, high: nat)
    requires index < |text|
    requires next == if index + 1 < |text| then index + 2 else |text|
    requires high == if index + 1 < |text| then L.EncodeDigit(text[index + 1]) else 15
    ensures L.BcdBits(text[index..])
         == MsbBits(high, 4) + MsbBits(L.EncodeDigit(text[index]), 4) + L.BcdBits(text[next..])
  {
    hide L.BcdBits, MsbBits, L.EncodeDigit;
    L.BcdFirst(text[index..]);
    assert text[index..][next - index..] == text[next..];
  }

  lemma DoneMore(all: seq<bool>, done: seq<bool>, octet: seq<bool>, todo: seq<bool>, rest: seq<bool>)
    requires all == done + todo && todo == octet + rest
    ensures all == (done + octet) + rest && |done| + |octet| <= |all|
  {
  }

  /** L3BCDDigits::write at wp */
  method WriteDigits(mDigits: array<char>, dest: BitVector, wp: nat) returns (wp': nat)
    requires Terminated(mDigits)
    requires dest.Valid() && wp + |L.BcdBits(L.StripPlus(CText(mDigits)))| <= dest.Size()
    modifies dest.mData
    ensures Written(dest, old(dest.Bits()), wp, L.BcdBits(L.StripPlus(CText(mDigits))), wp')
    ensures L.KeyedAs(dest.Bits()[wp..wp'], L.StripPlus(CText(mDigits)))
  {
    hide L.BcdBits, MsbBits, Splice, L.EncodeDigit, L.KeyedAs;
    var index, numDigits := 0, Terminator(mDigits[..]);
    if index < numDigits && mDigits[index] == '+' { index := 1; }
    ghost var text, done, before := CText(mDigits), [], dest.Bits();
    ghost var all := L.BcdBits(L.StripPlus(text));
    assert text[index..] == L.StripPlus(text);
    wp' := wp;
    SpliceNothing(before, wp);
    while index < numDigits
      invariant index <= numDigits
      invariant all == done + L.BcdBits(text[index..])
      invariant Written(dest, before, wp, done, wp')
    {
      var high := if index + 1 < numDigits then L.EncodeDigit(mDigits[index + 1]) else 0x0f;
      var low := L.EncodeDigit(mDigits[index]);
      ghost var next := if index + 1 < numDigits then index + 2 else numDigits;
      DigitsFrom(text, index, next, high);
      DoneMore(all, done, MsbBits(high, 4) + MsbBits(low, 4), L.BcdBits(text[index..]), L.BcdBits(text[next..]));
      wp' := WriteOctet(dest, wp', high, low, before, wp, done);
      done := done + (MsbBits(high, 4) + MsbBits(low, 4));
      index := if index + 2 <= numDigits then index + 2 else numDigits;
    }
    assert text[index..] == "";
    L.NoDigits();
    assert done == all by { assert done + [] == done; }
    SpliceHas(before, wp, all);
    L.BcdIsKeyed(L.StripPlus(text));
  }

  /** Reading a field at rp, in terms of the bits that are left there. */
  lemma FieldAt(bits: seq<bool>, rp: nat, n: nat)
    requires rp + n <= |bits| && n <= 8
    ensures bits[rp..rp + n] == bits[rp..][..n] && bits[rp + n..] == bits[rp..][n..]
    ensures MsbValue(bits[rp..rp + n]) % TWO64 == MsbValue(bits[rp..][..n])
  {
    hide MsbValue;
    assert bits[rp..rp + n] == bits[rp..][..n];
    MsbBitsOfValue(bits[rp..rp + n]);
    Pow2Grows(n, 8 - n);
    Pow2Eight();
  }

  lemma {:induction false} Pow2Grows(n: nat, k: nat)
    ensures Pow2(n) <= Pow2(n + k)
  {
    if k > 0 { Pow2Grows(n, k - 1); }
  }

  method ReadNext(src: BitVector, rp: nat, n: nat) returns (v: nat, rp': nat)
    requires src.Valid() && rp + n <= src.Size() && n <= 8
    ensures v == MsbValue(src.Bits()[rp..][..n]) && rp' == rp + n
    ensures src.Bits()[rp'..] == src.Bits()[rp..][n..]
  {
    hide MsbValue;
    v, rp' := src.ReadField(rp, n);
    FieldAt(src.Bits(), rp, n);
  }

  lemma DecodedIsNoNul(d: nat)
    requires d < 16
    ensures L.DecodeDigit(d) != NUL
  {
  }

  /** The digits in front of i, with none of them the terminator. */
  ghost predicate Holds(mDigits: array<char>, i: nat, digits: string)
    reads mDigits
  {
    i == |digits| <= mDigits.Length && digits == mDigits[..i] && forall k :: 0 <= k < i ==> digits[k] != NUL
  }

  lemma HoldsCount(mDigits: array<char>, i: nat, digits: string)
    requires Holds(mDigits, i, digits)
    ensures i == |digits|
  {
  }

  /** The terminator behind them makes them the text. */
  lemma HoldsText(mDigits: array<char>, i: nat, digits: string)
    requires Holds(mDigits, i, digits) && i < mDigits.Length && mDigits[i] == NUL
    ensures Terminated(mDigits) && CText(mDigits) == digits
  {
    TerminatorIs(mDigits[..], i);
  }

  method Store(mDigits: array<char>, i: nat, d: nat, ghost digits: string) returns (i': nat)
    requires Holds(mDigits, i, digits) && i < mDigits.Length && d < 16
    modifies mDigits
    ensures Holds(mDigits, i', digits + [L.DecodeDigit(d)])
  {
    DecodedIsNoNul(d);
    hide L.DecodeDigit;
    mDigits[i] := L.DecodeDigit(d);
    i' := i + 1;
    assert mDigits[..i] == digits;
  }

  /** One octet of digits; Overrun stands in place of a store behind the array. */
  method StoreOctet(mDigits: array<char>, i: nat, d2: nat, d1: nat, ghost digits: string) returns (st: Status, i': nat)
    requires Holds(mDigits, i, digits) && i < mDigits.Length && d1 < 16 && d2 < 16
    modifies mDigits
    ensures |L.Stored(digits, d2, d1)| > mDigits.Length ==> st == Overrun
    ensures |L.Stored(digits, d2, d1)| <= mDigits.Length ==> st == Done && Holds(mDigits, i', L.Stored(digits, d2, d1))
  {
    hide L.DecodeDigit, Holds;
    HoldsCount(mDigits, i, digits);
    i' := Store(mDigits, i, d1, digits);
    if d2 != 0x0f {
      HoldsCount(mDigits, i', digits + [L.DecodeDigit(d1)]);
      if i' == mDigits.Length { return Overrun, i'; }
      i' := Store(mDigits, i', d2, digits + [L.DecodeDigit(d1)]);
    }
    st := Done;
  }

  /** The two nibbles of an octet. */
  method ReadOctet(src: BitVector, rp: nat) returns (d2: nat, d1: nat, rp': nat)
    requires src.Valid() && rp + 8 <= src.Size()
    ensures rp' == rp + 8
    ensures var left := src.Bits()[rp..];
      d2 == MsbValue(left[..4]) < 16 && d1 == MsbValue(left[4..8]) < 16 && src.Bits()[rp'..] == left[8..]
  {
    hide MsbValue;
    ghost var left := src.Bits()[rp..];
    d2, rp' := ReadNext(src, rp, 4);
    d1, rp' := ReadNext(src, rp', 4);
    assert left[4..][..4] == left[4..8] && left[4..][4..] == left[8..];
    L.NibbleBound(left[..4]);
    L.NibbleBound(left[4..8]);
  }

  /** L3BCDDigits::parse at rp.  Every store is inside of the array unless the outcome is Overrun. */
  method ParseDigits(mDigits: array<char>, src: BitVector, rp: nat, numOctets: nat, international: bool)
    returns (st: Status, rp': nat)
    requires mDigits.Length == DIGITS_SIZE && src.Valid() && rp <= src.Size()
    modifies mDigits
    ensures st == Done ==> Terminated(mDigits)
    ensures Agrees(st, CText(mDigits), src.Bits(), rp',
                   L.ParseBcd(src.Bits()[rp..], numOctets, if international then "+" else ""))
    ensures st == Done ==>
      var text, plus, bits := CText(mDigits), if international then 1 else 0, src.Bits()[rp..];
      && 8 * numOctets <= |bits| && plus <= |text| && (international ==> text[0] == '+')
      && L.KeysOf(text[plus..], L.ReadNibbles(bits, numOctets))
  {
    hide MsbValue, L.DecodeDigit, L.ParseBcd, L.Stored, L.KeysOf, L.ReadNibbles;
    var i: nat, readOctets: nat := 0, 0;
    ghost var digits := if international then "+" else "";
    ghost var expected := L.ParseBcd(src.Bits()[rp..], numOctets, digits);
    rp' := rp;
    if international { mDigits[i] := '+'; i := i + 1; }
    while readOctets < numOctets
      invariant readOctets <= numOctets && rp' <= src.Size() && i <= L.MAX_DIGITS && Holds(mDigits, i, digits)
      invariant expected == L.ParseBcd(src.Bits()[rp'..], numOctets - readOctets, digits)
    {
      hide Holds;
      L.ParseBcdUnfold(src.Bits()[rp'..], numOctets - readOctets, digits);
      if rp' + 8 > src.mEnd - src.mStart { return OutOfFrame, rp'; }
      var d2, d1;
      d2, d1, rp' := ReadOctet(src, rp');
      readOctets := readOctets + 1;
      st, i := StoreOctet(mDigits, i, d2, d1, digits);
      if st != Done { return; }
      digits := L.Stored(digits, d2, d1);
      HoldsCount(mDigits, i, digits);
      if i > L.MAX_DIGITS { return ReadError, rp'; }
    }
    L.ParseBcdDone(src.Bits()[rp'..], digits);
    mDigits[i] := NUL;
    HoldsText(mDigits, i, digits);
    L.ParsedKeys(src.Bits()[rp..], numOctets, if international then "+" else "");
    st := Done;
  }

  lemma HeaderSlices(bits: seq<bool>)
    requires |bits| >= 8
    ensures bits[1..][..3] == bits[1..4] && bits[1..][3..] == bits[4..]
    ensures bits[4..][..4] == bits[4..8] && bits[4..][4..] == bits[8..]
  {
  }

  /** L3CalledPartyBCDNumber */
  class CalledPartyBCDNumber {
    var mType: nat
    var mPlan: nat
    const mDigits: array<char>

    /** Only the first character is set. */
    constructor ()
      ensures Valid() && fresh(mDigits) && Value() == L.NO_ADDRESS
    {
      mType, mPlan, mDigits := 0, 0, new char[DIGITS_SIZE];
      new;
      mDigits[0] := NUL;
      TerminatorIs(mDigits[..], 0);
    }

    predicate Valid()
      reads mDigits
    {
      mDigits.Length == DIGITS_SIZE && Terminated(mDigits)
    }

    function Value(): L.Address
      reads this, mDigits
    {
      L.Address(mType, mPlan, CText(mDigits))
    }

    method WriteV(dest: BitVector, wp: nat) returns (wp': nat)
      requires Valid() && dest.Valid() && wp + |L.AddressV(Value())| <= dest.Size()
      modifies dest.mData
      ensures Written(dest, old(dest.Bits()), wp, L.AddressV(Value()), wp')
    {
      hide MsbBits, Splice, L.BcdBits, L.StripPlus;
      ghost var before, head, digits := dest.Bits(), MsbBits(0x01, 1) + MsbBits(mType, 3) + MsbBits(mPlan, 4),
                                        L.BcdBits(L.StripPlus(CText(mDigits)));
      SpliceNothing(before, wp);
      wp' := WriteNext(dest, wp, 0x01, 1, before, wp, []);
      wp' := WriteNext(dest, wp', mType, 3, before, wp, [] + MsbBits(0x01, 1));
      wp' := WriteNext(dest, wp', mPlan, 4, before, wp, [] + MsbBits(0x01, 1) + MsbBits(mType, 3));
      assert [] + MsbBits(0x01, 1) + MsbBits(mType, 3) + MsbBits(mPlan, 4) == head;
      wp' := WriteDigits(mDigits, dest, wp');
      SpliceThen(before, wp, head, digits);
    }

    method WriteLV(dest: BitVector, wp: nat) returns (wp': nat)
      requires Valid() && dest.Valid() && wp + |L.AddressLV(Value())| <= dest.Size()
      modifies dest.mData
      ensures Written(dest, old(dest.Bits()), wp, L.AddressLV(Value()), wp')
    {
      hide MsbBits, Splice, L.AddressV, L.AddressLengthV;
      ghost var before := dest.Bits();
      var len := L.AddressLengthV(Value());
      SpliceNothing(before, wp);
      wp' := WriteNext(dest, wp, len, 8, before, wp, []);
      assert [] + MsbBits(len, 8) == MsbBits(len, 8) == MsbBits(len, 8) + [];
      if len != 0 {
        wp' := WriteV(dest, wp');
        SpliceThen(before, wp, MsbBits(len, 8), L.AddressV(Value()));
      }
    }

    method ParseV(src: BitVector, rp: nat, expectedLength: nat) returns (st: Status, rp': nat)
      requires mDigits.Length == DIGITS_SIZE && src.Valid() && rp <= src.Size() && expectedLength > 0
      modifies this, mDigits
      ensures st == Done ==> Valid()
      ensures Agrees(st, Value(), src.Bits(), rp', L.ParseAddressV(src.Bits()[rp..], expectedLength))
    {
      hide MsbValue, L.ParseBcd, L.ParseAddressV;
      ghost var bits := src.Bits()[rp..];
      L.ParseAddressCases(bits, expectedLength);
      if rp + 1 > src.mEnd - src.mStart { return OutOfFrame, rp; }
      var ext: nat;
      ext, rp' := ReadNext(src, rp, 1);
      if ext != 1 { return ReadError, rp'; }
      if rp + 8 > src.mEnd - src.mStart { return OutOfFrame, rp'; }
      mType, rp' := ReadNext(src, rp', 3);
      HeaderSlices(bits);
      mPlan, rp' := ReadNext(src, rp', 4);
      st, rp' := ParseDigits(mDigits, src, rp', expectedLength - 1, mType == L.INTERNATIONAL);
    }

    method ParseLV(src: BitVector, rp: nat) returns (st: Status, rp': nat)
      requires Valid() && src.Valid() && rp <= src.Size()
      modifies this, mDigits
      ensures st == Done ==> Valid()
      ensures Agrees(st, Value(), src.Bits(), rp', L.ParseAddressLV(src.Bits()[rp..], old(Value())))
    {
      hide MsbValue, L.ParseAddressV;
      if rp + 8 > src.mEnd - src.mStart { return OutOfFrame, rp; }
      var expectedLength: nat;
      expectedLength, rp' := ReadNext(src, rp, 8);
      if expectedLength == 0 { return Done, rp'; }
      var rpEnd := rp' + 8 * expectedLength;
      L.ParseAddressVTakes(src.Bits()[rp'..], expectedLength);
      st, rp' := ParseV(src, rp', expectedLength);
      if st == Done && rpEnd != rp' { return ReadError, rp'; }
    }
  }

  /** RPUserData: whole bits of a frame as the value of an LV element. */
  class RPUserData {
    const mFrame: BitVector

    constructor ()
      ensures fresh(mFrame) && fresh(mFrame.mData) && Valid() && Data() == []
    {
      mFrame := new BitVector(0);
    }

    ghost predicate Valid()
      reads this, mFrame
    {
      mFrame.Valid()
    }

    ghost function Data(): seq<bool>
      requires Valid()
      reads this, mFrame, mFrame.mData
    {
      mFrame.Bits()
    }

    method LengthV() returns (len: nat)
      requires Valid()
      ensures len == L.OctetsFor(|Data()|)
    {
      var size := mFrame.mEnd - mFrame.mStart;
      len := size / 8;
      if size % 8 != 0 { len := len + 1; }
    }

    method WriteLV(dest: BitVector, wp: nat) returns (wp': nat)
      requires Valid() && dest.Valid() && dest.mData != mFrame.mData && wp + |L.DataLV(Data())| <= dest.Size()
      modifies dest.mData
      ensures Written(dest, old(dest.Bits()), wp, L.DataLV(Data()), wp')
    {
      hide MsbBits, Splice;
      ghost var before := dest.Bits();
      var len := LengthV();
      SpliceNothing(before, wp);
      wp' := WriteNext(dest, wp, len, 8, before, wp, []);
      assert [] + MsbBits(len, 8) == MsbBits(len, 8) == MsbBits(len, 8) + [];
      if len != 0 {
        var numBits := mFrame.mEnd - mFrame.mStart;
        mFrame.CopyToSegment(dest, wp', numBits);
        assert Data()[..numBits] == Data();
        SpliceThen(before, wp, MsbBits(len, 8), Data());
        wp' := wp' + numBits;
      } else {
        assert Data() == [];
      }
    }

    method ParseV(src: BitVector, rp: nat, expectedLength: nat) returns (st: Status, rp': nat)
      requires Valid() && src.Valid() && src != mFrame && rp <= src.Size()
      modifies mFrame
      ensures Valid() && (mFrame.mData == old(mFrame.mData) || fresh(mFrame.mData))
      ensures var n := 8 * expectedLength;
        if rp + n <= src.Size() then st == Done && rp' == rp + n && Data() == src.Bits()[rp..rp + n] else st == ReadError
    {
      var numBits := expectedLength * 8;
      if rp + numBits > src.mEnd - src.mStart { return ReadError, rp; }
      mFrame.Resize(numBits);
      CopyOut(src, rp, mFrame, numBits);
      return Done, rp + numBits;
    }

    method ParseLV(src: BitVector, rp: nat) returns (st: Status, rp': nat)
      requires Valid() && src.Valid() && src != mFrame && rp <= src.Size()
      modifies mFrame
      ensures Valid() && (mFrame.mData == old(mFrame.mData) || fresh(mFrame.mData))
      ensures Agrees(st, Data(), src.Bits(), rp', L.ParseDataLV(src.Bits()[rp..], old(Data())))
    {
      hide MsbValue, L.ParseDataLV;
      L.ParseDataCases(src.Bits()[rp..], Data());
      if rp + 8 > src.mEnd - src.mStart { return OutOfFrame, rp; }
      var expectedLength: nat;
      expectedLength, rp' := ReadNext(src, rp, 8);
      if expectedLength == 0 { return Done, rp'; }
      var rpEnd := rp' + 8 * expectedLength;
      if rpEnd <= src.mEnd - src.mStart { TakenAt(src.Bits(), rp, 8 * expectedLength); }
      st, rp' := ParseV(src, rp', expectedLength);
      if st == Done && rpEnd != rp' { return ReadError, rp'; }
    }
  }

  lemma TakenAt(all: seq<bool>, rp: nat, n: nat)
    requires rp + 8 + n <= |all|
    ensures all[rp..][8..8 + n] == all[rp + 8..rp + 8 + n] && all[rp..][8 + n..] == all[rp + 8 + n..]
  {
  }

  /** src.segmentCopyTo(frame,rp,numBits), for a frame of that size */
  method CopyOut(src: BitVector, rp: nat, frame: BitVector, numBits: nat)
    requires src.Valid() && frame.Valid() && src.mData != frame.mData
    requires rp + numBits <= src.Size() && frame.Size() == numBits
    modifies frame.mData
    ensures frame.Bits() == src.Bits()[rp..rp + numBits]
  {
    hide Splice;
    SpliceWhole(frame.Bits(), src.Bits()[rp..rp + numBits]);
    src.SegmentCopyTo(frame, rp, numBits);
  }

  lemma SpliceWhole(s: seq<bool>, x: seq<bool>)
    requires |x| == |s|
    ensures Splice(s, 0, x) == x
  {
  }

  /** CPUserData: its length leaves a partial octet out. */
  class CPUserData {
    const mFrame: BitVector

    constructor ()
      ensures fresh(mFrame) && fresh(mFrame.mData) && Valid() && Data() == []
    {
      mFrame := new BitVector(0);
    }

    ghost predicate Valid()
      reads this, mFrame
    {
      mFrame.Valid()
    }

    ghost function Data(): seq<bool>
      requires Valid()
      reads this, mFrame, mFrame.mData
    {
      mFrame.Bits()
    }

    /** ok is false when the assertion of copyToSegment fails. */
    method WriteLV(dest: BitVector, wp: nat) returns (ok: bool, wp': nat)
      requires Valid() && dest.Valid() && dest.mData != mFrame.mData && wp + 8 <= dest.Size()
      modifies dest.mData
      ensures ok <==> wp + |L.CPDataLV(Data())| <= dest.Size()
      ensures ok ==> Written(dest, old(dest.Bits()), wp, L.CPDataLV(Data()), wp')
    {
      hide MsbBits, Splice;
      ghost var before := dest.Bits();
      var numBits := mFrame.mEnd - mFrame.mStart;
      var len := L.CPLengthV(numBits);
      SpliceNothing(before, wp);
      wp' := WriteNext(dest, wp, len, 8, before, wp, []);
      assert [] + MsbBits(len, 8) == MsbBits(len, 8) == MsbBits(len, 8) + [];
      ok := len == 0 || wp' + numBits <= dest.mEnd - dest.mStart;
      if ok && len != 0 {
        mFrame.CopyToSegment(dest, wp', numBits);
        assert Data()[..numBits] == Data();
        SpliceThen(before, wp, MsbBits(len, 8), Data());
        wp' := wp' + numBits;
      }
    }

    /** The frame is given its new size before the length is checked. */
    method ParseV(src: BitVector, rp: nat, expectedLength: nat) returns (st: Status, rp': nat)
      requires Valid() && src.Valid() && src != mFrame && rp <= src.Size()
      modifies mFrame
      ensures Valid() && (mFrame.mData == old(mFrame.mData) || fresh(mFrame.mData))
      ensures var n := 8 * expectedLength;
        if rp + n <= src.Size() then st == Done && rp' == rp + n && Data() == src.Bits()[rp..rp + n] else st == ReadError
    {
      var numBits := expectedLength * 8;
      mFrame.Resize(numBits);
      if src.mEnd - src.mStart - rp < numBits { return ReadError, rp; }
      CopyOut(src, rp, mFrame, numBits);
      return Done, rp + numBits;
    }

    method ParseLV(src: BitVector, rp: nat) returns (st: Status, rp': nat)
      requires Valid() && src.Valid() && src != mFrame && rp <= src.Size()
      modifies mFrame
      ensures Valid() && (mFrame.mData == old(mFrame.mData) || fresh(mFrame.mData))
      ensures Agrees(st, Data(), src.Bits(), rp', L.ParseDataLV(src.Bits()[rp..], old(Data())))
    {
      hide MsbValue, L.ParseDataLV;
      L.ParseDataCases(src.Bits()[rp..], Data());
      if rp + 8 > src.mEnd - src.mStart { return OutOfFrame, rp; }
      var expectedLength: nat;
      expectedLength, rp' := ReadNext(src, rp, 8);
      if expectedLength == 0 { return Done, rp'; }
      var rpEnd := rp' + 8 * expectedLength;
      if rpEnd <= src.mEnd - src.mStart { TakenAt(src.Bits(), rp, 8 * expectedLength); }
      st, rp' := ParseV(src, rp', expectedLength);
      if st == Done && rpEnd != rp' { return ReadError, rp'; }
    }
  }

  /** RPData with the write and parse it inherits from RPMessage. */
  class RPDataMessage {
    var mReference: nat
    const mOriginator: CalledPartyBCDNumber
    const mDestination: CalledPartyBCDNumber
    const mUserData: RPUserData

    constructor ()
      ensures Valid() && fresh(mOriginator) && fresh(mDestination)
      ensures fresh(mOriginator.mDigits) && fresh(mDestination.mDigits)
      ensures fresh(mUserData) && fresh(mUserData.mFrame) && fresh(mUserData.mFrame.mData)
      ensures Value() == L.RPData(0, L.NO_ADDRESS, L.NO_ADDRESS, [])
    {
      mReference := 0;
      mOriginator := new CalledPartyBCDNumber();
      mDestination := new CalledPartyBCDNumber();
      mUserData := new RPUserData();
    }

    ghost predicate Valid()
      reads this, mOriginator.mDigits, mDestination.mDigits, mUserData, mUserData.mFrame
    {
      && mOriginator != mDestination && mOriginator.mDigits != mDestination.mDigits
      && mOriginator.Valid() && mDestination.Valid() && mUserData.Valid()
    }

    ghost function Value(): L.RPData
      requires Valid()
      reads this, mOriginator, mDestination, mOriginator.mDigits, mDestination.mDigits
      reads mUserData, mUserData.mFrame, mUserData.mFrame.mData
    {
      L.RPData(mReference, mOriginator.Value(), mDestination.Value(), mUserData.Data())
    }

    method BitsNeeded() returns (n: nat)
      requires Valid()
      ensures n == L.RPBitsNeeded(Value())
    {
      var len := mUserData.LengthV();
      var l2BodyLength := (L.AddressLengthV(mOriginator.Value()) + 1) + (L.AddressLengthV(mDestination.Value()) + 1)
                          + (len + 1);
      n := (l2BodyLength + 2) * 8;
    }

    method WriteHeader(dest: BitVector, ghost before: seq<bool>) returns (wp: nat)
      requires dest.Valid() && Valid() && before == dest.Bits() && 16 <= |before|
      modifies dest.mData
      ensures Written(dest, before, 0, L.RPHeader(L.RPData(mReference, L.NO_ADDRESS, L.NO_ADDRESS, [])), wp)
    {
      hide MsbBits, Splice;
      SpliceNothing(before, 0);
      wp := WriteNext(dest, 0, 0, 5, before, 0, []);
      wp := WriteNext(dest, wp, L.RP_DATA_MTI + 1, 3, before, 0, [] + MsbBits(0, 5));
      wp := WriteNext(dest, wp, mReference, 8, before, 0, [] + MsbBits(0, 5) + MsbBits(L.RP_DATA_MTI + 1, 3));
      assert [] + MsbBits(0, 5) == MsbBits(0, 5);
    }

    method WriteBody(dest: BitVector, wp: nat) returns (wp': nat)
      requires dest.Valid() && Valid() && dest.mData != mUserData.mFrame.mData
      requires wp + |L.RPBody(Value())| <= dest.Size()
      modifies dest.mData
      ensures Written(dest, old(dest.Bits()), wp, L.RPBody(Value()), wp')
    {
      hide Splice, L.AddressLV, L.DataLV;
      ghost var before := dest.Bits();
      ghost var o, d, u := L.AddressLV(mOriginator.Value()), L.AddressLV(mDestination.Value()), L.DataLV(mUserData.Data());
      wp' := mOriginator.WriteLV(dest, wp);
      wp' := mDestination.WriteLV(dest, wp');
      SpliceThen(before, wp, o, d);
      wp' := mUserData.WriteLV(dest, wp');
      SpliceThen(before, wp, o + d, u);
    }

    /** RPMessage::write: the frame has the size of bitsNeeded() and starts with the message. */
    method Write(dest: BitVector)
      requires Valid() && dest.Valid() && dest != mUserData.mFrame
      modifies dest
      ensures Valid() && dest.Valid() && fresh(dest.mData)
      ensures dest.Size() == L.RPBitsNeeded(Value()) && L.WriteRP(Value()) <= dest.Bits()
    {
      hide Splice, L.RPHeader, L.RPBody, L.RPBitsNeeded, MsbBits;
      ghost var v := Value();
      L.LengthsAgree(v);
      var n := BitsNeeded();
      dest.Resize(n);
      ghost var before := dest.Bits();
      var wp := WriteHeader(dest, before);
      L.HeaderIsReference(v);
      wp := WriteBody(dest, wp);
      SpliceThen(before, 0, L.RPHeader(v), L.RPBody(v));
      SpliceFront(before, L.WriteRP(v));
    }

    /** RPMessage::parse of a frame into an object as its constructor left it. */
    method Parse(frame: BitVector) returns (st: Status)
      requires Valid() && frame.Valid() && frame != mUserData.mFrame
      requires mOriginator.Value() == mDestination.Value() == L.NO_ADDRESS && mUserData.Data() == []
      modifies this, mOriginator, mDestination, mOriginator.mDigits, mDestination.mDigits, mUserData.mFrame
      ensures match L.ParseRP(old(frame.Bits()))
              case Ok(m, _) => st == Done && Valid() && Value() == m
              case ReadError => st == ReadError
              case OutOfFrame => st == OutOfFrame
              case Overrun => st == Overrun
    {
      hide MsbValue, L.ParseAddressLV, L.ParseDataLV;
      ghost var bits := frame.Bits();
      if frame.mEnd - frame.mStart < 16 { return OutOfFrame; }
      var rp := 8;
      mReference, rp := ReadNext(frame, rp, 8);
      assert bits[8..][..8] == bits[8..16];
      st, rp := mOriginator.ParseLV(frame, rp);
      if st != Done { return; }
      st, rp := mDestination.ParseLV(frame, rp);
      if st != Done { return; }
      st, rp := mUserData.ParseLV(frame, rp);
    }
  }

  lemma SpliceFront(s: seq<bool>, x: seq<bool>)
    requires |x| <= |s|
    ensures x <= Splice(s, 0, x)
  {
    assert x == [] || Splice(s, 0, x) == x + s[|x|..];
  }

  /** CPData with the write of CPMessage. */
  class CPDataMessage {
    var mTI: nat
    const mData: CPUserData

    constructor (wTI: nat)
      ensures Valid() && fresh(mData) && fresh(mData.mFrame) && fresh(mData.mFrame.mData)
      ensures mTI == wTI && mData.Data() == []
    {
      mTI := wTI;
      mData := new CPUserData();
    }

    ghost predicate Valid()
      reads this, mData, mData.mFrame
    {
      mData.Valid()
    }

    /** CPMessage::write: ok is false when it ends in a failing assertion. */
    method Write(dest: BitVector) returns (ok: bool)
      requires Valid() && dest.Valid() && dest != mData.mFrame
      modifies dest
      ensures Valid() && ok == L.CPWrites(mData.Data())
      ensures ok ==> dest.Valid() && fresh(dest.mData) && dest.Bits() == L.WriteCP(mTI, mData.Data())
    {
      hide Splice, L.CPDataLV, MsbBits, L.CPLengthV, L.CPWrites;
      ghost var rpdu := mData.Data();
      L.CPFallsShort(mTI, rpdu);
      var len := L.CPLengthV(mData.mFrame.mEnd - mData.mFrame.mStart);
      dest.Resize((len + 1 + 2) * 8);
      ghost var before := dest.Bits();
      SpliceNothing(before, 0);
      var wp := WriteNext(dest, 0, mTI, 4, before, 0, []);
      wp := WriteNext(dest, wp, L.PD_SMS, 4, before, 0, [] + MsbBits(mTI, 4));
      wp := WriteNext(dest, wp, L.CP_DATA, 8, before, 0, [] + MsbBits(mTI, 4) + MsbBits(L.PD_SMS, 4));
      assert [] + MsbBits(mTI, 4) == MsbBits(mTI, 4);
      ok, wp := mData.WriteLV(dest, wp);
      if ok {
        SpliceThen(before, 0, L.CPHeader(mTI), L.CPDataLV(rpdu));
        SpliceWhole(before, L.WriteCP(mTI, rpdu));
      }
    }
  }

  /** What parseSMS makes of a frame: the message object of CP-DATA, the TI of a CP-ACK, NULL, or
      one of its other ends. */
  datatype SMSMessage =
    | Data(message: CPDataMessage) | Ack(ti: nat) | Unsupported | Aborted | ReadFailed | Undefined

  method ParseSMS(frame: BitVector) returns (r: SMSMessage)
    requires frame.Valid()
    ensures match L.ParseCP(frame.Bits())
            case Parsed(Ok(CPData(ti, rpdu), _)) =>
              r.Data? && fresh(r.message) && r.message.Valid() && r.message.mTI == ti && r.message.mData.Data() == rpdu
            case Parsed(Ok(CPAck(ti), _)) => r == Ack(ti)
            case Parsed(ReadError) => r == ReadFailed
            case Parsed(OutOfFrame) => r == Undefined
            case Parsed(Overrun) => false
            case Unsupported => r == Unsupported
            case Aborted => r == Aborted
  {
    hide MsbValue, L.ParseDataLV;
    if frame.mEnd - frame.mStart < 16 { return Undefined; }
    ghost var bits := frame.Bits();
    L.CPUndefined(bits);
    assert bits[0..] == bits && bits[8..][..8] == bits[8..16] && bits[8..][8..] == bits[16..];
    var ti, rp := ReadNext(frame, 0, 4);
    var mti;
    mti, rp := ReadNext(frame, 8, 8);
    if mti == L.CP_DATA {
      var message := new CPDataMessage(ti);
      var st;
      st, rp := message.mData.ParseLV(frame, rp);
      return if st == Done then Data(message) else if st == ReadError then ReadFailed else Undefined;
    }
    return if mti == L.CP_ACK then Ack(ti) else if mti == L.CP_ERROR then Aborted else Unsupported;
  }
}
