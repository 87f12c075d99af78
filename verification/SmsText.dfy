/** TP-User-Data: packing text in the GSM 7-bit alphabet and reading it back. */
module SmsText {
  import opened Fields
  import opened BitVectors

  /** gGSMAlphabet, indexed by GSM 7-bit code, ISO-8859-1, in rows of sixteen. */
  const ROWS: seq<seq<Octet>> := [
    [64, 163, 36, 165, 232, 233, 249, 236, 242, 231, 10, 216, 248, 13, 197, 229],
    [68, 95, 70, 71, 76, 79, 80, 67, 83, 84, 90, 32, 198, 230, 223, 201],
    [32, 33, 34, 35, 164, 37, 38, 39, 40, 41, 42, 43, 44, 45, 46, 47],
    [48, 49, 50, 51, 52, 53, 54, 55, 56, 57, 58, 59, 60, 61, 62, 63],
    [161, 65, 66, 67, 68, 69, 70, 71, 72, 73, 74, 75, 76, 77, 78, 79],
    [80, 81, 82, 83, 84, 85, 86, 87, 88, 89, 90, 196, 214, 209, 220, 167],
    [191, 97, 98, 99, 100, 101, 102, 103, 104, 105, 106, 107, 108, 109, 110, 111],
    [112, 113, 114, 115, 116, 117, 118, 119, 120, 121, 122, 228, 246, 241, 252, 225]]

  /** The whole table, with the zero that ends the C string. */
  const GSM_ALPHABET: seq<Octet> :=
    ROWS[0] + ROWS[1] + ROWS[2] + ROWS[3] + ROWS[4] + ROWS[5] + ROWS[6] + ROWS[7] + [0]

  /** What the coding needs of an alphabet: 128 characters, '@' first, then the ending zero. */
  ghost predicate IsAlphabet(a: seq<Octet>) {
    && |a| == 129 && a[0] == AT
    && forall i {:trigger a[i]} :: 0 <= i < 129 ==> (a[i] == 0 <==> i == 128)
  }

  const AT: Octet := 64
  const QUESTION: Octet := 63

  lemma GsmAlphabetIsAlphabet()
    ensures IsAlphabet(GSM_ALPHABET)
  {
    forall r | 0 <= r < 8 ensures |ROWS[r]| == 16 { RowHasNoZero(r, 0); }
    forall i | 0 <= i < 128 ensures GSM_ALPHABET[i] == ROWS[i / 16][i % 16] != 0 {
      RowsAt(ROWS, i);
      RowHasNoZero(i / 16, i % 16);
    }
  }

  lemma RowsAt(rows: seq<seq<Octet>>, i: nat)
    requires |rows| == 8 && (forall r :: 0 <= r < 8 ==> |rows[r]| == 16) && i < 128
    ensures (rows[0] + rows[1] + rows[2] + rows[3] + rows[4] + rows[5] + rows[6] + rows[7] + [0])[i]
         == rows[i / 16][i % 16]
  {
  }

  lemma RowHasNoZero(r: nat, i: nat)
    requires r < 8 && i < 16
    ensures |ROWS[r]| == 16 && ROWS[r][i] != 0
  {
  }

  // ---------- the character tables ----------

  /** The table after the loop of encodeGSMChar has seen the first n characters of a. */
  function ReverseTable(a: seq<Octet>, n: nat): (t: seq<Octet>)
    requires n <= |a| <= 256
    ensures |t| == 256
  {
    if n == 0 then [QUESTION] + seq(255, _ => 0)
    else ReverseTable(a, n - 1)[a[n - 1] as int := (n - 1) as Octet]
  }

  /** The entry of a character of the alphabet is the last index at which it stands. */
  lemma {:induction false} ReverseTableIsLastIndex(a: seq<Octet>, n: nat, i: nat)
    requires i < n <= |a| <= 256
    ensures var j := ReverseTable(a, n)[a[i] as int] as int;
      i <= j < n && a[j] == a[i] && forall k :: j < k < n ==> a[k] != a[i]
  {
    if a[n - 1] != a[i] { ReverseTableIsLastIndex(a, n - 1, i); }
  }

  lemma {:induction false} ReverseTableElsewhere(a: seq<Octet>, n: nat, c: Octet)
    requires n <= |a| <= 256 && c !in a[..n]
    ensures ReverseTable(a, n)[c as int] == if c == 0 then QUESTION else 0
  {
    if n > 0 {
      assert a[n - 1] in a[..n];
      assert a[..n - 1] == a[..n][..n - 1];
      ReverseTableElsewhere(a, n - 1, c);
    }
  }

  method BuildReverseTable(a: seq<Octet>) returns (reverseTable: array<Octet>)
    requires |a| <= 256
    ensures fresh(reverseTable) && reverseTable[..] == ReverseTable(a, |a|)
  {
    reverseTable := new Octet[256](i => if i == 0 then QUESTION else 0);
    assert reverseTable[..] == ReverseTable(a, 0);
    for i := 0 to |a|
      invariant reverseTable.Length == 256 && reverseTable[..] == ReverseTable(a, i)
    {
      reverseTable[a[i] as int] := i as Octet;
    }
  }

  /** encodeGSMChar for an alphabet a */
  function EncodeGSMChar(a: seq<Octet>, c: Octet): Octet
    requires |a| <= 256
  {
    ReverseTable(a, |a|)[c as int]
  }

  function DecodeGSMChar(a: seq<Octet>, sms: Octet): Octet
    requires sms as int < |a|
  {
    a[sms as int]
  }

  predicate Representable(a: seq<Octet>, c: Octet) { c != 0 && c in a }

  /** Any character of a C string gets a 7-bit code; it decodes to itself when it is in
      the alphabet and to '@' when it is not. */
  lemma CharRoundTrip(a: seq<Octet>, c: Octet)
    requires IsAlphabet(a) && c != 0
    ensures EncodeGSMChar(a, c) < 128
    ensures DecodeGSMChar(a, EncodeGSMChar(a, c)) == if Representable(a, c) then c else AT
  {
    if c in a {
      var i :| 0 <= i < |a| && a[i] == c;
      ReverseTableIsLastIndex(a, |a|, i);
    } else {
      assert a[..|a|] == a;
      ReverseTableElsewhere(a, |a|, c);
    }
  }

  /** The code of a character is a place at which it stands in the alphabet, or 0; a code is read as
      the character that stands there. */
  lemma CodeIsPlace(a: seq<Octet>, c: Octet, sms: Octet)
    requires IsAlphabet(a) && c != 0 && sms < 128
    ensures var code := EncodeGSMChar(a, c) as int;
      code < 128 && (c in a ==> a[code] == c) && (c !in a ==> code == 0)
    ensures DecodeGSMChar(a, sms) == a[sms as int]
  {
    CharRoundTrip(a, c);
    if c in a {
      var i :| 0 <= i < |a| && a[i] == c;
      ReverseTableIsLastIndex(a, |a|, i);
    } else {
      assert a[..|a|] == a;
      ReverseTableElsewhere(a, |a|, c);
    }
  }

  // ---------- septets as bits ----------

  type Char = c: Octet | c != 0 witness 1
  type CString = seq<Char>

  function Septets(a: seq<Octet>, text: CString): (r: seq<Octet>)
    requires |a| <= 256
    ensures |r| == |text|
  {
    if text == [] then [] else [EncodeGSMChar(a, text[0])] + Septets(a, text[1..])
  }

  lemma {:induction false} SeptetsAt(a: seq<Octet>, text: CString)
    requires IsAlphabet(a)
    ensures forall i {:trigger Septets(a, text)[i]} :: 0 <= i < |text| ==> Septets(a, text)[i] == EncodeGSMChar(a, text[i]) < 128
  {
    if text != [] {
      CharRoundTrip(a, text[0]);
      SeptetsAt(a, text[1..]);
      forall i | 0 <= i < |text| ensures Septets(a, text)[i] == EncodeGSMChar(a, text[i]) < 128 {
        if i > 0 { assert Septets(a, text)[i] == Septets(a, text[1..])[i - 1] && text[i] == text[1..][i - 1]; }
      }
    }
  }

  function SeptetBits(e: seq<Octet>): (r: seq<bool>)
    ensures |r| == 7 * |e|
  {
    if e == [] then [] else LsbBits(e[0] as nat, 7) + SeptetBits(e[1..])
  }

  function OctetCount(n: nat): nat { (n * 7 + 7) / 8 }

  /** mRawData after encode7bit */
  function RawBits(a: seq<Octet>, text: CString): (r: seq<bool>)
    requires |a| <= 256
    ensures |r| == 8 * OctetCount(|text|)
  {
    SeptetBits(Septets(a, text)) + Falses(8 * OctetCount(|text|) - 7 * |text|)
  }

  /** n characters from the front of packed data */
  function Unseptets(a: seq<Octet>, raw: seq<bool>, n: nat): (r: seq<Octet>)
    requires |a| >= 128 && 7 * n <= |raw|
    ensures |r| == n
  {
    if n == 0 then []
    else
      SevenBits(raw[..7]);
      [DecodeGSMChar(a, LsbValue(raw[..7]) as Octet)] + Unseptets(a, raw[7..], n - 1)
  }

  lemma SevenBits(s: seq<bool>)
    requires |s| == 7
    ensures LsbValue(s) < 128
  {
    LsbValueBound(s);
    assert Pow2(4) == 16;
  }

  /** The text a receiver sees: characters outside the alphabet have become '@'. */
  function Shown(a: seq<Octet>, text: CString): (r: seq<Octet>)
    ensures |r| == |text|
  {
    if text == [] then [] else [if Representable(a, text[0]) then text[0] else AT] + Shown(a, text[1..])
  }

  lemma SevenBitValue(v: nat)
    requires v < 128
    ensures LsbValue(LsbBits(v, 7)) == v
  {
    Pow2Seven();
    hide *;
    LsbValueOfBits(v, 7);
  }

  lemma Pow2Seven()
    ensures Pow2(7) == 128
  {
    assert Pow2(4) == 16;
  }

  lemma UnseptetsFirst(a: seq<Octet>, raw: seq<bool>, n: nat)
    requires |a| >= 128 && n >= 1 && 7 * n <= |raw|
    ensures LsbValue(raw[..7]) < 128
    ensures Unseptets(a, raw, n)
         == [DecodeGSMChar(a, LsbValue(raw[..7]) as Octet)] + Unseptets(a, raw[7..], n - 1)
  {
    SevenBits(raw[..7]);
  }

  lemma UnseptetsNone(a: seq<Octet>, raw: seq<bool>)
    requires |a| >= 128
    ensures Unseptets(a, raw, 0) == []
  {
  }

  lemma UnseptetsStep(a: seq<Octet>, v: nat, rest: seq<bool>, n: nat)
    requires IsAlphabet(a) && v < 128 && n >= 1 && 7 * (n - 1) <= |rest|
    ensures Unseptets(a, LsbBits(v, 7) + rest, n) == [a[v]] + Unseptets(a, rest, n - 1)
  {
    var raw := LsbBits(v, 7) + rest;
    assert raw[..7] == LsbBits(v, 7) && raw[7..] == rest;
    SevenBitValue(v);
  }

  /** The first n characters come back, whatever follows the septets. */
  lemma {:induction false} UnseptetsOfText(a: seq<Octet>, text: CString, rest: seq<bool>, n: nat)
    requires IsAlphabet(a) && n <= |text|
    ensures Unseptets(a, SeptetBits(Septets(a, text)) + rest, n) == Shown(a, text)[..n]
  {
    hide EncodeGSMChar, LsbBits, LsbValue;
    if n > 0 {
      var v, tail := EncodeGSMChar(a, text[0]), SeptetBits(Septets(a, text[1..])) + rest;
      assert Septets(a, text)[1..] == Septets(a, text[1..]);
      assert SeptetBits(Septets(a, text)) + rest == LsbBits(v as nat, 7) + tail;
      CharRoundTrip(a, text[0]);
      UnseptetsStep(a, v as nat, tail, n);
      UnseptetsOfText(a, text[1..], rest, n - 1);
    }
  }

  // ---------- the packing of GSM 03.38 section 6.1.2.1 ----------

  /** The number with these digits, least significant digit first. */
  function LittleEndian(base: nat, digits: seq<Octet>): nat {
    if digits == [] then 0 else digits[0] as nat + base * LittleEndian(base, digits[1..])
  }

  lemma {:induction false} OctetsAsNumber(s: seq<bool>)
    requires |s| % 8 == 0
    ensures LittleEndian(256, Octets(ReverseOctets(s))) == LsbValue(s)
    decreases |s|
  {
    if s != [] {
      var r := ReverseOctets(s);
      assert r[..8] == Reverse(s[..8]) && r[8..] == ReverseOctets(s[8..]);
      LsbValueIsReversedMsb(s[..8]);
      OctetsAsNumber(s[8..]);
      assert Octets(r)[1..] == Octets(r[8..]);
      LsbValueConcat(s[..8], s[8..]);
      assert s == s[..8] + s[8..];
      Pow2Eight();
    }
  }

  lemma {:induction false} SeptetsAsNumber(e: seq<Octet>, filler: nat)
    requires forall i :: 0 <= i < |e| ==> e[i] < 128
    ensures LsbValue(SeptetBits(e) + Falses(filler)) == LittleEndian(128, e)
  {
    if e == [] {
      assert SeptetBits(e) + Falses(filler) == Falses(filler);
      FalsesAreZero(filler);
    } else {
      var rest := SeptetBits(e[1..]) + Falses(filler);
      assert SeptetBits(e) + Falses(filler) == LsbBits(e[0] as nat, 7) + rest;
      LsbValueConcat(LsbBits(e[0] as nat, 7), rest);
      SevenBitValue(e[0] as nat);
      assert Pow2(7) == 128 by { assert Pow2(4) == 16; }
      SeptetsAsNumber(e[1..], filler);
    }
  }

  lemma {:induction false} FalsesAreZero(n: nat)
    ensures LsbValue(Falses(n)) == 0
  {
    if n > 0 {
      assert Falses(n)[1..] == Falses(n - 1);
      FalsesAreZero(n - 1);
    }
  }

  lemma PackedPadded(s: seq<bool>, pad: nat, t: seq<bool>)
    requires pad == (8 - |s| % 8) % 8 && t == s + Falses(pad)
    ensures Packed(s) == Octets(t)
  {
    hide Octets;
  }

  lemma NoPadding(n: nat)
    requires n % 8 == 0
    ensures (8 - n % 8) % 8 == 0
  {
  }

  lemma PackedWhole(s: seq<bool>)
    requires |s| % 8 == 0
    ensures Packed(s) == Octets(s)
  {
    hide Octets, Packed;
    NoPadding(|s|);
    assert s + Falses(0) == s;
    PackedPadded(s, 0, s);
  }

  /** The octets on the wire, read as a base-256 number, are the septets read as a
      base-128 number, both least significant first. */
  lemma PackingIdentity(a: seq<Octet>, text: CString)
    requires IsAlphabet(a)
    ensures LittleEndian(256, Packed(ReverseOctets(RawBits(a, text)))) == LittleEndian(128, Septets(a, text))
  {
    hide Octets, Packed, LsbValue, LittleEndian, SeptetBits, Septets, ReverseOctets;
    var raw := RawBits(a, text);
    OctetsAsNumber(raw);
    SeptetsAt(a, text);
    SeptetsAsNumber(Septets(a, text), 8 * OctetCount(|text|) - 7 * |text|);
    PackedWhole(ReverseOctets(raw));
  }

  /** What goes on the wire is the octet of the length and then octets that are, least significant
      first, the number of the septets. */
  lemma WireIsPacked(a: seq<Octet>, text: CString)
    requires IsAlphabet(a)
    ensures var w := Written(|text|, RawBits(a, text));
      |w| >= 8 && MsbValue(w[..8]) == |text| % 256
      && LittleEndian(256, Packed(w[8..])) == LittleEndian(128, Septets(a, text))
  {
    PackingIdentity(a, text);
    Pow2Eight();
    MsbValueOfBits(|text|, 8);
    hide Packed, LittleEndian, ReverseOctets, MsbBits, MsbValue, RawBits, Septets;
    var w := Written(|text|, RawBits(a, text));
    assert w[..8] == MsbBits(|text|, 8) && w[8..] == ReverseOctets(RawBits(a, text));
  }

  /** The septets need no fewer octets, and the bits after the last septet are zero. */
  lemma PackingFiller(a: seq<Octet>, text: CString)
    requires IsAlphabet(a)
    ensures 0 <= |RawBits(a, text)| - 7 * |text| < 8
    ensures forall k :: 7 * |text| <= k < |RawBits(a, text)| ==> !RawBits(a, text)[k]
  {
    var fill := Falses(8 * OctetCount(|text|) - 7 * |text|);
    forall k | 7 * |text| <= k < |RawBits(a, text)| ensures !RawBits(a, text)[k] {
      assert RawBits(a, text)[k] == fill[k - 7 * |text|];
    }
  }

  // ---------- the element ----------

  datatype Decoded =
    | Text(text: seq<Octet>)
    | ReadError           // SMS_READ_ERROR
    | Aborted             // an assertion of BitVector fails

  predicate Is7Bit(dcs: nat) { dcs in {0, 244, 245, 246, 247} }

  /** The length in septets of a user data header of udhl octets. */
  function HeaderSeptets(udhl: nat): nat { (udhl * 8 + 8 + 6) / 7 }

  function HeaderLength(udhi: bool, raw: seq<bool>): nat
    requires udhi ==> |raw| >= 8
  {
    if udhi then HeaderSeptets(LsbValue(raw[..8])) else 0
  }

  function Decode(a: seq<Octet>, dcs: nat, udhi: bool, length: nat, raw: seq<bool>): Decoded
    requires |a| >= 128
  {
    if !Is7Bit(dcs) || length * 7 > |raw| then ReadError
    else if udhi && |raw| < 8 then Aborted
    else
      var h := HeaderLength(udhi, raw);
      if h > length then Aborted else Text(Unseptets(a, raw[7 * h..], length - h))
  }

  /** What write() appends when the frame ends with the user data. */
  function Written(length: nat, raw: seq<bool>): seq<bool> { MsbBits(length, 8) + ReverseOctets(raw) }

  /** mLength and mRawData after parse() at rp */
  function ParsedLength(frame: seq<bool>, rp: nat): nat
    requires rp + 8 <= |frame|
  {
    MsbValue(frame[rp..rp + 8])
  }

  function ParsedRaw(frame: seq<bool>, rp: nat): seq<bool>
    requires rp + 8 <= |frame|
  {
    ReverseOctets(frame[rp + 8..])
  }

  class TLUserData {
    const alphabet: seq<Octet>
    var mDCS: nat
    var mUDHI: bool
    var mLength: nat
    var mRawData: BitVector

    ghost predicate Valid()
      reads this, mRawData
    {
      IsAlphabet(alphabet) && mRawData.Valid()
    }

    ghost function Raw(): seq<bool>
      requires Valid()
      reads this, mRawData, mRawData.mData
    {
      mRawData.Bits()
    }

    constructor (dcs: nat, udhi: bool)
      ensures Valid() && fresh(mRawData) && fresh(mRawData.mData) && alphabet == GSM_ALPHABET
      ensures mDCS == dcs && mUDHI == udhi && mLength == 0 && Raw() == []
    {
      alphabet := GSM_ALPHABET;
      mDCS, mUDHI, mLength := dcs, udhi, 0;
      mRawData := new BitVector(0);
      GsmAlphabetIsAlphabet();
    }

    method Encode7bit(text: CString)
      requires Valid()
      modifies this, mRawData
      ensures Valid() && mRawData == old(mRawData) && fresh(mRawData.mData)
      ensures mDCS == 0 && mUDHI == old(mUDHI) && mLength == |text| && Raw() == RawBits(alphabet, text)
    {
      mDCS := 0;
      mLength := |text|;
      var bytes := (mLength * 7 + 7) / 8;
      var fillerBits := bytes * 8 - mLength * 7;
      mRawData.Resize(bytes * 8);
      var table := BuildReverseTable(alphabet);
      var wp := WriteSeptets(table, text);
      WriteFiller(wp, fillerBits);
      RawBitsDef(alphabet, text, fillerBits);
    }

    /** writeField(wp,0,filler_bits) */
    method WriteFiller(wp: nat, fillerBits: nat)
      requires Valid() && wp + fillerBits == mRawData.Size()
      modifies mRawData.mData
      ensures Raw() == old(Raw())[..wp] + Falses(fillerBits)
    {
      var _ := mRawData.WriteField(wp, 0, fillerBits);
      ZeroField(fillerBits);
    }

    /** The loop of encode7bit. */
    method WriteSeptets(table: array<Octet>, text: CString) returns (wp: nat)
      requires Valid() && 7 * |text| <= mRawData.Size() && table[..] == ReverseTable(alphabet, |alphabet|)
      modifies mRawData.mData
      ensures wp == 7 * |text| && Raw()[..wp] == SeptetBits(Septets(alphabet, text))
    {
      wp := 0;
      ghost var e := Septets(alphabet, text);
      SeptetsAt(alphabet, text);
      for i := 0 to |text|
        invariant wp == 7 * i
        invariant Raw()[..wp] == SeptetBits(e[..i])
      {
        var gsm := table[text[i] as int];
        ghost var before := Raw()[..wp];
        wp := mRawData.WriteFieldReversed(wp, gsm as nat, 7);
        SeptetBitsSnoc(e, i);
        assert Raw()[..wp] == before + LsbBits(gsm as nat, 7);
      }
      assert e[..|text|] == e;
    }

    method DecodeText() returns (r: Decoded)
      requires Valid()
      ensures r == Decode(alphabet, mDCS, mUDHI, mLength, Raw())
    {
      hide LsbValue, Unseptets, HeaderSeptets;
      if mDCS == 0 || mDCS == 244 || mDCS == 245 || mDCS == 246 || mDCS == 247 {
        if mLength * 7 > mRawData.mEnd - mRawData.mStart { return ReadError; }
        if mUDHI && mRawData.mEnd - mRawData.mStart < 8 { return Aborted; }
        var udhSeptets := SkipHeader();
        if udhSeptets > mLength { return Aborted; }
        var text := ReadSeptets(7 * udhSeptets, mLength - udhSeptets);
        return Text(text);
      }
      return ReadError;
    }

    /** The length of the user data header in septets, with its fill bits. */
    method SkipHeader() returns (udhSeptets: nat)
      requires Valid() && (mUDHI ==> |Raw()| >= 8)
      ensures udhSeptets == HeaderLength(mUDHI, Raw())
    {
      hide LsbValue, Pow2;
      udhSeptets := 0;
      if mUDHI {
        var udhl := mRawData.PeekFieldReversed(0, 8);
        LsbValueBound(Raw()[0..8]);
        Pow2Eight();
        assert Raw()[0..8] == Raw()[..8];
        udhSeptets := (udhl * 8 + 8 + 6) / 7;
      }
    }

    method ReadSeptet(crp: nat) returns (gsm: nat)
      requires Valid() && crp + 7 <= mRawData.Size()
      ensures gsm == LsbValue(Raw()[crp..][..7])
    {
      hide LsbValue;
      var next;
      gsm, next := mRawData.ReadFieldReversed(crp, 7);
      assert Raw()[crp..][..7] == Raw()[crp..crp + 7];
      SevenBits(Raw()[crp..crp + 7]);
    }

    /** The loop of decode. */
    method ReadSeptets(from: nat, textLength: nat) returns (text: seq<Octet>)
      requires Valid() && from + 7 * textLength <= mRawData.Size()
      ensures text == Unseptets(alphabet, Raw()[from..], textLength)
    {
      hide LsbValue, DecodeGSMChar;
      hide Unseptets;
      text := [];
      var crp := from;
      ghost var left := Raw()[from..];
      for i := 0 to textLength
        invariant crp == from + 7 * i && left == Raw()[crp..]
        invariant Unseptets(alphabet, Raw()[from..], textLength) == text + Unseptets(alphabet, left, textLength - i)
      {
        UnseptetsFirst(alphabet, left, textLength - i);
        var gsm := ReadSeptet(crp);
        crp := crp + 7;
        left := left[7..];
        text := text + [DecodeGSMChar(alphabet, gsm as Octet)];
      }
      UnseptetsNone(alphabet, left);
    }

    /** length(): octets of the written element, with its length octet. */
    method Length() returns (n: nat)
      requires Valid()
      ensures n == 1 + (|Raw()| + 7) / 8
      ensures |Raw()| % 8 == 0 ==> 8 * n == |Written(mLength, Raw())|
    {
      n := 1 + (mRawData.mEnd - mRawData.mStart + 7) / 8;
    }

    /** write() at wp; the rest of dest after the length octet has room for the data. */
    method Write(dest: BitVector, wp: nat) returns (wp': nat)
      requires Valid() && dest.Valid() && dest.mData != mRawData.mData
      requires wp + 8 + |Raw()| <= dest.Size()
      modifies dest.mData
      ensures wp' == wp + 8
      ensures dest.Bits() == old(dest.Bits())[..wp] + MsbBits(mLength, 8)
                           + ReverseOctets(Splice(old(dest.Bits())[wp + 8..], 0, Raw()))
    {
      hide MsbBits, ReverseOctets, Splice;
      ghost var before := dest.Bits();
      wp' := dest.WriteField(wp, mLength, 8);
      SpliceParts(before, wp, MsbBits(mLength, 8));
      WriteData(dest, wp');
    }

    /** The data over everything from wp on. */
    method WriteData(dest: BitVector, wp: nat)
      requires Valid() && dest.Valid() && dest.mData != mRawData.mData
      requires wp + |Raw()| <= dest.Size()
      modifies dest.mData
      ensures dest.Bits() == old(dest.Bits())[..wp] + ReverseOctets(Splice(old(dest.Bits())[wp..], 0, Raw()))
    {
      hide ReverseOctets, Splice;
      ghost var a := dest.mData[..];
      var udDest := new BitVector.Segment(dest, wp, dest.mEnd - dest.mStart - wp);
      assert udDest.Bits() == dest.Bits()[wp..];
      WriteRaw(udDest);
      TailReplaced(a, dest.mData[..], dest.mStart, dest.mEnd, wp, udDest.Bits());
    }

    /** mRawData.copyTo(ud_dest); ud_dest.LSB8MSB() */
    method WriteRaw(udDest: BitVector)
      requires Valid() && udDest.Valid() && udDest.mData != mRawData.mData && |Raw()| <= udDest.Size()
      modifies udDest.mData
      ensures udDest.Bits() == ReverseOctets(Splice(old(udDest.Bits()), 0, Raw()))
      ensures forall k :: 0 <= k < udDest.mData.Length && !(udDest.mStart <= k < udDest.mEnd) ==>
        udDest.mData[k] == old(udDest.mData[k])
    {
      mRawData.CopyToSegment(udDest, 0, mRawData.mEnd - mRawData.mStart);
      assert mRawData.Bits()[..mRawData.Size()] == Raw();
      udDest.LSB8MSB();
    }

    /** parse() at rp; the caller has set DCS and UDHI. */
    method Parse(src: BitVector, rp: nat) returns (rp': nat)
      requires Valid() && src.Valid() && rp + 8 <= src.Size()
      modifies this, mRawData
      ensures Valid() && mRawData == old(mRawData) && mDCS == old(mDCS) && mUDHI == old(mUDHI)
      ensures mLength == ParsedLength(old(src.Bits()), rp) && Raw() == ParsedRaw(old(src.Bits()), rp)
      ensures rp' == rp + 8
    {
      hide MsbValue, ReverseOctets;
      ghost var frame := src.Bits();
      mLength, rp' := src.ReadField(rp, 8);
      OctetIsSmall(frame[rp..rp + 8]);
      ParseData(src, rp');
    }

    /** The rest of the frame with the octets reversed. */
    method ParseData(src: BitVector, rp': nat)
      requires Valid() && src.Valid() && rp' <= src.Size()
      modifies mRawData
      ensures mRawData.Valid() && fresh(mRawData.mData)
      ensures mRawData.Bits() == ReverseOctets(old(src.Bits())[rp'..])
    {
      hide ReverseOctets;
      ghost var frame := src.Bits();
      var tail := new BitVector.Segment(src, rp', src.mEnd - src.mStart - rp');
      assert tail.Bits() == frame[rp'..];
      mRawData.Clone(tail);
      mRawData.LSB8MSB();
    }
  }

  lemma OctetIsSmall(s: seq<bool>)
    requires |s| == 8
    ensures MsbValue(s) % TWO64 == MsbValue(s) < 256
  {
    hide MsbValue;
    MsbBitsOfValue(s);
    Pow2Eight();
  }

  lemma RawBitsDef(a: seq<Octet>, text: CString, filler: nat)
    requires |a| <= 256 && filler == (|text| * 7 + 7) / 8 * 8 - |text| * 7
    ensures RawBits(a, text) == SeptetBits(Septets(a, text)) + Falses(filler)
  {
  }

  lemma UnseptetsOfRaw(a: seq<Octet>, text: CString, n: nat)
    requires IsAlphabet(a) && n <= |text|
    ensures 7 * n <= |RawBits(a, text)|
    ensures Unseptets(a, RawBits(a, text), n) == Shown(a, text)[..n]
  {
    UnseptetsOfText(a, text, Falses(8 * OctetCount(|text|) - 7 * |text|), n);
  }

  lemma SpliceParts(s: seq<bool>, i: nat, x: seq<bool>)
    requires i + |x| <= |s|
    ensures Splice(s, i, x)[..i + |x|] == s[..i] + x && Splice(s, i, x)[i + |x|..] == s[i + |x|..]
  {
  }

  /** A change after the first n bits of a window only. */
  lemma TailReplaced(a: seq<bool>, b: seq<bool>, start: nat, end: nat, n: nat, x: seq<bool>)
    requires |a| == |b| && start + n <= end <= |a| && b[start + n..end] == x
    requires forall k :: 0 <= k < |a| && !(start + n <= k < end) ==> b[k] == a[k]
    ensures b[start..end] == a[start..end][..n] + x
  {
  }

  lemma DecodePlain(a: seq<Octet>, n: nat, raw: seq<bool>)
    requires |a| >= 128 && 7 * n <= |raw|
    ensures Decode(a, 0, false, n, raw) == Text(Unseptets(a, raw, n))
  {
    assert raw[0..] == raw;
  }

  lemma {:induction false} ZeroField(n: nat)
    ensures MsbBits(0, n) == Falses(n)
  {
    if n > 0 { ZeroField(n - 1); }
  }

  lemma {:induction false} SeptetBitsSnoc(e: seq<Octet>, i: nat)
    requires i < |e|
    ensures SeptetBits(e[..i + 1]) == SeptetBits(e[..i]) + LsbBits(e[i] as nat, 7)
  {
    if i > 0 {
      SeptetBitsSnoc(e[1..], i - 1);
      assert e[1..][..i] == e[..i + 1][1..] && e[1..][..i - 1] == e[..i][1..];
    }
  }

  // ---------- a user data header in front ----------

  lemma SeptetsOfHeader(udhl: nat, h: nat, fill: nat)
    requires 7 * h == 8 * (udhl + 1) + fill && fill < 7
    ensures HeaderSeptets(udhl) == h
  {
  }

  lemma HeaderBound(udhl: nat, length: nat)
    ensures HeaderSeptets(udhl) > length <==> 7 * length < 8 * (udhl + 1)
  {
  }

  /** How decoding ends: a coding scheme that is none of the five or data shorter than its length
      is a read error; a header whose length octet is missing, or which is longer than the text
      with it, an abort. */
  lemma DecodeEnds(a: seq<Octet>, dcs: nat, udhi: bool, length: nat, raw: seq<bool>)
    requires |a| >= 128
    ensures Decode(a, dcs, udhi, length, raw) == ReadError
       <==> dcs !in {0, 244, 245, 246, 247} || 7 * length > |raw|
    ensures Decode(a, dcs, udhi, length, raw) == Aborted
       <==> && dcs in {0, 244, 245, 246, 247} && 7 * length <= |raw|
            && udhi && (|raw| < 8 || 7 * length < 8 * (LsbValue(raw[..8]) + 1))
  {
    hide LsbValue, Unseptets, HeaderSeptets;
    if |raw| >= 8 { HeaderBound(LsbValue(raw[..8]), length); }
  }

  /** Behind a header of udhl octets and the octet of its length, and fewer than seven fill bits
      that make up whole septets, any text is decoded as without one, whatever follows; the
      length counts the septets of header and text. */
  lemma TextBehindHeader(a: seq<Octet>, dcs: nat, header: seq<bool>, udhl: nat, fill: seq<bool>, h: nat,
                         text: CString, rest: seq<bool>)
    requires IsAlphabet(a) && dcs in {0, 244, 245, 246, 247}
    requires |header| == 8 * (udhl + 1) && LsbValue(header[..8]) == udhl
    requires |fill| < 7 && |header| + |fill| == 7 * h
    ensures Decode(a, dcs, true, h + |text|, header + fill + SeptetBits(Septets(a, text)) + rest)
         == Text(Shown(a, text))
  {
    assert |a| == 129;
    hide *;
    var packed := SeptetBits(Septets(a, text));
    SeptetsOfHeader(udhl, h, |fill|);
    BehindHeader(header, fill, packed, rest, 7 * h);
    DecodeFrom(a, dcs, header + fill + packed + rest, h, text, rest);
  }

  lemma BehindHeader(header: seq<bool>, fill: seq<bool>, packed: seq<bool>, rest: seq<bool>, n: nat)
    requires |header| >= 8 && n == |header| + |fill|
    ensures var raw := header + fill + packed + rest;
      n <= |raw| && raw[..8] == header[..8] && raw[n..] == packed + rest
  {
  }

  lemma DecodeFrom(a: seq<Octet>, dcs: nat, raw: seq<bool>, h: nat, text: CString, rest: seq<bool>)
    requires IsAlphabet(a) && dcs in {0, 244, 245, 246, 247} && 8 <= |raw| && 7 * h <= |raw|
    requires HeaderSeptets(LsbValue(raw[..8])) == h && raw[7 * h..] == SeptetBits(Septets(a, text)) + rest
    ensures Decode(a, dcs, true, h + |text|, raw) == Text(Shown(a, text))
  {
    assert |a| == 129;
    hide *;
    assert |raw| - 7 * h == 7 * |text| + |rest| by { assert |raw[7 * h..]| == |raw| - 7 * h; }
    DecodeBehind(a, dcs, h + |text|, raw, h);
    UnseptetsOfText(a, text, rest, |text|);
    assert Shown(a, text)[..|text|] == Shown(a, text);
  }

  lemma DecodeBehind(a: seq<Octet>, dcs: nat, length: nat, raw: seq<bool>, h: nat)
    requires |a| >= 128 && dcs in {0, 244, 245, 246, 247} && |raw| >= 8
    requires HeaderSeptets(LsbValue(raw[..8])) == h <= length && 7 * length <= |raw|
    ensures Decode(a, dcs, true, length, raw) == Text(Unseptets(a, raw[7 * h..], length - h))
  {
    hide LsbValue, HeaderSeptets, Unseptets;
  }

  /** The same without a header, under each of the coding schemes. */
  lemma TextWithoutHeader(a: seq<Octet>, dcs: nat, text: CString, rest: seq<bool>)
    requires IsAlphabet(a) && dcs in {0, 244, 245, 246, 247}
    ensures Decode(a, dcs, false, |text|, SeptetBits(Septets(a, text)) + rest) == Text(Shown(a, text))
  {
    hide LsbValue, HeaderSeptets, SeptetBits, Septets, Unseptets, Shown;
    var raw := SeptetBits(Septets(a, text)) + rest;
    assert raw[0..] == raw;
    UnseptetsOfText(a, text, rest, |text|);
    assert Shown(a, text)[..|text|] == Shown(a, text);
  }

  // ---------- round trips ----------

  lemma {:induction false} ShownIsText(a: seq<Octet>, text: CString)
    requires IsAlphabet(a)
    ensures Shown(a, text) == text <==> forall i :: 0 <= i < |text| ==> Representable(a, text[i])
  {
    if text != [] {
      ShownIsText(a, text[1..]);
      assert Shown(a, text)[0] == text[0] <==> Representable(a, text[0]) by { assert a[0] == AT; }
      assert Shown(a, text)[1..] == Shown(a, text[1..]);
      if forall i :: 0 <= i < |text| - 1 ==> Representable(a, text[1..][i]) {
        forall i | 1 <= i < |text| ensures Representable(a, text[i]) { assert text[i] == text[1..][i - 1]; }
      } else {
        var i :| 0 <= i < |text| - 1 && !Representable(a, text[1..][i]);
        assert !Representable(a, text[i + 1]);
      }
    }
  }

  /** decode after encode7bit shows any text, of any length, up to unrepresentable characters. */
  lemma TextRoundTrip(a: seq<Octet>, text: CString)
    requires IsAlphabet(a)
    ensures Decode(a, 0, false, |text|, RawBits(a, text)) == Text(Shown(a, text))
    ensures Decode(a, 0, false, |text|, RawBits(a, text)) == Text(text)
            <==> forall i :: 0 <= i < |text| ==> Representable(a, text[i])
  {
    UnseptetsOfRaw(a, text, |text|);
    DecodePlain(a, |text|, RawBits(a, text));
    assert Shown(a, text)[..|text|] == Shown(a, text);
    ShownIsText(a, text);
  }

  lemma ParseWritten(length: nat, raw: seq<bool>, before: seq<bool>)
    ensures ParsedLength(before + Written(length, raw), |before|) == length % 256
    ensures ParsedRaw(before + Written(length, raw), |before|) == raw
  {
    var frame, rp := before + Written(length, raw), |before|;
    assert frame[rp..rp + 8] == MsbBits(length, 8) && frame[rp + 8..] == ReverseOctets(raw);
    MsbValueOfBits(length, 8);
    Pow2Eight();
    ReverseOctetsInvolution(raw);
  }

  /** What the receiver decodes after encode7bit, write() behind the given bits, and parse(). */
  function Received(a: seq<Octet>, text: CString, before: seq<bool>): Decoded
    requires 128 <= |a| <= 256
  {
    var frame := before + Written(|text|, RawBits(a, text));
    Decode(a, 0, false, ParsedLength(frame, |before|), ParsedRaw(frame, |before|))
  }

  lemma DecodeBack(a: seq<Octet>, text: CString, raw: seq<bool>, n: nat)
    requires IsAlphabet(a) && n <= |text| && raw == RawBits(a, text)
    ensures Decode(a, 0, false, n, raw) == Text(Shown(a, text)[..n])
  {
    UnseptetsOfRaw(a, text, n);
    DecodePlain(a, n, raw);
  }

  lemma ReceivedText(a: seq<Octet>, text: CString, before: seq<bool>, raw: seq<bool>, n: nat)
    requires IsAlphabet(a) && n == |text| % 256 && n <= |text| && raw == RawBits(a, text)
    ensures Received(a, text, before) == Text(Shown(a, text)[..n])
  {
    ParseWritten(|text|, raw, before);
    DecodeBack(a, text, raw, n);
  }

  lemma LengthOctet(n: nat)
    ensures n % 256 <= n && (n % 256 == n <==> n <= 255)
  {
  }

  lemma CutTextIsText(a: seq<Octet>, text: CString, n: nat)
    requires IsAlphabet(a) && n <= |text|
    ensures Shown(a, text)[..n] == text <==> n == |text| && forall i :: 0 <= i < |text| ==> Representable(a, text[i])
  {
    ShownIsText(a, text);
    if n == |text| { assert Shown(a, text)[..n] == Shown(a, text); }
  }

  /** Through write and parse the text survives exactly when every character is in the
      alphabet and the length fits the length octet: a longer text comes back cut to its
      length modulo 256. */
  lemma WireRoundTrip(a: seq<Octet>, text: CString, before: seq<bool>)
    requires IsAlphabet(a)
    ensures Received(a, text, before) == Text(Shown(a, text)[..|text| % 256])
    ensures Received(a, text, before) == Text(text)
            <==> |text| <= 255 && forall i :: 0 <= i < |text| ==> Representable(a, text[i])
  {
    LengthOctet(|text|);
    ReceivedText(a, text, before, RawBits(a, text), |text| % 256);
    CutTextIsText(a, text, |text| % 256);
  }
}
