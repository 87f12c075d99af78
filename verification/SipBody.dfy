/** An RP-DATA message in the body of a SIP message: packed to octets, encoded as text, copied
    into the body, and on the other side decoded, unpacked and parsed. */
module SipBody {
  import opened BitVectors
  import opened CStrings
  import opened Fields
  import opened SmsFrames
  import L = SmsLayers
  import N = BaseN

  type Bytes = seq<N.Byte>

  function ToBytes(o: seq<Octet>): (b: Bytes)
    ensures |b| == |o|
  {
    if o == [] then [] else [o[0] as int as char] + ToBytes(o[1..])
  }

  function ToOctets(b: Bytes): (o: seq<Octet>)
    ensures |o| == |b|
  {
    if b == [] then [] else [b[0] as int as Octet] + ToOctets(b[1..])
  }

  lemma {:induction false} OctetsOfBytes(o: seq<Octet>)
    ensures ToOctets(ToBytes(o)) == o
  {
    if o != [] { OctetsOfBytes(o[1..]); }
  }

  /** strcpy into an allocated body as long as the text: junk stays behind the first zero. */
  function Copied(text: Bytes, junk: Bytes): (body: Bytes)
    requires |junk| == |text|
    ensures |body| == |text|
    ensures forall i :: 0 <= i < |text| ==> body[i] == if i <= Terminator(text) then text[i] else junk[i]
  {
    seq(|text|, i requires 0 <= i < |text| => if i <= Terminator(text) then text[i] else junk[i])
  }

  /** What pack_tpdu puts in the body for a packet. */
  function Body(packet: Bytes, encoding: Bytes, junk: Bytes): Bytes
    requires |junk| == |N.Encode(packet, encoding).data|
  {
    Copied(N.Encode(packet, encoding).data, junk)
  }

  predicate Binary(encoding: Bytes) { encoding == N.BINARY }

  /** No zero byte, unless it is the last. */
  predicate Copyable(text: Bytes) { Terminator(text) + 1 >= |text| }

  lemma CopiedIffCopyable(text: Bytes)
    ensures (forall junk: Bytes | |junk| == |text| :: Copied(text, junk) == text) <==> Copyable(text)
  {
    if !Copyable(text) {
      var last := |text| - 1;
      var junk := text[last := if text[last] == NUL then 'x' else NUL];
      assert Copied(text, junk)[last] == junk[last] != text[last];
    }
  }

  predicate NoZero(text: Bytes) { forall i :: 0 <= i < |text| ==> text[i] != NUL }

  lemma {:induction false} HexNoZero(data: Bytes)
    ensures NoZero(N.EncodeHex(data))
  {
    if data != [] {
      assert N.DigitHex(data[0] as int / 16 % 16) != NUL && N.DigitHex(data[0] as int % 16) != NUL;
      hide N.DigitHex;
      HexNoZero(data[1..]);
    }
  }

  lemma GroupNoZero(data: Bytes)
    ensures NoZero(N.Group64(data))
  {
    hide N.Accumulate;
    forall d: nat | d < 64 ensures N.Digit64(d) != NUL {}
  }

  lemma {:induction false} Base64NoZero(data: Bytes)
    ensures NoZero(N.Encode64(data))
  {
    if data != [] {
      GroupNoZero(if |data| <= 3 then data else data[..3]);
      hide N.Group64;
      if |data| > 3 { Base64NoZero(data[3..]); }
    }
  }

  lemma NoZeroCopied(text: Bytes)
    requires NoZero(text)
    ensures Terminator(text) == |text|
  {
  }

  /** A packet gets through with any junk behind it exactly when the encoding is known and, if
      it is binary, the packet has no zero byte before its last; or when it is empty. */
  lemma PacketGetsThrough(packet: Bytes, encoding: Bytes)
    ensures (forall junk: Bytes | |junk| == |N.Encode(packet, encoding).data| ::
              N.Decode(Body(packet, encoding, junk), encoding).data == packet)
            <==> packet == [] || (N.Known(encoding) && (Binary(encoding) ==> Copyable(packet)))
  {
    hide N.Decode64, N.DecodeHex, N.Encode64, N.EncodeHex;
    N.DecodeOfEncode(packet, encoding);
    HexNoZero(packet);
    Base64NoZero(packet);
    NoZeroCopied(N.EncodeHex(packet));
    NoZeroCopied(N.Encode64(packet));
    CopiedIffCopyable(packet);
    var e := N.Encode(packet, encoding);
    if Binary(encoding) {
      assert forall junk: Bytes | |junk| == |packet| :: N.Decode(Copied(packet, junk), encoding).data == Copied(packet, junk);
    } else if N.Known(encoding) {
      forall junk: Bytes | |junk| == |e.data| ensures Copied(e.data, junk) == e.data {}
    } else {
      assert e.data == [];
      assert Copied([], []) == [];
      assert N.Decode(Body(packet, encoding, []), encoding).data == [];
    }
  }

  // ---------- the message ----------

  datatype Received =
    | Null                    // no message
    | Message(m: L.RPData)
    | Undefined               // an access outside of the frame or of a digit array

  /** decodeRPData: a decoding error is only logged. */
  function DecodeRPData(text: Bytes, encoding: Bytes): Received {
    if text == [] then Null
    else
      var data := N.Decode(text, encoding).data;
      var r := L.ParseRP(Unpacked(ToOctets(data), 8 * |data|));
      if r.Ok? then Message(r.v) else if r.ReadError? then Null else Received.Undefined
  }

  /** Only the decoded data count: texts that decode to the same, with an error or without, are
      received alike. */
  lemma ErrorsIgnored(text: Bytes, other: Bytes, encoding: Bytes)
    requires text != [] && other != [] && N.Decode(text, encoding).data == N.Decode(other, encoding).data
    ensures DecodeRPData(text, encoding) == DecodeRPData(other, encoding)
  {
    hide N.Decode, L.ParseRP;
  }

  /** The octets of a frame of RP-DATA, as packToString gives them. */
  function Packet(frame: seq<bool>): Bytes { ToBytes(Packed(frame)) }

  lemma UnpackedPacket(frame: seq<bool>, n: nat)
    requires |frame| == 8 * n
    ensures |Packet(frame)| == n && Unpacked(ToOctets(Packet(frame)), 8 * n) == frame
  {
    hide Packed, Unpacked, ToBytes, ToOctets;
    OctetsOfBytes(Packed(frame));
    UnpackPacked(frame);
  }

  lemma DecodeOfPacket(frame: seq<bool>, n: nat, text: Bytes, encoding: Bytes)
    requires |frame| == 8 * n && text != [] && N.Decode(text, encoding).data == Packet(frame)
    ensures DecodeRPData(text, encoding)
         == if L.ParseRP(frame).Ok? then Message(L.ParseRP(frame).v)
            else if L.ParseRP(frame).ReadError? then Null else Received.Undefined
  {
    hide N.Decode, L.ParseRP, Packet, Unpacked;
    UnpackedPacket(frame, n);
  }

  /** What the fields of a message must be to come through their frame. */
  predicate Fits(m: L.RPData) {
    && m.reference < 256 && L.AddressFits(m.originator) && L.AddressFits(m.destination)
    && |m.tpdu| % 8 == 0 && L.OctetsFor(|m.tpdu|) < 256
  }

  /** The packet arrives with this junk: the message does exactly when it fits. */
  lemma ArrivedIffFits(m: L.RPData, pad: seq<bool>, encoding: Bytes, body: Bytes)
    requires m.Valid() && L.SizedAs(m, pad)
    requires N.Decode(body, encoding).data == Packet(L.WriteRP(m) + pad)
    ensures DecodeRPData(body, encoding) == Message(m) <==> Fits(m)
  {
    var frame, n, k := L.WriteRP(m) + pad, L.RPBodyLength(m) + 2, L.OctetsFor(|m.tpdu|);
    assert L.RPBitsNeeded(m) == 8 * n && n > 0;
    assert Fits(m) <==> m.reference < 256 && L.AddressFits(m.originator) && L.AddressFits(m.destination)
                        && |m.tpdu| % 8 == 0 && k < 256;
    hide *;
    L.SizeOf(m, pad, n, k);
    UnpackedPacket(frame, n);
    if body == [] { NothingDecodes(encoding); }
    DecodeOfPacket(frame, n, body, encoding);
    L.RPRoundTrip(m, pad, k);
  }

  lemma {:induction false} SamePrefix(o: seq<Octet>, p: seq<Octet>, j: nat)
    requires j <= |o| == |p| && o[..j] == p[..j]
    ensures AllBits(o)[..8 * j] == AllBits(p)[..8 * j]
  {
    if j > 0 {
      SamePrefix(o[1..], p[1..], j - 1) by { assert o[1..][..j - 1] == o[..j][1..] == p[..j][1..] == p[1..][..j - 1]; }
      assert o[0] == o[..j][0] == p[..j][0] == p[0];
      hide MsbBits;
      var first := MsbBits(o[0] as nat, 8);
      assert AllBits(o)[..8 * j] == first + AllBits(o[1..])[..8 * (j - 1)];
      assert AllBits(p)[..8 * j] == first + AllBits(p[1..])[..8 * (j - 1)];
    }
  }

  lemma {:induction false} ToOctetsAt(b: Bytes, i: nat)
    requires i < |b|
    ensures ToOctets(b)[i] as int == b[i] as int
  {
    if i > 0 { ToOctetsAt(b[1..], i - 1); }
  }

  lemma LastByte(packet: Bytes, body: Bytes, last: nat)
    requires |packet| == |body| == last + 1 && packet[..last] == body[..last] && packet != body
    ensures packet[last] != body[last]
  {
    assert packet == packet[..last] + [packet[last]] && body == body[..last] + [body[last]];
  }

  lemma {:induction false} SameOctets(packet: Bytes, body: Bytes, j: nat)
    requires j <= |packet| == |body| && packet[..j] == body[..j]
    ensures ToOctets(packet)[..j] == ToOctets(body)[..j]
  {
    if j > 0 {
      assert packet[1..][..j - 1] == packet[..j][1..] == body[..j][1..] == body[1..][..j - 1];
      SameOctets(packet[1..], body[1..], j - 1);
      assert packet[0] == packet[..j][0] == body[..j][0] == body[0];
      assert ToOctets(packet)[..j] == [ToOctets(packet)[0]] + ToOctets(packet[1..])[..j - 1];
    }
  }

  /** Another last byte changes the last octet of the frame and no other. */
  lemma ChangedFrame(packet: Bytes, body: Bytes, n: nat)
    requires |packet| == |body| == n > 0 && packet[..n - 1] == body[..n - 1] && packet != body
    ensures var f, g := Unpacked(ToOctets(packet), 8 * n), Unpacked(ToOctets(body), 8 * n);
      f != g && f[..8 * n - 8] == g[..8 * n - 8]
  {
    hide *;
    var o, p := ToOctets(packet), ToOctets(body);
    LastByte(packet, body, n - 1);
    SameOctets(packet, body, n - 1);
    ToOctetsAt(packet, n - 1);
    ToOctetsAt(body, n - 1);
    assert o != p;
    ChangedBits(o, p, n - 1);
  }

  lemma ChangedBits(o: seq<Octet>, p: seq<Octet>, last: nat)
    requires |o| == |p| == last + 1 && o != p && o[..last] == p[..last]
    ensures var f, g := Unpacked(o, 8 * (last + 1)), Unpacked(p, 8 * (last + 1));
      f != g && f[..8 * last] == g[..8 * last]
  {
    hide AllBits;
    SamePrefix(o, p, last);
    assert AllBits(o)[..8 * (last + 1)] == AllBits(o) && AllBits(p)[..8 * (last + 1)] == AllBits(p);
    OctetsOfBits(o);
    OctetsOfBits(p);
  }

  /** A packet that strcpy cuts, and junk that makes the body another one in its last byte. */
  lemma CutPacket(packet: Bytes) returns (junk: Bytes)
    requires !Copyable(packet)
    ensures |junk| == |packet| && Copied(packet, junk) == junk != packet
    ensures junk[..|packet| - 1] == packet[..|packet| - 1]
  {
    var last := |packet| - 1;
    junk := packet[last := if packet[last] == NUL then 'x' else NUL];
    assert junk[last] != packet[last];
  }

  lemma ChangedIsLost(m: L.RPData, body: Bytes, encoding: Bytes, n: nat, k: nat)
    requires m.Valid() && L.AddressFits(m.originator) && L.AddressFits(m.destination)
    requires |m.tpdu| == 8 * k && k < 256 && |L.WriteRP(m)| == 8 * n && n > 0
    requires |body| == n && body != Packet(L.WriteRP(m)) && body[..n - 1] == Packet(L.WriteRP(m))[..n - 1]
    requires N.Decode(body, encoding).data == body
    ensures DecodeRPData(body, encoding) != Message(m)
  {
    hide L.WriteRP, L.AddressFits, L.ParseRP, Unpacked, Packet, N.Decode, ToOctets;
    var frame := L.WriteRP(m);
    UnpackedPacket(frame, n);
    ChangedFrame(Packet(frame), body, n);
    L.LastOctetMatters(m, Unpacked(ToOctets(body), 8 * n), k);
  }

  /** A message that fits is lost with some junk when its packet is cut. */
  lemma CutIsLost(m: L.RPData, pad: seq<bool>, encoding: Bytes) returns (junk: Bytes)
    requires m.Valid() && L.SizedAs(m, pad) && Fits(m)
    requires Binary(encoding) && !Copyable(Packet(L.WriteRP(m) + pad))
    ensures |junk| == |N.Encode(Packet(L.WriteRP(m) + pad), encoding).data|
    ensures DecodeRPData(Body(Packet(L.WriteRP(m) + pad), encoding, junk), encoding) != Message(m)
  {
    hide *;
    var n, k := FitsWhole(m, pad);
    var packet := Packet(L.WriteRP(m));
    assert L.WriteRP(m) + pad == L.WriteRP(m);
    junk := CutPacket(packet);
    BinaryIsItself(packet, encoding);
    BinaryIsItself(junk, encoding);
    assert Body(packet, encoding, junk) == junk by { BodyIs(packet, encoding, junk); }
    UnpackedPacket(L.WriteRP(m), n);
    ChangedIsLost(m, junk, encoding, n, k);
  }

  lemma BodyIs(packet: Bytes, encoding: Bytes, junk: Bytes)
    requires |junk| == |packet| && N.Encode(packet, encoding).data == packet
    ensures Body(packet, encoding, junk) == Copied(packet, junk)
  {
    hide N.Encode;
  }

  /** A message that fits fills its frame. */
  lemma FitsWhole(m: L.RPData, pad: seq<bool>) returns (n: nat, k: nat)
    requires m.Valid() && L.SizedAs(m, pad) && Fits(m)
    ensures pad == [] && |L.WriteRP(m)| == 8 * n > 0 && |m.tpdu| == 8 * k && k < 256
    ensures L.AddressFits(m.originator) && L.AddressFits(m.destination)
  {
    n, k := L.RPBodyLength(m) + 2, L.OctetsFor(|m.tpdu|);
    assert L.RPBitsNeeded(m) == 8 * n;
    hide L.OctetsFor, L.WriteRP, L.RPBitsNeeded, L.AddressFits;
    L.SizeOf(m, pad, n, k);
  }

  lemma BinaryIsItself(text: Bytes, encoding: Bytes)
    requires Binary(encoding)
    ensures N.Encode(text, encoding).data == text && N.Decode(text, encoding).data == text
  {
  }

  lemma UnknownIsLost(packet: Bytes, encoding: Bytes, m: L.RPData)
    requires !N.Known(encoding)
    ensures N.Encode(packet, encoding).data == [] && DecodeRPData(Body(packet, encoding, []), encoding) != Message(m)
  {
    hide L.ParseRP;
  }

  /** A message sent in the body of a SIP message, whatever stands in its unwritten bits, is
      what the receiver gets with any junk behind the copy exactly when the encoding is known,
      a binary packet can be copied as a C string, and the message fits its frame. */
  lemma MessageGetsThrough(m: L.RPData, pad: seq<bool>, encoding: Bytes)
    requires m.Valid() && L.SizedAs(m, pad)
    ensures var packet := Packet(L.WriteRP(m) + pad);
      (forall junk: Bytes | |junk| == |N.Encode(packet, encoding).data| ::
        DecodeRPData(Body(packet, encoding, junk), encoding) == Message(m))
      <==> N.Known(encoding) && (Binary(encoding) ==> Copyable(packet)) && Fits(m)
  {
    var packet := Packet(L.WriteRP(m) + pad);
    var text := N.Encode(packet, encoding).data;
    hide N.Encode, N.Decode, L.ParseRP, L.WriteRP, Packet, Fits, N.Known, Binary, Copyable, Body, L.SizedAs, DecodeRPData;
    PacketGetsThrough(packet, encoding);
    if !N.Known(encoding) {
      UnknownIsLost(packet, encoding, m);
    } else if Binary(encoding) && !Copyable(packet) {
      if Fits(m) {
        var junk := CutIsLost(m, pad, encoding);
      } else {
        var junk := WholeCopy(packet, encoding);
        ArrivedIffFits(m, pad, encoding, Body(packet, encoding, junk));
      }
    } else {
      forall junk: Bytes | |junk| == |text|
        ensures DecodeRPData(Body(packet, encoding, junk), encoding) == Message(m) <==> Fits(m)
      {
        ArrivedIffFits(m, pad, encoding, Body(packet, encoding, junk));
      }
      assert |text| == |text|;
    }
  }

  /** The name in capitals, as a header may have it: every message is lost. */
  lemma CapitalsLoseAll(m: L.RPData, pad: seq<bool>)
    requires m.Valid() && L.SizedAs(m, pad)
    ensures N.Encode(Packet(L.WriteRP(m) + pad), "HEX").data == [] && DecodeRPData([], "HEX") == Null
    ensures !forall junk: Bytes | |junk| == |N.Encode(Packet(L.WriteRP(m) + pad), "HEX").data| ::
      DecodeRPData(Body(Packet(L.WriteRP(m) + pad), "HEX", junk), "HEX") == Message(m)
  {
    hide L.WriteRP, Packet, L.SizedAs, L.ParseRP;
    N.CapitalIsUnknown(Packet(L.WriteRP(m) + pad), "HEX", 0);
    MessageGetsThrough(m, pad, "HEX");
  }

  /** Junk that happens to be the rest of the packet. */
  lemma WholeCopy(packet: Bytes, encoding: Bytes) returns (junk: Bytes)
    requires N.Known(encoding)
    ensures |junk| == |N.Encode(packet, encoding).data|
    ensures N.Decode(Body(packet, encoding, junk), encoding).data == packet
  {
    hide N.Encode, N.Decode;
    junk := N.Encode(packet, encoding).data;
    assert Copied(junk, junk) == junk;
    N.DecodeOfEncode(packet, encoding);
    KnownIsFine(packet, encoding);
  }

  lemma KnownIsFine(packet: Bytes, encoding: Bytes)
    requires N.Known(encoding)
    ensures N.Encode(packet, encoding).error == N.Fine
  {
  }

  lemma NothingDecodes(encoding: Bytes)
    ensures N.Decode([], encoding).data == []
  {
    N.DecodeOfEncode([], encoding);
  }

  // ---------- the methods ----------

  /** BitVector::packToString */
  method PackToString(v: BitVector) returns (result: Bytes)
    requires v.Valid()
    ensures result == ToBytes(Packed(v.Bits()))
  {
    hide Packed, ToBytes;
    result := [];
    ghost var all := Packed(v.Bits());
    var bytes := (v.mEnd - v.mStart) / 8;
    NoBytes();
    for i := 0 to bytes
      invariant result == ToBytes(all[..i])
    {
      var o := v.PeekField(i * 8, 8);
      PackedAt(v.Bits(), i);
      ToBytesSnoc(all, i);
      result := result + [o as char];
    }
    if (v.mEnd - v.mStart) % 8 == 0 {
      assert all[..bytes] == all;
      return;
    }
    var o := v.PeekPartialOctet();
    ToBytesSnoc(all, bytes);
    assert all[..bytes + 1] == all;
    result := result + [o as int as char];
  }

  lemma NoBytes()
    ensures ToBytes([]) == []
  {
  }

  lemma {:induction false} ToBytesSnoc(o: seq<Octet>, i: nat)
    requires i < |o|
    ensures ToBytes(o[..i + 1]) == ToBytes(o[..i]) + [o[i] as int as char]
  {
    if i > 0 {
      ToBytesSnoc(o[1..], i - 1);
      assert o[..i + 1][1..] == o[1..][..i] && o[..i][1..] == o[1..][..i - 1];
    } else {
      assert o[..1][1..] == [] && o[..0] == [];
    }
  }

  /** pack_tpdu: the message's frame, packed, encoded and copied into an allocated body that
      held junk. */
  method PackTpdu(m: RPDataMessage, encoding: Bytes, junk: Bytes -> Bytes) returns (body: Bytes)
    requires m.Valid() && forall b :: |junk(b)| == |b|
    ensures exists pad ::
      L.SizedAs(m.Value(), pad)
      && var packet := Packet(L.WriteRP(m.Value()) + pad);
         body == Body(packet, encoding, junk(N.Encode(packet, encoding).data))
  {
    hide L.WriteRP, L.RPBitsNeeded, Packed, ToBytes, N.Encode;
    var frame := new BitVector(0);
    m.Write(frame);
    ghost var pad := frame.Bits()[|L.WriteRP(m.Value())|..];
    assert frame.Bits() == L.WriteRP(m.Value()) + pad;
    var packet := PackToString(frame);
    var text, _ := N.EncodeToString(packet, encoding);
    body := Copied(text, junk(text));
    assert L.SizedAs(m.Value(), pad);
  }

  /** decodeRPData; undefined is returned in front of an access outside of the frame or of a
      digit array. */
  method DecodeRPDataText(datastring: Bytes, encoding: Bytes) returns (undefined: bool, rpData: RPDataMessage?)
    ensures match DecodeRPData(datastring, encoding)
            case Null => !undefined && rpData == null
            case Message(v) => !undefined && rpData != null && fresh(rpData) && rpData.Valid() && rpData.Value() == v
            case Undefined => undefined
  {
    hide N.Decode, L.ParseRP, Unpacked;
    if datastring == [] { return false, null; }
    var binaryData, _ := N.DecodeToString(datastring, encoding);
    var bits := UnpackText(binaryData);
    var message := new RPDataMessage();
    var st := message.Parse(bits);
    match st
    case Done => return false, message;
    case ReadError => return false, null;
    case OutOfFrame => return true, null;
    case Overrun => return true, null;
  }

  /** RPDUBits: a vector of the text's bits */
  method UnpackText(binaryData: Bytes) returns (bits: BitVector)
    ensures fresh(bits) && fresh(bits.mData) && bits.Valid()
    ensures bits.Bits() == Unpacked(ToOctets(binaryData), 8 * |binaryData|)
  {
    hide Unpacked, ToOctets;
    var src := new Octet[|binaryData|](i requires 0 <= i < |binaryData| => binaryData[i] as int as Octet);
    bits := new BitVector(|binaryData| * 8);
    bits.Unpack(src);
    ToOctetsAre(binaryData, src[..]);
  }

  lemma {:induction false} ToOctetsAre(b: Bytes, o: seq<Octet>)
    requires |o| == |b| && forall i :: 0 <= i < |b| ==> o[i] as int == b[i] as int
    ensures o == ToOctets(b)
  {
    if b != [] { ToOctetsAre(b[1..], o[1..]); }
  }
}
