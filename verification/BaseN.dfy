/** Base64 and hexadecimal text for binary strings. */
module BaseN {
  /** An unsigned char. */
  type Byte = c: char | c as int < 256 witness 'a'

  datatype Error =
    | Fine
    | DataAfterEnd      // found data after '=' terminator in base64 data
    | InvalidBase64     // invalid characters in base64 data
    | UnexpectedHex     // unexpected character in hex data
    | OddLength         // Unexpected odd length of hex encoded string
    | UnknownEncoding   // Unexpected encoding specified

  datatype Decoded = Decoded(data: seq<Byte>, error: Error)

  function ByteOf(n: nat): Byte { (n % 256) as char }

  predicate IsSpace(c: Byte) { c == ' ' || 9 <= c as int <= 13 }

  /** The text without its spaces and newlines. */
  function Strip(text: seq<Byte>): (r: seq<Byte>)
    ensures |r| <= |text|
  {
    if text == [] then [] else (if IsSpace(text[0]) then [] else [text[0]]) + Strip(text[1..])
  }

  // ---------- base64 ----------

  /** sMapBase64 */
  function Digit64(d: nat): Byte
    requires d < 64
  {
    if d < 26 then ('A' as int + d) as char
    else if d < 52 then ('a' as int + d - 26) as char
    else if d < 62 then ('0' as int + d - 52) as char
    else if d == 62 then '+' else '/'
  }

  predicate IsDigit64(c: Byte) {
    'A' <= c <= 'Z' || 'a' <= c <= 'z' || '0' <= c <= '9' || c == '+' || c == '/'
  }

  /** sMapBase64Reverse of a character of the map */
  function Value64(c: Byte): (d: nat)
    requires IsDigit64(c)
    ensures d < 64
  {
    if 'A' <= c <= 'Z' then c as int - 'A' as int
    else if 'a' <= c <= 'z' then c as int - 'a' as int + 26
    else if '0' <= c <= '9' then c as int - '0' as int + 52
    else if c == '+' then 62 else 63
  }

  lemma Value64OfDigit(d: nat)
    requires d < 64
    ensures IsDigit64(Digit64(d)) && Value64(Digit64(d)) == d && !IsSpace(Digit64(d)) && Digit64(d) != '='
  {
  }

  /** Up to three bytes in the upper bits of a 24-bit accumulator. */
  function Accumulate(data: seq<Byte>): nat {
    (if |data| >= 1 then data[0] as int * 65536 else 0)
    + (if |data| >= 2 then data[1] as int * 256 else 0)
    + (if |data| >= 3 then data[2] as int else 0)
  }

  /** Six bits of the accumulator, the lowest for k = 0. */
  function Sextet(accum: nat, k: nat): (d: nat)
    ensures d < 64
  {
    if k == 0 then accum % 64
    else if k == 1 then accum / 64 % 64
    else if k == 2 then accum / 4096 % 64
    else accum / 262144 % 64
  }

  /** Four characters for up to three bytes. */
  function Group64(data: seq<Byte>): (r: seq<Byte>)
    ensures |r| == 4
  {
    var accum := Accumulate(data);
    [Digit64(Sextet(accum, 3)), Digit64(Sextet(accum, 2)),
     if |data| >= 2 then Digit64(Sextet(accum, 1)) else '=',
     if |data| >= 3 then Digit64(Sextet(accum, 0)) else '=']
  }

  function Encode64(data: seq<Byte>): seq<Byte> {
    if data == [] then []
    else if |data| <= 3 then Group64(data)
    else Group64(data[..3]) + Encode64(data[3..])
  }

  method EncodeBase64(ubuf: seq<Byte>) returns (result: seq<Byte>)
    ensures result == Encode64(ubuf)
  {
    hide *;
    result := [];
    var i := 0;
    assert ubuf[0..] == ubuf && [] + Encode64(ubuf) == Encode64(ubuf);
    while i < |ubuf|
      invariant 0 <= i <= |ubuf| + 2
      invariant Encode64(ubuf) == result + Encode64(if i <= |ubuf| then ubuf[i..] else [])
    {
      ghost var rest := ubuf[i..];
      Encode64First(rest);
      Regroup(result, Group64(FirstGroup(rest)), Encode64(AfterGroup(rest)));
      AfterGroupAt(ubuf, i);
      var group := EncodeGroup(ubuf, i);
      result := result + group;
      i := i + 3;
    }
    assert i <= |ubuf| ==> ubuf[i..] == [];
    Encode64None();
    assert result + [] == result;
  }

  /** One turn of the loop: the characters for up to three bytes at i. */
  method EncodeGroup(ubuf: seq<Byte>, i: nat) returns (group: seq<Byte>)
    requires i < |ubuf|
    ensures group == Group64(FirstGroup(ubuf[i..]))
  {
    hide Digit64, Sextet;
    var accum := ubuf[i] as int;
    accum := accum * 256;
    if i + 1 < |ubuf| { accum := accum + ubuf[i + 1] as int; }
    accum := accum * 256;
    if i + 2 < |ubuf| { accum := accum + ubuf[i + 2] as int; }
    assert accum == Accumulate(FirstGroup(ubuf[i..]));
    hide Accumulate;
    var third := if i + 1 < |ubuf| then Digit64(Sextet(accum, 1)) else '=';
    var fourth := if i + 2 < |ubuf| then Digit64(Sextet(accum, 0)) else '=';
    group := [Digit64(Sextet(accum, 3)), Digit64(Sextet(accum, 2)), third, fourth];
  }

  function FirstGroup(data: seq<Byte>): seq<Byte> { if |data| <= 3 then data else data[..3] }

  function AfterGroup(data: seq<Byte>): seq<Byte> { if |data| <= 3 then [] else data[3..] }

  lemma AfterGroupAt(data: seq<Byte>, i: nat)
    requires i <= |data|
    ensures AfterGroup(data[i..]) == if i + 3 <= |data| then data[i + 3..] else []
  {
  }

  lemma Regroup(a: seq<Byte>, b: seq<Byte>, c: seq<Byte>)
    ensures a + (b + c) == a + b + c
  {
  }

  lemma Encode64None()
    ensures Encode64([]) == []
  {
  }

  lemma Encode64First(data: seq<Byte>)
    requires data != []
    ensures Encode64(data) == Group64(FirstGroup(data)) + Encode64(AfterGroup(data))
  {
    hide Group64;
    if |data| <= 3 {
      Encode64None();
      assert Group64(data) + [] == Group64(data);
    }
  }

  type Count = n: nat | n < 4

  /** The decoder between two characters: a group of count characters in accum, or past '='. */
  datatype Scan64 =
    | Open(count: Count, accum: nat, out: seq<Byte>, error: Error)
    | Ended(out: seq<Byte>, error: Error)

  /** What a group of count characters gives. */
  function Bytes(count: nat, accum: nat): seq<Byte> {
    (if count >= 1 then [ByteOf(accum / 65536)] else [])
    + (if count >= 3 then [ByteOf(accum / 256)] else [])
    + (if count == 4 then [ByteOf(accum)] else [])
  }

  /** decoded << ((3-j)*6) */
  function Place(j: nat, decoded: nat): nat
    requires j < 4
  {
    if j == 0 then decoded * 262144 else if j == 1 then decoded * 4096 else if j == 2 then decoded * 64 else decoded
  }

  function Step64(s: Scan64, c: Byte): Scan64 {
    match s
    case Ended(out, error) => if IsSpace(c) || c == '=' then s else Ended(out, DataAfterEnd)
    case Open(count, accum, out, error) =>
      if IsSpace(c) then s
      else if c == '=' then Ended(out + Bytes(count, accum), error)
      else if !IsDigit64(c) then Open(count, accum, out, InvalidBase64)
      else
        var accum' := accum + Place(count, Value64(c));
        if count == 3 then Open(0, 0, out + Bytes(4, accum'), error) else Open(count + 1, accum', out, error)
  }

  function Run64(s: Scan64, text: seq<Byte>): Scan64
    decreases |text|
  {
    if text == [] then s else Run64(Step64(s, text[0]), text[1..])
  }

  function Finish64(s: Scan64): Decoded {
    match s
    case Open(count, accum, out, error) => Decoded(out + Bytes(count, accum), error)
    case Ended(out, error) => Decoded(out, error)
  }

  const START: Scan64 := Open(0, 0, [], Fine)

  /** base64DecodeToString with an empty error message at the start */
  function Decode64(text: seq<Byte>): Decoded { Finish64(Run64(START, text)) }

  lemma Run64First(s: Scan64, text: seq<Byte>)
    requires text != []
    ensures Run64(s, text) == Run64(Step64(s, text[0]), text[1..])
  {
  }

  lemma Run64None(s: Scan64)
    ensures Run64(s, []) == s
  {
  }

  /** The state a group of j characters stands for; a full one counts as flushed. */
  function Flushed(j: nat, accum: nat, out: seq<Byte>, error: Error): Scan64
    requires j <= 4
  {
    if j == 4 then Open(0, 0, out + Bytes(4, accum), error) else Open(j, accum, out, error)
  }

  method DecodeBase64(ubuf: seq<Byte>) returns (result: seq<Byte>, errorMessage: Error)
    ensures Decoded(result, errorMessage) == Decode64(ubuf)
  {
    hide Run64, Bytes, IsDigit64, IsSpace, Value64, Place;
    result, errorMessage := [], Fine;
    var i := 0;
    ghost var at := START;
    BytesOfNone();
    assert ubuf[0..] == ubuf;
    while i < |ubuf|
      invariant i <= |ubuf| && Run64(START, ubuf) == Run64(at, ubuf[i..])
      invariant Finish64(at) == Decoded(result, errorMessage)
      invariant i < |ubuf| ==> at == Open(0, 0, result, errorMessage)
    {
      var accum: nat, j: nat := 0, 0;
      ghost var from := i;
      while j < 4 && i < |ubuf|
        invariant from <= i <= |ubuf| && j <= 4 && (i == from ==> j == 0)
        invariant Run64(START, ubuf) == Run64(at, ubuf[i..])
        invariant at.Ended? ==> i == |ubuf| && at == Ended(result + Bytes(j, accum), errorMessage)
        invariant at.Open? ==> at == Flushed(j, accum, result, errorMessage)
        decreases |ubuf| - i
      {
        var ch := ubuf[i];
        Run64First(at, ubuf[i..]);
        assert ubuf[i..][1..] == ubuf[i + 1..];
        at := Step64(at, ch);
        i := i + 1;
        if IsSpace(ch) { continue; }
        if ch == '=' {
          while i < |ubuf|
            invariant i <= |ubuf| && Run64(START, ubuf) == Run64(at, ubuf[i..])
            invariant at == Ended(result + Bytes(j, accum), errorMessage)
          {
            Run64First(at, ubuf[i..]);
            assert ubuf[i..][1..] == ubuf[i + 1..];
            at := Step64(at, ubuf[i]);
            if !(IsSpace(ubuf[i]) || ubuf[i] == '=') { errorMessage := DataAfterEnd; }
            i := i + 1;
          }
          break;
        }
        if !IsDigit64(ch) {
          errorMessage := InvalidBase64;
          continue;
        }
        accum := accum + Place(j, Value64(ch));
        j := j + 1;
      }
      BytesInOrder(j, accum);
      if j >= 1 { result := result + [ByteOf(accum / 65536)]; }
      if j >= 3 { result := result + [ByteOf(accum / 256)]; }
      if j == 4 { result := result + [ByteOf(accum)]; }
    }
    assert ubuf[i..] == [];
    Run64None(at);
  }

  lemma BytesOfNone()
    ensures Bytes(0, 0) == []
  {
  }

  lemma BytesInOrder(j: nat, accum: nat)
    requires j <= 4
    ensures j == 0 ==> Bytes(j, accum) == []
    ensures 1 <= j < 3 ==> Bytes(j, accum) == [ByteOf(accum / 65536)]
    ensures j == 3 ==> Bytes(j, accum) == [ByteOf(accum / 65536)] + [ByteOf(accum / 256)]
    ensures j == 4 ==> Bytes(j, accum) == [ByteOf(accum / 65536)] + [ByteOf(accum / 256)] + [ByteOf(accum)]
  {
  }

  /** White space anywhere makes no difference to the base64 decoder. */
  lemma {:induction false} SpacesIgnored64(s: Scan64, text: seq<Byte>)
    ensures Run64(s, text) == Run64(s, Strip(text))
    decreases |text|
  {
    if text != [] {
      hide Run64, Value64, IsDigit64, Place, Bytes, IsSpace;
      Run64First(s, text);
      SpacesIgnored64(Step64(s, text[0]), text[1..]);
      if !IsSpace(text[0]) {
        Run64First(s, Strip(text));
        assert Strip(text)[1..] == Strip(text[1..]);
      } else {
        assert Strip(text) == Strip(text[1..]);
      }
    }
  }

  /** The first two characters of a group, after which the decoder holds two. */
  lemma GroupStarts(data: seq<Byte>, rest: seq<Byte>, out: seq<Byte>, a: nat)
    requires data != [] && |data| <= 3 && a == Accumulate(data)
    ensures a / 262144 < 64
    ensures Run64(Open(0, 0, out, Fine), Group64(data) + rest)
         == Run64(Open(2, a / 262144 * 262144 + a / 4096 % 64 * 4096, out, Fine), Group64(data)[2..] + rest)
  {
    hide Run64, Bytes, Digit64, Value64, IsDigit64, IsSpace;
    var d1, d2, t := a / 262144, a / 4096 % 64, Group64(data) + rest;
    assert a / 262144 % 64 == d1 < 64;
    Value64OfDigit(d1);
    Value64OfDigit(d2);
    Run64First(Open(0, 0, out, Fine), t);
    assert Step64(Open(0, 0, out, Fine), t[0]) == Open(1, d1 * 262144, out, Fine);
    Run64First(Open(1, d1 * 262144, out, Fine), t[1..]);
    assert t[1..][1..] == Group64(data)[2..] + rest;
  }

  /** The characters of a 24-bit accumulator put it together again. */
  lemma Sextets(a: nat)
    requires a < 16777216
    ensures a / 262144 * 262144 + a / 4096 % 64 * 4096 + a / 64 % 64 * 64 + a % 64 == a
  {
    DivMod(a);
    DivMod(a / 64);
    DivMod(a / 64 / 64);
    assert a / 64 / 64 == a / 4096 && a / 4096 / 64 == a / 262144;
  }

  lemma DivMod(a: nat)
    ensures a == a / 64 * 64 + a % 64
  {
  }

  lemma ThreeBytes(data: seq<Byte>, a: nat)
    requires |data| <= 3 && a == Accumulate(data)
    ensures a < 16777216
    ensures |data| == 3 ==> Bytes(4, a) == data
    ensures |data| == 2 ==> a % 64 == 0 && Bytes(3, a) == data
    ensures |data| == 1 ==> a % 4096 == 0 && Bytes(2, a) == data
  {
    var x, y, z := if |data| >= 1 then data[0] as int else 0, if |data| >= 2 then data[1] as int else 0,
                   if |data| >= 3 then data[2] as int else 0;
    ByteParts(x, y, z);
    assert |data| >= 1 ==> ByteOf(x) == data[0];
    assert |data| >= 2 ==> ByteOf(y) == data[1];
    assert |data| >= 3 ==> ByteOf(z) == data[2];
  }

  lemma Quotient(q: nat, r: nat)
    requires r < 256
    ensures (q * 256 + r) / 256 == q && (q * 256 + r) % 256 == r
  {
  }

  lemma TopByte(x: nat, low: nat)
    requires x < 256 && low < 65536
    ensures (x * 65536 + low) / 65536 % 256 == x
  {
  }

  lemma ByteParts(x: nat, y: nat, z: nat)
    requires x < 256 && y < 256 && z < 256
    ensures var a := x * 65536 + y * 256 + z;
      a / 65536 % 256 == x && a / 256 % 256 == y && a % 256 == z && (z == 0 ==> a % 64 == 0)
      && (y == 0 && z == 0 ==> a % 4096 == 0)
  {
    TopByte(x, y * 256 + z);
    Quotient(x * 256 + y, z);
    Quotient(x, y);
    Multiples(x, y);
  }

  lemma Multiples(x: nat, y: nat)
    ensures (x * 65536 + y * 256) % 64 == 0 && x * 65536 % 4096 == 0
  {
  }

  /** A whole group of three bytes comes back. */
  lemma WholeGroup(data: seq<Byte>, rest: seq<Byte>, out: seq<Byte>)
    requires |data| == 3
    ensures Run64(Open(0, 0, out, Fine), Group64(data) + rest) == Run64(Open(0, 0, out + data, Fine), rest)
  {
    hide Run64, Bytes, Digit64, Value64, IsDigit64, IsSpace, Accumulate;
    var a := Accumulate(data);
    ThreeBytes(data, a);
    GroupStarts(data, rest, out, a);
    Sextets(a);
    var d3, d4, t := a / 64 % 64, a % 64, Group64(data)[2..] + rest;
    Value64OfDigit(d3);
    Value64OfDigit(d4);
    var s2 := Open(2, a / 262144 * 262144 + a / 4096 % 64 * 4096, out, Fine);
    var s3 := Open(3, s2.accum + d3 * 64, out, Fine);
    Run64First(s2, t);
    assert Step64(s2, t[0]) == s3;
    Run64First(s3, t[1..]);
    assert t[1..][1..] == rest;
  }

  /** The last group of one or two bytes, with its padding, comes back. */
  lemma LastGroup(data: seq<Byte>, out: seq<Byte>)
    requires 1 <= |data| <= 2
    ensures Run64(Open(0, 0, out, Fine), Group64(data)) == Ended(out + data, Fine)
  {
    hide Run64, Bytes, Digit64, Value64, IsDigit64, Accumulate;
    var a := Accumulate(data);
    assert Group64(data) + [] == Group64(data);
    ThreeBytes(data, a);
    GroupStarts(data, [], out, a);
    Sextets(a);
    var d3, t := a / 64 % 64, Group64(data)[2..] + [];
    Value64OfDigit(d3);
    var s2 := Open(2, a / 262144 * 262144 + a / 4096 % 64 * 4096, out, Fine);
    Run64First(s2, t);
    Run64First(Step64(s2, t[0]), t[1..]);
    Run64None(Step64(Step64(s2, t[0]), t[1]));
    assert t[1..][1..] == [];
    if |data| == 1 {
      NoThirdSextet(a, a / 4096);
      assert Step64(s2, t[0]) == Ended(out + data, Fine);
    } else {
      assert Step64(s2, t[0]) == Open(3, s2.accum + d3 * 64, out, Fine);
      assert Step64(Step64(s2, t[0]), t[1]) == Ended(out + data, Fine);
    }
  }

  lemma NoThirdSextet(a: nat, q: nat)
    requires a == 4096 * q
    ensures a / 64 % 64 == 0 && a % 64 == 0
  {
    assert a / 64 == 64 * q;
  }

  lemma {:induction false} Run64OfEncoded(data: seq<Byte>, out: seq<Byte>)
    ensures Finish64(Run64(Open(0, 0, out, Fine), Encode64(data))) == Decoded(out + data, Fine)
  {
    hide Run64, Bytes, Group64;
    if data == [] {
      Run64None(Open(0, 0, out, Fine));
      BytesOfNone();
      assert out + [] == out;
    } else if |data| <= 2 {
      LastGroup(data, out);
    } else {
      var head, tail := data[..3], data[3..];
      WholeGroup(head, Encode64(tail), out);
      assert head + tail == data && out + head + tail == out + data;
      if tail == [] { assert Group64(head) + [] == Group64(data) && head == data; }
      Run64OfEncoded(tail, out + head);
    }
  }

  /** Base64 text with white space inserted anywhere decodes to the data, without an error. */
  lemma RoundTrip64(data: seq<Byte>, text: seq<Byte>)
    requires Strip(text) == Encode64(data)
    ensures Decode64(text) == Decoded(data, Fine)
  {
    hide Run64, Encode64, Strip;
    SpacesIgnored64(START, text);
    Run64OfEncoded(data, []);
    assert [] + data == data;
  }

  // ---------- base64 as a change of base ----------

  /** The number whose digits to base 64, most significant first, are acc and then the text. */
  function Number64(acc: nat, text: seq<Byte>): nat
    decreases |text|
  {
    if text == [] then acc else Number64(acc * 64 + if IsDigit64(text[0]) then Value64(text[0]) else 0, text[1..])
  }

  /** The same to base 256. */
  function Number256(acc: nat, data: seq<Byte>): nat
    decreases |data|
  {
    if data == [] then acc else Number256(acc * 256 + data[0] as int, data[1..])
  }

  lemma DigitOfNumber(acc: nat, d: nat, rest: seq<Byte>)
    requires d < 64
    ensures Number64(acc, [Digit64(d)] + rest) == Number64(acc * 64 + d, rest)
  {
    Value64OfDigit(d);
    hide Digit64, Value64;
    assert ([Digit64(d)] + rest)[1..] == rest;
  }

  /** The digits of a whole group and their number. */
  lemma GroupDigits(data: seq<Byte>) returns (d1: nat, d2: nat, d3: nat, d4: nat)
    requires |data| == 3
    ensures d1 < 64 && d2 < 64 && d3 < 64 && d4 < 64
    ensures Group64(data) == [Digit64(d1), Digit64(d2), Digit64(d3), Digit64(d4)]
    ensures d1 * 262144 + d2 * 4096 + d3 * 64 + d4 == Accumulate(data)
  {
    hide Digit64, Sextet;
    var a := Accumulate(data);
    d1, d2, d3, d4 := Sextet(a, 3), Sextet(a, 2), Sextet(a, 1), Sextet(a, 0);
    AccumulateBound(data);
    SextetsOf(a);
  }

  lemma AccumulateBound(data: seq<Byte>)
    ensures Accumulate(data) < 16777216
  {
  }

  lemma SextetsOf(a: nat)
    requires a < 16777216
    ensures Sextet(a, 3) * 262144 + Sextet(a, 2) * 4096 + Sextet(a, 1) * 64 + Sextet(a, 0) == a
  {
    Sextets(a);
    TopSextet(a);
  }

  lemma TopSextet(a: nat)
    requires a < 16777216
    ensures a / 262144 % 64 == a / 262144
  {
  }

  lemma GroupNumber(acc: nat, data: seq<Byte>, rest: seq<Byte>)
    requires |data| == 3
    ensures Number64(acc, Group64(data) + rest) == Number64(acc * 16777216 + Accumulate(data), rest)
  {
    hide *;
    var d1, d2, d3, d4 := GroupDigits(data);
    var t1 := [Digit64(d4)] + rest;
    var t2 := [Digit64(d3)] + t1;
    var t3 := [Digit64(d2)] + t2;
    assert Group64(data) + rest == [Digit64(d1)] + t3;
    DigitOfNumber(acc, d1, t3);
    DigitOfNumber(acc * 64 + d1, d2, t2);
    DigitOfNumber((acc * 64 + d1) * 64 + d2, d3, t1);
    DigitOfNumber(((acc * 64 + d1) * 64 + d2) * 64 + d3, d4, rest);
  }

  lemma ThreeBytesNumber(acc: nat, data: seq<Byte>, rest: seq<Byte>)
    requires |data| == 3
    ensures Number256(acc, data + rest) == Number256(acc * 16777216 + Accumulate(data), rest)
  {
    hide Number256;
    var x, y, z := data[0], data[1], data[2];
    var t1 := [z] + rest;
    var t2 := [y] + t1;
    assert data + rest == [x] + t2;
    ByteOfNumber(acc, x, t2);
    ByteOfNumber(acc * 256 + x as int, y, t1);
    ByteOfNumber((acc * 256 + x as int) * 256 + y as int, z, rest);
  }

  lemma ByteOfNumber(acc: nat, c: Byte, rest: seq<Byte>)
    ensures Number256(acc, [c] + rest) == Number256(acc * 256 + c as int, rest)
  {
    assert ([c] + rest)[1..] == rest;
  }

  lemma Encode64Group(data: seq<Byte>)
    requires |data| >= 3
    ensures Encode64(data) == Group64(data[..3]) + Encode64(data[3..])
  {
    hide Group64;
    if |data| == 3 { assert data[..3] == data && Group64(data) + [] == Group64(data); }
  }

  /** Base64 of n groups of three bytes is the same number, written to base 64. */
  lemma {:induction false} Encode64IsChangeOfBase(acc: nat, data: seq<Byte>, n: nat)
    requires |data| == 3 * n
    ensures Number64(acc, Encode64(data)) == Number256(acc, data)
    decreases n
  {
    if n > 0 {
      hide Group64, Accumulate, Encode64, Number64, Number256;
      var head, tail := data[..3], data[3..];
      assert head + tail == data;
      Encode64Group(data);
      GroupNumber(acc, head, Encode64(tail));
      ThreeBytesNumber(acc, head, tail);
      Encode64IsChangeOfBase(acc * 16777216 + Accumulate(head), tail, n - 1);
    }
  }

  // ---------- which base64 texts decode without an error ----------

  predicate OnlyPadding(s: seq<Byte>) { forall i :: 0 <= i < |s| ==> s[i] == '=' }

  /** Characters of the map, then nothing but '='. */
  predicate Proper64(s: seq<Byte>) {
    if s == [] then true
    else if s[0] == '=' then OnlyPadding(s[1..])
    else IsDigit64(s[0]) && Proper64(s[1..])
  }

  predicate SpaceFree(s: seq<Byte>) { forall i :: 0 <= i < |s| ==> !IsSpace(s[i]) }

  lemma {:induction false} StripIsSpaceFree(text: seq<Byte>)
    ensures SpaceFree(Strip(text))
  {
    if text != [] { StripIsSpaceFree(text[1..]); }
  }

  lemma {:induction false} PaddingError(s: Scan64, text: seq<Byte>)
    requires s.Ended? && SpaceFree(text)
    ensures Run64(s, text).Ended? && (Run64(s, text).error == Fine <==> s.error == Fine && OnlyPadding(text))
    decreases |text|
  {
    hide Run64, IsSpace;
    if text == [] {
      Run64None(s);
    } else {
      Run64First(s, text);
      PaddingError(Step64(s, text[0]), text[1..]);
      assert OnlyPadding(text) <==> text[0] == '=' && OnlyPadding(text[1..]) by {
        assert forall i :: 1 <= i < |text| ==> text[i] == text[1..][i - 1];
        if text[0] == '=' && OnlyPadding(text[1..]) {
          forall i | 0 <= i < |text| ensures text[i] == '=' { if i > 0 { assert text[i] == text[1..][i - 1]; } }
        }
        if OnlyPadding(text) { assert forall i :: 0 <= i < |text| - 1 ==> text[1..][i] == text[i + 1]; }
      }
    }
  }

  lemma {:induction false} ScanError(s: Scan64, text: seq<Byte>)
    requires s.Open? && SpaceFree(text)
    ensures Run64(s, text).error == Fine <==> s.error == Fine && Proper64(text)
    decreases |text|
  {
    hide Run64, IsSpace, Bytes, Place, Value64;
    if text == [] {
      Run64None(s);
    } else {
      Run64First(s, text);
      if text[0] == '=' {
        EqualsIsNoDigit();
        PaddingError(Step64(s, text[0]), text[1..]);
      } else {
        ScanError(Step64(s, text[0]), text[1..]);
      }
    }
  }

  lemma EqualsIsNoDigit()
    ensures !IsDigit64('=')
  {
  }

  /** The error message stays empty exactly for characters of the map followed by any number
      of '=', white space aside. */
  lemma ErrorFree64(text: seq<Byte>)
    ensures Decode64(text).error == Fine <==> Proper64(Strip(text))
  {
    hide Run64, Strip, Proper64, Bytes;
    SpacesIgnored64(START, text);
    StripIsSpaceFree(text);
    ScanError(START, Strip(text));
  }

  // ---------- hexadecimal ----------

  /** tohex1 */
  function DigitHex(d: nat): Byte
    requires d < 16
  {
    if d <= 9 then ('0' as int + d) as char else ('A' as int + d - 10) as char
  }

  /** sMapHexReverse: letters past F have entries too, of 16 and more. */
  function ReverseHex(c: Byte): (d: nat)
    ensures d < 256
  {
    if '0' <= c <= '9' then c as int - '0' as int
    else if 'A' <= c <= 'Z' then c as int - 'A' as int + 10
    else if 'a' <= c <= 'z' then c as int - 'a' as int + 10
    else 255
  }

  predicate IsHex(c: Byte) { '0' <= c <= '9' || 'A' <= c <= 'F' || 'a' <= c <= 'f' }

  function Upper(c: Byte): Byte { if 'a' <= c <= 'z' then (c as int - 32) as char else c }

  lemma HexDigits(d: nat, c: Byte)
    ensures ReverseHex(c) < 16 <==> IsHex(c)
    ensures IsHex(c) ==> DigitHex(ReverseHex(c)) == Upper(c) && !IsSpace(c)
    ensures d < 16 ==> ReverseHex(DigitHex(d)) == d && IsHex(DigitHex(d))
  {
  }

  function EncodeHex(data: seq<Byte>): seq<Byte> {
    if data == [] then []
    else [DigitHex(data[0] as int / 16 % 16), DigitHex(data[0] as int % 16)] + EncodeHex(data[1..])
  }

  method EncodeHexString(data: seq<Byte>) returns (result: seq<Byte>)
    ensures result == EncodeHex(data)
  {
    hide DigitHex;
    result := [];
    assert data[0..] == data;
    for i := 0 to |data|
      invariant EncodeHex(data) == result + EncodeHex(data[i..])
    {
      assert data[i..][1..] == data[i + 1..];
      result := result + [DigitHex(data[i] as int / 16 % 16)];
      result := result + [DigitHex(data[i] as int % 16)];
    }
  }

  /** The hex decoder between two characters; half says that accum holds one of a pair. */
  datatype ScanHex = ScanHex(half: bool, accum: nat, out: seq<Byte>, error: Error)

  function StepHex(s: ScanHex, c: Byte): ScanHex {
    if IsSpace(c) then s
    else
      var decoded := ReverseHex(c);
      var accum := if decoded >= 16 then s.accum else (s.accum * 16 + decoded) % 256;
      var error := if decoded >= 16 then UnexpectedHex else s.error;
      if s.half then ScanHex(false, 0, s.out + [ByteOf(accum)], error) else ScanHex(true, accum, s.out, error)
  }

  function RunHex(s: ScanHex, text: seq<Byte>): ScanHex
    decreases |text|
  {
    if text == [] then s else RunHex(StepHex(s, text[0]), text[1..])
  }

  const START_HEX: ScanHex := ScanHex(false, 0, [], Fine)

  function FinishHex(s: ScanHex): Decoded {
    if s.half then Decoded(s.out + [ByteOf(s.accum)], OddLength) else Decoded(s.out, s.error)
  }

  /** hexDecodeToString */
  function DecodeHex(text: seq<Byte>): Decoded { FinishHex(RunHex(START_HEX, text)) }

  lemma RunHexFirst(s: ScanHex, text: seq<Byte>)
    requires text != []
    ensures RunHex(s, text) == RunHex(StepHex(s, text[0]), text[1..])
  {
  }

  lemma RunHexNone(s: ScanHex)
    ensures RunHex(s, []) == s
  {
  }

  method DecodeHexString(ubuf: seq<Byte>) returns (result: seq<Byte>, errorMessage: Error)
    ensures Decoded(result, errorMessage) == DecodeHex(ubuf)
  {
    hide RunHex, IsSpace, ReverseHex;
    result, errorMessage := [], Fine;
    var i := 0;
    ghost var at := START_HEX;
    assert ubuf[0..] == ubuf;
    while i < |ubuf|
      invariant i <= |ubuf| && RunHex(START_HEX, ubuf) == RunHex(at, ubuf[i..])
      invariant FinishHex(at) == Decoded(result, errorMessage)
      invariant i < |ubuf| ==> at == ScanHex(false, 0, result, errorMessage)
    {
      var j: nat, accum: nat := 0, 0;
      ghost var from := i;
      while j < 2 && i < |ubuf|
        invariant from <= i <= |ubuf| && j <= 2 && (i == from ==> j == 0)
        invariant RunHex(START_HEX, ubuf) == RunHex(at, ubuf[i..])
        invariant j == 0 ==> accum == 0
        invariant at == if j == 2 then ScanHex(false, 0, result + [ByteOf(accum)], errorMessage)
                        else ScanHex(j == 1, accum, result, errorMessage)
        decreases |ubuf| - i
      {
        var ch := ubuf[i];
        RunHexFirst(at, ubuf[i..]);
        assert ubuf[i..][1..] == ubuf[i + 1..];
        at := StepHex(at, ch);
        i := i + 1;
        if IsSpace(ch) { continue; }
        var decoded := ReverseHex(ch);
        if decoded >= 16 { errorMessage := UnexpectedHex; } else { accum := (accum * 16 + decoded) % 256; }
        j := j + 1;
      }
      if j != 0 { result := result + [ByteOf(accum)]; }
      if j == 1 { errorMessage := OddLength; }
    }
    assert ubuf[i..] == [];
    RunHexNone(at);
  }

  lemma {:induction false} SpacesIgnoredHex(s: ScanHex, text: seq<Byte>)
    ensures RunHex(s, text) == RunHex(s, Strip(text))
    decreases |text|
  {
    if text != [] {
      hide RunHex, IsSpace, ReverseHex;
      RunHexFirst(s, text);
      SpacesIgnoredHex(StepHex(s, text[0]), text[1..]);
      if !IsSpace(text[0]) {
        RunHexFirst(s, Strip(text));
        assert Strip(text)[1..] == Strip(text[1..]);
      } else {
        assert Strip(text) == Strip(text[1..]);
      }
    }
  }

  lemma StepHexFirst(a: nat, c: Byte, out: seq<Byte>, error: Error)
    requires ReverseHex(c) == a < 16 && !IsSpace(c)
    ensures StepHex(ScanHex(false, 0, out, error), c) == ScanHex(true, a, out, error)
  {
    hide ReverseHex, IsSpace;
  }

  lemma StepHexSecond(a: nat, b: nat, c: Byte, out: seq<Byte>, error: Error)
    requires a < 16 && ReverseHex(c) == b < 16 && !IsSpace(c)
    ensures StepHex(ScanHex(true, a, out, error), c) == ScanHex(false, 0, out + [ByteOf(16 * a + b)], error)
  {
    hide ReverseHex, IsSpace, ByteOf;
    assert a * 16 + b == 16 * a + b < 256;
  }

  /** Two hex digits are one byte. */
  lemma PairHex(a: nat, b: nat, rest: seq<Byte>, out: seq<Byte>, error: Error)
    requires a < 16 && b < 16
    ensures RunHex(ScanHex(false, 0, out, error), [DigitHex(a), DigitHex(b)] + rest)
         == RunHex(ScanHex(false, 0, out + [ByteOf(16 * a + b)], error), rest)
  {
    hide *;
    var t := [DigitHex(a), DigitHex(b)] + rest;
    DigitOf(a);
    DigitOf(b);
    RunHexFirst(ScanHex(false, 0, out, error), t);
    StepHexFirst(a, t[0], out, error);
    RunHexFirst(ScanHex(true, a, out, error), t[1..]);
    StepHexSecond(a, b, t[1], out, error);
    assert t[1..][1..] == rest && t[1..][0] == t[1];
  }

  lemma DigitOf(d: nat)
    requires d < 16
    ensures ReverseHex(DigitHex(d)) == d && !IsSpace(DigitHex(d))
  {
  }

  lemma Nibbles(c: Byte)
    ensures c as int / 16 % 16 == c as int / 16 < 16 && ByteOf(16 * (c as int / 16) + c as int % 16) == c
  {
  }

  lemma {:induction false} RunHexOfEncoded(data: seq<Byte>, out: seq<Byte>)
    ensures RunHex(ScanHex(false, 0, out, Fine), EncodeHex(data)) == ScanHex(false, 0, out + data, Fine)
    decreases |data|
  {
    if data == [] {
      assert out + [] == out;
    } else {
      hide RunHex, DigitHex, ByteOf;
      Nibbles(data[0]);
      PairHex(data[0] as int / 16, data[0] as int % 16, EncodeHex(data[1..]), out, Fine);
      RunHexOfEncoded(data[1..], out + [data[0]]);
      assert out + [data[0]] + data[1..] == out + data;
    }
  }

  /** Hex text with white space inserted anywhere decodes to the data, without an error. */
  lemma RoundTripHex(data: seq<Byte>, text: seq<Byte>)
    requires Strip(text) == EncodeHex(data)
    ensures DecodeHex(text) == Decoded(data, Fine)
  {
    hide RunHex, EncodeHex, Strip;
    SpacesIgnoredHex(START_HEX, text);
    RunHexOfEncoded(data, []);
    assert [] + data == data;
  }

  // ---------- which hex texts decode without an error ----------

  predicate AllHex(s: seq<Byte>) {
    s == [] || (IsHex(s[0]) && AllHex(s[1..]))
  }

  function UpperAll(s: seq<Byte>): seq<Byte> {
    if s == [] then [] else [Upper(s[0])] + UpperAll(s[1..])
  }

  /** What the scanner has taken in, as text: its output encoded, and the half of a pair. */
  function Encoded(s: ScanHex): seq<Byte>
    requires s.accum < 16
  {
    EncodeHex(s.out) + if s.half then [DigitHex(s.accum)] else []
  }

  ghost predicate ScanOk(s: ScanHex) { s.accum < 16 && (!s.half ==> s.accum == 0) }

  lemma {:induction false} EncodeHexSnoc(data: seq<Byte>, c: Byte)
    ensures EncodeHex(data + [c]) == EncodeHex(data) + [DigitHex(c as int / 16 % 16), DigitHex(c as int % 16)]
  {
    hide DigitHex;
    if data == [] {
      assert [c][1..] == [] && data + [c] == [c];
    } else {
      EncodeHexSnoc(data[1..], c);
      assert (data + [c])[1..] == data[1..] + [c];
    }
  }

  lemma PairOfByte(a: nat, d: nat)
    requires a < 16 && d < 16
    ensures (a * 16 + d) % 256 == a * 16 + d && ByteOf(a * 16 + d) as int == a * 16 + d
    ensures (a * 16 + d) / 16 % 16 == a && (a * 16 + d) % 16 == d
  {
  }

  /** A hex digit taken in adds itself, in upper case, to the text. */
  lemma StepHexDigit(s: ScanHex, c: Byte)
    requires ScanOk(s) && IsHex(c)
    ensures ScanOk(StepHex(s, c)) && StepHex(s, c).error == s.error && StepHex(s, c).half == !s.half
    ensures Encoded(StepHex(s, c)) == Encoded(s) + [Upper(c)]
  {
    hide EncodeHex, DigitHex, Upper, IsHex;
    var d := ReverseHex(c);
    HexDigits(0, c);
    if s.half {
      var v := ByteOf(s.accum * 16 + d);
      PairOfByte(s.accum, d);
      EncodeHexSnoc(s.out, v);
    }
  }

  /** An error, once there, stays. */
  lemma {:induction false} ErrorStaysHex(s: ScanHex, text: seq<Byte>)
    requires s.error != Fine
    ensures RunHex(s, text).error != Fine
    decreases |text|
  {
    hide IsSpace, ReverseHex;
    if text != [] { ErrorStaysHex(StepHex(s, text[0]), text[1..]); }
  }

  predicate Odd(n: nat) { n % 2 == 1 }

  lemma OddStep(n: nat)
    requires n > 0
    ensures Odd(n) <==> !Odd(n - 1)
  {
  }

  lemma {:induction false} ScanHexText(s: ScanHex, text: seq<Byte>)
    requires ScanOk(s) && s.error == Fine && SpaceFree(text)
    ensures RunHex(s, text).error == Fine <==> AllHex(text)
    ensures AllHex(text) ==> var r := RunHex(s, text); ScanOk(r) && Encoded(r) == Encoded(s) + UpperAll(text)
    ensures AllHex(text) ==> (RunHex(s, text).half <==> s.half != Odd(|text|))
    decreases |text|
  {
    if text == [] {
      RunHexNone(s);
      assert Encoded(s) + [] == Encoded(s);
    } else {
      hide RunHex, IsSpace, ReverseHex, IsHex, Upper, Encoded, StepHex, Odd;
      RunHexFirst(s, text);
      HexDigits(0, text[0]);
      if IsHex(text[0]) {
        StepHexDigit(s, text[0]);
        OddStep(|text|);
        ScanHexText(StepHex(s, text[0]), text[1..]);
        assert Encoded(s) + [Upper(text[0])] + UpperAll(text[1..]) == Encoded(s) + UpperAll(text);
      } else {
        ErrorStaysHex(StepHex(s, text[0]), text[1..]);
      }
    }
  }

  /** The error message stays empty exactly for an even number of hex digits, white space
      aside; encoding what was decoded then gives the text in upper case. */
  lemma ErrorFreeHex(text: seq<Byte>)
    ensures DecodeHex(text).error == Fine <==> AllHex(Strip(text)) && |Strip(text)| % 2 == 0
    ensures DecodeHex(text).error == Fine ==> EncodeHex(DecodeHex(text).data) == UpperAll(Strip(text))
  {
    hide RunHex, Strip, AllHex, UpperAll, DigitHex;
    SpacesIgnoredHex(START_HEX, text);
    StripIsSpaceFree(text);
    ScanHexText(START_HEX, Strip(text));
    assert [] + UpperAll(Strip(text)) == UpperAll(Strip(text));
  }

  // ---------- what the texts are, by the characters of the maps ----------

  const CAPITALS: string := "ABCDEFGHIJKLMNOPQRSTUVWXYZ"
  const SMALLS: string := "abcdefghijklmnopqrstuvwxyz"
  const MAP64: string := CAPITALS + SMALLS + "0123456789" + "+/"
  const MAP16: string := "0123456789ABCDEF"

  lemma CapitalAt(d: nat)
    requires d < 26
    ensures |CAPITALS| == 26 && CAPITALS[d] == ('A' as int + d) as char
  {
  }

  lemma SmallAt(d: nat)
    requires d < 26
    ensures |SMALLS| == 26 && SMALLS[d] == ('a' as int + d) as char
  {
  }

  lemma NumeralAt(d: nat)
    requires d < 10
    ensures "0123456789"[d] == ('0' as int + d) as char
  {
  }

  /** sMapBase64 and its reverse, character by character. */
  lemma Map64(d: nat)
    requires d < 64
    ensures |MAP64| == 64 && Digit64(d) == MAP64[d] && IsDigit64(MAP64[d]) && Value64(MAP64[d]) == d
  {
    CapitalAt(if d < 26 then d else 0);
    SmallAt(if 26 <= d < 52 then d - 26 else 0);
    NumeralAt(if 52 <= d < 62 then d - 52 else 0);
    hide CAPITALS, SMALLS;
  }

  lemma Map64Has(c: Byte)
    ensures IsDigit64(c) <==> c in MAP64
  {
    if IsDigit64(c) {
      Map64(Value64(c));
      assert c == MAP64[Value64(c)];
    } else if c in MAP64 {
      var d :| 0 <= d < |MAP64| && MAP64[d] == c;
      Map64(d);
    }
  }

  lemma Map16(d: nat)
    requires d < 16
    ensures |MAP16| == 16 && DigitHex(d) == MAP16[d] && ReverseHex(MAP16[d]) == d
  {
  }

  lemma Map16Has(c: Byte)
    ensures IsHex(c) <==> c in MAP16 || c in "abcdef"
    ensures IsHex(c) ==> Upper(c) in MAP16
  {
    if IsHex(c) {
      Map16(ReverseHex(c));
      HexDigits(0, c);
      assert Upper(c) == MAP16[ReverseHex(c)];
      if 'a' <= c <= 'f' { assert c == "abcdef"[c as int - 'a' as int]; }
    } else if c in MAP16 {
      var d :| 0 <= d < |MAP16| && MAP16[d] == c;
      Map16(d);
    }
  }

  /** isspace() in the C locale: tab, newline, vertical tab, form feed, carriage return, space. */
  lemma Spaces(c: Byte)
    ensures IsSpace(c) <==> c as int in {9, 10, 11, 12, 13, 32}
  {
  }

  /** The number that the characters of MAP16 stand for, with acc in front. */
  function Number16(acc: nat, text: seq<Byte>): nat
    decreases |text|
  {
    if text == [] then acc
    else
      Number16(acc * 16 + (if '0' <= text[0] <= '9' then text[0] as nat - '0' as nat
                           else if text[0] >= 'A' then text[0] as nat - 'A' as nat + 10 else 0), text[1..])
  }

  /** Two upper-case hexadecimal digits for each byte, which are the same number. */
  ghost predicate IsHexOf(text: seq<Byte>, data: seq<Byte>) {
    && |text| == 2 * |data| && (forall i :: 0 <= i < |text| ==> text[i] in MAP16)
    && Number16(0, text) == Number256(0, data)
  }

  lemma HexDigitNumber(acc: nat, d: nat, rest: seq<Byte>)
    requires d < 16
    ensures Number16(acc, [DigitHex(d)] + rest) == Number16(acc * 16 + d, rest)
  {
    assert ([DigitHex(d)] + rest)[1..] == rest;
  }

  lemma {:induction false} HexNumber(acc: nat, data: seq<Byte>)
    ensures var t := EncodeHex(data);
      |t| == 2 * |data| && Number16(acc, t) == Number256(acc, data) && forall i :: 0 <= i < |t| ==> t[i] in MAP16
    decreases |data|
  {
    if data != [] {
      var high, low, rest := data[0] as int / 16 % 16, data[0] as int % 16, EncodeHex(data[1..]);
      Nibbles(data[0]);
      assert high * 16 + low == data[0] as int;
      assert EncodeHex(data) == [DigitHex(high)] + ([DigitHex(low)] + rest);
      Map16(high);
      Map16(low);
      HexNumber(acc * 256 + data[0] as int, data[1..]);
      HexDigitNumber(acc, high, [DigitHex(low)] + rest);
      HexDigitNumber(acc * 16 + high, low, rest);
      hide Number16, DigitHex, MAP16;
      assert (acc * 16 + high) * 16 + low == acc * 256 + data[0] as int;
    }
  }

  lemma HexIsHexOf(data: seq<Byte>)
    ensures IsHexOf(EncodeHex(data), data)
  {
    HexNumber(0, data);
  }

  /** Four characters for each three bytes or last one or two, for which two or one '=' end the
      text; the others are characters of the map, and as a number to base 64 they are the bytes
      with as many zero bits behind them as fill the last character. */
  ghost predicate Is64Of(text: seq<Byte>, data: seq<Byte>) {
    exists groups: nat, pad: nat :: InGroups(text, data, groups, pad)
  }

  ghost predicate InGroups(text: seq<Byte>, data: seq<Byte>, groups: nat, pad: nat) {
    pad < 3 && |data| + pad == 3 * groups && |text| == 4 * groups && Padded64(0, text, data, pad)
  }

  ghost predicate Padded64(acc: nat, text: seq<Byte>, data: seq<Byte>, pad: nat) {
    && pad <= |text|
    && var n := |text| - pad;
       && (forall i :: 0 <= i < n ==> text[i] in MAP64) && (forall i :: n <= i < |text| ==> text[i] == '=')
       && Number64(acc, text[..n]) == Number256(acc, data) * (if pad == 0 then 1 else if pad == 1 then 4 else 16)
  }

  lemma {:induction false} Base64Number(acc: nat, data: seq<Byte>, groups: nat, pad: nat)
    requires pad < 3 && |data| + pad == 3 * groups
    ensures |Encode64(data)| == 4 * groups && Padded64(acc, Encode64(data), data, pad)
    decreases groups
  {
    hide *;
    if groups == 0 {
      Encode64None();
      NothingPadded(acc);
    } else if groups == 1 && pad > 0 {
      LastNumber(acc, data);
    } else {
      var head, tail := data[..3], data[3..];
      Encode64Group(data);
      Base64Number(acc * 16777216 + Accumulate(head), tail, groups - 1, pad);
      GroupBefore(acc, head, tail, Encode64(tail), pad);
      assert head + tail == data;
    }
  }

  lemma NothingPadded(acc: nat)
    ensures Padded64(acc, [], [], 0)
  {
    NumbersEnd(acc);
  }

  lemma GroupInMap(data: seq<Byte>)
    ensures var g := Group64(data);
      && g[0] in MAP64 && g[1] in MAP64
      && (|data| >= 2 ==> g[2] in MAP64) && (|data| >= 3 ==> g[3] in MAP64)
  {
    var a := Accumulate(data);
    Map64(Sextet(a, 0));
    Map64(Sextet(a, 1));
    Map64(Sextet(a, 2));
    Map64(Sextet(a, 3));
    hide Digit64, Sextet, MAP64;
  }

  lemma GroupBefore(acc: nat, head: seq<Byte>, tail: seq<Byte>, text: seq<Byte>, pad: nat)
    requires |head| == 3 && pad < 3 && Padded64(acc * 16777216 + Accumulate(head), text, tail, pad)
    ensures Padded64(acc, Group64(head) + text, head + tail, pad)
  {
    hide Number64, Number256, Accumulate, MAP64;
    var g, n := Group64(head), |text| - pad;
    GroupInMap(head);
    hide Group64;
    assert (g + text)[..n + 4] == g + text[..n];
    GroupNumber(acc, head, text[..n]);
    ThreeBytesNumber(acc, head, tail);
    forall i | 0 <= i < n + 4 ensures (g + text)[i] in MAP64 { if i >= 4 { assert (g + text)[i] == text[i - 4]; } }
  }

  lemma LastNumber(acc: nat, data: seq<Byte>)
    requires 1 <= |data| <= 2
    ensures Encode64(data) == Group64(data) && Padded64(acc, Group64(data), data, 3 - |data|)
  {
    assert Encode64(data) == Group64(data);
    var a := Accumulate(data);
    hide *;
    GroupInMap(data);
    GroupEnds(data);
    AccumulateBound(data);
    SextetsOf(a);
    NumberOfLast(acc, data, a);
    LastPadded(acc, Group64(data), data, 3 - |data|);
  }

  lemma GroupEnds(data: seq<Byte>)
    ensures |data| <= 2 ==> Group64(data)[3] == '='
    ensures |data| <= 1 ==> Group64(data)[2] == '='
  {
    hide Digit64, Sextet;
  }

  lemma LastPadded(acc: nat, g: seq<Byte>, data: seq<Byte>, pad: nat)
    requires |g| == 4 && 1 <= pad <= 2 && g[0] in MAP64 && g[1] in MAP64 && (pad == 1 ==> g[2] in MAP64)
    requires g[3] == '=' && (pad == 2 ==> g[2] == '=')
    requires Number64(acc, g[..4 - pad]) == Number256(acc, data) * if pad == 1 then 4 else 16
    ensures Padded64(acc, g, data, pad)
  {
    hide MAP64, Number64, Number256;
    forall i | 0 <= i < 4 - pad ensures g[i] in MAP64 { assert i == 0 || i == 1 || i == 2; }
    forall i | 4 - pad <= i < 4 ensures g[i] == '=' { assert i == 2 || i == 3; }
  }

  lemma NumberOfLast(acc: nat, data: seq<Byte>, a: nat)
    requires 1 <= |data| <= 2 && a == Accumulate(data) && a < 16777216
    requires Sextet(a, 3) * 262144 + Sextet(a, 2) * 4096 + Sextet(a, 1) * 64 + Sextet(a, 0) == a
    ensures Number64(acc, Group64(data)[..|data| + 1]) == Number256(acc, data) * if |data| == 1 then 16 else 4
  {
    hide Digit64, Number64, Number256;
    var g := Group64(data);
    var d1, d2, d3, d4 := Sextet(a, 3), Sextet(a, 2), Sextet(a, 1), Sextet(a, 0);
    hide Sextet;
    if |data| == 1 {
      LastOne(acc, data[0], d1, d2, d3, d4);
      assert g[..2] == [Digit64(d1)] + ([Digit64(d2)] + []) && data == [data[0]] + [];
    } else {
      LastTwo(acc, data[0], data[1], d1, d2, d3, d4);
      assert g[..3] == [Digit64(d1)] + ([Digit64(d2)] + ([Digit64(d3)] + [])) && data == [data[0]] + ([data[1]] + []);
    }
  }

  lemma LastOne(acc: nat, x: Byte, d1: nat, d2: nat, d3: nat, d4: nat)
    requires d1 < 64 && d2 < 64 && d3 < 64 && d4 < 64
    requires d1 * 262144 + d2 * 4096 + d3 * 64 + d4 == x as int * 65536
    ensures Number64(acc, [Digit64(d1)] + ([Digit64(d2)] + [])) == Number256(acc, [x] + []) * 16
  {
    hide Digit64, Number64, Number256;
    DigitOfNumber(acc, d1, [Digit64(d2)] + []);
    DigitOfNumber(acc * 64 + d1, d2, []);
    ByteOfNumber(acc, x, []);
    NumbersEnd((acc * 64 + d1) * 64 + d2);
    NumbersEnd(acc * 256 + x as int);
    assert d1 * 64 + d2 == x as int * 16;
  }

  lemma LastTwo(acc: nat, x: Byte, y: Byte, d1: nat, d2: nat, d3: nat, d4: nat)
    requires d1 < 64 && d2 < 64 && d3 < 64 && d4 < 64
    requires d1 * 262144 + d2 * 4096 + d3 * 64 + d4 == x as int * 65536 + y as int * 256
    ensures Number64(acc, [Digit64(d1)] + ([Digit64(d2)] + ([Digit64(d3)] + []))) == Number256(acc, [x] + ([y] + [])) * 4
  {
    hide Digit64, Number64, Number256;
    DigitOfNumber(acc, d1, [Digit64(d2)] + ([Digit64(d3)] + []));
    DigitOfNumber(acc * 64 + d1, d2, [Digit64(d3)] + []);
    DigitOfNumber((acc * 64 + d1) * 64 + d2, d3, []);
    ByteOfNumber(acc, x, [y] + []);
    ByteOfNumber(acc * 256 + x as int, y, []);
    NumbersEnd(((acc * 64 + d1) * 64 + d2) * 64 + d3);
    NumbersEnd((acc * 256 + x as int) * 256 + y as int);
    assert d1 * 4096 + d2 * 64 + d3 == x as int * 1024 + y as int * 4;
  }

  lemma NumbersEnd(acc: nat)
    ensures Number64(acc, []) == acc && Number256(acc, []) == acc
  {
  }

  lemma Base64Is64Of(data: seq<Byte>, groups: nat, pad: nat)
    requires pad < 3 && |data| + pad == 3 * groups
    ensures Is64Of(Encode64(data), data)
  {
    Base64Number(0, data, groups, pad);
    assert InGroups(Encode64(data), data, groups, pad);
  }

  /** Characters of the map, then any number of '='. */
  ghost predicate MapThenPadding(s: seq<Byte>) {
    exists n: nat :: SplitAt(s, n)
  }

  predicate SplitAt(s: seq<Byte>, n: nat) {
    n <= |s| && (forall i :: 0 <= i < n ==> s[i] in MAP64) && forall i :: n <= i < |s| ==> s[i] == '='
  }

  lemma {:induction false} ProperIsPadded(s: seq<Byte>)
    ensures Proper64(s) <==> MapThenPadding(s)
  {
    if s == [] {
      assert SplitAt(s, 0);
    } else {
      ProperIsPadded(s[1..]);
      Map64Has(s[0]);
      Map64Has('=');
      hide MAP64, IsDigit64;
      if s[0] == '=' { PaddingFirst(s); } else { MapFirst(s); }
    }
  }

  lemma PaddingFirst(s: seq<Byte>)
    requires s != [] && s[0] == '=' && '=' !in MAP64
    ensures OnlyPadding(s[1..]) <==> MapThenPadding(s)
  {
    hide MAP64;
    if OnlyPadding(s[1..]) {
      forall i | 0 <= i < |s| ensures s[i] == '=' { if i > 0 { assert s[1..][i - 1] == s[i]; } }
      assert SplitAt(s, 0);
    }
    if MapThenPadding(s) {
      var n: nat :| SplitAt(s, n);
      assert n == 0;
      forall i | 0 <= i < |s[1..]| ensures s[1..][i] == '=' { assert s[1..][i] == s[i + 1]; }
    }
  }

  lemma MapFirst(s: seq<Byte>)
    requires s != [] && s[0] != '='
    ensures MapThenPadding(s) <==> s[0] in MAP64 && MapThenPadding(s[1..])
  {
    hide MAP64;
    if MapThenPadding(s) {
      var n: nat :| SplitAt(s, n);
      assert n > 0;
      MapRest(s, n);
    }
    if s[0] in MAP64 && MapThenPadding(s[1..]) {
      var t := s[1..];
      var n: nat :| SplitAt(t, n);
      forall i | 0 <= i < n + 1 ensures s[i] in MAP64 { if i > 0 { assert s[i] == t[i - 1]; } }
      forall i | n + 1 <= i < |s| ensures s[i] == '=' { assert s[i] == t[i - 1]; }
      assert SplitAt(s, n + 1);
    }
  }

  lemma MapRest(s: seq<Byte>, n: nat)
    requires n > 0 && SplitAt(s, n)
    ensures MapThenPadding(s[1..])
  {
    hide MAP64;
    var t := s[1..];
    forall i | 0 <= i < n - 1 ensures t[i] in MAP64 { assert t[i] == s[i + 1]; }
    forall i | n - 1 <= i < |t| ensures t[i] == '=' { assert t[i] == s[i + 1]; }
    assert SplitAt(t, n - 1);
  }

  /** Hexadecimal digits, in capital or small letters. */
  predicate HexDigitsOnly(s: seq<Byte>) { forall i :: 0 <= i < |s| ==> s[i] in MAP16 || s[i] in "abcdef" }

  lemma {:induction false} AllHexIs(s: seq<Byte>)
    ensures AllHex(s) <==> HexDigitsOnly(s)
    ensures |UpperAll(s)| == |s|
  {
    if s != [] {
      AllHexIs(s[1..]);
      Map16Has(s[0]);
      hide MAP16, IsHex, Upper;
      if HexDigitsOnly(s[1..]) && IsHex(s[0]) {
        forall i | 0 <= i < |s| ensures s[i] in MAP16 || s[i] in "abcdef" { if i > 0 { assert s[i] == s[1..][i - 1]; } }
      }
      if HexDigitsOnly(s) {
        forall i | 0 <= i < |s[1..]| ensures s[1..][i] in MAP16 || s[1..][i] in "abcdef" { assert s[1..][i] == s[i + 1]; }
      }
    }
  }

  // ---------- what base64 of any length decodes to ----------

  predicate AllDigits64(s: seq<Byte>) { forall i :: 0 <= i < |s| ==> IsDigit64(s[i]) }

  /** The bytes for r characters that are left over, and how the numbers compare. */
  function LeftOver(r: nat): nat { if r == 0 then 0 else if r < 3 then 1 else 2 }

  predicate SameUpTo(r: nat, sixtyFour: nat, bytes: nat) {
    if r == 0 then bytes == sixtyFour
    else if r == 1 then bytes == 4 * sixtyFour
    else if r == 2 then bytes == sixtyFour / 16
    else bytes == sixtyFour / 4
  }

  lemma DigitStep(s: Scan64, t: seq<Byte>)
    requires s.Open? && t != [] && IsDigit64(t[0])
    ensures var d := Value64(t[0]);
      && Step64(s, t[0]) == (var a := s.accum + Place(s.count, d);
                             if s.count == 3 then Open(0, 0, s.out + Bytes(4, a), s.error)
                             else Open(s.count + 1, a, s.out, s.error))
      && Run64(s, t) == Run64(Step64(s, t[0]), t[1..])
      && forall acc: nat :: Number64(acc, t) == Number64(acc * 64 + d, t[1..])
  {
    hide Bytes, Place, Value64;
    assert !IsSpace(t[0]) && t[0] != '=' by { DigitIsNoSpace(t[0]); }
  }

  lemma DigitIsNoSpace(c: Byte)
    requires IsDigit64(c)
    ensures !IsSpace(c) && c != '='
  {
  }

  /** The number of a group, and the three bytes it comes out as. */
  lemma GroupBytes(acc: nat, d1: nat, d2: nat, d3: nat, d4: nat)
    requires d1 < 64 && d2 < 64 && d3 < 64 && d4 < 64
    ensures var a := d1 * 262144 + d2 * 4096 + d3 * 64 + d4;
      && |Bytes(4, a)| == 3
      && forall rest: seq<Byte> :: Number256(acc, Bytes(4, a) + rest) == Number256(acc * 16777216 + a, rest)
  {
    var a := d1 * 262144 + d2 * 4096 + d3 * 64 + d4;
    BytesAre(a);
    var b := Bytes(4, a);
    hide Number256, Bytes, Accumulate, ByteOf;
    assert Accumulate(b) == a by { AccumulateOf(b, a); }
    forall rest: seq<Byte> ensures Number256(acc, b + rest) == Number256(acc * 16777216 + a, rest) {
      ThreeBytesNumber(acc, b, rest);
    }
  }

  lemma AccumulateOf(b: seq<Byte>, a: nat)
    requires |b| == 3 && b[0] as int * 65536 + b[1] as int * 256 + b[2] as int == a
    ensures Accumulate(b) == a
  {
  }

  lemma BytesAre(a: nat)
    requires a < 16777216
    ensures var b := Bytes(4, a);
      |b| == 3 && b[0] as int * 65536 + b[1] as int * 256 + b[2] as int == a
  {
    var x, y, z := a / 65536, a / 256 % 256, a % 256;
    Places(a);
    assert ByteOf(a / 65536) as int == x;
    assert ByteOf(a / 256) as int == y && ByteOf(a) as int == z;
  }

  lemma Places(a: nat)
    requires a < 16777216
    ensures a / 65536 < 256 && a / 65536 * 65536 + a / 256 % 256 * 256 + a % 256 == a
  {
    var q := a / 256;
    assert a == q * 256 + a % 256 && q == q / 256 * 256 + q % 256;
    assert q / 256 == a / 65536;
  }

  /** Characters of the map without '=', in groups of four and r left over: the bytes that come
      out are the same number, less the bits that do not fill a byte; a single character left
      over fills the upper six bits of one. */
  lemma {:induction false} DigitsDecode(acc: nat, t: seq<Byte>, groups: nat, r: nat, out: seq<Byte>)
    returns (bytes: seq<Byte>)
    requires AllDigits64(t) && r < 4 && |t| == 4 * groups + r
    ensures Finish64(Run64(Open(0, 0, out, Fine), t)) == Decoded(out + bytes, Fine)
    ensures |bytes| == 3 * groups + LeftOver(r) && SameUpTo(r, Number64(acc, t), Number256(acc, bytes))
    decreases groups
  {
    if groups == 0 {
      bytes := LastDigits(acc, t, r, out);
    } else {
      hide Run64, Step64, IsDigit64, Value64, Number64, Number256, Bytes, Finish64, SameUpTo, LeftOver;
      var d1, d2, d3, d4 := Value64(t[0]), Value64(t[1]), Value64(t[2]), Value64(t[3]);
      var a := d1 * 262144 + d2 * 4096 + d3 * 64 + d4;
      GroupOfFour(acc, t, out, a);
      var rest := DigitsDecode(acc * 16777216 + a, t[4..], groups - 1, r, out + Bytes(4, a));
      GroupBytes(acc, d1, d2, d3, d4);
      bytes := Bytes(4, a) + rest;
      assert out + Bytes(4, a) + rest == out + bytes;
    }
  }

  lemma GroupOfFour(acc: nat, t: seq<Byte>, out: seq<Byte>, a: nat)
    requires |t| >= 4 && AllDigits64(t)
    requires a == Value64(t[0]) * 262144 + Value64(t[1]) * 4096 + Value64(t[2]) * 64 + Value64(t[3])
    ensures Run64(Open(0, 0, out, Fine), t) == Run64(Open(0, 0, out + Bytes(4, a), Fine), t[4..])
    ensures Number64(acc, t) == Number64(acc * 16777216 + a, t[4..])
  {
    hide Run64, Step64, IsDigit64, Value64, Number64, Bytes;
    var d1, d2, d3, d4 := Value64(t[0]), Value64(t[1]), Value64(t[2]), Value64(t[3]);
    DigitStep(Open(0, 0, out, Fine), t);
    DigitStep(Open(1, d1 * 262144, out, Fine), t[1..]);
    DigitStep(Open(2, d1 * 262144 + d2 * 4096, out, Fine), t[2..]);
    DigitStep(Open(3, d1 * 262144 + d2 * 4096 + d3 * 64, out, Fine), t[3..]);
    assert t[1..][1..] == t[2..] && t[2..][1..] == t[3..] && t[3..][1..] == t[4..];
  }

  lemma LastDigits(acc: nat, t: seq<Byte>, r: nat, out: seq<Byte>) returns (bytes: seq<Byte>)
    requires AllDigits64(t) && r < 4 && |t| == r
    ensures Finish64(Run64(Open(0, 0, out, Fine), t)) == Decoded(out + bytes, Fine)
    ensures |bytes| == LeftOver(r) && SameUpTo(r, Number64(acc, t), Number256(acc, bytes))
  {
    var d1, d2, d3 := if r > 0 then Value64(t[0]) else 0, if r > 1 then Value64(t[1]) else 0, if r > 2 then Value64(t[2]) else 0;
    var a := d1 * 262144 + d2 * 4096 + d3 * 64;
    LeftOverBytes(acc, d1, d2, d3, r);
    bytes := Bytes(r, a);
    hide *;
    FinishOpen(r, a, out);
    if r == 0 {
      Run64None(Open(0, 0, out, Fine));
      NumbersEnd(acc);
    } else if r == 1 {
      OneDigit(acc, t, out);
    } else if r == 2 {
      TwoDigits(acc, t, out);
    } else {
      ThreeDigits(acc, t, out);
    }
  }

  lemma FinishOpen(count: Count, accum: nat, out: seq<Byte>)
    ensures Finish64(Open(count, accum, out, Fine)) == Decoded(out + Bytes(count, accum), Fine)
  {
  }

  lemma OneDigit(acc: nat, t: seq<Byte>, out: seq<Byte>)
    requires AllDigits64(t) && |t| == 1
    ensures Run64(Open(0, 0, out, Fine), t) == Open(1, Value64(t[0]) * 262144, out, Fine)
    ensures Number64(acc, t) == acc * 64 + Value64(t[0])
  {
    hide Run64, Step64, IsDigit64, Value64, Number64, Bytes;
    DigitStep(Open(0, 0, out, Fine), t);
    assert t[1..] == [];
    Run64None(Open(1, Value64(t[0]) * 262144, out, Fine));
    NumbersEnd(acc * 64 + Value64(t[0]));
  }

  lemma TwoDigits(acc: nat, t: seq<Byte>, out: seq<Byte>)
    requires AllDigits64(t) && |t| == 2
    ensures Run64(Open(0, 0, out, Fine), t) == Open(2, Value64(t[0]) * 262144 + Value64(t[1]) * 4096, out, Fine)
    ensures Number64(acc, t) == (acc * 64 + Value64(t[0])) * 64 + Value64(t[1])
  {
    hide Run64, Step64, IsDigit64, Value64, Number64, Bytes;
    var s1 := Open(1, Value64(t[0]) * 262144, out, Fine);
    DigitStep(Open(0, 0, out, Fine), t);
    DigitStep(s1, t[1..]);
    assert t[1..][1..] == [];
    Run64None(Open(2, s1.accum + Value64(t[1]) * 4096, out, Fine));
    NumbersEnd((acc * 64 + Value64(t[0])) * 64 + Value64(t[1]));
  }

  lemma ThreeDigits(acc: nat, t: seq<Byte>, out: seq<Byte>)
    requires AllDigits64(t) && |t| == 3
    ensures Run64(Open(0, 0, out, Fine), t)
         == Open(3, Value64(t[0]) * 262144 + Value64(t[1]) * 4096 + Value64(t[2]) * 64, out, Fine)
    ensures Number64(acc, t) == ((acc * 64 + Value64(t[0])) * 64 + Value64(t[1])) * 64 + Value64(t[2])
  {
    hide Run64, Step64, IsDigit64, Value64, Number64, Bytes;
    var s1 := Open(1, Value64(t[0]) * 262144, out, Fine);
    var s2 := Open(2, s1.accum + Value64(t[1]) * 4096, out, Fine);
    DigitStep(Open(0, 0, out, Fine), t);
    DigitStep(s1, t[1..]);
    DigitStep(s2, t[2..]);
    assert t[1..][1..] == t[2..] && t[2..][1..] == [];
    Run64None(Open(3, s2.accum + Value64(t[2]) * 64, out, Fine));
    NumbersEnd(((acc * 64 + Value64(t[0])) * 64 + Value64(t[1])) * 64 + Value64(t[2]));
  }

  lemma LeftOverBytes(acc: nat, d1: nat, d2: nat, d3: nat, r: nat)
    requires r < 4 && d1 < 64 && d2 < 64 && d3 < 64 && (r < 1 ==> d1 == 0) && (r < 2 ==> d2 == 0) && (r < 3 ==> d3 == 0)
    ensures var b := Bytes(r, d1 * 262144 + d2 * 4096 + d3 * 64);
      var n := if r == 0 then acc else if r == 1 then acc * 64 + d1
               else if r == 2 then (acc * 64 + d1) * 64 + d2 else ((acc * 64 + d1) * 64 + d2) * 64 + d3;
      |b| == LeftOver(r) && SameUpTo(r, n, Number256(acc, b))
  {
    var a := d1 * 262144 + d2 * 4096 + d3 * 64;
    var b := Bytes(r, a);
    NumbersEnd(acc);
    if r == 1 || r == 2 {
      TopOfThree(d1, d2, d3);
      assert b == [ByteOf(a / 65536)] + [];
      ByteOfNumber(acc, b[0], []);
      NumbersEnd(acc * 256 + b[0] as int);
      SixteenthOf(acc, d1, d2);
    } else if r == 3 {
      TopOfThree(d1, d2, d3);
      assert b == [ByteOf(a / 65536)] + ([ByteOf(a / 256)] + []);
      ByteOfNumber(acc, b[0], [b[1]] + []);
      ByteOfNumber(acc * 256 + b[0] as int, b[1], []);
      NumbersEnd((acc * 256 + b[0] as int) * 256 + b[1] as int);
      QuarterOf(acc, d1, d2, d3);
    }
  }

  /** The upper two bytes of a group of which the last character is missing. */
  lemma TopOfThree(d1: nat, d2: nat, d3: nat)
    requires d1 < 64 && d2 < 64 && d3 < 64
    ensures var a := d1 * 262144 + d2 * 4096 + d3 * 64;
      ByteOf(a / 65536) as int == d1 * 4 + d2 / 16 && ByteOf(a / 256) as int == d2 % 16 * 16 + d3 / 4
  {
    var a := d1 * 262144 + d2 * 4096 + d3 * 64;
    var q2, r2, q3, r3 := d2 / 16, d2 % 16, d3 / 4, d3 % 4;
    assert a == (d1 * 4 + q2) * 65536 + (r2 * 16 + q3) * 256 + r3 * 64;
    PlacesAre(d1 * 4 + q2, r2 * 16 + q3, r3 * 64, a);
  }

  lemma PlacesAre(x: nat, y: nat, z: nat, a: nat)
    requires x < 256 && y < 256 && z < 256 && a == x * 65536 + y * 256 + z
    ensures ByteOf(a / 65536) as int == x && ByteOf(a / 256) as int == y
  {
    ByteParts(x, y, z);
  }

  lemma SixteenthOf(acc: nat, d1: nat, d2: nat)
    requires d2 < 64
    ensures ((acc * 64 + d1) * 64 + d2) / 16 == acc * 256 + (d1 * 4 + d2 / 16)
  {
  }

  lemma QuarterOf(acc: nat, d1: nat, d2: nat, d3: nat)
    requires d2 < 64 && d3 < 64
    ensures (((acc * 64 + d1) * 64 + d2) * 64 + d3) / 4
         == (acc * 256 + (d1 * 4 + d2 / 16)) * 256 + (d2 % 16 * 16 + d3 / 4)
  {
    assert d2 == d2 / 16 * 16 + d2 % 16 && d3 == d3 / 4 * 4 + d3 % 4;
  }

  lemma {:induction false} Run64Append(s: Scan64, a: seq<Byte>, b: seq<Byte>)
    ensures Run64(s, a + b) == Run64(Run64(s, a), b)
    decreases |a|
  {
    hide Step64;
    if a == [] {
      assert a + b == b;
    } else {
      assert (a + b)[1..] == a[1..] + b;
      Run64Append(Step64(s, a[0]), a[1..], b);
    }
  }

  /** '=' behind the characters changes nothing in what comes out. */
  lemma {:induction false} PaddingEnds(s: Scan64, p: seq<Byte>)
    requires OnlyPadding(p)
    ensures Finish64(Run64(s, p)) == Finish64(s)
    decreases |p|
  {
    hide Bytes;
    if p != [] {
      assert p[0] == '=' && !IsSpace(p[0]);
      PaddingEnds(Step64(s, p[0]), p[1..]);
    }
  }

  /** What a text of n characters of the map, groups of four and r more, and '=' behind them
      decodes to. */
  ghost predicate Is64Value(s: seq<Byte>, n: nat, groups: nat, r: nat, data: seq<Byte>) {
    SplitAt(s, n) && n == 4 * groups + r && r < 4 ==>
      |data| == 3 * groups + LeftOver(r) && SameUpTo(r, Number64(0, s[..n]), Number256(0, data))
  }

  lemma DecodedValue(text: seq<Byte>, n: nat, groups: nat, r: nat)
    ensures Is64Value(Strip(text), n, groups, r, Decode64(text).data)
  {
    var s := Strip(text);
    if SplitAt(s, n) && n == 4 * groups + r && r < 4 {
      SpacesIgnored64(START, text);
      forall i | 0 <= i < n ensures IsDigit64(s[i]) { Map64Has(s[i]); }
      hide MAP64, IsDigit64, Run64, Finish64, Number64, Number256, SameUpTo, LeftOver, Strip;
      assert s == s[..n] + s[n..];
      Run64Append(START, s[..n], s[n..]);
      PaddingEnds(Run64(START, s[..n]), s[n..]);
      var bytes := DigitsDecode(0, s[..n], groups, r, []);
      assert [] + bytes == bytes;
    }
  }

  // ---------- the encodings by name ----------

  const BINARY: seq<Byte> := "binary"
  const HEX: seq<Byte> := "hex"
  const BASE16: seq<Byte> := "base16"
  const BASE64: seq<Byte> := "base64"

  predicate Known(encoding: seq<Byte>) {
    encoding == BINARY || encoding == HEX || encoding == BASE16 || encoding == BASE64
  }

  /** encodeToString.  The name is kept in a stringCaseInsensitive, but that class's own
      comparison takes a string by a reference that is not const, to which no literal binds:
      the names are compared as any strings are, by their characters. */
  method EncodeToString(data: seq<Byte>, encoding: seq<Byte>) returns (text: seq<Byte>, errorMessage: Error)
    ensures Decoded(text, errorMessage) == Encode(data, encoding)
    ensures encoding == "binary" ==> text == data && errorMessage == Fine
    ensures encoding == "hex" || encoding == "base16" ==> IsHexOf(text, data) && errorMessage == Fine
    ensures encoding == "base64" ==> Is64Of(text, data) && errorMessage == Fine
    ensures encoding !in {"binary", "hex", "base16", "base64"} ==> text == [] && errorMessage == UnknownEncoding
  {
    HexIsHexOf(data);
    var pad := if |data| % 3 == 0 then 0 else 3 - |data| % 3;
    Base64Is64Of(data, (|data| + pad) / 3, pad);
    hide IsHexOf, Is64Of, Number64;
    if encoding == BINARY {
      return data, Fine;
    } else if encoding == HEX || encoding == BASE16 {
      text := EncodeHexString(data);
      return text, Fine;
    } else if encoding == BASE64 {
      text := EncodeBase64(data);
      return text, Fine;
    }
    return "", UnknownEncoding;
  }

  /** decodeToString */
  method DecodeToString(buf: seq<Byte>, encoding: seq<Byte>) returns (data: seq<Byte>, errorMessage: Error)
    ensures Decoded(data, errorMessage) == Decode(buf, encoding)
    ensures encoding == "binary" ==> data == buf && errorMessage == Fine
    ensures encoding == "hex" || encoding == "base16" ==>
      && (errorMessage == Fine <==> HexDigitsOnly(Strip(buf)) && |Strip(buf)| % 2 == 0)
      && (errorMessage == Fine ==> IsHexOf(UpperAll(Strip(buf)), data))
    ensures encoding == "base64" ==>
      && (errorMessage == Fine <==> MapThenPadding(Strip(buf)))
      && forall n, groups, r :: Is64Value(Strip(buf), n, groups, r, data)
    ensures encoding !in {"binary", "hex", "base16", "base64"} ==> data == [] && errorMessage == UnknownEncoding
  {
    HexIsHexOf(DecodeHex(buf).data);
    ErrorFreeHex(buf);
    AllHexIs(Strip(buf));
    ErrorFree64(buf);
    ProperIsPadded(Strip(buf));
    forall n, groups, r ensures Is64Value(Strip(buf), n, groups, r, Decode64(buf).data) { DecodedValue(buf, n, groups, r); }
    hide Is64Value;
    hide IsHexOf, MapThenPadding, HexDigitsOnly, DecodeHex, Decode64, Strip, AllHex, UpperAll, Proper64, EncodeHex;
    if encoding == BINARY {
      return buf, Fine;
    } else if encoding == HEX || encoding == BASE16 {
      data, errorMessage := DecodeHexString(buf);
      return;
    } else if encoding == BASE64 {
      data, errorMessage := DecodeBase64(buf);
      return;
    }
    return "", UnknownEncoding;
  }

  function Encode(data: seq<Byte>, encoding: seq<Byte>): Decoded {
    if encoding == BINARY then Decoded(data, Fine)
    else if encoding == HEX || encoding == BASE16 then Decoded(EncodeHex(data), Fine)
    else if encoding == BASE64 then Decoded(Encode64(data), Fine)
    else Decoded("", UnknownEncoding)
  }

  function Decode(text: seq<Byte>, encoding: seq<Byte>): Decoded {
    if encoding == BINARY then Decoded(text, Fine)
    else if encoding == HEX || encoding == BASE16 then DecodeHex(text)
    else if encoding == BASE64 then Decode64(text)
    else Decoded("", UnknownEncoding)
  }

  /** A name with a capital letter in it is unknown, whatever the letters are. */
  lemma CapitalIsUnknown(text: seq<Byte>, encoding: seq<Byte>, i: nat)
    requires i < |encoding| && 'A' <= encoding[i] <= 'Z'
    ensures !Known(encoding)
    ensures Encode(text, encoding) == Decode(text, encoding) == Decoded("", UnknownEncoding)
  {
  }

  lemma EncodedIsSpaceFree(data: seq<Byte>)
    ensures Strip(Encode64(data)) == Encode64(data) && Strip(EncodeHex(data)) == EncodeHex(data)
  {
    hide Strip;
    Encoded64SpaceFree(data);
    EncodedHexSpaceFree(data);
    StripSpaceFree(Encode64(data));
    StripSpaceFree(EncodeHex(data));
  }

  lemma {:induction false} StripSpaceFree(s: seq<Byte>)
    requires SpaceFree(s)
    ensures Strip(s) == s
  {
    if s != [] { StripSpaceFree(s[1..]); }
  }

  lemma {:induction false} Encoded64SpaceFree(data: seq<Byte>)
    ensures SpaceFree(Encode64(data))
  {
    if data != [] {
      var head := if |data| <= 3 then data else data[..3];
      GroupSpaceFree(head);
      hide Group64, IsSpace;
      if |data| > 3 { Encoded64SpaceFree(data[3..]); }
    }
  }

  lemma GroupSpaceFree(data: seq<Byte>)
    ensures SpaceFree(Group64(data))
  {
    hide Digit64, Accumulate;
    var a := Accumulate(data);
    Value64OfDigit(a / 262144 % 64);
    Value64OfDigit(a / 4096 % 64);
    Value64OfDigit(a / 64 % 64);
    Value64OfDigit(a % 64);
  }

  lemma {:induction false} EncodedHexSpaceFree(data: seq<Byte>)
    ensures SpaceFree(EncodeHex(data))
  {
    if data != [] {
      var a, b := data[0] as int / 16 % 16, data[0] as int % 16;
      HexDigits(a, DigitHex(a));
      HexDigits(b, DigitHex(b));
      hide DigitHex, IsSpace, ReverseHex;
      EncodedHexSpaceFree(data[1..]);
    }
  }

  /** Under every encoding name, decoding what was encoded gives the data back without an
      error, or both report that they do not know the name. */
  lemma DecodeOfEncode(data: seq<Byte>, encoding: seq<Byte>)
    ensures var e := Encode(data, encoding);
      (e.error == Fine && Decode(e.data, encoding) == Decoded(data, Fine))
      || (e.error == UnknownEncoding && Decode(e.data, encoding).error == UnknownEncoding)
  {
    hide Decode64, DecodeHex, Encode64, EncodeHex, Strip;
    EncodedIsSpaceFree(data);
    RoundTrip64(data, Encode64(data));
    RoundTripHex(data, EncodeHex(data));
  }
}
