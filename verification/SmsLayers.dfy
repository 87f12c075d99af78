/** The relay and connection layers of SMS: RP-DATA inside CP-DATA, addresses in BCD, LV
    elements.  Writers give the bits they put into a frame; readers take the bits from the
    read position on and leave the rest. */
module SmsLayers {
  import opened Fields

  datatype Outcome<T> =
    | Ok(v: T, rest: seq<bool>)
    | ReadError       // L3_READ_ERROR or SMS_READ_ERROR
    | OutOfFrame      // a field that ends behind the frame; nothing checks it, so it is undefined
    | Overrun         // a digit stored behind the digit array; undefined as well
  {
    function Failure<U>(): Outcome<U>
      requires !Ok?
    {
      match this
      case ReadError => ReadError
      case OutOfFrame => OutOfFrame
      case Overrun => Overrun
    }
  }

  /** A read of n bits from the front. */
  function Read(bits: seq<bool>, n: nat): nat
    requires n <= |bits|
  {
    MsbValue(bits[..n])
  }

  // ---------- BCD digits ----------

  /** maxDigits; the array has one place more, for the terminator. */
  const MAX_DIGITS: nat := 20

  predicate IsDigit(c: char) { '0' <= c <= '9' || c == '*' || c == '#' }

  /** encode(): an invalid character is reported and written as 0. */
  function EncodeDigit(c: char): (d: nat)
    ensures d < 12
  {
    if c == '*' then 10 else if c == '#' then 11 else if '0' <= c <= '9' then c as nat - '0' as nat else 0
  }

  function DecodeDigit(d: nat): char
    requires d < 16
  {
    if d == 10 then '*' else if d == 11 then '#' else (d + '0' as nat) as char
  }

  function StripPlus(digits: string): string { if digits != "" && digits[0] == '+' then digits[1..] else digits }

  /** Octets for n digits, two to an octet. */
  function Pairs(n: nat): nat { if n < 2 then n else 1 + Pairs(n - 2) }

  lemma {:induction false} PairsIs(n: nat)
    ensures Pairs(n) == n / 2 + n % 2
  {
    if n >= 2 { PairsIs(n - 2); }
  }

  /** The digits two to an octet, the second of a pair first, 15 for a missing one. */
  function BcdBits(d: string): (r: seq<bool>)
    ensures |r| == 8 * Pairs(|d|)
  {
    if d == "" then []
    else if |d| == 1 then MsbBits(15, 4) + MsbBits(EncodeDigit(d[0]), 4)
    else MsbBits(EncodeDigit(d[1]), 4) + MsbBits(EncodeDigit(d[0]), 4) + BcdBits(d[2..])
  }

  lemma NoDigits()
    ensures BcdBits("") == []
  {
  }

  /** One octet of digits: the second of a pair above the first. */
  lemma BcdFirst(d: string)
    requires d != ""
    ensures var n := if |d| >= 2 then 2 else |d|; var high := if |d| >= 2 then EncodeDigit(d[1]) else 15;
      BcdBits(d) == MsbBits(high, 4) + MsbBits(EncodeDigit(d[0]), 4) + BcdBits(d[n..])
  {
    hide MsbBits, EncodeDigit;
  }

  /** L3BCDDigits::lengthV */
  function DigitsLengthV(digits: string): nat {
    var sz := |StripPlus(digits)|;
    sz / 2 + sz % 2
  }

  /** The octet's digits behind acc: the low nibble first, a high nibble of 15 for none. */
  function Stored(acc: string, d2: nat, d1: nat): string
    requires d2 < 16 && d1 < 16
  {
    if d2 != 15 then acc + [DecodeDigit(d1)] + [DecodeDigit(d2)] else acc + [DecodeDigit(d1)]
  }

  /** The loop of L3BCDDigits::parse after acc has been filled.  It stores both digits of an
      octet before it compares their number with maxDigits, so that a second digit behind 21
      is stored outside of the array. */
  function ParseBcd(bits: seq<bool>, octets: nat, acc: string): Outcome<string> {
    if octets == 0 then Ok(acc, bits)
    else if |bits| < 8 then OutOfFrame
    else
      NibbleBound(bits[..4]);
      NibbleBound(bits[4..8]);
      var d2, d1 := MsbValue(bits[..4]), MsbValue(bits[4..8]);
      var acc' := Stored(acc, d2, d1);
      if |acc'| > MAX_DIGITS + 1 then Overrun
      else if |acc'| > MAX_DIGITS then ReadError
      else ParseBcd(bits[8..], octets - 1, acc')
  }

  /** One turn of the loop. */
  lemma ParseBcdUnfold(bits: seq<bool>, octets: nat, acc: string)
    requires octets > 0
    ensures |bits| < 8 ==> ParseBcd(bits, octets, acc) == OutOfFrame
    ensures |bits| >= 8 ==>
      && MsbValue(bits[..4]) < 16 && MsbValue(bits[4..8]) < 16
      && var acc' := Stored(acc, MsbValue(bits[..4]), MsbValue(bits[4..8]));
         ParseBcd(bits, octets, acc)
         == if |acc'| > MAX_DIGITS + 1 then Overrun
            else if |acc'| > MAX_DIGITS then ReadError
            else ParseBcd(bits[8..], octets - 1, acc')
  {
    hide MsbValue, Stored;
    if |bits| >= 8 {
      NibbleBound(bits[..4]);
      NibbleBound(bits[4..8]);
    }
  }

  lemma {:induction false} ParseBcdTakes(bits: seq<bool>, octets: nat, acc: string)
    ensures var r := ParseBcd(bits, octets, acc); r.Ok? ==> 8 * octets <= |bits| && r.rest == bits[8 * octets..]
    decreases octets
  {
    hide MsbValue, Stored, ParseBcd;
    if octets == 0 {
      ParseBcdDone(bits, acc);
    } else {
      ParseBcdUnfold(bits, octets, acc);
      if |bits| >= 8 {
        ParseBcdTakes(bits[8..], octets - 1, Stored(acc, MsbValue(bits[..4]), MsbValue(bits[4..8])));
        TailOfTail(bits, 8, 8 * (octets - 1));
      }
    }
  }

  // ---------- how a digit parse ends ----------

  /** The digits in whole octets: two to an octet, or one below a nibble of 15. */
  function DigitsIn(bits: seq<bool>, octets: nat): nat
    requires 8 * octets <= |bits|
  {
    if octets == 0 then 0 else (if MsbValue(bits[..4]) != 15 then 2 else 1) + DigitsIn(bits[8..], octets - 1)
  }

  /** Octet j brings a second digit when all 20 places of a number are full. */
  ghost predicate FillsAt(bits: seq<bool>, count: nat, j: nat)
    requires 8 * j + 8 <= |bits|
  {
    count + DigitsIn(bits, j) == MAX_DIGITS && MsbValue(bits[8 * j..8 * j + 4]) != 15
  }

  /** The octets in the frame of those that are asked for. */
  function InFrame(bits: seq<bool>, octets: nat): (k: nat)
    ensures k <= octets && 8 * k <= |bits| && (k == octets || |bits| < 8 * k + 8)
  {
    if octets == 0 || |bits| < 8 then 0 else 1 + InFrame(bits[8..], octets - 1)
  }

  /** With count digits already there, too many come. */
  ghost predicate Overruns(bits: seq<bool>, octets: nat, count: nat) {
    exists j: nat :: j < InFrame(bits, octets) && FillsAt(bits, count, j)
  }

  predicate Room(bits: seq<bool>, octets: nat, count: nat) {
    count + DigitsIn(bits, InFrame(bits, octets)) <= MAX_DIGITS
  }

  lemma FillsAtStep(bits: seq<bool>, count: nat, j: nat, k: nat)
    requires |bits| >= 8 && 8 * j + 8 <= |bits| && j > 0
    requires k == if MsbValue(bits[..4]) != 15 then 2 else 1
    ensures FillsAt(bits, count, j) == FillsAt(bits[8..], count + k, j - 1)
  {
    hide MsbValue;
    assert bits[8..][8 * (j - 1)..8 * (j - 1) + 4] == bits[8 * j..8 * j + 4];
  }

  lemma OverrunsStep(bits: seq<bool>, octets: nat, count: nat, k: nat)
    requires |bits| >= 8 && octets > 0 && k == if MsbValue(bits[..4]) != 15 then 2 else 1
    ensures Overruns(bits, octets, count)
       <==> (count == MAX_DIGITS && k == 2) || Overruns(bits[8..], octets - 1, count + k)
    ensures Room(bits, octets, count) == Room(bits[8..], octets - 1, count + k)
  {
    hide MsbValue, FillsAt;
    assert InFrame(bits, octets) == 1 + InFrame(bits[8..], octets - 1);
    assert FillsAt(bits, count, 0) <==> count == MAX_DIGITS && k == 2 by { FillsAtFirst(bits, count); }
    if Overruns(bits, octets, count) {
      var j: nat :| j < InFrame(bits, octets) && FillsAt(bits, count, j);
      if j > 0 { FillsAtStep(bits, count, j, k); }
    }
    if Overruns(bits[8..], octets - 1, count + k) {
      var j: nat :| j < InFrame(bits[8..], octets - 1) && FillsAt(bits[8..], count + k, j);
      FillsAtStep(bits, count, j + 1, k);
    }
  }

  lemma FillsAtFirst(bits: seq<bool>, count: nat)
    requires |bits| >= 8
    ensures FillsAt(bits, count, 0) <==> count == MAX_DIGITS && MsbValue(bits[..4]) != 15
  {
    assert bits[0..4] == bits[..4];
  }

  lemma {:induction false} TooManyNeverFill(bits: seq<bool>, octets: nat, count: nat)
    requires count > MAX_DIGITS
    ensures !Overruns(bits, octets, count) && !Room(bits, octets, count)
  {
  }

  lemma StoredLength(acc: string, d2: nat, d1: nat)
    requires d2 < 16 && d1 < 16
    ensures |Stored(acc, d2, d1)| == |acc| + if d2 != 15 then 2 else 1
  {
  }

  /** How the parse of digits ends: the digits in the frame decide. */
  lemma {:induction false} ParseBcdEnds(bits: seq<bool>, octets: nat, acc: string)
    requires |acc| <= MAX_DIGITS
    ensures var r := ParseBcd(bits, octets, acc);
      && (r.Ok? <==> 8 * octets <= |bits| && Room(bits, octets, |acc|))
      && (r.OutOfFrame? <==> |bits| < 8 * octets && Room(bits, octets, |acc|))
      && (r.Overrun? <==> Overruns(bits, octets, |acc|))
    decreases octets
  {
    hide MsbValue, Stored, ParseBcd, FillsAt, DecodeDigit;
    if octets == 0 {
      ParseBcdDone(bits, acc);
    } else {
      ParseBcdUnfold(bits, octets, acc);
      if |bits| >= 8 {
        var d2, d1 := MsbValue(bits[..4]), MsbValue(bits[4..8]);
        var acc' := Stored(acc, d2, d1);
        StoredLength(acc, d2, d1);
        OverrunsStep(bits, octets, |acc|, |acc'| - |acc|);
        if |acc'| <= MAX_DIGITS {
          ParseBcdEnds(bits[8..], octets - 1, acc');
        } else {
          TooManyNeverFill(bits[8..], octets - 1, |acc'|);
        }
      }
    }
  }

  lemma TailOfTail(bits: seq<bool>, i: nat, j: nat)
    requires i <= |bits|
    ensures i + j <= |bits| ==> bits[i..][j..] == bits[i + j..]
  {
  }

  lemma ParseBcdDone(bits: seq<bool>, acc: string)
    ensures ParseBcd(bits, 0, acc) == Ok(acc, bits)
  {
  }

  lemma NibbleBound(s: seq<bool>)
    requires |s| == 4
    ensures MsbValue(s) < 16
  {
    MsbBitsOfValue(s);
    assert Pow2(4) == 16;
  }

  lemma FieldValue(v: nat, n: nat)
    requires v < Pow2(n)
    ensures MsbValue(MsbBits(v, n)) == v
  {
    MsbValueOfBits(v, n);
    ModUnique(v, Pow2(n), 0, v);
  }

  lemma NibbleValue(v: nat)
    requires v < 16
    ensures MsbValue(MsbBits(v, 4)) == v
  {
    assert Pow2(4) == 16;
    FieldValue(v, 4);
  }

  /** What the digits read back as: an invalid character has become '0'. */
  function Shown(d: string): (r: string)
    ensures |r| == |d|
  {
    if d == "" then "" else [DecodeDigit(EncodeDigit(d[0]))] + Shown(d[1..])
  }

  lemma {:induction false} ShownIsSame(d: string)
    ensures Shown(d) == d <==> forall i :: 0 <= i < |d| ==> IsDigit(d[i])
  {
    if d != "" {
      ShownIsSame(d[1..]);
      assert Shown(d)[0] == d[0] <==> IsDigit(d[0]);
      assert Shown(d)[1..] == Shown(d[1..]);
      assert forall i :: 1 <= i < |d| ==> d[i] == d[1..][i - 1];
      if !(forall i :: 0 <= i < |d| - 1 ==> IsDigit(d[1..][i])) {
        var i :| 0 <= i < |d| - 1 && !IsDigit(d[1..][i]);
        assert !IsDigit(d[i + 1]);
      }
    }
  }

  lemma ParseBcdOctet(d2: nat, d1: nat, rest: seq<bool>, octets: nat, acc: string)
    requires d1 < 16 && d2 < 16
    ensures var acc' := Stored(acc, d2, d1);
      ParseBcd(MsbBits(d2, 4) + MsbBits(d1, 4) + rest, octets + 1, acc)
      == if |acc'| > MAX_DIGITS + 1 then Overrun
         else if |acc'| > MAX_DIGITS then ReadError
         else ParseBcd(rest, octets, acc')
  {
    hide Stored;
    var bits := MsbBits(d2, 4) + MsbBits(d1, 4) + rest;
    assert bits[..4] == MsbBits(d2, 4) && bits[4..8] == MsbBits(d1, 4) && bits[8..] == rest;
    NibbleValue(d1);
    NibbleValue(d2);
  }

  lemma ShownStep(d: string)
    requires d != ""
    ensures Shown(d) == [DecodeDigit(EncodeDigit(d[0]))] + Shown(d[1..])
  {
  }

  lemma BcdStep(d: string)
    requires |d| >= 2
    ensures BcdBits(d) == MsbBits(EncodeDigit(d[1]), 4) + MsbBits(EncodeDigit(d[0]), 4) + BcdBits(d[2..])
    ensures Pairs(|d|) == Pairs(|d[2..]|) + 1
  {
    hide MsbBits, EncodeDigit;
  }

  lemma ShownPair(d: string)
    requires |d| >= 2
    ensures Shown(d) == [DecodeDigit(EncodeDigit(d[0]))] + [DecodeDigit(EncodeDigit(d[1]))] + Shown(d[2..])
  {
    hide Shown, DecodeDigit, EncodeDigit;
    ShownStep(d);
    ShownStep(d[1..]);
    assert d[1..][1..] == d[2..];
    TwoInFront(DecodeDigit(EncodeDigit(d[0])), DecodeDigit(EncodeDigit(d[1])), Shown(d[2..]));
  }

  lemma TwoInFront(a: char, b: char, t: string)
    ensures [a] + ([b] + t) == [a] + [b] + t
  {
  }

  lemma BcdSingle(d: string)
    requires |d| == 1
    ensures BcdBits(d) == MsbBits(15, 4) + MsbBits(EncodeDigit(d[0]), 4)
    ensures Shown(d) == [DecodeDigit(EncodeDigit(d[0]))] && Pairs(|d|) == 1
  {
    hide MsbBits, EncodeDigit, DecodeDigit;
  }

  lemma ParseBcdEnd(d: string, rest: seq<bool>, acc: string)
    requires d == ""
    ensures ParseBcd(BcdBits(d) + rest, Pairs(|d|), acc) == Ok(acc + Shown(d), rest)
  {
    assert BcdBits(d) + rest == rest && acc + Shown(d) == acc;
  }

  lemma ParseBcdSingle(d: string, rest: seq<bool>, acc: string)
    requires |d| == 1 && |acc| <= MAX_DIGITS
    ensures ParseBcd(BcdBits(d) + rest, Pairs(|d|), acc)
         == if |acc| + 1 > MAX_DIGITS then ReadError else Ok(acc + Shown(d), rest)
  {
    hide MsbBits, EncodeDigit, DecodeDigit, BcdBits, Shown;
    BcdSingle(d);
    var d1 := EncodeDigit(d[0]);
    ParseBcdOctet(15, d1, rest, 0, acc);
  }

  lemma ParseBcdPair(d: string, rest: seq<bool>, acc: string, tail: seq<bool>)
    requires |d| >= 2 && tail == BcdBits(d[2..]) + rest
    ensures var acc' := acc + [DecodeDigit(EncodeDigit(d[0]))] + [DecodeDigit(EncodeDigit(d[1]))];
      ParseBcd(BcdBits(d) + rest, Pairs(|d|), acc)
      == if |acc'| > MAX_DIGITS + 1 then Overrun
         else if |acc'| > MAX_DIGITS then ReadError
         else ParseBcd(tail, Pairs(|d[2..]|), acc')
  {
    hide MsbBits, EncodeDigit, DecodeDigit, BcdBits, ParseBcd, Shown;
    BcdStep(d);
    var d1, d2 := EncodeDigit(d[0]), EncodeDigit(d[1]);
    assert BcdBits(d) + rest == MsbBits(d2, 4) + MsbBits(d1, 4) + tail;
    ParseBcdOctet(d2, d1, tail, Pairs(|d[2..]|), acc);
  }

  /** Reading written digits back: 21 are a read error; with more, the pairs overrun the array
      if an even number of characters stands in front. */
  lemma {:induction false} ParseBcdBits(d: string, rest: seq<bool>, acc: string)
    requires |acc| <= MAX_DIGITS
    ensures ParseBcd(BcdBits(d) + rest, Pairs(|d|), acc)
         == if |acc| + |d| <= MAX_DIGITS then Ok(acc + Shown(d), rest)
            else if |acc| % 2 == 0 && |acc| + |d| > MAX_DIGITS + 1 then Overrun
            else ReadError
    decreases |d|
  {
    hide MsbBits, MsbValue, EncodeDigit, DecodeDigit, BcdBits, ParseBcd, Shown;
    if d == "" {
      ParseBcdEnd(d, rest, acc);
    } else if |d| == 1 {
      ParseBcdSingle(d, rest, acc);
    } else {
      var acc' := acc + [DecodeDigit(EncodeDigit(d[0]))] + [DecodeDigit(EncodeDigit(d[1]))];
      ParseBcdPair(d, rest, acc, BcdBits(d[2..]) + rest);
      if |acc'| <= MAX_DIGITS {
        ParseBcdBits(d[2..], rest, acc');
        ShownPair(d);
        assert acc' + Shown(d[2..]) == acc + Shown(d);
      }
    }
  }

  // ---------- which digits the nibbles are ----------

  /** The characters of the nibbles 0 to 15; the last four are what '0' + d makes of them. */
  const KEYS: string := "0123456789*#<=>?"

  /** The nibbles of octets, the low one of each octet first. */
  function Nibbles(bits: seq<bool>, octets: nat): (n: seq<nat>)
    requires 8 * octets <= |bits|
    ensures |n| == 2 * octets
  {
    if octets == 0 then [] else [MsbValue(bits[4..8]), MsbValue(bits[..4])] + Nibbles(bits[8..], octets - 1)
  }

  /** The nibble of a character, 0 for one that is none of the first twelve. */
  predicate NibbleFor(c: char, n: nat) { if c in KEYS[..12] then n < 12 && KEYS[n] == c else n == 0 }

  /** A nibble for each character, and 15 behind an odd number of them. */
  ghost predicate NibblesFor(d: string, n: seq<nat>) {
    && |d| <= |n| <= |d| + 1
    && (forall i :: 0 <= i < |d| ==> NibbleFor(d[i], n[i]))
    && (|n| > |d| ==> n[|d|] == 15)
  }

  /** The bits are the octets of d. */
  ghost predicate KeyedAs(bits: seq<bool>, d: string) {
    |bits| == 8 * Pairs(|d|) && NibblesFor(d, Nibbles(bits, Pairs(|d|)))
  }

  lemma KeyOf(c: char)
    ensures NibbleFor(c, EncodeDigit(c))
  {
    var k := EncodeDigit(c);
    assert KEYS[..12][0] == '0';
    if k > 0 { assert KEYS[..12][k] == c; } else if c == '0' { assert KEYS[..12][0] == c; }
  }

  lemma OctetNibbles(d2: nat, d1: nat, rest: seq<bool>, octets: nat)
    requires d1 < 16 && d2 < 16 && 8 * octets <= |rest|
    ensures Nibbles(MsbBits(d2, 4) + MsbBits(d1, 4) + rest, octets + 1) == [d1, d2] + Nibbles(rest, octets)
  {
    var bits := MsbBits(d2, 4) + MsbBits(d1, 4) + rest;
    assert bits[..4] == MsbBits(d2, 4) && bits[4..8] == MsbBits(d1, 4) && bits[8..] == rest;
    NibbleValue(d1);
    NibbleValue(d2);
  }

  lemma {:induction false} BcdIsKeyed(d: string)
    ensures KeyedAs(BcdBits(d), d)
    decreases |d|
  {
    hide MsbBits, MsbValue, EncodeDigit, BcdBits, NibbleFor;
    if d == "" {
      NoDigits();
    } else if |d| == 1 {
      BcdSingle(d);
      KeyOf(d[0]);
      OctetNibbles(15, EncodeDigit(d[0]), [], 0);
      assert MsbBits(15, 4) + MsbBits(EncodeDigit(d[0]), 4) + [] == BcdBits(d);
    } else {
      BcdStep(d);
      BcdIsKeyed(d[2..]);
      KeyOf(d[0]);
      KeyOf(d[1]);
      OctetNibbles(EncodeDigit(d[1]), EncodeDigit(d[0]), BcdBits(d[2..]), Pairs(|d[2..]|));
      NibblesForPair(d, EncodeDigit(d[0]), EncodeDigit(d[1]), Nibbles(BcdBits(d[2..]), Pairs(|d[2..]|)));
    }
  }

  lemma NibblesForPair(d: string, a: nat, b: nat, m: seq<nat>)
    requires |d| >= 2 && NibbleFor(d[0], a) && NibbleFor(d[1], b) && NibblesFor(d[2..], m)
    ensures NibblesFor(d, [a, b] + m)
  {
    hide NibbleFor;
    forall i | 0 <= i < |d| ensures NibbleFor(d[i], ([a, b] + m)[i]) {
      if i >= 2 { assert d[i] == d[2..][i - 2]; }
    }
  }

  /** The digits in octets as they are read: the low nibble, and the high one unless it is 15. */
  function ReadNibbles(bits: seq<bool>, octets: nat): seq<nat>
    requires 8 * octets <= |bits|
  {
    if octets == 0 then []
    else
      [MsbValue(bits[4..8])] + (if MsbValue(bits[..4]) != 15 then [MsbValue(bits[..4])] else [])
      + ReadNibbles(bits[8..], octets - 1)
  }

  /** The characters of these nibbles. */
  predicate KeysOf(text: string, n: seq<nat>) {
    |text| == |n| && forall i :: 0 <= i < |n| ==> n[i] < 16 && text[i] == KEYS[n[i]]
  }

  lemma DecodedKey(d: nat)
    requires d < 16
    ensures DecodeDigit(d) == KEYS[d]
  {
  }

  lemma StoredKeys(acc: string, start: string, n: seq<nat>, d2: nat, d1: nat)
    requires d2 < 16 && d1 < 16 && |start| <= |acc| && acc[..|start|] == start && KeysOf(acc[|start|..], n)
    ensures var acc', n' := Stored(acc, d2, d1), n + ([d1] + if d2 != 15 then [d2] else []);
      |start| <= |acc'| && acc'[..|start|] == start && KeysOf(acc'[|start|..], n')
  {
    DecodedKey(d1);
    DecodedKey(d2);
    hide DecodeDigit;
  }

  lemma {:induction false} ParsedKeysFrom(bits: seq<bool>, octets: nat, acc: string, start: string, n: seq<nat>)
    requires |start| <= |acc| && acc[..|start|] == start && KeysOf(acc[|start|..], n)
    requires ParseBcd(bits, octets, acc).Ok?
    ensures var r := ParseBcd(bits, octets, acc);
      && 8 * octets <= |bits| && |start| <= |r.v| && r.v[..|start|] == start
      && KeysOf(r.v[|start|..], n + ReadNibbles(bits, octets))
    decreases octets
  {
    hide MsbValue, Stored, ParseBcd, KeysOf;
    if octets == 0 {
      ParseBcdDone(bits, acc);
      assert n + [] == n;
    } else {
      ParseBcdUnfold(bits, octets, acc);
      var d2, d1 := MsbValue(bits[..4]), MsbValue(bits[4..8]);
      var here := [d1] + if d2 != 15 then [d2] else [];
      StoredKeys(acc, start, n, d2, d1);
      ParsedKeysFrom(bits[8..], octets - 1, Stored(acc, d2, d1), start, n + here);
      assert n + here + ReadNibbles(bits[8..], octets - 1) == n + ReadNibbles(bits, octets);
    }
  }

  /** Digits that parse are the characters of the nibbles that are read, behind the start. */
  lemma ParsedKeys(bits: seq<bool>, octets: nat, start: string)
    requires ParseBcd(bits, octets, start).Ok?
    ensures var r := ParseBcd(bits, octets, start);
      && 8 * octets <= |bits| && |start| <= |r.v| && r.v[..|start|] == start
      && KeysOf(r.v[|start|..], ReadNibbles(bits, octets))
  {
    assert start[|start|..] == "";
    ParsedKeysFrom(bits, octets, start, start, []);
    assert [] + ReadNibbles(bits, octets) == ReadNibbles(bits, octets);
  }

  predicate IsDecimal(s: string) { forall i :: 0 <= i < |s| ==> '0' <= s[i] <= '9' }

  /** The number that a string of decimal characters spells. */
  function Spelled(s: string): nat
    requires IsDecimal(s)
  {
    if s == "" then 0 else 10 * Spelled(s[..|s| - 1]) + (s[|s| - 1] as nat - '0' as nat)
  }

  /** The number with these decimal places, the first one most significant. */
  function Decimal(n: seq<nat>): nat { if n == [] then 0 else 10 * Decimal(n[..|n| - 1]) + n[|n| - 1] }

  lemma KeyIsDecimal(d: nat)
    requires d < 16
    ensures KEYS[d] as nat == '0' as nat + d || d == 10 || d == 11
    ensures d < 10 <==> '0' <= KEYS[d] <= '9'
  {
  }

  lemma {:induction false} SameNumber(text: string, n: seq<nat>)
    requires KeysOf(text, n) && (IsDecimal(text) || forall i :: 0 <= i < |n| ==> n[i] < 10)
    ensures IsDecimal(text) && Spelled(text) == Decimal(n)
    decreases |n|
  {
    forall i | 0 <= i < |n| ensures '0' <= text[i] <= '9' && text[i] as nat == '0' as nat + n[i] { KeyIsDecimal(n[i]); }
    if n != [] { SameNumber(text[..|text| - 1], n[..|n| - 1]); }
  }

  /** The digits of a decimal number are written so that their nibbles, two to an octet and the
      low one first, are its decimal places. */
  lemma BcdSpells(d: string)
    requires IsDecimal(d)
    ensures 2 * Pairs(|d|) >= |d| && Decimal(Nibbles(BcdBits(d), Pairs(|d|))[..|d|]) == Spelled(d)
  {
    BcdIsKeyed(d);
    hide BcdBits, Nibbles, NibbleFor, Pairs, Spelled, Decimal;
    var all := Nibbles(BcdBits(d), Pairs(|d|));
    forall i | 0 <= i < |d| ensures all[i] < 16 && d[i] == KEYS[all[i]] { DecimalNibble(d[i], all[i]); }
    SameNumber(d, all[..|d|]);
  }

  lemma DecimalNibble(c: char, n: nat)
    requires '0' <= c <= '9' && NibbleFor(c, n)
    ensures n < 16 && c == KEYS[n]
  {
    assert c == KEYS[..12][c as nat - '0' as nat];
  }

  /** Octets of decimal nibbles parse to the string that spells the number with these places. */
  lemma ParsedSpells(bits: seq<bool>, octets: nat)
    requires 8 * octets <= |bits| && forall i :: 0 <= i < |ReadNibbles(bits, octets)| ==> ReadNibbles(bits, octets)[i] < 10
    requires ParseBcd(bits, octets, "").Ok?
    ensures var v := ParseBcd(bits, octets, "").v; IsDecimal(v) && Spelled(v) == Decimal(ReadNibbles(bits, octets))
  {
    ParsedKeys(bits, octets, "");
    var v := ParseBcd(bits, octets, "").v;
    assert v[0..] == v;
    SameNumber(v, ReadNibbles(bits, octets));
  }

  // ---------- the called party number as an LV element ----------

  /** TypeOfNumber is written in three bits, NumberingPlan in four; mDigits has room for 20. */
  datatype Address = Address(ton: nat, plan: nat, digits: string) {
    predicate Valid() { ton < 8 && plan < 16 && |digits| <= MAX_DIGITS }
  }

  const INTERNATIONAL: nat := 1

  /** A default-constructed address. */
  const NO_ADDRESS: Address := Address(0, 0, "")

  /** L3CalledPartyBCDNumber(const char*), with NationalNumber and E164Plan. */
  function FromString(digits: string): Address {
    Address(if digits != "" && digits[0] == '+' then INTERNATIONAL else 2, 1,
            if |digits| > MAX_DIGITS then digits[..MAX_DIGITS] else digits)
  }

  function AddressLengthV(a: Address): nat {
    if DigitsLengthV(a.digits) == 0 then 0 else 1 + DigitsLengthV(a.digits)
  }

  function AddressV(a: Address): seq<bool> {
    MsbBits(1, 1) + MsbBits(a.ton, 3) + MsbBits(a.plan, 4) + BcdBits(StripPlus(a.digits))
  }

  function AddressLV(a: Address): seq<bool> {
    MsbBits(AddressLengthV(a), 8) + (if AddressLengthV(a) != 0 then AddressV(a) else [])
  }

  function ParseAddressV(bits: seq<bool>, expectedLength: nat): Outcome<Address>
    requires expectedLength > 0
  {
    if |bits| < 1 then OutOfFrame
    else if MsbValue(bits[..1]) != 1 then ReadError
    else if |bits| < 8 then OutOfFrame
    else
      var ton, plan := MsbValue(bits[1..4]), MsbValue(bits[4..8]);
      var r := ParseBcd(bits[8..], expectedLength - 1, if ton == INTERNATIONAL then "+" else "");
      if r.Ok? then Ok(Address(ton, plan, r.v), r.rest) else r.Failure()
  }

  lemma ParseAddressCases(bits: seq<bool>, expectedLength: nat)
    requires expectedLength > 0
    ensures var r := ParseAddressV(bits, expectedLength);
      if |bits| < 1 then r == OutOfFrame
      else if MsbValue(bits[..1]) != 1 then r == ReadError
      else if |bits| < 8 then r == OutOfFrame
      else
        var ton, plan := MsbValue(bits[1..4]), MsbValue(bits[4..8]);
        var d := ParseBcd(bits[8..], expectedLength - 1, if ton == INTERNATIONAL then "+" else "");
        r == if d.Ok? then Ok(Address(ton, plan, d.v), d.rest) else d.Failure()
  {
    hide MsbValue, ParseBcd;
  }

  /** A called party number that parses takes exactly the octets expected of it. */
  lemma ParseAddressVTakes(bits: seq<bool>, expectedLength: nat)
    requires expectedLength > 0
    ensures var r := ParseAddressV(bits, expectedLength);
      r.Ok? ==> 8 * expectedLength <= |bits| && r.rest == bits[8 * expectedLength..]
  {
    hide MsbValue, ParseBcd;
    if |bits| >= 8 {
      ParseBcdTakes(bits[8..], expectedLength - 1, if MsbValue(bits[1..4]) == INTERNATIONAL then "+" else "");
      TailOfTail(bits, 8, 8 * (expectedLength - 1));
    }
  }

  /** parseLV into an element that holds old: a length of 0 leaves it as it was. */
  function ParseAddressLV(bits: seq<bool>, old_: Address): Outcome<Address> {
    if |bits| < 8 then OutOfFrame
    else
      var n := Read(bits, 8);
      if n == 0 then Ok(old_, bits[8..]) else ParseAddressV(bits[8..], n)
  }

  // ---------- how the parse of a number ends ----------

  /** The characters that stand in front of the digits. */
  function PlusCount(bits: seq<bool>): nat
    requires |bits| >= 16
  {
    if MsbValue(bits[9..12]) == INTERNATIONAL then 1 else 0
  }

  /** Length octet, extension bit and digits are all there and the digits have room. */
  predicate AddressParses(bits: seq<bool>) {
    && |bits| >= 8
    && var n := Read(bits, 8);
       n == 0 || (8 + 8 * n <= |bits| && bits[8] && Room(bits[16..], n - 1, PlusCount(bits)))
  }

  /** The frame ends in front of a field that is read. */
  predicate AddressOverreads(bits: seq<bool>) {
    || |bits| < 8
    || var n := Read(bits, 8);
       && n != 0
       && (|bits| == 8 || (bits[8] && (|bits| < 16 || (|bits| < 8 + 8 * n && Room(bits[16..], n - 1, PlusCount(bits))))))
  }

  /** A second digit comes when the array is full. */
  ghost predicate AddressOverruns(bits: seq<bool>) {
    && |bits| >= 16
    && var n := Read(bits, 8);
       n != 0 && bits[8] && Overruns(bits[16..], n - 1, PlusCount(bits))
  }

  /** What stands behind an LV element. */
  function AfterLV(bits: seq<bool>): seq<bool>
    requires |bits| >= 8 && 8 + 8 * Read(bits, 8) <= |bits|
  {
    bits[8 + 8 * Read(bits, 8)..]
  }

  lemma OneBit(b: bool)
    ensures MsbValue([b]) == 1 <==> b
  {
  }

  lemma AddressVEnds(bits: seq<bool>, n: nat, plus: nat)
    requires n > 0
    requires |bits| >= 8 ==> plus == if MsbValue(bits[1..4]) == INTERNATIONAL then 1 else 0
    ensures var r := ParseAddressV(bits, n);
      && (r.Ok? <==> 8 * n <= |bits| && bits[0] && Room(bits[8..], n - 1, plus))
      && (r.OutOfFrame? <==>
           |bits| == 0 || (bits[0] && (|bits| < 8 || (|bits| < 8 * n && Room(bits[8..], n - 1, plus)))))
      && (r.Overrun? <==> |bits| >= 8 && bits[0] && Overruns(bits[8..], n - 1, plus))
  {
    hide MsbValue, ParseBcd, Room, Overruns;
    if |bits| > 0 {
      assert bits[..1] == [bits[0]];
      OneBit(bits[0]);
    }
    if |bits| >= 8 {
      ParseBcdEnds(bits[8..], n - 1, if MsbValue(bits[1..4]) == INTERNATIONAL then "+" else "");
    }
  }

  /** How the parse of a called party number ends, from its bits alone. */
  lemma AddressEnds(bits: seq<bool>, old_: Address)
    ensures var r := ParseAddressLV(bits, old_);
      && (r.Ok? <==> AddressParses(bits))
      && (r.OutOfFrame? <==> AddressOverreads(bits))
      && (r.Overrun? <==> AddressOverruns(bits))
      && (r.Ok? ==> r.rest == AfterLV(bits))
  {
    hide MsbValue, ParseAddressV, Room, Overruns, Read;
    if |bits| >= 8 && Read(bits, 8) != 0 {
      var n, v := Read(bits, 8), bits[8..];
      if |v| >= 8 { assert v[1..4] == bits[9..12] && v[8..] == bits[16..]; }
      AddressVEnds(v, n, if |v| >= 8 then PlusCount(bits) else 0);
      ParseAddressVTakes(v, n);
      TailOfTail(bits, 8, 8 * n);
    }
  }

  // ---------- a number that was written ----------

  /** The address as the reader sees it. */
  function AddressSeen(a: Address): Address {
    if StripPlus(a.digits) == "" then NO_ADDRESS
    else Address(a.ton, a.plan, (if a.ton == INTERNATIONAL then "+" else "") + Shown(StripPlus(a.digits)))
  }

  lemma HeaderFields(ton: nat, plan: nat, rest: seq<bool>)
    requires ton < 8 && plan < 16
    ensures var bits := MsbBits(1, 1) + MsbBits(ton, 3) + MsbBits(plan, 4) + rest;
      MsbValue(bits[..1]) == 1 && MsbValue(bits[1..4]) == ton && MsbValue(bits[4..8]) == plan && bits[8..] == rest
  {
    var bits := MsbBits(1, 1) + MsbBits(ton, 3) + MsbBits(plan, 4) + rest;
    assert bits[..1] == MsbBits(1, 1) && bits[1..4] == MsbBits(ton, 3) && bits[4..8] == MsbBits(plan, 4);
    assert Pow2(1) == 2 && Pow2(3) == 8 && Pow2(4) == 16;
    FieldValue(1, 1);
    FieldValue(ton, 3);
    FieldValue(plan, 4);
  }

  lemma LengthField(n: nat, rest: seq<bool>)
    ensures Read(MsbBits(n, 8) + rest, 8) == n % 256
    ensures (MsbBits(n, 8) + rest)[8..] == rest
  {
    var bits := MsbBits(n, 8) + rest;
    assert bits[..8] == MsbBits(n, 8);
    MsbValueOfBits(n, 8);
    assert Pow2(8) == 256 by { assert Pow2(4) == 16; }
  }

  lemma AddressVBits(a: Address, d: string, rest: seq<bool>)
    requires d == StripPlus(a.digits)
    ensures AddressV(a) + rest == MsbBits(1, 1) + MsbBits(a.ton, 3) + MsbBits(a.plan, 4) + (BcdBits(d) + rest)
  {
    hide MsbBits, BcdBits, StripPlus;
  }

  lemma ParseAddressVOf(ton: nat, plan: nat, bits: seq<bool>, n: nat)
    requires ton < 8 && plan < 16 && n > 0
    ensures var r := ParseBcd(bits, n - 1, if ton == INTERNATIONAL then "+" else "");
      ParseAddressV(MsbBits(1, 1) + MsbBits(ton, 3) + MsbBits(plan, 4) + bits, n)
      == if r.Ok? then Ok(Address(ton, plan, r.v), r.rest) else r.Failure()
  {
    hide MsbBits, MsbValue, ParseBcd;
    HeaderFields(ton, plan, bits);
  }

  lemma AddressVReadBack(a: Address, d: string, rest: seq<bool>, n: nat)
    requires a.Valid() && d == StripPlus(a.digits) && 0 < |d| <= MAX_DIGITS && n == 1 + Pairs(|d|)
    ensures ParseAddressV(AddressV(a) + rest, n)
         == if |AddressSeen(a).digits| > MAX_DIGITS then ReadError else Ok(AddressSeen(a), rest)
  {
    hide MsbBits, BcdBits, ParseBcd, StripPlus, AddressV, ParseAddressV, Pairs, Shown;
    AddressVBits(a, d, rest);
    ParseAddressVOf(a.ton, a.plan, BcdBits(d) + rest, n);
    ParseBcdBits(d, rest, if a.ton == INTERNATIONAL then "+" else "");
  }

  lemma AddressLVReadBack(a: Address, rest: seq<bool>, n: nat)
    requires n == AddressLengthV(a) && n < 256
    ensures n == 0 ==> ParseAddressLV(AddressLV(a) + rest, NO_ADDRESS) == Ok(NO_ADDRESS, rest)
    ensures n != 0 ==> ParseAddressLV(AddressLV(a) + rest, NO_ADDRESS) == ParseAddressV(AddressV(a) + rest, n)
  {
    hide AddressV, AddressLengthV, ParseAddressV, Read, MsbBits;
    var v := if n == 0 then rest else AddressV(a) + rest;
    assert AddressLV(a) + rest == MsbBits(n, 8) + v;
    LengthField(n, v);
  }

  lemma AddressReadBack(a: Address, rest: seq<bool>)
    requires a.Valid()
    ensures ParseAddressLV(AddressLV(a) + rest, NO_ADDRESS)
         == if |AddressSeen(a).digits| > MAX_DIGITS then ReadError else Ok(AddressSeen(a), rest)
  {
    var d := StripPlus(a.digits);
    PairsIs(|d|);
    AddressLVReadBack(a, rest, AddressLengthV(a));
    if d != "" { AddressVReadBack(a, d, rest, AddressLengthV(a)); }
  }

  /** The addresses that survive: the default one, and 1 or more valid digits with a '+' in
      front exactly when the number is international. */
  predicate AddressFits(a: Address) {
    || a == NO_ADDRESS
    || (&& StripPlus(a.digits) != ""
        && (forall i :: 0 <= i < |StripPlus(a.digits)| ==> IsDigit(StripPlus(a.digits)[i]))
        && (a.ton == INTERNATIONAL <==> a.digits[0] == '+'))
  }

  lemma SeenIsSame(a: Address)
    requires a.Valid()
    ensures AddressSeen(a) == a <==> AddressFits(a)
  {
    var d := StripPlus(a.digits);
    ShownIsSame(d);
    if d != "" {
      var r := (if a.ton == INTERNATIONAL then "+" else "") + Shown(d);
      if a.digits[0] == '+' {
        assert a.digits == "+" + d;
        if a.ton == INTERNATIONAL { assert r[1..] == Shown(d); } else { assert |r| != |a.digits|; }
      } else {
        if a.ton == INTERNATIONAL { assert r[0] == '+'; } else { assert r == Shown(d); }
      }
    }
  }

  /** An address survives writing and reading exactly when it fits. */
  lemma AddressRoundTrip(a: Address, rest: seq<bool>)
    requires a.Valid()
    ensures ParseAddressLV(AddressLV(a) + rest, NO_ADDRESS) == Ok(a, rest) <==> AddressFits(a)
  {
    AddressReadBack(a, rest);
    SeenIsSame(a);
  }

  /** A number built from a string: international and with a '+' or else national, in the plan of
      E.164, with the first 20 characters. */
  lemma FromStringIs(digits: string)
    ensures var a := FromString(digits);
      && a.ton == (if digits != "" && digits[0] == '+' then 1 else 2) && a.plan == 1
      && a.digits <= digits && |a.digits| == if |digits| < 20 then |digits| else 20
  {
  }

  /** Addresses built from a string fit when, after an optional '+', at least one character
      follows and all are valid; NO_ADDRESS fits. */
  lemma FromStringFits(digits: string)
    requires |digits| <= MAX_DIGITS
    ensures FromString(digits).Valid()
    ensures AddressFits(FromString(digits)) <==>
      StripPlus(digits) != "" && forall i :: 0 <= i < |StripPlus(digits)| ==> IsDigit(StripPlus(digits)[i])
  {
    if digits != "" && digits[0] != '+' { assert StripPlus(digits) == digits; }
  }

  // ---------- data as an LV element ----------

  /** RPUserData::lengthV: a partial octet counts as one. */
  function OctetsFor(bits: nat): nat { (bits + 7) / 8 }

  lemma OctetsForIs(bits: nat, pad: nat, n: nat)
    requires bits + pad == 8 * n && pad < 8
    ensures OctetsFor(bits) == n
  {
  }

  lemma OctetsForPad(bits: nat)
    ensures bits <= 8 * OctetsFor(bits) < bits + 8
    ensures 8 * OctetsFor(bits) == bits <==> bits % 8 == 0
  {
  }

  function DataLV(data: seq<bool>): (r: seq<bool>)
    ensures |r| == 8 + |data|
  {
    MsbBits(OctetsFor(|data|), 8) + data
  }

  function ParseDataLV(bits: seq<bool>, old_: seq<bool>): Outcome<seq<bool>> {
    if |bits| < 8 then OutOfFrame
    else
      var n := Read(bits, 8);
      if n == 0 then Ok(old_, bits[8..])
      else if 8 * n > |bits| - 8 then ReadError
      else Ok(bits[8..8 + 8 * n], bits[8 + 8 * n..])
  }

  lemma ParseDataCases(bits: seq<bool>, old_: seq<bool>)
    ensures var r := ParseDataLV(bits, old_);
      if |bits| < 8 then r == OutOfFrame
      else
        var n := MsbValue(bits[..8]);
        if n == 0 then r == Ok(old_, bits[8..])
        else if 8 * n > |bits| - 8 then r == ReadError
        else r == Ok(bits[8..8 + 8 * n], bits[8 + 8 * n..])
  {
    hide MsbValue;
  }

  /** Data at the end of a frame that has been sized by the length functions: behind a
      partial octet stay the bits pad that the frame had before. */
  lemma DataReadBack(data: seq<bool>, pad: seq<bool>, n: nat)
    requires |data| + |pad| == 8 * n && |pad| < 8
    ensures n < 256 ==> ParseDataLV(DataLV(data) + pad, []) == Ok(data + pad, [])
    ensures n >= 256 ==> var r := ParseDataLV(DataLV(data) + pad, []); r.Ok? && |r.v| < |data|
  {
    hide MsbBits, Read, OctetsFor;
    var k, all := n % 256, data + pad;
    OctetsForIs(|data|, |pad|, n);
    assert DataLV(data) + pad == MsbBits(n, 8) + all;
    LengthField(n, all);
    if n < 256 {
      DataTaken(MsbBits(n, 8) + all, all, n);
    } else {
      assert k < n - 1;
    }
  }

  lemma DataTaken(bits: seq<bool>, all: seq<bool>, n: nat)
    requires |bits| == 8 + 8 * n && |all| == 8 * n && bits[8..] == all
    ensures bits[8..8 + 8 * n] == all && bits[8 + 8 * n..] == []
  {
  }

  // ---------- messages ----------

  datatype RPData = RPData(reference: nat, originator: Address, destination: Address, tpdu: seq<bool>) {
    predicate Valid() { originator.Valid() && destination.Valid() }
  }

  const RP_DATA_MTI: nat := 0

  function RPBodyLength(m: RPData): nat {
    (AddressLengthV(m.originator) + 1) + (AddressLengthV(m.destination) + 1) + (OctetsFor(|m.tpdu|) + 1)
  }

  /** bitsNeeded() of an RP message */
  function RPBitsNeeded(m: RPData): nat { 8 * (RPBodyLength(m) + 2) }

  function RPHeader(m: RPData): (r: seq<bool>)
    ensures |r| == 16
  {
    MsbBits(0, 5) + MsbBits(RP_DATA_MTI + 1, 3) + MsbBits(m.reference, 8)
  }

  lemma HeaderIsReference(m: RPData)
    ensures RPHeader(m) == RPHeader(RPData(m.reference, NO_ADDRESS, NO_ADDRESS, []))
  {
    hide MsbBits;
  }

  function RPBody(m: RPData): seq<bool> { AddressLV(m.originator) + AddressLV(m.destination) + DataLV(m.tpdu) }

  function WriteRP(m: RPData): seq<bool> { RPHeader(m) + RPBody(m) }

  function ParseRPBody(bits: seq<bool>, reference: nat): Outcome<RPData> {
    var o := ParseAddressLV(bits, NO_ADDRESS);
    if !o.Ok? then o.Failure()
    else
      var d := ParseAddressLV(o.rest, NO_ADDRESS);
      if !d.Ok? then d.Failure()
      else
        var u := ParseDataLV(d.rest, []);
        if !u.Ok? then u.Failure() else Ok(RPData(reference, o.v, d.v, u.v), u.rest)
  }

  /** RPMessage::parse of a frame into a fresh RPData; the header is skipped unread. */
  function ParseRP(frame: seq<bool>): Outcome<RPData> {
    if |frame| < 16 then OutOfFrame else ParseRPBody(frame[16..], MsbValue(frame[8..16]))
  }

  /** A frame that ends in front of a field that is read: there the outcome is undefined. */
  predicate RPOverreads(frame: seq<bool>) {
    || |frame| < 16
    || var originator := frame[16..];
       || AddressOverreads(originator)
       || (&& AddressParses(originator)
           && var destination := AfterLV(originator);
              || AddressOverreads(destination)
              || (AddressParses(destination) && |AfterLV(destination)| < 8))
  }

  /** A frame whose first bad number stores a digit behind its array: undefined as well. */
  ghost predicate RPOverruns(frame: seq<bool>) {
    && |frame| >= 16
    && var originator := frame[16..];
       || AddressOverruns(originator)
       || (AddressParses(originator) && AddressOverruns(AfterLV(originator)))
  }

  /** For which frames the parse of an RP-DATA message is undefined. */
  lemma RPUndefined(frame: seq<bool>)
    ensures ParseRP(frame).OutOfFrame? <==> RPOverreads(frame)
    ensures ParseRP(frame).Overrun? <==> RPOverruns(frame)
  {
    hide MsbValue, ParseAddressLV, AddressOverreads, AddressOverruns, Read, Room;
    if |frame| >= 16 {
      var originator := frame[16..];
      AddressEnds(originator, NO_ADDRESS);
      if AddressParses(originator) { AddressEnds(AfterLV(originator), NO_ADDRESS); }
    }
  }

  datatype CPMessage =
    | CPData(ti: nat, rpdu: seq<bool>)
    | CPAck(ti: nat)

  datatype CPOutcome =
    | Unsupported                       // the factory knows no such message type: NULL
    | Aborted                           // CPError::parseBody asserts
    | Parsed(message: Outcome<CPMessage>)

  const PD_SMS: nat := 9
  const CP_DATA: nat := 1
  const CP_ACK: nat := 4
  const CP_ERROR: nat := 16

  /** CPUserData::lengthV: unlike RPUserData's, it leaves a partial octet out. */
  function CPLengthV(bits: nat): nat { bits / 8 }

  /** bitsNeeded() of a CP-DATA message */
  function CPBitsNeeded(rpdu: seq<bool>): nat { 8 * (CPLengthV(|rpdu|) + 1 + 2) }

  function CPHeader(ti: nat): (r: seq<bool>)
    ensures |r| == 16
  {
    MsbBits(ti, 4) + MsbBits(PD_SMS, 4) + MsbBits(CP_DATA, 8)
  }

  /** writeLV writes the value, all of its bits, unless its length is 0. */
  function CPDataLV(rpdu: seq<bool>): seq<bool> {
    MsbBits(CPLengthV(|rpdu|), 8) + (if CPLengthV(|rpdu|) != 0 then rpdu else [])
  }

  /** What CPMessage::write puts into a frame that has the room. */
  function WriteCP(ti: nat, rpdu: seq<bool>): seq<bool> { CPHeader(ti) + CPDataLV(rpdu) }

  /** The writes that end: all others fail the assertion of copyToSegment. */
  predicate CPWrites(rpdu: seq<bool>) { |rpdu| < 8 || |rpdu| % 8 == 0 }

  /** parseSMS */
  function ParseCP(frame: seq<bool>): CPOutcome {
    if |frame| < 16 then Parsed(OutOfFrame)
    else
      var ti, mti := MsbValue(frame[..4]), MsbValue(frame[8..16]);
      if mti == CP_DATA then
        var r := ParseDataLV(frame[16..], []);
        Parsed(if r.Ok? then Ok(CPData(ti, r.v), r.rest) else r.Failure())
      else if mti == CP_ACK then Parsed(Ok(CPAck(ti), frame[16..]))
      else if mti == CP_ERROR then Aborted
      else Unsupported
  }

  /** What parseSMS makes of each message type, in the second octet: 1 is CP-DATA, 4 a CP-ACK, 16 a
      CP-ERROR; the transaction identifier is in the upper half of the first. */
  lemma CPKinds(frame: seq<bool>)
    requires |frame| >= 16
    ensures var ti, mti, o := MsbValue(frame[..4]), MsbValue(frame[8..16]), ParseCP(frame);
      && (mti == 1 ==> o.Parsed? && (o.message.Ok? ==> o.message.v.CPData? && o.message.v.ti == ti))
      && (mti == 4 ==> o == Parsed(Ok(CPAck(ti), frame[16..])))
      && (mti == 16 <==> o == Aborted)
      && (mti !in {1, 4, 16} <==> o == Unsupported)
  {
    hide MsbValue, ParseDataLV;
  }

  /** The parse of a connection layer message is undefined exactly when its header, or the
      length octet of a CP-DATA message, is not all there. */
  lemma CPUndefined(frame: seq<bool>)
    ensures ParseCP(frame) == Parsed(OutOfFrame)
       <==> |frame| < 16 || (MsbValue(frame[8..16]) == CP_DATA && |frame| < 24)
    ensures ParseCP(frame) != Parsed(Overrun)
  {
    hide MsbValue, Read;
  }

  // ---------- lengths ----------

  lemma AddressLength(a: Address)
    ensures |AddressLV(a)| == 8 * (AddressLengthV(a) + 1)
  {
    PairsIs(|StripPlus(a.digits)|);
  }

  /** The room that bitsNeeded() gives an RP-DATA message is the bits written, rounded up to
      whole octets. */
  lemma RPLength(m: RPData)
    ensures RPBitsNeeded(m) == |WriteRP(m)| - |m.tpdu| + 8 * OctetsFor(|m.tpdu|)
  {
    hide AddressLV, AddressLengthV, OctetsFor, MsbBits;
    AddressLength(m.originator);
    AddressLength(m.destination);
  }

  /** RP-DATA: the room is the number of bits written exactly when the user data is whole
      octets; a partial octet leaves fewer than eight bits of the frame unwritten. */
  lemma LengthsAgree(m: RPData)
    ensures 0 <= RPBitsNeeded(m) - |WriteRP(m)| < 8
    ensures RPBitsNeeded(m) == |WriteRP(m)| <==> |m.tpdu| % 8 == 0
  {
    hide OctetsFor, WriteRP, RPBitsNeeded;
    RPLength(m);
    OctetsForPad(|m.tpdu|);
  }

  /** CP-DATA: the room falls short by the bits of a partial octet, so that the message fits
      exactly when the RPDU is whole octets, or none, of which nothing is written. */
  lemma CPFallsShort(ti: nat, rpdu: seq<bool>)
    ensures |WriteCP(ti, rpdu)| - CPBitsNeeded(rpdu) == if |rpdu| < 8 then 0 else |rpdu| % 8
    ensures |WriteCP(ti, rpdu)| <= CPBitsNeeded(rpdu) <==> CPWrites(rpdu)
  {
    hide MsbBits;
  }

  // ---------- the octets of the frames ----------

  lemma TwoFields(a: nat, n: nat, b: nat, k: nat)
    requires n + k == 8 && a < Pow2(n) && b < Pow2(k)
    ensures MsbValue(MsbBits(a, n) + MsbBits(b, k)) == a * Pow2(k) + b
  {
    hide *;
    MsbValueConcat(MsbBits(a, n), MsbBits(b, k));
    FieldValue(a, n);
    FieldValue(b, k);
  }

  lemma SmallPowers()
    ensures Pow2(1) == 2 && Pow2(3) == 8 && Pow2(4) == 16 && Pow2(5) == 32 && Pow2(7) == 128 && Pow2(8) == 256
  {
    assert Pow2(4) == 16;
  }

  /** An octet of the number's length, then one of 128, the type in sixteens and the plan, then
      the digits; without digits the length 0 and nothing. */
  lemma AddressLayout(a: Address)
    requires a.Valid()
    ensures var b, d := AddressLV(a), StripPlus(a.digits);
      && |b| == (if d == "" then 8 else 16 + 8 * Pairs(|d|))
      && MsbValue(b[..8]) == (if d == "" then 0 else 1 + Pairs(|d|))
      && (d != "" ==> MsbValue(b[8..16]) == 128 + 16 * a.ton + a.plan && KeyedAs(b[16..], d))
  {
    var d, n := StripPlus(a.digits), AddressLengthV(a);
    PairsIs(|d|);
    assert n == if d == "" then 0 else 1 + Pairs(|d|);
    assert n % 256 == n;
    AddressOctets(a, d, n);
    OctetField(n);
    BcdIsKeyed(d);
    TypeOctet(a.ton, a.plan);
    hide MsbBits, MsbValue, BcdBits, KeyedAs, AddressLV, StripPlus;
  }

  lemma AddressOctets(a: Address, d: string, n: nat)
    requires d == StripPlus(a.digits) && n == AddressLengthV(a) && (d == "" <==> n == 0)
    ensures AddressLV(a)[..8] == MsbBits(n, 8)
    ensures d == "" ==> |AddressLV(a)| == 8
    ensures d != "" ==>
      |AddressLV(a)| == 16 + 8 * Pairs(|d|) && AddressLV(a)[16..] == BcdBits(d)
      && AddressLV(a)[8..16] == MsbBits(1, 1) + (MsbBits(a.ton, 3) + MsbBits(a.plan, 4))
  {
    hide MsbBits, BcdBits, StripPlus, AddressLengthV, Pairs;
  }

  lemma TypeOctet(ton: nat, plan: nat)
    requires ton < 8 && plan < 16
    ensures MsbValue(MsbBits(1, 1) + (MsbBits(ton, 3) + MsbBits(plan, 4))) == 128 + 16 * ton + plan
  {
    SmallPowers();
    hide *;
    MsbValueConcat(MsbBits(1, 1), MsbBits(ton, 3) + MsbBits(plan, 4));
    MsbValueConcat(MsbBits(ton, 3), MsbBits(plan, 4));
    FieldValue(1, 1);
    FieldValue(ton, 3);
    FieldValue(plan, 4);
  }

  /** The octet 1, the reference, the originator, the destination, the octets of the user data,
      and the user data. */
  lemma RPLayout(m: RPData)
    ensures var f := WriteRP(m); var o, d := |AddressLV(m.originator)|, |AddressLV(m.destination)|;
      && |f| == 16 + o + d + 8 + |m.tpdu|
      && MsbValue(f[..8]) == 1 && MsbValue(f[8..16]) == m.reference % 256
      && f[16..16 + o] == AddressLV(m.originator) && f[16 + o..16 + o + d] == AddressLV(m.destination)
      && MsbValue(f[16 + o + d..16 + o + d + 8]) == OctetsFor(|m.tpdu|) % 256
      && f[16 + o + d + 8..] == m.tpdu
  {
    hide AddressLV, OctetsFor, MsbValue, MsbBits, Pow2;
    var f, n := WriteRP(m), OctetsFor(|m.tpdu|);
    var o, d := |AddressLV(m.originator)|, |AddressLV(m.destination)|;
    assert f[..8] == MsbBits(0, 5) + MsbBits(1, 3) && f[8..16] == MsbBits(m.reference, 8);
    assert f[16 + o + d..16 + o + d + 8] == MsbBits(n, 8);
    SmallPowers();
    TwoFields(0, 5, 1, 3);
    OctetField(m.reference);
    OctetField(n);
  }

  /** The transaction identifier in sixteens and 9, the octet 1, the whole octets of the RPDU,
      and the RPDU unless there are none. */
  lemma CPLayout(ti: nat, rpdu: seq<bool>)
    requires ti < 16
    ensures var f := WriteCP(ti, rpdu);
      && |f| >= 24 && MsbValue(f[..8]) == 16 * ti + 9 && MsbValue(f[8..16]) == 1
      && MsbValue(f[16..24]) == CPLengthV(|rpdu|) % 256
      && f[24..] == if CPLengthV(|rpdu|) == 0 then [] else rpdu
  {
    hide MsbValue, MsbBits, Pow2, CPLengthV;
    var f := WriteCP(ti, rpdu);
    assert f[..8] == MsbBits(ti, 4) + MsbBits(9, 4) && f[8..16] == MsbBits(1, 8);
    assert f[16..24] == MsbBits(CPLengthV(|rpdu|), 8);
    SmallPowers();
    TwoFields(ti, 4, 9, 4);
    OctetField(1);
    OctetField(CPLengthV(|rpdu|));
  }

  // ---------- round trips ----------

  lemma OctetField(v: nat)
    ensures MsbValue(MsbBits(v, 8)) == v % 256
  {
    MsbValueOfBits(v, 8);
    assert Pow2(8) == 256 by { assert Pow2(4) == 16; }
  }

  lemma ParseRPOf(m: RPData, reference: nat, data: seq<bool>)
    requires reference == m.reference % 256
    ensures ParseRP(RPHeader(m) + (AddressLV(m.originator) + AddressLV(m.destination) + data))
         == ParseRPBody(AddressLV(m.originator) + AddressLV(m.destination) + data, reference)
  {
    hide AddressLV, MsbBits, MsbValue, ParseRPBody;
    var body := AddressLV(m.originator) + AddressLV(m.destination) + data;
    OctetField(m.reference);
    assert (RPHeader(m) + body)[8..16] == MsbBits(m.reference, 8);
    assert (RPHeader(m) + body)[16..] == body;
  }

  lemma WriteRPParts(m: RPData, pad: seq<bool>)
    ensures WriteRP(m) + pad
         == RPHeader(m) + (AddressLV(m.originator) + AddressLV(m.destination) + (DataLV(m.tpdu) + pad))
  {
    hide RPHeader, AddressLV, DataLV;
  }

  lemma BodyReadBack(o: Address, d: Address, u: seq<bool>, reference: nat, pad: seq<bool>, n: nat)
    requires o.Valid() && d.Valid() && |u| + |pad| == 8 * n && |pad| < 8
    ensures ParseRPBody(AddressLV(o) + AddressLV(d) + (DataLV(u) + pad), reference) == Ok(RPData(reference, o, d, u), [])
            <==> AddressFits(o) && AddressFits(d) && pad == [] && n < 256
    ensures var r := ParseRPBody(AddressLV(o) + AddressLV(d) + (DataLV(u) + pad), reference);
      r.Ok? && r.v == RPData(reference, o, d, u) ==> r.rest == []
  {
    hide AddressLV, AddressFits, AddressSeen, DataLV, ParseAddressLV, ParseDataLV;
    var data := DataLV(u) + pad;
    var rest1 := AddressLV(d) + data;
    assert AddressLV(o) + AddressLV(d) + data == AddressLV(o) + rest1;
    AddressReadBack(o, rest1);
    AddressReadBack(d, data);
    SeenIsSame(o);
    SeenIsSame(d);
    DataReadBack(u, pad, n);
    assert u + pad == u <==> pad == [] by { assert |u + pad| == |u| + |pad|; }
  }

  lemma ReferenceKept(bits: seq<bool>, reference: nat)
    ensures ParseRPBody(bits, reference).Ok? ==> ParseRPBody(bits, reference).v.reference == reference
  {
    hide ParseAddressLV, ParseDataLV;
  }

  /** An RP-DATA frame of the size the length function gives, whatever stood in its unwritten
      bits, reads back exactly when the reference, both addresses and the user data fit. */
  lemma RPRoundTrip(m: RPData, pad: seq<bool>, n: nat)
    requires m.Valid() && |m.tpdu| + |pad| == 8 * n && |pad| < 8
    ensures ParseRP(WriteRP(m) + pad) == Ok(m, [])
            <==> m.reference < 256 && AddressFits(m.originator) && AddressFits(m.destination) && pad == [] && n < 256
    ensures var r := ParseRP(WriteRP(m) + pad); r.Ok? && r.v == m ==> r.rest == []
  {
    hide ParseRP, ParseRPBody, WriteRP, AddressFits, AddressLV, DataLV;
    var reference := m.reference % 256;
    WriteRPParts(m, pad);
    ParseRPOf(m, reference, DataLV(m.tpdu) + pad);
    BodyReadBack(m.originator, m.destination, m.tpdu, reference, pad, n);
    if m.reference < 256 {
      assert RPData(reference, m.originator, m.destination, m.tpdu) == m;
    } else {
      ReferenceKept(AddressLV(m.originator) + AddressLV(m.destination) + (DataLV(m.tpdu) + pad), reference);
    }
  }

  /** User data whose last octet has changed, the length octet if there is no other, does not
      read back as it was. */
  lemma DataDiffers(u: seq<bool>, x: seq<bool>, k: nat)
    requires |u| == 8 * k && k < 256 && |x| == 8 + |u|
    requires x != DataLV(u) && x[..|u|] == DataLV(u)[..|u|]
    ensures var r := ParseDataLV(x, []); !(r.Ok? && r.v == u)
  {
    hide MsbBits, MsbValue, OctetsFor, ParseDataLV;
    OctetsForIs(|u|, 0, k);
    ParseDataCases(x, []);
    var head := MsbBits(k, 8);
    assert DataLV(u) == head + u;
    if k == 0 {
      assert x[..8] == x && head + u == head;
      MsbBitsOfValue(x);
    } else {
      assert x[..8] == x[..|u|][..8] == head;
      OctetField(k);
      assert x == x[..8] + x[8..];
    }
  }

  lemma BodyDiffers(o: Address, d: Address, u: seq<bool>, x: seq<bool>, reference: nat, k: nat)
    requires o.Valid() && d.Valid() && AddressFits(o) && AddressFits(d)
    requires |u| == 8 * k && k < 256 && |x| == 8 + |u|
    requires x != DataLV(u) && x[..|u|] == DataLV(u)[..|u|]
    ensures var r := ParseRPBody(AddressLV(o) + AddressLV(d) + x, reference); !(r.Ok? && r.v.tpdu == u)
  {
    hide AddressLV, AddressFits, AddressSeen, DataLV, ParseAddressLV, ParseDataLV;
    var rest1 := AddressLV(d) + x;
    assert AddressLV(o) + AddressLV(d) + x == AddressLV(o) + rest1;
    AddressRoundTrip(o, rest1);
    AddressRoundTrip(d, x);
    DataDiffers(u, x, k);
  }

  lemma SplitFrame(head: seq<bool>, data: seq<bool>, other: seq<bool>)
    requires |other| == |head + data| && other != head + data && 8 <= |data|
    requires other[..|other| - 8] == (head + data)[..|other| - 8]
    ensures var x := other[|head|..];
      other == head + x && |x| == |data| && x != data && x[..|x| - 8] == data[..|x| - 8]
  {
    var x, n := other[|head|..], |other| - 8;
    assert other[..|head|] == other[..n][..|head|] == (head + data)[..n][..|head|] == head;
    assert x[..|x| - 8] == other[..n][|head|..] == (head + data)[..n][|head|..] == data[..|x| - 8];
    assert other == head + x;
  }

  /** A frame that differs in its last octet alone does not read back as the same message. */
  lemma LastOctetMatters(m: RPData, other: seq<bool>, k: nat)
    requires m.Valid() && AddressFits(m.originator) && AddressFits(m.destination)
    requires |m.tpdu| == 8 * k && k < 256
    requires |other| == |WriteRP(m)| >= 8 && other != WriteRP(m)
    requires other[..|other| - 8] == WriteRP(m)[..|other| - 8]
    ensures var r := ParseRP(other); !(r.Ok? && r.v == m)
  {
    hide ParseRP, ParseRPBody, WriteRP, AddressFits, AddressLV, DataLV, RPHeader;
    var addresses, data := AddressLV(m.originator) + AddressLV(m.destination), DataLV(m.tpdu);
    var head := RPHeader(m) + addresses;
    WriteRPParts(m, []);
    assert WriteRP(m) == WriteRP(m) + [] == head + data;
    SplitFrame(head, data, other);
    var x := other[|head|..];
    assert other == RPHeader(m) + (addresses + x);
    ParseRPOf(m, m.reference % 256, x);
    BodyDiffers(m.originator, m.destination, m.tpdu, x, m.reference % 256, k);
  }

  lemma CPFrameParts(ti: nat, rest: seq<bool>)
    ensures MsbValue((CPHeader(ti) + rest)[..4]) == ti % 16 && MsbValue((CPHeader(ti) + rest)[8..16]) == CP_DATA
    ensures (CPHeader(ti) + rest)[16..] == rest
  {
    hide MsbBits, MsbValue;
    var f := CPHeader(ti) + rest;
    assert f[..4] == MsbBits(ti, 4) && f[8..16] == MsbBits(CP_DATA, 8);
    MsbValueOfBits(ti, 4);
    assert Pow2(4) == 16;
    OctetField(CP_DATA);
  }

  lemma ParseCPOf(ti: nat, rest: seq<bool>, t: nat)
    requires t == ti % 16
    ensures var r := ParseDataLV(rest, []);
      ParseCP(CPHeader(ti) + rest)
      == Parsed(if r.Ok? then Ok(CPData(t, r.v), r.rest) else r.Failure())
  {
    hide CPHeader, MsbValue, ParseDataLV;
    CPFrameParts(ti, rest);
  }

  /** For whole octets the two user data elements write the same. */
  lemma CPDataWhole(rpdu: seq<bool>, n: nat)
    requires |rpdu| == 8 * n
    ensures CPDataLV(rpdu) == DataLV(rpdu) + []
  {
    hide MsbBits;
    OctetsForIs(|rpdu|, 0, n);
  }

  lemma CPDataLost(rpdu: seq<bool>)
    requires |rpdu| < 8
    ensures ParseDataLV(CPDataLV(rpdu), []) == Ok([], [])
  {
    hide MsbBits, Read;
    assert CPDataLV(rpdu) == MsbBits(0, 8) + [];
    LengthField(0, []);
  }

  /** A CP-DATA message can be written and then reads back as it was exactly when the
      transaction identifier fits and the RPDU is whole octets, at most 255. */
  lemma CPRoundTrip(ti: nat, rpdu: seq<bool>)
    ensures CPWrites(rpdu) && ParseCP(WriteCP(ti, rpdu)) == Parsed(Ok(CPData(ti, rpdu), []))
       <==> ti < 16 && |rpdu| % 8 == 0 && CPLengthV(|rpdu|) < 256
  {
    hide MsbBits, MsbValue, CPHeader, CPDataLV, ParseDataLV, ParseCP, DataLV;
    var t, n := ti % 16, CPLengthV(|rpdu|);
    ParseCPOf(ti, CPDataLV(rpdu), t);
    if |rpdu| % 8 == 0 {
      CPDataWhole(rpdu, n);
      DataReadBack(rpdu, [], n);
      assert rpdu + [] == rpdu;
    } else if |rpdu| < 8 {
      CPDataLost(rpdu);
    }
  }

  /** The frames as they go out, each of the size bitsNeeded() gives: the RP frame with pad
      behind the written bits, and the CP frame around it. */
  ghost predicate SizedAs(m: RPData, pad: seq<bool>) { |pad| == RPBitsNeeded(m) - |WriteRP(m)| }

  /** An RP-DATA message inside a CP-DATA frame comes back whole through both parsers exactly
      when the transaction identifier and the reference fit their fields, both addresses fit,
      the user data is whole octets, and the RPDU has at most 255 octets. */
  lemma LayeredRoundTrip(m: RPData, ti: nat, pad: seq<bool>)
    requires m.Valid() && SizedAs(m, pad)
    ensures var rpdu := WriteRP(m) + pad;
      CPBitsNeeded(rpdu) == |WriteCP(ti, rpdu)|
      && (ParseCP(WriteCP(ti, rpdu)) == Parsed(Ok(CPData(ti, rpdu), [])) && ParseRP(rpdu) == Ok(m, [])
          <==>
          && ti < 16 && m.reference < 256 && AddressFits(m.originator) && AddressFits(m.destination)
          && |m.tpdu| % 8 == 0 && RPBitsNeeded(m) <= 8 * 255)
  {
    var rpdu, n, k := WriteRP(m) + pad, RPBodyLength(m) + 2, OctetsFor(|m.tpdu|);
    assert RPBitsNeeded(m) == 8 * n && k <= n;
    hide *;
    RPLength(m);
    assert |rpdu| == 8 * n && |m.tpdu| + |pad| == 8 * k by { SizeOf(m, pad, n, k); }
    CPFallsShort(ti, rpdu);
    CPRoundTrip(ti, rpdu);
    CPLengthIs(|rpdu|, n);
    RPRoundTrip(m, pad, k);
    assert pad == [] <==> |m.tpdu| % 8 == 0 by { SizeOf(m, pad, n, k); }
  }

  lemma SizeOf(m: RPData, pad: seq<bool>, n: nat, k: nat)
    requires SizedAs(m, pad) && RPBitsNeeded(m) == 8 * n && k == OctetsFor(|m.tpdu|)
    ensures |WriteRP(m) + pad| == 8 * n && |m.tpdu| + |pad| == 8 * k && |pad| < 8
    ensures pad == [] <==> |m.tpdu| % 8 == 0
  {
    hide OctetsFor, WriteRP, RPBitsNeeded;
    RPLength(m);
    OctetsForPad(|m.tpdu|);
  }

  lemma CPLengthIs(bits: nat, n: nat)
    requires bits == 8 * n
    ensures CPLengthV(bits) == n && bits % 8 == 0
  {
  }
}
