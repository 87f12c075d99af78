/** The shift register of Generator and the codes of Parity. */
module Crc {
  import opened Fields
  import opened Gf2

  /** Data bits go through the register first bit first: the first bit has the highest power. */
  function DataPoly(data: seq<bool>): (p: Poly)
    ensures |p| == |data|
    ensures forall k :: 0 <= k < |data| ==> p[k] == data[|data| - 1 - k]
  {
    Reverse(data)
  }

  /** x^n * p */
  function Shifted(p: Poly, n: nat): Poly { Falses(n) + p }

  // ---------- one step of the register, on its low n bits ----------

  function SyndromeStep(g: Poly, s: Poly, b: bool): (r: Poly)
    requires |s| >= 1 && |g| == |s| + 1
    ensures |r| == |s|
    ensures forall k {:trigger r[k]} :: 0 <= k < |s| ==>
      r[k] == Xor(if k == 0 then b else s[k - 1], s[|s| - 1] && g[k])
  {
    seq(|s|, k requires 0 <= k < |s| => Xor(if k == 0 then b else s[k - 1], s[|s| - 1] && g[k]))
  }

  function EncoderStep(g: Poly, s: Poly, b: bool): (r: Poly)
    requires |s| >= 1 && |g| == |s| + 1
    ensures |r| == |s|
    ensures forall k {:trigger r[k]} :: 0 <= k < |s| ==>
      r[k] == Xor(k > 0 && s[k - 1], Xor(s[|s| - 1], b) && g[k])
  {
    seq(|s|, k requires 0 <= k < |s| => Xor(k > 0 && s[k - 1], Xor(s[|s| - 1], b) && g[k]))
  }

  function SyndromeFrom(g: Poly, s: Poly, data: seq<bool>): (r: Poly)
    requires |s| >= 1 && |g| == |s| + 1
    ensures |r| == |s|
  {
    if data == [] then s else SyndromeStep(g, SyndromeFrom(g, s, data[..|data| - 1]), data[|data| - 1])
  }

  function Syndrome(g: Poly, n: nat, data: seq<bool>): (r: Poly)
    requires n >= 1 && |g| == n + 1
    ensures |r| == n
  {
    SyndromeFrom(g, Falses(n), data)
  }

  function Parity(g: Poly, n: nat, data: seq<bool>): (r: Poly)
    requires n >= 1 && |g| == n + 1
    ensures |r| == n
  {
    if data == [] then Falses(n) else EncoderStep(g, Parity(g, n, data[..|data| - 1]), data[|data| - 1])
  }

  // ---------- the register divides ----------

  lemma DataCoef(data: seq<bool>, n: nat, k: int)
    requires data != []
    ensures var last := |data| - 1;
      Coef(Shifted(DataPoly(data), n), k)
      == Xor(Coef(Shifted(DataPoly(data[..last]), n), k - 1), k == n && data[last])
  {
  }

  lemma ShiftedByNone(p: Poly)
    ensures Shifted(p, 0) == p
  {
  }

  lemma SyndromeCoef(g: Poly, n: nat, s: Poly, b: bool, k: int)
    requires n >= 1 && Monic(g, n) && |s| == n
    ensures Coef(SyndromeStep(g, s, b), k)
         == Xor(Xor(Coef(s, k - 1), s[n - 1] && Coef(g, k)), k == 0 && b)
  {
  }

  lemma ParityCoef(g: Poly, n: nat, s: Poly, b: bool, k: int)
    requires n >= 1 && Monic(g, n) && |s| == n
    ensures Coef(EncoderStep(g, s, b), k)
         == Xor(Xor(Coef(s, k - 1), Xor(s[n - 1], b) && Coef(g, k)), k == n && b)
  {
  }

  lemma MulCoefMore(h: bool, q: Poly, g: Poly, k: int)
    ensures MulCoef([h] + q, g, k) == Xor(h && Coef(g, k), MulCoef(q, g, k - 1))
  {
    hide Coef;
    assert ([h] + q)[1..] == q;
  }

  /** One step of a register: dividend and remainder move up by one place and take in b; the
      quotient gets the bit h, for which the remainder takes in the divisor. */
  lemma DividesStep(g: Poly, h: bool, q: Poly, d0: Poly, s0: Poly, d: Poly, s: Poly, place: nat, b: bool)
    requires Divides(d0, q, g, s0)
    requires forall k: int :: Coef(d, k) == Xor(Coef(d0, k - 1), k == place && b)
    requires forall k: int :: Coef(s, k) == Xor(Xor(Coef(s0, k - 1), h && Coef(g, k)), k == place && b)
    ensures Divides(d, [h] + q, g, s)
  {
    hide Coef, MulCoef;
    forall k: int ensures Coef(d, k) == Xor(MulCoef([h] + q, g, k), Coef(s, k)) {
      MulCoefMore(h, q, g, k);
      assert Coef(d0, k - 1) == Xor(MulCoef(q, g, k - 1), Coef(s0, k - 1));
    }
  }

  lemma NothingDivides(g: Poly, n: nat, d: Poly)
    requires d == [] || d == Falses(n)
    ensures Divides(d, [], g, Falses(n))
  {
  }

  lemma {:induction false} SyndromeDivides(g: Poly, n: nat, data: seq<bool>) returns (q: Poly)
    requires n >= 1 && Monic(g, n)
    ensures Divides(DataPoly(data), q, g, Syndrome(g, n, data))
    decreases |data|
  {
    if data == [] {
      q := [];
      NothingDivides(g, n, DataPoly(data));
    } else {
      var init, b := data[..|data| - 1], data[|data| - 1];
      q := SyndromeDivides(g, n, init);
      var s0, s := Syndrome(g, n, init), Syndrome(g, n, data);
      assert s == SyndromeStep(g, s0, b);
      hide Coef, Divides, Syndrome, DataPoly, Shifted;
      var d0, d := DataPoly(init), DataPoly(data);
      ShiftedByNone(d0);
      ShiftedByNone(d);
      forall k: int ensures Coef(d, k) == Xor(Coef(d0, k - 1), k == 0 && b) { DataCoef(data, 0, k); }
      forall k: int ensures Coef(s, k) == Xor(Xor(Coef(s0, k - 1), s0[n - 1] && Coef(g, k)), k == 0 && b) {
        SyndromeCoef(g, n, s0, b, k);
      }
      DividesStep(g, s0[n - 1], q, d0, s0, d, s, 0, b);
      q := [s0[n - 1]] + q;
    }
  }

  lemma {:induction false} ParityDivides(g: Poly, n: nat, data: seq<bool>) returns (q: Poly)
    requires n >= 1 && Monic(g, n)
    ensures Divides(Shifted(DataPoly(data), n), q, g, Parity(g, n, data))
    decreases |data|
  {
    if data == [] {
      q := [];
      NothingDivides(g, n, Shifted(DataPoly(data), n));
    } else {
      var init, b := data[..|data| - 1], data[|data| - 1];
      q := ParityDivides(g, n, init);
      var s0, s := Parity(g, n, init), Parity(g, n, data);
      assert s == EncoderStep(g, s0, b);
      hide Coef, Divides, Parity, DataPoly, Shifted;
      var d0, d := Shifted(DataPoly(init), n), Shifted(DataPoly(data), n);
      var h := Xor(s0[n - 1], b);
      forall k: int ensures Coef(d, k) == Xor(Coef(d0, k - 1), k == n && b) { DataCoef(data, n, k); }
      forall k: int ensures Coef(s, k) == Xor(Xor(Coef(s0, k - 1), h && Coef(g, k)), k == n && b) {
        ParityCoef(g, n, s0, b, k);
      }
      DividesStep(g, h, q, d0, s0, d, s, n, b);
      q := [h] + q;
    }
  }

  /** The syndrome is the data polynomial modulo the generator. */
  lemma SyndromeIsRemainder(g: Poly, n: nat, data: seq<bool>)
    requires n >= 1 && Monic(g, n)
    ensures IsRemainder(DataPoly(data), g, n, Syndrome(g, n, data))
  {
    var q := SyndromeDivides(g, n, data);
  }

  /** The parity word is the data times x^n modulo the generator. */
  lemma ParityIsRemainder(g: Poly, n: nat, data: seq<bool>)
    requires n >= 1 && Monic(g, n)
    ensures IsRemainder(Shifted(DataPoly(data), n), g, n, Parity(g, n, data))
  {
    var q := ParityDivides(g, n, data);
  }

  /** What writeParityWord puts after the data: the parity word, high bit first, maybe inverted. */
  function ParityWord(g: Poly, n: nat, data: seq<bool>, invert: bool): (w: seq<bool>)
    requires n >= 1 && |g| == n + 1
    ensures |w| == n
  {
    var p := Parity(g, n, data);
    seq(n, k requires 0 <= k < n => Xor(p[n - 1 - k], invert))
  }

  /** Data followed by its parity word has syndrome 0, or all ones when the word is inverted. */
  lemma CodewordSyndrome(g: Poly, n: nat, data: seq<bool>, invert: bool)
    requires n >= 1 && Monic(g, n)
    ensures Syndrome(g, n, data + ParityWord(g, n, data, invert)) == if invert then Ones(n) else Falses(n)
  {
    var word := data + ParityWord(g, n, data, invert);
    var d, s := DataPoly(word), if invert then Ones(n) else Falses(n);
    var q := ParityDivides(g, n, data);
    var p, sd := Parity(g, n, data), Shifted(DataPoly(data), n);
    forall k: int ensures Coef(d, k) == Xor(MulCoef(q, g, k), Coef(s, k)) {
      assert Coef(sd, k) == Xor(MulCoef(q, g, k), Coef(p, k));
      if 0 <= k < n {
        assert d[k] == word[|word| - 1 - k] == Xor(p[k], invert);
        assert !Coef(sd, k);
      } else if n <= k < |d| {
        assert d[k] == word[|word| - 1 - k] == data[|data| - 1 - (k - n)];
        assert sd[k] == DataPoly(data)[k - n];
      }
    }
    assert Divides(d, q, g, s);
    SyndromeIsRemainder(g, n, word);
    RemainderUnique(d, d, g, n, Syndrome(g, n, word), s);
  }

  // ---------- burst errors ----------

  function XorBits(a: seq<bool>, b: seq<bool>): (r: seq<bool>)
    requires |a| == |b|
    ensures |r| == |a| && forall k {:trigger r[k]} :: 0 <= k < |a| ==> r[k] == Xor(a[k], b[k])
  {
    seq(|a|, k requires 0 <= k < |a| => Xor(a[k], b[k]))
  }

  lemma {:induction false} SyndromeLinear(g: Poly, n: nat, a: seq<bool>, e: seq<bool>)
    requires n >= 1 && |g| == n + 1 && |a| == |e|
    ensures Syndrome(g, n, XorBits(a, e)) == XorBits(Syndrome(g, n, a), Syndrome(g, n, e))
    decreases |a|
  {
    if a != [] {
      var m := |a| - 1;
      SyndromeLinear(g, n, a[..m], e[..m]);
      assert XorBits(a, e)[..m] == XorBits(a[..m], e[..m]);
      assert XorBits(a, e)[m] == Xor(a[m], e[m]);
    } else {
      assert Syndrome(g, n, XorBits(a, e)) == Falses(n);
    }
  }

  ghost predicate NonZero(s: seq<bool>) { exists k :: 0 <= k < |s| && s[k] }

  /** With constant term 1 a step on input 0 never takes a nonzero register to zero. */
  lemma ZeroInputKeepsNonZero(g: Poly, s: Poly)
    requires |s| >= 1 && |g| == |s| + 1 && g[0] && NonZero(s)
    ensures NonZero(SyndromeStep(g, s, false))
  {
    var r := SyndromeStep(g, s, false);
    if s[|s| - 1] {
      assert r[0];
    } else {
      var k :| 0 <= k < |s| && s[k];
      assert r[k + 1];
    }
  }

  lemma {:induction false} ZerosKeepNonZero(g: Poly, s: Poly, z: seq<bool>)
    requires |s| >= 1 && |g| == |s| + 1 && g[0] && NonZero(s) && !NonZero(z)
    ensures NonZero(SyndromeFrom(g, s, z))
    decreases |z|
  {
    if z != [] {
      var m := |z| - 1;
      assert !z[m];
      assert !NonZero(z[..m]) by { forall k | 0 <= k < m ensures !z[..m][k] { assert !z[k]; } }
      ZerosKeepNonZero(g, s, z[..m]);
      ZeroInputKeepsNonZero(g, SyndromeFrom(g, s, z[..m]));
    }
  }

  lemma {:induction false} SyndromeFromConcat(g: Poly, s: Poly, a: seq<bool>, b: seq<bool>)
    requires |s| >= 1 && |g| == |s| + 1
    ensures SyndromeFrom(g, s, a + b) == SyndromeFrom(g, SyndromeFrom(g, s, a), b)
    decreases |b|
  {
    if b == [] {
      assert a + b == a;
    } else {
      var m := |b| - 1;
      assert (a + b)[..|a + b| - 1] == a + b[..m];
      SyndromeFromConcat(g, s, a, b[..m]);
    }
  }

  lemma {:induction false} ZerosStayZero(g: Poly, n: nat, z: seq<bool>)
    requires n >= 1 && |g| == n + 1 && !NonZero(z)
    ensures Syndrome(g, n, z) == Falses(n)
    decreases |z|
  {
    if z != [] {
      var m := |z| - 1;
      assert !z[m];
      assert !NonZero(z[..m]) by { forall k | 0 <= k < m ensures !z[..m][k] { assert !z[k]; } }
      ZerosStayZero(g, n, z[..m]);
    }
  }

  /** Up to n bits entering the zero register are just stored. */
  lemma {:induction false} ShortWordIsStored(g: Poly, n: nat, b: seq<bool>)
    requires n >= 1 && |g| == n + 1 && |b| <= n
    ensures forall k :: 0 <= k < n ==> Syndrome(g, n, b)[k] == Coef(DataPoly(b), k)
    decreases |b|
  {
    if b != [] {
      var m := |b| - 1;
      ShortWordIsStored(g, n, b[..m]);
      var s0 := Syndrome(g, n, b[..m]);
      assert !s0[n - 1];
      forall k | 0 < k < n ensures Coef(DataPoly(b), k) == Coef(DataPoly(b[..m]), k - 1) {}
    }
  }

  /** A nonzero error pattern confined to at most n consecutive bits always shows: the
      altered word, of any length, has another syndrome than the clean word. */
  lemma BurstDetected(g: Poly, n: nat, word: seq<bool>, before: nat, burst: seq<bool>, after: nat)
    requires n >= 1 && Monic(g, n) && g[0]
    requires |burst| <= n && NonZero(burst) && |word| == before + |burst| + after
    ensures Syndrome(g, n, XorBits(word, Falses(before) + burst + Falses(after))) != Syndrome(g, n, word)
  {
    var e := Falses(before) + burst + Falses(after);
    SyndromeLinear(g, n, word, e);
    SyndromeFromConcat(g, Falses(n), Falses(before), burst);
    SyndromeFromConcat(g, Falses(n), Falses(before) + burst, Falses(after));
    ZerosStayZero(g, n, Falses(before));
    ShortWordIsStored(g, n, burst);
    var s := Syndrome(g, n, burst);
    var k :| 0 <= k < |burst| && burst[k];
    assert DataPoly(burst)[|burst| - 1 - k];
    assert s[|burst| - 1 - k];
    ZerosKeepNonZero(g, s, Falses(after));
    var f := Syndrome(g, n, e);
    assert f == SyndromeFrom(g, s, Falses(after));
    var j :| 0 <= j < n && f[j];
    assert XorBits(Syndrome(g, n, word), f)[j] != Syndrome(g, n, word)[j];
  }

  ghost predicate DetectsBursts(g: Poly, n: nat)
    requires n >= 1 && |g| == n + 1
  {
    forall word: seq<bool>, before: nat, burst: seq<bool>, after: nat ::
      |burst| <= n && NonZero(burst) && |word| == before + |burst| + after ==>
        Syndrome(g, n, XorBits(word, Falses(before) + burst + Falses(after))) != Syndrome(g, n, word)
  }

  /** Without constant term the word g/x followed by one zero bit is the generator itself. */
  lemma GeneratorWordSyndrome(g: Poly, n: nat)
    requires n >= 1 && Monic(g, n) && !g[0]
    ensures Syndrome(g, n, Reverse(g[1..]) + [false]) == Falses(n)
  {
    var e := Reverse(g[1..]) + [false];
    var d := DataPoly(e);
    forall k: int ensures Coef(d, k) == Xor(MulCoef([true], g, k), Coef(Falses(n), k)) {
      assert MulCoef([true][1..], g, k - 1) == false;
      if 0 <= k <= n { assert d[k] == e[n - k] == g[k]; }
    }
    assert Divides(d, [true], g, Falses(n));
    SyndromeIsRemainder(g, n, e);
    RemainderUnique(d, d, g, n, Syndrome(g, n, e), Falses(n));
  }

  lemma GeneratorBurstIsMissed(g: Poly, n: nat)
    requires n >= 1 && Monic(g, n) && !g[0]
    ensures !DetectsBursts(g, n)
  {
    var burst, word := Reverse(g[1..]), Falses(n + 1);
    var e := Falses(0) + burst + Falses(1);
    GeneratorWordSyndrome(g, n);
    assert e == burst + [false];
    ZerosStayZero(g, n, word);
    assert XorBits(word, e) == e;
    assert burst[0] == g[n];
    assert |burst| <= n && NonZero(burst) && |word| == 0 + |burst| + 1;
  }

  /** A generator of degree n detects every burst of up to n bits exactly when its constant term is 1. */
  lemma BurstDetectionExact(g: Poly, n: nat)
    requires n >= 1 && Monic(g, n)
    ensures DetectsBursts(g, n) <==> g[0]
  {
    if g[0] {
      forall word: seq<bool>, before: nat, burst: seq<bool>, after: nat |
        |burst| <= n && NonZero(burst) && |word| == before + |burst| + after
        ensures Syndrome(g, n, XorBits(word, Falses(before) + burst + Falses(after))) != Syndrome(g, n, word)
      {
        BurstDetected(g, n, word, before, burst, after);
      }
    } else {
      GeneratorBurstIsMissed(g, n);
    }
  }
}
