/** Generator, the linear feedback shift register, and Parity on top of it. */
module Generators {
  import opened Gf2
  import opened Crc
  import opened Fields
  import opened BitVectors

  /** A uint64_t by its bits, least significant first. */
  type Word = w: seq<bool> | |w| == 64 witness seq(64, k => false)

  function WordXor(a: Word, b: Word): (w: Word)
    ensures forall k {:trigger w[k]} :: 0 <= k < 64 ==> w[k] == Xor(a[k], b[k])
  {
    seq(64, k requires 0 <= k < 64 => Xor(a[k], b[k]))
  }

  function WordAnd(a: Word, b: Word): (w: Word)
    ensures forall k {:trigger w[k]} :: 0 <= k < 64 ==> w[k] == (a[k] && b[k])
  {
    seq(64, k requires 0 <= k < 64 => a[k] && b[k])
  }

  function WordNot(a: Word): (w: Word)
    ensures forall k {:trigger w[k]} :: 0 <= k < 64 ==> w[k] == !a[k]
  {
    seq(64, k requires 0 <= k < 64 => !a[k])
  }

  /** a << 1; the top bit is lost. */
  function WordShl1(a: Word): (w: Word) { [false] + a[..63] }

  function OneBit(b: bool): (w: Word) { [b] + Falses(63) }

  /** (1ULL << n) - 1 */
  function LowMask(n: nat): (w: Word)
    requires n <= 64
  {
    Ones(n) + Falses(64 - n)
  }

  lemma ShiftedBit(w: Word, k: nat)
    requires k < 64
    ensures WordShl1(w)[k] == (k > 0 && w[k - 1])
  {
  }

  lemma LoneBit(b: bool, k: nat)
    requires k < 64
    ensures OneBit(b)[k] == (k == 0 && b)
  {
  }

  /** The word operations of syndromeShift on the low n bits. */
  lemma SyndromeWord(w: Word, coeff: Word, n: nat, b: bool)
    requires 1 <= n < 64
    ensures var r := WordXor(WordShl1(w), OneBit(b));
      (if w[n - 1] then WordXor(r, coeff) else r)[..n] == SyndromeStep(coeff[..n] + [true], w[..n], b)
  {
    hide WordXor, WordShl1, OneBit, SyndromeStep;
    var r := WordXor(WordShl1(w), OneBit(b));
    var x, y := (if w[n - 1] then WordXor(r, coeff) else r)[..n], SyndromeStep(coeff[..n] + [true], w[..n], b);
    forall k | 0 <= k < n ensures x[k] == y[k] {
      ShiftedBit(w, k);
      LoneBit(b, k);
    }
  }

  /** The word operations of encoderShift on the low n bits. */
  lemma EncoderWord(w: Word, coeff: Word, n: nat, b: bool)
    requires 1 <= n < 64
    ensures var r := WordShl1(w);
      (if Xor(w[n - 1], b) then WordXor(r, coeff) else r)[..n] == EncoderStep(coeff[..n] + [true], w[..n], b)
  {
    hide WordXor, WordShl1, EncoderStep;
    var r := WordShl1(w);
    var x, y := (if Xor(w[n - 1], b) then WordXor(r, coeff) else r)[..n], EncoderStep(coeff[..n] + [true], w[..n], b);
    forall k | 0 <= k < n ensures x[k] == y[k] { ShiftedBit(w, k); }
  }

  class Generator {
    const mCoeff: Word
    var mState: Word
    const mMask: Word
    const mLen: nat
    const mLen_1: nat

    ghost predicate Valid()
      reads this
    {
      1 <= mLen < 64 && mLen_1 == mLen - 1 && mMask == LowMask(mLen)
    }

    /** The monic polynomial of degree mLen the register divides by; bits of the
        coefficient word from x^mLen on never reach the part of the state that is read. */
    ghost function Polynomial(): (g: Poly)
      requires Valid()
      reads this
      ensures Monic(g, mLen)
    {
      mCoeff[..mLen] + [true]
    }

    ghost function Register(): (s: Poly)
      requires Valid()
      reads this
      ensures |s| == mLen
    {
      mState[..mLen]
    }

    /** The source asserts wLen < 64.  A length of 0 is let through; its mLen_1 wraps around to
        the greatest unsigned, and a shift by so many places is undefined. */
    constructor (wCoeff: Word, wLen: nat)
      requires wLen < 64
      ensures mLen == wLen && mCoeff == wCoeff && mState == Falses(64) && mMask == LowMask(wLen)
      ensures Valid() <==> wLen >= 1
      ensures wLen >= 1 ==> Register() == Falses(wLen)
    {
      mCoeff, mState, mMask := wCoeff, Falses(64), LowMask(wLen);
      mLen, mLen_1 := wLen, if wLen == 0 then 0xFFFF_FFFF else wLen - 1;
    }

    method Clear()
      requires Valid()
      modifies this
      ensures Valid() && Register() == Falses(mLen)
    {
      mState := Falses(64);
    }

    method State() returns (w: Word)
      requires Valid()
      ensures w == Register() + Falses(64 - mLen)
    {
      w := WordAnd(mState, mMask);
    }

    method SyndromeShift(inBit: bool)
      requires Valid()
      modifies this
      ensures Valid() && Register() == SyndromeStep(Polynomial(), old(Register()), inBit)
    {
      var fb := mState[mLen_1];
      SyndromeWord(mState, mCoeff, mLen, inBit);
      hide WordXor, WordShl1, OneBit, SyndromeStep;
      mState := WordXor(WordShl1(mState), OneBit(inBit));
      if fb { mState := WordXor(mState, mCoeff); }
    }

    method EncoderShift(inBit: bool)
      requires Valid()
      modifies this
      ensures Valid() && Register() == EncoderStep(Polynomial(), old(Register()), inBit)
    {
      var fb := Xor(mState[mLen_1], inBit);
      EncoderWord(mState, mCoeff, mLen, inBit);
      hide WordXor, WordShl1, EncoderStep;
      mState := WordShl1(mState);
      if fb { mState := WordXor(mState, mCoeff); }
    }

    /** BitVector::syndrome */
    method SyndromeOf(v: BitVector) returns (w: Word)
      requires Valid() && v.Valid()
      modifies this
      ensures Valid() && w == Syndrome(Polynomial(), mLen, v.Bits()) + Falses(64 - mLen)
    {
      hide Syndrome, SyndromeStep, Falses;
      Clear();
      ghost var g, bits := Polynomial(), v.Bits();
      NoBitsRead(g, mLen, bits);
      var dp := v.mStart;
      while dp < v.mEnd
        invariant v.mStart <= dp <= v.mEnd && Valid()
        invariant Register() == Syndrome(g, mLen, bits[..dp - v.mStart])
      {
        SyndromeSnoc(g, mLen, bits, dp - v.mStart);
        SyndromeShift(v.mData[dp]);
        dp := dp + 1;
      }
      assert bits[..|bits|] == bits;
      w := State();
    }

    /** BitVector::parity */
    method ParityOf(v: BitVector) returns (w: Word)
      requires Valid() && v.Valid()
      modifies this
      ensures Valid() && w == Parity(Polynomial(), mLen, v.Bits()) + Falses(64 - mLen)
    {
      hide Parity, EncoderStep, Falses;
      Clear();
      ghost var g, bits := Polynomial(), v.Bits();
      NoBitsRead(g, mLen, bits);
      var dp := v.mStart;
      while dp < v.mEnd
        invariant v.mStart <= dp <= v.mEnd && Valid()
        invariant Register() == Parity(g, mLen, bits[..dp - v.mStart])
      {
        ParitySnoc(g, mLen, bits, dp - v.mStart);
        EncoderShift(v.mData[dp]);
        dp := dp + 1;
      }
      assert bits[..|bits|] == bits;
      w := State();
    }

    /** Parity::writeParityWord: the parity of data, high bit first, over the start of target. */
    method WriteParityWord(data: BitVector, target: BitVector, invert: bool)
      requires Valid() && data.Valid() && target.Valid() && mLen <= target.Size()
      modifies this, target.mData
      ensures Valid()
      ensures target.mData[..] ==
        Splice(old(target.mData[..]), target.mStart, ParityWord(Polynomial(), mLen, old(data.Bits()), invert))
    {
      ghost var g, bits := Polynomial(), data.Bits();
      var pWord := ParityOf(data);
      ParityField(g, mLen, bits, pWord, invert);
      if invert { pWord := WordNot(pWord); }
      target.FillField(0, LsbValue(pWord), mLen);
    }
  }

  lemma NoBitsRead(g: Poly, n: nat, bits: seq<bool>)
    requires n >= 1 && |g| == n + 1
    ensures Syndrome(g, n, bits[..0]) == Parity(g, n, bits[..0]) == Falses(n)
  {
  }

  lemma SyndromeSnoc(g: Poly, n: nat, bits: seq<bool>, i: nat)
    requires n >= 1 && |g| == n + 1 && i < |bits|
    ensures Syndrome(g, n, bits[..i + 1]) == SyndromeStep(g, Syndrome(g, n, bits[..i]), bits[i])
  {
    assert bits[..i + 1][..i] == bits[..i];
  }

  lemma ParitySnoc(g: Poly, n: nat, bits: seq<bool>, i: nat)
    requires n >= 1 && |g| == n + 1 && i < |bits|
    ensures Parity(g, n, bits[..i + 1]) == EncoderStep(g, Parity(g, n, bits[..i]), bits[i])
  {
    assert bits[..i + 1][..i] == bits[..i];
  }

  lemma ParityField(g: Poly, n: nat, bits: seq<bool>, w: Word, invert: bool)
    requires 1 <= n < 64 && |g| == n + 1 && w == Parity(g, n, bits) + Falses(64 - n)
    ensures MsbBits(LsbValue(if invert then WordNot(w) else w), n) == ParityWord(g, n, bits, invert)
  {
    var p := if invert then WordNot(w) else w;
    WordField(p, n);
    forall k | 0 <= k < n ensures p[n - 1 - k] == ParityWord(g, n, bits, invert)[k] {
      assert w[n - 1 - k] == Parity(g, n, bits)[n - 1 - k];
      assert p[n - 1 - k] == Xor(w[n - 1 - k], invert);
    }
  }

  /** Writing the low n bits of a word as a field puts its bits high bit first. */
  lemma {:induction false} WordField(w: seq<bool>, n: nat)
    requires n <= |w|
    ensures forall k :: 0 <= k < n ==> MsbBits(LsbValue(w), n)[k] == w[n - 1 - k]
  {
    if n > 0 {
      assert LsbValue(w) / 2 == LsbValue(w[1..]);
      WordField(w[1..], n - 1);
    }
  }

  lemma SpliceTail(s: seq<bool>, a: nat, n: nat, p: seq<bool>)
    requires a + n + |p| <= |s|
    ensures Splice(s, a + n, p)[a..a + n + |p|] == s[a..a + n] + p
  {
  }

  lemma WrittenTail(was: seq<bool>, is_: seq<bool>, start: nat, end: nat, n: nat, p: seq<bool>)
    requires end == start + n + |p| <= |was| && is_ == Splice(was, start + n, p)
    ensures is_[start..end] == was[start..start + n] + p
  {
    hide Splice;
    SpliceTail(was, start, n, p);
  }

  lemma CodewordState(g: Poly, n: nat, data: seq<bool>, invert: bool)
    requires 1 <= n < 64 && Monic(g, n)
    ensures Syndrome(g, n, data + ParityWord(g, n, data, invert)) + Falses(64 - n)
         == if invert then LowMask(n) else Falses(64)
  {
    CodewordSyndrome(g, n, data, invert);
    if !invert {
      forall k | 0 <= k < 64 ensures (Falses(n) + Falses(64 - n))[k] == Falses(64)[k] {}
    }
  }

  /** A codeword sent through writeParityWord and checked with syndrome: data of any length
      followed by its parity segment gives 0, or the mask word when the parity is inverted. */
  method WriteThenCheck(gen: Generator, word: BitVector, n: nat, invert: bool) returns (w: Word)
    requires gen.Valid() && word.Valid() && n + gen.mLen == word.Size()
    modifies gen, word.mData
    ensures w == if invert then LowMask(gen.mLen) else Falses(64)
    ensures word.Bits()[..n] == old(word.Bits()[..n])
  {
    hide ParityWord, Syndrome, Splice, LowMask, Falses;
    var data := new BitVector.Segment(word, 0, n);
    var tail := new BitVector.Segment(word, n, gen.mLen);
    ghost var g, bits := gen.Polynomial(), data.Bits();
    ghost var p := ParityWord(g, gen.mLen, bits, invert);
    gen.WriteParityWord(data, tail, invert);
    ghost var was := old(word.mData[..]);
    WrittenTail(was, word.mData[..], word.mStart, word.mEnd, n, p);
    CodewordState(g, gen.mLen, bits, invert);
    w := gen.SyndromeOf(word);
    assert (bits + p)[..n] == bits;
  }
}
