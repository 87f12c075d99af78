/** Bit fields as values: the two bit orders in which BitVector reads and writes an integer. */
module Fields {

  function Pow2(n: nat): (r: nat)
    ensures r >= 1
  {
    if n == 0 then 1 else 2 * Pow2(n - 1)
  }

  /** The low len bits of v, most significant first. */
  function MsbBits(v: nat, len: nat): (r: seq<bool>)
    ensures |r| == len
  {
    if len == 0 then [] else MsbBits(v / 2, len - 1) + [v % 2 == 1]
  }

  /** The low len bits of v, least significant first. */
  function LsbBits(v: nat, len: nat): (r: seq<bool>)
    ensures |r| == len
  {
    if len == 0 then [] else [v % 2 == 1] + LsbBits(v / 2, len - 1)
  }

  function Bit(b: bool): nat { if b then 1 else 0 }

  function MsbValue(s: seq<bool>): nat {
    if s == [] then 0 else 2 * MsbValue(s[..|s| - 1]) + Bit(s[|s| - 1])
  }

  function LsbValue(s: seq<bool>): nat {
    if s == [] then 0 else Bit(s[0]) + 2 * LsbValue(s[1..])
  }

  function Reverse<T>(s: seq<T>): (r: seq<T>)
    ensures |r| == |s|
    ensures forall k :: 0 <= k < |s| ==> r[k] == s[|s| - 1 - k]
  {
    if s == [] then [] else Reverse(s[1..]) + [s[0]]
  }

  /** s with the elements from position i on overwritten by x. */
  function Splice<T>(s: seq<T>, i: nat, x: seq<T>): (r: seq<T>)
    requires x == [] || i + |x| <= |s|
    ensures |r| == |s|
    ensures forall k :: 0 <= k < |s| ==> r[k] == if i <= k < i + |x| then x[k - i] else s[k]
  {
    if x == [] then s else s[..i] + x + s[i + |x|..]
  }

  lemma SpliceIs<T>(s: seq<T>, i: nat, x: seq<T>, r: seq<T>)
    requires (x == [] || i + |x| <= |s|) && |r| == |s|
    requires forall k :: 0 <= k < |s| ==> r[k] == if i <= k < i + |x| then x[k - i] else s[k]
    ensures r == Splice(s, i, x)
  {
  }

  lemma {:induction false} MsbValueOfBits(v: nat, len: nat)
    ensures MsbValue(MsbBits(v, len)) == v % Pow2(len)
  {
    if len > 0 {
      MsbValueOfBits(v / 2, len - 1);
      var s := MsbBits(v, len);
      assert s[..len - 1] == MsbBits(v / 2, len - 1);
      HalfMod(v, Pow2(len - 1));
    }
  }

  lemma HalfMod(v: nat, p: nat)
    requires p >= 1
    ensures v % (2 * p) == 2 * (v / 2 % p) + v % 2
  {
    var q, r := v / 2 / p, v / 2 % p;
    assert v == (2 * p) * q + (2 * r + v % 2) by {
      assert v / 2 == p * q + r;
    }
    ModUnique(v, 2 * p, q, 2 * r + v % 2);
  }

  lemma ModUnique(v: nat, p: nat, q: nat, r: nat)
    requires p >= 1 && r < p && v == p * q + r
    ensures v % p == r && v / p == q
  {
    var d := v / p - q;
    assert v - p * q == p * d + v % p by { assert v == p * (v / p) + v % p; }
    assert d >= 1 ==> p * d >= p;
    assert d <= -1 ==> p * d <= -(p as int);
  }

  lemma {:induction false} MsbBitsOfValue(s: seq<bool>)
    ensures MsbBits(MsbValue(s), |s|) == s
    ensures MsbValue(s) < Pow2(|s|)
  {
    if s != [] {
      var init, b := s[..|s| - 1], s[|s| - 1];
      MsbBitsOfValue(init);
      assert MsbValue(s) == 2 * MsbValue(init) + Bit(b);
      assert MsbValue(s) / 2 == MsbValue(init) && (MsbValue(s) % 2 == 1) == b;
      assert s == init + [b];
    }
  }

  /** Bits behind others count as lower places. */
  lemma {:induction false} MsbValueConcat(a: seq<bool>, b: seq<bool>)
    ensures MsbValue(a + b) == MsbValue(a) * Pow2(|b|) + MsbValue(b)
    decreases |b|
  {
    if b == [] {
      assert a + b == a;
    } else {
      var init := b[..|b| - 1];
      MsbValueConcat(a, init);
      MsbValueLast(a + b);
      MsbValueLast(b);
      assert (a + b)[..|a + b| - 1] == a + init && (a + b)[|a + b| - 1] == b[|b| - 1];
      assert Pow2(|b|) == 2 * Pow2(|init|);
      hide MsbValue, Pow2;
      Doubled(MsbValue(a), Pow2(|init|));
    }
  }

  lemma MsbValueLast(s: seq<bool>)
    requires s != []
    ensures MsbValue(s) == 2 * MsbValue(s[..|s| - 1]) + Bit(s[|s| - 1])
  {
  }

  lemma Doubled(v: nat, p: nat)
    ensures 2 * (v * p) == v * (2 * p)
  {
  }

  /** Bit i of a field is the bit of the value that has the weight of its place. */
  lemma {:induction false} MsbBitAt(v: nat, len: nat, i: nat)
    requires i < len
    ensures MsbBits(v, len)[i] <==> v / Pow2(len - 1 - i) % 2 == 1
    decreases len
  {
    if i < len - 1 {
      MsbBitAt(v / 2, len - 1, i);
      DivTwice(v, Pow2(len - 2 - i));
    }
  }

  lemma DivTwice(v: nat, p: nat)
    requires p > 0
    ensures v / 2 / p == v / (2 * p)
  {
    var q, r := v / 2 / p, v / 2 % p;
    assert v / 2 == q * p + r;
    assert v == 2 * (q * p) + 2 * r + v % 2;
    Doubled(q, p);
    ModUnique(v, 2 * p, q, 2 * r + v % 2);
  }

  lemma {:induction false} LsbIsReversedMsb(v: nat, len: nat)
    ensures LsbBits(v, len) == Reverse(MsbBits(v, len))
  {
    if len > 0 {
      LsbIsReversedMsb(v / 2, len - 1);
      var m := MsbBits(v / 2, len - 1);
      assert MsbBits(v, len) == m + [v % 2 == 1];
      assert Reverse(m + [v % 2 == 1]) == [v % 2 == 1] + Reverse(m);
    }
  }

  lemma {:induction false} LsbValueIsReversedMsb(s: seq<bool>)
    ensures LsbValue(s) == MsbValue(Reverse(s))
  {
    if s != [] {
      LsbValueIsReversedMsb(s[1..]);
      var r := Reverse(s);
      assert r[..|r| - 1] == Reverse(s[1..]);
    }
  }

  lemma LsbValueOfBits(v: nat, len: nat)
    ensures LsbValue(LsbBits(v, len)) == v % Pow2(len)
  {
    LsbIsReversedMsb(v, len);
    LsbValueIsReversedMsb(LsbBits(v, len));
    assert Reverse(LsbBits(v, len)) == MsbBits(v, len);
    MsbValueOfBits(v, len);
  }

  function Falses(n: nat): (r: seq<bool>)
    ensures |r| == n && forall k :: 0 <= k < n ==> !r[k]
  {
    if n == 0 then [] else Falses(n - 1) + [false]
  }

  /** v << k and v >> k */
  function ShiftLeft(v: nat, k: nat): nat { if k == 0 then v else 2 * ShiftLeft(v, k - 1) }
  function ShiftRight(v: nat, k: nat): nat { if k == 0 then v else ShiftRight(v / 2, k - 1) }

  lemma {:induction false} ShiftLeftPads(s: seq<bool>, k: nat)
    ensures ShiftLeft(MsbValue(s), k) == MsbValue(s + Falses(k))
  {
    if k == 0 {
      assert s + Falses(0) == s;
    } else {
      ShiftLeftPads(s, k - 1);
      assert (s + Falses(k))[..|s| + k - 1] == s + Falses(k - 1);
    }
  }

  lemma {:induction false} ShiftRightKeepsTop(v: nat, k: nat, len: nat)
    requires k <= len
    ensures MsbBits(ShiftRight(v, k), len - k) == MsbBits(v, len)[..len - k]
    decreases k
  {
    if k > 0 {
      ShiftRightKeepsTop(v / 2, k - 1, len - 1);
      assert MsbBits(v, len)[..len - k] == MsbBits(v / 2, len - 1)[..len - k];
    }
  }

  lemma Double(p: nat, v: nat)
    ensures (2 * p) * v == 2 * (p * v)
  {
  }

  lemma {:induction false} LsbValueConcat(a: seq<bool>, b: seq<bool>)
    ensures LsbValue(a + b) == LsbValue(a) + Pow2(|a|) * LsbValue(b)
  {
    if a == [] {
      assert a + b == b;
    } else {
      LsbValueConcat(a[1..], b);
      assert (a + b)[1..] == a[1..] + b;
      Double(Pow2(|a| - 1), LsbValue(b));
    }
  }

  lemma {:induction false} LsbValueBound(s: seq<bool>)
    ensures LsbValue(s) < Pow2(|s|)
  {
    if s != [] { LsbValueBound(s[1..]); }
  }
}
