/** Polynomials over GF(2): index k of a sequence is the coefficient of x^k. */
module Gf2 {
  import opened Fields

  type Poly = seq<bool>

  function Xor(a: bool, b: bool): bool { a != b }

  function Coef(p: Poly, k: int): bool { 0 <= k < |p| && p[k] }

  /** The coefficient of x^k in the product q * g. */
  function MulCoef(q: Poly, g: Poly, k: int): bool
    decreases |q|
  {
    if q == [] then false else Xor(q[0] && Coef(g, k), MulCoef(q[1..], g, k - 1))
  }

  /** p and r are the same polynomial. */
  ghost predicate Same(p: Poly, r: Poly) { forall k: int :: Coef(p, k) == Coef(r, k) }

  /** d = q * g + s. */
  ghost predicate Divides(d: Poly, q: Poly, g: Poly, s: Poly) {
    forall k: int {:trigger Coef(d, k)} :: Coef(d, k) == Xor(MulCoef(q, g, k), Coef(s, k))
  }

  predicate Monic(g: Poly, n: nat) { |g| == n + 1 && g[n] }

  /** s is the remainder of d on division by g, a polynomial of degree n. */
  ghost predicate IsRemainder(d: Poly, g: Poly, n: nat, s: Poly) {
    |s| == n && exists q :: Divides(d, q, g, s)
  }

  function Ones(n: nat): (r: Poly)
    ensures |r| == n && forall k :: 0 <= k < n ==> r[k]
  {
    seq(n, k => true)
  }

  /** The sum of two polynomials, long enough for both. */
  function Add(p: Poly, r: Poly): (z: Poly)
    ensures |z| == if |p| < |r| then |r| else |p|
    ensures forall k: int {:trigger Coef(z, k)} :: Coef(z, k) == Xor(Coef(p, k), Coef(r, k))
  {
    seq(if |p| < |r| then |r| else |p|, k => Xor(Coef(p, k), Coef(r, k)))
  }

  lemma {:induction false} MulCoefAdd(p: Poly, r: Poly, g: Poly, k: int)
    ensures MulCoef(Add(p, r), g, k) == Xor(MulCoef(p, g, k), MulCoef(r, g, k))
    decreases |p| + |r|
  {
    var z := Add(p, r);
    if p == [] && r == [] {
    } else {
      assert z[0] == Xor(Coef(p, 0), Coef(r, 0)) by { assert Coef(z, 0) == z[0]; }
      var p', r' := if p == [] then [] else p[1..], if r == [] then [] else r[1..];
      assert z[1..] == Add(p', r') by {
        forall i | 0 <= i < |z| - 1 ensures z[1..][i] == Add(p', r')[i] {
          assert Coef(z, i + 1) == z[i + 1] && Coef(Add(p', r'), i) == Add(p', r')[i];
        }
      }
      MulCoefAdd(p', r', g, k - 1);
    }
  }

  /** Below its lowest term the product has no terms; its top term is the product of the tops. */
  lemma {:induction false} MulCoefTop(q: Poly, g: Poly, n: nat, m: nat)
    requires Monic(g, n) && m < |q| && q[m] && (forall i :: m < i < |q| ==> !q[i])
    ensures MulCoef(q, g, m + n)
    decreases |q|
  {
    if m == 0 {
      MulCoefZero(q[1..], g, n - 1);
      assert Coef(g, n);
    } else {
      MulCoefTop(q[1..], g, n, m - 1);
      assert !Coef(g, m + n);
    }
  }

  lemma {:induction false} MulCoefZero(q: Poly, g: Poly, k: int)
    requires forall i :: 0 <= i < |q| ==> !q[i]
    ensures !MulCoef(q, g, k)
    decreases |q|
  {
    if q != [] { MulCoefZero(q[1..], g, k - 1); }
  }

  lemma HighestTerm(q: Poly) returns (m: nat)
    requires exists i :: 0 <= i < |q| && q[i]
    ensures m < |q| && q[m] && (forall i :: m < i < |q| ==> !q[i])
    decreases |q|
  {
    if q[|q| - 1] {
      m := |q| - 1;
    } else {
      var i :| 0 <= i < |q| && q[i];
      assert q[..|q| - 1][i];
      m := HighestTerm(q[..|q| - 1]);
      forall j | m < j < |q| ensures !q[j] { if j < |q| - 1 { assert !q[..|q| - 1][j]; } }
    }
  }

  /** Division by a monic polynomial has one remainder only. */
  lemma RemainderUnique(d: Poly, d': Poly, g: Poly, n: nat, s: Poly, s': Poly)
    requires Monic(g, n) && Same(d, d')
    requires IsRemainder(d, g, n, s) && IsRemainder(d', g, n, s')
    ensures s == s'
  {
    var q :| Divides(d, q, g, s);
    var q' :| Divides(d', q', g, s');
    var z := Add(q, q');
    forall k: int ensures MulCoef(z, g, k) == Xor(Coef(s, k), Coef(s', k)) {
      MulCoefAdd(q, q', g, k);
      assert Coef(d, k) == Coef(d', k);
    }
    if exists i :: 0 <= i < |z| && z[i] {
      var m := HighestTerm(z);
      MulCoefTop(z, g, n, m);
      assert false;
    } else {
      forall k | 0 <= k < n ensures s[k] == s'[k] {
        MulCoefZero(z, g, k);
        assert MulCoef(z, g, k) == Xor(Coef(s, k), Coef(s', k));
      }
    }
  }
}
