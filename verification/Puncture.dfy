/** Puncturing: copying a vector without the listed positions, and back with a value of
    one half at each of them. */
module Puncture {
  /** Positions in strictly increasing order, all in a vector of the given size. */
  predicate Positions(p: seq<nat>, size: nat) {
    && (forall i :: 0 <= i < |p| ==> p[i] < size)
    && forall i :: 0 < i < |p| ==> p[i - 1] < p[i]
  }

  /** The elements of s from position at on, without those at positions p. */
  function Punctured<T>(s: seq<T>, p: seq<nat>, at: nat): (r: seq<T>)
    decreases |s| - at
  {
    if at >= |s| then []
    else if p != [] && p[0] == at then Punctured(s, p[1..], at + 1)
    else [s[at]] + Punctured(s, p, at + 1)
  }

  /** The elements of s in order from position at on of a vector of size n, u at positions p. */
  function Unpunctured<T>(s: seq<T>, p: seq<nat>, at: nat, n: nat, u: T): (r: seq<T>)
    decreases n - at
  {
    if at >= n then []
    else if p != [] && p[0] == at then [u] + Unpunctured(s, p[1..], at + 1, n, u)
    else if s == [] then []
    else [s[0]] + Unpunctured(s[1..], p, at + 1, n, u)
  }

  // ---------- the loops ----------

  lemma {:induction false} PositionsApart(p: seq<nat>, size: nat, i: nat, j: nat)
    requires Positions(p, size) && i <= j < |p|
    ensures p[i] + (j - i) <= p[j]
    decreases j - i
  {
    if i < j { PositionsApart(p, size, i, j - 1); }
  }

  /** A stretch without listed positions is copied as it is. */
  lemma {:induction false} Stretch<T>(s: seq<T>, p: seq<nat>, at: nat, n: nat)
    requires at + n <= |s| && (p == [] || p[0] >= at + n)
    ensures Punctured(s, p, at) == s[at..at + n] + Punctured(s, p, at + n)
    decreases n
  {
    hide Punctured;
    if n == 0 {
      assert s[at..at] == [];
    } else {
      CopyOne(s, p, at);
      Stretch(s, p, at + 1, n - 1);
      FirstOf(s, at, n, Punctured(s, p, at + n));
    }
  }

  lemma FirstOf<T>(s: seq<T>, at: nat, n: nat, rest: seq<T>)
    requires n > 0 && at + n <= |s|
    ensures [s[at]] + (s[at + 1..at + n] + rest) == s[at..at + n] + rest
  {
  }

  lemma CopyOne<T>(s: seq<T>, p: seq<nat>, at: nat)
    requires at < |s| && (p == [] || p[0] != at)
    ensures Punctured(s, p, at) == [s[at]] + Punctured(s, p, at + 1)
  {
  }

  lemma SkipOne<T>(s: seq<T>, p: seq<nat>, at: nat)
    requires at < |s| && p != [] && p[0] == at
    ensures Punctured(s, p, at) == Punctured(s, p[1..], at + 1)
  {
  }

  lemma AtEnd<T>(s: seq<T>, p: seq<nat>, at: nat)
    requires at >= |s|
    ensures Punctured(s, p, at) == []
  {
  }

  /** The loop for n elements, each preceded by its assertion. */
  method CopyRun<T>(src: array<T>, dst: array<T>, srcp: nat, dstp: nat, n: nat) returns (ok: bool)
    requires src != dst && srcp <= src.Length && dstp <= dst.Length
    modifies dst
    ensures ok <==> srcp + n <= src.Length && dstp + n <= dst.Length
    ensures ok ==> dst[..dstp + n] == old(dst[..dstp]) + src[srcp..srcp + n]
  {
    for i := 0 to n
      invariant srcp + i <= src.Length && dstp + i <= dst.Length
      invariant dst[..dstp + i] == old(dst[..dstp]) + src[srcp..srcp + i]
    {
      if !(srcp + i < src.Length && dstp + i < dst.Length) { return false; }
      dst[dstp + i] := src[srcp + i];
    }
    ok := true;
  }

  /** The positions before next are in order and stand before srcp, the last one just before. */
  ghost predicate Passed(p: seq<nat>, next: nat, srcp: nat) {
    && next <= |p| && Positions(p[..next], srcp)
    && (next < |p| ==> srcp == if next == 0 then 0 else p[next - 1] + 1)
  }

  lemma PassOne(p: seq<nat>, next: nat, srcp: nat)
    requires Passed(p, next, srcp) && next < |p| && p[next] >= srcp
    ensures Passed(p, next + 1, p[next] + 1)
  {
  }

  /** A next position that lies behind or too far ahead is not allowed. */
  lemma NotPassed(p: seq<nat>, next: nat, srcp: nat, size: nat)
    requires Passed(p, next, srcp) && next < |p| && size >= |p|
    requires p[next] < srcp || p[next] > size - |p| + next
    ensures !Positions(p, size)
  {
    if Positions(p, size) { PositionsApart(p, size, next, |p| - 1); }
  }

  /** copyPunctured; false is a failing assertion. */
  method CopyPunctured<T>(src: array<T>, dst: array<T>, puncture: seq<nat>) returns (ok: bool)
    requires src != dst
    modifies dst
    ensures ok <==> src.Length == dst.Length + |puncture| && Positions(puncture, src.Length)
    ensures ok ==> dst[..] == Punctured(src[..], puncture, 0)
  {
    hide Punctured, Positions, Passed;
    var plth := |puncture|;
    if src.Length - plth != dst.Length { return false; }
    ghost var s := src[..];
    var srcp: nat, dstp: nat, next: nat := 0, 0, 0;
    assert puncture[0..] == puncture;
    NonePassed(puncture);
    while srcp < src.Length
      invariant next <= plth && dstp <= dst.Length && srcp == dstp + next && Passed(puncture, next, srcp)
      invariant Punctured(s, puncture, 0) == dst[..dstp] + Punctured(s, puncture[next..], srcp)
    {
      if next < plth {
        var n := puncture[next] - srcp;
        if n < 0 { NotPassed(puncture, next, srcp, src.Length); return false; }
        ok := CopyRun(src, dst, srcp, dstp, n);
        if !ok { NotPassed(puncture, next, srcp, src.Length); return; }
        Stretch(s, puncture[next..], srcp, n);
        PassOne(puncture, next, srcp);
        dstp, srcp := dstp + n, srcp + n;
        SkipOne(s, puncture[next..], srcp);
        assert puncture[next..][1..] == puncture[next + 1..];
        next, srcp := next + 1, srcp + 1;
      } else {
        var n := src.Length - srcp;
        ok := CopyRun(src, dst, srcp, dstp, n);
        Stretch(s, puncture[next..], srcp, n);
        AllPassed(puncture, srcp, src.Length);
        dstp, srcp := dstp + n, srcp + n;
      }
    }
    AtEnd(s, puncture[next..], srcp);
    assert dstp == dst.Length && next == plth;
    AllPassed(puncture, srcp, src.Length);
    ok := true;
  }

  lemma NonePassed(p: seq<nat>)
    ensures Passed(p, 0, 0)
  {
  }

  lemma AllPassed(p: seq<nat>, srcp: nat, size: nat)
    requires Passed(p, |p|, srcp) && srcp <= size
    ensures Positions(p, size) && Passed(p, |p|, size)
  {
    assert p[..|p|] == p;
  }

  // ---------- back ----------

  lemma UncopyOne<T>(s: seq<T>, p: seq<nat>, at: nat, n: nat, u: T)
    requires at < n && s != [] && (p == [] || p[0] != at)
    ensures Unpunctured(s, p, at, n, u) == [s[0]] + Unpunctured(s[1..], p, at + 1, n, u)
  {
  }

  lemma FillOne<T>(s: seq<T>, p: seq<nat>, at: nat, n: nat, u: T)
    requires at < n && p != [] && p[0] == at
    ensures Unpunctured(s, p, at, n, u) == [u] + Unpunctured(s, p[1..], at + 1, n, u)
  {
  }

  lemma Filled<T>(s: seq<T>, p: seq<nat>, at: nat, n: nat, u: T)
    requires at >= n
    ensures Unpunctured(s, p, at, n, u) == []
  {
  }

  lemma {:induction false} Unstretch<T>(s: seq<T>, p: seq<nat>, at: nat, n: nat, size: nat, u: T)
    requires at + n <= size && n <= |s| && (p == [] || p[0] >= at + n)
    ensures Unpunctured(s, p, at, size, u) == s[..n] + Unpunctured(s[n..], p, at + n, size, u)
    decreases n
  {
    hide Unpunctured;
    if n == 0 {
      assert s[..0] == [] && s[0..] == s;
    } else {
      UncopyOne(s, p, at, size, u);
      Unstretch(s[1..], p, at + 1, n - 1, size, u);
      assert s[1..][n - 1..] == s[n..];
      FirstOfAll(s, n, Unpunctured(s[n..], p, at + n, size, u));
    }
  }

  lemma FirstOfAll<T>(s: seq<T>, n: nat, rest: seq<T>)
    requires 0 < n <= |s|
    ensures [s[0]] + (s[1..][..n - 1] + rest) == s[..n] + rest
  {
  }

  const UNKNOWN: real := 0.5

  lemma UnstretchAt(s: seq<real>, srcp: nat, p: seq<nat>, at: nat, n: nat, size: nat)
    requires at + n <= size && srcp + n <= |s| && (p == [] || p[0] >= at + n)
    ensures forall done: seq<real> ::
      done + Unpunctured(s[srcp..], p, at, size, UNKNOWN)
      == (done + s[srcp..srcp + n]) + Unpunctured(s[srcp + n..], p, at + n, size, UNKNOWN)
  {
    hide Unpunctured;
    Unstretch(s[srcp..], p, at, n, size, UNKNOWN);
    assert s[srcp..][..n] == s[srcp..srcp + n] && s[srcp..][n..] == s[srcp + n..];
  }

  lemma FillOneAt(s: seq<real>, p: seq<nat>, next: nat, at: nat, size: nat)
    requires next < |p| && p[next] == at < size
    ensures forall done: seq<real> ::
      done + Unpunctured(s, p[next..], at, size, UNKNOWN)
      == (done + [UNKNOWN]) + Unpunctured(s, p[next + 1..], at + 1, size, UNKNOWN)
  {
    hide Unpunctured;
    FillOne(s, p[next..], at, size, UNKNOWN);
    assert p[next..][1..] == p[next + 1..];
  }

  method PutNext(dst: array<real>, at: nat, x: real)
    requires at < dst.Length
    modifies dst
    ensures dst[..at + 1] == old(dst[..at]) + [x]
  {
    dst[at] := x;
  }

  /** copyUnPunctured */
  method CopyUnPunctured(src: array<real>, dst: array<real>, puncture: seq<nat>) returns (ok: bool)
    requires src != dst
    modifies dst
    ensures ok <==> src.Length + |puncture| == dst.Length && Positions(puncture, dst.Length)
    ensures ok ==> dst[..] == Unpunctured(src[..], puncture, 0, dst.Length, UNKNOWN)
  {
    hide Unpunctured, Positions, Passed;
    var plth := |puncture|;
    if src.Length + plth != dst.Length { return false; }
    ghost var s, size := src[..], dst.Length;
    var srcp: nat, dstp: nat, next: nat := 0, 0, 0;
    assert puncture[0..] == puncture && s[0..] == s;
    NonePassed(puncture);
    while dstp < dst.Length
      invariant next <= plth && srcp <= src.Length && dstp == srcp + next <= dst.Length && Passed(puncture, next, dstp)
      invariant Unpunctured(s, puncture, 0, size, UNKNOWN)
             == dst[..dstp] + Unpunctured(s[srcp..], puncture[next..], dstp, size, UNKNOWN)
    {
      if next < plth {
        var n := puncture[next] - dstp;
        if n < 0 { NotPassed(puncture, next, dstp, size); return false; }
        ok := CopyRun(src, dst, srcp, dstp, n);
        if !ok { NotPassed(puncture, next, dstp, size); return; }
        UnstretchAt(s, srcp, puncture[next..], dstp, n, size);
        PassOne(puncture, next, dstp);
        dstp, srcp := dstp + n, srcp + n;
        FillOneAt(s[srcp..], puncture, next, dstp, size);
        PutNext(dst, dstp, UNKNOWN);
        next, dstp := next + 1, dstp + 1;
      } else {
        var n := src.Length - srcp;
        ok := CopyRun(src, dst, srcp, dstp, n);
        UnstretchAt(s, srcp, puncture[next..], dstp, n, size);
        AllPassed(puncture, dstp, size);
        dstp, srcp := dstp + n, srcp + n;
      }
    }
    Filled(s[srcp..], puncture[next..], dstp, size, UNKNOWN);
    assert next == plth;
    AllPassed(puncture, dstp, size);
    ok := true;
  }

  // ---------- the two together ----------

  /** The positions that are left, with at the first that may still come. */
  ghost predicate Left(p: seq<nat>, at: nat, size: nat) { Positions(p, size) && (p == [] || at <= p[0]) }

  lemma LeftNext(p: seq<nat>, at: nat, size: nat)
    requires Left(p, at, size) && p != []
    ensures at < p[0] ==> Left(p, at + 1, size)
    ensures at == p[0] ==> Left(p[1..], at + 1, size)
  {
    if at == p[0] {
      assert forall i :: 0 < i < |p| - 1 ==> p[1..][i - 1] == p[i] && p[1..][i] == p[i + 1];
    }
  }

  lemma {:induction false} LeftFit(p: seq<nat>, at: nat, size: nat)
    requires Left(p, at, size)
    ensures p != [] ==> at + |p| <= size
    decreases |p|
  {
    if p != [] { PositionsApart(p, size, 0, |p| - 1); }
  }

  /** What follows at any position when the sizes match. */
  lemma Turn<T>(s: seq<T>, p: seq<nat>, at: nat, size: nat)
    requires Left(p, at, size) && at < size && size - at == |s| + |p|
    ensures p != [] && p[0] == at ==> Left(p[1..], at + 1, size)
    ensures p == [] || p[0] != at ==> Left(p, at + 1, size) && s != []
  {
    hide Positions, Left;
    if p != [] {
      FirstLeft(p, at, size);
      LeftNext(p, at, size);
      if p[0] != at { LeftFit(p, at + 1, size); }
    } else {
      NoneLeft(at + 1, size);
    }
  }

  lemma {:induction false} UnpuncturedSize<T>(s: seq<T>, p: seq<nat>, at: nat, size: nat, u: T)
    requires Left(p, at, size) && at <= size && size - at == |s| + |p|
    ensures |Unpunctured(s, p, at, size, u)| == size - at
    decreases size - at
  {
    hide Left;
    if at < size {
      Turn(s, p, at, size);
      if p != [] && p[0] == at {
        UnpuncturedSize(s, p[1..], at + 1, size, u);
      } else {
        UnpuncturedSize(s[1..], p, at + 1, size, u);
      }
    } else {
      LeftFit(p, at, size);
    }
  }

  /** Puncturing takes out again what unpuncturing put in. */
  lemma {:induction false} PunctureOfUnpunctured<T>(s: seq<T>, p: seq<nat>, at: nat, v: seq<T>, u: T)
    requires Left(p, at, |v|) && at <= |v| && |v| - at == |s| + |p|
    requires v[at..] == Unpunctured(s, p, at, |v|, u)
    ensures Punctured(v, p, at) == s
    decreases |v| - at
  {
    hide Left, Punctured, Unpunctured;
    if at < |v| {
      Turn(s, p, at, |v|);
      assert v[at..][1..] == v[at + 1..] && v[at..][0] == v[at];
      if p != [] && p[0] == at {
        FillOne(s, p, at, |v|, u);
        SkipOne(v, p, at);
        PunctureOfUnpunctured(s, p[1..], at + 1, v, u);
      } else {
        UncopyOne(s, p, at, |v|, u);
        CopyOne(v, p, at);
        PunctureOfUnpunctured(s[1..], p, at + 1, v, u);
      }
    } else {
      LeftFit(p, at, |v|);
      AtEnd(v, p, at);
    }
  }

  /** Unpuncturing puts every element that was kept back in its place, and u at the others. */
  lemma {:induction false} UnpunctureOfPunctured<T>(v: seq<T>, p: seq<nat>, at: nat, u: T)
    requires Left(p, at, |v|) && at <= |v|
    ensures |Punctured(v, p, at)| + |p| == |v| - at
    ensures var r := Unpunctured(Punctured(v, p, at), p, at, |v|, u);
      |r| == |v| - at && forall i :: at <= i < |v| ==> r[i - at] == if i in p then u else v[i]
    decreases |v| - at
  {
    hide Left, Punctured, Unpunctured;
    if at < |v| {
      if p != [] { FirstLeft(p, at, |v|); LeftNext(p, at, |v|); } else { NoneLeft(at + 1, |v|); }
      var r := Unpunctured(Punctured(v, p, at), p, at, |v|, u);
      if p != [] && p[0] == at {
        SkipOne(v, p, at);
        FillOne(Punctured(v, p, at), p, at, |v|, u);
        UnpunctureOfPunctured(v, p[1..], at + 1, u);
        Prepended(v, p, p[1..], at, u, u, r[1..], r);
      } else {
        CopyOne(v, p, at);
        UncopyOne(Punctured(v, p, at), p, at, |v|, u);
        UnpunctureOfPunctured(v, p, at + 1, u);
        NotAmong(p, at, |v|);
        Prepended(v, p, p, at, v[at], u, r[1..], r);
      }
    } else {
      LeftFit(p, at, |v|);
      AtEnd(v, p, at);
      Filled([], p, at, |v|, u);
    }
  }

  lemma Prepended<T>(v: seq<T>, p: seq<nat>, q: seq<nat>, at: nat, x: T, u: T, tail: seq<T>, r: seq<T>)
    requires at < |v| && r == [x] + tail && |tail| == |v| - at - 1
    requires forall i :: at + 1 <= i < |v| ==> tail[i - (at + 1)] == if i in q then u else v[i]
    requires (q == p && x == v[at] && at !in p) || (p == [at] + q && x == u)
    ensures forall i :: at <= i < |v| ==> r[i - at] == if i in p then u else v[i]
  {
    forall i | at <= i < |v| ensures r[i - at] == if i in p then u else v[i] {
      if i > at { assert r[i - at] == tail[i - (at + 1)]; }
    }
  }

  lemma NotAmong(p: seq<nat>, at: nat, size: nat)
    requires Left(p, at + 1, size)
    ensures at !in p
  {
    if at in p {
      var j :| 0 <= j < |p| && p[j] == at;
      PositionsApart(p, size, 0, j);
    }
  }

  /** The positions before i. */
  function Before(p: seq<nat>, i: nat): (n: nat)
    ensures n <= |p|
  {
    if p == [] || p[0] >= i then 0 else 1 + Before(p[1..], i)
  }

  lemma {:induction false} KeptFrom<T>(s: seq<T>, p: seq<nat>, at: nat, i: nat)
    requires Left(p, at, |s|) && at <= i < |s| && i !in p
    ensures var k := i - at - Before(p, i);
      0 <= k < |Punctured(s, p, at)| && Punctured(s, p, at)[k] == s[i]
    decreases |s| - at
  {
    if p != [] && p[0] == at {
      KeptFrom(s, p[1..], at + 1, i);
    } else if i > at {
      KeptFrom(s, p, at + 1, i);
    }
  }

  /** Every element that stays moves forward by the number of positions before it. */
  lemma KeptInOrder<T>(s: seq<T>, p: seq<nat>, i: nat)
    requires Positions(p, |s|) && i < |s| && i !in p
    ensures var k := i - Before(p, i); 0 <= k < |Punctured(s, p, 0)| && Punctured(s, p, 0)[k] == s[i]
  {
    KeptFrom(s, p, 0, i);
  }

  /** For positions in order and in range: puncture after unpuncture gives the vector back,
      and unpuncture after puncture gives it back with u at exactly the listed positions. */
  lemma PunctureRoundTrips<T>(s: seq<T>, v: seq<T>, p: seq<nat>, u: T)
    requires Positions(p, |v|) && |v| == |s| + |p|
    ensures Punctured(Unpunctured(s, p, 0, |v|, u), p, 0) == s
    ensures var r := Unpunctured(Punctured(v, p, 0), p, 0, |v|, u);
      |r| == |v| && forall i :: 0 <= i < |v| ==> r[i] == if i in p then u else v[i]
  {
    assert Left(p, 0, |v|);
    hide Positions, Left, Punctured, Unpunctured;
    var w := Unpunctured(s, p, 0, |v|, u);
    UnpuncturedSize(s, p, 0, |v|, u);
    assert w[0..] == w;
    PunctureOfUnpunctured(s, p, 0, w, u);
    UnpunctureOfPunctured(v, p, 0, u);
    var r := Unpunctured(Punctured(v, p, 0), p, 0, |v|, u);
    forall i | 0 <= i < |v| ensures r[i] == if i in p then u else v[i] { assert r[i] == r[i - 0]; }
  }

  lemma FirstLeft(p: seq<nat>, at: nat, size: nat)
    requires Left(p, at, size) && p != []
    ensures at <= p[0] < size
  {
  }

  lemma NoneLeft(at: nat, size: nat)
    ensures Left([], at, size)
  {
  }
}
