/**
 Go's `strings.TrimSpace`, restricted to its ASCII whitespace table.

 The library scans forward from the start past whitespace, then backward
 from the end, never past the forward stop; what lies between is returned.
 */
module Trim {
  import opened Bytes

  /** '\t', '\n', '\v', '\f', '\r' and ' ': the bytes Go's ASCII space table marks. */
  predicate IsSpace(b: byte) {
    b == 9 || b == 10 || b == 11 || b == 12 || b == 13 || b == 32
  }

  predicate AllSpace(s: Text) {
    forall i | 0 <= i < |s| :: IsSpace(s[i])
  }

  /** Neither end of `s` is whitespace: trimming has nothing left to remove. */
  predicate Tight(s: Text) {
    s == [] || (!IsSpace(s[0]) && !IsSpace(s[|s| - 1]))
  }

  /** The forward scan from index `i`: the first non-space byte at or after `i`, or the end. */
  function Forward(s: Text, i: nat): (k: nat)
    requires i <= |s|
    ensures i <= k <= |s|
    decreases |s| - i
  {
    if i == |s| || !IsSpace(s[i]) then i else Forward(s, i + 1)
  }

  /** The backward scan from index `j`: just after the last non-space byte in `s[lo..j]`, or `lo`. */
  function Backward(s: Text, lo: nat, j: nat): (k: nat)
    requires lo <= j <= |s|
    ensures lo <= k <= j
    decreases j
  {
    if j == lo || !IsSpace(s[j - 1]) then j else Backward(s, lo, j - 1)
  }

  /** Where the forward scan over the whole of `s` stops. */
  function Start(s: Text): nat {
    Forward(s, 0)
  }

  /** Where the backward scan from the end of `s` stops, never going below `lo`. */
  function Stop(s: Text, lo: nat): nat
    requires lo <= |s|
  {
    Backward(s, lo, |s|)
  }

  lemma {:induction false} ForwardScan(s: Text, i: nat)
    requires i <= |s|
    ensures AllSpace(s[i..Forward(s, i)])
    ensures Forward(s, i) < |s| ==> !IsSpace(s[Forward(s, i)])
    decreases |s| - i
  {
    if i < |s| && IsSpace(s[i]) {
      ForwardScan(s, i + 1);
      assert s[i..Forward(s, i)] == [s[i]] + s[i + 1..Forward(s, i)];
    }
  }

  lemma {:induction false} BackwardScan(s: Text, lo: nat, j: nat)
    requires lo <= j <= |s|
    ensures AllSpace(s[Backward(s, lo, j)..j])
    ensures lo < Backward(s, lo, j) ==> !IsSpace(s[Backward(s, lo, j) - 1])
    decreases j
  {
    if j > lo && IsSpace(s[j - 1]) {
      BackwardScan(s, lo, j - 1);
      var k := Backward(s, lo, j);
      assert s[k..j] == s[k..j - 1] + [s[j - 1]];
    }
  }

  /** The forward scan passes over whitespace only and halts on a non-space byte. */
  lemma StartScan(s: Text)
    ensures Start(s) <= |s| && AllSpace(s[..Start(s)])
    ensures Start(s) < |s| ==> !IsSpace(s[Start(s)])
  {
    ForwardScan(s, 0);
    assert s[..Start(s)] == s[0..Start(s)];
  }

  /** The backward scan passes over whitespace only and halts after a non-space byte. */
  lemma StopScan(s: Text, lo: nat)
    requires lo <= |s|
    ensures lo <= Stop(s, lo) <= |s| && AllSpace(s[Stop(s, lo)..])
    ensures lo < Stop(s, lo) ==> !IsSpace(s[Stop(s, lo) - 1])
  {
    BackwardScan(s, lo, |s|);
    assert s[Stop(s, lo)..] == s[Stop(s, lo)..|s|];
  }

  /** The bytes at both ends of the scanned span are non-space. */
  lemma ScanEnds(s: Text)
    ensures Start(s) < Stop(s, Start(s)) ==> !IsSpace(s[Start(s)]) && !IsSpace(s[Stop(s, Start(s)) - 1])
  {
    StartScan(s);
    StopScan(s, Start(s));
  }

  /** `strings.TrimSpace`: `s` without its leading and trailing whitespace. */
  function TrimSpace(s: Text): Text {
    s[Start(s)..Stop(s, Start(s))]
  }

  /**
   What trimming returns: a tight run of `s` with nothing but whitespace
   before and after it.
   */
  lemma TrimSpaceShape(s: Text)
    ensures Tight(TrimSpace(s))
    ensures exists a: nat | a <= |s| :: OccursAt(TrimSpace(s), s, a) && AllSpace(s[..a]) && AllSpace(s[a + |TrimSpace(s)|..])
  {
    var a := Start(s);
    StartScan(s);
    StopScan(s, a);
    assert OccursAt(TrimSpace(s), s, a);
  }

  /**
   Whitespace-free core: whatever whitespace surrounds a tight text, trimming
   returns exactly that text.
   */
  lemma TrimSpaceExact(w1: Text, t: Text, w2: Text)
    requires AllSpace(w1) && AllSpace(w2) && Tight(t)
    ensures TrimSpace(w1 + t + w2) == t
  {
    var s := w1 + t + w2;
    var a := Start(s);
    StartScan(s);
    if t == [] {
      assert AllSpace(s);
      assert a == |s|;
    } else {
      assert s[|w1|] == t[0];
      assert a == |w1|;
      var b := Stop(s, a);
      StopScan(s, a);
      assert s[|w1| + |t| - 1] == t[|t| - 1];
      assert b == |w1| + |t|;
      assert s[a..b] == t;
    }
  }

  /** Trimming text that is already tight changes nothing. */
  lemma TrimSpaceTight(t: Text)
    requires Tight(t)
    ensures TrimSpace(t) == t
  {
    TrimSpaceExact([], t, []);
    assert [] + t + [] == t;
  }

  /** Whitespace appended to a text does not change its trimmed form. */
  lemma {:induction false} TrimSpaceIgnoresTrailing(x: Text, ws: Text)
    requires AllSpace(ws)
    ensures TrimSpace(x + ws) == TrimSpace(x)
  {
    var a := Start(x);
    var b := Stop(x, a);
    var r := x[a..b];
    StartScan(x);
    StopScan(x, a);
    assert Tight(r);
    var tail := x[b..] + ws;
    assert AllSpace(tail);
    assert x + ws == x[..a] + r + tail;
    TrimSpaceExact(x[..a], r, tail);
  }

  /** A tight text followed by whitespace trims to itself. */
  lemma TrimSpaceDropsTrailing(t: Text, ws: Text)
    requires Tight(t) && AllSpace(ws)
    ensures TrimSpace(t + ws) == t
  {
    TrimSpaceIgnoresTrailing(t, ws);
    TrimSpaceTight(t);
  }

  /**
   A text that begins with a tight, non-empty prefix keeps that prefix when
   trimmed: trimming removes whitespace only from the ends.
   */
  lemma TrimSpaceKeepsPrefix(p: Text, s: Text)
    requires p != [] && Tight(p) && |p| <= |s| && s[..|p|] == p
    ensures |p| <= |TrimSpace(s)| && TrimSpace(s)[..|p|] == p
  {
    assert s[0] == p[0] && s[|p| - 1] == p[|p| - 1];
    NonSpaceKept(s, 0);
    NonSpaceKept(s, |p| - 1);
  }

  /** Every non-space byte of `s` survives trimming. */
  lemma {:induction false} NonSpaceKept(s: Text, p: nat)
    requires p < |s| && !IsSpace(s[p])
    ensures Start(s) <= p < Stop(s, Start(s))
  {
    var a := Start(s);
    StartScan(s);
    StopScan(s, a);
  }

  lemma SliceOfSlice(s: Text, k: nat, e: nat, A: nat, B: nat, a: nat, b: nat)
    requires k <= e <= |s| && A <= B <= |s| && a <= b <= e - k
    requires A <= k + a && k + b <= B
    ensures s[A..B][k + a - A..k + b - A] == s[k..e][a..b]
  {
    var x, y := s[A..B][k + a - A..k + b - A], s[k..e][a..b];
    assert |x| == |y| == b - a;
    forall i | 0 <= i < b - a
      ensures x[i] == y[i]
    {
      assert x[i] == s[A..B][k + a - A + i] == s[k + a + i];
      assert y[i] == s[k..e][a + i] == s[k + a + i];
    }
  }

  /**
   Trimming preserves occurrence: whatever occurs inside `s` still occurs in
   the trimmed result once its own surrounding whitespace is removed.
   */
  lemma {:induction false} TrimSpaceKeepsInfix(t: Text, s: Text)
    requires IsInfix(t, s)
    ensures IsInfix(TrimSpace(t), TrimSpace(s))
  {
    var k: nat :| k <= |s| && OccursAt(t, s, k);
    TrimSpaceKeepsOccurrence(t, s, k);
  }

  lemma {:induction false} TrimSpaceKeepsOccurrence(t: Text, s: Text, k: nat)
    requires k + |t| <= |s| && s[k..k + |t|] == t
    ensures IsInfix(TrimSpace(t), TrimSpace(s))
  {
    var a := Start(t);
    var b := Stop(t, a);
    ScanEnds(t);
    var A := Start(s);
    var B := Stop(s, A);
    if a == b {
      assert OccursAt(t[a..b], s[A..B], 0);
    } else {
      CoreInsideCore(t, s, k, a, b);
      SliceOfSlice(s, k, k + |t|, A, B, a, b);
      assert OccursAt(t[a..b], s[A..B], k + a - A);
    }
    assert TrimSpace(t) == t[a..b] && TrimSpace(s) == s[A..B];
  }

  /** The non-space ends of an occurrence lie within the trimmed span of the whole. */
  lemma CoreInsideCore(t: Text, s: Text, k: nat, a: nat, b: nat)
    requires k + |t| <= |s| && s[k..k + |t|] == t
    requires a < b <= |t| && !IsSpace(t[a]) && !IsSpace(t[b - 1])
    ensures Start(s) <= k + a && k + b <= Stop(s, Start(s))
  {
    assert s[k + a] == t[a];
    assert s[k + b - 1] == t[b - 1];
    NonSpaceKept(s, k + a);
    NonSpaceKept(s, k + b - 1);
  }

  /**
   A line that occurs, newline and all, inside `s` survives trimming of `s`
   up to its own surrounding whitespace, and in full when it is tight.
   */
  lemma LineSurvivesTrim(line: Text, ws: Text, s: Text)
    requires AllSpace(ws) && IsInfix(line + ws, s)
    ensures IsInfix(TrimSpace(line), TrimSpace(s))
    ensures Tight(line) ==> IsInfix(line, TrimSpace(s))
  {
    TrimSpaceKeepsInfix(line + ws, s);
    TrimSpaceIgnoresTrailing(line, ws);
    if Tight(line) {
      TrimSpaceTight(line);
    }
  }
}
