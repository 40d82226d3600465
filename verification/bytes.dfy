/**
 Go strings are immutable byte sequences with no encoding attached; this
 module gives them a Dafny type and the few operations on them that the
 rest of the model shares.
 */
module Bytes {

  newtype byte = x: int | 0 <= x < 256

  /** A Go `string` or `[]byte`: any byte sequence, not necessarily UTF-8. */
  type Text = seq<byte>

  /**
   The bytes of a string literal. Every literal in this model is ASCII, where
   each character is stored as the single byte of its code.
   */
  function Lit(s: string): (r: Text)
    ensures |r| == |s|
  {
    seq(|s|, i requires 0 <= i < |s| => (s[i] as int % 256) as byte)
  }

  /** `a` occurs in `s` starting at offset `k`. */
  predicate OccursAt(a: Text, s: Text, k: nat) {
    k + |a| <= |s| && s[k..k + |a|] == a
  }

  /** `a` occurs somewhere inside `s` as a contiguous run of bytes. */
  predicate IsInfix(a: Text, s: Text) {
    exists k: nat | k <= |s| :: OccursAt(a, s, k)
  }

  lemma InfixOfConcat(p: Text, a: Text, q: Text)
    ensures IsInfix(a, p + a + q)
  {
    var s := p + a + q;
    assert s[|p|..|p| + |a|] == a;
    assert OccursAt(a, s, |p|);
  }

  lemma InfixOfPrefix(a: Text, q: Text)
    ensures IsInfix(a, a + q)
  {
    assert OccursAt(a, a + q, 0);
  }

  lemma InfixOfSuffix(p: Text, a: Text)
    ensures IsInfix(a, p + a)
  {
    assert (p + a)[|p|..] == a;
    assert OccursAt(a, p + a, |p|);
  }

  lemma {:induction false} InfixTransitive(a: Text, b: Text, c: Text)
    requires IsInfix(a, b) && IsInfix(b, c)
    ensures IsInfix(a, c)
  {
    var k: nat :| k <= |b| && OccursAt(a, b, k);
    var m: nat :| m <= |c| && OccursAt(b, c, m);
    forall i | 0 <= i < |a|
      ensures c[m + k + i] == a[i]
    {
      assert a[i] == b[k + i] == c[m + k + i];
    }
    assert c[m + k..m + k + |a|] == a;
    assert OccursAt(a, c, m + k);
  }
}
