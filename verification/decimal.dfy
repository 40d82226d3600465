/**
 The `%d` verb of Go's fmt package for a non-negative integer: its decimal
 digits, most significant first, with no sign, padding or leading zero.
 */
module Decimal {
  import opened Bytes

  predicate IsDigit(d: byte) {
    48 <= d <= 57
  }

  predicate AllDigits(t: Text) {
    forall i | 0 <= i < |t| :: IsDigit(t[i])
  }

  /** `fmt.Sprintf("%d", n)` for `n >= 0`. */
  function Format(n: nat): (r: Text)
    ensures |r| >= 1 && AllDigits(r)
    ensures |r| > 1 ==> r[0] != 48
    decreases n
  {
    if n < 10 then [(48 + n) as byte] else Format(n / 10) + [(48 + n % 10) as byte]
  }

  /** The number a run of decimal digits denotes. */
  function Value(t: Text): nat
    requires AllDigits(t)
  {
    if t == [] then 0 else 10 * Value(t[..|t| - 1]) + (t[|t| - 1] as nat - 48)
  }

  /** Reading the digits back gives the number that was printed. */
  lemma {:induction false} ValueFormat(n: nat)
    ensures Value(Format(n)) == n
    decreases n
  {
    if n >= 10 {
      ValueFormat(n / 10);
      var r := Format(n);
      assert r[..|r| - 1] == Format(n / 10);
    }
  }

  /** Distinct numbers print differently. */
  lemma FormatInjective(m: nat, n: nat)
    requires Format(m) == Format(n)
    ensures m == n
  {
    ValueFormat(m);
    ValueFormat(n);
  }
}
