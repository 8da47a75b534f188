/** Small shared definitions. */
module Prelude {
  /** A value that may be absent: the source's nil pointers and missing rows. */
  datatype Option<+T> = None | Some(value: T)

  ghost predicate NoRepeats<X>(s: seq<X>) {
    forall i, j | 0 <= i < j < |s| :: s[i] != s[j]
  }

  ghost function Elements<X>(s: seq<X>): set<X> {
    set x | x in s
  }

  lemma {:induction false} NoRepeatsSize<X>(s: seq<X>)
    requires NoRepeats(s)
    ensures |Elements(s)| == |s|
  {
    if s != [] {
      var last := |s| - 1;
      NoRepeatsSize(s[..last]);
      assert Elements(s) == Elements(s[..last]) + {s[last]};
    }
  }

  lemma SubsetSize<X>(s: set<X>, t: set<X>)
    requires s <= t
    ensures |s| <= |t|
    ensures |s| == |t| ==> s == t
  {
    assert t == s + (t - s);
  }

  lemma ProductIsMonotone(a: nat, b: nat, d: nat)
    requires a <= b
    ensures a * d <= b * d
  {
  }

  lemma QuotientIs(n: nat, d: nat, q: nat, rest: nat)
    requires n == q * d + rest && rest < d
    ensures n / d == q
  {
    var p := n / d;
    assert p * d <= n < p * d + d;
    if p < q {
      ProductIsMonotone(p + 1, q, d);
    } else if q < p {
      ProductIsMonotone(q + 1, p, d);
    }
  }

  lemma Regroup(a: nat, b: nat, q: nat, rest: nat)
    ensures (q * b + rest) * a == q * (a * b) + rest * a
  {
    assert (q * b) * a == q * (b * a);
  }

  lemma DivideRests(n: nat, high: nat, a: nat, b: nat, q: nat, rest: nat, ones: nat)
    requires rest < b && ones < a
    requires n == high * a + ones && high == q * b + rest
    ensures a * b > 0 && n / (a * b) == q
  {
    Regroup(a, b, q, rest);
    ProductIsMonotone(rest + 1, b, a);
    QuotientIs(n, a * b, q, rest * a + ones);
  }

  /** Dividing twice is dividing by the product. */
  lemma DivideTwice(n: nat, a: nat, b: nat)
    requires a > 0 && b > 0
    ensures a * b > 0 && n / a / b == n / (a * b)
  {
    DivideRests(n, n / a, a, b, n / a / b, n / a % b, n % a);
  }

  /** The next key of a map iteration: the order is unspecified, so any remaining key will do. */
  method AnyOf<K(==)>(keys: set<K>) returns (k: K)
    requires keys != {}
    ensures k in keys
  {
    k :| k in keys;
  }
}
