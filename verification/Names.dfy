/** The order Python gives to strings. */
module Names {
  type Name = string

  predicate Before(a: Name, b: Name)
  {
    b != [] && (a == [] || a[0] < b[0] || (a[0] == b[0] && Before(a[1..], b[1..])))
  }

  // k places alike, then a ends or has the smaller character.
  ghost predicate FirstDifference(a: Name, b: Name, k: nat)
  {
    k <= |a| && k < |b| && a[..k] == b[..k] && (k == |a| || a[k] < b[k])
  }

  lemma {:induction false} BeforeExactly(a: Name, b: Name)
    ensures Before(a, b) <==> exists k: nat :: FirstDifference(a, b, k)
  {
    if a == [] || b == [] || a[0] != b[0] {
      assert Before(a, b) ==> FirstDifference(a, b, 0);
    } else {
      BeforeExactly(a[1..], b[1..]);
      forall k: nat | FirstDifference(a[1..], b[1..], k)
        ensures FirstDifference(a, b, k + 1)
      {
        assert a[..k + 1] == [a[0]] + a[1..][..k] && b[..k + 1] == [b[0]] + b[1..][..k];
      }
      forall k: nat | FirstDifference(a, b, k)
        ensures k > 0 && FirstDifference(a[1..], b[1..], k - 1)
      {
        assert k > 0;
        assert a[1..][..k - 1] == a[..k][1..] && b[1..][..k - 1] == b[..k][1..];
      }
    }
  }

  lemma {:induction false} BeforeIsTotal(a: Name, b: Name)
    ensures a != b <==> Before(a, b) || Before(b, a)
    ensures !(Before(a, b) && Before(b, a))
  {
    if a != [] && b != [] && a[0] == b[0] {
      BeforeIsTotal(a[1..], b[1..]);
      assert a == [a[0]] + a[1..] && b == [b[0]] + b[1..];
    }
  }

  lemma {:induction false} BeforeIsTransitive(a: Name, b: Name, c: Name)
    requires Before(a, b) && Before(b, c)
    ensures Before(a, c)
  {
    if a != [] && a[0] == b[0] == c[0] {
      BeforeIsTransitive(a[1..], b[1..], c[1..]);
    }
  }
}
