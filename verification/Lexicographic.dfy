/** The order a string comparison in the source (and a plain `ORDER BY`) uses. */
module Lexicographic {

  predicate Less(a: string, b: string) {
    b != "" && (a == "" || a[0] < b[0] || (a[0] == b[0] && Less(a[1..], b[1..])))
  }

  lemma {:induction false} Trichotomy(a: string, b: string)
    ensures Less(a, b) || a == b || Less(b, a)
    ensures !(Less(a, b) && Less(b, a))
    ensures a == b ==> !Less(a, b)
  {
    if a != "" && b != "" && a[0] == b[0] {
      Trichotomy(a[1..], b[1..]);
      assert a == [a[0]] + a[1..] && b == [b[0]] + b[1..];
    }
  }

  lemma {:induction false} Transitive(a: string, b: string, c: string)
    requires Less(a, b) && Less(b, c)
    ensures Less(a, c)
  {
    if a != "" && a[0] == b[0] && b[0] == c[0] {
      Transitive(a[1..], b[1..], c[1..]);
    }
  }

  /** A shared prefix does not matter to the order. */
  lemma {:induction false} SharedPrefix(p: string, a: string, b: string)
    ensures Less(p + a, p + b) <==> Less(a, b)
  {
    if p == "" {
      assert p + a == a && p + b == b;
    } else {
      assert (p + a)[1..] == p[1..] + a && (p + b)[1..] == p[1..] + b;
      SharedPrefix(p[1..], a, b);
    }
  }

  lemma ProperPrefix(p: string, a: string)
    requires a != ""
    ensures Less(p, p + a)
  {
    assert p + "" == p;
    SharedPrefix(p, "", a);
  }

  /** Between strings that differ inside equally long fronts, only the fronts decide. */
  lemma {:induction false} FrontsDecide(u: string, f: string, w: string, g: string)
    requires |u| == |w| && u != w
    ensures Less(u + f, w + g) <==> Less(u, w)
  {
    assert (u + f)[1..] == u[1..] + f && (w + g)[1..] == w[1..] + g;
    if u[0] == w[0] {
      assert u == [u[0]] + u[1..] && w == [w[0]] + w[1..];
      FrontsDecide(u[1..], f, w[1..], g);
    }
  }
}
