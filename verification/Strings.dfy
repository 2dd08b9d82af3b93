/** The order of strings: character by character, a prefix before its extensions. */
module Strings {
  predicate Greater(a: string, b: string) {
    if a == [] then false
    else if b == [] then true
    else a[0] > b[0] || (a[0] == b[0] && Greater(a[1..], b[1..]))
  }

  lemma {:induction false} Irreflexive(a: string)
    ensures !Greater(a, a)
  {
    if a != [] {
      Irreflexive(a[1..]);
    }
  }

  lemma {:induction false} Trichotomy(a: string, b: string)
    ensures Greater(a, b) || Greater(b, a) || a == b
    ensures !(Greater(a, b) && Greater(b, a)) && !Greater(a, a)
  {
    if a != [] && b != [] && a[0] == b[0] {
      Trichotomy(a[1..], b[1..]);
      assert a == [a[0]] + a[1..] && b == [b[0]] + b[1..];
    }
    Irreflexive(a);
  }

  lemma {:induction false} Transitive(a: string, b: string, c: string)
    requires Greater(a, b) && Greater(b, c)
    ensures Greater(a, c)
  {
    if c != [] && a[0] == b[0] == c[0] {
      Transitive(a[1..], b[1..], c[1..]);
    }
  }
}
