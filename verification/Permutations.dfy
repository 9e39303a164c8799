// Sequences with the same elements in another order.

module Permutations {

  lemma Cancel<T>(a: multiset<T>, b: multiset<T>, x: T)
    requires a + multiset{x} == b + multiset{x}
    ensures a == b
  {
    assert a == a + multiset{x} - multiset{x};
    assert b == b + multiset{x} - multiset{x};
  }

  /** Taking the same element out of both leaves the same elements. */
  lemma OneLess<T>(a: seq<T>, b: seq<T>, k: nat)
    requires multiset(a) == multiset(b) && a != [] && k < |b| && b[k] == a[|a| - 1]
    ensures multiset(a[..|a| - 1]) == multiset(b[..k] + b[k + 1..])
  {
    var x, rest, front := b[k], b[..k] + b[k + 1..], a[..|a| - 1];
    assert a == front + [x] && b == b[..k] + [x] + b[k + 1..];
    assert multiset(b) == multiset(rest) + multiset{x};
    assert multiset(a) == multiset(front) + multiset{x};
    Cancel(multiset(front), multiset(rest), x);
  }

  lemma TwiceIn<T>(b: seq<T>, i: nat, j: nat)
    requires i < j < |b| && b[i] == b[j]
    ensures multiset(b)[b[i]] >= 2
  {
    assert b == b[..j] + [b[j]] + b[j + 1..];
    assert b[i] in multiset(b[..j]);
  }

  lemma FoundIn<T>(a: seq<T>, b: seq<T>, x: T) returns (k: nat)
    requires multiset(a) == multiset(b) && x in a
    ensures k < |b| && b[k] == x
  {
    assert x in multiset(b);
    k :| k < |b| && b[k] == x;
  }
}
