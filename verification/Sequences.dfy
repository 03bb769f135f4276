/** What the other modules need of sequences. */
module Sequences {

  function Min(a: nat, b: nat): nat {
    if a < b then a else b
  }

  predicate Distinct<T(==)>(s: seq<T>) {
    forall i, j | 0 <= i < j < |s| :: s[i] != s[j]
  }

  /** The sequences agree on the first n elements, and then the first ends before the second, or has an
      element below the second's. */
  predicate DecidesAt<T(==)>(xs: seq<T>, ys: seq<T>, n: nat, below: (T, T) -> bool) {
    n <= |xs| && n < |ys| && xs[..n] == ys[..n] && (n == |xs| || below(xs[n], ys[n]))
  }

  /** The lexicographic order. */
  ghost predicate Lexicographic<T>(xs: seq<T>, ys: seq<T>, below: (T, T) -> bool) {
    exists n: nat :: DecidesAt(xs, ys, n, below)
  }

  lemma LexicographicStep<T>(xs: seq<T>, ys: seq<T>, below: (T, T) -> bool)
    ensures ys == [] ==> !Lexicographic(xs, ys, below)
    ensures xs == [] && ys != [] ==> Lexicographic(xs, ys, below)
    ensures xs != [] && ys != [] ==>
      (Lexicographic(xs, ys, below) <==>
         below(xs[0], ys[0]) || (xs[0] == ys[0] && Lexicographic(xs[1..], ys[1..], below)))
  {
    if xs == [] && ys != [] {
      assert DecidesAt(xs, ys, 0, below);
    } else if xs != [] && ys != [] {
      if below(xs[0], ys[0]) {
        assert DecidesAt(xs, ys, 0, below);
      }
      forall n: nat
        ensures DecidesAt(xs, ys, n + 1, below) <==> xs[0] == ys[0] && DecidesAt(xs[1..], ys[1..], n, below)
      {
        DecidesLater(xs, ys, n, below);
      }
      if Lexicographic(xs[1..], ys[1..], below) && xs[0] == ys[0] {
        var n: nat :| DecidesAt(xs[1..], ys[1..], n, below);
        assert DecidesAt(xs, ys, n + 1, below);
      }
      if Lexicographic(xs, ys, below) && !below(xs[0], ys[0]) {
        var n: nat :| DecidesAt(xs, ys, n, below);
        assert DecidesAt(xs, ys, (n - 1) + 1, below);
        assert DecidesAt(xs[1..], ys[1..], n - 1, below);
      }
    }
  }

  lemma DecidesLater<T>(xs: seq<T>, ys: seq<T>, n: nat, below: (T, T) -> bool)
    requires xs != [] && ys != []
    ensures DecidesAt(xs, ys, n + 1, below) <==> xs[0] == ys[0] && DecidesAt(xs[1..], ys[1..], n, below)
  {
    if n + 1 <= |xs| && n + 1 < |ys| {
      assert xs[..n + 1] == [xs[0]] + xs[1..][..n] && ys[..n + 1] == [ys[0]] + ys[1..][..n];
    }
  }

  lemma AppendHead<T>(a: seq<T>, b: seq<T>)
    requires a != []
    ensures (a + b)[0] == a[0] && (a + b)[1..] == a[1..] + b
  {
  }

  lemma AppendLast<T>(a: seq<T>, b: seq<T>)
    requires b != []
    ensures (a + b)[|a + b| - 1] == b[|b| - 1] && (a + b)[..|a + b| - 1] == a + b[..|b| - 1]
  {
  }

  lemma OneMore<T>(s: seq<T>, n: nat)
    requires n < |s|
    ensures s[..n + 1] == s[..n] + [s[n]]
  {
  }

  lemma Assoc<T>(x: seq<T>, y: seq<T>, z: seq<T>)
    ensures (x + y) + z == x + (y + z)
  {
  }
}
