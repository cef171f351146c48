/** Sequences without repetition, and their edits at one place. */
module Sequences {

  ghost predicate Distinct<T>(p: seq<T>) {
    forall i, j :: 0 <= i < j < |p| ==> p[i] != p[j]
  }

  function Without<T>(p: seq<T>, k: nat): (q: seq<T>)
    requires k < |p|
    ensures |q| == |p| - 1 && forall i :: 0 <= i < |q| ==> q[i] == if i < k then p[i] else p[i + 1]
  {
    p[..k] + p[k + 1..]
  }

  function With<T>(p: seq<T>, k: nat, n: T): (q: seq<T>)
    requires k <= |p|
    ensures |q| == |p| + 1
    ensures forall i :: 0 <= i < |q| ==> q[i] == if i < k then p[i] else if i == k then n else p[i - 1]
  {
    p[..k] + [n] + p[k..]
  }

  lemma DistinctEdits<T>(p: seq<T>, k: nat, n: T)
    requires Distinct(p) && k <= |p|
    ensures n !in p ==> Distinct(With(p, k, n))
    ensures k < |p| ==> Distinct(Without(p, k)) && p[k] !in Without(p, k)
  {
    if n !in p {
      var q := With(p, k, n);
      forall i, j | 0 <= i < j < |q| ensures q[i] != q[j] {
        assert i != k ==> q[i] in p;
        assert j != k ==> q[j] in p;
      }
    }
  }
}
