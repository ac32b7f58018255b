/**
 * Moving every element of a sequence to its own position in another sequence
 * of the same length is a permutation. This is the argument behind "every
 * output position is written exactly once" in the scatter phase.
 */
module Permutation {

  /** `f` sends each index of `a` to an index of `b` holding the same element,
    * and no two indices to the same one. */
  ghost predicate Embeds<T>(a: seq<T>, b: seq<T>, f: seq<nat>) {
    && |f| == |a|
    && (forall i :: 0 <= i < |a| ==> f[i] < |b| && b[f[i]] == a[i])
    && (forall i, j :: 0 <= i < j < |a| ==> f[i] != f[j])
  }

  /** A one-to-one placement of `a` into a sequence just as long permutes it. */
  lemma {:induction false} EmbeddingPermutes<T>(a: seq<T>, b: seq<T>, f: seq<nat>)
    requires |a| == |b| && Embeds(a, b, f)
    ensures multiset(a) == multiset(b)
    decreases |a|
  {
    if |a| > 0 {
      var last := |a| - 1;
      var p := f[last];
      var a', b' := a[..last], b[..p] + b[p + 1..];
      var f' := seq(last, i requires 0 <= i < last => if f[i] < p then f[i] else f[i] - 1);
      forall i | 0 <= i < last
        ensures f'[i] < |b'| && b'[f'[i]] == a'[i]
      {
        assert f[i] != f[last];
      }
      forall i, j | 0 <= i < j < last
        ensures f'[i] != f'[j]
      {
        assert f[i] != f[last] && f[j] != f[last];
      }
      EmbeddingPermutes(a', b', f');
      assert a == a' + [a[last]];
      assert b == b[..p] + [b[p]] + b[p + 1..];
    }
  }
}
