/** Permutations of positions, as sequences of the positions gone to. */
module Permutations {
  ghost predicate Permutes(p: seq<nat>, m: nat, n: nat) {
    && |p| == m == n
    && (forall i :: 0 <= i < m ==> p[i] < n)
    && (forall i, j :: 0 <= i < j < m ==> p[i] != p[j])
  }

  /** What is left of a permutation once position `p[0]` is taken out of its range. */
  function Renumber(p: seq<nat>): (q: seq<nat>)
    requires p != []
    ensures |q| == |p| - 1
    ensures forall i :: 0 <= i < |q| ==> q[i] == if p[i + 1] > p[0] then p[i + 1] - 1 else p[i + 1]
  {
    seq(|p| - 1, i requires 0 <= i < |p| - 1 => if p[i + 1] > p[0] then p[i + 1] - 1 else p[i + 1])
  }

  lemma RenumberPermutes(p: seq<nat>, n: nat)
    requires n > 0 && Permutes(p, n, n)
    ensures Permutes(Renumber(p), n - 1, n - 1)
  {
    var q := Renumber(p);
    forall i | 0 <= i < n - 1 ensures q[i] < n - 1 {
      assert p[0] != p[i + 1];
    }
    forall i, j | 0 <= i < j < n - 1 ensures q[i] != q[j] {
      assert p[i + 1] != p[j + 1] && p[0] != p[i + 1] && p[0] != p[j + 1];
    }
  }

  /** A permutation reaches every position. */
  lemma {:induction false} PermutationReaches(p: seq<nat>, n: nat, k: nat) returns (i: nat)
    requires Permutes(p, n, n) && k < n
    ensures i < n && p[i] == k
    decreases n
  {
    if p[0] == k {
      i := 0;
    } else {
      RenumberPermutes(p, n);
      var j := PermutationReaches(Renumber(p), n - 1, if k > p[0] then k - 1 else k);
      i := j + 1;
      assert p[0] != p[i];
    }
  }
}
