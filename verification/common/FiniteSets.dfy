// Finite sets of numbers.
module FiniteSets {

  // The first n numbers.
  function AllIndices(n: nat): (r: set<nat>)
    ensures |r| == n && forall k: nat :: k in r <==> k < n
  {
    if n == 0 then {}
    else
      var fewer := AllIndices(n - 1);
      assert n - 1 !in fewer;
      fewer + {n - 1}
  }

  // A subset is no larger, and if it is as large, it is the whole.
  lemma SubsetSize(a: set<nat>, b: set<nat>)
    requires a <= b
    ensures |a| <= |b| && (|a| == |b| ==> a == b)
  {
    var c := b - a;
    assert b == a + c;
    assert c == {} || a != b;
  }
}
