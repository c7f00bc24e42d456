/** Sequences as sets, and without their repeated elements. */
module Sets {

  function SetOf<T(==)>(xs: seq<T>): set<T> { set x <- xs }

  lemma {:induction false} UpperBound(s: set<nat>) returns (b: nat)
    ensures forall x <- s :: x < b
  {
    if s == {} {
      b := 0;
    } else {
      var x :| x in s;
      var c := UpperBound(s - {x});
      b := if x < c then c else x + 1;
      forall y | y in s ensures y < b {
        assert y == x || y in s - {x};
      }
    }
  }

  ghost predicate NoRepeats<T>(xs: seq<T>) {
    forall i, j :: 0 <= i < j < |xs| ==> xs[i] != xs[j]
  }

  /** Each element at its first position only. */
  function Dedup<T(==, !new)>(xs: seq<T>): (r: seq<T>)
    ensures NoRepeats(r) && forall x :: x in r <==> x in xs
  {
    if xs == [] then []
    else
      var init, last := xs[..|xs| - 1], xs[|xs| - 1];
      assert xs == init + [last];
      if last in init then Dedup(init) else Dedup(init) + [last]
  }

  lemma DedupStep<T(!new)>(xs: seq<T>, k: nat)
    requires k < |xs|
    ensures Dedup(xs[..k + 1]) == if xs[k] in xs[..k] then Dedup(xs[..k]) else Dedup(xs[..k]) + [xs[k]]
  {
    assert xs[..k + 1][..k] == xs[..k];
  }

  lemma {:induction false} DedupPrefix<T(!new)>(xs: seq<T>, k: nat)
    requires k <= |xs|
    ensures Dedup(xs[..k]) <= Dedup(xs)
    decreases |xs| - k
  {
    if k == |xs| {
      assert xs[..k] == xs;
    } else {
      DedupStep(xs, k);
      DedupPrefix(xs, k + 1);
    }
  }

  lemma {:induction false} DedupOfDistinct<T(!new)>(xs: seq<T>)
    ensures Dedup(xs) == xs <==> NoRepeats(xs)
  {
    if xs != [] && NoRepeats(xs) {
      var init := xs[..|xs| - 1];
      DedupOfDistinct(init);
      assert xs == init + [xs[|xs| - 1]];
    }
  }
}
