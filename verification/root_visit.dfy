/** Re-keying a log map when a collection moves the objects that are its keys. */
module RootVisit {
  import opened HeapModel

  /** Where the visitor says the object at `r` is now. */
  function Visited(moves: map<Ref, Ref>, r: Ref): Ref {
    if r in moves then moves[r] else r
  }

  /** A collection never puts two objects at one address. */
  ghost predicate KeepsApart(moves: map<Ref, Ref>, keys: set<Ref>) {
    forall x, y :: x in keys && y in keys && x != y ==> Visited(moves, x) != Visited(moves, y)
  }

  /** The keys of `d` renamed, values unchanged. */
  ghost predicate Rekeyed<V(!new)>(moves: map<Ref, Ref>, d: map<Ref, V>, r: map<Ref, V>) {
    && (forall x <- d :: Visited(moves, x) in r && r[Visited(moves, x)] == d[x])
    && (forall k <- r :: exists x :: x in d && Visited(moves, x) == k)
  }

  /** A key moves onto the old address of a smaller key. */
  ghost predicate MovesDownOnto(moves: map<Ref, Ref>, keys: set<Ref>, o: Ref) {
    o in keys && Visited(moves, o) < o && Visited(moves, o) in keys
  }

  // ---- Iterating a map in key order ----

  ghost predicate Ascending(ks: seq<Ref>) {
    forall i, j :: 0 <= i < j < |ks| ==> ks[i] < ks[j]
  }

  method Smallest(s: set<Ref>) returns (m: Ref)
    requires s != {}
    ensures m in s && forall x <- s :: m <= x
  {
    m :| m in s;
    var rest := s - {m};
    while rest != {}
      invariant m in s && rest <= s && m !in rest
      invariant forall x :: x in s && x !in rest ==> m <= x
      decreases rest
    {
      var x :| x in rest;
      rest := rest - {x};
      if x < m { m := x; }
    }
  }

  /** The order in which a `SafeMap` with these keys is traversed. */
  method KeysInOrder(keys: set<Ref>) returns (ks: seq<Ref>)
    ensures Ascending(ks) && forall x :: x in ks <==> x in keys
  {
    ks := [];
    var rest := keys;
    while rest != {}
      invariant rest <= keys && Ascending(ks)
      invariant forall x :: x in ks <==> x in keys && x !in rest
      invariant forall x, y :: x in ks && y in rest ==> x < y
      decreases rest
    {
      var m := Smallest(rest);
      ghost var before := ks;
      ks := ks + [m];
      rest := rest - {m};
      forall i, j | 0 <= i < j < |ks| ensures ks[i] < ks[j] {
        assert ks[i] in before;
      }
    }
  }

  // ---- Collecting and applying the moves ----

  /** The keys that move, largest first, each with its new address. */
  ghost predicate MovingRoots(moves: map<Ref, Ref>, keys: set<Ref>, pairs: seq<(Ref, Ref)>) {
    && (forall i, j :: 0 <= i < j < |pairs| ==> pairs[i].0 > pairs[j].0)
    && (forall i :: 0 <= i < |pairs| ==> pairs[i].0 in keys && pairs[i].1 == Visited(moves, pairs[i].0) != pairs[i].0)
    && (forall o <- keys :: Visited(moves, o) != o ==> (o, Visited(moves, o)) in pairs)
  }

  /** The visiting loop: ascending traversal, moved keys pushed to the front of a list. */
  method CollectMovingRoots(moves: map<Ref, Ref>, keys: set<Ref>) returns (pairs: seq<(Ref, Ref)>)
    ensures MovingRoots(moves, keys, pairs)
  {
    var ks := KeysInOrder(keys);
    pairs := [];
    for i := 0 to |ks|
      invariant forall p, q :: 0 <= p < q < |pairs| ==> pairs[p].0 > pairs[q].0
      invariant forall p :: 0 <= p < |pairs| ==> pairs[p].0 in ks[..i] && pairs[p].1 == Visited(moves, pairs[p].0) != pairs[p].0
      invariant forall j :: 0 <= j < i && Visited(moves, ks[j]) != ks[j] ==> (ks[j], Visited(moves, ks[j])) in pairs
    {
      var o := ks[i];
      var n := Visited(moves, o);
      assert ks[..i + 1] == ks[..i] + [o];
      if n != o {
        pairs := [(o, n)] + pairs;
      }
    }
    forall o | o in keys && Visited(moves, o) != o ensures (o, Visited(moves, o)) in pairs {
      assert o in ks;
    }
  }

  /** The map after the keys in `done` have been renamed. */
  ghost predicate PartlyRekeyed<V(!new)>(moves: map<Ref, Ref>, d: map<Ref, V>, done: set<Ref>, r: map<Ref, V>) {
    && (forall x <- d :: x !in done ==> x in r && r[x] == d[x])
    && (forall x <- done :: x in d && Visited(moves, x) in r && r[Visited(moves, x)] == d[x])
    && (forall x <- done :: Visited(moves, x) in d ==> Visited(moves, x) in done)
    && (forall k <- r :: (k in d && k !in done) || exists x :: x in done && Visited(moves, x) == k)
  }

  /** The keys already renamed are the moving ones above the next one. */
  lemma DoneAreLarger(moves: map<Ref, Ref>, keys: set<Ref>, pairs: seq<(Ref, Ref)>, i: nat, done: set<Ref>, x: Ref)
    requires MovingRoots(moves, keys, pairs) && i < |pairs|
    requires forall x :: x in done <==> exists j :: 0 <= j < i && pairs[j].0 == x
    ensures x in done <==> x in keys && Visited(moves, x) != x && x > pairs[i].0
  {
    hide Visited;
    if x in done {
      var j :| 0 <= j < i && pairs[j].0 == x;
    }
    if x in keys && Visited(moves, x) != x && x > pairs[i].0 {
      var j :| 0 <= j < |pairs| && pairs[j] == (x, Visited(moves, x));
      assert j < i;
    }
  }

  lemma NewKeyIsFree<V(!new)>(moves: map<Ref, Ref>, d: map<Ref, V>, done: set<Ref>, r: map<Ref, V>, o: Ref)
    requires KeepsApart(moves, d.Keys) && PartlyRekeyed(moves, d, done, r) && o in d && o !in done
    ensures Visited(moves, o) in r <==> Visited(moves, o) in d && Visited(moves, o) !in done
  {
    hide Visited;
    var n := Visited(moves, o);
    forall x | x in done ensures Visited(moves, x) != n {
      assert x in d && x != o;
    }
  }

  /** The insertion finds its key taken exactly when the object moves down onto the old address
      of a key that has not been extracted yet. */
  lemma CollisionExactlyDownward<V(!new)>(moves: map<Ref, Ref>, pairs: seq<(Ref, Ref)>, d: map<Ref, V>, i: nat, done: set<Ref>, r: map<Ref, V>)
    requires KeepsApart(moves, d.Keys) && MovingRoots(moves, d.Keys, pairs) && i < |pairs|
    requires forall x :: x in done <==> exists j :: 0 <= j < i && pairs[j].0 == x
    requires PartlyRekeyed(moves, d, done, r)
    ensures pairs[i].0 in r && pairs[i].0 !in done
    ensures pairs[i].1 in r - {pairs[i].0} <==> MovesDownOnto(moves, d.Keys, pairs[i].0)
  {
    hide Visited;
    var (o, n) := pairs[i];
    DoneAreLarger(moves, d.Keys, pairs, i, done, o);
    DoneAreLarger(moves, d.Keys, pairs, i, done, n);
    assert o in d && n == Visited(moves, o) && n != o;
    NewKeyIsFree(moves, d, done, r, o);
  }

  lemma RekeyOne<V(!new)>(moves: map<Ref, Ref>, d: map<Ref, V>, done: set<Ref>, r: map<Ref, V>, o: Ref)
    requires KeepsApart(moves, d.Keys) && PartlyRekeyed(moves, d, done, r)
    requires o in d && o !in done && Visited(moves, o) != o && Visited(moves, o) !in r - {o}
    ensures PartlyRekeyed(moves, d, done + {o}, (r - {o})[Visited(moves, o) := r[o]])
  {
    var r' := (r - {o})[Visited(moves, o) := r[o]];
    forall k | k in r' ensures (k in d && k !in done + {o}) || exists x :: x in done + {o} && Visited(moves, x) == k {
      if k == Visited(moves, o) {
        assert o in done + {o};
      } else if x :| x in done && Visited(moves, x) == k {
        assert x in done + {o};
      }
    }
    forall x | x in done ensures Visited(moves, x) in r' && r'[Visited(moves, x)] == d[x] {
      assert Visited(moves, x) in r;
    }
  }

  lemma AllRekeyed<V(!new)>(moves: map<Ref, Ref>, d: map<Ref, V>, done: set<Ref>, r: map<Ref, V>)
    requires PartlyRekeyed(moves, d, done, r)
    requires forall x <- d :: Visited(moves, x) != x ==> x in done
    ensures Rekeyed(moves, d, r)
  {
    forall k | k in r ensures exists x :: x in d && Visited(moves, x) == k {
      if k in d && k !in done {
        assert Visited(moves, k) == k;
      }
    }
  }

  lemma NothingRekeyed<V(!new)>(moves: map<Ref, Ref>, d: map<Ref, V>)
    ensures PartlyRekeyed(moves, d, {}, d)
  {
  }

  /** `UpdateKeys`: extract each old key, insert its node under the new one. The insertion check
      fails, and the process dies, exactly when some key moves down onto the old address of a
      smaller key. Otherwise the result is the renamed map. In particular nothing collides when
      every moved object goes to an address that is not a key. */
  method UpdateKeys<V(!new)>(moves: map<Ref, Ref>, pairs: seq<(Ref, Ref)>, d: map<Ref, V>) returns (ok: bool, r: map<Ref, V>)
    requires KeepsApart(moves, d.Keys) && MovingRoots(moves, d.Keys, pairs)
    ensures ok <==> forall o :: !MovesDownOnto(moves, d.Keys, o)
    ensures ok ==> Rekeyed(moves, d, r)
  {
    hide PartlyRekeyed, Rekeyed, KeepsApart;
    r, ok := d, true;
    ghost var done: set<Ref> := {};
    NothingRekeyed(moves, d);
    for i := 0 to |pairs|
      invariant forall x :: x in done <==> exists j :: 0 <= j < i && pairs[j].0 == x
      invariant PartlyRekeyed(moves, d, done, r)
      invariant forall o :: o in done ==> !MovesDownOnto(moves, d.Keys, o)
    {
      var (o, n) := pairs[i];
      CollisionExactlyDownward(moves, pairs, d, i, done, r);
      var node, rest := r[o], r - {o};
      if n in rest {
        ok := false;
        return;
      }
      RekeyOne(moves, d, done, r, o);
      r := rest[n := node];
      done := done + {o};
    }
    assert forall o <- d :: Visited(moves, o) != o ==> (o, Visited(moves, o)) in pairs;
    AllRekeyed(moves, d, done, r);
  }

  /** Objects at 8 and 16 move to 24 and 8. No two end at one address, but the one at 16 is re-keyed
      first, while the key 8 is still there. */
  lemma RekeyingCollides()
    ensures var moves := map[16 := 8, 8 := 24];
      KeepsApart(moves, {8, 16}) && MovesDownOnto(moves, {8, 16}, 16)
  {
  }
}
