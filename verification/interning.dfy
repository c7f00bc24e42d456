/** Interning a string: which of the two tables it is looked up in, and the table changes, each of
    them logged by the open transaction, that follow. */
module Interning {
  import opened HeapModel
  import opened TransactionModel
  import opened TransactionRuns

  /** The string that interning `str` returns: the one with the same text that is in a table, the
      strong table first, or `str` itself. */
  function Interned(h: Heap, str: Ref): Ref {
    var x := TextOf(h.shapes, str);
    if x in h.strong then h.strong[x] else if x in h.weak then h.weak[x] else str
  }

  /** A string found only in the weak table moves to the strong one when interned strongly. */
  function InternEvents(h: Heap, str: Ref, isStrong: bool): seq<Event> {
    var x := TextOf(h.shapes, str);
    if x in h.strong then []
    else if x in h.weak then
      if isStrong then [Intern(InternOp(h.weak[x], false, false)), Intern(InternOp(h.weak[x], true, true))] else []
    else [Intern(InternOp(str, isStrong, true))]
  }

  /** No text is in both tables. */
  ghost predicate TablesApart(h: Heap) { h.strong.Keys !! h.weak.Keys }

  lemma OneEvent(s: Sys, e: Event)
    requires ValidHeap(s.heap) && Enabled(s, e)
    ensures Runs(s, [e]) && Run(s, [e]) == Step(s, e)
  {
    hide Step, Enabled, ValidHeap;
    assert [e][1..] == [];
  }

  lemma TwoEvents(s: Sys, e: Event, f: Event)
    requires ValidHeap(s.heap) && Enabled(s, e) && ValidHeap(Step(s, e).heap) && Enabled(Step(s, e), f)
    ensures Runs(s, [e, f]) && Run(s, [e, f]) == Step(Step(s, e), f)
  {
    hide Step, Enabled, ValidHeap;
    OneEvent(Step(s, e), f);
    assert [e, f][1..] == [f];
  }

  /** The first half of moving a string to the strong table makes the second half possible. */
  lemma PromotionSteps(s: Sys, x: string)
    requires ValidHeap(s.heap) && x in s.heap.weak && x !in s.heap.strong
    ensures var str := s.heap.weak[x];
      var e, f := Intern(InternOp(str, false, false)), Intern(InternOp(str, true, true));
      && Enabled(s, e) && ValidHeap(Step(s, e).heap) && Enabled(Step(s, e), f) && ValidHeap(Step(Step(s, e), f).heap)
      && var t := Step(Step(s, e), f);
      t.heap == s.heap.(strong := s.heap.strong[x := str], weak := s.heap.weak - {x})
  {
    assert s.heap.shapes[s.heap.weak[x]].text == x;
  }

  lemma NoEvents(s: Sys)
    ensures Runs(s, []) && Run(s, []) == s
  {
  }

  lemma InsertionStep(s: Sys, str: Ref, isStrong: bool)
    requires ValidHeap(s.heap) && str in s.heap.shapes && s.heap.shapes[str].text !in s.heap.strong && s.heap.shapes[str].text !in s.heap.weak
    ensures var e, x := Intern(InternOp(str, isStrong, true)), s.heap.shapes[str].text;
      && Enabled(s, e) && ValidHeap(Step(s, e).heap)
      && Step(s, e).heap == if isStrong then s.heap.(strong := s.heap.strong[x := str]) else s.heap.(weak := s.heap.weak[x := str])
  {
  }

  /** Interning is possible in every state. It returns a string with the same text that is then
      in the table asked for, or in the strong one, leaves all other texts alone, never takes a text
      out of the strong table, and keeps the tables apart. */
  lemma InterningFindsOrAdds(s: Sys, str: Ref, isStrong: bool)
    requires ValidHeap(s.heap) && str in s.heap.shapes
    ensures Runs(s, InternEvents(s.heap, str, isStrong))
    ensures var t, r, x := Run(s, InternEvents(s.heap, str, isStrong)), Interned(s.heap, str), s.heap.shapes[str].text;
      && ValidHeap(t.heap) && t.heap.mem == s.heap.mem && t.heap.shapes == s.heap.shapes
      && r in t.heap.shapes && t.heap.shapes[r].text == x
      && (if isStrong || x in t.heap.strong then x in t.heap.strong && t.heap.strong[x] == r else x in t.heap.weak && t.heap.weak[x] == r)
      && (forall y :: y != x ==> (y in t.heap.strong <==> y in s.heap.strong) && (y in t.heap.weak <==> y in s.heap.weak))
      && (forall y <- s.heap.strong :: y in t.heap.strong && t.heap.strong[y] == s.heap.strong[y])
      && (forall y <- t.heap.weak :: y != x ==> y in s.heap.weak && t.heap.weak[y] == s.heap.weak[y])
      && (TablesApart(s.heap) ==> TablesApart(t.heap))
  {
    hide Runs, Run, Step, Enabled;
    var x := s.heap.shapes[str].text;
    if x in s.heap.strong || (x in s.heap.weak && !isStrong) {
      NoEvents(s);
    } else if x in s.heap.weak {
      PromotionSteps(s, x);
      var u := s.heap.weak[x];
      TwoEvents(s, Intern(InternOp(u, false, false)), Intern(InternOp(u, true, true)));
    } else {
      InsertionStep(s, str, isStrong);
      OneEvent(s, Intern(InternOp(str, isStrong, true)));
    }
  }

  /** Equal strings are interned as one object: interning any string of the same text afterwards
      returns the same object, and changes nothing unless it asks for a strong entry where there
      was none. */
  lemma InterningIsCanonical(s: Sys, str: Ref, isStrong: bool, other: Ref, otherStrong: bool)
    requires ValidHeap(s.heap) && str in s.heap.shapes && other in s.heap.shapes && s.heap.shapes[other].text == s.heap.shapes[str].text
    ensures Runs(s, InternEvents(s.heap, str, isStrong))
    ensures var t := Run(s, InternEvents(s.heap, str, isStrong));
      && Interned(t.heap, other) == Interned(s.heap, str)
      && (isStrong || !otherStrong ==> InternEvents(t.heap, other, otherStrong) == [])
  {
    hide Runs, Run, ValidHeap;
    InterningFindsOrAdds(s, str, isStrong);
  }
}
