// FactSet values: additive merge, the equality test that decides whether a cell
// has changed, and how the two fit together.
module FactSets {
  import opened Common
  import opened LogicProgram

  /** The facts of `b` that are not in `a`, in order. */
  function Missing(a: seq<Fact>, b: seq<Fact>): seq<Fact> {
    if b == [] then []
    else (if b[0] in a then [] else [b[0]]) + Missing(a, b[1..])
  }

  function MergeFactSets(a: seq<Fact>, b: seq<Fact>): seq<Fact> {
    a + Missing(a, b)
  }

  predicate FactSetsEqual(a: seq<Fact>, b: seq<Fact>) {
    |a| == |b| && forall i :: 0 <= i < |a| ==> a[i] in b
  }

  lemma {:induction false} MissingElems(a: seq<Fact>, b: seq<Fact>)
    ensures Elems(Missing(a, b)) == Elems(b) - Elems(a)
  {
    if b != [] {
      MissingElems(a, b[1..]);
      assert Elems(b) == {b[0]} + Elems(b[1..]);
      ElemsOfAppend(if b[0] in a then [] else [b[0]], Missing(a, b[1..]));
    }
  }

  /** Merging is set union, and it always keeps the old list as a prefix. */
  lemma MergeIsUnion(a: seq<Fact>, b: seq<Fact>)
    ensures Elems(MergeFactSets(a, b)) == Elems(a) + Elems(b)
    ensures a <= MergeFactSets(a, b)
  {
    MissingElems(a, b);
    ElemsOfAppend(a, Missing(a, b));
  }

  lemma {:induction false} MissingNoDup(a: seq<Fact>, b: seq<Fact>)
    requires NoDup(b)
    ensures NoDup(Missing(a, b))
  {
    if b != [] {
      MissingNoDup(a, b[1..]);
      MissingElems(a, b[1..]);
      assert forall i :: 0 <= i < |Missing(a, b[1..])| ==> Missing(a, b[1..])[i] in Elems(Missing(a, b[1..]));
      assert forall x :: x in Elems(b[1..]) ==> exists j :: 1 <= j < |b| && b[j] == x;
    }
  }

  lemma MergeNoDup(a: seq<Fact>, b: seq<Fact>)
    requires NoDup(a) && NoDup(b)
    ensures NoDup(MergeFactSets(a, b))
  {
    MissingNoDup(a, b);
    MissingElems(a, b);
    assert forall i :: 0 <= i < |Missing(a, b)| ==> Missing(a, b)[i] in Elems(Missing(a, b));
  }

  /** The test a cell makes after a merge is exact, repetitions or not: the merged value
      counts as equal to the old one precisely when nothing new arrived, that is when both
      are equal as sets. */
  lemma ChangeDetection(a: seq<Fact>, b: seq<Fact>)
    ensures FactSetsEqual(a, MergeFactSets(a, b)) <==> Elems(b) <= Elems(a)
    ensures FactSetsEqual(a, MergeFactSets(a, b)) <==> Elems(a) == Elems(MergeFactSets(a, b))
    ensures FactSetsEqual(a, MergeFactSets(a, b)) ==> MergeFactSets(a, b) == a
  {
    MissingElems(a, b);
    MergeIsUnion(a, b);
    if Missing(a, b) == [] {
      assert Elems(Missing(a, b)) == {};
      assert MergeFactSets(a, b) == a;
      assert forall i :: 0 <= i < |a| ==> a[i] in a;
      assert forall x :: x in Elems(b) && x !in Elems(a) ==> x in Elems(Missing(a, b));
    } else {
      assert Missing(a, b)[0] in Elems(Missing(a, b));
    }
  }

  /** On duplicate-free lists the test is set equality (pigeonhole). */
  lemma EqualIsSetEquality(a: seq<Fact>, b: seq<Fact>)
    requires NoDup(a) && NoDup(b)
    ensures FactSetsEqual(a, b) <==> Elems(a) == Elems(b)
  {
    NoDupCardinality(a);
    NoDupCardinality(b);
    if FactSetsEqual(a, b) {
      assert Elems(a) <= Elems(b);
      SubsetCardinality(Elems(a), Elems(b));
    }
    if Elems(a) == Elems(b) {
      assert forall i :: 0 <= i < |a| ==> a[i] in Elems(a);
    }
  }

  /** A list is compared correctly with every duplicate-free list exactly when it has no
      repetition itself. */
  lemma ComparedRightIff(a: seq<Fact>)
    ensures (forall b :: NoDup(b) ==> (FactSetsEqual(a, b) <==> Elems(a) == Elems(b))) <==> NoDup(a)
  {
    if NoDup(a) {
      forall b | NoDup(b) ensures FactSetsEqual(a, b) <==> Elems(a) == Elems(b) {
        EqualIsSetEquality(a, b);
      }
    } else {
      var b := Confused(a);
      assert NoDup(b) && FactSetsEqual(a, b) && Elems(a) != Elems(b);
    }
  }

  /** A list with a repetition counts as equal to a longer set: its own facts once each,
      filled up with new ones. */
  lemma Confused(a: seq<Fact>) returns (b: seq<Fact>)
    requires !NoDup(a)
    ensures NoDup(b) && FactSetsEqual(a, b) && Elems(a) != Elems(b)
  {
    var once := Once(a);
    b := once;
    while |b| < |a|
      invariant NoDup(b) && Elems(a) <= Elems(b) && |b| <= |a|
      invariant b == once || !(Elems(b) <= Elems(a))
    {
      var f := Longer(b);
      ElemsOfAppend(b, [f]);
      assert f in Elems(b + [f]) && f !in Elems(b);
      b := b + [f];
    }
    assert forall i :: 0 <= i < |a| ==> a[i] in Elems(a);
  }

  /** The elements of a list, each once; fewer than the list has entries if one repeats. */
  lemma {:induction false} Once(a: seq<Fact>) returns (b: seq<Fact>)
    ensures NoDup(b) && Elems(b) == Elems(a) && |b| <= |a| && (|b| == |a| ==> NoDup(a))
  {
    b := [];
    if a != [] {
      var init, last := a[..|a| - 1], a[|a| - 1];
      var c := Once(init);
      assert a == init + [last];
      ElemsOfAppend(init, [last]);
      ElemsOfAppend(c, [last]);
      assert last in Elems(c) <==> last in init;
      b := if last in c then c else c + [last];
      if |b| == |a| && last !in c {
        assert forall i :: 0 <= i < |init| ==> init[i] in Elems(c);
      }
    }
  }

  /** A fact longer than all facts of a list. */
  lemma {:induction false} Longer(a: seq<Fact>) returns (f: Fact)
    ensures f !in a && forall g :: g in a ==> |g| < |f|
  {
    f := [Bool(true)];
    if a != [] {
      var h := Longer(a[1..]);
      f := if |h| > |a[0]| then h else a[0] + [Bool(true)];
    }
  }

  /** With repetitions it is not, and it is not symmetric either. */
  lemma EqualWithRepetitions(x: Fact, y: Fact)
    requires x != y
    ensures FactSetsEqual([x, x], [x, y]) && !FactSetsEqual([x, y], [x, x])
    ensures Elems([x, x]) != Elems([x, y])
  {
    assert y in Elems([x, y]) && y !in Elems([x, x]);
    assert [x, y][1] !in [x, x];
  }
}
