// Small value types and collection facts shared by every part of the model.
module Common {

  datatype Option<+T> = None | Some(value: T)

  /** The outcome of an operation that the program may abort by throwing. */
  datatype Outcome<+T> = Done(result: T) | Thrown

  /** The elements of a list, read as a set. */
  function Elems<T>(s: seq<T>): set<T> {
    set x | x in s
  }

  ghost predicate NoDup<T>(s: seq<T>) {
    forall i, j :: 0 <= i < j < |s| ==> s[i] != s[j]
  }

  lemma ElemsOfAppend<T>(a: seq<T>, b: seq<T>)
    ensures Elems(a + b) == Elems(a) + Elems(b)
  {
  }

  /** A list without repetitions is as long as its set of elements. */
  lemma {:induction false} NoDupCardinality<T>(s: seq<T>)
    requires NoDup(s)
    ensures |Elems(s)| == |s|
  {
    if s == [] {
      assert Elems(s) == {};
    } else {
      var init := s[..|s| - 1];
      NoDupCardinality(init);
      assert s == init + [s[|s| - 1]];
      assert Elems(s) == Elems(init) + {s[|s| - 1]};
    }
  }

  lemma SubsetCardinality<T>(a: set<T>, b: set<T>)
    requires a <= b
    ensures |a| <= |b|
    ensures |a| == |b| ==> a == b
  {
    assert b == a + (b - a);
    assert |b| == |a| + |b - a|;
  }

  // ---- Lexicographic order ----

  /** `a` is a prefix of `b`, or smaller where they first differ. */
  ghost predicate Precedes(a: seq<int>, b: seq<int>) {
    a <= b || exists n :: 0 <= n < |a| && n < |b| && a[..n] == b[..n] && a[n] < b[n]
  }

  lemma PrecedesFirst(a: seq<int>, b: seq<int>)
    ensures a == [] ==> Precedes(a, b)
    ensures a != [] && b == [] ==> !Precedes(a, b)
    ensures a != [] && b != [] ==> (Precedes(a, b) <==> a[0] < b[0] || (a[0] == b[0] && Precedes(a[1..], b[1..])))
  {
    if a != [] && b != [] {
      var a', b' := a[1..], b[1..];
      assert a == [a[0]] + a' && b == [b[0]] + b';
      if Precedes(a, b) && !(a <= b) {
        var n :| 0 <= n < |a| && n < |b| && a[..n] == b[..n] && a[n] < b[n];
        if n > 0 {
          assert a[0] == a[..n][0] == b[0] && a'[..n - 1] == a[..n][1..] && b'[..n - 1] == b[..n][1..];
          assert a'[n - 1] < b'[n - 1];
        }
      }
      if a[0] < b[0] { assert a[..0] == b[..0]; }
      if a[0] == b[0] && Precedes(a', b') && !(a' <= b') {
        var n :| 0 <= n < |a'| && n < |b'| && a'[..n] == b'[..n] && a'[n] < b'[n];
        assert a[..n + 1] == [a[0]] + a'[..n] && b[..n + 1] == [b[0]] + b'[..n];
        assert a[n + 1] < b[n + 1];
      }
    }
  }

  /** A list of the elements of a set. */
  lemma {:induction false} Listed<T>(s: set<T>) returns (xs: seq<T>)
    ensures NoDup(xs) && Elems(xs) == s
  {
    xs := [];
    if s != {} {
      var x :| x in s;
      var rest := Listed(s - {x});
      xs := [x] + rest;
      assert x !in Elems(rest);
      ElemsOfAppend([x], rest);
      assert Elems([x]) == {x};
      assert forall i :: 0 <= i < |rest| ==> rest[i] in Elems(rest);
    }
  }
}
