/** Facts about finite sequences that several components share: duplicate-freeness, arbitrary
    enumerations of sets (Python leaves their order open), the pigeonhole principle, and the
    stable sort behind Python's `sorted`. */
module Sequences {
  ghost predicate Distinct<T(!new)>(s: seq<T>) {
    forall i, j :: 0 <= i < j < |s| ==> s[i] != s[j]
  }

  function Elements<T>(s: seq<T>): set<T> {
    set x | x in s
  }

  lemma SplitLast<T>(s: seq<T>)
    requires s != []
    ensures s == s[..|s| - 1] + [s[|s| - 1]]
  {
  }

  lemma WholePrefix<T>(s: seq<T>)
    ensures s[..|s|] == s
  {
  }

  lemma ElementsAppend<T>(s: seq<T>, x: T)
    ensures Elements(s + [x]) == Elements(s) + {x}
  {
    assert forall y :: y in s + [x] <==> y in s || y == x;
  }

  lemma SameElements<T>(a: seq<T>, b: seq<T>)
    requires forall x :: x in a <==> x in b
    ensures Elements(a) == Elements(b)
  {
  }

  lemma {:induction false} DistinctSize<T(!new)>(s: seq<T>)
    requires Distinct(s)
    ensures |Elements(s)| == |s|
  {
    if s == [] {
      assert Elements(s) == {};
    } else {
      var init, last := s[..|s| - 1], s[|s| - 1];
      DistinctSize(init);
      assert Elements(s) == Elements(init) + {last};
    }
  }

  lemma DistinctSplit<T(!new)>(a: seq<T>, b: seq<T>)
    requires Distinct(a + b)
    ensures Distinct(a) && Distinct(b) && forall x :: x in b ==> x !in a
  {
    forall i, j | 0 <= i < j < |a| ensures a[i] != a[j] {
      assert (a + b)[i] != (a + b)[j];
    }
    forall i, j | 0 <= i < j < |b| ensures b[i] != b[j] {
      assert (a + b)[|a| + i] != (a + b)[|a| + j];
    }
    forall i, j | 0 <= i < |a| && 0 <= j < |b| ensures a[i] != b[j] {
      assert (a + b)[i] != (a + b)[|a| + j];
    }
  }

  lemma DistinctFront<T(!new)>(a: seq<T>, b: seq<T>, c: seq<T>)
    requires Distinct(a + (b + c))
    ensures Distinct(a + b)
  {
    assert a + (b + c) == (a + b) + c;
    DistinctSplit(a + b, c);
  }

  lemma {:induction false} SubsetSize<T>(a: set<T>, b: set<T>)
    requires a <= b
    ensures |a| <= |b|
  {
    if a != {} {
      var x :| x in a;
      SubsetSize(a - {x}, b - {x});
    }
  }

  /** More positions than values: some value occurs twice. */
  lemma Pigeonhole<T(!new)>(s: seq<T>, values: set<T>)
    requires forall i :: 0 <= i < |s| ==> s[i] in values
    requires |s| > |values|
    ensures !Distinct(s)
  {
    if Distinct(s) {
      DistinctSize(s);
      SubsetSize(Elements(s), values);
    }
  }

  /** The elements of a set in some order. */
  method Enumerate<T(!new, ==)>(values: set<T>) returns (s: seq<T>)
    ensures Distinct(s) && Elements(s) == values
  {
    s := [];
    var rest := values;
    while rest != {}
      invariant rest <= values && Distinct(s) && Elements(s) == values - rest
      decreases rest
    {
      var x :| x in rest;
      assert x !in s by { assert x !in Elements(s); }
      ElementsAppend(s, x);
      s, rest := s + [x], rest - {x};
    }
  }

  // ----- stable sort ---------------------------------------------------------------------------

  function InsertBy<T>(x: T, s: seq<T>, key: T -> real): seq<T> {
    if s == [] || key(x) <= key(s[0]) then [x] + s else [s[0]] + InsertBy(x, s[1..], key)
  }

  /** Python's `sorted(s, key=key)`: ascending, and elements with equal keys keep their order. */
  function SortBy<T>(s: seq<T>, key: T -> real): seq<T> {
    if s == [] then [] else InsertBy(s[0], SortBy(s[1..], key), key)
  }

  ghost predicate OrderedBy<T>(s: seq<T>, key: T -> real) {
    forall i, j :: 0 <= i < j < |s| ==> key(s[i]) <= key(s[j])
  }

  lemma {:induction false} InsertByMembers<T>(x: T, s: seq<T>, key: T -> real)
    ensures multiset(InsertBy(x, s, key)) == multiset{x} + multiset(s)
  {
    if s == [] || key(x) <= key(s[0]) {
    } else {
      InsertByMembers(x, s[1..], key);
      assert s == [s[0]] + s[1..];
    }
  }

  lemma {:induction false} InsertByElement<T>(x: T, s: seq<T>, key: T -> real, j: nat)
    requires j < |InsertBy(x, s, key)|
    ensures InsertBy(x, s, key)[j] == x || InsertBy(x, s, key)[j] in s
  {
    if s != [] && key(x) > key(s[0]) && j > 0 {
      InsertByElement(x, s[1..], key, j - 1);
    }
  }

  lemma {:induction false} InsertByOrdered<T>(x: T, s: seq<T>, key: T -> real)
    requires OrderedBy(s, key)
    ensures OrderedBy(InsertBy(x, s, key), key)
  {
    if s != [] && key(x) > key(s[0]) {
      var tail := InsertBy(x, s[1..], key);
      InsertByOrdered(x, s[1..], key);
      forall j | 0 <= j < |tail| ensures key(s[0]) <= key(tail[j]) {
        InsertByElement(x, s[1..], key, j);
      }
    }
  }

  lemma {:induction false} InsertByLength<T>(x: T, s: seq<T>, key: T -> real)
    ensures |InsertBy(x, s, key)| == |s| + 1
  {
    if s != [] && key(x) > key(s[0]) { InsertByLength(x, s[1..], key); }
  }

  lemma {:induction false} SortByMembers<T>(s: seq<T>, key: T -> real)
    ensures multiset(SortBy(s, key)) == multiset(s)
  {
    if s != [] {
      SortByMembers(s[1..], key);
      InsertByMembers(s[0], SortBy(s[1..], key), key);
      assert s == [s[0]] + s[1..];
    }
  }

  lemma {:induction false} SortByCorrect<T>(s: seq<T>, key: T -> real)
    ensures OrderedBy(SortBy(s, key), key)
    ensures multiset(SortBy(s, key)) == multiset(s)
    ensures |SortBy(s, key)| == |s|
  {
    SortByMembers(s, key);
    if s != [] {
      SortByCorrect(s[1..], key);
      InsertByOrdered(s[0], SortBy(s[1..], key), key);
      InsertByLength(s[0], SortBy(s[1..], key), key);
    }
  }

  /** The elements with a given key, in order. */
  function WithKey<T>(s: seq<T>, key: T -> real, v: real): seq<T> {
    if s == [] then [] else (if key(s[0]) == v then [s[0]] else []) + WithKey(s[1..], key, v)
  }

  lemma WithKeyFirst<T>(x: T, s: seq<T>, key: T -> real, v: real)
    ensures WithKey([x] + s, key, v) == if key(x) == v then [x] + WithKey(s, key, v) else WithKey(s, key, v)
  {
    assert ([x] + s)[1..] == s;
  }

  lemma {:induction false} InsertByStable<T>(x: T, s: seq<T>, key: T -> real, v: real)
    ensures WithKey(InsertBy(x, s, key), key, v) == WithKey([x] + s, key, v)
  {
    WithKeyFirst(x, s, key, v);
    if s != [] && key(x) > key(s[0]) {
      InsertByStable(x, s[1..], key, v);
      WithKeyFirst(x, s[1..], key, v);
      WithKeyFirst(s[0], s[1..], key, v);
      WithKeyFirst(s[0], InsertBy(x, s[1..], key), key, v);
      assert s == [s[0]] + s[1..];
    }
  }

  /** The sort is stable: elements with equal keys keep their order. */
  lemma {:induction false} SortByStable<T>(s: seq<T>, key: T -> real, v: real)
    ensures WithKey(SortBy(s, key), key, v) == WithKey(s, key, v)
  {
    if s != [] {
      SortByStable(s[1..], key, v);
      InsertByStable(s[0], SortBy(s[1..], key), key, v);
      WithKeyFirst(s[0], s[1..], key, v);
      WithKeyFirst(s[0], SortBy(s[1..], key), key, v);
      assert s == [s[0]] + s[1..];
    }
  }

  lemma DropKeepsElements<T>(b: seq<T>, i: nat, j: nat)
    requires i < j < |b| && b[i] == b[j]
    ensures Elements(b[..i] + b[i + 1..]) == Elements(b)
  {
    var shorter := b[..i] + b[i + 1..];
    assert shorter[j - 1] == b[i];
    forall x | x in b
      ensures x in shorter
    {
      var k :| 0 <= k < |b| && b[k] == x;
      if k < i { assert shorter[k] == x; } else if k > i { assert shorter[k - 1] == x; }
    }
  }

  lemma {:induction false} ElementsBound<T>(s: seq<T>)
    ensures |Elements(s)| <= |s|
  {
    if s == [] {
      assert Elements(s) == {};
    } else {
      ElementsBound(s[..|s| - 1]);
      assert Elements(s) == Elements(s[..|s| - 1]) + {s[|s| - 1]};
    }
  }

  lemma PermutationElements<T(!new)>(a: seq<T>, b: seq<T>)
    requires multiset(a) == multiset(b)
    ensures Elements(a) == Elements(b)
    ensures Distinct(a) ==> Distinct(b)
  {
    assert forall x :: x in a <==> x in multiset(a);
    assert forall x :: x in b <==> x in multiset(b);
    if Distinct(a) && !Distinct(b) {
      var i, j :| 0 <= i < j < |b| && b[i] == b[j];
      assert |b| == |multiset(b)| == |multiset(a)| == |a|;
      DistinctSize(a);
      DropKeepsElements(b, i, j);
      var shorter := b[..i] + b[i + 1..];
      ElementsBound(shorter);
    }
  }
}
