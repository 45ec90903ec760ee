/** First sightings and repetitions in a sequence: the bookkeeping shared by the session tracker, its
    dashboard counters and the reuse-event chart. */
module FirstSeen {
  import opened Sequences

  /** The distinct values in order of first occurrence. */
  function Dedup<T(==)>(s: seq<T>): seq<T> {
    if s == [] then []
    else
      var d := Dedup(s[..|s| - 1]);
      if s[|s| - 1] in d then d else d + [s[|s| - 1]]
  }

  /** The number of positions whose value occurred before. */
  function Repeats<T(==)>(s: seq<T>): nat {
    if s == [] then 0
    else Repeats(s[..|s| - 1]) + if s[|s| - 1] in s[..|s| - 1] then 1 else 0
  }

  lemma {:induction false} DedupMembers<T(!new)>(s: seq<T>)
    ensures Distinct(Dedup(s)) && Elements(Dedup(s)) == Elements(s)
    ensures forall x :: x in Dedup(s) <==> x in s
  {
    if s != [] {
      var init, x := s[..|s| - 1], s[|s| - 1];
      DedupMembers(init);
      assert s == init + [x];
      assert forall y :: y in s <==> y in init || y == x;
    }
  }

  /** Every position is either a first sighting or a repetition. */
  lemma {:induction false} DedupPlusRepeats<T(!new)>(s: seq<T>)
    ensures |Dedup(s)| + Repeats(s) == |s|
  {
    if s != [] {
      DedupMembers(s[..|s| - 1]);
      DedupPlusRepeats(s[..|s| - 1]);
    }
  }

  lemma AppendOne<T(!new)>(s: seq<T>, x: T)
    ensures Dedup(s + [x]) == if x in s then Dedup(s) else Dedup(s) + [x]
    ensures Repeats(s + [x]) == Repeats(s) + if x in s then 1 else 0
  {
    assert (s + [x])[..|s|] == s;
    DedupMembers(s);
  }

  /** Position `i` is the first sighting of `x`. */
  ghost predicate FirstAt<T(!new)>(s: seq<T>, i: nat, x: T) {
    i < |s| && s[i] == x && x !in s[..i]
  }

  lemma FirstAtPrefix<T(!new)>(s: seq<T>, i: nat, x: T)
    requires FirstAt(s, i, x) && x in s[..|s| - 1]
    ensures FirstAt(s[..|s| - 1], i, x)
  {
    var init := s[..|s| - 1];
    var k :| 0 <= k < |init| && init[k] == x;
    assert forall m :: 0 <= m < i ==> s[..i][m] == s[m];
    assert init[..i] == s[..i];
  }

  /** The distinct values are listed in the order of their first sightings. */
  lemma {:induction false} DedupInOrder<T(!new)>(s: seq<T>, a: nat, b: nat, i: nat, j: nat)
    requires a < b < |Dedup(s)| && FirstAt(s, i, Dedup(s)[a]) && FirstAt(s, j, Dedup(s)[b])
    ensures i < j
  {
    var init, x := s[..|s| - 1], s[|s| - 1];
    DedupMembers(init);
    assert s == init + [x];
    if b < |Dedup(init)| {
      FirstAtPrefix(s, i, Dedup(init)[a]);
      FirstAtPrefix(s, j, Dedup(init)[b]);
      DedupInOrder(init, a, b, i, j);
    } else {
      FirstAtPrefix(s, i, Dedup(init)[a]);
      assert forall m :: 0 <= m < |init| ==> s[m] == init[m];
    }
  }
}
