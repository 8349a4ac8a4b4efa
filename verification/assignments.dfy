/** The cyclic assignment generator (generate_assignments in murder.py).
    The names are put in a seeded pseudo-random order, and every name in that
    order is assigned the name that follows it, the last one wrapping round to
    the first. */
module Assignments {

  /** No name occurs twice. */
  predicate Distinct(s: seq<string>)
  {
    forall i, j :: 0 <= i < j < |s| ==> s[i] != s[j]
  }

  /** The set of names in a list. */
  function NameSet(s: seq<string>): set<string>
  {
    set x | x in s
  }

  /** The name after position i of the order, wrapping round to the start. */
  function Successor(order: seq<string>, i: int): string
    requires 0 <= i < |order|
  {
    if i + 1 < |order| then order[i + 1] else order[0]
  }

  /** No position after i and before end holds the same name as position i. */
  predicate LastBefore(order: seq<string>, i: int, end: int)
    requires 0 <= i < end <= |order|
  {
    forall j :: i < j < end ==> order[j] != order[i]
  }

  /** Position i holds the last occurrence of its name. */
  predicate LastOccurrence(order: seq<string>, i: int)
    requires 0 <= i < |order|
  {
    LastBefore(order, i, |order|)
  }

  /** The dictionary the generator's loop leaves behind for any order, duplicates
      included: every name of the order is a key, and a name is linked to the
      successor of its LAST occurrence, since a later write to a key replaces an
      earlier one. */
  ghost predicate LinksOf(m: map<string, string>, order: seq<string>)
  {
    && m.Keys == NameSet(order)
    && forall i :: 0 <= i < |order| && LastOccurrence(order, i) ==> LinkedAt(m, order, i)
  }

  /** The assignment read off an order of distinct names: each name is linked
      to the one after it, and the last to the first. */
  ghost predicate CycleOf(m: map<string, string>, order: seq<string>)
  {
    && m.Keys == NameSet(order)
    && forall i :: 0 <= i < |order| ==> LinkedAt(m, order, i)
  }

  /** The name at position i is assigned the name after it. */
  ghost predicate LinkedAt(m: map<string, string>, order: seq<string>, i: int)
    requires 0 <= i < |order|
  {
    order[i] in m && m[order[i]] == Successor(order, i)
  }

  /** The name reached from x by following targets k times. */
  function Follow(m: map<string, string>, x: string, k: nat): string
    decreases k
  {
    if k == 0 then x
    else if x in m then Follow(m, m[x], k - 1)
    else x
  }

  /** generate_assignments(names, seed). `shuffle(seed, names)` stands for
      seeding the random generator with `seed` and shuffling a copy of `names`
      in place; the random generator is not modelled, only that the shuffle
      returns a rearrangement of its input. The list `names` is a value, so the
      caller's list is left as it was. */
  method GenerateAssignments(names: seq<string>, seed: string, shuffle: (string, seq<string>) -> seq<string>)
    returns (assignments: map<string, string>)
    requires multiset(shuffle(seed, names)) == multiset(names)
    ensures assignments.Keys == NameSet(names)
    ensures forall x :: x in assignments ==> assignments[x] in names
    ensures LinksOf(assignments, shuffle(seed, names))
    ensures Distinct(names) ==> CycleOf(assignments, shuffle(seed, names))
  {
    var shuffled := shuffle(seed, names);
    assignments := map[];
    for i := 0 to |shuffled|
      invariant LinkedUpTo(assignments, shuffled, i)
    {
      LinkStep(assignments, shuffled, i);
      assignments := assignments[shuffled[i] := shuffled[(i + 1) % |shuffled|]];
    }
    LoopResult(assignments, names, shuffled);
  }

  /** What the loop has built after its first `end` rounds. */
  ghost predicate LinkedUpTo(m: map<string, string>, order: seq<string>, end: int)
    requires 0 <= end <= |order|
  {
    && m.Keys == NameSet(order[..end])
    && (forall x :: x in m ==> m[x] in order)
    && forall j :: 0 <= j < end && LastBefore(order, j, end) ==> m[order[j]] == Successor(order, j)
  }

  /** One round of the loop: linking order[i] to the next name extends the
      prefix by one position. */
  lemma LinkStep(m: map<string, string>, order: seq<string>, i: int)
    requires 0 <= i < |order| && LinkedUpTo(m, order, i)
    ensures LinkedUpTo(m[order[i] := order[(i + 1) % |order|]], order, i + 1)
  {
    assert order[..i + 1] == order[..i] + [order[i]];
    NextIndex(i, |order|);
  }

  /** After the last round the prefix is the whole order, which holds the same
      names as the input. */
  lemma LoopResult(m: map<string, string>, names: seq<string>, order: seq<string>)
    requires multiset(order) == multiset(names) && LinkedUpTo(m, order, |order|)
    ensures m.Keys == NameSet(names)
    ensures forall x :: x in m ==> m[x] in names
    ensures LinksOf(m, order)
    ensures Distinct(names) ==> CycleOf(m, order)
  {
    assert order[..|order|] == order;
    SameNames(order, names);
    if Distinct(names) {
      PermutationKeepsDistinct(names, order);
    }
  }

  /** Two rearrangements of one another hold the same names. */
  lemma SameNames(a: seq<string>, b: seq<string>)
    requires multiset(a) == multiset(b)
    ensures NameSet(a) == NameSet(b)
    ensures forall x :: x in a <==> x in b
  {
    forall x
      ensures x in a <==> x in b
    {
      assert x in a <==> x in multiset(a);
      assert x in b <==> x in multiset(b);
    }
  }

  /** A name that occurs at two positions occurs at least twice in the multiset. */
  lemma {:induction false} RepeatedCount(s: seq<string>, i: int, j: int)
    requires 0 <= i < j < |s| && s[i] == s[j]
    ensures multiset(s)[s[i]] >= 2
  {
    assert s == s[..j] + s[j..];
    assert s[i] in s[..j];
    assert s[j] == s[j..][0];
  }

  /** In a list of distinct names every name occurs at most once. */
  lemma {:induction false} DistinctCount(s: seq<string>, x: string)
    requires Distinct(s)
    ensures multiset(s)[x] <= 1
  {
    if s != [] {
      assert s == [s[0]] + s[1..];
      DistinctCount(s[1..], x);
      assert s[0] !in s[1..];
    }
  }

  /** A rearrangement of distinct names is again distinct. */
  lemma PermutationKeepsDistinct(a: seq<string>, b: seq<string>)
    requires multiset(a) == multiset(b) && Distinct(a)
    ensures Distinct(b)
  {
    forall i, j | 0 <= i < j < |b|
      ensures b[i] != b[j]
    {
      if b[i] == b[j] {
        RepeatedCount(b, i, j);
        DistinctCount(a, b[i]);
        assert false;
      }
    }
  }

  /** Every name of an order has a last occurrence. */
  lemma {:induction false} LastOccurrenceExists(order: seq<string>, x: string) returns (i: int)
    requires x in order
    ensures 0 <= i < |order| && order[i] == x && LastOccurrence(order, i)
  {
    var n := |order|;
    if order[n - 1] == x {
      i := n - 1;
    } else {
      i := LastOccurrenceExists(order[..n - 1], x);
    }
  }

  /** The generated dictionary is determined by the shuffled order alone, so the
      same names and the same seed give the same assignments. */
  lemma AssignmentsDeterminedByOrder(m1: map<string, string>, m2: map<string, string>, order: seq<string>)
    requires LinksOf(m1, order) && LinksOf(m2, order)
    ensures m1 == m2
  {
    forall x | x in m1
      ensures m1[x] == m2[x]
    {
      var i := LastOccurrenceExists(order, x);
    }
  }

  /** For distinct names the two readings of the loop agree. */
  lemma LinksOfDistinct(m: map<string, string>, order: seq<string>)
    requires Distinct(order)
    ensures LinksOf(m, order) <==> CycleOf(m, order)
  {
  }

  /** Stepping one place along the order, as an index computation. */
  lemma NextIndex(i: int, n: int)
    requires 0 <= i < n
    ensures (i + 1) % n == if i + 1 < n then i + 1 else 0
  {
  }

  /** Nobody is assigned to themselves once there are two or more names. */
  lemma NoSelfAssignment(m: map<string, string>, order: seq<string>)
    requires Distinct(order) && CycleOf(m, order) && |order| >= 2
    ensures forall x :: x in m ==> m[x] != x
  {
    forall x | x in m
      ensures m[x] != x
    {
      var i :| 0 <= i < |order| && order[i] == x;
      assert LinkedAt(m, order, i);
    }
  }

  /** Two different names never share a target. */
  lemma TargetsInjective(m: map<string, string>, order: seq<string>)
    requires Distinct(order) && CycleOf(m, order)
    ensures forall x, y :: x in m && y in m && x != y ==> m[x] != m[y]
  {
    forall x, y | x in m && y in m && x != y
      ensures m[x] != m[y]
    {
      var i :| 0 <= i < |order| && order[i] == x;
      var j :| 0 <= j < |order| && order[j] == y;
      assert LinkedAt(m, order, i) && LinkedAt(m, order, j);
    }
  }

  /** The targets are exactly the names: every target is a name of the order,
      and every name of the order is somebody's target. */
  lemma TargetsAreAllNames(m: map<string, string>, order: seq<string>)
    requires CycleOf(m, order)
    ensures forall x :: x in m ==> m[x] in order
    ensures forall y :: y in order ==> exists x :: x in m && m[x] == y
  {
    var n := |order|;
    forall x | x in m
      ensures m[x] in order
    {
      var i :| 0 <= i < n && order[i] == x;
      assert LinkedAt(m, order, i);
    }
    forall y | y in order
      ensures exists x :: x in m && m[x] == y
    {
      var j :| 0 <= j < n && order[j] == y;
      var i := if j == 0 then n - 1 else j - 1;
      assert LinkedAt(m, order, i);
    }
  }

  /** The target of one participant, in a list of two or more distinct names
      shuffled into `order`, is another participant of the list. */
  lemma TargetIsAnotherName(m: map<string, string>, order: seq<string>, names: seq<string>, x: string)
    requires multiset(order) == multiset(names) && Distinct(order) && |order| >= 2
    requires CycleOf(m, order) && x in m
    ensures m[x] != x && m[x] in names
  {
    NoSelfAssignment(m, order);
    TargetsAreAllNames(m, order);
    SameNames(order, names);
  }

  /** Euclidean division leaves one remainder only. */
  lemma ModUnique(x: int, q: int, r: int, n: int)
    requires n > 0 && 0 <= r < n && x == q * n + r
    ensures x % n == r
  {
    var q', r' := x / n, x % n;
    assert (q - q') * n == r' - r;
    // the quotients cannot differ, for then |r' - r| would reach n
    if q - q' >= 1 {
    } else if q - q' <= -1 {
    }
  }

  /** Adding the length to a natural number leaves its remainder alone. */
  lemma AddModulus(a: nat, n: nat)
    requires n > 0
    ensures (a + n) % n == a % n
  {
    ModUnique(a + n, a / n + 1, a % n, n);
  }

  /** One step along the order followed by k - 1 more is k steps. */
  lemma StepIndex(i: int, k: nat, n: int)
    requires 0 <= i < n && k >= 1
    ensures ((if i + 1 < n then i + 1 else 0) + (k - 1)) % n == (i + k) % n
  {
    if i + 1 == n {
      AddModulus(k - 1, n);
    }
  }

  /** Following targets k times from position i lands on position (i + k) mod n. */
  lemma {:induction false} FollowAlongCycle(m: map<string, string>, order: seq<string>, i: int, k: nat)
    requires CycleOf(m, order) && 0 <= i < |order|
    ensures Follow(m, order[i], k) == order[(i + k) % |order|]
    decreases k
  {
    var n := |order|;
    if k == 0 {
      ModUnique(i, 0, i, n);
    } else {
      var j := if i + 1 < n then i + 1 else 0;
      assert LinkedAt(m, order, i);
      calc {
        Follow(m, order[i], k);
        Follow(m, order[j], k - 1);
        { FollowAlongCycle(m, order, j, k - 1); }
        order[(j + (k - 1)) % n];
        { StepIndex(i, k, n); }
        order[(i + k) % n];
      }
    }
  }

  /** Starting on position i and moving k places comes back to i exactly when
      k is a multiple of n. */
  lemma {:induction false} ReturnIndex(i: int, k: nat, n: int)
    requires 0 <= i < n
    ensures (i + k) % n == i <==> k % n == 0
    decreases k
  {
    if k >= n {
      AddModulus(i + k - n, n);
      AddModulus(k - n, n);
      ReturnIndex(i, k - n, n);
    }
  }

  /** The assignment is one single cycle through every name: following targets
      from any name returns to it after k steps exactly when k is a multiple of
      the number of names. */
  lemma SingleCycle(m: map<string, string>, order: seq<string>, x: string, k: nat)
    requires Distinct(order) && CycleOf(m, order) && x in m
    ensures Follow(m, x, k) == x <==> k % |order| == 0
  {
    var i :| 0 <= i < |order| && order[i] == x;
    FollowAlongCycle(m, order, i, k);
    ReturnIndex(i, k, |order|);
  }

  /** The shuffle matters: with three or more names, exchanging the first two
      places of the order is another rearrangement of the same names and gives
      a different assignment. */
  lemma OrderMatters(m1: map<string, string>, m2: map<string, string>, order: seq<string>)
    requires Distinct(order) && |order| >= 3
    requires CycleOf(m1, order)
    requires CycleOf(m2, [order[1], order[0]] + order[2..])
    ensures multiset([order[1], order[0]] + order[2..]) == multiset(order)
    ensures m1 != m2
  {
    var swapped := [order[1], order[0]] + order[2..];
    assert order == [order[0], order[1]] + order[2..];
    assert LinkedAt(m2, swapped, 0);
    assert m2[order[1]] == order[0];
    assert LinkedAt(m1, order, 1);
    assert m1[order[1]] == order[2];
    assert order[2] != order[0];
  }
}
