/** The order-preserving filters behind every projection of the task list:
    the active/completed split, the priority buckets, the overdue list,
    deletion by id and the view's re-filtering. */
module Selection {
  import opened Models

  /** Which tasks a filter keeps. */
  datatype Criterion =
    | IsActive
    | IsCompleted
    | HasPriority(level: int)
    | OverdueAt(now: Time)
    | IdOtherThan(id: nat)

  predicate Holds(c: Criterion, t: Task) {
    match c
    case IsActive => !t.completed
    case IsCompleted => t.completed
    case HasPriority(k) => t.priority == k
    // a due date strictly before `now`, on a task not yet completed
    case OverdueAt(now) => t.dueDate.Some? && t.dueDate.value < now && !t.completed
    case IdOtherThan(id) => t.id != id
  }

  /** The in-order subsequence of `s` whose elements satisfy `c`. */
  function Filter(s: seq<Task>, c: Criterion): (r: seq<Task>)
    ensures |r| <= |s|
    ensures forall t :: t in r <==> t in s && Holds(c, t)
  {
    if s == [] then []
    else if Holds(c, s[0]) then [s[0]] + Filter(s[1..], c)
    else Filter(s[1..], c)
  }

  /** `a` can be obtained from `b` by deleting elements (order kept). */
  predicate SubsequenceOf(a: seq<Task>, b: seq<Task>)
    decreases |b|
  {
    if a == [] then true
    else if b == [] then false
    else if a[0] == b[0] then SubsequenceOf(a[1..], b[1..])
    else SubsequenceOf(a, b[1..])
  }

  /** Stability: a filter keeps the relative order of what it keeps. */
  lemma {:induction false} FilterIsSubsequence(s: seq<Task>, c: Criterion)
    ensures SubsequenceOf(Filter(s, c), s)
  {
    if s != [] {
      FilterIsSubsequence(s[1..], c);
      var rest := Filter(s[1..], c);
      if !Holds(c, s[0]) && rest != [] {
        assert rest[0] in rest;
      }
    }
  }

  /** Nothing is lost or duplicated: a filter keeps every copy of a task that
      satisfies the criterion and no copy of any other task. */
  lemma {:induction false} FilterCount(s: seq<Task>, c: Criterion, t: Task)
    ensures multiset(Filter(s, c))[t] == if Holds(c, t) then multiset(s)[t] else 0
  {
    if s != [] {
      FilterCount(s[1..], c, t);
      assert s == [s[0]] + s[1..];
      assert multiset(s) == multiset{s[0]} + multiset(s[1..]);
      if Holds(c, s[0]) {
        var rest := Filter(s[1..], c);
        assert multiset([s[0]] + rest) == multiset{s[0]} + multiset(rest);
      }
    }
  }

  /** Filtering distributes over concatenation. */
  lemma {:induction false} FilterAppend(a: seq<Task>, b: seq<Task>, c: Criterion)
    ensures Filter(a + b, c) == Filter(a, c) + Filter(b, c)
  {
    if a == [] {
      assert a + b == b;
    } else {
      assert (a + b)[1..] == a[1..] + b;
      FilterAppend(a[1..], b, c);
    }
  }

  /** Appending one task extends a filter by that task exactly when it meets
      the criterion. */
  lemma FilterSnoc(s: seq<Task>, t: Task, c: Criterion)
    ensures Filter(s + [t], c) == if Holds(c, t) then Filter(s, c) + [t] else Filter(s, c)
  {
    FilterAppend(s, [t], c);
    assert Filter([t], c) == if Holds(c, t) then [t] else [];
  }

  /** A filter leaves a sequence alone when every element passes it. */
  lemma {:induction false} FilterKeepsAll(s: seq<Task>, c: Criterion)
    requires forall i :: 0 <= i < |s| ==> Holds(c, s[i])
    ensures Filter(s, c) == s
  {
    if s != [] {
      FilterKeepsAll(s[1..], c);
    }
  }

  /** A filter empties a sequence when no element passes it. */
  lemma {:induction false} FilterDropsAll(s: seq<Task>, c: Criterion)
    requires forall i :: 0 <= i < |s| ==> !Holds(c, s[i])
    ensures Filter(s, c) == []
  {
    if s != [] {
      FilterDropsAll(s[1..], c);
    }
  }

  /** The active and the completed filters split a sequence: together they
      hold every task exactly as often as the sequence does. */
  lemma StatusPartition(s: seq<Task>)
    ensures multiset(Filter(s, IsActive)) + multiset(Filter(s, IsCompleted)) == multiset(s)
    ensures |Filter(s, IsActive)| + |Filter(s, IsCompleted)| == |s|
  {
    forall t
      ensures (multiset(Filter(s, IsActive)) + multiset(Filter(s, IsCompleted)))[t] == multiset(s)[t]
    {
      FilterCount(s, IsActive, t);
      FilterCount(s, IsCompleted, t);
    }
    assert multiset(Filter(s, IsActive)) + multiset(Filter(s, IsCompleted)) == multiset(s);
    calc {
      |Filter(s, IsActive)| + |Filter(s, IsCompleted)|;
      |multiset(Filter(s, IsActive)) + multiset(Filter(s, IsCompleted))|;
      |multiset(s)|;
    }
  }

  /** Filtering a sequence of rows with distinct ids leaves distinct ids. */
  lemma {:induction false} FilterKeepsDistinct(s: seq<Task>, c: Criterion)
    requires DistinctIds(s)
    ensures DistinctIds(Filter(s, c))
  {
    if s != [] {
      FilterKeepsDistinct(s[1..], c);
      if Holds(c, s[0]) {
        var rest := Filter(s[1..], c);
        forall j | 0 <= j < |rest|
          ensures rest[j].id != s[0].id
        {
          assert rest[j] in s[1..];
          var k :| 0 <= k < |s[1..]| && s[1..][k] == rest[j];
          assert s[k + 1] == rest[j];
        }
      }
    }
  }
}
