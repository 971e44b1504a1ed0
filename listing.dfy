/** The order `list_tasks` shows tasks in: Python's stable `sorted` with
    the key `["High", "Medium", "Low"].index(priority)`. */
module Listing {
  import opened Validation
  import opened Tasks

  /** The sort key: the position of the priority in High, Medium, Low. */
  function Rank(p: Priority): nat {
    match p
    case High => 0
    case Medium => 1
    case Low => 2
  }

  predicate SortedByPriority(s: seq<Task>) {
    forall i, j :: 0 <= i < j < |s| ==> Rank(s[i].priority) <= Rank(s[j].priority)
  }

  /** The tasks of `s` with priority `p`, in order. */
  function WithPriority(s: seq<Task>, p: Priority): (r: seq<Task>)
    ensures |r| <= |s|
    decreases |s|
  {
    if s == [] then []
    else (if s[0].priority == p then [s[0]] else []) + WithPriority(s[1..], p)
  }

  /** Place `t` before the first task whose rank is not smaller than its
      own: ahead of its equals, which came later in the input. */
  function InsertByPriority(t: Task, s: seq<Task>): seq<Task>
    decreases |s|
  {
    if s == [] || Rank(t.priority) <= Rank(s[0].priority) then [t] + s
    else [s[0]] + InsertByPriority(t, s[1..])
  }

  lemma {:induction false} InsertMultiset(t: Task, s: seq<Task>)
    ensures multiset(InsertByPriority(t, s)) == multiset(s) + multiset{t}
    decreases |s|
  {
    if s != [] && Rank(t.priority) > Rank(s[0].priority) {
      InsertMultiset(t, s[1..]);
      assert s == [s[0]] + s[1..];
    }
  }

  lemma SortedTail(s: seq<Task>)
    requires s != [] && SortedByPriority(s)
    ensures SortedByPriority(s[1..])
    ensures forall i :: 0 <= i < |s| - 1 ==> Rank(s[0].priority) <= Rank(s[1..][i].priority)
  {
    var rest := s[1..];
    assert forall i :: 0 <= i < |rest| ==> rest[i] == s[i + 1];
  }

  /** Inserting keeps a lower bound on the ranks. */
  lemma {:induction false} InsertBounded(t: Task, s: seq<Task>, b: nat)
    requires b <= Rank(t.priority)
    requires forall i :: 0 <= i < |s| ==> b <= Rank(s[i].priority)
    ensures forall i :: 0 <= i < |InsertByPriority(t, s)| ==> b <= Rank(InsertByPriority(t, s)[i].priority)
    decreases |s|
  {
    if s != [] && Rank(t.priority) > Rank(s[0].priority) {
      var tail := s[1..];
      assert forall i :: 0 <= i < |tail| ==> tail[i] == s[i + 1];
      InsertBounded(t, tail, b);
      var rest := InsertByPriority(t, tail);
      var r := [s[0]] + rest;
      assert forall i :: 0 < i < |r| ==> r[i] == rest[i - 1];
    }
  }

  lemma {:induction false} InsertSorted(t: Task, s: seq<Task>)
    requires SortedByPriority(s)
    ensures SortedByPriority(InsertByPriority(t, s))
    decreases |s|
  {
    if s != [] && Rank(t.priority) > Rank(s[0].priority) {
      var tail := s[1..];
      SortedTail(s);
      InsertSorted(t, tail);
      InsertBounded(t, tail, Rank(s[0].priority));
      var rest := InsertByPriority(t, tail);
      var r := [s[0]] + rest;
      assert r == InsertByPriority(t, s);
      forall i, j | 0 <= i < j < |r| ensures Rank(r[i].priority) <= Rank(r[j].priority) {
        assert r[j] == rest[j - 1];
        if i > 0 {
          assert r[i] == rest[i - 1];
        }
      }
    } else {
      var r := [t] + s;
      forall i, j | 0 <= i < j < |r| ensures Rank(r[i].priority) <= Rank(r[j].priority) {
        assert r[j] == s[j - 1];
        if i > 0 {
          assert r[i] == s[i - 1];
        } else {
          assert Rank(s[0].priority) <= Rank(s[j - 1].priority);
        }
      }
    }
  }

  lemma {:induction false} InsertWithPriority(t: Task, s: seq<Task>, p: Priority)
    ensures WithPriority(InsertByPriority(t, s), p) == (if t.priority == p then [t] else []) + WithPriority(s, p)
    decreases |s|
  {
    if s == [] || Rank(t.priority) <= Rank(s[0].priority) {
      WithPriorityCons(t, s, p);
    } else {
      var x, tail := s[0], s[1..];
      var rest := InsertByPriority(t, tail);
      assert InsertByPriority(t, s) == [x] + rest;
      assert s == [x] + tail;
      InsertWithPriority(t, tail, p);
      InsertPastFirst(t, x, tail, rest, p);
    }
  }

  /** The step of `InsertWithPriority` where `t` goes past the first task,
      which has a different priority. */
  lemma InsertPastFirst(t: Task, x: Task, tail: seq<Task>, rest: seq<Task>, p: Priority)
    requires Rank(t.priority) > Rank(x.priority)
    requires WithPriority(rest, p) == (if t.priority == p then [t] else []) + WithPriority(tail, p)
    ensures WithPriority([x] + rest, p) == (if t.priority == p then [t] else []) + WithPriority([x] + tail, p)
  {
    WithPriorityCons(x, rest, p);
    WithPriorityCons(x, tail, p);
    var w := WithPriority(tail, p);
    if x.priority == p {
      assert [x] + ([] + w) == [] + ([x] + w);
    } else if t.priority == p {
      assert [] + ([t] + w) == [t] + ([] + w);
    } else {
      assert [] + ([] + w) == [] + ([] + w);
    }
  }

  /** The order `list_tasks` prints: a stable sort by priority rank. */
  function SortByPriority(ts: seq<Task>): (r: seq<Task>)
    ensures multiset(r) == multiset(ts)
    ensures SortedByPriority(r)
    ensures forall p :: WithPriority(r, p) == WithPriority(ts, p)
    decreases |ts|
  {
    if ts == [] then []
    else
      var rest := SortByPriority(ts[1..]);
      assert ts == [ts[0]] + ts[1..];
      InsertMultiset(ts[0], rest);
      InsertSorted(ts[0], rest);
      forall p ensures WithPriority(InsertByPriority(ts[0], rest), p) == WithPriority(ts, p) {
        InsertWithPriority(ts[0], rest, p);
      }
      InsertByPriority(ts[0], rest)
  }

  lemma WithPriorityCons(x: Task, rest: seq<Task>, p: Priority)
    ensures WithPriority([x] + rest, p) == (if x.priority == p then [x] else []) + WithPriority(rest, p)
  {
    assert ([x] + rest)[1..] == rest;
  }

  /** A task of a non-empty group is a task of the list. */
  lemma {:induction false} MemberOfGroup(s: seq<Task>, p: Priority) returns (i: nat)
    requires WithPriority(s, p) != []
    ensures i < |s| && s[i].priority == p
    decreases |s|
  {
    if s[0].priority == p {
      i := 0;
    } else {
      var j := MemberOfGroup(s[1..], p);
      i := j + 1;
    }
  }

  /** The group of the first task is not empty. */
  lemma FirstGroupNonEmpty(s: seq<Task>)
    requires s != []
    ensures WithPriority(s, s[0].priority) != []
  {
  }

  /** When two lists have the same groups and `b` is sorted, the first
      task of `b` ranks no lower than the first task of `a`. */
  lemma FirstRankBound(a: seq<Task>, b: seq<Task>)
    requires a != [] && SortedByPriority(b)
    requires forall p :: WithPriority(a, p) == WithPriority(b, p)
    ensures b != [] && Rank(b[0].priority) <= Rank(a[0].priority)
  {
    var q := a[0].priority;
    FirstGroupNonEmpty(a);
    assert WithPriority(b, q) != [];
    var i := MemberOfGroup(b, q);
    if i > 0 {
      assert Rank(b[0].priority) <= Rank(b[i].priority);
    }
  }

  /** Two sorted lists with the same tasks, in the same order, within
      each priority are equal. */
  lemma {:induction false} SortedUnique(a: seq<Task>, b: seq<Task>)
    requires SortedByPriority(a) && SortedByPriority(b)
    requires forall p :: WithPriority(a, p) == WithPriority(b, p)
    ensures a == b
    decreases |a|
  {
    if a != [] {
      FirstRankBound(a, b);
      FirstRankBound(b, a);
      var x, y := a[0], b[0];
      var a', b' := a[1..], b[1..];
      assert a == [x] + a' && b == [y] + b';
      assert x.priority == y.priority;
      forall p ensures WithPriority(a', p) == WithPriority(b', p) {
        WithPriorityCons(x, a', p);
        WithPriorityCons(y, b', p);
        if p == x.priority {
          assert ([x] + WithPriority(a', p))[1..] == WithPriority(a', p);
          assert ([y] + WithPriority(b', p))[1..] == WithPriority(b', p);
        } else {
          assert [] + WithPriority(a', p) == WithPriority(a', p);
          assert [] + WithPriority(b', p) == WithPriority(b', p);
        }
      }
      WithPriorityCons(x, a', x.priority);
      WithPriorityCons(y, b', x.priority);
      assert WithPriority(a, x.priority)[0] == x;
      SortedTail(a);
      SortedTail(b);
      SortedUnique(a', b');
    } else if b != [] {
      FirstGroupNonEmpty(b);
    }
  }

  /** A stable sort by priority is unique: any sorted list that keeps the
      input order within each priority is `SortByPriority`'s result, so
      the model's sort and Python's `sorted` agree. */
  lemma StableSortUnique(ts: seq<Task>, s: seq<Task>)
    requires SortedByPriority(s)
    requires forall p :: WithPriority(s, p) == WithPriority(ts, p)
    ensures s == SortByPriority(ts)
  {
    SortedUnique(s, SortByPriority(ts));
  }
}
