/** Task records and the list operations the handlers are built from: lookup
    by id (Array.prototype.find / findIndex), removal by id
    (Array.prototype.filter) and the newest-first re-sort
    (Array.prototype.sort, which is stable). */
module Tasks {

  datatype Option<T> = None | Some(value: T)

  /** One entry of the list. createdAt is the creation or last-edit time as a
      millisecond timestamp (the stored ISO-8601 string, as Date compares it). */
  datatype Task = Task(id: string, text: string, createdAt: int)

  /** The ids of s, in list order. */
  function Ids(s: seq<Task>): (r: seq<string>)
    ensures |r| == |s|
  {
    if s == [] then [] else [s[0].id] + Ids(s[1..])
  }

  lemma IdsCons(x: Task, s: seq<Task>)
    ensures Ids([x] + s) == [x.id] + Ids(s)
  {
    assert ([x] + s)[1..] == s;
  }

  /** No id occurs twice in s. */
  ghost predicate UniqueIds(s: seq<Task>) {
    forall id :: multiset(Ids(s))[id] <= 1
  }

  /** The list is sorted most recent first: no task is older than the one
      after it. */
  predicate NewestFirst(s: seq<Task>) {
    forall i | 0 <= i < |s| - 1 :: s[i].createdAt >= s[i + 1].createdAt
  }

  /** A newest-first list is ordered between any two positions, not only
      neighbouring ones. */
  lemma {:induction false} NewestFirstOrdered(s: seq<Task>, i: int, j: int)
    requires NewestFirst(s)
    requires 0 <= i <= j < |s|
    ensures s[i].createdAt >= s[j].createdAt
    decreases j - i
  {
    if i < j {
      NewestFirstOrdered(s, i + 1, j);
    }
  }

  /** findIndex(t => t.id === id): the index of the first task carrying id, or
      -1 when there is none. */
  function FindIndex(s: seq<Task>, id: string): (r: int)
    ensures -1 <= r < |s|
    ensures r == -1 <==> id !in Ids(s)
    ensures r != -1 ==> s[r].id == id && forall j | 0 <= j < r :: s[j].id != id
  {
    if s == [] then -1
    else if s[0].id == id then 0
    else
      var k := FindIndex(s[1..], id);
      if k == -1 then -1 else k + 1
  }

  /** filter(t => t.id !== id): the tasks of s that do not carry id, in
      their original order. */
  function RemoveId(s: seq<Task>, id: string): (r: seq<Task>)
    ensures |r| <= |s|
    ensures forall i | 0 <= i < |r| :: r[i].id != id
  {
    if s == [] then []
    else if s[0].id == id then RemoveId(s[1..], id)
    else [s[0]] + RemoveId(s[1..], id)
  }

  /** Exactly the tasks carrying id are dropped: every other task is kept as
      often as it occurred. */
  lemma {:induction false} RemoveIdContents(s: seq<Task>, id: string)
    ensures forall t :: multiset(RemoveId(s, id))[t] == if t.id == id then 0 else multiset(s)[t]
  {
    if s != [] {
      RemoveIdContents(s[1..], id);
      assert s == [s[0]] + s[1..];
    }
  }

  /** Filtering distributes over concatenation, so the kept tasks stay in
      their original relative order. */
  lemma {:induction false} RemoveIdConcat(a: seq<Task>, b: seq<Task>, id: string)
    ensures RemoveId(a + b, id) == RemoveId(a, id) + RemoveId(b, id)
  {
    if a == [] {
      assert a + b == b;
    } else {
      var ab := a + b;
      assert ab[0] == a[0] && ab[1..] == a[1..] + b;
      RemoveIdConcat(a[1..], b, id);
      if a[0].id != id {
        assert RemoveId(ab, id) == [a[0]] + RemoveId(a[1..] + b, id);
        assert RemoveId(a, id) == [a[0]] + RemoveId(a[1..], id);
      }
    }
  }

  /** A delete of an id no task carries leaves the list as it is. */
  lemma {:induction false} RemoveIdAbsent(s: seq<Task>, id: string)
    requires id !in Ids(s)
    ensures RemoveId(s, id) == s
  {
    if s != [] {
      RemoveIdAbsent(s[1..], id);
      assert s == [s[0]] + s[1..];
    }
  }

  /** Filtering keeps a newest-first list newest-first, and what is left
      starts no later than the list did. */
  lemma {:induction false} RemoveIdKeepsNewestFirst(s: seq<Task>, id: string)
    requires NewestFirst(s)
    ensures NewestFirst(RemoveId(s, id))
    ensures RemoveId(s, id) != [] ==> RemoveId(s, id)[0].createdAt <= s[0].createdAt
  {
    if s != [] {
      RemoveIdKeepsNewestFirst(s[1..], id);
    }
  }

  /** A delete removes one task per occurrence of the id and keeps every
      other id. */
  lemma {:induction false} RemoveIdIds(s: seq<Task>, id: string)
    ensures |RemoveId(s, id)| + multiset(Ids(s))[id] == |s|
    ensures multiset(Ids(RemoveId(s, id))) <= multiset(Ids(s))
  {
    if s != [] {
      RemoveIdIds(s[1..], id);
      if s[0].id != id {
        IdsCons(s[0], RemoveId(s[1..], id));
      }
    }
  }

  /** With unique ids a delete removes at most one task, and the ids left are
      still unique. */
  lemma RemoveIdUnique(s: seq<Task>, id: string)
    requires UniqueIds(s)
    ensures |s| - 1 <= |RemoveId(s, id)|
    ensures UniqueIds(RemoveId(s, id))
  {
    RemoveIdIds(s, id);
    assert multiset(Ids(s))[id] <= 1;
  }

  /** A task whose id is not in the list can be put in front of it without
      breaking the uniqueness of the ids. */
  lemma PrependKeepsUnique(t: Task, s: seq<Task>)
    requires UniqueIds(s) && t.id !in Ids(s)
    ensures UniqueIds([t] + s)
  {
    IdsCons(t, s);
    assert multiset(Ids([t] + s)) == multiset{t.id} + multiset(Ids(s));
  }

  /** A task no older than the head of a newest-first list can be put in
      front of it without breaking the order. */
  lemma PrependKeepsNewestFirst(t: Task, s: seq<Task>)
    requires NewestFirst(s) && (s != [] ==> s[0].createdAt <= t.createdAt)
    ensures NewestFirst([t] + s)
  {
    var r := [t] + s;
    forall i | 0 <= i < |r| - 1 ensures r[i].createdAt >= r[i + 1].createdAt {
      if i > 0 { assert r[i] == s[i - 1] && r[i + 1] == s[i]; }
    }
  }

  /** Places t in front of the first task that is not newer than it, so t goes
      before the tasks with an equal timestamp that follow it (a stable
      insertion). */
  function Insert(t: Task, s: seq<Task>): (r: seq<Task>)
    ensures |r| == |s| + 1
  {
    if s == [] || t.createdAt >= s[0].createdAt then [t] + s
    else [s[0]] + Insert(t, s[1..])
  }

  lemma {:induction false} InsertSorted(t: Task, s: seq<Task>)
    requires NewestFirst(s)
    ensures NewestFirst(Insert(t, s))
    ensures Insert(t, s)[0] == t || Insert(t, s)[0] == s[0]
  {
    if !(s == [] || t.createdAt >= s[0].createdAt) {
      InsertSorted(t, s[1..]);
    }
  }

  lemma {:induction false} InsertPermutes(t: Task, s: seq<Task>)
    ensures multiset(Insert(t, s)) == multiset(s) + multiset{t}
  {
    if !(s == [] || t.createdAt >= s[0].createdAt) {
      InsertPermutes(t, s[1..]);
      assert s == [s[0]] + s[1..];
    }
  }

  /** The ids of a non-empty list: the first one and those of the rest. */
  lemma IdsSplit(s: seq<Task>)
    requires s != []
    ensures multiset(Ids(s)) == multiset{s[0].id} + multiset(Ids(s[1..]))
  {
    assert Ids(s) == [s[0].id] + Ids(s[1..]);
  }

  lemma {:induction false} InsertIds(t: Task, s: seq<Task>)
    ensures multiset(Ids(Insert(t, s))) == multiset(Ids(s)) + multiset{t.id}
  {
    var r := Insert(t, s);
    if s == [] || t.createdAt >= s[0].createdAt {
      assert r == [t] + s && r[1..] == s;
      IdsSplit(r);
    } else {
      var rest := Insert(t, s[1..]);
      InsertIds(t, s[1..]);
      assert r == [s[0]] + rest && r[0] == s[0] && r[1..] == rest;
      IdsSplit(r);
      IdsSplit(s);
    }
  }

  /** tasks.sort((a, b) => new Date(b.createdAt) - new Date(a.createdAt)):
      a stable insertion sort into newest-first order. */
  function SortNewestFirst(s: seq<Task>): (r: seq<Task>)
    ensures |r| == |s|
  {
    if s == [] then [] else Insert(s[0], SortNewestFirst(s[1..]))
  }

  /** The sort returns a newest-first list. */
  lemma {:induction false} SortSorts(s: seq<Task>)
    ensures NewestFirst(SortNewestFirst(s))
  {
    if s != [] {
      SortSorts(s[1..]);
      InsertSorted(s[0], SortNewestFirst(s[1..]));
    }
  }

  /** The sort permutes its input: every task is kept as often as it occurred. */
  lemma {:induction false} SortPermutes(s: seq<Task>)
    ensures multiset(SortNewestFirst(s)) == multiset(s)
  {
    if s != [] {
      SortPermutes(s[1..]);
      InsertPermutes(s[0], SortNewestFirst(s[1..]));
      assert s == [s[0]] + s[1..];
    }
  }

  /** The sort keeps the ids of the list: it permutes them. */
  lemma {:induction false} SortKeepsIds(s: seq<Task>)
    ensures multiset(Ids(SortNewestFirst(s))) == multiset(Ids(s))
  {
    if s != [] {
      SortKeepsIds(s[1..]);
      InsertIds(s[0], SortNewestFirst(s[1..]));
      assert s == [s[0]] + s[1..];
      IdsCons(s[0], s[1..]);
    }
  }

  /** The tasks of s stamped with time c, in their order in s. */
  function WithTime(s: seq<Task>, c: int): (r: seq<Task>)
    ensures |r| <= |s|
    ensures forall i | 0 <= i < |r| :: r[i].createdAt == c
  {
    if s == [] then []
    else if s[0].createdAt == c then [s[0]] + WithTime(s[1..], c)
    else WithTime(s[1..], c)
  }

  /** Insertion puts t in front of every task with the same timestamp. */
  lemma {:induction false} InsertStable(t: Task, s: seq<Task>, c: int)
    ensures WithTime(Insert(t, s), c) == (if t.createdAt == c then [t] else []) + WithTime(s, c)
  {
    var r := Insert(t, s);
    if s == [] || t.createdAt >= s[0].createdAt {
      assert r[0] == t && r[1..] == s;
    } else {
      InsertStable(t, s[1..], c);
      assert r[0] == s[0] && r[1..] == Insert(t, s[1..]);
    }
  }

  /** The sort is stable: tasks that share a timestamp keep their input
      order. */
  lemma {:induction false} SortStable(s: seq<Task>, c: int)
    ensures WithTime(SortNewestFirst(s), c) == WithTime(s, c)
  {
    if s != [] {
      SortStable(s[1..], c);
      InsertStable(s[0], SortNewestFirst(s[1..]), c);
    }
  }

  /** Sorting a list that is already newest-first changes nothing: a list
      saved in that order is loaded back unchanged. */
  lemma {:induction false} SortKeepsNewestFirst(s: seq<Task>)
    requires NewestFirst(s)
    ensures SortNewestFirst(s) == s
  {
    if s != [] {
      SortKeepsNewestFirst(s[1..]);
      assert s == [s[0]] + s[1..];
    }
  }

  /** A task strictly newer than every other task of the list comes first
      after the sort. */
  lemma SortPutsNewestFirst(s: seq<Task>, e: Task)
    requires e in s
    requires forall x | x in s && x != e :: x.createdAt < e.createdAt
    ensures SortNewestFirst(s)[0] == e
  {
    var r := SortNewestFirst(s);
    SortSorts(s);
    SortPermutes(s);
    assert e in multiset(r);
    var j :| 0 <= j < |r| && r[j] == e;
    NewestFirstOrdered(r, 0, j);
    assert r[0] in multiset(s);
  }

  /** updateTask's field assignments on tasks[i]: the new text and the time
      of the edit; id and position stay. */
  function Revise(s: seq<Task>, i: int, text: string, now: int): (r: seq<Task>)
    requires 0 <= i < |s|
    ensures |r| == |s|
    ensures r[i] == Task(s[i].id, text, now)
    ensures forall j | 0 <= j < |s| && j != i :: r[j] == s[j]
  {
    s[i := s[i].(text := text, createdAt := now)]
  }

  /** An edit keeps every id in its place. */
  lemma {:induction false} ReviseKeepsIds(s: seq<Task>, i: int, text: string, now: int)
    requires 0 <= i < |s|
    ensures Ids(Revise(s, i, text, now)) == Ids(s)
  {
    if i > 0 {
      ReviseKeepsIds(s[1..], i - 1, text, now);
      assert Revise(s, i, text, now) == [s[0]] + Revise(s[1..], i - 1, text, now);
      IdsCons(s[0], Revise(s[1..], i - 1, text, now));
    } else {
      assert Revise(s, i, text, now) == [Task(s[0].id, text, now)] + s[1..];
      IdsCons(Task(s[0].id, text, now), s[1..]);
    }
    assert s == [s[0]] + s[1..];
  }

  /** An edit followed by the re-sort keeps the ids of the list (permuted)
      and leaves it newest-first. */
  lemma ReviseThenSort(s: seq<Task>, i: int, text: string, now: int)
    requires 0 <= i < |s|
    ensures multiset(Ids(SortNewestFirst(Revise(s, i, text, now)))) == multiset(Ids(s))
    ensures NewestFirst(SortNewestFirst(Revise(s, i, text, now)))
  {
    ReviseKeepsIds(s, i, text, now);
    SortKeepsIds(Revise(s, i, text, now));
    SortSorts(Revise(s, i, text, now));
  }

  /** An edit made later than every other task's timestamp moves the edited
      task to the top of the list. */
  lemma EditedTaskComesFirst(s: seq<Task>, i: int, text: string, now: int)
    requires 0 <= i < |s|
    requires forall j | 0 <= j < |s| && j != i :: s[j].createdAt < now
    ensures SortNewestFirst(Revise(s, i, text, now))[0] == Task(s[i].id, text, now)
  {
    var r := Revise(s, i, text, now);
    var e := Task(s[i].id, text, now);
    forall x | x in r && x != e ensures x.createdAt < e.createdAt {
      var j :| 0 <= j < |r| && r[j] == x;
    }
    SortPutsNewestFirst(r, e);
  }
}
