/** The tasks collection as an in-memory table, and the queries the task
    handlers run on it: the owner-scoped lookup by id, the list filter, the
    newest-first ordering and the skip/limit window. */
module TaskTable {
  import opened Wrappers
  import opened Http
  import opened Text
  import opened TaskModel

  /** No two tasks share an id. */
  predicate UniqueIds(table: seq<Task>) {
    forall i, j | 0 <= i < j < |table| :: table[i].id != table[j].id
  }

  /** The tasks of `table` owned by `user`, in table order: all of the table
      that `user` can observe. */
  function OwnedBy(table: seq<Task>, user: string): (r: seq<Task>)
    ensures forall t | t in r :: t in table && t.owner == user
    ensures forall t | t in table && t.owner == user :: t in r
  {
    if table == [] then []
    else (if table[0].owner == user then [table[0]] else []) + OwnedBy(table[1..], user)
  }

  /** Each task of the table appears in `user`'s part exactly as often as
      in the table when `user` owns it, and not at all otherwise. */
  lemma {:induction false} OwnedByCounts(table: seq<Task>, user: string, t: Task)
    ensures multiset(OwnedBy(table, user))[t] == if t.owner == user then multiset(table)[t] else 0
    decreases |table|
  {
    if table != [] {
      OwnedByCounts(table[1..], user, t);
      assert table == [table[0]] + table[1..];
    }
  }

  lemma {:induction false} OwnedByConcat(a: seq<Task>, b: seq<Task>, user: string)
    ensures OwnedBy(a + b, user) == OwnedBy(a, user) + OwnedBy(b, user)
    decreases |a|
  {
    if a != [] {
      assert (a + b)[1..] == a[1..] + b;
      OwnedByConcat(a[1..], b, user);
    } else {
      assert a + b == b;
    }
  }

  /** Adding a task leaves every other user's part of the table as it was. */
  lemma OwnedByAppendForeign(table: seq<Task>, t: Task)
    ensures forall user | user != t.owner :: OwnedBy(table + [t], user) == OwnedBy(table, user)
  {
    forall user | user != t.owner ensures OwnedBy(table + [t], user) == OwnedBy(table, user) {
      OwnedByConcat(table, [t], user);
      assert OwnedBy([t], user) == [];
    }
  }

  /** Removing a task of one user leaves `user`'s part of the table as it was. */
  lemma RemoveForeign(table: seq<Task>, i: nat, user: string)
    requires i < |table| && table[i].owner != user
    ensures OwnedBy(table[..i] + table[i + 1..], user) == OwnedBy(table, user)
  {
    var pre, post := table[..i], table[i + 1..];
    assert table == pre + ([table[i]] + post);
    assert OwnedBy([table[i]], user) == [];
    calc {
      OwnedBy(table, user);
      { OwnedByConcat(pre, [table[i]] + post, user); }
      OwnedBy(pre, user) + OwnedBy([table[i]] + post, user);
      { OwnedByConcat([table[i]], post, user); }
      OwnedBy(pre, user) + OwnedBy(post, user);
      { OwnedByConcat(pre, post, user); }
      OwnedBy(pre + post, user);
    }
  }

  /** Removing a task leaves every other user's part of the table as it was. */
  lemma OwnedByRemoveForeign(table: seq<Task>, i: nat)
    requires i < |table|
    ensures forall user | user != table[i].owner ::
      OwnedBy(table[..i] + table[i + 1..], user) == OwnedBy(table, user)
  {
    forall user | user != table[i].owner
      ensures OwnedBy(table[..i] + table[i + 1..], user) == OwnedBy(table, user)
    {
      RemoveForeign(table, i, user);
    }
  }

  /** Replacing a task of one user by another task of that user leaves every
      other user's part of the table as it was. */
  lemma OwnedByReplaceForeign(table: seq<Task>, i: nat, t: Task)
    requires i < |table| && t.owner == table[i].owner
    ensures forall user | user != t.owner :: OwnedBy(table[i := t], user) == OwnedBy(table, user)
  {
    assert table[i := t] == table[..i] + ([t] + table[i + 1..]);
    assert table == table[..i] + ([table[i]] + table[i + 1..]);
    forall user | user != t.owner ensures OwnedBy(table[i := t], user) == OwnedBy(table, user) {
      OwnedByConcat(table[..i], [t] + table[i + 1..], user);
      OwnedByConcat(table[..i], [table[i]] + table[i + 1..], user);
      OwnedByConcat([t], table[i + 1..], user);
      OwnedByConcat([table[i]], table[i + 1..], user);
      assert OwnedBy([t], user) == [];
      assert OwnedBy([table[i]], user) == [];
    }
  }

  /** `findOne({_id: key, user})`: the position of the first task with id
      `key` owned by `user`, if there is one. */
  function FindOwned(table: seq<Task>, user: string, key: string): (r: Option<nat>)
    ensures r.Some? ==> r.value < |table| && table[r.value].id == key && table[r.value].owner == user
    ensures r.Some? ==> forall k | 0 <= k < r.value :: !(table[k].id == key && table[k].owner == user)
    ensures r.None? <==> forall k | 0 <= k < |table| :: !(table[k].id == key && table[k].owner == user)
  {
    if table == [] then None
    else if table[0].id == key && table[0].owner == user then Some(0)
    else match FindOwned(table[1..], user, key)
      case None => None
      case Some(i) => Some(i + 1)
  }

  /** The task `findOne({_id: key, user})` returns. */
  function FindOwnedTask(table: seq<Task>, user: string, key: string): Option<Task> {
    match FindOwned(table, user, key)
    case None => None
    case Some(i) => Some(table[i])
  }

  /** The lookup passes over a first task that does not match. */
  lemma FindOwnedSkip(table: seq<Task>, user: string, key: string)
    requires table != [] && !(table[0].id == key && table[0].owner == user)
    ensures FindOwnedTask(table, user, key) == FindOwnedTask(table[1..], user, key)
  {
  }

  /** Ownership isolation of the lookup: what `user` finds by id depends only
      on `user`'s own tasks. */
  lemma {:induction false} FindOwnedIsolated(table: seq<Task>, user: string, key: string)
    ensures FindOwnedTask(table, user, key) == FindOwnedTask(OwnedBy(table, user), user, key)
    decreases |table|
  {
    if table != [] {
      var rest := OwnedBy(table[1..], user);
      FindOwnedIsolated(table[1..], user, key);
      if table[0].owner == user {
        var mine := [table[0]] + rest;
        assert OwnedBy(table, user) == mine;
        if table[0].id != key {
          assert mine[1..] == rest;
          FindOwnedSkip(table, user, key);
          FindOwnedSkip(mine, user, key);
        }
      } else {
        assert OwnedBy(table, user) == rest;
        FindOwnedSkip(table, user, key);
      }
    }
  }

  /** Removing the task at `i` from a table with unique ids removes exactly
      one copy of it and leaves no other. */
  lemma RemoveAt(table: seq<Task>, i: nat)
    requires UniqueIds(table) && i < |table|
    ensures multiset(table[..i] + table[i + 1..]) == multiset(table) - multiset{table[i]}
    ensures table[i] !in table[..i] + table[i + 1..]
  {
    var rest := table[..i] + table[i + 1..];
    assert table == table[..i] + [table[i]] + table[i + 1..];
    forall k | 0 <= k < |rest| ensures rest[k] != table[i] {
      assert rest[k] == table[if k < i then k else k + 1];
    }
  }

  /** A task owned by someone else is invisible to `user` even when its id is
      asked for by name: with unique ids, the lookup finds nothing. */
  lemma ForeignIdNotFound(table: seq<Task>, i: nat, user: string)
    requires UniqueIds(table) && i < |table| && table[i].owner != user
    ensures FindOwned(table, user, table[i].id).None?
  {
  }

  /** The list filter built from the query: an exact status and a search text. */
  datatype Filter = Filter(status: Option<string>, search: Option<string>)

  /** The list query `{user, status?, $or?}`: owned by `user`; when a status
      is given, exactly that status; when a search text is given, found in
      the title or in the description, ignoring case. */
  predicate Matches(t: Task, user: string, f: Filter) {
    && t.owner == user
    && (Given(f.status) ==> t.status == f.status.value)
    && (Given(f.search) ==>
          ContainsIgnoringCase(t.title, f.search.value) || ContainsIgnoringCase(t.description, f.search.value))
  }

  /** The tasks of `table` the list query selects, in table order. */
  function Matching(table: seq<Task>, user: string, f: Filter): (r: seq<Task>)
    ensures |r| <= |table|
    ensures forall t | t in r :: t in table && Matches(t, user, f)
    ensures forall t | t in table && Matches(t, user, f) :: t in r
  {
    if table == [] then []
    else (if Matches(table[0], user, f) then [table[0]] else []) + Matching(table[1..], user, f)
  }

  /** The list query selects each task as often as the table holds it when
      the task matches, and never otherwise: no task is listed twice. */
  lemma {:induction false} MatchingCounts(table: seq<Task>, user: string, f: Filter, t: Task)
    ensures multiset(Matching(table, user, f))[t] == if Matches(t, user, f) then multiset(table)[t] else 0
    decreases |table|
  {
    if table != [] {
      MatchingCounts(table[1..], user, f, t);
      assert table == [table[0]] + table[1..];
    }
  }

  /** Ownership isolation of the list query: it selects the same tasks from
      the whole table as from `user`'s part of it. */
  lemma {:induction false} MatchingIsolated(table: seq<Task>, user: string, f: Filter)
    ensures Matching(table, user, f) == Matching(OwnedBy(table, user), user, f)
    decreases |table|
  {
    if table != [] {
      MatchingIsolated(table[1..], user, f);
      if table[0].owner == user {
        var rest := OwnedBy(table[1..], user);
        assert OwnedBy(table, user) == [table[0]] + rest;
        assert ([table[0]] + rest)[1..] == rest;
      } else {
        assert OwnedBy(table, user) == OwnedBy(table[1..], user);
      }
    }
  }

  /** Ordered by `createdAt`, newest first. */
  predicate NewestFirst(s: seq<Task>) {
    forall i, j | 0 <= i < j < |s| :: s[i].createdAt >= s[j].createdAt
  }

  /** Insert `t` into a newest-first sequence, before the first task that is not newer. */
  function InsertByAge(t: Task, s: seq<Task>): (r: seq<Task>)
    requires NewestFirst(s)
    ensures NewestFirst(r)
    ensures multiset(r) == multiset(s) + multiset{t}
  {
    if s == [] then [t]
    else if s[0].createdAt <= t.createdAt then [t] + s
    else
      var rest := InsertByAge(t, s[1..]);
      assert s == [s[0]] + s[1..];
      forall k | 0 <= k < |rest| ensures s[0].createdAt >= rest[k].createdAt {
        assert rest[k] in multiset(rest);
        if rest[k] != t {
          assert rest[k] in multiset(s[1..]);
          var m :| 0 <= m < |s[1..]| && s[1..][m] == rest[k];
          assert rest[k] == s[m + 1];
        }
      }
      [s[0]] + rest
  }

  /** `.sort({createdAt: -1})`: the same tasks, newest first. */
  function SortNewestFirst(s: seq<Task>): (r: seq<Task>)
    ensures NewestFirst(r)
    ensures multiset(r) == multiset(s)
  {
    if s == [] then []
    else
      assert s == [s[0]] + s[1..];
      InsertByAge(s[0], SortNewestFirst(s[1..]))
  }

  /** `.skip(skip).limit(take)`: the tasks at positions `skip`, `skip + 1`, …,
      at most `take` of them when a limit applies. */
  function Window(s: seq<Task>, skip: nat, take: Option<nat>): (r: seq<Task>)
    ensures take.Some? ==> |r| <= take.value
    ensures skip + |r| <= |s| || r == []
    ensures forall k | 0 <= k < |r| :: skip + k < |s| && r[k] == s[skip + k]
    ensures skip < |s| && (take.None? || skip + take.value >= |s|) ==> |r| == |s| - skip
    ensures skip < |s| && take.Some? && skip + take.value < |s| ==> |r| == take.value
  {
    var rest := if skip <= |s| then s[skip..] else [];
    if take.Some? && take.value < |rest| then rest[..take.value] else rest
  }

  /** A window of a newest-first sequence is newest first. */
  lemma WindowKeepsOrder(s: seq<Task>, skip: nat, take: Option<nat>)
    requires NewestFirst(s)
    ensures NewestFirst(Window(s, skip, take))
  {
    var r := Window(s, skip, take);
    forall i, j | 0 <= i < j < |r| ensures r[i].createdAt >= r[j].createdAt {
      assert r[i] == s[skip + i] && r[j] == s[skip + j];
    }
  }
}
