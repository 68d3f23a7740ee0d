/**
  The in-memory list of notes on the home view and the two list updates the
  view applies after a server acknowledgement: `filter` by id (delete) and
  `map` replacing by id (update).
 */
module TaskList {

  /** A row of the `tasks` table as the view holds it. */
  datatype UserTask = UserTask(id: int, createdAt: string, title: string, description: string)

  /** `a` is `b` with some elements dropped, the rest in their original order. */
  predicate IsSubsequence<T(==)>(a: seq<T>, b: seq<T>)
    decreases |b|
  {
    if a == [] then true
    else if b == [] then false
    else if a[0] == b[0] then IsSubsequence(a[1..], b[1..])
    else IsSubsequence(a, b[1..])
  }

  /** The ids the list holds. */
  function Ids(tasks: seq<UserTask>): set<int> {
    set t | t in tasks :: t.id
  }

  /** No two records of the list share an id. */
  predicate UniqueIds(tasks: seq<UserTask>) {
    forall i, j :: 0 <= i < j < |tasks| ==> tasks[i].id != tasks[j].id
  }

  /**
    `tasks.filter(t => t.id !== id)`: every record with that id is gone,
    every other record stays, as often as before and in the same order.
   */
  function WithoutId(tasks: seq<UserTask>, id: int): (r: seq<UserTask>)
    ensures forall t :: t in r <==> t in tasks && t.id != id
  {
    if tasks == [] then []
    else
      var rest := WithoutId(tasks[1..], id);
      assert tasks == [tasks[0]] + tasks[1..];
      if tasks[0].id != id then [tasks[0]] + rest else rest
  }

  /**
    `tasks.map(t => t.id === id ? data : t)`: same length, every record
    with that id replaced by `data`, every other position untouched.
   */
  function ReplaceId(tasks: seq<UserTask>, id: int, data: UserTask): (r: seq<UserTask>)
    ensures |r| == |tasks|
    ensures forall i :: 0 <= i < |tasks| && tasks[i].id == id ==> r[i] == data
    ensures forall i :: 0 <= i < |tasks| && tasks[i].id != id ==> r[i] == tasks[i]
  {
    if tasks == [] then []
    else [if tasks[0].id == id then data else tasks[0]] + ReplaceId(tasks[1..], id, data)
  }

  /**
    Deleting by id keeps every other record exactly as often as before and
    in the same relative order, drops every record of that id, and leaves a
    list without that id as it was.
   */
  lemma {:induction false} WithoutIdSpec(tasks: seq<UserTask>, id: int)
    ensures forall t :: multiset(WithoutId(tasks, id))[t] == if t.id == id then 0 else multiset(tasks)[t]
    ensures IsSubsequence(WithoutId(tasks, id), tasks)
    ensures id !in Ids(tasks) ==> WithoutId(tasks, id) == tasks
  {
    if tasks != [] {
      var rest := WithoutId(tasks[1..], id);
      WithoutIdSpec(tasks[1..], id);
      assert tasks == [tasks[0]] + tasks[1..];
      if tasks[0].id != id {
        assert WithoutId(tasks, id) == [tasks[0]] + rest;
      } else {
        assert WithoutId(tasks, id) == rest;
        if rest != [] {
          assert rest[0] in rest;
        }
      }
    }
  }

  /** Filtering distributes over concatenation. */
  lemma {:induction false} WithoutIdAppend(a: seq<UserTask>, b: seq<UserTask>, id: int)
    ensures WithoutId(a + b, id) == WithoutId(a, id) + WithoutId(b, id)
  {
    if a != [] {
      var ab := a + b;
      assert ab[0] == a[0] && ab[1..] == a[1..] + b;
      WithoutIdAppend(a[1..], b, id);
      var tail := WithoutId(ab[1..], id);
      if a[0].id != id {
        assert WithoutId(ab, id) == [a[0]] + tail;
        assert WithoutId(a, id) == [a[0]] + WithoutId(a[1..], id);
      } else {
        assert WithoutId(ab, id) == tail;
        assert WithoutId(a, id) == WithoutId(a[1..], id);
      }
    } else {
      assert a + b == b;
    }
  }

  /** Deleting a freshly appended record's id gives back the list before the append. */
  lemma DeleteUndoesAppend(tasks: seq<UserTask>, data: UserTask)
    requires data.id !in Ids(tasks)
    ensures WithoutId(tasks + [data], data.id) == tasks
  {
    WithoutIdAppend(tasks, [data], data.id);
    WithoutIdSpec(tasks, data.id);
    assert WithoutId([data], data.id) == [];
  }

  /** Replacing the records of an id by a record with that same id, then deleting the id, is just deleting it. */
  lemma {:induction false} DeleteAfterReplace(tasks: seq<UserTask>, id: int, data: UserTask)
    requires data.id == id
    ensures WithoutId(ReplaceId(tasks, id, data), id) == WithoutId(tasks, id)
  {
    if tasks != [] {
      DeleteAfterReplace(tasks[1..], id, data);
      var r := ReplaceId(tasks, id, data);
      assert r[1..] == ReplaceId(tasks[1..], id, data);
    }
  }

  /** Replacing by id twice with the same record is replacing once. */
  lemma ReplaceIdempotent(tasks: seq<UserTask>, id: int, data: UserTask)
    ensures ReplaceId(ReplaceId(tasks, id, data), id, data) == ReplaceId(tasks, id, data)
  {
  }

  /** Deleting keeps ids unique. */
  lemma {:induction false} WithoutIdKeepsUnique(tasks: seq<UserTask>, id: int)
    requires UniqueIds(tasks)
    ensures UniqueIds(WithoutId(tasks, id))
  {
    if tasks != [] {
      var tail := tasks[1..];
      WithoutIdKeepsUnique(tail, id);
      var rest := WithoutId(tail, id);
      if tasks[0].id != id {
        forall j | 0 <= j < |rest|
          ensures rest[j].id != tasks[0].id
        {
          assert rest[j] in tail;
          var k :| 0 <= k < |tail| && tail[k] == rest[j];
          assert tasks[k + 1] == rest[j];
        }
        var r := WithoutId(tasks, id);
        assert r == [tasks[0]] + rest;
        forall i, j | 0 <= i < j < |r|
          ensures r[i].id != r[j].id
        {
          if i > 0 {
            assert r[i] == rest[i - 1] && r[j] == rest[j - 1];
          }
        }
      }
    }
  }

  /** Appending a record whose id is not yet in the list keeps ids unique. */
  lemma AppendFreshKeepsUnique(tasks: seq<UserTask>, data: UserTask)
    requires UniqueIds(tasks)
    requires data.id !in Ids(tasks)
    ensures UniqueIds(tasks + [data])
  {
    var r := tasks + [data];
    forall i, j | 0 <= i < j < |r|
      ensures r[i].id != r[j].id
    {
      if j == |tasks| {
        assert r[i] in tasks;
      }
    }
  }

  /** Replacing the records of an id by a record with that id keeps every position's id, so uniqueness too. */
  lemma ReplaceKeepsUnique(tasks: seq<UserTask>, id: int, data: UserTask)
    requires UniqueIds(tasks)
    requires data.id == id
    ensures UniqueIds(ReplaceId(tasks, id, data))
  {
    var r := ReplaceId(tasks, id, data);
    assert forall i :: 0 <= i < |r| ==> r[i].id == tasks[i].id;
  }
}
