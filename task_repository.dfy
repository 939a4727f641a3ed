/** The task table (`HibernateTaskRepository`): a map from id to row, a
    generator of fresh ids, and the HQL queries as functions over the map. */
module TaskRepository {
  import opened Wrappers
  import opened Model

  /** The `where` clause on `done` of the three listing queries. */
  datatype Status = AnyStatus | NewOnly | DoneOnly

  predicate Matches(f: Status, t: Task) {
    match f
    case AnyStatus => true
    case NewOnly => !t.done
    case DoneOnly => t.done
  }

  /** Every row is stored under its own id (the primary key). */
  ghost predicate Keyed(m: map<int, Task>) {
    forall id :: id in m ==> m[id].id == id
  }

  /** `t` is the row stored under its id. */
  predicate Stored(m: map<int, Task>, t: Task) {
    t.id in m && m[t.id] == t
  }

  ghost predicate AscendingIds(s: seq<Task>) {
    forall i, j :: 0 <= i < j < |s| ==> s[i].id < s[j].id
  }

  /** The rows with an id in [lo, hi) that satisfy `f`, in the order of
      `order by t.id`. */
  function Select(m: map<int, Task>, lo: int, hi: int, f: Status): (r: seq<Task>)
    requires Keyed(m)
    ensures AscendingIds(r)
    ensures forall t :: t in r <==> Stored(m, t) && lo <= t.id < hi && Matches(f, t)
    decreases hi - lo
  {
    if lo >= hi then []
    else
      var rest := Select(m, lo + 1, hi, f);
      if lo in m && Matches(f, m[lo]) then [m[lo]] + rest else rest
  }

  /** Merges two lists that are each in ascending id order. */
  function Merge(a: seq<Task>, b: seq<Task>): (merged: seq<Task>)
    decreases |a| + |b|
  {
    if a == [] then b
    else if b == [] then a
    else if a[0].id <= b[0].id then [a[0]] + Merge(a[1..], b)
    else [b[0]] + Merge(a, b[1..])
  }

  lemma MergeConsLeft(x: Task, a: seq<Task>, b: seq<Task>)
    requires forall t :: t in b ==> x.id < t.id
    ensures Merge([x] + a, b) == [x] + Merge(a, b)
  {
  }

  lemma MergeConsRight(x: Task, a: seq<Task>, b: seq<Task>)
    requires forall t :: t in a ==> x.id < t.id
    ensures Merge(a, [x] + b) == [x] + Merge(a, b)
  {
  }

  /** The new and the done lists partition the full list: no task is in
      both, and merging them by id gives back the full list. */
  lemma {:induction false} NewAndDonePartitionAll(m: map<int, Task>, lo: int, hi: int)
    requires Keyed(m)
    ensures forall t :: !(t in Select(m, lo, hi, NewOnly) && t in Select(m, lo, hi, DoneOnly))
    ensures Merge(Select(m, lo, hi, NewOnly), Select(m, lo, hi, DoneOnly)) == Select(m, lo, hi, AnyStatus)
    decreases hi - lo
  {
    if lo < hi {
      NewAndDonePartitionAll(m, lo + 1, hi);
      var n, d := Select(m, lo + 1, hi, NewOnly), Select(m, lo + 1, hi, DoneOnly);
      if lo in m {
        if m[lo].done {
          MergeConsRight(m[lo], n, d);
        } else {
          MergeConsLeft(m[lo], n, d);
        }
      }
    }
  }

  class HibernateTaskRepository {
    var tasks: map<int, Task>
    var nextId: int

    /** Ids are generated from 1 upwards, so 0 never names a stored task. */
    ghost predicate Valid()
      reads this
    {
      && nextId >= 1
      && Keyed(tasks)
      && forall id :: id in tasks ==> 1 <= id < nextId
    }

    constructor ()
      ensures Valid() && tasks == map[] && nextId == 1
    {
      tasks := map[];
      nextId := 1;
    }

    /** `from Task t order by t.id`; `fault` is an exception raised by the
        store while the query runs, which `execute` rethrows. */
    method FindAllTasks(fault: bool) returns (r: Result<seq<Task>>)
      requires Valid()
      ensures r.Err? <==> fault
      ensures r.Err? ==> r.error == StoreError
      ensures r.Ok? ==> r.value == Select(tasks, 1, nextId, AnyStatus)
      ensures r.Ok? ==> AscendingIds(r.value) && forall t :: t in r.value <==> Stored(tasks, t)
    {
      if fault {
        r := Err(StoreError);
      } else {
        r := Ok(Select(tasks, 1, nextId, AnyStatus));
      }
    }

    /** `from Task t where t.done = false order by t.id`. */
    method FindNewTasks(fault: bool) returns (r: Result<seq<Task>>)
      requires Valid()
      ensures r.Err? <==> fault
      ensures r.Err? ==> r.error == StoreError
      ensures r.Ok? ==> r.value == Select(tasks, 1, nextId, NewOnly)
      ensures r.Ok? ==> AscendingIds(r.value) && forall t :: t in r.value <==> Stored(tasks, t) && !t.done
    {
      if fault {
        r := Err(StoreError);
      } else {
        r := Ok(Select(tasks, 1, nextId, NewOnly));
      }
    }

    /** `from Task t where t.done = true order by t.id`. */
    method FindDoneTasks(fault: bool) returns (r: Result<seq<Task>>)
      requires Valid()
      ensures r.Err? <==> fault
      ensures r.Err? ==> r.error == StoreError
      ensures r.Ok? ==> r.value == Select(tasks, 1, nextId, DoneOnly)
      ensures r.Ok? ==> AscendingIds(r.value) && forall t :: t in r.value <==> Stored(tasks, t) && t.done
    {
      if fault {
        r := Err(StoreError);
      } else {
        r := Ok(Select(tasks, 1, nextId, DoneOnly));
      }
    }

    /** `from Task t where t.id = :id` with `uniqueResult`. */
    method FindTaskById(id: int, fault: bool) returns (r: Result<Option<Task>>)
      requires Valid()
      ensures r.Err? <==> fault
      ensures r.Err? ==> r.error == StoreError
      ensures r.Ok? ==> (r.value.Some? <==> exists t :: Stored(tasks, t) && t.id == id)
      ensures r.Ok? && r.value.Some? ==> Stored(tasks, r.value.value) && r.value.value.id == id
    {
      if fault {
        r := Err(StoreError);
      } else if id in tasks {
        r := Ok(Some(tasks[id]));
      } else {
        r := Ok(None);
      }
    }

    /** `session.update(task)`: replaces the row with the task's id. With no
        such row the flush fails, so the failure is rethrown. */
    method Update(task: Task, fault: bool) returns (r: Result<Option<Task>>)
      requires Valid()
      modifies this
      ensures Valid() && nextId == old(nextId)
      ensures fault || task.id !in old(tasks) ==> r == Err(StoreError) && tasks == old(tasks)
      ensures !fault && task.id in old(tasks) ==> r == Ok(Some(task)) && tasks == old(tasks)[task.id := task]
    {
      if fault || task.id !in tasks {
        r := Err(StoreError);
      } else {
        tasks := tasks[task.id := task];
        r := Ok(Some(task));
      }
    }

    /** `session.save(task)`: stores the task under a newly generated id and
        returns it with that id. */
    method Add(task: Task, fault: bool) returns (r: Result<Option<Task>>)
      requires Valid()
      modifies this
      ensures Valid()
      ensures fault ==> r == Err(StoreError) && tasks == old(tasks) && nextId == old(nextId)
      ensures !fault ==> r == Ok(Some(task.(id := old(nextId))))
      ensures !fault ==> old(nextId) !in old(tasks) && old(nextId) != 0
      ensures !fault ==> tasks == old(tasks)[old(nextId) := task.(id := old(nextId))] && nextId == old(nextId) + 1
    {
      if fault {
        r := Err(StoreError);
      } else {
        var saved := task.(id := nextId);
        tasks := tasks[nextId := saved];
        nextId := nextId + 1;
        r := Ok(Some(saved));
      }
    }

    /** `delete Task where id = :id`: a no-op when there is no such row. */
    method DeleteTaskById(id: int, fault: bool) returns (r: Result<()>)
      requires Valid()
      modifies this
      ensures Valid() && nextId == old(nextId)
      ensures fault ==> r == Err(StoreError) && tasks == old(tasks)
      ensures !fault ==> r == Ok(()) && tasks == old(tasks) - {id} && id !in tasks
      ensures id !in old(tasks) ==> tasks == old(tasks)
    {
      if fault {
        r := Err(StoreError);
      } else {
        tasks := tasks - {id};
        r := Ok(());
      }
    }
  }
}
