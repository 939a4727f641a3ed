/** `ImplTaskService`: pass-through listings and deletion, optional-or-throw
    lookups, and saves that first resolve the task's priority by name. */
module TaskService {
  import opened Wrappers
  import opened Model
  import opened TaskRepository
  import PriorityService

  class ImplTaskService {
    const repository: HibernateTaskRepository
    /** The rows of the priority table, read through `ImplPriorityService`. */
    const priorities: seq<Priority>

    constructor (repository: HibernateTaskRepository, priorities: seq<Priority>)
      ensures this.repository == repository && this.priorities == priorities
    {
      this.repository := repository;
      this.priorities := priorities;
    }

    method FindAllTasks(fault: bool) returns (r: Result<seq<Task>>)
      requires repository.Valid()
      ensures fault ==> r == Err(StoreError)
      ensures !fault ==> r == Ok(Select(repository.tasks, 1, repository.nextId, AnyStatus))
    {
      r := repository.FindAllTasks(fault);
    }

    method FindNewTasks(fault: bool) returns (r: Result<seq<Task>>)
      requires repository.Valid()
      ensures fault ==> r == Err(StoreError)
      ensures !fault ==> r == Ok(Select(repository.tasks, 1, repository.nextId, NewOnly))
    {
      r := repository.FindNewTasks(fault);
    }

    method FindDoneTasks(fault: bool) returns (r: Result<seq<Task>>)
      requires repository.Valid()
      ensures fault ==> r == Err(StoreError)
      ensures !fault ==> r == Ok(Select(repository.tasks, 1, repository.nextId, DoneOnly))
    {
      r := repository.FindDoneTasks(fault);
    }

    /** The stored task with `id`, or `NoSuchElementException`; a store
        failure passes through. */
    method FindTaskById(id: int, fault: bool) returns (r: Result<Task>)
      requires repository.Valid()
      ensures r.Err? <==> fault || id !in repository.tasks
      ensures r.Err? ==> r.error == (if fault then StoreError else NotFound)
      ensures r.Ok? ==> Stored(repository.tasks, r.value) && r.value.id == id
    {
      var found := repository.FindTaskById(id, fault);
      r := ThenOrElseThrow(found, NotFound);
    }

    /** Replaces the task's priority by the stored priority of the same name
        (failing with `NoSuchElementException` before any write when there is
        none), then updates the row. An empty repository result would throw
        `IllegalArgumentException`; this repository never returns one. */
    method Update(task: Task, priorityFault: bool, fault: bool) returns (r: Result<Task>)
      requires repository.Valid()
      modifies repository
      ensures repository.Valid() && repository.nextId == old(repository.nextId)
      ensures r.Err? ==> repository.tasks == old(repository.tasks)
      ensures r.Err? ==> repository.nextId == old(repository.nextId)
      ensures var p := PriorityService.FindPriorityByName(priorities, task.priority.name, priorityFault);
              && (p.Err? ==> r == Err(NotFound))
              && (p.Ok? && (fault || task.id !in old(repository.tasks)) ==> r == Err(StoreError))
              && (p.Ok? && !fault && task.id in old(repository.tasks) ==>
                    r == Ok(task.(priority := p.value))
                    && repository.tasks == old(repository.tasks)[task.id := r.value])
    {
      var p := PriorityService.FindPriorityByName(priorities, task.priority.name, priorityFault);
      if p.Err? {
        return Err(p.error);
      }
      var resolved := task.(priority := p.value);
      var updated := repository.Update(resolved, fault);
      r := ThenOrElseThrow(updated, InvalidArgument);
    }

    /** Resolves the priority as `Update` does, then stores the task under a
        new id. */
    method Add(task: Task, priorityFault: bool, fault: bool) returns (r: Result<Task>)
      requires repository.Valid()
      modifies repository
      ensures repository.Valid()
      ensures r.Err? ==> repository.tasks == old(repository.tasks)
      ensures r.Err? ==> repository.nextId == old(repository.nextId)
      ensures var p := PriorityService.FindPriorityByName(priorities, task.priority.name, priorityFault);
              && (p.Err? ==> r == Err(NotFound))
              && (p.Ok? && fault ==> r == Err(StoreError))
              && (p.Ok? && !fault ==>
                    r == Ok(task.(priority := p.value, id := old(repository.nextId)))
                    && repository.tasks == old(repository.tasks)[r.value.id := r.value]
                    && repository.nextId == old(repository.nextId) + 1)
    {
      var p := PriorityService.FindPriorityByName(priorities, task.priority.name, priorityFault);
      if p.Err? {
        return Err(p.error);
      }
      var resolved := task.(priority := p.value);
      var saved := repository.Add(resolved, fault);
      r := ThenOrElseThrow(saved, InvalidArgument);
    }

    /** An unsaved task (id 0) is added, any other is updated. */
    method AddOrUpdateTask(task: Task, priorityFault: bool, fault: bool) returns (r: Result<Task>)
      requires repository.Valid()
      modifies repository
      ensures repository.Valid()
      ensures r.Err? ==> repository.tasks == old(repository.tasks)
      ensures r.Err? ==> repository.nextId == old(repository.nextId)
      ensures r.Ok? ==> r.value == task.(id := r.value.id, priority := r.value.priority)
      ensures r.Ok? ==> r.value.priority in priorities && r.value.priority.name == task.priority.name
      ensures r.Ok? ==> repository.tasks == old(repository.tasks)[r.value.id := r.value]
      ensures r.Ok? && task.id == 0 ==>
                r.value.id == old(repository.nextId) && r.value.id !in old(repository.tasks)
      ensures r.Ok? && task.id != 0 ==>
                r.value.id == task.id && task.id in old(repository.tasks)
                && repository.nextId == old(repository.nextId)
      ensures var p := PriorityService.FindPriorityByName(priorities, task.priority.name, priorityFault);
              && (p.Err? ==> r == Err(NotFound))
              && (p.Ok? && task.id == 0 ==> (r.Ok? <==> !fault))
              && (p.Ok? && task.id != 0 ==> (r.Ok? <==> !fault && task.id in old(repository.tasks)))
              && (p.Ok? && r.Err? ==> r.error == StoreError)
    {
      if task.id == 0 {
        r := Add(task, priorityFault, fault);
      } else {
        r := Update(task, priorityFault, fault);
      }
    }

    /** Loads the task, sets `done` and saves it through `Update`. */
    method TaskDone(id: int, findFault: bool, priorityFault: bool, fault: bool) returns (r: Result<Task>)
      requires repository.Valid()
      modifies repository
      ensures repository.Valid()
      ensures r.Err? ==> repository.tasks == old(repository.tasks)
      ensures r.Err? ==> repository.nextId == old(repository.nextId)
      ensures !findFault && id !in old(repository.tasks) ==> r == Err(NotFound)
      ensures r.Ok? ==> id in old(repository.tasks) && r.value.id == id && r.value.done
      ensures r.Ok? ==> r.value == old(repository.tasks)[id].(done := true, priority := r.value.priority)
      ensures r.Ok? ==> repository.tasks == old(repository.tasks)[id := r.value]
      ensures findFault ==> r == Err(StoreError)
      ensures !findFault && id in old(repository.tasks) ==>
                var p := PriorityService.FindPriorityByName(priorities, old(repository.tasks)[id].priority.name, priorityFault);
                && (p.Err? ==> r == Err(NotFound))
                && (p.Ok? && fault ==> r == Err(StoreError))
                && (p.Ok? && !fault ==> r == Ok(old(repository.tasks)[id].(done := true, priority := p.value)))
    {
      var found := FindTaskById(id, findFault);
      if found.Err? {
        return found;
      }
      var finished := found.value.(done := true);
      r := Update(finished, priorityFault, fault);
    }

    method DeleteTaskById(id: int, fault: bool) returns (r: Result<()>)
      requires repository.Valid()
      modifies repository
      ensures repository.Valid() && repository.nextId == old(repository.nextId)
      ensures fault ==> r == Err(StoreError) && repository.tasks == old(repository.tasks)
      ensures !fault ==> r == Ok(()) && repository.tasks == old(repository.tasks) - {id}
    {
      r := repository.DeleteTaskById(id, fault);
    }
  }
}
