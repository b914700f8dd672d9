/** The task service: create, read, update and delete over the repository.
    Each method is proved to do to the repository's table what the matching
    step of TaskTable says, and nothing else. */
module Service {
  import opened Wrappers
  import opened TaskModel
  import opened TaskTable
  import opened Repository

  class TaskService {
    const repository: TaskRepository

    ghost predicate Valid()
      reads this, repository
    {
      repository.Valid()
    }

    constructor (repository: TaskRepository)
      requires repository.Valid()
      ensures Valid() && this.repository == repository
    {
      this.repository := repository;
    }

    /** getAllTasks: every stored task, each once. */
    method GetAllTasks() returns (r: seq<Task>)
      requires Valid()
      ensures |r| == |repository.rows|
      ensures forall i :: 0 <= i < |r| ==> r[i].id.Some? && Lookup(repository.rows, r[i].id.value) == Some(r[i])
      ensures forall k :: k in repository.rows ==> repository.rows[k] in r
    {
      r := repository.FindAll();
      ListsEveryRow(r, repository.rows);
    }

    /** getTaskById: the stored task, or absent. */
    method GetTaskById(id: Uuid) returns (r: Option<Task>)
      requires Valid()
      ensures r.Some? <==> id in repository.rows
      ensures r.Some? ==> r.value == repository.rows[id] && r.value.id == Some(id)
    {
      r := repository.FindById(id);
    }

    /** createTask: saves the task; newId is the identifier generated for it. */
    method CreateTask(task: Task, newId: Uuid) returns (r: Result<Task, Error>)
      requires Valid()
      requires task.id.None? ==> newId !in repository.rows
      modifies repository
      ensures Valid()
      ensures Step(r, repository.rows) == SaveStep(old(repository.rows), task, newId)
    {
      r := repository.Save(task, newId);
    }

    /** updateTask: fetch, copy title, description and status from the input,
        save; absent when the id is not stored. */
    method UpdateTask(id: Uuid, updated: Task) returns (r: Result<Option<Task>, Error>)
      requires Valid()
      modifies repository
      ensures Valid()
      ensures Step(r, repository.rows) == UpdateStep(old(repository.rows), id, updated)
    {
      var found := repository.FindById(id);
      match found
      case None =>
        r := Success(None);
      case Some(task) =>
        task := task.(title := updated.title);
        task := task.(description := updated.description);
        task := task.(status := updated.status);
        var saved := repository.Save(task, id);
        match saved
        case Success(t) => r := Success(Some(t));
        case Failure(e) => r := Failure(e);
    }

    /** deleteTask: true, after deleting, when the id exists; false otherwise. */
    method DeleteTask(id: Uuid) returns (deleted: bool)
      requires Valid()
      modifies repository
      ensures Valid()
      ensures Step(deleted, repository.rows) == DeleteStep(old(repository.rows), id)
    {
      var present := repository.ExistsById(id);
      if present {
        repository.DeleteById(id);
        return true;
      }
      return false;
    }
  }
}
