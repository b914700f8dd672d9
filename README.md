# Task manager backend: a Dafny model of the task store and its service

This project models the backend core of a small task-tracking application:
the `Task` entity (id, title, description, status) with its declared field
constraints, the repository that keeps tasks in a table keyed by id, and the
`TaskService` that offers `getAllTasks`, `getTaskById`, `createTask`,
`updateTask` and `deleteTask` on top of it.

Layout:

- `wrappers.dfy` (module `Wrappers`): `Option` for Java's `Optional` and for
  nullable fields, `Result` for a call that returns or throws.
- `task_model.dfy` (module `TaskModel`): the `TaskStatus` enumeration
  (`Todo`, `InProgress`, `Done`), the `Task` record as an immutable datatype
  whose every field may be null (`Option`), the two constructors, Java's
  `String.trim()`, and the predicate `Valid` that gathers the entity's
  constraints: a non-blank title, a description of at most 1000 characters
  (or none), a non-null status.
- `task_table.dfy` (module `TaskTable`): the table as a value
  (`map<Uuid, Task>`) and one function per step (`SaveStep`, `UpdateStep`,
  `DeleteStep`, `Lookup`, the listing predicate `Lists`), with the lemmas
  that state what each step promises and how steps combine.
- `repository.dfy` (module `Repository`): class `TaskRepository` with a
  `rows` map field updated in place by `Save` and `DeleteById`, and
  `FindAll`, `FindById`, `ExistsById`.
- `service.dfy` (module `Service`): class `TaskService`, holding the
  repository; each method runs the same repository calls as the Java method
  and is proved to leave the table as the matching `TaskTable` step says.

Modelling choices:

- **Title check: an explicit guard.** The service itself never checks the
  title. The constraints are declared on the entity and enforced outside
  the service: on the request body before the service is called, and again
  when the entity is persisted. The model places one explicit guard in the
  repository's `Save`. A task that is not `Valid` is refused with
  `Failure(ConstraintViolation)` and nothing is written. So `createTask`
  and `updateTask` both reject a blank title, and the table invariant
  `WellFormed` holds: every row is stored under its own id and is `Valid`.
- **Blank** follows the Bean Validation implementation of `@NotBlank`: the
  title is not null and `trim()` of it is non-empty. `trim()` drops
  characters up to U+0020.
- **Id generation** is a parameter. `newId` is the identifier the generator
  hands out, and the caller guarantees it is unused (`newId !in rows`).
- **save is an upsert by id.** A task without an id is inserted under
  `newId`. A task that already carries an id is written under that id,
  replacing any row there.
- **Status default.** The service does not default the status itself. A
  task built without a status gets `Todo` from the entity's field
  initializer (`NewTask`). A task whose status is explicitly null is
  refused at persistence.
- **Client-supplied id on create.** The service does not clear an id that
  the input carries. `createTask` of a task whose id is already stored
  replaces that row (`TaskTable.CreateWithIdUpserts`).
- **updateTask is a full replace.** Title, description and status all come
  from the input, so a null description clears the stored one. The input's
  id is ignored (`TaskTable.UpdateIgnoresInputId`). A missing id answers
  absent and writes nothing.

## Model

| member | source | states |
|---|---|---|
| `TaskModel.TrimStartDropsPrefix` | backend/src/main/java/com/taskmanager/model/Task.java:21 | trimming the front of a title drops only characters up to the space and stops at the first kept character |
| `TaskModel.TrimEndDropsSuffix` | backend/src/main/java/com/taskmanager/model/Task.java:21 | trimming the end of a title drops only characters up to the space and stops at the last kept character |
| `TaskModel.NotBlankIffVisibleChar` | backend/src/main/java/com/taskmanager/model/Task.java:21-23 | a title is non-blank exactly when it holds a character that trim keeps (both directions) |
| `TaskModel.BlankTitles` | backend/src/test/java/com/taskmanager/controller/TaskControllerIntegrationTest.java:66-76 | the empty title, a whitespace-only title and a null title are blank; a title with surrounding spaces is not |
| `TaskModel.ConstructorDefaults` | backend/src/main/java/com/taskmanager/model/Task.java:15-37 | the no-argument task has no id and status TODO; the three-argument constructor is that default with title, description and status assigned, so it overrides TODO and leaves the id unset |
| `TaskTable.ListsEveryRow` | backend/src/main/java/com/taskmanager/service/TaskService.java:29-31 | a listing with one entry per row, each a stored task under its own id and no id twice, leaves no stored task out |
| `TaskTable.LookupFinds` | backend/src/main/java/com/taskmanager/service/TaskService.java:39-41 | findById answers a task iff the id is stored, and that task is the row, carries that id and is valid |
| `TaskTable.SaveKeepsWellFormed` | backend/src/main/java/com/taskmanager/service/TaskService.java:49-51 | a save keeps every row stored under its own id and valid |
| `TaskTable.CreateAddsOneRow` | backend/src/main/java/com/taskmanager/service/TaskService.java:49-51 | creating a valid task without id adds exactly one row under the fresh id, returns it with the input's title, description and status, and leaves every other row unchanged |
| `TaskTable.SaveRefusesInvalid` | backend/src/main/java/com/taskmanager/model/Task.java:21-30 | a save is refused iff the task breaks a constraint, and a refused save writes nothing |
| `TaskTable.ConstructedTaskSaves` | backend/src/main/java/com/taskmanager/model/Task.java:21-37 | saving a task from the three-argument constructor succeeds iff its title is non-blank, its description is null or at most 1000 characters and its status is non-null, and then adds exactly that task under the fresh id; saving a no-argument task is always refused and writes nothing |
| `TaskTable.CreateWithIdUpserts` | backend/src/main/java/com/taskmanager/service/TaskService.java:49-51 | creating a task that carries an id writes it under that id, replacing or adding that one row only |
| `TaskTable.DeleteUndoesCreate` | backend/src/main/java/com/taskmanager/service/TaskService.java:49-82 | deleting a newly created task under its new id answers true and gives back the original table |
| `TaskTable.UpdateKeepsWellFormed` | backend/src/main/java/com/taskmanager/service/TaskService.java:60-67 | an update keeps every row stored under its own id and valid |
| `TaskTable.UpdateReplacesFields` | backend/src/main/java/com/taskmanager/service/TaskService.java:60-67 | an update of a stored id with valid values returns the task with that id and the input's title, description (null included) and status, and changes that row only |
| `TaskTable.UpdateSaves` | backend/src/main/java/com/taskmanager/service/TaskService.java:61-66 | an update of a stored id whose replaced task is valid answers that task and writes it under the id |
| `TaskTable.UpdateRefusesInvalid` | backend/src/main/java/com/taskmanager/service/TaskService.java:60-67 | an update with values that break a constraint is refused and writes nothing |
| `TaskTable.UpdateMissingIsNoop` | backend/src/main/java/com/taskmanager/service/TaskService.java:61-67 | an update of a missing id answers absent and neither writes nor creates a row |
| `TaskTable.UpdateIgnoresInputId` | backend/src/main/java/com/taskmanager/service/TaskService.java:62-65 | the id carried by the update's input has no effect |
| `TaskTable.UpdateIdempotent` | backend/src/main/java/com/taskmanager/service/TaskService.java:60-67 | sending the same update twice gives the same answer and table as sending it once |
| `TaskTable.DeleteKeepsWellFormed` | backend/src/main/java/com/taskmanager/service/TaskService.java:76-82 | a delete keeps every row stored under its own id and valid |
| `TaskTable.DeleteReportsPresence` | backend/src/main/java/com/taskmanager/service/TaskService.java:76-82 | delete answers true iff the id was stored; afterwards the id is gone, every other row is unchanged, and a false answer means nothing changed |
| `TaskTable.SecondDeleteReportsFalse` | backend/src/main/java/com/taskmanager/service/TaskService.java:76-82 | deleting the same id a second time answers false and changes nothing |
| `TaskTable.CreateUpdateDeleteSession` | backend/src/main/java/com/taskmanager/service/TaskService.java:49-82 | create with a title only (status TODO), full update, delete: each answer is as stated, the id is not found in the table the delete leaves, and that table is the one the session started from |
| `TaskTable.ExampleSession` | backend/src/main/java/com/taskmanager/service/TaskService.java:49-82 | the same session with "Buy milk", then "Buy milk and eggs" / "urgent" / DONE; after the delete the id is not found |
| `Repository.TaskRepository.constructor` | backend/src/main/java/com/taskmanager/repository/TaskRepository.java:12 | the repository starts from a well-formed table |
| `Repository.TaskRepository.FindAll` | backend/src/main/java/com/taskmanager/repository/TaskRepository.java:12 | findAll lists the table: one entry per row, each the row under its own id, no id twice |
| `Repository.TaskRepository.FindById` | backend/src/main/java/com/taskmanager/repository/TaskRepository.java:12 | findById answers the row under the id or absent; a found task carries that id and is valid |
| `Repository.TaskRepository.ExistsById` | backend/src/main/java/com/taskmanager/repository/TaskRepository.java:12 | existsById answers whether the id is stored |
| `Repository.TaskRepository.Save` | backend/src/main/java/com/taskmanager/repository/TaskRepository.java:12 | save refuses an invalid task, inserts a task without id under the fresh id, upserts one with an id; the answer and new table are those of SaveStep |
| `Repository.TaskRepository.DeleteById` | backend/src/main/java/com/taskmanager/repository/TaskRepository.java:12 | deleteById removes the id's row, and nothing when there is none |
| `Service.TaskService.constructor` | backend/src/main/java/com/taskmanager/service/TaskService.java:19-22 | the service holds the injected repository |
| `Service.TaskService.GetAllTasks` | backend/src/main/java/com/taskmanager/service/TaskService.java:29-31 | returns as many tasks as there are rows, each stored under its own id, and every stored task among them; changes nothing |
| `Service.TaskService.GetTaskById` | backend/src/main/java/com/taskmanager/service/TaskService.java:39-41 | returns the stored task iff the id is stored, that task carrying the id; changes nothing |
| `Service.TaskService.CreateTask` | backend/src/main/java/com/taskmanager/service/TaskService.java:49-51 | answer and new table are those of SaveStep on the old table; the table stays well formed |
| `Service.TaskService.UpdateTask` | backend/src/main/java/com/taskmanager/service/TaskService.java:60-67 | answer and new table are those of UpdateStep on the old table; the table stays well formed |
| `Service.TaskService.DeleteTask` | backend/src/main/java/com/taskmanager/service/TaskService.java:76-82 | answer and new table are those of DeleteStep on the old table; the table stays well formed |

## Left out

- The HTTP controller, routing and status codes (201, 204, 400, 404). The controller is not part of this model. Its request-body validation is folded into the guard in `Save`. The order of checks therefore differs for an update of a missing id with invalid values: the model answers absent (`TaskTable.UpdateMissingIsNoop`), while a check on the request body would reject the request first.
- The frontend (React component and HTTP client): user interface and network I/O.
- JPA and Hibernate internals: the persistence context, flushing, and transactions. A refused save is modelled as writing nothing, which is what the rollback gives.
- TaskTable.CreateWithIdUpserts, Repository.TaskRepository.Save: for a task carrying an id that is NOT stored, the model inserts it under that id. In the code, save merges such a task, and the merge either inserts it under a newly generated id or is rejected, depending on the persistence provider's version. The model treats save as a plain upsert under the given id, so it does not capture that case.
- Random UUID generation. The fresh id is a parameter that the caller guarantees is unused.
- Store failures (I/O, connectivity), which the code only propagates.
- Concurrency. With no locking, overlapping updates are last-write-wins. The model is sequential.
- Aliasing of the fetched entity. `updateTask` mutates the fetched entity through setters. The model copies a value with the three fields replaced, which is observably the same because the entity is saved right after.
- TaskModel.NotBlank: characters are Dafny `char`s, not UTF-16 code units. Blankness follows `trim()`, so only characters up to U+0020 count as blank and other Unicode whitespace does not.
- TaskModel.DescriptionFits: the 1000 limit is counted in `char`s, not in the database column's own units.
- Lombok-generated `equals`, `hashCode` and `toString`, and the setters outside `updateTask`. The service does not use them.
