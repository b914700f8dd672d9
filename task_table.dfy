/** The task table as a value: what each repository and service step does to
    a map from id to task, and what it answers. The classes in Repository and
    Service are proved to behave as these functions say. */
module TaskTable {
  import opened Wrappers
  import opened TaskModel

  type Table = map<Uuid, Task>

  /** Why a save is refused: the task breaks a constraint of the entity. */
  datatype Error = ConstraintViolation

  /** What a step answers, and the table after it. */
  datatype Step<R> = Step(reply: R, after: Table)

  /** Every row is stored under its own id and meets the entity's constraints. */
  ghost predicate WellFormed(m: Table)
  {
    forall k :: k in m ==> m[k].id == Some(k) && Valid(m[k])
  }

  /** findById. */
  function Lookup(m: Table, id: Uuid): Option<Task>
  {
    if id in m then Some(m[id]) else None
  }

  /** save: a task that breaks a constraint is refused and nothing is written;
      a task without an id is inserted under newId, the identifier the
      generator hands out, which must be unused; a task with an id is written
      under that id, replacing any row there. */
  function SaveStep(m: Table, t: Task, newId: Uuid): Step<Result<Task, Error>>
    requires t.id.None? ==> newId !in m
  {
    if !Valid(t) then Step(Failure(ConstraintViolation), m)
    else if t.id.None? then
      var saved := t.(id := Some(newId));
      Step(Success(saved), m[newId := saved])
    else
      Step(Success(t), m[t.id.value := t])
  }

  /** The three setters updateTask applies to the fetched task. */
  function Replace(existing: Task, input: Task): Task
  {
    existing.(title := input.title, description := input.description, status := input.status)
  }

  /** updateTask: a missing id answers "absent" and writes nothing; otherwise
      the stored task gets the input's title, description and status and is
      saved. */
  function UpdateStep(m: Table, id: Uuid, input: Task): Step<Result<Option<Task>, Error>>
    requires WellFormed(m)
  {
    if id !in m then Step(Success(None), m)
    else
      var s := SaveStep(m, Replace(m[id], input), id);
      match s.reply
      case Success(t) => Step(Success(Some(t)), s.after)
      case Failure(e) => Step(Failure(e), s.after)
  }

  /** deleteTask: existsById, then deleteById only when it exists. */
  function DeleteStep(m: Table, id: Uuid): Step<bool>
  {
    if id in m then Step(true, m - {id}) else Step(false, m)
  }

  /** r lists the table: one entry per row, each the row stored under its own
      id, no id twice. */
  ghost predicate Lists(r: seq<Task>, m: Table)
  {
    && |r| == |m|
    && (forall i :: 0 <= i < |r| ==> r[i].id.Some? && r[i].id.value in m && m[r[i].id.value] == r[i])
    && (forall i, j :: 0 <= i < j < |r| ==> r[i].id != r[j].id)
  }

  /** The ids of the first n entries of a listing. */
  ghost function ListedIds(r: seq<Task>, n: nat): set<Uuid>
    requires n <= |r|
    requires forall i :: 0 <= i < |r| ==> r[i].id.Some?
  {
    set i | 0 <= i < n :: r[i].id.value
  }

  lemma {:induction false} ListedIdsCount(r: seq<Task>, n: nat)
    requires n <= |r|
    requires forall i :: 0 <= i < |r| ==> r[i].id.Some?
    requires forall i, j :: 0 <= i < j < |r| ==> r[i].id != r[j].id
    ensures |ListedIds(r, n)| == n
  {
    if n > 0 {
      ListedIdsCount(r, n - 1);
      assert ListedIds(r, n) == ListedIds(r, n - 1) + {r[n - 1].id.value};
      assert r[n - 1].id.value !in ListedIds(r, n - 1);
    }
  }

  /** A listing leaves no row out: every stored task appears in it. */
  lemma ListsEveryRow(r: seq<Task>, m: Table)
    requires Lists(r, m)
    ensures forall k :: k in m ==> m[k] in r
  {
    var ids := ListedIds(r, |r|);
    ListedIdsCount(r, |r|);
    assert ids <= m.Keys;
    if ids != m.Keys {
      var k :| k in m.Keys && k !in ids;
      assert ids <= m.Keys - {k};
      SubsetCard(ids, m.Keys - {k});
      assert false;
    }
    forall k | k in m ensures m[k] in r {
      assert k in ids;
      var i :| 0 <= i < |r| && r[i].id.value == k;
      assert r[i] == m[k];
    }
  }

  lemma {:induction false} SubsetCard<T>(a: set<T>, b: set<T>)
    requires a <= b
    ensures |a| <= |b|
  {
    if a != {} {
      var x :| x in a;
      SubsetCard(a - {x}, b - {x});
    }
  }

  /** Every step keeps the table well formed. */
  lemma SaveKeepsWellFormed(m: Table, t: Task, newId: Uuid)
    requires WellFormed(m)
    requires t.id.None? ==> newId !in m
    ensures WellFormed(SaveStep(m, t, newId).after)
  {
    if Valid(t) {
      var key := if t.id.None? then newId else t.id.value;
      var saved := if t.id.None? then t.(id := Some(newId)) else t;
      assert SaveStep(m, t, newId).after == m[key := saved];
      forall k | k in m[key := saved] ensures m[key := saved][k].id == Some(k) && Valid(m[key := saved][k]) {
        if k != key {
          assert m[key := saved][k] == m[k];
        }
      }
    }
  }

  lemma UpdateKeepsWellFormed(m: Table, id: Uuid, input: Task)
    requires WellFormed(m)
    ensures WellFormed(UpdateStep(m, id, input).after)
  {
  }

  lemma DeleteKeepsWellFormed(m: Table, id: Uuid)
    requires WellFormed(m)
    ensures WellFormed(DeleteStep(m, id).after)
  {
  }

  /** findById answers the row stored under the id, and absent when there is none. */
  lemma LookupFinds(m: Table, id: Uuid)
    requires WellFormed(m)
    ensures Lookup(m, id).Some? <==> id in m
    ensures Lookup(m, id).Some? ==>
              Lookup(m, id).value == m[id] && Lookup(m, id).value.id == Some(id) && Valid(Lookup(m, id).value)
  {
  }

  /** createTask of a new task (no id) that meets the constraints adds exactly
      one row, under the fresh id, holding the input's title, description and
      status; every other row is as before. */
  lemma CreateAddsOneRow(m: Table, t: Task, newId: Uuid)
    requires t.id.None? && newId !in m && Valid(t)
    ensures var s := SaveStep(m, t, newId);
      && s.reply.Success?
      && s.reply.value.id == Some(newId)
      && s.reply.value.title == t.title
      && s.reply.value.description == t.description
      && s.reply.value.status == t.status
      && s.after.Keys == m.Keys + {newId}
      && |s.after| == |m| + 1
      && Lookup(s.after, newId) == Some(s.reply.value)
      && (forall k :: k in m ==> s.after[k] == m[k])
  {
  }

  /** A task that breaks a constraint (for instance a blank title) is refused
      and nothing is written. */
  lemma SaveRefusesInvalid(m: Table, t: Task, newId: Uuid)
    requires t.id.None? ==> newId !in m
    ensures !Valid(t) <==> SaveStep(m, t, newId).reply.Failure?
    ensures !Valid(t) ==> SaveStep(m, t, newId).after == m
  {
  }

  /** Saving a task built by the three-argument constructor succeeds exactly
      when its title is non-blank, its description fits and its status is not
      null, and then adds it under the fresh id; a task from the no-argument
      constructor is always refused, since its title is null. */
  lemma ConstructedTaskSaves(m: Table, title: Option<string>, description: Option<string>,
                             status: Option<TaskStatus>, newId: Uuid)
    requires newId !in m
    ensures SaveStep(m, MakeTask(title, description, status), newId).reply.Success?
      <==> NotBlank(title) && DescriptionFits(description) && status.Some?
    ensures SaveStep(m, MakeTask(title, description, status), newId).reply.Success? ==>
              SaveStep(m, MakeTask(title, description, status), newId)
                == Step(Success(Task(Some(newId), title, description, status)),
                        m[newId := Task(Some(newId), title, description, status)])
    ensures SaveStep(m, NewTask(), newId) == Step(Failure(ConstraintViolation), m)
  {
  }

  /** createTask of a task that already carries an id writes it under that id:
      it replaces the row there, or adds one when there is none. */
  lemma CreateWithIdUpserts(m: Table, t: Task, newId: Uuid)
    requires t.id.Some? && Valid(t)
    ensures var s := SaveStep(m, t, newId);
      && s.reply == Success(t)
      && s.after.Keys == m.Keys + {t.id.value}
      && s.after[t.id.value] == t
      && (forall k :: k in m && k != t.id.value ==> s.after[k] == m[k])
  {
  }

  /** Adding a new task and then deleting it under its new id gives back the
      table it started from. */
  lemma {:induction false} DeleteUndoesCreate(m: Table, t: Task, newId: Uuid)
    requires t.id.None? && newId !in m && Valid(t)
    ensures DeleteStep(SaveStep(m, t, newId).after, newId) == Step(true, m)
  {
    var after := SaveStep(m, t, newId).after;
    assert after - {newId} == m;
  }

  /** updateTask on a present id replaces title, description and status with
      the input's (a null description included), keeps the id, and touches no
      other row; the input's own id plays no part. */
  lemma UpdateReplacesFields(m: Table, id: Uuid, input: Task)
    requires WellFormed(m) && id in m
    requires NotBlank(input.title) && DescriptionFits(input.description) && input.status.Some?
    ensures var s := UpdateStep(m, id, input);
      && s.reply.Success? && s.reply.value.Some?
      && s.reply.value.value.id == Some(id)
      && s.reply.value.value.title == input.title
      && s.reply.value.value.description == input.description
      && s.reply.value.value.status == input.status
      && s.after == m[id := s.reply.value.value]
      && s.after.Keys == m.Keys
  {
  }

  /** updateTask with values that break a constraint is refused and writes nothing. */
  lemma UpdateRefusesInvalid(m: Table, id: Uuid, input: Task)
    requires WellFormed(m) && id in m
    requires !(NotBlank(input.title) && DescriptionFits(input.description) && input.status.Some?)
    ensures UpdateStep(m, id, input) == Step(Failure(ConstraintViolation), m)
  {
  }

  /** updateTask on a missing id answers absent and neither writes nor creates a row. */
  lemma UpdateMissingIsNoop(m: Table, id: Uuid, input: Task)
    requires WellFormed(m) && id !in m
    ensures UpdateStep(m, id, input) == Step(Success(None), m)
  {
  }

  /** The id carried by the input is ignored. */
  lemma UpdateIgnoresInputId(m: Table, id: Uuid, input: Task, other: Option<Uuid>)
    requires WellFormed(m)
    ensures UpdateStep(m, id, input) == UpdateStep(m, id, input.(id := other))
  {
  }

  /** Sending the same update twice leaves the table as sending it once. */
  lemma {:induction false} UpdateIdempotent(m: Table, id: Uuid, input: Task)
    requires WellFormed(m)
    ensures WellFormed(UpdateStep(m, id, input).after)
    ensures UpdateStep(UpdateStep(m, id, input).after, id, input) == UpdateStep(m, id, input)
  {
    UpdateKeepsWellFormed(m, id, input);
    if id !in m {
      UpdateMissingIsNoop(m, id, input);
    } else if !Valid(Replace(m[id], input)) {
      UpdateRefusesInvalid(m, id, input);
    } else {
      UpdateSavedTwice(m, id, input);
    }
  }

  lemma {:induction false} UpdateSavedTwice(m: Table, id: Uuid, input: Task)
    requires WellFormed(m) && id in m && Valid(Replace(m[id], input))
    ensures WellFormed(m[id := Replace(m[id], input)])
    ensures UpdateStep(m[id := Replace(m[id], input)], id, input) == UpdateStep(m, id, input)
  {
    var t := Replace(m[id], input);
    var once := m[id := t];
    UpdateSaves(m, id, input);
    UpdateKeepsWellFormed(m, id, input);
    assert Replace(once[id], input) == t;
    UpdateSaves(once, id, input);
    assert once[id := t] == once;
  }

  /** updateTask on a present id with values that meet the constraints. */
  lemma UpdateSaves(m: Table, id: Uuid, input: Task)
    requires WellFormed(m) && id in m && Valid(Replace(m[id], input))
    ensures UpdateStep(m, id, input)
      == Step(Success(Some(Replace(m[id], input))), m[id := Replace(m[id], input)])
  {
  }

  /** deleteTask answers whether the id was there; afterwards it is gone and
      every other row is as before. */
  lemma DeleteReportsPresence(m: Table, id: Uuid)
    ensures var s := DeleteStep(m, id);
      && (s.reply <==> id in m)
      && id !in s.after
      && s.after.Keys == m.Keys - {id}
      && (forall k :: k in s.after ==> s.after[k] == m[k])
      && (!s.reply ==> s.after == m)
  {
  }

  /** Deleting the same id twice: the second delete answers false and changes nothing. */
  lemma {:induction false} SecondDeleteReportsFalse(m: Table, id: Uuid)
    ensures var once := DeleteStep(m, id).after;
      DeleteStep(once, id) == Step(false, once)
  {
    DeleteReportsPresence(m, id);
  }

  /** A session: create a task giving only its title (the status defaults to
      TODO), update it with new title, description and status, then delete
      it; the delete reports true, the id is no longer found and the table is
      back where it started. */
  lemma {:induction false} CreateUpdateDeleteSession(m: Table, x: Uuid, title: string, change: Task)
    requires WellFormed(m) && x !in m
    requires NotBlank(Some(title))
    requires NotBlank(change.title) && DescriptionFits(change.description) && change.status.Some?
    ensures SaveStep(m, NewTask().(title := Some(title)), x)
      == Step(Success(Task(Some(x), Some(title), None, Some(Todo))), m[x := Task(Some(x), Some(title), None, Some(Todo))])
    ensures WellFormed(m[x := Task(Some(x), Some(title), None, Some(Todo))])
    ensures UpdateStep(m[x := Task(Some(x), Some(title), None, Some(Todo))], x, change)
      == Step(Success(Some(change.(id := Some(x)))), m[x := change.(id := Some(x))])
    ensures DeleteStep(m[x := change.(id := Some(x))], x) == Step(true, m)
    ensures Lookup(DeleteStep(m[x := change.(id := Some(x))], x).after, x) == None
  {
    var input := NewTask().(title := Some(title));
    var saved := Task(Some(x), Some(title), None, Some(Todo));
    assert Valid(input);
    CreateAddsOneRow(m, input, x);
    SaveKeepsWellFormed(m, input, x);
    var once := m[x := saved];
    assert SaveStep(m, input, x) == Step(Success(saved), once);
    var final := change.(id := Some(x));
    assert Replace(once[x], change) == final;
    assert Valid(final);
    UpdateSaves(once, x, change);
    assert once[x := final] == m[x := final];
    DeleteUndoesCreate(m, change.(id := None), x);
  }

  /** The example session with concrete values: "Buy milk" created without a
      status, then changed to "Buy milk and eggs", "urgent", DONE, then deleted. */
  lemma ExampleSession(m: Table, x: Uuid)
    requires WellFormed(m) && x !in m
    ensures SaveStep(m, NewTask().(title := Some("Buy milk")), x).reply
      == Success(Task(Some(x), Some("Buy milk"), None, Some(Todo)))
    ensures UpdateStep(m[x := Task(Some(x), Some("Buy milk"), None, Some(Todo))], x,
                       MakeTask(Some("Buy milk and eggs"), Some("urgent"), Some(Done))).reply
      == Success(Some(Task(Some(x), Some("Buy milk and eggs"), Some("urgent"), Some(Done))))
    ensures DeleteStep(m[x := Task(Some(x), Some("Buy milk and eggs"), Some("urgent"), Some(Done))], x).reply
    ensures Lookup(DeleteStep(m[x := Task(Some(x), Some("Buy milk and eggs"), Some("urgent"), Some(Done))], x).after, x)
      == None
  {
    NotBlankIffVisibleChar("Buy milk");
    assert !IsTrimmable("Buy milk"[0]);
    NotBlankIffVisibleChar("Buy milk and eggs");
    assert !IsTrimmable("Buy milk and eggs"[0]);
    CreateUpdateDeleteSession(m, x, "Buy milk", MakeTask(Some("Buy milk and eggs"), Some("urgent"), Some(Done)));
  }
}
