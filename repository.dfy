/** The task repository: a keyed table of tasks updated in place, offering
    the five operations the service uses (findAll, findById, existsById,
    save, deleteById). */
module Repository {
  import opened Wrappers
  import opened TaskModel
  import opened TaskTable

  class TaskRepository {
    var rows: Table

    ghost predicate Valid()
      reads this
    {
      WellFormed(rows)
    }

    constructor (initial: Table)
      requires WellFormed(initial)
      ensures Valid() && rows == initial
    {
      rows := initial;
    }

    /** findAll: every stored task once, in no particular order. */
    method FindAll() returns (r: seq<Task>)
      requires Valid()
      ensures Lists(r, rows)
    {
      r := [];
      var pending := rows.Keys;
      while pending != {}
        invariant pending <= rows.Keys
        invariant |r| + |pending| == |rows|
        invariant forall i :: 0 <= i < |r| ==>
                    r[i].id.Some? && r[i].id.value in rows && r[i].id.value !in pending && rows[r[i].id.value] == r[i]
        invariant forall i, j :: 0 <= i < j < |r| ==> r[i].id != r[j].id
        decreases pending
      {
        var k :| k in pending;
        r := r + [rows[k]];
        pending := pending - {k};
      }
    }

    /** findById. */
    method FindById(id: Uuid) returns (r: Option<Task>)
      requires Valid()
      ensures r == Lookup(rows, id)
      ensures r.Some? ==> r.value.id == Some(id) && TaskModel.Valid(r.value)
    {
      if id in rows {
        r := Some(rows[id]);
      } else {
        r := None;
      }
    }

    /** existsById. */
    method ExistsById(id: Uuid) returns (b: bool)
      ensures b <==> id in rows
    {
      b := id in rows;
    }

    /** save: newId is the identifier the generator hands out when t has none. */
    method Save(t: Task, newId: Uuid) returns (r: Result<Task, Error>)
      requires Valid()
      requires t.id.None? ==> newId !in rows
      modifies this
      ensures Valid()
      ensures Step(r, rows) == SaveStep(old(rows), t, newId)
    {
      SaveKeepsWellFormed(rows, t, newId);
      if !TaskModel.Valid(t) {
        r := Failure(ConstraintViolation);
      } else if t.id.None? {
        var saved := t.(id := Some(newId));
        rows := rows[newId := saved];
        r := Success(saved);
      } else {
        rows := rows[t.id.value := t];
        r := Success(t);
      }
    }

    /** deleteById: removes the row, and does nothing when there is none. */
    method DeleteById(id: Uuid)
      requires Valid()
      modifies this
      ensures Valid()
      ensures rows == old(rows) - {id}
    {
      rows := rows - {id};
    }
  }
}
