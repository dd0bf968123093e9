/** The owner-scoped todo router. Every handler first rejects a missing
    identity with 401, then filters every query by `owner_id == caller.id`, so
    a caller never reads, changes or deletes a todo that another user owns. */
module TodosRouter {

  import opened Http
  import opened TodoModels

  /** `read_all`: the caller's todos, and no other. */
  function ReadAll(user: Option<Identity>, rows: map<int, Todo>): (r: Result<map<int, Todo>>)
    ensures r.Err? <==> user.None?
    ensures r.Err? ==> r.error == Unauthorized
    ensures r.Ok? ==> forall k :: k in r.value <==> k in rows && OwnedBy(rows[k], user.value)
    ensures r.Ok? ==> forall k :: k in r.value ==> r.value[k] == rows[k]
  {
    if user.None? then Err(Unauthorized)
    else Ok(map k | k in rows && OwnedBy(rows[k], user.value) :: rows[k])
  }

  /** `read_todo`: the todo with that id if the caller owns it; 404 otherwise,
      also when the id exists under another owner. */
  function ReadTodo(user: Option<Identity>, rows: map<int, Todo>, id: int): (r: Result<Todo>)
    requires id > 0
    ensures user.None? ==> r == Err(Unauthorized)
    ensures user.Some? ==> (r.Ok? <==> id in rows && OwnedBy(rows[id], user.value))
    ensures user.Some? && r.Err? ==> r.error == NotFound
    ensures r.Ok? ==> r.value == rows[id]
  {
    if user.None? then Err(Unauthorized)
    else
      match QueryOwned(rows, id, user.value)
      case None => Err(NotFound)
      case Some(t) => Ok(t)
  }

  /** `create_todo`: stores the request's four fields under the id the
      database assigns (`newId`, not yet in the table), owned by the caller;
      the caller can read the new todo back. */
  method CreateTodo(user: Option<Identity>, db: Session, req: TodoRequest, newId: int) returns (r: Result<Todo>)
    requires db.Valid() && ValidTodoRequest(req)
    requires newId > 0 && newId !in db.rows
    modifies db
    ensures db.Valid()
    ensures user.None? ==> r == Err(Unauthorized) && db.rows == old(db.rows)
    ensures user.Some? ==>
      && r == Ok(Todo(newId, req.title, req.description, req.priority, req.complete, Some(user.value.id)))
      && db.rows == old(db.rows)[newId := r.value]
      && ReadTodo(user, db.rows, newId) == r
      && OthersUntouched(user.value, old(db.rows), db.rows)
  {
    if user.None? {
      return Err(Unauthorized);
    }
    var todo := Todo(newId, req.title, req.description, req.priority, req.complete, Some(user.value.id));
    db.Add(todo);
    return Ok(todo);
  }

  /** `update_todo`: 404 unless the caller owns a todo with that id; otherwise
      overwrites its title, description, priority and completion flag, keeping
      its id and owner, and touches no other row. */
  method UpdateTodo(user: Option<Identity>, db: Session, req: TodoRequest, id: int) returns (r: Result<Todo>)
    requires db.Valid() && ValidTodoRequest(req) && id > 0
    modifies db
    ensures db.Valid()
    ensures user.None? ==> r == Err(Unauthorized)
    ensures user.Some? ==> (r.Ok? <==> id in old(db.rows) && OwnedBy(old(db.rows)[id], user.value))
    ensures user.Some? && r.Err? ==> r.error == NotFound
    ensures r.Err? ==> db.rows == old(db.rows)
    ensures r.Ok? ==>
      && r.value == Todo(id, req.title, req.description, req.priority, req.complete, old(db.rows)[id].ownerId)
      && db.rows == old(db.rows)[id := r.value]
      && ReadTodo(user, db.rows, id) == r
    ensures user.Some? ==> OthersUntouched(user.value, old(db.rows), db.rows)
  {
    if user.None? {
      return Err(Unauthorized);
    }
    var found := QueryOwned(db.rows, id, user.value);
    if found.None? {
      return Err(NotFound);
    }
    var todo := found.value;
    todo := todo.(title := req.title);
    todo := todo.(description := req.description);
    todo := todo.(priority := req.priority);
    todo := todo.(complete := req.complete);
    db.Add(todo);
    return Ok(todo);
  }

  /** `delete_todo`: 404 unless the caller owns a todo with that id; otherwise
      removes that todo and no other. */
  method DeleteTodo(user: Option<Identity>, db: Session, id: int) returns (r: Outcome)
    requires db.Valid() && id > 0
    modifies db
    ensures db.Valid()
    ensures user.None? ==> r == Failed(Unauthorized)
    ensures user.Some? ==> (r == Done <==> id in old(db.rows) && OwnedBy(old(db.rows)[id], user.value))
    ensures user.Some? && r.Failed? ==> r.error == NotFound
    ensures r.Failed? ==> db.rows == old(db.rows)
    ensures r == Done ==> db.rows == old(db.rows) - {id} && ReadTodo(user, db.rows, id) == Err(NotFound)
    ensures user.Some? ==> OthersUntouched(user.value, old(db.rows), db.rows)
  {
    if user.None? {
      return Failed(Unauthorized);
    }
    var found := QueryOwned(db.rows, id, user.value);
    if found.None? {
      return Failed(NotFound);
    }
    db.DeleteById(id);
    return Done;
  }
}
