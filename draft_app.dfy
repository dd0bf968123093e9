/** The first draft of the todo application: the same handlers with no
    authentication and no owner, so every query is unscoped. */
module DraftApp {

  import opened Http
  import opened TodoModels

  /** `read_all`: every todo in the table. */
  function ReadAll(rows: map<int, Todo>): (r: map<int, Todo>)
    ensures forall k :: k in rows ==> k in r && r[k] == rows[k]
    ensures r.Keys <= rows.Keys
  {
    rows
  }

  /** `read_todo`: the todo with that id, 404 exactly when there is none. */
  function ReadTodo(rows: map<int, Todo>, id: int): (r: Result<Todo>)
    requires id > 0
    ensures r.Ok? <==> id in rows
    ensures r.Ok? ==> r.value == rows[id]
    ensures r.Err? ==> r.error == NotFound
  {
    match QueryById(rows, id)
    case None => Err(NotFound)
    case Some(t) => Ok(t)
  }

  /** `create_todo`: stores the request's four fields under the id the
      database assigns, with no owner. */
  method CreateTodo(db: Session, req: TodoRequest, newId: int) returns (t: Todo)
    requires db.Valid() && ValidTodoRequest(req)
    requires newId > 0 && newId !in db.rows
    modifies db
    ensures db.Valid()
    ensures t == Todo(newId, req.title, req.description, req.priority, req.complete, None)
    ensures db.rows == old(db.rows)[newId := t]
    ensures ReadTodo(db.rows, newId) == Ok(t)
  {
    t := Todo(newId, req.title, req.description, req.priority, req.complete, None);
    db.Add(t);
  }

  /** `update_todo`: 404 when no todo has that id; otherwise overwrites its
      four request fields and nothing else. */
  method UpdateTodo(db: Session, req: TodoRequest, id: int) returns (r: Result<Todo>)
    requires db.Valid() && ValidTodoRequest(req) && id > 0
    modifies db
    ensures db.Valid()
    ensures r.Ok? <==> id in old(db.rows)
    ensures r.Err? ==> r.error == NotFound && db.rows == old(db.rows)
    ensures r.Ok? ==>
      && r.value == Todo(id, req.title, req.description, req.priority, req.complete, old(db.rows)[id].ownerId)
      && db.rows == old(db.rows)[id := r.value]
      && ReadTodo(db.rows, id) == r
  {
    var found := QueryById(db.rows, id);
    if found.None? {
      return Err(NotFound);
    }
    var todo := found.value;
    todo := todo.(title := req.title);
    todo := todo.(description := req.description);
    todo := todo.(priority := req.priority);
    todo := todo.(complete := req.complete);
    db.Add(todo);
    return Ok(todo);
  }

  /** `delete_todo`: 404 when no todo has that id; otherwise removes that todo
      only. The handler also declares a `TodoRequest` body, which it never
      reads but which must still pass validation. */
  method DeleteTodo(db: Session, req: TodoRequest, id: int) returns (r: Outcome)
    requires db.Valid() && ValidTodoRequest(req) && id > 0
    modifies db
    ensures db.Valid()
    ensures r == Done <==> id in old(db.rows)
    ensures r.Failed? ==> r.error == NotFound && db.rows == old(db.rows)
    ensures r == Done ==> db.rows == old(db.rows) - {id} && ReadTodo(db.rows, id) == Err(NotFound)
  {
    var found := QueryById(db.rows, id);
    if found.None? {
      return Failed(NotFound);
    }
    db.DeleteById(id);
    return Done;
  }
}
