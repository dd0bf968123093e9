/** How the three variants of the todo handlers relate. They run the same
    queries and differ only in scoping: the draft is unscoped and ownerless,
    the admin router is unscoped behind a role check, and the owner-scoped
    router sees exactly the caller's part of what the other two see. */
module Scoping {

  import opened Http
  import opened TodoModels
  import TodosRouter
  import AdminRouter
  import DraftApp

  /** A todo owned by someone else is invisible to the caller: `read_todo`
      answers 404 for it and `read_all` leaves it out. */
  lemma OtherOwnersTodoIsInvisible(caller: Identity, rows: map<int, Todo>, id: int)
    requires id > 0 && id in rows && !OwnedBy(rows[id], caller)
    ensures TodosRouter.ReadTodo(Some(caller), rows, id) == Err(NotFound)
    ensures id !in TodosRouter.ReadAll(Some(caller), rows).value
  {
  }

  /** Two different users' views of the table share no todo. */
  lemma ScopedViewsAreDisjoint(u: Identity, v: Identity, rows: map<int, Todo>)
    requires u.id != v.id
    ensures TodosRouter.ReadAll(Some(u), rows).value.Keys !! TodosRouter.ReadAll(Some(v), rows).value.Keys
  {
  }

  /** The admin's `read_all` and the draft's `read_all` return the same table. */
  lemma AdminViewIsDraftView(admin: Identity, rows: map<int, Todo>)
    requires AdminRouter.IsAdmin(Some(admin))
    ensures AdminRouter.ReadAll(Some(admin), rows) == Ok(DraftApp.ReadAll(rows))
  {
  }

  /** The scoped `read_all` is the admin's view restricted to the caller's
      todos: scoping only removes rows, it never alters one. */
  lemma ScopedViewIsOwnedPartOfAdminView(caller: Identity, admin: Identity, rows: map<int, Todo>)
    requires AdminRouter.IsAdmin(Some(admin))
    ensures
      var all := AdminRouter.ReadAll(Some(admin), rows).value;
      TodosRouter.ReadAll(Some(caller), rows).value == map k | k in all && OwnedBy(all[k], caller) :: all[k]
  {
  }

  /** The scoped `read_todo` is the draft's `read_todo` with ownership
      checked: the same todo when the caller owns it, 404 otherwise. */
  lemma ScopedReadIsOwnedDraftRead(caller: Identity, rows: map<int, Todo>, id: int)
    requires id > 0
    ensures TodosRouter.ReadTodo(Some(caller), rows, id) ==
      match DraftApp.ReadTodo(rows, id)
      case Ok(t) => if OwnedBy(t, caller) then Ok(t) else Err(NotFound)
      case Err(e) => Err(e)
  {
  }

  /** User `a` creates a todo; user `b` then can neither read, update nor
      delete it (each answers 404 and the table stays as `a` left it), while
      `a` reads it back with `a` as its owner. */
  method CrossOwnerScenario(a: Identity, b: Identity, db: Session, req: TodoRequest, change: TodoRequest, newId: int)
    returns (created: Todo, updated: Result<Todo>, deleted: Outcome)
    requires a.id != b.id
    requires db.Valid() && ValidTodoRequest(req) && ValidTodoRequest(change)
    requires newId > 0 && newId !in db.rows
    modifies db
    ensures db.Valid()
    ensures created.ownerId == Some(a.id) && created.title == req.title
    ensures updated == Err(NotFound) && deleted == Failed(NotFound)
    ensures db.rows == old(db.rows)[newId := created]
    ensures TodosRouter.ReadTodo(Some(b), db.rows, newId) == Err(NotFound)
    ensures TodosRouter.ReadTodo(Some(a), db.rows, newId) == Ok(created)
  {
    var c := TodosRouter.CreateTodo(Some(a), db, req, newId);
    created := c.value;
    updated := TodosRouter.UpdateTodo(Some(b), db, change, newId);
    deleted := TodosRouter.DeleteTodo(Some(b), db, newId);
  }
}
