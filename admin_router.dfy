/** The admin router: unscoped, and open only to a caller whose role is
    `"admin"`; anyone else, including a missing identity, gets 401. */
module AdminRouter {

  import opened Http
  import opened TodoModels

  /** `user is not None and user.get('role') == 'admin'`. */
  predicate IsAdmin(user: Option<Identity>)
  {
    user.Some? && user.value.role == "admin"
  }

  /** `read_all`: every todo of every owner, for an admin only. */
  function ReadAll(user: Option<Identity>, rows: map<int, Todo>): (r: Result<map<int, Todo>>)
    ensures r.Err? <==> !IsAdmin(user)
    ensures r.Err? ==> r.error == Unauthorized
    ensures r.Ok? ==> forall k :: k in rows ==> k in r.value && r.value[k] == rows[k]
    ensures r.Ok? ==> r.value.Keys <= rows.Keys
  {
    if !IsAdmin(user) then Err(Unauthorized) else Ok(rows)
  }

  /** `delete_todo`: for an admin, removes the todo with that id whoever owns
      it, or answers 404 when there is none; for anyone else, 401 before any
      lookup. The table is unchanged on every error. */
  method DeleteTodo(user: Option<Identity>, db: Session, todoId: int) returns (r: Outcome)
    requires db.Valid() && todoId > 0
    modifies db
    ensures db.Valid()
    ensures !IsAdmin(user) ==> r == Failed(Unauthorized)
    ensures IsAdmin(user) ==> (r == Done <==> todoId in old(db.rows))
    ensures IsAdmin(user) && r.Failed? ==> r.error == NotFound
    ensures r.Failed? ==> db.rows == old(db.rows)
    ensures r == Done ==> db.rows == old(db.rows) - {todoId}
  {
    if !IsAdmin(user) {
      return Failed(Unauthorized);
    }
    var found := QueryById(db.rows, todoId);
    if found.None? {
      return Failed(NotFound);
    }
    db.DeleteById(todoId);
    return Done;
  }
}
