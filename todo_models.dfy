/** The todo application's data: the `todos` table, the request body the
    handlers accept, the caller identity the token validator yields, and the
    database session the handlers work through. */
module TodoModels {

  import opened Http
  import opened Validation

  /** A row of the `todos` table. `owner_id` is a nullable foreign key to
      `users.id`: the draft application creates rows without one. */
  datatype Todo = Todo(
    id: int,
    title: string,
    description: string,
    priority: int,
    complete: bool,
    ownerId: Option<int>)

  /** The body of a create or update request. */
  datatype TodoRequest = TodoRequest(
    title: string,
    description: string,
    priority: int,
    complete: bool)

  const TodoTitleRule := LengthRule(3, None)
  const TodoDescriptionRule := LengthRule(3, Some(100))

  /** The `Field` constraints of `TodoRequest`, checked before any handler runs.
      The router and the draft application declare the same four fields. */
  predicate ValidTodoRequest(req: TodoRequest)
  {
    && FitsLength(req.title, TodoTitleRule)
    && FitsLength(req.description, TodoDescriptionRule)
    && FitsRange(req.priority, OneToFive)
  }

  lemma TodoRequestConstraints(req: TodoRequest)
    ensures ValidTodoRequest(req) <==>
      && |req.title| >= 3
      && 3 <= |req.description| <= 100
      && 1 <= req.priority <= 5
  {
  }

  /** The decoded token: username, user id and role. Handlers receive it, or
      nothing when no user could be established. */
  datatype Identity = Identity(username: string, id: int, role: string)

  /** `Todos.owner_id == user.get("id")`; a row with no owner matches nobody. */
  predicate OwnedBy(t: Todo, caller: Identity)
  {
    t.ownerId == Some(caller.id)
  }

  /** `db.query(Todos).filter(Todos.id == id).first()`. */
  function QueryById(rows: map<int, Todo>, id: int): (r: Option<Todo>)
  {
    if id in rows then Some(rows[id]) else None
  }

  /** The same query with `.filter(Todos.owner_id == user.get("id"))` added. */
  function QueryOwned(rows: map<int, Todo>, id: int, caller: Identity): (r: Option<Todo>)
  {
    if id in rows && OwnedBy(rows[id], caller) then Some(rows[id]) else None
  }

  /** What one caller's operation may do to the table: every row the caller
      does not own is still there and unchanged, and every row that is new or
      different afterwards belongs to the caller. */
  ghost predicate OthersUntouched(caller: Identity, before: map<int, Todo>, after: map<int, Todo>)
  {
    && (forall k :: k in before && !OwnedBy(before[k], caller) ==> k in after && after[k] == before[k])
    && (forall k :: k in after && !(k in before && after[k] == before[k]) ==> OwnedBy(after[k], caller))
  }

  /** The database session. `rows` is the committed contents of the `todos`
      table, keyed by primary key; `add` followed by `commit` and a bulk
      `delete` followed by `commit` are its two writes. */
  class Session {
    var rows: map<int, Todo>

    /** Each row is stored under its own primary key. */
    ghost predicate Valid()
      reads this
    {
      forall k :: k in rows ==> rows[k].id == k
    }

    /** `db.add(t)` then `db.commit()`: inserts the row, or overwrites the
        row that has its primary key. */
    method Add(t: Todo)
      requires Valid()
      modifies this
      ensures Valid()
      ensures rows == old(rows)[t.id := t]
    {
      rows := rows[t.id := t];
    }

    /** `db.query(Todos).filter(Todos.id == id).delete()` then `db.commit()`. */
    method DeleteById(id: int)
      requires Valid()
      modifies this
      ensures Valid()
      ensures rows == old(rows) - {id}
    {
      rows := rows - {id};
    }
  }
}
