/**
 * The five handlers of the `/users` router over an abstract user table.
 *
 * The table is the map `users` from id to stored fields. Whether a datastore
 * call throws is an input of the handler (`fault: Option<string>` is
 * `Some(message)` when it does), and so are the id a successful `create`
 * assigns and the rows `findMany` returns; everything else a call answers or
 * changes is read off the table (see the handlers' contracts). Ids the
 * datastore has ever handed out are kept in the ghost set `issued`, so that
 * "an id is never reused" can be stated. The ghost log `writes` records every
 * write the handlers send to the datastore.
 */
module UserRoutes {
  import opened Wrappers
  import Validation
  import Pagination

  /** The stored fields of a user; the password is stored as submitted. */
  datatype User = User(email: string, password: string, name: string)

  /** A user as the datastore returns it, with its id. */
  datatype Row = Row(id: int, user: User)

  /** The JSON body of a response. */
  datatype Body =
    | UserJson(row: Row)
    | ValidationErrors(errors: seq<Validation.FieldError>)
    | ErrorJson(error: string)
    | Page(envelope: Pagination.Envelope<Row>)
    | NoContent

  datatype Response = Response(status: int, body: Body)

  /** A write sent to the datastore. */
  datatype WriteCall = CreateCall(user: User) | UpdateCall(id: int) | DeleteCall(id: int)

  const NotFoundMessage: string := "User not found"
  const UpdateFailedMessage: string := "Error updating user"

  /** A body field of an update request: `None` when the request leaves it out. */
  function Supplied(field: Option<string>, current: string): string {
    if field.Some? then field.value else current
  }

  /**
   * The stored user after a successful update with the payload
   * `{ email, password, name }`: a field the body carries replaces the stored
   * one, a field it leaves out (`undefined`) keeps its stored value.
   */
  function Patch(u: User, email: Option<string>, password: Option<string>, name: Option<string>): (r: User)
    ensures email.Some? ==> r.email == email.value
    ensures email.None? ==> r.email == u.email
    ensures password.Some? ==> r.password == password.value
    ensures password.None? ==> r.password == u.password
    ensures name.Some? ==> r.name == name.value
    ensures name.None? ==> r.name == u.name
  {
    User(Supplied(email, u.email), Supplied(password, u.password), Supplied(name, u.name))
  }

  /** Sending the same update twice stores the same user as sending it once. */
  lemma PatchIdempotent(u: User, email: Option<string>, password: Option<string>, name: Option<string>)
    ensures Patch(Patch(u, email, password, name), email, password, name) == Patch(u, email, password, name)
  {
  }

  class UserTable {
    var users: map<int, User>
    ghost var issued: set<int>
    ghost var writes: seq<WriteCall>
    /** The message the datastore throws when asked to delete an absent row. */
    const missingRowMessage: string

    ghost predicate Valid()
      reads this
    {
      users.Keys <= issued
    }

    constructor (missingRowMessage: string)
      ensures Valid()
      ensures users == map[] && issued == {} && writes == []
      ensures this.missingRowMessage == missingRowMessage
    {
      users := map[];
      issued := {};
      writes := [];
      this.missingRowMessage := missingRowMessage;
    }

    /**
     * `POST /users`. A body that fails validation is answered with 400 and
     * the full error array, and nothing is sent to the datastore. Otherwise
     * the datastore is asked to create the user: on success the answer is 201
     * with the new row, on a thrown error 400 with its message.
     */
    method Create(email: string, password: string, name: string, emailIsEmail: bool, inserted: Outcome<int>)
      returns (resp: Response)
      requires Valid()
      requires inserted.Done? ==> inserted.value !in issued
      modifies this
      ensures Valid()
      ensures var errs := Validation.CreateErrors(email, password, name, emailIsEmail);
        if errs != [] then
          resp == Response(400, ValidationErrors(errs)) &&
          users == old(users) && issued == old(issued) && writes == old(writes)
        else
          writes == old(writes) + [CreateCall(User(email, password, name))] &&
          match inserted
          case Threw(m) =>
            resp == Response(400, ErrorJson(m)) && users == old(users) && issued == old(issued)
          case Done(id) =>
            id !in old(users) &&
            users == old(users)[id := User(email, password, name)] &&
            issued == old(issued) + {id} &&
            resp == Response(201, UserJson(Row(id, User(email, password, name))))
      ensures resp.status == 201 ==>
        emailIsEmail && Validation.LongEnough(password) && Validation.NotEmpty(name)
    {
      var errs := Validation.CreateErrors(email, password, name, emailIsEmail);
      if errs != [] {
        return Response(400, ValidationErrors(errs));
      }
      var user := User(email, password, name);
      writes := writes + [CreateCall(user)];
      match inserted {
        case Threw(m) =>
          resp := Response(400, ErrorJson(m));
        case Done(id) =>
          users := users[id := user];
          issued := issued + {id};
          resp := Response(201, UserJson(Row(id, user)));
      }
    }

    /**
     * `GET /users`. `countFault` is the outcome of `count()`, `found` the
     * outcome of `findMany` for the planned skip and take: a slice of at most
     * `take` rows whenever `take` is not negative.
     */
    method List(pageArg: Option<int>, sizeArg: Option<int>, countFault: Option<string>, found: Outcome<seq<Row>>)
      returns (resp: Response)
      requires found.Done? && Pagination.Plan(pageArg, sizeArg).take >= 0 ==>
        |found.value| <= Pagination.Plan(pageArg, sizeArg).take
      ensures countFault.Some? ==> resp == Response(400, ErrorJson(countFault.value))
      ensures countFault.None? && found.Threw? ==> resp == Response(400, ErrorJson(found.message))
      ensures countFault.None? && found.Done? ==>
        resp == Response(200, Page(Pagination.Paginate(pageArg, sizeArg, |users|, found.value)))
      ensures resp.status == 200 <==> countFault.None? && found.Done?
      ensures resp.status == 200 && Pagination.Plan(pageArg, sizeArg).pageSize > 0 ==>
        |resp.body.envelope.users| <= Pagination.Plan(pageArg, sizeArg).pageSize
    {
      var q := Pagination.Plan(pageArg, sizeArg);
      if countFault.Some? {
        return Response(400, ErrorJson(countFault.value));
      }
      var totalUsers := |users|;
      if found.Threw? {
        return Response(400, ErrorJson(found.message));
      }
      var totalPages := Pagination.TotalPages(totalUsers, q.pageSize);
      var nextPage: Option<string> := None;
      var prevPage: Option<string> := None;
      if q.page < totalPages {
        nextPage := Some(Pagination.Link(q.page + 1, q.pageSize));
      }
      if q.page > 1 {
        prevPage := Some(Pagination.Link(q.page - 1, q.pageSize));
      }
      resp := Response(200, Page(Pagination.Envelope(totalUsers, totalPages, q.page, nextPage, prevPage, found.value)));
    }

    /** `GET /users/:id`: the row, 404 when there is none, 400 when the lookup throws. */
    method Get(key: int, fault: Option<string>) returns (resp: Response)
      ensures fault.Some? ==> resp == Response(400, ErrorJson(fault.value))
      ensures fault.None? && key in users ==> resp == Response(200, UserJson(Row(key, users[key])))
      ensures fault.None? && key !in users ==> resp == Response(404, ErrorJson(NotFoundMessage))
      ensures resp.status == 200 <==> fault.None? && key in users
    {
      if fault.Some? {
        return Response(400, ErrorJson(fault.value));
      }
      if key in users {
        resp := Response(200, UserJson(Row(key, users[key])));
      } else {
        resp := Response(404, ErrorJson(NotFoundMessage));
      }
    }

    /**
     * `PUT /users/:id`. The update is always sent; it fails when it throws
     * or when the row is absent, and every failure gets the same fixed message.
     */
    method Update(key: int, email: Option<string>, password: Option<string>, name: Option<string>, fault: Option<string>)
      returns (resp: Response)
      requires Valid()
      modifies this
      ensures Valid()
      ensures writes == old(writes) + [UpdateCall(key)] && issued == old(issued)
      ensures fault.Some? || key !in old(users) ==>
        resp == Response(400, ErrorJson(UpdateFailedMessage)) && users == old(users)
      ensures fault.None? && key in old(users) ==>
        users == old(users)[key := Patch(old(users)[key], email, password, name)] &&
        resp == Response(200, UserJson(Row(key, users[key])))
    {
      writes := writes + [UpdateCall(key)];
      if fault.Some? || key !in users {
        return Response(400, ErrorJson(UpdateFailedMessage));
      }
      var user := Patch(users[key], email, password, name);
      users := users[key := user];
      resp := Response(200, UserJson(Row(key, user)));
    }

    /** `DELETE /users/:id`: 204 with no body, or 400 with the thrown message. */
    method Delete(key: int, fault: Option<string>) returns (resp: Response)
      requires Valid()
      modifies this
      ensures Valid()
      ensures writes == old(writes) + [DeleteCall(key)] && issued == old(issued)
      ensures fault.Some? ==> resp == Response(400, ErrorJson(fault.value)) && users == old(users)
      ensures fault.None? && key !in old(users) ==>
        resp == Response(400, ErrorJson(missingRowMessage)) && users == old(users)
      ensures fault.None? && key in old(users) ==>
        resp == Response(204, NoContent) && users == old(users) - {key}
    {
      writes := writes + [DeleteCall(key)];
      if fault.Some? {
        return Response(400, ErrorJson(fault.value));
      }
      if key !in users {
        return Response(400, ErrorJson(missingRowMessage));
      }
      users := users - {key};
      resp := Response(204, NoContent);
    }
  }

  /** A user created with valid fields is then found by its id, as stored. */
  method CreateThenGet(t: UserTable, email: string, password: string, name: string, id: int)
    returns (created: Response, fetched: Response)
    requires t.Valid() && id !in t.issued
    requires Validation.LongEnough(password) && Validation.NotEmpty(name)
    modifies t
    ensures t.Valid()
    ensures created == Response(201, UserJson(Row(id, User(email, password, name))))
    ensures fetched == Response(200, UserJson(Row(id, User(email, password, name))))
  {
    created := t.Create(email, password, name, true, Done(id));
    fetched := t.Get(id, None);
  }

  /** After a successful delete the id is not found, and deleting it again fails. */
  method DeleteThenGet(t: UserTable, key: int)
    returns (deleted: Response, fetched: Response, again: Response)
    requires t.Valid() && key in t.users
    modifies t
    ensures t.Valid()
    ensures deleted == Response(204, NoContent)
    ensures fetched == Response(404, ErrorJson(NotFoundMessage))
    ensures again.status == 400
  {
    deleted := t.Delete(key, None);
    fetched := t.Get(key, None);
    again := t.Delete(key, None);
  }
}
