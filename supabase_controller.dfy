/** The Supabase record service: the same four handlers over the hosted
    `users` table. It differs from the MySQL one in its listing (ordered,
    404 when empty), its delete (no not-found case), and its update (other
    body keys, an at-least-one-field check, no affected-row check). */
module SupabaseController {
  import opened JsValues
  import opened Validation
  import opened Records
  import opened Store

  const NoUsers := "No users found"
  const NothingToUpdate := "Please provide at least one field to update."
  const DeletedPrefix := "User deleted successfully! Bye "

  /** `submitUser`: the same checks and messages as the MySQL service, then
      one insert. */
  method SubmitUser(t: UserTable, body: Body, fail: bool) returns (r: Response)
    requires t.Valid() && AllRecordsValid(t.rows)
    modifies t
    ensures t.Valid() && AllRecordsValid(t.rows)
    ensures var v := ReadBody(body, UserKey);
      SubmitErrors(v) != [] ==>
        r == Response(400, Error, Errors(SubmitErrors(v))) && t.rows == old(t.rows) && t.nextId == old(t.nextId)
    ensures var v := ReadBody(body, UserKey);
      SubmitErrors(v) == [] && (fail || old(t.EmailTaken(ToRecord(v).email, None))) ==>
        r == Response(500, Error, Message(DatabaseError)) && t.rows == old(t.rows) && t.nextId == old(t.nextId)
    ensures var v := ReadBody(body, UserKey);
      SubmitErrors(v) == [] && !fail && !old(t.EmailTaken(ToRecord(v).email, None)) ==>
        && r == Response(200, Success, Message("Form submitted successfully!"))
        && old(t.nextId) !in old(t.rows)
        && t.rows == old(t.rows)[old(t.nextId) := ToRecord(v)]
        && t.nextId == old(t.nextId) + 1
        && (forall f :: ToRecord(v).Get(f) == body[UserKey(f)])
  {
    var v := ReadBody(body, UserKey);
    var errors := CollectSubmitErrors(v);
    if |errors| > 0 {
      return Response(400, Error, Errors(errors));
    }
    var rec := ToRecord(v);
    ValidValuesStoreValidRecord(v);
    ValidBodyIsStored(body, UserKey);
    var id := t.Insert(rec, fail);
    if id.None? {
      return Response(500, Error, Message(DatabaseError));
    }
    r := Response(200, Success, Message("Form submitted successfully!"));
  }

  /** `getAllUsers`: every row by ascending id; an empty table is a 404
      whose `errors` is the null error object. */
  method GetAllUsers(t: UserTable, fail: bool) returns (r: Response)
    requires t.Valid()
    ensures fail ==> r == Response(500, Error, Errors([DatabaseError]))
    ensures !fail && t.rows == map[] ==> r == Response(404, Error, NullErrors)
    ensures !fail && t.rows != map[] ==>
      && r.code == 200 && r.status == Success && r.payload.Results?
      && AscendingIds(r.payload.rows) && Enumerates(r.payload.rows, t.rows) && r.payload.rows != []
  {
    if fail {
      return Response(500, Error, Errors([DatabaseError]));
    }
    var data := RowsById(t.rows, t.nextId);
    EnumeratesEmpty(data, t.rows);
    if |data| == 0 {
      return Response(404, Error, NullErrors);
    }
    r := Response(200, Success, Results(data));
  }

  /** The farewell name: the deleted row's first name, or "" when no row
      was deleted (`data[0]?.firstName || ""`). */
  function ByeName(removed: Option<Record>): (name: string)
    ensures removed.None? ==> name == ""
    ensures removed.Some? ==> name == removed.value.firstName
  {
    if removed.Some? then Or(Str(removed.value.firstName), Str("")).s else ""
  }

  /** `deleteUser`: DELETE by id returning the deleted rows; success is
      reported whether or not a row matched. */
  method DeleteUser(t: UserTable, id: int, fail: bool) returns (r: Response)
    requires t.Valid() && AllRecordsValid(t.rows)
    modifies t
    ensures t.Valid() && AllRecordsValid(t.rows) && t.nextId == old(t.nextId)
    ensures fail ==> r == Response(500, Error, Errors([DatabaseError])) && t.rows == old(t.rows)
    ensures !fail && id !in old(t.rows) ==>
      r == Response(200, Success, Message(DeletedPrefix)) && t.rows == old(t.rows)
    ensures !fail && id in old(t.rows) ==>
      r == Response(200, Success, Message(DeletedPrefix + old(t.rows)[id].firstName)) && t.rows == old(t.rows) - {id}
  {
    var ok, removed := t.Delete(id, fail);
    if !ok {
      return Response(500, Error, Errors([DatabaseError]));
    }
    assert DeletedPrefix + "" == DeletedPrefix;
    r := Response(200, Success, Message(DeletedPrefix + ByeName(removed)));
  }

  /** `updateUser`: SELECT the row, merge `updateX || current.x`, refuse a
      body that sets no field, stop at the first merged field that fails,
      else UPDATE the row. */
  method UpdateUser(t: UserTable, id: int, body: Body, fail: bool) returns (r: Response)
    requires t.Valid() && AllRecordsValid(t.rows)
    modifies t
    ensures t.Valid() && AllRecordsValid(t.rows) && t.nextId == old(t.nextId)
    ensures id !in old(t.rows) ==> r == Response(404, Error, Errors([NoUsers])) && t.rows == old(t.rows)
    ensures id in old(t.rows) && NoFieldGiven(ReadBody(body, UpdateKey)) ==>
      r == Response(400, Error, Errors([NothingToUpdate])) && t.rows == old(t.rows)
    ensures id in old(t.rows) && !NoFieldGiven(ReadBody(body, UpdateKey)) ==>
      var merged := Merge(ReadBody(body, UpdateKey), AsValues(old(t.rows)[id]));
      var failure := FirstFailure(merged);
      && (failure.Some? ==>
            r == Response(400, Error, Errors([UpdateMessage(failure.value)])) && t.rows == old(t.rows))
      && (failure.None? && (fail || old(t.EmailTaken(ToRecord(merged).email, Some(id)))) ==>
            r == Response(500, Error, Message(DatabaseError)) && t.rows == old(t.rows))
      && (failure.None? && !fail && !old(t.EmailTaken(ToRecord(merged).email, Some(id))) ==>
            r == Response(200, Success, Message("User updated successfully!")) && t.rows == old(t.rows)[id := ToRecord(merged)])
  {
    if id !in t.rows {
      return Response(404, Error, Errors([NoUsers]));
    }
    var current := t.rows[id];
    var request := ReadBody(body, UpdateKey);
    var merged := Merge(request, AsValues(current));
    if !Truthy(request.firstName) && !Truthy(request.lastName) && !Truthy(request.email)
       && !Truthy(request.age) && !Truthy(request.education) {
      return Response(400, Error, Errors([NothingToUpdate]));
    }
    var failure := FirstFailure(merged);
    if failure.Some? {
      return Response(400, Error, Errors([UpdateMessage(failure.value)]));
    }
    var rec := ToRecord(merged);
    ValidValuesStoreValidRecord(merged);
    var ok, affected := t.Update(id, rec, fail);
    if !ok {
      return Response(500, Error, Message(DatabaseError));
    }
    r := Response(200, Success, Message("User updated successfully!"));
  }

  /** Here a row's stored strings merge back as strings, so a valid row
      updated with valid values keeps passing; a value the request sets
      replaces the stored one in what is written. */
  lemma UpdateWritesRequestOverRow(req: Values, r: Record)
    requires RecordValid(r)
    requires forall f :: Truthy(req.Get(f)) ==> FieldValid(req, f)
    ensures FirstFailure(Merge(req, AsValues(r))) == None
    ensures forall f ::
      ToRecord(Merge(req, AsValues(r))).Get(f) == (if Truthy(req.Get(f)) then ToJsString(req.Get(f)) else r.Get(f))
  {
    var m := Merge(req, AsValues(r));
    forall f
      ensures FieldValid(m, f)
      ensures ToRecord(m).Get(f) == (if Truthy(req.Get(f)) then ToJsString(req.Get(f)) else r.Get(f))
    {
      MergeField(req, AsValues(r), f);
      assert FieldValid(AsValues(r), f);
      assert ToRecord(m).Get(f) == ToJsString(m.Get(f));
    }
  }
}
