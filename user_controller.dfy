/** The MySQL record service, the handlers the router serves: submit, list,
    delete and update a user against the `users` table. Each handler reads
    the request, checks its fields and issues one statement; the driver's
    outcome is the `fail` parameters. */
module UserController {
  import opened JsValues
  import opened Validation
  import opened Records
  import opened Store

  const NotFound := "User not found"

  /** A row as `SELECT *` hands it back: `age` is an INT column, so it comes
      back as the number the stored digits denote; the others are strings. */
  function StoredValues(r: Record): Values {
    Values(Str(r.firstName), Str(r.lastName), Str(r.email), Num(DecimalValue(r.age)), Str(r.education))
  }

  /** `submitUser`: every failing field's message, or a single INSERT of the
      five submitted strings under the next id. */
  method SubmitUser(t: UserTable, body: Body, fail: bool) returns (r: Response)
    requires t.Valid() && AllRecordsValid(t.rows)
    modifies t
    ensures t.Valid() && AllRecordsValid(t.rows)
    ensures var v := ReadBody(body, UserKey);
      SubmitErrors(v) != [] ==>
        r == Response(400, Error, Errors(SubmitErrors(v))) && t.rows == old(t.rows) && t.nextId == old(t.nextId)
    ensures var v := ReadBody(body, UserKey);
      SubmitErrors(v) == [] && (fail || old(t.EmailTaken(ToRecord(v).email, None))) ==>
        r == Response(500, Error, Message(DatabaseError)) && t.rows == old(t.rows) && t.nextId == old(t.nextId)
    ensures var v := ReadBody(body, UserKey);
      SubmitErrors(v) == [] && !fail && !old(t.EmailTaken(ToRecord(v).email, None)) ==>
        && r == Response(200, Success, Message("Form submitted successfully!"))
        && old(t.nextId) !in old(t.rows)
        && t.rows == old(t.rows)[old(t.nextId) := ToRecord(v)]
        && t.nextId == old(t.nextId) + 1
        && (forall f :: ToRecord(v).Get(f) == body[UserKey(f)])
  {
    var v := ReadBody(body, UserKey);
    var errors := CollectSubmitErrors(v);
    if |errors| > 0 {
      return Response(400, Error, Errors(errors));
    }
    var rec := ToRecord(v);
    ValidValuesStoreValidRecord(v);
    ValidBodyIsStored(body, UserKey);
    var id := t.Insert(rec, fail);
    if id.None? {
      return Response(500, Error, Message(DatabaseError));
    }
    r := Response(200, Success, Message("Form submitted successfully!"));
  }

  /** `getAllUsers`: `SELECT * FROM users`, with no ORDER BY, so nothing is
      promised about the order of the rows. */
  method GetAllUsers(t: UserTable, fail: bool) returns (r: Response)
    requires t.Valid()
    ensures fail ==> r == Response(500, Error, Errors([DatabaseError]))
    ensures !fail ==> r.code == 200 && r.status == Success && r.payload.Results? && Enumerates(r.payload.rows, t.rows)
    ensures !fail && t.rows == map[] ==> r == Response(200, Success, Results([]))
  {
    if fail {
      return Response(500, Error, Errors([DatabaseError]));
    }
    var rows := RowsById(t.rows, t.nextId);
    EnumeratesEmpty(rows, t.rows);
    r := Response(200, Success, Results(rows));
  }

  /** `deleteUser`: DELETE by id; no affected row is a 404. */
  method DeleteUser(t: UserTable, id: int, fail: bool) returns (r: Response)
    requires t.Valid() && AllRecordsValid(t.rows)
    modifies t
    ensures t.Valid() && AllRecordsValid(t.rows) && t.nextId == old(t.nextId)
    ensures fail ==> r == Response(500, Error, Errors([DatabaseError])) && t.rows == old(t.rows)
    ensures !fail && id !in old(t.rows) ==> r == Response(404, Error, Errors([NotFound])) && t.rows == old(t.rows)
    ensures !fail && id in old(t.rows) ==>
      r == Response(200, Success, Message("Submission deleted successfully!")) && t.rows == old(t.rows) - {id}
  {
    var ok, removed := t.Delete(id, fail);
    if !ok {
      return Response(500, Error, Errors([DatabaseError]));
    }
    var affectedRows := if removed.Some? then 1 else 0;
    if affectedRows == 0 {
      return Response(404, Error, Errors([NotFound]));
    }
    r := Response(200, Success, Message("Submission deleted successfully!"));
  }

  /** `updateUser`: SELECT the row, merge `userX || current.x` field by
      field, stop at the first merged field that fails its check, else
      UPDATE the row with the merged values. `readFail` and `writeFail` are
      the outcomes of the two statements. */
  method UpdateUser(t: UserTable, id: int, body: Body, readFail: bool, writeFail: bool) returns (r: Response)
    requires t.Valid() && AllRecordsValid(t.rows)
    modifies t
    ensures t.Valid() && AllRecordsValid(t.rows) && t.nextId == old(t.nextId)
    ensures readFail ==> r == Response(500, Error, Errors([DatabaseError])) && t.rows == old(t.rows)
    ensures !readFail && id !in old(t.rows) ==> r == Response(404, Error, Errors([NotFound])) && t.rows == old(t.rows)
    ensures !readFail && id in old(t.rows) ==>
      var merged := Merge(ReadBody(body, UserKey), StoredValues(old(t.rows)[id]));
      var failure := FirstFailure(merged);
      && (failure.Some? ==>
            r == Response(400, Error, Errors([UpdateMessage(failure.value)])) && t.rows == old(t.rows))
      && (failure.None? && (writeFail || old(t.EmailTaken(ToRecord(merged).email, Some(id)))) ==>
            r == Response(500, Error, Errors([DatabaseError])) && t.rows == old(t.rows))
      && (failure.None? && !writeFail && !old(t.EmailTaken(ToRecord(merged).email, Some(id))) ==>
            r == Response(200, Success, Message("Submission updated successfully!")) && t.rows == old(t.rows)[id := ToRecord(merged)])
  {
    if readFail {
      return Response(500, Error, Errors([DatabaseError]));
    }
    if id !in t.rows {
      return Response(404, Error, Errors([NotFound]));
    }
    var current := t.rows[id];
    var merged := Merge(ReadBody(body, UserKey), StoredValues(current));
    var failure := FirstFailure(merged);
    if failure.Some? {
      return Response(400, Error, Errors([UpdateMessage(failure.value)]));
    }
    var rec := ToRecord(merged);
    ValidValuesStoreValidRecord(merged);
    var ok, affected := t.Update(id, rec, writeFail);
    if !ok {
      return Response(500, Error, Errors([DatabaseError]));
    }
    r := if affected == 0 then Response(404, Error, Errors([NotFound]))
         else Response(200, Success, Message("Submission updated successfully!"));
  }

  /** A valid stored age reads back as a number whose string form is the
      stored digits. */
  lemma StoredAgeRoundTrip(r: Record)
    requires RecordValid(r)
    ensures ToJsString(StoredValues(r).age) == r.age
    ensures 0 <= DecimalValue(r.age) <= 120
  {
    assert FieldValid(AsValues(r), Age);
    MatchesCorrect(AgeRule, r.age);
    AgeCanonical(r.age);
  }

  /** An update whose body sets no field validates the stored row and writes
      it back unchanged, unless the stored age is 0. */
  lemma EmptyUpdateKeepsRow(req: Values, r: Record)
    requires NoFieldGiven(req) && RecordValid(r) && r.age != "0"
    ensures FirstFailure(Merge(req, StoredValues(r))) == None
    ensures ToRecord(Merge(req, StoredValues(r))) == r
  {
    MergeNothing(req, StoredValues(r));
    StoredAgeRoundTrip(r);
    var n := DecimalValue(r.age);
    assert n != 0 by {
      AgeCanonical(r.age);
    }
    forall f
      ensures FieldValid(StoredValues(r), f)
    {
      assert FieldValid(AsValues(r), f);
    }
  }

  /** A stored age of 0 reads back as the falsy number 0, so an update that
      does not resend the age answers "Invalid age", whatever valid values
      it sends for the other fields. */
  lemma StoredZeroAgeBlocksUpdate(req: Values, r: Record)
    requires RecordValid(r) && r.age == "0" && !Truthy(req.age)
    requires forall f :: f != Age && Truthy(req.Get(f)) ==> FieldValid(req, f)
    ensures FirstFailure(Merge(req, StoredValues(r))) == Some(Age)
  {
    assert "0"[..0] == "";
    assert DecimalValue("0") == 0;
    var m := Merge(req, StoredValues(r));
    assert m.age == Num(0);
    forall f | Rank(f) < Rank(Age)
      ensures FieldValid(m, f)
    {
      MergeField(req, StoredValues(r), f);
      assert FieldValid(AsValues(r), f);
    }
  }
}
