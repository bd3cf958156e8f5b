/** What both controllers share: the user record, request bodies and how
    fields are read from them, the per-field checks and their messages, the
    update merge, and the response shape. */
module Records {
  import opened JsValues
  import opened Validation

  datatype Option<T> = None | Some(value: T)

  /** The five user fields, in the order every check visits them. */
  datatype Field = FirstName | LastName | Email | Age | Education

  const FieldCount: nat := 5

  /** A field's position in that order. */
  function Rank(f: Field): nat {
    match f
    case FirstName => 0
    case LastName => 1
    case Email => 2
    case Age => 3
    case Education => 4
  }

  /** The field at position i of the order. */
  function FieldAt(i: nat): (f: Field)
    requires i < FieldCount
    ensures forall g :: Rank(g) == i <==> g == f
  {
    if i == 0 then FirstName else if i == 1 then LastName else if i == 2 then Email
    else if i == 3 then Age else Education
  }

  function RuleOf(f: Field): Rule {
    match f
    case FirstName => NameRule
    case LastName => NameRule
    case Email => EmailRule
    case Age => AgeRule
    case Education => EducationRule
  }

  /** A stored row, without its id: five strings. */
  datatype Record = Record(firstName: string, lastName: string, email: string, age: string, education: string) {
    function Get(f: Field): string {
      match f
      case FirstName => firstName
      case LastName => lastName
      case Email => email
      case Age => age
      case Education => education
    }
  }

  /** A row with its id, as a listing returns it. */
  datatype Row = Row(id: int, rec: Record)

  /** The five JavaScript values a controller holds for the fields: read from
      a request body, or merged with a stored row. */
  datatype Values = Values(firstName: JsValue, lastName: JsValue, email: JsValue, age: JsValue, education: JsValue) {
    function Get(f: Field): JsValue {
      match f
      case FirstName => firstName
      case LastName => lastName
      case Email => email
      case Age => age
      case Education => education
    }
  }

  /** A JSON request body whose members are strings. */
  type Body = map<string, string>

  /** `req.body[key]`: `undefined` when the key is absent. */
  function Lookup(body: Body, key: string): JsValue {
    if key in body then Str(body[key]) else Undefined
  }

  /** The body keys `submitUser` reads in both controllers, and `updateUser`
      reads in the MySQL one. */
  function UserKey(f: Field): string {
    match f
    case FirstName => "userFirstName"
    case LastName => "userLastName"
    case Email => "userEmail"
    case Age => "userAge"
    case Education => "userEducation"
  }

  /** The body keys the Supabase `updateUser` reads and the browser client
      sends on update. */
  function UpdateKey(f: Field): string {
    match f
    case FirstName => "updateFirstName"
    case LastName => "updateLastName"
    case Email => "updateEmail"
    case Age => "updateAge"
    case Education => "updateEducation"
  }

  /** The destructuring `const { k1, ..., k5 } = req.body`. */
  function ReadBody(body: Body, key: Field -> string): (v: Values)
    ensures forall f :: v.Get(f) == Lookup(body, key(f))
  {
    Values(Lookup(body, key(FirstName)), Lookup(body, key(LastName)), Lookup(body, key(Email)),
           Lookup(body, key(Age)), Lookup(body, key(Education)))
  }

  /** A row's fields as the strings they are. */
  function AsValues(r: Record): Values {
    Values(Str(r.firstName), Str(r.lastName), Str(r.email), Str(r.age), Str(r.education))
  }

  /** What the database stores for values it is given: their string forms. */
  function ToRecord(v: Values): Record {
    Record(ToJsString(v.firstName), ToJsString(v.lastName), ToJsString(v.email),
           ToJsString(v.age), ToJsString(v.education))
  }

  predicate FieldValid(v: Values, f: Field) {
    ValidateInput(v.Get(f), RuleOf(f))
  }

  predicate AllFieldsValid(v: Values) {
    forall f :: FieldValid(v, f)
  }

  /** The service invariant: every field of the row passes its rule. */
  predicate RecordValid(r: Record) {
    AllFieldsValid(AsValues(r))
  }

  predicate AllRecordsValid(rows: map<int, Record>) {
    forall id :: id in rows ==> RecordValid(rows[id])
  }

  /** The messages of the failing checks among the first n fields, in field
      order: what n successive `if (!check) errors.push(message)` steps
      leave in a list that starts empty. */
  function FailingMessages(n: nat, ok: Field -> bool, msg: Field -> string): (r: seq<string>)
    requires n <= FieldCount
    ensures |r| <= n
  {
    if n == 0 then []
    else FailingMessages(n - 1, ok, msg) + (if ok(FieldAt(n - 1)) then [] else [msg(FieldAt(n - 1))])
  }

  /** The field a message names, read from its first word: "First",
      "Last", "Email", "Age" or "Education". This is only a proof device:
      it lets the verifier tell the five messages of a handler apart by
      their first characters instead of comparing whole texts. */
  function MessageField(m: string): Field {
    if |m| < 2 then Education
    else if m[0] == 'F' then FirstName
    else if m[0] == 'L' then LastName
    else if m[0] == 'A' then Age
    else if m[1] == 'm' then Email
    else Education
  }

  /** When every message names its own field (so no two fields share a
      message), a field's message is in the list exactly when the field is
      among the first n and its check fails, and the list is empty exactly
      when all of those checks pass. */
  lemma {:induction false} FailingMessagesByField(n: nat, ok: Field -> bool, msg: Field -> string)
    requires n <= FieldCount
    requires forall f :: MessageField(msg(f)) == f
    ensures FailingMessages(n, ok, msg) == [] <==> forall f :: Rank(f) < n ==> ok(f)
    ensures forall f :: msg(f) in FailingMessages(n, ok, msg) <==> Rank(f) < n && !ok(f)
  {
    if n > 0 {
      FailingMessagesByField(n - 1, ok, msg);
      var last := FieldAt(n - 1);
      assert forall f :: Rank(f) < n <==> Rank(f) < n - 1 || f == last;
      assert forall f :: msg(f) == msg(last) ==> f == last by {
        forall f | msg(f) == msg(last)
          ensures f == last
        {
          assert MessageField(msg(f)) == f;
        }
      }
    }
  }

  const NameRuleText := " name must start with a capital letter and contain only letters."
  const EmailRuleText := " must be in a valid format."
  const AgeRuleText := " must be a number between 0 and 120."
  const EducationRuleText := " must be between 2 and 200 characters long and contain only letters."

  /** The messages `submitUser` pushes, one per field. Each is written as its
      first word and the rest of the text; the concatenation is the whole
      message. The split is only for the verifier, which then tells the
      messages apart by their first characters without comparing whole
      literals. */
  function SubmitMessage(f: Field): string {
    match f
    case FirstName => "First" + NameRuleText
    case LastName => "Last" + NameRuleText
    case Email => "Email" + EmailRuleText
    case Age => "Age" + AgeRuleText
    case Education => "Education" + EducationRuleText
  }

  /** The check of each field on the values read. */
  function FieldCheck(v: Values): Field -> bool {
    (f: Field) => FieldValid(v, f)
  }

  /** The error list `submitUser` builds for the values it read. */
  function SubmitErrors(v: Values): seq<string> {
    FailingMessages(FieldCount, FieldCheck(v), SubmitMessage)
  }

  /** The error collection of `submitUser`: one push per failing field, in
      field order, without stopping at the first failure. */
  method CollectSubmitErrors(v: Values) returns (errors: seq<string>)
    ensures errors == SubmitErrors(v)
    ensures errors == [] <==> AllFieldsValid(v)
    ensures forall f :: SubmitMessage(f) in errors <==> !FieldValid(v, f)
  {
    errors := [];
    if !FieldValid(v, FirstName) {
      errors := errors + [SubmitMessage(FirstName)];
    }
    ghost var e1 := errors;
    if !FieldValid(v, LastName) {
      errors := errors + [SubmitMessage(LastName)];
    }
    ghost var e2 := errors;
    if !FieldValid(v, Email) {
      errors := errors + [SubmitMessage(Email)];
    }
    ghost var e3 := errors;
    if !FieldValid(v, Age) {
      errors := errors + [SubmitMessage(Age)];
    }
    ghost var e4 := errors;
    if !FieldValid(v, Education) {
      errors := errors + [SubmitMessage(Education)];
    }
    assert e1 == FailingMessages(1, FieldCheck(v), SubmitMessage);
    assert e2 == FailingMessages(2, FieldCheck(v), SubmitMessage);
    assert e3 == FailingMessages(3, FieldCheck(v), SubmitMessage);
    assert e4 == FailingMessages(4, FieldCheck(v), SubmitMessage);
    SubmitErrorsMessages(v);
  }

  /** Each field's message is in the submit error list exactly when that
      field fails, and the list is empty exactly when every field passes. */
  lemma SubmitErrorsMessages(v: Values)
    ensures SubmitErrors(v) == [] <==> AllFieldsValid(v)
    ensures forall f :: SubmitMessage(f) in SubmitErrors(v) <==> !FieldValid(v, f)
  {
    SubmitMessagesNameFields();
    FailingMessagesByField(FieldCount, FieldCheck(v), SubmitMessage);
  }

  /** Each submit message names its own field, so the five are different. */
  lemma SubmitMessagesNameFields()
    ensures forall f :: MessageField(SubmitMessage(f)) == f
  {
    assert SubmitMessage(FirstName)[0] == 'F' && SubmitMessage(LastName)[0] == 'L';
    assert SubmitMessage(Email)[..2] == "Em" && SubmitMessage(Education)[..2] == "Ed";
    assert SubmitMessage(Age)[0] == 'A';
  }

  /** The message `updateUser` returns for the first failing merged field. */
  function UpdateMessage(f: Field): string {
    match f
    case FirstName => "Invalid first name"
    case LastName => "Invalid last name"
    case Email => "Invalid email"
    case Age => "Invalid age"
    case Education => "Invalid education"
  }

  /** The early-return validation chain of `updateUser`: the first field, in
      field order, that fails; None when all pass. */
  function FirstFailure(v: Values): (r: Option<Field>)
    ensures r.None? <==> AllFieldsValid(v)
    ensures r.Some? ==> !FieldValid(v, r.value)
    ensures r.Some? ==> forall f :: Rank(f) < Rank(r.value) ==> FieldValid(v, f)
  {
    if !FieldValid(v, FirstName) then Some(FirstName)
    else if !FieldValid(v, LastName) then Some(LastName)
    else if !FieldValid(v, Email) then Some(Email)
    else if !FieldValid(v, Age) then Some(Age)
    else if !FieldValid(v, Education) then Some(Education)
    else None
  }

  /** `updatedX = updateX || current.x` for each field. */
  function Merge(req: Values, cur: Values): Values {
    Values(Or(req.firstName, cur.firstName), Or(req.lastName, cur.lastName), Or(req.email, cur.email),
           Or(req.age, cur.age), Or(req.education, cur.education))
  }

  /** No field of the request is truthy. */
  predicate NoFieldGiven(req: Values) {
    forall f :: !Truthy(req.Get(f))
  }

  /** The merge rule field by field: a truthy request value replaces the
      current one, any other leaves it. */
  lemma MergeField(req: Values, cur: Values, f: Field)
    ensures Truthy(req.Get(f)) ==> Merge(req, cur).Get(f) == req.Get(f)
    ensures !Truthy(req.Get(f)) ==> Merge(req, cur).Get(f) == cur.Get(f)
  {
  }

  /** A request with no truthy field merges to the current values. */
  lemma MergeNothing(req: Values, cur: Values)
    requires NoFieldGiven(req)
    ensures Merge(req, cur) == cur
  {
    assert !Truthy(req.Get(FirstName)) && !Truthy(req.Get(LastName)) && !Truthy(req.Get(Email));
    assert !Truthy(req.Get(Age)) && !Truthy(req.Get(Education));
  }

  /** Merging the same request twice changes nothing more. */
  lemma MergeIdempotent(req: Values, cur: Values)
    ensures Merge(req, Merge(req, cur)) == Merge(req, cur)
  {
  }

  /** Values that pass every check are stored as a row that keeps the
      service invariant. */
  lemma ValidValuesStoreValidRecord(v: Values)
    requires AllFieldsValid(v)
    ensures RecordValid(ToRecord(v))
  {
    forall f
      ensures FieldValid(AsValues(ToRecord(v)), f)
    {
      assert FieldValid(v, f);
      NoPatternMatchesEmpty(RuleOf(f));
      assert AsValues(ToRecord(v)).Get(f) == Str(ToJsString(v.Get(f)));
    }
  }

  /** Values read from a body that pass every check are the body's own
      strings: every key is present and is stored as it was sent. */
  lemma ValidBodyIsStored(body: Body, key: Field -> string)
    requires AllFieldsValid(ReadBody(body, key))
    ensures forall f :: key(f) in body && ToRecord(ReadBody(body, key)).Get(f) == body[key(f)]
  {
    var v := ReadBody(body, key);
    forall f
      ensures key(f) in body && ToRecord(v).Get(f) == body[key(f)]
    {
      assert FieldValid(v, f);
      assert ToRecord(v).Get(f) == ToJsString(v.Get(f));
    }
  }

  /** A row's own strings, passed through unchanged, are stored as that row. */
  lemma StringValuesRoundTrip(r: Record)
    ensures ToRecord(AsValues(r)) == r
  {
  }

  datatype Status = Success | Error

  /** The JSON body of a response, after `status`. `NullErrors` is
      `errors: null`. */
  datatype Payload = Errors(messages: seq<string>) | Message(text: string) | Results(rows: seq<Row>) | NullErrors

  /** An HTTP status code with the JSON body `{ status, ... }`. */
  datatype Response = Response(code: int, status: Status, payload: Payload)

  const DatabaseError := "Database error"

  /** The rows of a listing are exactly the table's rows, each once. */
  predicate Enumerates(rows: seq<Row>, table: map<int, Record>) {
    && (forall i :: 0 <= i < |rows| ==> rows[i].id in table && table[rows[i].id] == rows[i].rec)
    && (forall id :: id in table ==> Row(id, table[id]) in rows)
    && (forall i, j :: 0 <= i < j < |rows| ==> rows[i].id != rows[j].id)
  }

  predicate AscendingIds(rows: seq<Row>) {
    forall i, j :: 0 <= i < j < |rows| ==> rows[i].id < rows[j].id
  }

  /** An empty table is listed as the empty list, and only it is. */
  lemma EnumeratesEmpty(rows: seq<Row>, table: map<int, Record>)
    requires Enumerates(rows, table)
    ensures rows == [] <==> table == map[]
  {
    if rows == [] {
      assert forall id :: id !in table;
      assert table == map[];
    } else {
      assert rows[0].id in table;
    }
  }
}
