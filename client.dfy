/** The browser client's checks before a request is sent: its own four
    regular expressions, the add form (trim, check every field, build the
    submit body), and the delete and update forms' preconditions. */
module Client {
  import opened JsValues
  import opened Validation
  import opened Records

  // String.prototype.trim: strips WhiteSpace and LineTerminator code points,
  // the same set `\s` stands for, from both ends.

  function TrimStart(s: string): (r: string)
    ensures |r| <= |s| && r == s[|s| - |r|..]
    ensures forall i :: 0 <= i < |s| - |r| ==> IsJsSpace(s[i])
    ensures r != [] ==> !IsJsSpace(r[0])
  {
    if s != [] && IsJsSpace(s[0]) then TrimStart(s[1..]) else s
  }

  function TrimEnd(s: string): (r: string)
    ensures |r| <= |s| && r == s[..|r|]
    ensures forall i :: |r| <= i < |s| ==> IsJsSpace(s[i])
    ensures r != [] ==> !IsJsSpace(r[|r| - 1])
  {
    if s != [] && IsJsSpace(s[|s| - 1]) then TrimEnd(s[..|s| - 1]) else s
  }

  /** `s.trim()`: no whitespace is left at either end. */
  function Trim(s: string): (r: string)
    ensures |r| <= |s|
    ensures r != [] ==> !IsJsSpace(r[0]) && !IsJsSpace(r[|r| - 1])
  {
    var t := TrimStart(s);
    var r := TrimEnd(t);
    assert r != [] ==> r[0] == t[0];
    r
  }

  /** What trim removes is whitespace at the two ends: the result is the
      slice of s between them. */
  lemma TrimIsSlice(s: string)
    ensures var a, r := |s| - |TrimStart(s)|, Trim(s);
      && a + |r| <= |s| && r == s[a..a + |r|]
      && (forall i :: 0 <= i < a ==> IsJsSpace(s[i]))
      && (forall i :: a + |r| <= i < |s| ==> IsJsSpace(s[i]))
  {
    var t := TrimStart(s);
    var r := TrimEnd(t);
    assert r == s[|s| - |t|..][..|r|];
  }

  /** Trimming leaves nothing exactly when s is all whitespace. */
  lemma TrimEmpty(s: string)
    ensures Trim(s) == [] <==> forall i :: 0 <= i < |s| ==> IsJsSpace(s[i])
  {
    TrimIsSlice(s);
  }

  /** Trimming a trimmed string changes nothing. */
  lemma TrimIdempotent(s: string)
    ensures Trim(Trim(s)) == Trim(s)
  {
    var r := Trim(s);
    if r != [] {
      assert TrimStart(r) == r;
      assert TrimEnd(r) == r;
    }
  }

  // The client's regular expressions. ageRegex and emailRegex are written
  // exactly as the server's agePattern and emailPattern, so the client tests
  // them with the same matchers.

  /** nameRegex, `^[A-Z][a-z]{1,}$` */
  ghost predicate ClientNamePattern(s: string) {
    |s| >= 2 && IsUpper(s[0]) && forall i :: 1 <= i < |s| ==> IsLower(s[i])
  }

  /** educationRegex, `^[A-Za-z\s]{0,100}$` */
  ghost predicate ClientEducationPattern(s: string) {
    |s| <= 100 && forall i :: 0 <= i < |s| ==> IsEducationChar(s[i])
  }

  predicate MatchClientName(s: string) {
    |s| >= 2 && IsUpper(s[0]) && 1 + Span(s, 1, IsLower) == |s|
  }

  predicate MatchClientEducation(s: string) {
    |s| <= 100 && Span(s, 0, IsEducationChar) == |s|
  }

  lemma MatchClientNameCorrect(s: string)
    ensures MatchClientName(s) <==> ClientNamePattern(s)
  {
    if ClientNamePattern(s) {
      SpanExact(s, 1, IsLower, |s|);
    }
  }

  lemma MatchClientEducationCorrect(s: string)
    ensures MatchClientEducation(s) <==> ClientEducationPattern(s)
  {
    if ClientEducationPattern(s) {
      SpanExact(s, 0, IsEducationChar, |s|);
    }
  }

  /** The check the add form applies to one trimmed field. An empty
      education is not checked. */
  predicate ClientValid(form: Record, f: Field) {
    match f
    case FirstName => MatchClientName(form.firstName)
    case LastName => MatchClientName(form.lastName)
    case Email => MatchEmail(form.email)
    case Age => AgePattern(form.age)
    case Education => form.education == "" || MatchClientEducation(form.education)
  }

  const ClientEmailText := " is not valid."
  const ClientEducationText := " must only contain letters and spaces (max 100 characters)."

  /** The messages the add form pushes, each written as its first word and
      the rest of the text (see `SubmitMessage`). */
  function ClientMessage(f: Field): string {
    match f
    case FirstName => "First" + NameRuleText
    case LastName => "Last" + NameRuleText
    case Email => "Email" + ClientEmailText
    case Age => "Age" + AgeRuleText
    case Education => "Education" + ClientEducationText
  }

  /** Each client message names its own field, so the five are different. */
  lemma ClientMessagesNameFields()
    ensures forall f :: MessageField(ClientMessage(f)) == f
  {
    assert ClientMessage(FirstName)[0] == 'F' && ClientMessage(LastName)[0] == 'L';
    assert ClientMessage(Email)[..2] == "Em" && ClientMessage(Education)[..2] == "Ed";
    assert ClientMessage(Age)[0] == 'A';
  }

  function ClientCheck(form: Record): Field -> bool {
    (f: Field) => ClientValid(form, f)
  }

  /** The errors the add form reports for the trimmed fields. */
  function ClientErrors(form: Record): seq<string> {
    FailingMessages(FieldCount, ClientCheck(form), ClientMessage)
  }

  function TrimAll(raw: Record): Record {
    Record(Trim(raw.firstName), Trim(raw.lastName), Trim(raw.email), Trim(raw.age), Trim(raw.education))
  }

  /** The JSON body the add form posts: `education || "Not Available"`. */
  function AddBody(form: Record): Body {
    map["userFirstName" := form.firstName, "userLastName" := form.lastName, "userEmail" := form.email,
        "userAge" := form.age, "userEducation" := if form.education != "" then form.education else "Not Available"]
  }

  /** The add form's checks on the trimmed fields: every check runs, each
      failure clears `isValid` and pushes its message. */
  method CollectClientErrors(form: Record) returns (isValid: bool, errors: seq<string>)
    ensures errors == ClientErrors(form)
    ensures isValid <==> errors == []
    ensures errors == [] <==> forall f :: ClientValid(form, f)
    ensures forall f :: ClientMessage(f) in errors <==> !ClientValid(form, f)
  {
    isValid := true;
    errors := [];
    if !ClientValid(form, FirstName) {
      isValid := false;
      errors := errors + [ClientMessage(FirstName)];
    }
    assert errors == FailingMessages(1, ClientCheck(form), ClientMessage) && (isValid <==> errors == []);
    if !ClientValid(form, LastName) {
      isValid := false;
      errors := errors + [ClientMessage(LastName)];
    }
    assert errors == FailingMessages(2, ClientCheck(form), ClientMessage) && (isValid <==> errors == []);
    if !ClientValid(form, Email) {
      isValid := false;
      errors := errors + [ClientMessage(Email)];
    }
    assert errors == FailingMessages(3, ClientCheck(form), ClientMessage) && (isValid <==> errors == []);
    if !ClientValid(form, Age) {
      isValid := false;
      errors := errors + [ClientMessage(Age)];
    }
    assert errors == FailingMessages(4, ClientCheck(form), ClientMessage) && (isValid <==> errors == []);
    if !ClientValid(form, Education) {
      isValid := false;
      errors := errors + [ClientMessage(Education)];
    }
    assert errors == ClientErrors(form) && (isValid <==> errors == []);
    ClientErrorsMessages(form);
  }

  /** A field's client message is in the add form's error list exactly when
      that field fails, and the list is empty exactly when every field
      passes. */
  lemma ClientErrorsMessages(form: Record)
    ensures ClientErrors(form) == [] <==> forall f :: ClientValid(form, f)
    ensures forall f :: ClientMessage(f) in ClientErrors(form) <==> !ClientValid(form, f)
  {
    ClientMessagesNameFields();
    FailingMessagesByField(FieldCount, ClientCheck(form), ClientMessage);
  }

  /** The add form handler: trim the five inputs, run every check, and post
      the body only when none failed. */
  method SubmitAddForm(raw: Record) returns (errors: seq<string>, request: Option<Body>)
    ensures errors == ClientErrors(TrimAll(raw))
    ensures errors == [] <==> forall f :: ClientValid(TrimAll(raw), f)
    ensures forall f :: ClientMessage(f) in errors <==> !ClientValid(TrimAll(raw), f)
    ensures request.Some? <==> errors == []
    ensures request.Some? ==> request.value == AddBody(TrimAll(raw))
  {
    var form := TrimAll(raw);
    var isValid;
    isValid, errors := CollectClientErrors(form);
    if !isValid {
      request := None;
    } else {
      request := Some(AddBody(form));
    }
  }

  /** The outcome of a form precondition: the notification shown, or the
      request that goes out. */
  datatype Checked<T> = Refused(message: string) | Accepted(value: T)

  /** The delete form: a trimmed, non-empty id is sent as it stands. */
  function DeleteRequest(rawId: string): (r: Checked<string>)
    ensures r.Refused? <==> forall i :: 0 <= i < |rawId| ==> IsJsSpace(rawId[i])
    ensures r.Refused? ==> r.message == "Please enter a valid user ID to delete."
    ensures r.Accepted? ==> r.value == Trim(rawId) && r.value != ""
  {
    TrimEmpty(rawId);
    var userId := Trim(rawId);
    if userId == "" then Refused("Please enter a valid user ID to delete.") else Accepted(userId)
  }

  /** The JSON body the update form sends: all five `update*` members, each
      the trimmed input, empty ones included. */
  function UpdateBody(form: Record): Body {
    map["updateFirstName" := form.firstName, "updateLastName" := form.lastName, "updateEmail" := form.email,
        "updateAge" := form.age, "updateEducation" := form.education]
  }

  /** Every trimmed field of the update form is empty. */
  predicate Blank(form: Record) {
    form.firstName == "" && form.lastName == "" && form.email == "" && form.age == "" && form.education == ""
  }

  /** The update form: a non-empty id and at least one non-empty field. */
  function UpdateRequest(rawId: string, raw: Record): (r: Checked<(string, Body)>)
    ensures Trim(rawId) == "" ==> r == Refused("Please enter a valid user ID to update.")
    ensures Trim(rawId) != "" && Blank(TrimAll(raw)) ==> r == Refused("Please provide at least one field to update.")
    ensures r.Accepted? <==> Trim(rawId) != "" && !Blank(TrimAll(raw))
    ensures r.Accepted? ==> r.value == (Trim(rawId), UpdateBody(TrimAll(raw)))
  {
    var updateId := Trim(rawId);
    var form := TrimAll(raw);
    if updateId == "" then Refused("Please enter a valid user ID to update.")
    else if Blank(form) then Refused("Please provide at least one field to update.")
    else Accepted((updateId, UpdateBody(form)))
  }
}
