/** How the browser client's checks and bodies meet the two services: where
    the client and the server disagree on a field, and what each update
    handler does with the body the client sends. */
module EndToEnd {
  import opened JsValues
  import opened Validation
  import opened Records
  import opened Client
  import UserController

  /** The default the client sends for an empty education passes the
      server's education pattern. */
  lemma DefaultEducationPasses()
    ensures Matches(EducationRule, "Not Available")
  {
    var s := "Not Available";
    assert forall i :: 0 <= i < |s| ==> IsEducationChar(s[i]);
    MatchEducationCorrect(s);
  }

  /** The values the services read from the body the add form posts. */
  lemma AddBodyRead(form: Record)
    ensures ReadBody(AddBody(form), UserKey) ==
      Values(Str(form.firstName), Str(form.lastName), Str(form.email), Str(form.age),
             Str(if form.education != "" then form.education else "Not Available"))
  {
  }

  /** A client-accepted name passes the server exactly when it has at least
      three characters. */
  lemma NameOnServer(s: string)
    requires MatchClientName(s)
    ensures ValidateInput(Str(s), NameRule) <==> |s| >= 3
  {
    MatchClientNameCorrect(s);
    MatchNameCorrect(s);
  }

  /** A client-accepted education, or the default sent for an empty one,
      passes the server exactly when it is empty or has at least two
      characters. */
  lemma EducationOnServer(s: string)
    requires s == "" || MatchClientEducation(s)
    ensures ValidateInput(Str(if s != "" then s else "Not Available"), EducationRule) <==> (s == "" || |s| >= 2)
  {
    if s == "" {
      DefaultEducationPasses();
    } else {
      MatchClientEducationCorrect(s);
      MatchEducationCorrect(s);
    }
  }

  /** The values read from an accepted form's body pass every server check
      exactly when both names have at least three characters and the
      education is empty or has at least two. */
  lemma AcceptedValuesOnServer(form: Record, v: Values)
    requires forall f :: ClientValid(form, f)
    requires v == Values(Str(form.firstName), Str(form.lastName), Str(form.email), Str(form.age),
                         Str(if form.education != "" then form.education else "Not Available"))
    ensures AllFieldsValid(v) <==>
      |form.firstName| >= 3 && |form.lastName| >= 3 && (form.education == "" || |form.education| >= 2)
  {
    assert ClientValid(form, FirstName) && ClientValid(form, LastName) && ClientValid(form, Email);
    assert ClientValid(form, Age) && ClientValid(form, Education);
    NameOnServer(form.firstName);
    NameOnServer(form.lastName);
    EducationOnServer(form.education);
    NoPatternMatchesEmpty(EmailRule);
    NoPatternMatchesEmpty(AgeRule);
    assert FieldValid(v, Email) && FieldValid(v, Age);
    assert AllFieldsValid(v) <==>
      FieldValid(v, FirstName) && FieldValid(v, LastName) && FieldValid(v, Education);
  }

  /** For a form the client accepts, the server accepts its body exactly
      when both names have at least three characters and the education is
      empty or has at least two: the client's shorter names and one-letter
      educations are the only disagreements. */
  lemma AcceptedFormOnServer(form: Record)
    requires forall f :: ClientValid(form, f)
    ensures SubmitErrors(ReadBody(AddBody(form), UserKey)) == [] <==>
      |form.firstName| >= 3 && |form.lastName| >= 3 && (form.education == "" || |form.education| >= 2)
  {
    var v := ReadBody(AddBody(form), UserKey);
    AddBodyRead(form);
    AcceptedValuesOnServer(form, v);
    SubmitErrorsMessages(v);
  }

  /** "Jo" passes the client's name check and fails the server's; "john"
      passes the server's and fails the client's. */
  lemma NameChecksDisagree()
    ensures MatchClientName("Jo") && !Matches(NameRule, "Jo")
    ensures Matches(NameRule, "john") && !MatchClientName("john")
  {
    NameExamples();
    MatchClientNameCorrect("Jo");
  }

  /** The update form's body holds only `update*` members, so the MySQL
      update handler, which reads `user*` members, sees no field given. */
  lemma UpdateBodyInvisibleToMySql(form: Record)
    ensures NoFieldGiven(ReadBody(UpdateBody(form), UserKey))
  {
    var v := ReadBody(UpdateBody(form), UserKey);
    assert v == Values(Undefined, Undefined, Undefined, Undefined, Undefined);
  }

  /** Through the MySQL handler, an update sent by the client validates the
      stored row and writes it back unchanged, whatever the user typed,
      unless the stored age is 0, in which case it fails with "Invalid age". */
  lemma MySqlIgnoresClientUpdate(form: Record, r: Record)
    requires RecordValid(r)
    ensures var merged := Merge(ReadBody(UpdateBody(form), UserKey), UserController.StoredValues(r));
      && (r.age != "0" ==> FirstFailure(merged) == None && ToRecord(merged) == r)
      && (r.age == "0" ==> FirstFailure(merged) == Some(Age))
  {
    var req := ReadBody(UpdateBody(form), UserKey);
    UpdateBodyInvisibleToMySql(form);
    if r.age != "0" {
      UserController.EmptyUpdateKeepsRow(req, r);
    } else {
      UserController.StoredZeroAgeBlocksUpdate(req, r);
    }
  }

  /** The Supabase update handler reads the update form's body as the
      trimmed inputs. */
  lemma UpdateBodyRead(form: Record)
    ensures ReadBody(UpdateBody(form), UpdateKey) ==
      Values(Str(form.firstName), Str(form.lastName), Str(form.email), Str(form.age), Str(form.education))
  {
  }

  /** An update the client sends always passes the Supabase handler's
      at-least-one-field check. */
  lemma SupabaseSeesClientUpdate(rawId: string, raw: Record)
    requires UpdateRequest(rawId, raw).Accepted?
    ensures !NoFieldGiven(ReadBody(UpdateRequest(rawId, raw).value.1, UpdateKey))
  {
    var form := TrimAll(raw);
    assert !Blank(form) && UpdateRequest(rawId, raw).value.1 == UpdateBody(form);
    UpdateBodyRead(form);
    var v := ReadBody(UpdateBody(form), UpdateKey);
    assert Truthy(v.Get(FirstName)) || Truthy(v.Get(LastName)) || Truthy(v.Get(Email))
      || Truthy(v.Get(Age)) || Truthy(v.Get(Education));
  }
}
