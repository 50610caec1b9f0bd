/**
 * The `WheelSpecifications` view. GET narrows the table by up to three
 * optional equality filters and answers with the listing envelope; POST
 * validates the body, saves it through the serializer and answers with a
 * confirmation, or with the validation errors.
 */
module Views {
  import opened Wrappers
  import opened Dates
  import opened Models
  import opened Store
  import opened Serializers

  const HTTP_200_OK := 200
  const HTTP_201_CREATED := 201
  const HTTP_400_BAD_REQUEST := 400

  const ListMessage := "Filtered wheel specification forms fetched successfully."
  const CreatedMessage := "Wheel specification submitted successfully."
  const SavedStatus := "Saved"

  /** The two envelopes (`items` and `saved` both go out under the key `data`) and the bare error map. */
  datatype ResponseBody =
    | Listing(success: bool, message: string, items: seq<map<string, Json>>)
    | Submitted(success: bool, message: string, saved: map<string, Json>)
    | ValidationErrors(errors: map<string, ErrorDetail>)

  datatype Response = Response(status: int, body: ResponseBody)

  /** What a request handler does: answer, or let an exception from the database layer escape. */
  datatype Outcome = Responded(response: Response) | Raised(error: StoreError)

  // ---------------------------------------------------------------------------
  // GET

  /** `request.query_params.get(name, None)` read as a filter: absent and empty both mean "no filter". */
  function Param(query: map<string, string>, name: string): (r: Option<string>)
    ensures r.Some? <==> name in query && query[name] != ""
    ensures r.Some? ==> r.value == query[name]
  {
    if name in query && query[name] != "" then Some(query[name]) else None
  }

  /** One `queryset.filter(attribute=value)`. */
  datatype Condition = FormNumberIs(string) | SubmittedByIs(string) | SubmittedDateIs(CalendarDate)

  predicate Satisfies(w: WheelSpecification, c: Condition) {
    match c
    case FormNumberIs(v) => w.formNumber == v
    case SubmittedByIs(v) => w.submittedBy == v
    case SubmittedDateIs(d) => w.submittedDate == d
  }

  /**
   * The rows that satisfy `c`, in their original order: each satisfying row
   * as often as it is stored, and no other row.
   */
  function Where(rows: seq<WheelSpecification>, c: Condition): (r: seq<WheelSpecification>)
    ensures |r| <= |rows|
    ensures forall w :: multiset(r)[w] == if Satisfies(w, c) then multiset(rows)[w] else 0
    ensures forall w :: w in r <==> w in rows && Satisfies(w, c)
  {
    if rows == [] then []
    else
      assert rows == [rows[0]] + rows[1..];
      (if Satisfies(rows[0], c) then [rows[0]] else []) + Where(rows[1..], c)
  }

  lemma {:induction false} WhereConcat(a: seq<WheelSpecification>, b: seq<WheelSpecification>, c: Condition)
    ensures Where(a + b, c) == Where(a, c) + Where(b, c)
  {
    if a == [] {
      assert a + b == b;
    } else {
      var head := if Satisfies(a[0], c) then [a[0]] else [];
      assert (a + b)[0] == a[0] && (a + b)[1..] == a[1..] + b;
      WhereConcat(a[1..], b, c);
      calc {
        Where(a + b, c);
        head + Where(a[1..] + b, c);
        head + (Where(a[1..], c) + Where(b, c));
        { ConcatAssociative(head, Where(a[1..], c), Where(b, c)); }
        (head + Where(a[1..], c)) + Where(b, c);
        Where(a, c) + Where(b, c);
      }
    }
  }

  lemma ConcatAssociative<T>(x: seq<T>, y: seq<T>, z: seq<T>)
    ensures x + (y + z) == (x + y) + z
  {
  }

  lemma {:induction false} WhereNoneSatisfy(rows: seq<WheelSpecification>, c: Condition)
    requires forall w :: w in rows ==> !Satisfies(w, c)
    ensures Where(rows, c) == []
  {
    if rows != [] {
      assert forall w :: w in rows[1..] ==> w in rows;
      WhereNoneSatisfy(rows[1..], c);
    }
  }

  /** With unique form numbers, a form-number filter keeps at most one row. */
  lemma {:induction false} FormNumberFilterKeepsAtMostOne(rows: seq<WheelSpecification>, formNumber: string)
    requires UniqueFormNumbers(rows)
    ensures |Where(rows, FormNumberIs(formNumber))| <= 1
  {
    if rows != [] {
      var c := FormNumberIs(formNumber);
      if rows[0].formNumber == formNumber {
        forall w | w in rows[1..] ensures !Satisfies(w, c) {
          var k :| 0 <= k < |rows[1..]| && rows[1..][k] == w;
          assert rows[k + 1] == w;
        }
        WhereNoneSatisfy(rows[1..], c);
      } else {
        assert UniqueFormNumbers(rows[1..]);
        FormNumberFilterKeepsAtMostOne(rows[1..], formNumber);
      }
    }
  }

  /** The date parameter is present and non-empty but names no calendar date. */
  predicate BadDateParam(query: map<string, string>) {
    var p := Param(query, ExternalName(SubmittedDate));
    p.Some? && ParseIso(p.value).None?
  }

  /**
   * The queryset `get` builds: all rows, then each present filter in turn,
   * evaluated in the default ordering. A date the DateField cannot read makes
   * `filter` raise.
   */
  function Queryset(rows: seq<WheelSpecification>, query: map<string, string>): (r: Result<seq<WheelSpecification>, StoreError>)
    ensures r.Failure? <==> BadDateParam(query)
    ensures r.Failure? ==> r.error == InvalidLookupValue
    ensures r.Success? ==> InListingOrder(r.value)
  {
    var formNumber := Param(query, ExternalName(FormNumber));
    var submittedBy := Param(query, ExternalName(SubmittedBy));
    var submittedDate := Param(query, ExternalName(SubmittedDate));
    var qs0 := rows;
    var qs1 := if formNumber.Some? then Where(qs0, FormNumberIs(formNumber.value)) else qs0;
    var qs2 := if submittedBy.Some? then Where(qs1, SubmittedByIs(submittedBy.value)) else qs1;
    if submittedDate.Some? && ParseIso(submittedDate.value).None? then
      Failure(InvalidLookupValue)
    else
      var qs3 := if submittedDate.Some? then Where(qs2, SubmittedDateIs(ParseIso(submittedDate.value).value)) else qs2;
      Success(Ordered(qs3))
  }

  /** Reference condition: `w` agrees with every present, non-empty parameter. */
  predicate Matches(w: WheelSpecification, query: map<string, string>) {
    var formNumber := Param(query, ExternalName(FormNumber));
    var submittedBy := Param(query, ExternalName(SubmittedBy));
    var submittedDate := Param(query, ExternalName(SubmittedDate));
    && (formNumber.Some? ==> w.formNumber == formNumber.value)
    && (submittedBy.Some? ==> w.submittedBy == submittedBy.value)
    && (submittedDate.Some? ==> IsoFormat(w.submittedDate) == submittedDate.value)
  }

  /** No parameter is present with a non-empty value. */
  predicate NoFilters(query: map<string, string>) {
    && Param(query, ExternalName(FormNumber)).None?
    && Param(query, ExternalName(SubmittedBy)).None?
    && Param(query, ExternalName(SubmittedDate)).None?
  }

  /** The `data` of the listing: one item per row, in the row's listing shape, in row order. */
  function ListData(qs: seq<WheelSpecification>): (data: seq<map<string, Json>>)
    ensures |data| == |qs|
    ensures forall i :: 0 <= i < |qs| ==> data[i] == ListRepresentation(qs[i])
  {
    seq(|qs|, i requires 0 <= i < |qs| => ListRepresentation(qs[i]))
  }

  /**
   * `get`: raises exactly when the date parameter is not a date; otherwise
   * answers 200 with the fixed envelope, listing each row of the queryset in
   * its listing shape, in queryset order, whether or not any row matched.
   */
  function HandleGet(rows: seq<WheelSpecification>, query: map<string, string>): (r: Outcome)
    ensures r.Raised? <==> BadDateParam(query)
    ensures r.Raised? ==> r.error == InvalidLookupValue
    ensures r.Responded? ==>
      && r.response.status == HTTP_200_OK
      && r.response.body.Listing? && r.response.body.success && r.response.body.message == ListMessage
      && |r.response.body.items| == |Queryset(rows, query).value|
      && forall i :: 0 <= i < |r.response.body.items| ==>
           r.response.body.items[i] == ListRepresentation(Queryset(rows, query).value[i])
  {
    match Queryset(rows, query)
    case Failure(e) => Raised(e)
    case Success(qs) => Responded(Response(HTTP_200_OK, Listing(true, ListMessage, ListData(qs))))
  }

  /**
   * With a readable date parameter, the queryset holds exactly the stored
   * rows that match every present parameter: no other row, none of them left
   * out, and each as often as it is stored.
   */
  lemma GetSelectsMatchingRows(rows: seq<WheelSpecification>, query: map<string, string>)
    requires !BadDateParam(query)
    ensures Queryset(rows, query).Success?
    ensures forall w :: w in Queryset(rows, query).value <==> w in rows && Matches(w, query)
    ensures forall w ::
      multiset(Queryset(rows, query).value)[w] == (if Matches(w, query) then multiset(rows)[w] else 0)
  {
    forall w
      ensures multiset(Queryset(rows, query).value)[w] == (if Matches(w, query) then multiset(rows)[w] else 0)
      ensures w in Queryset(rows, query).value <==> w in rows && Matches(w, query)
    {
      QuerysetCount(rows, query, w);
    }
  }

  /** How often one row appears in the queryset: as often as it is stored if it matches, otherwise never. */
  lemma QuerysetCount(rows: seq<WheelSpecification>, query: map<string, string>, w: WheelSpecification)
    requires !BadDateParam(query)
    ensures Queryset(rows, query).Success?
    ensures multiset(Queryset(rows, query).value)[w] == (if Matches(w, query) then multiset(rows)[w] else 0)
  {
    var formNumber := Param(query, ExternalName(FormNumber));
    var submittedBy := Param(query, ExternalName(SubmittedBy));
    var submittedDate := Param(query, ExternalName(SubmittedDate));
    var qs1 := if formNumber.Some? then Where(rows, FormNumberIs(formNumber.value)) else rows;
    var qs2 := if submittedBy.Some? then Where(qs1, SubmittedByIs(submittedBy.value)) else qs1;
    var qs3 := if submittedDate.Some? then Where(qs2, SubmittedDateIs(ParseIso(submittedDate.value).value)) else qs2;
    assert Queryset(rows, query) == Success(Ordered(qs3));
    if submittedDate.Some? {
      ParseIsoIff(submittedDate.value, w.submittedDate);
    }
    assert multiset(qs2)[w] ==
      if (formNumber.Some? ==> w.formNumber == formNumber.value)
         && (submittedBy.Some? ==> w.submittedBy == submittedBy.value)
      then multiset(rows)[w] else 0;
  }

  /** With no filters in effect, GET lists the whole table in the default order. */
  lemma GetWithoutFiltersListsEverything(rows: seq<WheelSpecification>, query: map<string, string>)
    requires NoFilters(query)
    ensures Queryset(rows, query) == Success(Ordered(rows))
    ensures multiset(Queryset(rows, query).value) == multiset(rows)
  {
  }

  /** With unique form numbers, filtering by a form number lists at most one row. */
  lemma FormNumberQueryListsAtMostOne(rows: seq<WheelSpecification>, query: map<string, string>)
    requires UniqueFormNumbers(rows)
    requires Param(query, ExternalName(FormNumber)).Some?
    requires !BadDateParam(query)
    ensures |Queryset(rows, query).value| <= 1
  {
    var formNumber := Param(query, ExternalName(FormNumber)).value;
    FormNumberFilterKeepsAtMostOne(rows, formNumber);
    var qs1 := Where(rows, FormNumberIs(formNumber));
    var submittedBy := Param(query, ExternalName(SubmittedBy));
    var qs2 := if submittedBy.Some? then Where(qs1, SubmittedByIs(submittedBy.value)) else qs1;
    assert |qs2| <= |qs1|;
  }

  // ---------------------------------------------------------------------------
  // POST

  /** The `data` of the 201 answer. */
  function Confirmation(w: WheelSpecification): (r: map<string, Json>)
    ensures r.Keys == {ExternalName(FormNumber), ExternalName(SubmittedBy), ExternalName(SubmittedDate), "status"}
    ensures r["status"] == JString(SavedStatus)
  {
    map[ExternalName(FormNumber) := JString(w.formNumber),
        ExternalName(SubmittedBy) := JString(w.submittedBy),
        ExternalName(SubmittedDate) := JString(IsoFormat(w.submittedDate)),
        "status" := JString(SavedStatus)]
  }

  /** The confirmation of a row saved from a valid body echoes the body's form number, submitter and date string. */
  lemma ConfirmationEchoesBody(body: map<string, Json>, w: WheelSpecification)
    requires ToInternalValue(body).Success?
    requires SavedFrom(w, ToInternalValue(body).value)
    ensures Confirmation(w)[ExternalName(FormNumber)] == body[ExternalName(FormNumber)]
    ensures Confirmation(w)[ExternalName(SubmittedBy)] == body[ExternalName(SubmittedBy)]
    ensures Confirmation(w)[ExternalName(SubmittedDate)] == body[ExternalName(SubmittedDate)]
    ensures ParseIso(Confirmation(w)[ExternalName(SubmittedDate)].text) == Some(w.submittedDate)
  {
    FormatOfParse(body[ExternalName(SubmittedDate)].text);
    ParseOfFormat(w.submittedDate);
  }

  /** Every stored row holds a complete `fields` object. */
  predicate AllComplete(rows: seq<WheelSpecification>) {
    forall i :: 0 <= i < |rows| ==> CompleteFields(rows[i])
  }

  /**
   * `post`: a body that fails validation is answered 400 with the errors and
   * nothing is stored; a valid body whose form number is already stored makes
   * the save raise `IntegrityError` (the view has no handler for it) and
   * nothing is stored; otherwise exactly one row is appended, holding the
   * submitted values, and the answer is 201 with its confirmation.
   */
  method Post(db: Table, body: map<string, Json>) returns (outcome: Outcome)
    requires db.Valid()
    modifies db
    ensures db.Valid()
    ensures ToInternalValue(body).Failure? ==>
      outcome == Responded(Response(HTTP_400_BAD_REQUEST, ValidationErrors(ToInternalValue(body).error)))
      && unchanged(db)
    ensures ToInternalValue(body).Success? && HasFormNumber(old(db.rows), body[ExternalName(FormNumber)].text) ==>
      outcome == Raised(IntegrityError) && unchanged(db)
    ensures ToInternalValue(body).Success? && !HasFormNumber(old(db.rows), body[ExternalName(FormNumber)].text) ==>
      && |db.rows| == |old(db.rows)| + 1
      && db.rows[..|old(db.rows)|] == old(db.rows)
      && SavedFrom(db.rows[|old(db.rows)|], ToInternalValue(body).value)
      && db.rows[|old(db.rows)|].id == old(db.nextId)
      && db.nextId == old(db.nextId) + 1
      && db.rows[|old(db.rows)|].createdAt == db.rows[|old(db.rows)|].updatedAt == db.clock == old(db.clock) + 1
      && outcome == Responded(Response(HTTP_201_CREATED,
                                       Submitted(true, CreatedMessage, Confirmation(db.rows[|old(db.rows)|]))))
    ensures AllComplete(old(db.rows)) ==> AllComplete(db.rows)
  {
    var validated := ToInternalValue(body);
    if validated.Failure? {
      return Responded(Response(HTTP_400_BAD_REQUEST, ValidationErrors(validated.error)));
    }
    var saved := Create(db, validated.value);
    if saved.Failure? {
      return Raised(saved.error);
    }
    var w := saved.value;
    SavedRowHasCompleteFields(body, w);
    outcome := Responded(Response(HTTP_201_CREATED, Submitted(true, CreatedMessage, Confirmation(w))));
  }

  /** A query holding only a non-empty form number filters on it alone. */
  lemma FormNumberOnlyQuery(rows: seq<WheelSpecification>, formNumber: string)
    requires formNumber != ""
    ensures Queryset(rows, map[ExternalName(FormNumber) := formNumber]) ==
      Success(Ordered(Where(rows, FormNumberIs(formNumber))))
  {
    var query := map[ExternalName(FormNumber) := formNumber];
    assert Param(query, ExternalName(FormNumber)) == Some(formNumber);
    assert Param(query, ExternalName(SubmittedBy)).None?;
    assert Param(query, ExternalName(SubmittedDate)).None?;
  }

  /** A GET filtered on the form number of a freshly appended row selects that row alone. */
  lemma FreshRowIsListedAlone(rows: seq<WheelSpecification>, w: WheelSpecification)
    requires !HasFormNumber(rows, w.formNumber) && w.formNumber != ""
    ensures Queryset(rows + [w], map[ExternalName(FormNumber) := w.formNumber]) == Success([w])
  {
    FreshRowFilteredAlone(rows, w);
    FormNumberOnlyQuery(rows + [w], w.formNumber);
    assert Ordered([w]) == [w];
  }

  /** Filtering on the form number of a row appended with a fresh form number keeps that row alone. */
  lemma FreshRowFilteredAlone(rows: seq<WheelSpecification>, w: WheelSpecification)
    requires !HasFormNumber(rows, w.formNumber)
    ensures Where(rows + [w], FormNumberIs(w.formNumber)) == [w]
  {
    var c := FormNumberIs(w.formNumber);
    forall v | v in rows ensures !Satisfies(v, c) {
      var k :| 0 <= k < |rows| && rows[k] == v;
    }
    WhereNoneSatisfy(rows, c);
    WhereConcat(rows, [w], c);
    assert Where([w], c) == [w];
  }

}
