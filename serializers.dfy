/**
 * The validation and shape layer: `FieldsSerializer` (fifteen required
 * strings of at most 100 characters), `WheelSpecificationSerializer` (the
 * camelCase request names mapped onto the snake_case model attributes, and
 * `create`), and `WheelSpecificationListSerializer` (the listing shape with
 * its four-key `field_summary`).
 */
module Serializers {
  import opened Wrappers
  import opened Dates
  import opened Models
  import opened Store

  /** A JSON value as far as this layer tells values apart; `JOther` is any number, boolean or array. */
  datatype Json = JNull | JString(text: string) | JObject(members: map<string, Json>) | JOther

  // ---------------------------------------------------------------------------
  // FieldsSerializer

  /** The fifteen keys of the nested `fields` object, in declaration order. */
  const FieldNames: seq<string> := [
    "treadDiameterNew", "lastShopIssueSize", "condemningDia", "wheelGauge",
    "variationSameAxle", "variationSameBogie", "variationSameCoach", "wheelProfile",
    "intermediateWWP", "bearingSeatDiameter", "rollerBearingOuterDia",
    "rollerBearingBoreDia", "rollerBearingWidth", "axleBoxHousingBoreDia", "wheelDiscWidth"]

  const FieldNameSet: set<string> := set k | k in FieldNames

  /** `max_length=100` on every one of the fifteen CharFields. */
  const MaxFieldLength: nat := 100

  /**
   * Why a field was refused; the framework's message texts are not modelled.
   * `Null` is a JSON null given to a field that does not allow null.
   */
  datatype FieldError = Required | Null | NotAString | TooLong(limit: nat) | InvalidDate | NotAnObject

  /** The key under which a nested serializer reports input that is not an object. */
  const NonFieldErrors := "non_field_errors"

  /** Reference condition: key `k` of the `fields` object passes its CharField. */
  predicate AcceptedField(data: map<string, Json>, k: string) {
    k in data && data[k].JString? && |data[k].text| <= MaxFieldLength
  }

  /**
   * A required, non-null CharField read from `data[key]`, with an optional
   * `max_length`: accepts exactly a string within the limit and yields it;
   * otherwise reports whether the key is missing, null, not a string, or too long.
   */
  function CheckChar(data: map<string, Json>, key: string, maxLength: Option<nat>): (r: Result<string, FieldError>)
    ensures r.Success? <==>
      key in data && data[key].JString? && (maxLength.Some? ==> |data[key].text| <= maxLength.value)
    ensures r.Success? ==> r.value == data[key].text
    ensures r == Failure(Required) <==> key !in data
    ensures r == Failure(Null) <==> key in data && data[key].JNull?
    ensures r == Failure(NotAString) <==> key in data && !data[key].JString? && !data[key].JNull?
    ensures maxLength.Some? ==>
      (r == Failure(TooLong(maxLength.value)) <==>
       key in data && data[key].JString? && |data[key].text| > maxLength.value)
  {
    if key !in data then Failure(Required)
    else match data[key]
      case JString(t) =>
        if maxLength.Some? && |t| > maxLength.value then Failure(TooLong(maxLength.value)) else Success(t)
      case JNull => Failure(Null)
      case _ => Failure(NotAString)
  }

  /**
   * `FieldsSerializer` validation of the nested object. Accepts exactly when
   * all fifteen keys hold strings of at most 100 characters; the validated map
   * holds those fifteen strings and nothing else (unknown keys are dropped).
   * On failure every offending key, and only those, is reported with its reason.
   */
  function ValidateFields(data: map<string, Json>): (r: Result<map<string, string>, map<string, FieldError>>)
    ensures r.Success? <==> forall k :: k in FieldNameSet ==> AcceptedField(data, k)
    ensures r.Success? ==> r.value.Keys == FieldNameSet
    ensures r.Success? ==> forall k :: k in r.value ==> data[k] == JString(r.value[k])
    ensures r.Failure? ==> forall k :: k in r.error <==> k in FieldNameSet && !AcceptedField(data, k)
    ensures r.Failure? ==> forall k :: k in r.error ==>
      && (r.error[k] == Required <==> k !in data)
      && (r.error[k] == Null <==> k in data && data[k].JNull?)
      && (r.error[k] == NotAString <==> k in data && !data[k].JString? && !data[k].JNull?)
      && (r.error[k] == TooLong(MaxFieldLength) <==> k in data && data[k].JString? && |data[k].text| > MaxFieldLength)
  {
    var errors := map k | k in FieldNameSet && CheckChar(data, k, Some(MaxFieldLength)).Failure? ::
      CheckChar(data, k, Some(MaxFieldLength)).error;
    if errors == map[] then
      assert forall k :: k in FieldNameSet ==> k !in errors;
      Success(map k | k in FieldNameSet :: CheckChar(data, k, Some(MaxFieldLength)).value)
    else
      assert exists k :: k in errors;
      Failure(errors)
  }

  // ---------------------------------------------------------------------------
  // WheelSpecificationSerializer

  /** The four attributes the full shape exposes. */
  datatype Attribute = FormNumber | SubmittedBy | SubmittedDate | Fields

  /** Name of an attribute in requests and responses. */
  function ExternalName(a: Attribute): string {
    match a
    case FormNumber => "formNumber"
    case SubmittedBy => "submittedBy"
    case SubmittedDate => "submittedDate"
    case Fields => "fields"
  }

  /** Name of the model attribute it is stored under (the `source=` argument). */
  function SourceName(a: Attribute): string {
    match a
    case FormNumber => "form_number"
    case SubmittedBy => "submitted_by"
    case SubmittedDate => "submitted_date"
    case Fields => "fields"
  }

  const ExternalNames: set<string> := {"formNumber", "submittedBy", "submittedDate", "fields"}
  const SourceNames: set<string> := {"form_number", "submitted_by", "submitted_date", "fields"}

  /** The request name for each stored name, the inverse of the `source=` mapping. */
  function ExternalFor(source: string): (r: Option<string>)
    ensures r.Some? <==> source in SourceNames
  {
    if source == "form_number" then Some("formNumber")
    else if source == "submitted_by" then Some("submittedBy")
    else if source == "submitted_date" then Some("submittedDate")
    else if source == "fields" then Some("fields")
    else None
  }

  /** The name mapping is one-to-one in both directions. */
  lemma NameMappingIsBijective(a: Attribute, b: Attribute)
    ensures ExternalName(a) in ExternalNames && SourceName(a) in SourceNames
    ensures ExternalName(a) == ExternalName(b) <==> a == b
    ensures SourceName(a) == SourceName(b) <==> a == b
    ensures ExternalFor(SourceName(a)) == Some(ExternalName(a))
  {
  }

  /** A validated value, as DRF's `validated_data` holds it. */
  datatype Native = NText(text: string) | NDate(date: CalendarDate) | NFields(entries: map<string, string>)

  /** The errors reported for one request attribute; `fields` reports its keys one level down. */
  datatype ErrorDetail = Flat(error: FieldError) | Nested(errors: map<string, FieldError>)

  /** Reference condition: request attribute `a` passes its field (all four are required). */
  predicate AttributeAccepted(body: map<string, Json>, a: Attribute) {
    var name := ExternalName(a);
    name in body &&
    match a
    case FormNumber => body[name].JString?
    case SubmittedBy => body[name].JString?
    case SubmittedDate => body[name].JString? && ParseIso(body[name].text).Some?
    case Fields => body[name].JObject? && forall k :: k in FieldNameSet ==> AcceptedField(body[name].members, k)
  }

  /** Every attribute of the body passes its field. */
  predicate Acceptable(body: map<string, Json>) {
    && AttributeAccepted(body, FormNumber)
    && AttributeAccepted(body, SubmittedBy)
    && AttributeAccepted(body, SubmittedDate)
    && AttributeAccepted(body, Fields)
  }

  /** A required DateField read from `body[name]`. */
  function CheckDate(body: map<string, Json>, name: string): (r: Result<CalendarDate, FieldError>)
    ensures r.Success? <==> name in body && body[name].JString? && ParseIso(body[name].text).Some?
    ensures r.Success? ==> r.value == ParseIso(body[name].text).value
    ensures name !in body ==> r == Failure(Required)
    ensures name in body && body[name].JNull? ==> r == Failure(Null)
    ensures name in body && !body[name].JNull? && r.Failure? ==> r == Failure(InvalidDate)
  {
    if name !in body then Failure(Required)
    else match body[name]
      case JString(t) => (match ParseIso(t) case Some(d) => Success(d) case None => Failure(InvalidDate))
      case JNull => Failure(Null)
      case _ => Failure(InvalidDate)
  }

  /**
   * The nested `FieldsSerializer` read from `body[name]`: an object is
   * validated key by key; a null is refused as null, and any other value is
   * reported one level down under `non_field_errors`.
   */
  function CheckNested(body: map<string, Json>, name: string): (r: Result<map<string, string>, ErrorDetail>)
    ensures r.Success? <==>
      name in body && body[name].JObject? && forall k :: k in FieldNameSet ==> AcceptedField(body[name].members, k)
    ensures r.Success? ==> r == Success(ValidateFields(body[name].members).value)
    ensures name in body && body[name].JObject? && r.Failure? ==>
      r.error == Nested(ValidateFields(body[name].members).error)
    ensures name !in body ==> r == Failure(Flat(Required))
    ensures name in body && body[name].JNull? ==> r == Failure(Flat(Null))
    ensures name in body && !body[name].JObject? && !body[name].JNull? ==>
      r == Failure(Nested(map[NonFieldErrors := NotAnObject]))
  {
    if name !in body then Failure(Flat(Required))
    else match body[name]
      case JObject(m) => (match ValidateFields(m) case Success(v) => Success(v) case Failure(e) => Failure(Nested(e)))
      case JNull => Failure(Flat(Null))
      case _ => Failure(Nested(map[NonFieldErrors := NotAnObject]))
  }

  /** `validated_data`: keyed by the stored names, each entry of the kind its field produces. */
  predicate WellFormedData(v: map<string, Native>) {
    && v.Keys == SourceNames
    && v[SourceName(FormNumber)].NText?
    && v[SourceName(SubmittedBy)].NText?
    && v[SourceName(SubmittedDate)].NDate?
    && v[SourceName(Fields)].NFields?
  }

  /** `errors` reports attribute `a` exactly when it fails, and reports a missing one as required. */
  predicate Reports(errors: map<string, ErrorDetail>, body: map<string, Json>, a: Attribute) {
    && (ExternalName(a) in errors <==> !AttributeAccepted(body, a))
    && (ExternalName(a) !in body ==> ExternalName(a) in errors && errors[ExternalName(a)] == Flat(Required))
  }

  /**
   * `is_valid()`: validates the request body. On success the validated data
   * is keyed by the snake_case names and holds the request's values (the date
   * read as a date, `fields` cut down to the fifteen keys); on failure the
   * errors are keyed by the camelCase names of exactly the attributes that
   * failed, with a missing attribute reported as required and a bad `fields`
   * object reported key by key.
   */
  function ToInternalValue(body: map<string, Json>): (r: Result<map<string, Native>, map<string, ErrorDetail>>)
    ensures r.Success? <==> Acceptable(body)
    ensures r.Success? ==> WellFormedData(r.value)
    ensures r.Success? ==>
      && r.value[SourceName(FormNumber)] == NText(body[ExternalName(FormNumber)].text)
      && r.value[SourceName(SubmittedBy)] == NText(body[ExternalName(SubmittedBy)].text)
      && r.value[SourceName(SubmittedDate)] == NDate(ParseIso(body[ExternalName(SubmittedDate)].text).value)
      && r.value[SourceName(Fields)] == NFields(ValidateFields(body[ExternalName(Fields)].members).value)
  {
    var f := CheckChar(body, ExternalName(FormNumber), None);
    var b := CheckChar(body, ExternalName(SubmittedBy), None);
    var d := CheckDate(body, ExternalName(SubmittedDate));
    var x := CheckNested(body, ExternalName(Fields));
    if f.Success? && b.Success? && d.Success? && x.Success? then
      Success(map[SourceName(FormNumber) := NText(f.value), SourceName(SubmittedBy) := NText(b.value),
                  SourceName(SubmittedDate) := NDate(d.value), SourceName(Fields) := NFields(x.value)])
    else
      var e1 := if f.Failure? then map[ExternalName(FormNumber) := Flat(f.error)] else map[];
      var e2 := if b.Failure? then e1[ExternalName(SubmittedBy) := Flat(b.error)] else e1;
      var e3 := if d.Failure? then e2[ExternalName(SubmittedDate) := Flat(d.error)] else e2;
      var e4 := if x.Failure? then e3[ExternalName(Fields) := x.error] else e3;
      Failure(e4)
  }

  /** The errors of a refused body are keyed by request names only. */
  lemma ErrorsUseRequestNames(body: map<string, Json>)
    requires ToInternalValue(body).Failure?
    ensures ToInternalValue(body).error.Keys <= ExternalNames
  {
  }

  /**
   * The errors of a refused body name exactly the attributes that fail, and
   * report a missing attribute as required.
   */
  lemma ErrorsNameFailingAttributes(body: map<string, Json>)
    requires ToInternalValue(body).Failure?
    ensures Reports(ToInternalValue(body).error, body, FormNumber)
    ensures Reports(ToInternalValue(body).error, body, SubmittedBy)
    ensures Reports(ToInternalValue(body).error, body, SubmittedDate)
    ensures Reports(ToInternalValue(body).error, body, Fields)
  {
  }

  /** A `fields` object that fails is reported key by key, as `ValidateFields` reports it. */
  lemma ErrorsNestFieldErrors(body: map<string, Json>)
    requires ToInternalValue(body).Failure?
    requires ExternalName(Fields) in body && body[ExternalName(Fields)].JObject?
    requires !AttributeAccepted(body, Fields)
    ensures ExternalName(Fields) in ToInternalValue(body).error
    ensures ToInternalValue(body).error[ExternalName(Fields)] ==
      Nested(ValidateFields(body[ExternalName(Fields)].members).error)
  {
  }

  /** The model attributes of `w` are the ones `create` takes from the validated data. */
  predicate SavedFrom(w: WheelSpecification, v: map<string, Native>)
    requires WellFormedData(v)
  {
    && w.formNumber == v[SourceName(FormNumber)].text
    && w.submittedBy == v[SourceName(SubmittedBy)].text
    && w.submittedDate == v[SourceName(SubmittedDate)].date
    && w.fields == Some(v[SourceName(Fields)].entries)
  }

  /**
   * `create(validated_data)`: pops `fields` out of the validated data and
   * inserts a row built from it and from the remaining attributes.
   */
  method Create(db: Table, validatedData: map<string, Native>) returns (r: Result<WheelSpecification, StoreError>)
    requires db.Valid() && WellFormedData(validatedData)
    modifies db
    ensures db.Valid()
    ensures HasFormNumber(old(db.rows), validatedData[SourceName(FormNumber)].text) ==>
      r == Failure(IntegrityError) && unchanged(db)
    ensures !HasFormNumber(old(db.rows), validatedData[SourceName(FormNumber)].text) ==>
      && r.Success?
      && SavedFrom(r.value, validatedData)
      && db.rows == old(db.rows) + [r.value]
      && r.value.id == old(db.nextId)
      && db.nextId == old(db.nextId) + 1
      && r.value.createdAt == r.value.updatedAt == db.clock == old(db.clock) + 1
  {
    var data := validatedData;
    var fieldsData := data[SourceName(Fields)].entries;
    data := data - {SourceName(Fields)};
    r := db.Create(data[SourceName(FormNumber)].text, data[SourceName(SubmittedBy)].text,
                   data[SourceName(SubmittedDate)].date, fieldsData);
  }

  /** A row saved from a valid body holds exactly the fifteen fields, each within bounds. */
  lemma SavedRowHasCompleteFields(body: map<string, Json>, w: WheelSpecification)
    requires ToInternalValue(body).Success?
    requires SavedFrom(w, ToInternalValue(body).value)
    ensures CompleteFields(w)
  {
    assert AttributeAccepted(body, Fields);
  }

  /** A stored `fields` value the full shape can render: exactly the fifteen keys, each within bounds. */
  predicate CompleteFields(w: WheelSpecification) {
    && w.fields.Some?
    && w.fields.value.Keys == FieldNameSet
    && forall k :: k in w.fields.value ==> |w.fields.value[k]| <= MaxFieldLength
  }

  /** The nested `fields` rendered by `FieldsSerializer`: its fifteen keys, or null. */
  function FieldsJson(fields: Option<map<string, string>>): (j: Json)
    requires fields.Some? ==> FieldNameSet <= fields.value.Keys
    ensures fields.None? <==> j == JNull
    ensures fields.Some? ==> j.JObject? && j.members.Keys == FieldNameSet
  {
    match fields
    case None => JNull
    case Some(m) => JObject(map k | k in FieldNameSet :: JString(m[k]))
  }

  /** The full shape of a stored row, under the camelCase names. */
  function Represent(w: WheelSpecification): (r: map<string, Json>)
    requires w.fields.Some? ==> FieldNameSet <= w.fields.value.Keys
    ensures r.Keys == ExternalNames
  {
    map[ExternalName(FormNumber) := JString(w.formNumber),
        ExternalName(SubmittedBy) := JString(w.submittedBy),
        ExternalName(SubmittedDate) := JString(IsoFormat(w.submittedDate)),
        ExternalName(Fields) := FieldsJson(w.fields)]
  }

  /**
   * Request body -> row -> representation: the row saved from a valid body
   * renders back the body's form number, submitter and the fifteen declared
   * entries of its `fields` object.
   */
  lemma RepresentationEchoesBody(body: map<string, Json>, w: WheelSpecification)
    requires ToInternalValue(body).Success?
    requires SavedFrom(w, ToInternalValue(body).value)
    ensures FieldNameSet <= w.fields.value.Keys
    ensures Represent(w)[ExternalName(FormNumber)] == body[ExternalName(FormNumber)]
    ensures Represent(w)[ExternalName(SubmittedBy)] == body[ExternalName(SubmittedBy)]
    ensures Represent(w)[ExternalName(Fields)] ==
      JObject(map k | k in FieldNameSet :: body[ExternalName(Fields)].members[k])
  {
    assert AttributeAccepted(body, Fields);
    assert w.fields.value == ValidateFields(body[ExternalName(Fields)].members).value;
  }

  /** The date of the representation of a row saved from a valid body is the body's date string itself. */
  lemma RepresentationEchoesDate(body: map<string, Json>, w: WheelSpecification)
    requires ToInternalValue(body).Success?
    requires SavedFrom(w, ToInternalValue(body).value)
    ensures Represent(w)[ExternalName(SubmittedDate)] == body[ExternalName(SubmittedDate)]
  {
    assert AttributeAccepted(body, SubmittedDate);
    FormatOfParse(body[ExternalName(SubmittedDate)].text);
  }

  /**
   * Row -> representation -> validated data: a row with complete fields
   * renders to a body that validates to exactly that row's attributes.
   */
  lemma InternalValueOfRepresentation(w: WheelSpecification)
    requires CompleteFields(w)
    ensures ToInternalValue(Represent(w)).Success?
    ensures SavedFrom(w, ToInternalValue(Represent(w)).value)
  {
    var body := Represent(w);
    ParseOfFormat(w.submittedDate);
    assert body[ExternalName(SubmittedDate)] == JString(IsoFormat(w.submittedDate));
    var members := body[ExternalName(Fields)].members;
    assert members == map k | k in FieldNameSet :: JString(w.fields.value[k]);
    assert forall k :: k in FieldNameSet ==> AcceptedField(members, k);
    assert Acceptable(body);
    assert ValidateFields(members).value == w.fields.value;
  }

  // ---------------------------------------------------------------------------
  // WheelSpecificationListSerializer

  /** The four keys of `field_summary`. */
  const SummaryNames: seq<string> := ["treadDiameterNew", "lastShopIssueSize", "condemningDia", "wheelGauge"]

  const SummaryNameSet: set<string> := set k | k in SummaryNames

  /** `get_field_summary`: the four summary keys looked up in the stored `fields`, a null `fields` read as `{}`. */
  function FieldSummary(w: WheelSpecification): (r: map<string, Json>)
    ensures r.Keys == SummaryNameSet
  {
    var full := if w.fields.Some? then w.fields.value else map[];
    map k | k in SummaryNameSet :: if k in full then JString(full[k]) else JNull
  }

  /** The summary keys are among the fifteen declared keys, and there are four of them. */
  lemma SummaryKeysAreDeclaredFields()
    ensures SummaryNameSet <= FieldNameSet
    ensures |SummaryNameSet| == 4
  {
    assert SummaryNameSet == {"treadDiameterNew", "lastShopIssueSize", "condemningDia", "wheelGauge"};
  }

  /** Each summary value is the stored value when the key is stored, and null otherwise. */
  lemma SummaryReadsStoredValues(w: WheelSpecification, k: string)
    requires k in SummaryNames
    ensures w.fields.Some? && k in w.fields.value ==> FieldSummary(w)[k] == JString(w.fields.value[k])
    ensures w.fields.None? || k !in w.fields.value ==> FieldSummary(w)[k] == JNull
  {
  }

  /** A null `fields` summarizes like an empty object: four nulls. */
  lemma NullFieldsSummarizeAsEmpty(w: WheelSpecification)
    requires w.fields.None?
    ensures FieldSummary(w) == FieldSummary(w.(fields := Some(map[])))
    ensures forall k :: k in FieldSummary(w) ==> FieldSummary(w)[k] == JNull
  {
  }

  /** The summary reads only the four summary keys: the other eleven can change freely. */
  lemma SummaryIgnoresOtherKeys(a: WheelSpecification, b: WheelSpecification)
    requires a.fields.Some? && b.fields.Some?
    requires forall k :: k in SummaryNames ==>
      (k in a.fields.value <==> k in b.fields.value) &&
      (k in a.fields.value ==> a.fields.value[k] == b.fields.value[k])
    ensures FieldSummary(a) == FieldSummary(b)
  {
  }

  /** The summary of a row saved from a valid body is the body's four summary entries. */
  lemma SummaryOfSubmission(body: map<string, Json>, w: WheelSpecification)
    requires ToInternalValue(body).Success?
    requires SavedFrom(w, ToInternalValue(body).value)
    ensures SummaryNameSet <= body[ExternalName(Fields)].members.Keys
    ensures FieldSummary(w) == map k | k in SummaryNameSet :: body[ExternalName(Fields)].members[k]
  {
    assert AttributeAccepted(body, Fields);
    var members := body[ExternalName(Fields)].members;
    SummaryKeysAreDeclaredFields();
    assert forall k :: k in SummaryNameSet ==> AcceptedField(members, k);
  }

  /** One element of the listing: three attributes copied from the row and the summary. */
  function ListRepresentation(w: WheelSpecification): (r: map<string, Json>)
    ensures r.Keys == {ExternalName(FormNumber), ExternalName(SubmittedBy), ExternalName(SubmittedDate), "field_summary"}
    ensures r["field_summary"] == JObject(FieldSummary(w))
  {
    map[ExternalName(FormNumber) := JString(w.formNumber),
        ExternalName(SubmittedBy) := JString(w.submittedBy),
        ExternalName(SubmittedDate) := JString(IsoFormat(w.submittedDate)),
        "field_summary" := JObject(FieldSummary(w))]
  }

  /** The listing shape gives back the row's form number, submitter and date unchanged. */
  lemma ListRepresentationReadsBack(w: WheelSpecification)
    ensures ListRepresentation(w)[ExternalName(FormNumber)] == JString(w.formNumber)
    ensures ListRepresentation(w)[ExternalName(SubmittedBy)] == JString(w.submittedBy)
    ensures ParseIso(ListRepresentation(w)[ExternalName(SubmittedDate)].text) == Some(w.submittedDate)
  {
    ParseOfFormat(w.submittedDate);
  }
}
