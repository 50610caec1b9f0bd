# Wheel specification forms — a Dafny model

This project models the core of a small Django REST Framework service that
stores railway wheel specification forms. A form has a unique form number, a
submitter, a submission date and a nested `fields` object of fifteen
measurement strings.

- `POST` validates a camelCase JSON body, stores it and answers with a
  confirmation, or answers with the validation errors.
- `GET` lists the stored forms, newest submission date first. Three optional
  equality filters narrow the list, and each listed form carries a four-key
  summary of its `fields`.

The model has six modules:

- `Wrappers`: `Option` and `Result`.
- `Dates`: calendar dates, their order, and the ISO 8601 extended calendar
  date `YYYY-MM-DD` (ISO 8601:2004, section 4.1.2.2) with its parser, proved
  to be mutual inverses.
- `Models`: the `WheelSpecification` record, its string form, the uniqueness
  of form numbers and the default ordering `-submitted_date`. The ordering is
  a stable insertion sort proved sorted and a permutation.
- `Store`: the table as a class `Table`. It holds the rows, an auto-increment
  key and a logical clock. `Create` and `Save` keep the unique constraint and
  the `created_at`/`updated_at` rules.
- `Serializers`: the three serializers. This covers validation (`is_valid`),
  the camelCase/snake_case mapping, `create`, the full representation and the
  listing shape with `field_summary`.
- `Views`: the `get` and `post` handlers with their envelopes and status
  codes.

JSON values are modelled as `Json`. Its cases are null, string, object and
`JOther`, which stands for any number, boolean or array. Request bodies, query
strings and representations are maps. Times are logical clock ticks, not wall
clock readings.

Where the written description of the service and the code disagree, the
model follows the code:

- A valid POST whose form number is already stored is not answered with 400.
  The unique constraint makes `save()` raise `IntegrityError`, and the view
  has no handler for it (`Views.Post` gives `Raised(IntegrityError)`).
- There is no 500 error envelope anywhere in the code.
- Unknown keys inside `fields` are dropped, not refused. `FieldsSerializer` is
  a plain `Serializer`, which ignores undeclared keys.
- A refused body is answered with the bare `serializer.errors` map, without a
  `success`/`message` envelope.
- The summary is sent under the key `field_summary`, not `fieldSummary`.
- A `submittedDate` query value that is not a date makes the filter raise.
  The code has no check for it.

## Model

| member | source | states |
|---|---|---|
| Dates.DaysInMonth | app/models.py:9 | the length of every month is pinned: 31 for January, March, May, July, August, October and December, 30 for April, June, September and November, and for February 29 in a leap year and 28 otherwise |
| Dates.Pad | app/views.py:67 | each date part is written with exactly the given number of digits, leading zeros included |
| Dates.DigitsValue | app/serializers.py:38 | a digit string of length n denotes a number below 10^n |
| Dates.ValueOfPad | app/views.py:67 | reading a zero-padded number back gives the number |
| Dates.PadOfValue | app/serializers.py:38 | padding the value of a digit string to its length gives the string back |
| Dates.IsoFormat | app/views.py:67 | `isoformat()` yields the ten-character shape YYYY-MM-DD |
| Dates.ParseIso | app/serializers.py:38 | a date string is accepted only in the YYYY-MM-DD shape, and only when it names a real calendar day |
| Dates.ParseOfFormat | app/views.py:67 | parsing the ISO spelling of a date gives that date back |
| Dates.FormatOfParse | app/serializers.py:38 | an accepted date string is the ISO spelling of the date it parses to |
| Dates.IsoFormatInjective | app/views.py:67 | two dates have the same ISO spelling exactly when they are the same date |
| Dates.ParseIsoIff | app/views.py:35-36 | a string names date d exactly when it is d's ISO spelling, so a date filter matches by day |
| Dates.NotAfterIsTotalOrder | app/models.py:27 | the date order behind the listing is reflexive, total, antisymmetric and transitive |
| Models.Str | app/models.py:17-21 | the string form is the prefix "Wheel Spec Form: " followed by the form number |
| Models.StrDeterminesFormNumber | app/models.py:17-21 | two rows have the same string form exactly when they have the same form number |
| Models.InsertByDate | app/models.py:27 | inserting into a listing ordered latest-first keeps it ordered and adds exactly the new row |
| Models.HeadBoundsListing | app/models.py:27 | in a listing ordered latest first, no row is dated later than the first one |
| Models.Ordered | app/models.py:27 | the default listing is ordered by submission date, latest first, and is a permutation of the rows |
| Models.OrderedKeepsOrderedRows | app/models.py:27 | rows already in listing order are left as they are |
| Store.FindId | app/models.py:5 | finds the position of the row with a given primary key, or reports that no row has it |
| Store.Table.constructor | app/models.py:5-15 | a new table is empty, and its invariant holds |
| Store.Table.Create | app/models.py:7-15 | a form number already stored is refused with `IntegrityError` and nothing changes; otherwise one row holding the given values and a non-null `fields` is appended under a fresh key, both timestamps read the clock of the insert (equal only because the logical clock ticks once per write), and the table invariant is kept |
| Store.Table.Save | app/models.py:7-15 | a null `fields` (the NOT NULL column) or a form number held by another row raises `IntegrityError` and nothing changes; a stored key is updated with the instance's own attributes, `created_at` included, and a new `updated_at`; a key no row has is inserted with both timestamps reading the clock; the table invariant is kept |
| Serializers.ValidateFields | app/serializers.py:12-26 | the nested object is accepted exactly when all fifteen keys hold strings of at most 100 characters; the result holds exactly those fifteen strings; on failure exactly the failing keys are reported, each with its reason (missing, null, not a string, longer than 100) |
| Serializers.CheckChar | app/serializers.py:12-37 | a required, non-null CharField accepts exactly a string within its `max_length` and yields it (NUL characters not refused, see Left out); a missing key, a null, a non-string and an overlong string are each reported with their own reason |
| Serializers.ExternalFor | app/serializers.py:36-38 | every stored attribute name has a request name, and no other name has one |
| Serializers.NameMappingIsBijective | app/serializers.py:36-38 | the camelCase/snake_case mapping is one-to-one, and mapping a stored name back gives its request name |
| Serializers.CheckDate | app/serializers.py:38 | the date field accepts exactly a string that parses to a date and yields that date; a missing value is reported as required, a null as null, anything else as an invalid date |
| Serializers.CheckNested | app/serializers.py:41 | the nested field accepts exactly an object whose fifteen keys pass and yields the validated strings; a failing object is reported key by key, a null as null, and any other value one level down under `non_field_errors` |
| Serializers.ToInternalValue | app/serializers.py:29-52 | a body validates exactly when all four attributes pass; the validated data is keyed by the snake_case names and holds the body's values |
| Serializers.ErrorsUseRequestNames | app/serializers.py:43-52 | the errors of a refused body are keyed by request names only |
| Serializers.ErrorsNameFailingAttributes | app/serializers.py:36-41 | a refused body's errors name exactly the failing attributes, a missing one as required |
| Serializers.ErrorsNestFieldErrors | app/serializers.py:41 | a failing `fields` object is reported with the nested per-key errors |
| Serializers.Create | app/serializers.py:54-65 | `create` appends a row whose attributes are the validated values, with `fields` unchanged, under the next key, both timestamps and the clock advanced by one tick; a stored form number is refused and nothing changes |
| Serializers.SavedRowHasCompleteFields | app/serializers.py:59-63 | a row saved from a valid body holds exactly the fifteen fields, each of at most 100 characters |
| Serializers.FieldsJson | app/serializers.py:41 | the nested representation is null for a null value, and otherwise an object with exactly the fifteen keys |
| Serializers.Represent | app/serializers.py:43-52 | the full representation has exactly the four request names as keys |
| Serializers.RepresentationEchoesBody | app/serializers.py:29-65 | body to row to representation gives back the body's form number, submitter and the fifteen declared entries of its `fields` object |
| Serializers.RepresentationEchoesDate | app/serializers.py:38 | body to row to representation gives back the body's date string exactly |
| Serializers.InternalValueOfRepresentation | app/serializers.py:29-52 | the representation of a row with complete fields validates back to exactly that row's attributes |
| Serializers.FieldSummary | app/serializers.py:89-100 | the summary always has exactly the four summary keys |
| Serializers.SummaryKeysAreDeclaredFields | app/serializers.py:95-100 | the four summary keys are among the fifteen declared fields |
| Serializers.SummaryReadsStoredValues | app/serializers.py:94-100 | each summary value is the stored value when the key is stored, and null otherwise |
| Serializers.NullFieldsSummarizeAsEmpty | app/serializers.py:94 | a null `fields` summarizes as an empty object does, with four nulls |
| Serializers.SummaryIgnoresOtherKeys | app/serializers.py:95-100 | the summary depends only on the four summary keys |
| Serializers.SummaryOfSubmission | app/serializers.py:54-65 | the summary of a row saved from a valid body is the body's four summary entries |
| Serializers.ListRepresentation | app/serializers.py:67-86 | each listed item has exactly the keys formNumber, submittedBy, submittedDate and field_summary, and its `field_summary` is the row's summary from `get_field_summary` |
| Serializers.ListRepresentationReadsBack | app/serializers.py:72-74 | the listed form number and submitter are the stored ones, and the listed date string parses back to the stored date |
| Views.Param | app/views.py:26-31 | a filter is in effect exactly when its parameter is present with a non-empty value |
| Views.Where | app/views.py:31-36 | a filter keeps each row that satisfies its condition as often as it is stored, and no other row |
| Views.WhereConcat | app/views.py:31-36 | filtering distributes over concatenation of row sequences |
| Views.WhereNoneSatisfy | app/views.py:31-36 | a filter that no row satisfies yields nothing |
| Views.FormNumberFilterKeepsAtMostOne | app/views.py:31-32 | with unique form numbers, a form-number filter keeps at most one row |
| Views.Queryset | app/views.py:23-36 | the queryset raises exactly when the date parameter is not a date, and is otherwise in listing order |
| Views.ListData | app/views.py:39 | the listing has one item per selected row, in order, each the row's listing shape |
| Views.HandleGet | app/views.py:16-46 | GET raises exactly when the date parameter is not a date; otherwise it answers 200 with success true and the fixed message, with one item per queryset row, in queryset order, each in its listing shape, whether or not any row matched |
| Views.GetSelectsMatchingRows | app/views.py:23-36 | with a readable date parameter, the queryset holds exactly the stored rows that match every present parameter, each as often as it is stored: sound and complete |
| Views.QuerysetCount | app/views.py:23-36 | with a readable date parameter, a row appears in the queryset as often as it is stored when it matches every present parameter, and never otherwise |
| Views.GetWithoutFiltersListsEverything | app/views.py:23 | with no filter in effect, GET lists every stored row in listing order |
| Views.FormNumberQueryListsAtMostOne | app/views.py:31-32 | a form-number query lists at most one row |
| Views.FormNumberOnlyQuery | app/views.py:26-32 | a query holding only a form number filters on it alone |
| Views.FreshRowIsListedAlone | app/views.py:26-36 | a GET filtered on the form number of a newly appended row with a fresh, non-empty form number, such as the row a successful `Views.Post` appends, selects that row alone |
| Views.FreshRowFilteredAlone | app/views.py:31-32 | filtering on the form number of a row appended with a fresh form number keeps that row alone |
| Views.Confirmation | app/views.py:64-69 | the confirmation has exactly the keys formNumber, submittedBy, submittedDate and status, and its status is "Saved" |
| Views.ConfirmationEchoesBody | app/views.py:64-69 | the confirmation echoes the body's form number, submitter and date string, and the date string parses to the stored date |
| Views.Post | app/views.py:48-74 | an invalid body is answered 400 with its errors and nothing is stored; a stored form number raises `IntegrityError` and nothing is stored; otherwise exactly one row holding the submitted values is appended under the next key, its timestamps reading the advanced clock, and the answer is 201 with its confirmation; rows with complete fields stay complete |

## Left out

- HTTP transport, URL routing, content negotiation and rendering to JSON text are not modelled. Requests and responses are maps and datatypes.
- The framework's coercions are left out. A CharField here accepts only a JSON string: numbers are not coerced to text, blank strings are not refused and whitespace is not trimmed.
- Error message texts and the list wrapping of each message are left out. Errors are modelled as reasons (`Required`, `Null`, `NotAString`, `TooLong`, `InvalidDate`, `NotAnObject`).
- Serializers.CheckChar: a string containing a NUL character is accepted by the model, and so by `Serializers.ValidateFields` and `Serializers.ToInternalValue`; the framework's CharField refuses it (its null-character validator) with a 400. The model also gives one reason per field where the framework can list several validator messages.
- Serializers.ValidateFields: a `fields` value containing a NUL character is accepted by the model and refused by the framework, as stated for `Serializers.CheckChar`.
- The 255-character width of `form_number` and `submitted_by` is not enforced. No serializer checks it, and what the database does with a longer value depends on the backend.
- `Dates.ParseIso` accepts only the zero-padded `YYYY-MM-DD` form. The framework's date parsing also takes other spellings, such as `2024-1-5`. For such a value the service filters by the date on GET and accepts it on POST, while the model raises `InvalidLookupValue` in `Views.Queryset` and `Views.HandleGet` and refuses the body on POST with `InvalidDate`.
- Repeated query parameters are not modelled. A query string is a map, so each name has one value, whereas the framework returns the last one.
- `created_at` and `updated_at` read a logical clock that advances by one per write, not the wall clock. On an insert the framework reads the time once per field, so the two stored times can differ slightly; in the model they are equal.
- Concurrent requests and transactions are not modelled. Each handler runs alone against the table.
- The `verbose_name` options of `Meta` only affect the admin interface, so they are not modelled.
- A stored `fields` value is either a map from strings to strings or a JSON null. The column is NOT NULL, so `Store.Table.Create` and `Store.Table.Save` never store a null; a JSON null can only come from a direct database write. Other JSON shapes such a write could store are not modelled.
- `Models.Ordered`: rows with the same submission date keep their insertion order. The database leaves that order open, so this is one ordering among those it allows.
- `Store.Table.Save`: after an insert under an explicit key, the model moves the next key past it. Whether the database's key sequence does so depends on the backend. No handler saves an instance that is already stored; the insert `objects.create` makes is `Store.Table.Create`.
