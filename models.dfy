/**
 * The `WheelSpecification` record: its attributes, its string form, the
 * uniqueness of `form_number` across the table, and the default listing
 * order `ordering = ['-submitted_date']`.
 */
module Models {
  import opened Wrappers
  import opened Dates

  /**
   * One stored row. `id` is the table's implicit primary key; `fields` is the
   * JSONField (`None` stands for a JSON null); `createdAt` and `updatedAt` are
   * logical times taken from the table's clock.
   */
  datatype WheelSpecification = WheelSpecification(
    id: nat,
    formNumber: string,
    submittedBy: string,
    submittedDate: CalendarDate,
    fields: Option<map<string, string>>,
    createdAt: nat,
    updatedAt: nat)

  const StrPrefix := "Wheel Spec Form: "

  /** `__str__`: the fixed prefix followed by the form number. */
  function Str(w: WheelSpecification): (s: string)
    ensures |s| == |StrPrefix| + |w.formNumber|
    ensures s[..|StrPrefix|] == StrPrefix && s[|StrPrefix|..] == w.formNumber
  {
    StrPrefix + w.formNumber
  }

  /** The string form tells rows apart exactly as far as their form numbers differ. */
  lemma StrDeterminesFormNumber(a: WheelSpecification, b: WheelSpecification)
    ensures Str(a) == Str(b) <==> a.formNumber == b.formNumber
  {
    if Str(a) == Str(b) {
      assert a.formNumber == Str(a)[|StrPrefix|..];
    }
  }

  predicate HasFormNumber(rows: seq<WheelSpecification>, formNumber: string) {
    exists i :: 0 <= i < |rows| && rows[i].formNumber == formNumber
  }

  /** `unique=True` on `form_number`. */
  predicate UniqueFormNumbers(rows: seq<WheelSpecification>) {
    forall i, j :: 0 <= i < j < |rows| ==> rows[i].formNumber != rows[j].formNumber
  }

  /** `ordering = ['-submitted_date']`: no row is dated later than one listed before it. */
  predicate InListingOrder(rows: seq<WheelSpecification>) {
    forall i, j :: 0 <= i < j < |rows| ==> NotAfter(rows[j].submittedDate, rows[i].submittedDate)
  }

  /** Puts `w` into an ordered listing, ahead of the rows it is not earlier than. */
  function InsertByDate(w: WheelSpecification, rows: seq<WheelSpecification>): (r: seq<WheelSpecification>)
    requires InListingOrder(rows)
    ensures InListingOrder(r)
    ensures multiset(r) == multiset(rows) + multiset{w}
    ensures forall v :: v in r <==> v == w || v in rows
  {
    if rows == [] then
      ConsInListingOrder(w, rows);
      [w]
    else if NotAfter(rows[0].submittedDate, w.submittedDate) then
      HeadBoundsListing(rows);
      ConsInListingOrder(w, rows);
      [w] + rows
    else
      var head, tail := rows[0], rows[1..];
      assert rows == [head] + tail;
      assert InListingOrder(tail);
      var rest := InsertByDate(w, tail);
      HeadBoundsListing(rows);
      ConsInListingOrder(head, rest);
      [head] + rest
  }

  /** In an ordered listing no row is dated later than the first one. */
  lemma HeadBoundsListing(rows: seq<WheelSpecification>)
    requires InListingOrder(rows) && rows != []
    ensures forall v :: v in rows ==> NotAfter(v.submittedDate, rows[0].submittedDate)
  {
    forall v | v in rows ensures NotAfter(v.submittedDate, rows[0].submittedDate) {
      var k :| 0 <= k < |rows| && rows[k] == v;
    }
  }

  lemma ConsInListingOrder(w: WheelSpecification, rows: seq<WheelSpecification>)
    requires InListingOrder(rows)
    requires forall v :: v in rows ==> NotAfter(v.submittedDate, w.submittedDate)
    ensures InListingOrder([w] + rows)
  {
    var r := [w] + rows;
    forall i, j | 0 <= i < j < |r|
      ensures NotAfter(r[j].submittedDate, r[i].submittedDate)
    {
      if i > 0 {
        assert r[i] == rows[i - 1] && r[j] == rows[j - 1];
      } else {
        assert r[j] in rows;
      }
    }
  }

  /**
   * The rows as the default ordering lists them: sorted by `submitted_date`,
   * latest first. Rows with the same date keep their relative order (the
   * database leaves that order open; the model fixes one).
   */
  function Ordered(rows: seq<WheelSpecification>): (r: seq<WheelSpecification>)
    ensures InListingOrder(r)
    ensures multiset(r) == multiset(rows)
    ensures |r| == |rows|
    ensures forall v :: v in r <==> v in rows
  {
    if rows == [] then []
    else
      assert rows == [rows[0]] + rows[1..];
      InsertByDate(rows[0], Ordered(rows[1..]))
  }

  /** A listing that is already in order is left as it is. */
  lemma {:induction false} OrderedKeepsOrderedRows(rows: seq<WheelSpecification>)
    requires InListingOrder(rows)
    ensures Ordered(rows) == rows
  {
    if rows != [] {
      assert InListingOrder(rows[1..]);
      OrderedKeepsOrderedRows(rows[1..]);
    }
  }
}
