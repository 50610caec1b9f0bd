/**
 * The database table behind `WheelSpecification.objects`: rows in insertion
 * order, the `unique=True` constraint on `form_number`, an auto-incremented
 * primary key, and a logical clock standing in for the wall-clock time that
 * `auto_now_add` and `auto_now` read.
 */
module Store {
  import opened Wrappers
  import opened Dates
  import opened Models

  /**
   * What the ORM raises: the database's constraint errors, and the error
   * `DateField.to_python` raises while `filter()` builds a date lookup,
   * before any SQL runs.
   */
  datatype StoreError =
    | IntegrityError        // a NOT NULL or unique constraint refused the write
    | InvalidLookupValue    // a filter value the DateField cannot read as a date

  /** Position of the row with primary key `id`, if there is one. */
  function FindId(rows: seq<WheelSpecification>, id: nat): (r: Option<nat>)
    ensures r.Some? ==> r.value < |rows| && rows[r.value].id == id
    ensures r.None? ==> forall i :: 0 <= i < |rows| ==> rows[i].id != id
  {
    if rows == [] then None
    else if rows[|rows| - 1].id == id then Some(|rows| - 1)
    else FindId(rows[..|rows| - 1], id)
  }

  /** Some row other than the one with primary key `id` already has `formNumber`. */
  predicate FormNumberTakenByOther(rows: seq<WheelSpecification>, formNumber: string, id: nat) {
    exists j :: 0 <= j < |rows| && rows[j].id != id && rows[j].formNumber == formNumber
  }

  class Table {
    var rows: seq<WheelSpecification>
    var clock: nat    // logical time of the latest write
    var nextId: nat   // next primary key to hand out

    /**
     * Form numbers are unique (`unique=True`), primary keys are unique and
     * below the next key to hand out, and no row was updated after the
     * latest write.
     */
    ghost predicate Valid()
      reads this
    {
      && UniqueFormNumbers(rows)
      && (forall i, j :: 0 <= i < j < |rows| ==> rows[i].id != rows[j].id)
      && (forall i :: 0 <= i < |rows| ==> rows[i].id < nextId)
      && (forall i :: 0 <= i < |rows| ==> rows[i].updatedAt <= clock)
    }

    constructor ()
      ensures Valid()
      ensures rows == [] && clock == 0 && nextId == 0
    {
      rows, clock, nextId := [], 0, 0;
    }

    /**
     * `objects.create(...)`: inserts a row with a fresh key whose `created_at`
     * and `updated_at` both read the clock at the insert, or raises
     * `IntegrityError` when the form number is already stored. `fields` is
     * never null here: the `JSONField` column is NOT NULL, and every caller
     * passes an object.
     */
    method Create(formNumber: string, submittedBy: string, submittedDate: CalendarDate,
                  fields: map<string, string>)
      returns (r: Result<WheelSpecification, StoreError>)
      requires Valid()
      modifies this
      ensures Valid()
      ensures HasFormNumber(old(rows), formNumber) ==>
        r == Failure(IntegrityError) && unchanged(this)
      ensures !HasFormNumber(old(rows), formNumber) ==>
        && clock == old(clock) + 1
        && nextId == old(nextId) + 1
        && r == Success(WheelSpecification(old(nextId), formNumber, submittedBy, submittedDate,
                                           Some(fields), clock, clock))
        && rows == old(rows) + [r.value]
    {
      if HasFormNumber(rows, formNumber) {
        return Failure(IntegrityError);
      }
      clock := clock + 1;
      var w := WheelSpecification(nextId, formNumber, submittedBy, submittedDate, Some(fields), clock, clock);
      rows := rows + [w];
      nextId := nextId + 1;
      r := Success(w);
    }

    /**
     * `save()` on an instance with a primary key. A null `fields` breaks the
     * NOT NULL column and a form number held by another row breaks the unique
     * constraint; both raise `IntegrityError` and change nothing. Otherwise,
     * when a row has the key, it is updated with the instance's attributes,
     * its own `created_at` included (`auto_now_add` fills that only on an
     * insert), and `updated_at` reads the clock (`auto_now`). When no row has
     * the key, the UPDATE touches nothing and the instance is inserted under
     * its key, both timestamps reading the clock.
     */
    method Save(w: WheelSpecification) returns (r: Result<WheelSpecification, StoreError>)
      requires Valid()
      modifies this
      ensures Valid()
      ensures w.fields.None? || FormNumberTakenByOther(old(rows), w.formNumber, w.id) ==>
        r == Failure(IntegrityError) && unchanged(this)
      ensures w.fields.Some? && !FormNumberTakenByOther(old(rows), w.formNumber, w.id)
              && FindId(old(rows), w.id).Some? ==>
        && clock == old(clock) + 1
        && nextId == old(nextId)
        && r == Success(w.(updatedAt := clock))
        && rows == old(rows)[FindId(old(rows), w.id).value := r.value]
      ensures w.fields.Some? && !FormNumberTakenByOther(old(rows), w.formNumber, w.id)
              && FindId(old(rows), w.id).None? ==>
        && clock == old(clock) + 1
        && nextId == (if w.id < old(nextId) then old(nextId) else w.id + 1)
        && r == Success(w.(createdAt := clock, updatedAt := clock))
        && rows == old(rows) + [r.value]
    {
      if w.fields.None? || FormNumberTakenByOther(rows, w.formNumber, w.id) {
        return Failure(IntegrityError);
      }
      var found := FindId(rows, w.id);
      clock := clock + 1;
      if found.Some? {
        var saved := w.(updatedAt := clock);
        rows := rows[found.value := saved];
        r := Success(saved);
      } else {
        var saved := w.(createdAt := clock, updatedAt := clock);
        rows := rows + [saved];
        if nextId <= w.id {
          nextId := w.id + 1;
        }
        r := Success(saved);
      }
    }
  }
}
