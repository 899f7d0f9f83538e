/**
 * The Appointment collection of models/appointmentModel.js: the nine-field record,
 * what saving one demands of it (every field `required`, `ticketId` `unique`), and the
 * two queries the routes run against the collection, `find` and `findOne` on equal
 * field values.
 *
 * The collection is a sequence of records in insertion order. Saving either fails and
 * adds nothing, or appends the record.
 */
module AppointmentModel {
  import opened Wrappers
  import opened Sequences

  /**
   * One stored appointment. `age` is the schema's Number, every other field a String;
   * `qrSvg` is the value handed to the constructor, which may be null (None).
   */
  datatype Appointment = Appointment(
    name: string, age: int, phone: string, address: string, department: string,
    date: string, slot: string, ticketId: string, qrSvg: Option<string>)

  /**
   * The `required: true` validators: a String field must be set and non-empty; the
   * Number field `age` is always set here, so it passes whatever its value.
   */
  predicate SatisfiesSchema(a: Appointment) {
    a.name != "" && a.phone != "" && a.address != "" && a.department != ""
    && a.date != "" && a.slot != "" && a.ticketId != ""
    && a.qrSvg.Some? && a.qrSvg.value != ""
  }

  /** The filter documents the routes pass to `find` and `findOne`. */
  datatype Query =
    | ByDateDepartment(date: string, department: string)
    | ByDateSlotDepartment(date: string, slot: string, department: string)
    | ByTicket(ticketId: string)

  predicate Matches(a: Appointment, q: Query) {
    match q
    case ByDateDepartment(date, department) => a.date == date && a.department == department
    case ByDateSlotDepartment(date, slot, department) =>
      a.date == date && a.slot == slot && a.department == department
    case ByTicket(ticketId) => a.ticketId == ticketId
  }

  /** `find(q)`: every matching record, each as often as it is stored, in collection order. */
  function Find(records: seq<Appointment>, q: Query): (r: seq<Appointment>)
    ensures IsSubsequence(r, records)
    ensures forall a :: a in r <==> a in records && Matches(a, q)
    ensures forall a :: multiset(r)[a] == if Matches(a, q) then multiset(records)[a] else 0
  {
    if records == [] then []
    else
      assert records == [records[0]] + records[1..];
      if Matches(records[0], q) then [records[0]] + Find(records[1..], q)
    else Find(records[1..], q)
  }

  /** `findOne(q)`: the first matching record, or None (null) when nothing matches. */
  function FindOne(records: seq<Appointment>, q: Query): (r: Option<Appointment>)
    ensures r.Some? <==> exists i :: 0 <= i < |records| && Matches(records[i], q)
    ensures r.Some? ==> exists i :: 0 <= i < |records| && records[i] == r.value && Matches(r.value, q)
                          && forall j :: 0 <= j < i ==> !Matches(records[j], q)
  {
    if records == [] then None
    else if Matches(records[0], q) then Some(records[0])
    else
      var r := FindOne(records[1..], q);
      assert forall i :: 1 <= i < |records| ==> records[i] == records[1..][i - 1];
      r
  }

  /** The unique index on `ticketId`: no two records share one. */
  predicate TicketIdsUnique(records: seq<Appointment>) {
    forall i, j :: 0 <= i < j < |records| ==> records[i].ticketId != records[j].ticketId
  }

  /** Two records that hold the same slot: same date, same slot label, same department. */
  predicate SameTriple(a: Appointment, b: Appointment) {
    a.date == b.date && a.slot == b.slot && a.department == b.department
  }

  /** No two records hold the same (date, slot, department); the schema itself does not demand it. */
  predicate TriplesUnique(records: seq<Appointment>) {
    forall i, j :: 0 <= i < j < |records| ==> !SameTriple(records[i], records[j])
  }

  /** Why `save()` rejected a record. */
  datatype SaveError = ValidationFailed | DuplicateTicketId

  /**
   * `save()`: schema validation first, then the unique index; on success the record is
   * appended and nothing else changes.
   */
  function Insert(records: seq<Appointment>, a: Appointment): (r: Result<seq<Appointment>, SaveError>)
    ensures r.Success? <==> SatisfiesSchema(a) && forall i :: 0 <= i < |records| ==> records[i].ticketId != a.ticketId
    ensures r == Failure(ValidationFailed) <==> !SatisfiesSchema(a)
    ensures r.Success? ==> r.value == records + [a]
  {
    if !SatisfiesSchema(a) then Failure(ValidationFailed)
    else if FindOne(records, ByTicket(a.ticketId)).Some? then Failure(DuplicateTicketId)
    else Success(records + [a])
  }

  /**
   * Each `required` flag on its own decides `save()`: emptying any one String field, or
   * giving a null or empty QR payload, fails validation whatever else the record holds;
   * the age, a Number that is always set, never changes whether the save succeeds.
   */
  lemma RequiredFields(records: seq<Appointment>, a: Appointment, n: int)
    ensures Insert(records, a.(name := "")) == Failure(ValidationFailed)
    ensures Insert(records, a.(phone := "")) == Failure(ValidationFailed)
    ensures Insert(records, a.(address := "")) == Failure(ValidationFailed)
    ensures Insert(records, a.(department := "")) == Failure(ValidationFailed)
    ensures Insert(records, a.(date := "")) == Failure(ValidationFailed)
    ensures Insert(records, a.(slot := "")) == Failure(ValidationFailed)
    ensures Insert(records, a.(ticketId := "")) == Failure(ValidationFailed)
    ensures Insert(records, a.(qrSvg := None)) == Failure(ValidationFailed)
    ensures Insert(records, a.(qrSvg := Some(""))) == Failure(ValidationFailed)
    ensures Insert(records, a.(age := n)).Success? <==> Insert(records, a).Success?
  {
  }

  /** Inserting keeps the collection free of duplicate ticket ids and of records failing the schema. */
  lemma InsertKeepsIndex(records: seq<Appointment>, a: Appointment)
    requires TicketIdsUnique(records)
    requires Insert(records, a).Success?
    ensures TicketIdsUnique(Insert(records, a).value)
    ensures SatisfiesSchema(Insert(records, a).value[|records|])
  {
    var r := Insert(records, a).value;
    forall i, j | 0 <= i < j < |r| ensures r[i].ticketId != r[j].ticketId {
      if j < |records| {
        assert r[i] == records[i] && r[j] == records[j];
      } else {
        assert r[j] == a && r[i] == records[i];
      }
    }
  }

  /**
   * The schema alone does not keep triples unique: a second record for an already held
   * slot is stored as long as its ticket id is new.
   */
  lemma InsertAdmitsSameTriple()
    ensures exists records: seq<Appointment>, a: Appointment ::
      TriplesUnique(records) && Insert(records, a).Success? && !TriplesUnique(Insert(records, a).value)
  {
    var first := Appointment("Asha", 30, "9876543210", "Kanpur", "OPD", "2025-03-01", "10:00 AM", "KC01032025100000", Some("qr1"));
    var second := first.(name := "Ravi", ticketId := "KC01032025100001", qrSvg := Some("qr2"));
    var r := Insert([first], second).value;
    assert r[0] == first && r[1] == second && SameTriple(r[0], r[1]);
    assert TriplesUnique([first]) && Insert([first], second).Success? && !TriplesUnique(Insert([first], second).value);
  }

  /** Why the ticket lookup of routes/opdroutes.js answers with an error. */
  datatype LookupError = InvalidTicketId | NotFound

  /** `findOne({ ticketId })` after rejecting an empty id: the record, or not found. */
  function LookupByTicket(records: seq<Appointment>, ticketId: string): (r: Result<Appointment, LookupError>)
    ensures r == Failure(InvalidTicketId) <==> ticketId == ""
    ensures r == Failure(NotFound) <==> ticketId != "" && forall a :: a in records ==> a.ticketId != ticketId
    ensures r.Success? ==> r.value in records && r.value.ticketId == ticketId
  {
    if ticketId == "" then Failure(InvalidTicketId)
    else match FindOne(records, ByTicket(ticketId))
      case None => Failure(NotFound)
      case Some(a) => Success(a)
  }

  /** Under the unique index the lookup finds the one record with that id, wherever it sits. */
  lemma LookupFindsTheRecord(records: seq<Appointment>, k: nat)
    requires TicketIdsUnique(records) && k < |records| && records[k].ticketId != ""
    ensures LookupByTicket(records, records[k].ticketId) == Success(records[k])
  {
    var r := LookupByTicket(records, records[k].ticketId);
    assert r.Success?;
    var i :| 0 <= i < |records| && records[i] == r.value;
    assert i == k;
  }
}
