/**
 * The `/book-appointment` route of routes/appointmentroutes.js over a ledger of
 * appointment records: the request checks in the order the route makes them, the
 * conflict check on (date, slot, department), then a ticket id from the clock reading,
 * the QR payload, and the save.
 *
 * `BookStep` states one booking as a function of the ledger before it; `Ledger.Book`
 * performs it on the ledger's `records` field. The clock reading and the QR payload
 * (`generateQR`, which yields null on failure) are inputs.
 */
module Booking {
  import opened Wrappers
  import opened Decimal
  import opened Sequences
  import opened SlotCatalog
  import opened Ticket
  import opened AppointmentModel
  import opened Availability

  /** The fields the route reads from the request body. */
  datatype BookingRequest = BookingRequest(
    name: string, age: int, phone: string, address: string,
    department: string, date: string, slot: string)

  /** The route's error answers: four 400s and the catch-all 500. */
  datatype BookingError = MissingField | InvalidAge | InvalidPhone | SlotTaken | StorageError

  /** The 201 answer: the new ticket id and its QR payload. */
  datatype Confirmation = Confirmation(ticketId: string, qrSvg: string)

  /** Every field truthy: the strings non-empty and the age non-zero. */
  predicate HasAllFields(req: BookingRequest) {
    req.name != "" && req.age != 0 && req.phone != "" && req.address != ""
    && req.department != "" && req.date != "" && req.slot != ""
  }

  /** `/^[0-9]+$/`: one or more characters, each a decimal digit. */
  predicate IsPhoneNumber(phone: string) {
    |phone| >= 1 && AllDigits(phone)
  }

  /**
   * The three request checks, first failure wins. An age of 0 is falsy and so is
   * answered as a missing field; the age check itself only ever sees non-zero ages.
   */
  function Validate(req: BookingRequest): (e: Option<BookingError>)
    ensures e.None? <==> HasAllFields(req) && req.age >= 1 && IsPhoneNumber(req.phone)
    ensures e == Some(MissingField) <==> !HasAllFields(req)
    ensures e == Some(InvalidAge) <==> HasAllFields(req) && req.age < 0
    ensures e == Some(InvalidPhone) <==> HasAllFields(req) && req.age > 0 && !AllDigits(req.phone)
  {
    if !HasAllFields(req) then Some(MissingField)
    else if req.age < 1 then Some(InvalidAge)
    else if !IsPhoneNumber(req.phone) then Some(InvalidPhone)
    else None
  }

  /**
   * `new Appointment({ ... })` from the request, the ticket id and the QR payload. A
   * request that passed the checks, with a non-empty ticket id, passes the schema
   * exactly when its QR payload is set and non-empty.
   */
  function NewRecord(req: BookingRequest, ticketId: string, qr: Option<string>): (a: Appointment)
    ensures a.name == req.name && a.age == req.age && a.phone == req.phone && a.address == req.address
    ensures a.department == req.department && a.date == req.date && a.slot == req.slot
    ensures a.ticketId == ticketId && a.qrSvg == qr
    ensures Validate(req).None? && ticketId != "" ==> (SatisfiesSchema(a) <==> qr.Some? && qr.value != "")
  {
    Appointment(req.name, req.age, req.phone, req.address, req.department, req.date, req.slot, ticketId, qr)
  }

  /** No stored record carries this ticket id. */
  predicate TicketFree(records: seq<Appointment>, ticketId: string) {
    forall i :: 0 <= i < |records| ==> records[i].ticketId != ticketId
  }

  /** What a ledger built by the route keeps: the unique index, the schema, one record per slot. */
  predicate LedgerInvariant(records: seq<Appointment>) {
    TicketIdsUnique(records) && TriplesUnique(records)
    && forall i :: 0 <= i < |records| ==> SatisfiesSchema(records[i])
  }

  /** The answer of one booking and the ledger after it. */
  datatype Step = Step(outcome: Result<Confirmation, BookingError>, records: seq<Appointment>)

  /**
   * One booking at clock reading `now` with QR payload `qr`. Every error leaves the
   * ledger as it was; success appends exactly the submitted fields with the new ticket.
   * The slot is never checked against the catalogue.
   */
  function BookStep(records: seq<Appointment>, req: BookingRequest, now: Clock, qr: Option<string>): (st: Step)
    ensures st.outcome.Failure? ==> st.records == records
    ensures st.outcome.Success? ==>
      qr.Some? && st.records == records + [NewRecord(req, GenerateTicketId(now), qr)]
      && st.outcome.value == Confirmation(GenerateTicketId(now), qr.value)
    ensures st.outcome.Success? <==>
      Validate(req).None? && !IsBooked(records, req.date, req.department, req.slot)
      && qr.Some? && qr.value != "" && TicketFree(records, GenerateTicketId(now))
    ensures Validate(req).Some? ==> st.outcome == Failure(Validate(req).value)
    ensures st.outcome == Failure(SlotTaken) <==>
      Validate(req).None? && IsBooked(records, req.date, req.department, req.slot)
    ensures st.outcome == Failure(StorageError) <==>
      Validate(req).None? && !IsBooked(records, req.date, req.department, req.slot)
      && !(qr.Some? && qr.value != "" && TicketFree(records, GenerateTicketId(now)))
  {
    match Validate(req)
    case Some(e) => Step(Failure(e), records)
    case None =>
      if FindOne(records, ByDateSlotDepartment(req.date, req.slot, req.department)).Some? then
        Step(Failure(SlotTaken), records)
      else
        var ticketId := GenerateTicketId(now);
        match Insert(records, NewRecord(req, ticketId, qr))
        case Failure(_) => Step(Failure(StorageError), records)
        case Success(saved) => Step(Success(Confirmation(ticketId, qr.value)), saved)
  }

  /** A booking keeps the ledger invariant, whatever its outcome. */
  lemma BookKeepsInvariant(records: seq<Appointment>, req: BookingRequest, now: Clock, qr: Option<string>)
    requires LedgerInvariant(records)
    ensures LedgerInvariant(BookStep(records, req, now, qr).records)
  {
    var st := BookStep(records, req, now, qr);
    if st.outcome.Success? {
      var a := NewRecord(req, GenerateTicketId(now), qr);
      InsertKeepsIndex(records, a);
      var r := st.records;
      assert r == records + [a];
      forall i, j | 0 <= i < j < |r| ensures !SameTriple(r[i], r[j]) {
        if j == |records| {
          assert r[j] == a && r[i] == records[i];
        } else {
          assert r[i] == records[i] && r[j] == records[j];
        }
      }
      forall i | 0 <= i < |r| ensures SatisfiesSchema(r[i]) {
        if i < |records| { assert r[i] == records[i]; }
      }
    }
  }

  /** One call of the route: the request, the clock reading and the QR payload it gets. */
  datatype Call = Call(req: BookingRequest, now: Clock, qr: Option<string>)

  /** The ledger after a run of calls against an initially empty collection. */
  function Replay(calls: seq<Call>): seq<Appointment>
    decreases |calls|
  {
    if calls == [] then []
    else
      var last := calls[|calls| - 1];
      BookStep(Replay(calls[..|calls| - 1]), last.req, last.now, last.qr).records
  }

  /**
   * A collection filled only through the route never holds two records for the same
   * (date, slot, department), nor two with the same ticket id.
   */
  lemma {:induction false} ReplayKeepsInvariant(calls: seq<Call>)
    ensures LedgerInvariant(Replay(calls))
    decreases |calls|
  {
    if calls != [] {
      var last := calls[|calls| - 1];
      ReplayKeepsInvariant(calls[..|calls| - 1]);
      BookKeepsInvariant(Replay(calls[..|calls| - 1]), last.req, last.now, last.qr);
    }
  }

  /**
   * After a successful booking its slot is gone from the answer for its date and
   * department, and every other label of that answer is still there.
   */
  lemma BookedSlotDisappears(records: seq<Appointment>, req: BookingRequest, now: Clock, qr: Option<string>)
    requires BookStep(records, req, now, qr).outcome.Success?
    ensures var before := AvailableSlots(records, req.date, req.department);
            var after := AvailableSlots(BookStep(records, req, now, qr).records, req.date, req.department);
      before.Success? && after.Success?
      && req.slot !in after.value && IsSubsequence(after.value, before.value)
      && forall s :: s in before.value && s != req.slot ==> s in after.value
  {
    assert Validate(req).None?;
    assert req.date != "" && req.department != "";
    InsertTakesOnlyItsSlot(records, NewRecord(req, GenerateTicketId(now), qr), req.date, req.department);
  }

  /** The ticket id of a successful booking looks up exactly the record just stored. */
  lemma LookupAfterBook(records: seq<Appointment>, req: BookingRequest, now: Clock, qr: Option<string>)
    requires LedgerInvariant(records)
    requires BookStep(records, req, now, qr).outcome.Success?
    ensures var st := BookStep(records, req, now, qr);
      LookupByTicket(st.records, st.outcome.value.ticketId) == Success(NewRecord(req, GenerateTicketId(now), qr))
  {
    var st := BookStep(records, req, now, qr);
    BookKeepsInvariant(records, req, now, qr);
    assert st.records[|records|] == NewRecord(req, GenerateTicketId(now), qr);
    LookupFindsTheRecord(st.records, |records|);
  }

  /**
   * Ticket ids have one-second resolution: once a booking succeeded, any other booking
   * made in the same second fails; a valid one for a free slot, in another department
   * or not, fails at the save and is answered with the storage error (the 500).
   */
  lemma SameSecondCollides(records: seq<Appointment>, first: BookingRequest, second: BookingRequest,
                           now: Clock, q1: Option<string>, q2: Option<string>)
    requires BookStep(records, first, now, q1).outcome.Success?
    ensures var after := BookStep(records, first, now, q1).records;
      var st := BookStep(after, second, now, q2);
      st.outcome.Failure? && st.records == after
      && (Validate(second).None? && !IsBooked(after, second.date, second.department, second.slot)
          ==> st.outcome == Failure(StorageError))
  {
    var after := BookStep(records, first, now, q1).records;
    assert after[|records|].ticketId == GenerateTicketId(now);
  }

  /**
   * Bookings made at different seconds (four-digit years) get different ticket ids,
   * so the unique index never rejects them.
   */
  lemma DistinctSecondsDistinctTickets(a: Clock, b: Clock)
    requires IsCalendarReading(a) && HasFourDigitYear(a)
    requires IsCalendarReading(b) && HasFourDigitYear(b)
    requires a != b
    ensures GenerateTicketId(a) != GenerateTicketId(b)
  {
    if GenerateTicketId(a) == GenerateTicketId(b) {
      TicketIdInjective(a, b);
    }
  }

  /** A failed QR generation (null) makes the save fail, with the ledger unchanged. */
  lemma NullQrFails(records: seq<Appointment>, req: BookingRequest, now: Clock)
    requires Validate(req).None? && !IsBooked(records, req.date, req.department, req.slot)
    ensures BookStep(records, req, now, None) == Step(Failure(StorageError), records)
  {
    var a := NewRecord(req, GenerateTicketId(now), None);
    assert !SatisfiesSchema(a);
  }

  /** A valid request with a QR payload is booked on an empty ledger, whatever its slot label. */
  lemma AcceptedWhenEmpty(req: BookingRequest, now: Clock, qr: Option<string>)
    requires Validate(req).None? && qr.Some? && qr.value != ""
    ensures BookStep([], req, now, qr).outcome.Success?
  {
    assert !IsBooked([], req.date, req.department, req.slot) && TicketFree([], GenerateTicketId(now));
  }

  /** A slot label outside the catalogue is booked like any other. */
  lemma NonCatalogueSlotAccepted(now: Clock)
    ensures exists req: BookingRequest :: req.slot !in AllSlots && BookStep([], req, now, Some("qr")).outcome.Success?
  {
    var req := BookingRequest("Asha", 30, "9876543210", "Kanpur", "OPD", "2025-03-01", "9:00 PM");
    assert req.slot !in AllSlots by {
      assert req.slot == TimeLabel(21, 0);
      EveningOutsideCatalogue(21, 0);
    }
    assert Validate(req).None? by {
      assert IsPhoneNumber(req.phone);
    }
    AcceptedWhenEmpty(req, now, Some("qr"));
  }

  /** The appointment collection, owned by the routes. */
  class Ledger {
    var records: seq<Appointment>

    ghost predicate Valid()
      reads this
    {
      LedgerInvariant(records)
    }

    /** An empty collection. */
    constructor ()
      ensures Valid() && records == []
    {
      records := [];
    }

    /**
     * `/book-appointment`: either an error and the ledger unchanged, or the confirmation
     * and exactly one appended record, as `BookStep` says.
     */
    method Book(req: BookingRequest, now: Clock, qr: Option<string>) returns (outcome: Result<Confirmation, BookingError>)
      requires Valid()
      modifies this
      ensures Valid()
      ensures Step(outcome, records) == BookStep(old(records), req, now, qr)
    {
      var invalid := Validate(req);
      if invalid.Some? {
        return Failure(invalid.value);
      }
      var existing := FindOne(records, ByDateSlotDepartment(req.date, req.slot, req.department));
      if existing.Some? {
        return Failure(SlotTaken);
      }
      var ticketId := GenerateTicketId(now);
      var saved := Insert(records, NewRecord(req, ticketId, qr));
      if saved.Failure? {
        return Failure(StorageError);
      }
      BookKeepsInvariant(records, req, now, qr);
      records := saved.value;
      outcome := Success(Confirmation(ticketId, qr.value));
    }

    /**
     * `/available-slots` against this ledger: an error exactly when the date or the
     * department is empty, otherwise the unbooked catalogue labels in catalogue order.
     */
    function AvailableSlots(date: string, department: string): (r: Result<seq<string>, QueryError>)
      reads this
      ensures r.Failure? <==> date == "" || department == ""
      ensures r.Success? ==> IsSubsequence(r.value, AllSlots)
      ensures r.Success? ==> forall s :: s in r.value <==> s in AllSlots && !IsBooked(records, date, department, s)
    {
      Availability.AvailableSlots(records, date, department)
    }

    /**
     * The ticket lookup against this ledger: the stored record carrying the id, an
     * invalid-id error for the empty id, or not found.
     */
    function LookupByTicket(ticketId: string): (r: Result<Appointment, LookupError>)
      reads this
      ensures r == Failure(InvalidTicketId) <==> ticketId == ""
      ensures r == Failure(NotFound) <==> ticketId != "" && forall a :: a in records ==> a.ticketId != ticketId
      ensures r.Success? ==> r.value in records && r.value.ticketId == ticketId
      ensures Valid() && ticketId != "" ==> forall k :: 0 <= k < |records| && records[k].ticketId == ticketId ==> r == Success(records[k])
    {
      var found := AppointmentModel.LookupByTicket(records, ticketId);
      assert Valid() && ticketId != "" ==>
        forall k :: 0 <= k < |records| && records[k].ticketId == ticketId ==> found == Success(records[k])
      by {
        forall k | TicketIdsUnique(records) && ticketId != "" && 0 <= k < |records| && records[k].ticketId == ticketId
          ensures found == Success(records[k])
        {
          LookupFindsTheRecord(records, k);
        }
      }
      found
    }
  }
}
