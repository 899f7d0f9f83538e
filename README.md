# Appointment booking ledger and ticket identifiers

A Dafny model of the booking core of the kartikeycare outpatient backend. It covers:

- the fixed catalogue of 96 five-minute slot labels;
- the `/available-slots` query, which filters that catalogue against the slots already held for a date and department;
- the `/book-appointment` route, with its field checks, conflict check, ticket id, QR payload and save;
- the `KCddmmyyyyhhmmss` ticket id encoder, with a decoder beside it;
- the nine-field Appointment record, with its `required` fields and its unique `ticketId` index;
- the lookup by ticket id that the ticket-PDF route runs before it renders anything.

The Appointment collection is a sequence of records in insertion order. `Booking.Ledger` is a class whose `records` field holds that sequence. `Ledger.Book` performs one booking. It is proved to do exactly what the pure specification `Booking.BookStep` says, and to keep the ledger invariant `Valid()`. The invariant combines three facts:

- no two records share a ticket id;
- no two records share a (date, slot, department) triple;
- every record satisfies the schema.

Availability is a pure function of the records, `Availability.AvailableSlots`. The class exposes it unchanged, as it does the ticket lookup.

Inputs that the source takes from outside become parameters:

- The clock reading behind `new Date()` is a `Ticket.Clock` record holding the day, the zero-based month index, the year, hours, minutes and seconds.
- The result of `generateQR` is an `Option<string>`. `None` stands for the `null` returned on failure.

Modules:

| file | module | contents |
|---|---|---|
| wrappers.dfy | Wrappers | `Option`, `Result` |
| decimal.dfy | Decimal | `toString()` of numbers, `padStart`, reading digit strings back |
| sequences.dfy | Sequences | order-preserving selection (`filter`) |
| slots.dfy | SlotCatalog | the `allSlots` literal, a clock-label reader, the catalogue's shape |
| ticket.dfy | Ticket | `generateTicketId`, its decoder, round trips, injectivity |
| appointment.dfy | AppointmentModel | the record, schema validation, `find`/`findOne`, `save()` with the unique index, lookup by ticket |
| availability.dfy | Availability | the `/available-slots` answer and its properties |
| booking.dfy | Booking | request checks, `BookStep`, the `Ledger` class, invariants over runs of bookings |

Behaviour of the code worth knowing, modelled as written:

- An age of 0 is answered as "All fields are required" (the falsy check), not as an invalid age.
- Field values are not trimmed, so `"   "` counts as present.
- The year in a ticket id is not padded. Only day, month, hours, minutes and seconds are two digits.
- The slot label is not checked against the catalogue.
- A ticket-id collision is an error path: the unique index rejects the save, and the route answers with its catch-all 500.

## Model

| member | source | states |
|---|---|---|
| SlotCatalog.CatalogueByHour | routes/appointmentroutes.js:21-28 | each line of the `allSlots` literal is the twelve five-minute labels of one clock hour, 10 through 17 |
| SlotCatalog.CatalogueEntries | routes/appointmentroutes.js:20-29 | the catalogue has 96 entries; entry i is the label of 10:00 plus 5·i minutes |
| SlotCatalog.TimeLabelReadsBack | routes/appointmentroutes.js:20-29 | the 12-hour label of any time of day, 0:00 ("12:00 AM") to 23:59, reads back as that time, in minutes after midnight |
| SlotCatalog.CatalogueShape | routes/appointmentroutes.js:20-29 | 96 entries, from "10:00 AM" to "5:55 PM", entry i at 600 + 5·i minutes, strictly chronological and pairwise distinct |
| SlotCatalog.CatalogueChronological | routes/appointmentroutes.js:20-29 | every catalogue entry is a valid clock label, each later than the one before |
| SlotCatalog.EveningOutsideCatalogue | routes/appointmentroutes.js:20-29 | no label from 6:00 PM onwards is a catalogue entry |
| SlotCatalog.SlotTime | routes/appointmentroutes.js:20-29 | a label that parses denotes a time within the day |
| AppointmentModel.Find | routes/appointmentroutes.js:16 | `find` returns the matching records in collection order: an order-preserving subsequence whose members are exactly the matching records, each as many times as it is stored |
| AppointmentModel.RequiredFields | models/appointmentModel.js:4-12 | each `required` flag on its own fails `save()`: emptying any one of the seven String fields, or a null or empty QR payload, gives a validation error whatever the rest of the record holds; the age never changes whether the save succeeds |
| AppointmentModel.FindOne | routes/appointmentroutes.js:58-59 | `findOne` returns a record exactly when one matches, and then the first matching one |
| AppointmentModel.Insert | models/appointmentModel.js:3-13 | `save()` succeeds exactly when the schema's required fields are set and the ticket id is new, and then appends the record; a record failing the schema fails validation |
| AppointmentModel.InsertKeepsIndex | models/appointmentModel.js:11 | a successful insert keeps ticket ids unique, and the stored record satisfies the schema |
| AppointmentModel.InsertAdmitsSameTriple | models/appointmentModel.js:3-13 | the schema by itself stores a second record for a slot that is already held, so only the route's check keeps triples unique |
| AppointmentModel.LookupByTicket | routes/opdroutes.js:64-75 | an empty id is rejected; not found exactly when no record carries the id; a found record carries the requested id |
| AppointmentModel.LookupFindsTheRecord | routes/opdroutes.js:71-75 | under the unique index, the lookup of any stored record's ticket id returns that very record |
| Availability.BookedSlots | routes/appointmentroutes.js:16-17 | the booked labels are exactly the slots of records with the queried date and department |
| Availability.FilterOut | routes/appointmentroutes.js:32 | the filter keeps a subsequence of the catalogue whose members are exactly the catalogue labels that are not booked, each unbooked label as many times as the catalogue lists it |
| Availability.AvailableSlots | routes/appointmentroutes.js:8-33 | an error exactly when date or department is empty; otherwise a subsequence of the catalogue holding a label exactly when no record for that date and department holds it |
| Availability.AvailableChronological | routes/appointmentroutes.js:20-32 | the answer lists its labels in strictly increasing time of day |
| Availability.SameBookingsSameAnswer | routes/appointmentroutes.js:16-32 | two collections that book the same labels for a date and department give the same answer |
| Availability.OtherKeysIrrelevant | routes/appointmentroutes.js:16 | records for another date or department, wherever they are stored, leave the answer unchanged |
| Availability.InsertTakesOnlyItsSlot | routes/appointmentroutes.js:16-32 | after one more record the answer is a subsequence of the one before; it loses at most the new record's slot, and only for that record's date and department |
| Decimal.NatToString | utils/ticketUtils.js:9-14 | `toString()` of a non-negative number is one or more digits with no leading zero, and a single digit exactly below 10 |
| Decimal.IntToString | utils/ticketUtils.js:11-17 | `String(n)` of a non-negative number is its digit rendering; of a negative one, a minus sign followed by digits without a leading zero that denote the magnitude |
| Decimal.PadStart | utils/ticketUtils.js:9-14 | `padStart` keeps the string as a suffix, fills the front with the fill character and reaches the width when the string is shorter |
| Decimal.NatToStringValue | utils/ticketUtils.js:9-14 | the digits a number is rendered as denote that number |
| Decimal.DigitsValueRendering | utils/ticketUtils.js:11 | a digit string without a leading zero is the rendering of its own value |
| Decimal.TwoDigitField | utils/ticketUtils.js:9-14 | a number below 100 padded to width 2 is its tens digit followed by its units digit |
| Decimal.TwoDigitFieldValue | utils/ticketUtils.js:9-14 | any two-digit field denotes a number below 100 that pads back to the same field |
| Decimal.FourDigitLength | utils/ticketUtils.js:11 | a year 1000..9999 renders to four characters |
| Ticket.GenerateTicketId | utils/ticketUtils.js:17 | every ticket id starts with "KC" |
| Ticket.Pad2 | utils/ticketUtils.js:9-14 | a padded field is at least two digits that denote the number, and exactly two precisely when the number is below 100 |
| Ticket.Layout | utils/ticketUtils.js:17 | the template is "KC" followed by the six fields without separators, so its length is two plus theirs |
| Ticket.TicketIdFields | utils/ticketUtils.js:9-14 | day, month (index plus one, so 1..12), hours, minutes and seconds each become two digits; the id is 12 characters longer than the year's text |
| Ticket.TicketIdLayout | utils/ticketUtils.js:11-17 | with a four-digit year the id is 16 characters, "KC" followed by fourteen digits, each field at its fixed position |
| Ticket.ParseTicketId | utils/ticketUtils.js:16-17 | an accepted id decodes to a calendar reading with a four-digit year |
| Ticket.ParseGenerated | utils/ticketUtils.js:9-17 | decoding the id of any calendar reading with a four-digit year gives back that reading |
| Ticket.GenerateParsed | utils/ticketUtils.js:9-17 | every id the decoder accepts is exactly the id generated from its reading |
| Ticket.TicketIdInjective | utils/ticketUtils.js:9-17 | two readings that generate the same id are the same reading |
| Booking.Validate | routes/appointmentroutes.js:45-55 | passes exactly when all fields are truthy, age ≥ 1 and the phone is one or more digits; a missing or falsy field (age 0 included) wins over the others; invalid age exactly for negative ages; invalid phone exactly when the phone has a non-digit |
| Booking.BookStep | routes/appointmentroutes.js:41-76 | every error leaves the ledger unchanged; success appends exactly the submitted fields with the generated ticket id and QR payload, and happens exactly when the request is valid, the triple is free, the QR payload is non-null and non-empty, and the ticket id is new; validation errors come first; the request is answered as slot taken exactly when it is valid and its triple is held; it is answered with the storage error exactly when it is valid, its triple is free and the save is refused (null or empty QR payload, or a ticket id already stored) |
| Booking.BookKeepsInvariant | routes/appointmentroutes.js:58-69 | any booking keeps ticket ids unique, triples unique and every record schema-valid |
| Booking.ReplayKeepsInvariant | routes/appointmentroutes.js:58-69 | a collection filled only through bookings, from empty, never holds two records for one (date, slot, department), nor two for one ticket id |
| Booking.BookedSlotDisappears | routes/appointmentroutes.js:16-69 | after a successful booking the query for its date and department succeeds before and after; its slot is gone from the answer for its date and department, every other label stays, and nothing is added |
| Booking.LookupAfterBook | routes/appointmentroutes.js:64-71 | the ticket id in a confirmation looks up exactly the record just stored |
| Booking.SameSecondCollides | routes/appointmentroutes.js:64-75 | once a booking succeeded, any other booking at the same clock reading fails and leaves the ledger unchanged; when that request is valid and its triple free, the failure is the storage error of the duplicate ticket id |
| Booking.DistinctSecondsDistinctTickets | utils/ticketUtils.js:9-17 | bookings at different seconds (four-digit years) get different ticket ids |
| Booking.NullQrFails | routes/appointmentroutes.js:65-69 | a null QR payload fails the save with a storage error and the ledger unchanged |
| Booking.NewRecord | routes/appointmentroutes.js:68 | the record carries the request's seven fields unchanged with the generated ticket id and QR payload; for a valid request and a non-empty id it satisfies the schema exactly when the QR payload is set and non-empty |
| Booking.AcceptedWhenEmpty | routes/appointmentroutes.js:43-69 | on an empty collection, any valid request with a non-empty QR payload is booked |
| Booking.NonCatalogueSlotAccepted | routes/appointmentroutes.js:43-69 | a slot label outside the catalogue is booked like any other |
| Booking.Ledger.Book | routes/appointmentroutes.js:41-76 | the method's answer and new records are exactly `BookStep` of the old records, and the ledger invariant is kept |
| Booking.Ledger.AvailableSlots | routes/appointmentroutes.js:8-33 | the ledger answers the query for its records: an error exactly when date or department is empty, otherwise a subsequence of the catalogue without exactly the booked labels |
| Booking.Ledger.LookupByTicket | routes/opdroutes.js:64-75 | the ledger's lookup rejects an empty id, reports not found exactly when no record carries the id, and under the invariant returns the one stored record with that id |
| Booking.Ledger.constructor | models/appointmentModel.js:15 | a new collection is empty and satisfies the ledger invariant |

## Left out

- HTTP status codes and JSON bodies: each route answer is a `Result` with an error datatype. Booking has four 400 kinds plus `StorageError` for the 500; the query has one 400 kind.
- Database I/O failures in `find`, `findOne` and `save` (the "Failed to fetch available slots" and other 500 paths not caused by validation or the unique index): storage is modelled as always reachable.
- Concurrency: the check-then-write window between the conflict check and the save, and async interleavings. `Ledger.Book` is one atomic step, so the triple-uniqueness results hold for sequential bookings only.
- `generateQR` / `QRCode.toDataURL`: its result is an opaque input. A `null` is `None`; the model does not say which strings it produces.
- `new Date()` and the local time zone: the clock reading is an input. `IsCalendarReading` bounds the day of month by 1..31, not by the month's real length.
- Ticket.ParseTicketId: the round trip and injectivity are stated for four-digit years only. Other years give ids of another length.
- JavaScript type coercion of the request body and of `req.query`: age is an integer, the other fields and the query's `date` and `department` are strings. `NaN`, numeric strings, arrays and objects are not modelled, so neither is a query value such as `date[$ne]=` that is truthy and reaches `find` as a Mongo operator, nor mongoose's casting of `age` to Number.
- The PDF ticket route (routes/opdroutes.js): all rendering and the "N/A" defaulting of missing fields are left out. Only its lookup by ticket id is modelled (`AppointmentModel.LookupByTicket`). The separate `typeof ticketId !== "string"` check is implied by the types.
- server.js: application setup, CORS, environment loading, the database connection and `listen`.
- The `_id`, `__v` and `select("slot")` projection details of mongoose documents: a record is its nine schema fields.
