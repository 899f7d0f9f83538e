/**
 * The `/available-slots` query of routes/appointmentroutes.js: the catalogue minus the
 * slots held by appointments with the requested date and department, in catalogue order.
 */
module Availability {
  import opened Wrappers
  import opened Sequences
  import opened SlotCatalog
  import opened AppointmentModel

  /** The 400 answer for a query without a date or without a department. */
  datatype QueryError = MissingDateOrDepartment

  /** Some record holds this slot label on this date in this department. */
  predicate IsBooked(records: seq<Appointment>, date: string, department: string, slot: string) {
    exists i :: 0 <= i < |records| && records[i].date == date && records[i].department == department
                && records[i].slot == slot
  }

  /** `find({ date, department })` mapped to each record's `slot`. */
  function BookedSlots(records: seq<Appointment>, date: string, department: string): (b: seq<string>)
    ensures forall s :: s in b <==> IsBooked(records, date, department, s)
  {
    var found := Find(records, ByDateDepartment(date, department));
    var b := seq(|found|, i requires 0 <= i < |found| => found[i].slot);
    assert forall s :: s in b ==> IsBooked(records, date, department, s) by {
      forall s | s in b ensures IsBooked(records, date, department, s) {
        var i :| 0 <= i < |b| && b[i] == s;
        assert found[i] in found;
        var j :| 0 <= j < |records| && records[j] == found[i];
      }
    }
    assert forall s :: IsBooked(records, date, department, s) ==> s in b by {
      forall s | IsBooked(records, date, department, s) ensures s in b {
        var j :| 0 <= j < |records| && records[j].date == date && records[j].department == department
                 && records[j].slot == s;
        assert records[j] in found;
        var i :| 0 <= i < |found| && found[i] == records[j];
        assert b[i] == s;
      }
    }
    b
  }

  /** `catalogue.filter(slot => !booked.includes(slot))`. */
  function FilterOut(catalogue: seq<string>, booked: seq<string>): (r: seq<string>)
    ensures IsSubsequence(r, catalogue)
    ensures forall s :: s in r <==> s in catalogue && s !in booked
    ensures forall s :: multiset(r)[s] == if s in booked then 0 else multiset(catalogue)[s]
  {
    if catalogue == [] then []
    else
      var rest := FilterOut(catalogue[1..], booked);
      assert catalogue == [catalogue[0]] + catalogue[1..];
      assert forall s :: s in catalogue <==> s == catalogue[0] || s in catalogue[1..];
      if catalogue[0] in booked then rest
      else
        assert ([catalogue[0]] + rest)[1..] == rest;
        [catalogue[0]] + rest
  }

  /**
   * The query: an error when the date or the department is missing or empty; otherwise
   * exactly the catalogue labels no matching record holds, in catalogue order.
   * Because the catalogue has no repeated label (SlotCatalog.CatalogueShape), a
   * subsequence of it is fixed by its members, so these clauses pin the answer down.
   */
  function AvailableSlots(records: seq<Appointment>, date: string, department: string): (r: Result<seq<string>, QueryError>)
    ensures r.Failure? <==> date == "" || department == ""
    ensures r.Success? ==> IsSubsequence(r.value, AllSlots)
    ensures r.Success? ==> forall s :: s in r.value <==> s in AllSlots && !IsBooked(records, date, department, s)
  {
    if date == "" || department == "" then Failure(MissingDateOrDepartment)
    else Success(FilterOut(AllSlots, BookedSlots(records, date, department)))
  }

  /** Keeping a subsequence of a chronological list keeps it chronological. */
  lemma {:induction false} ChronologicalSubsequence(r: seq<string>, s: seq<string>)
    requires IsSubsequence(r, s) && Chronological(s)
    ensures Chronological(r)
    decreases |s|
  {
    if r != [] {
      assert Chronological(s[1..]) by {
        assert forall i :: 0 <= i < |s| - 1 ==> s[1..][i] == s[i + 1];
      }
      if r[0] == s[0] && IsSubsequence(r[1..], s[1..]) {
        ChronologicalSubsequence(r[1..], s[1..]);
        SubsequenceMembers(r[1..], s[1..]);
        assert forall i :: 0 <= i < |r| - 1 ==> r[1..][i] == r[i + 1];
        forall i, j | 0 <= i < j < |r| ensures SlotTime(r[i]).value < SlotTime(r[j]).value {
          if i == 0 {
            assert r[j] in s[1..];
            var k :| 0 <= k < |s| - 1 && s[1..][k] == r[j];
            assert s[k + 1] == r[j];
          }
        }
      } else {
        ChronologicalSubsequence(r, s[1..]);
      }
    }
  }

  /** The answer lists its labels in strictly increasing time of day, so without repeats. */
  lemma AvailableChronological(records: seq<Appointment>, date: string, department: string)
    requires date != "" && department != ""
    ensures Chronological(AvailableSlots(records, date, department).value)
  {
    CatalogueChronological();
    ChronologicalSubsequence(AvailableSlots(records, date, department).value, AllSlots);
  }

  /** Filtering against two booked lists with the same members gives the same answer. */
  lemma {:induction false} FilterOutSameMembers(catalogue: seq<string>, b1: seq<string>, b2: seq<string>)
    requires forall s :: s in b1 <==> s in b2
    ensures FilterOut(catalogue, b1) == FilterOut(catalogue, b2)
    decreases |catalogue|
  {
    if catalogue != [] {
      FilterOutSameMembers(catalogue[1..], b1, b2);
    }
  }

  /** Filtering against more booked labels keeps a subsequence of filtering against fewer. */
  lemma {:induction false} FilterOutMonotone(catalogue: seq<string>, b1: seq<string>, b2: seq<string>)
    requires forall s :: s in b1 ==> s in b2
    ensures IsSubsequence(FilterOut(catalogue, b2), FilterOut(catalogue, b1))
    decreases |catalogue|
  {
    if catalogue != [] {
      FilterOutMonotone(catalogue[1..], b1, b2);
      var r1, r2 := FilterOut(catalogue, b1), FilterOut(catalogue, b2);
      var t1, t2 := FilterOut(catalogue[1..], b1), FilterOut(catalogue[1..], b2);
      if catalogue[0] !in b1 {
        assert r1 == [catalogue[0]] + t1 && r1[1..] == t1;
        if catalogue[0] !in b2 {
          assert r2 == [catalogue[0]] + t2 && r2[1..] == t2;
        } else {
          assert r2 == t2;
        }
      } else {
        assert r1 == t1 && r2 == t2;
      }
    }
  }

  /** Only the records for the queried date and department decide the answer. */
  lemma SameBookingsSameAnswer(r1: seq<Appointment>, r2: seq<Appointment>, date: string, department: string)
    requires forall s :: IsBooked(r1, date, department, s) <==> IsBooked(r2, date, department, s)
    ensures AvailableSlots(r1, date, department) == AvailableSlots(r2, date, department)
  {
    if date != "" && department != "" {
      var b1, b2 := BookedSlots(r1, date, department), BookedSlots(r2, date, department);
      FilterOutSameMembers(AllSlots, b1, b2);
      assert AvailableSlots(r1, date, department) == Success(FilterOut(AllSlots, b1));
      assert AvailableSlots(r2, date, department) == Success(FilterOut(AllSlots, b2));
    }
  }

  /**
   * Records for another date or another department, stored anywhere in the collection,
   * change nothing in the answer; in particular they never remove a slot from it.
   */
  lemma OtherKeysIrrelevant(front: seq<Appointment>, extra: seq<Appointment>, back: seq<Appointment>,
                            date: string, department: string)
    requires forall i :: 0 <= i < |extra| ==> extra[i].date != date || extra[i].department != department
    ensures AvailableSlots(front + extra + back, date, department) == AvailableSlots(front + back, date, department)
  {
    var all, kept := front + extra + back, front + back;
    forall s ensures IsBooked(all, date, department, s) <==> IsBooked(kept, date, department, s) {
      if IsBooked(all, date, department, s) {
        var i :| 0 <= i < |all| && all[i].date == date && all[i].department == department && all[i].slot == s;
        if i < |front| {
          assert kept[i] == all[i];
        } else if i >= |front| + |extra| {
          assert kept[i - |extra|] == all[i];
        }
      }
      if IsBooked(kept, date, department, s) {
        var i :| 0 <= i < |kept| && kept[i].date == date && kept[i].department == department && kept[i].slot == s;
        if i < |front| {
          assert all[i] == kept[i];
        } else {
          assert all[i + |extra|] == kept[i];
        }
      }
    }
    SameBookingsSameAnswer(all, kept, date, department);
  }

  /** After one more record, a label is booked exactly when it was booked before or is the new record's. */
  lemma BookedAfterInsert(records: seq<Appointment>, a: Appointment, date: string, department: string, s: string)
    ensures IsBooked(records + [a], date, department, s) <==>
      IsBooked(records, date, department, s) || (a.date == date && a.department == department && a.slot == s)
  {
    var more := records + [a];
    if IsBooked(records, date, department, s) {
      var i :| 0 <= i < |records| && records[i].date == date && records[i].department == department
               && records[i].slot == s;
      assert more[i] == records[i];
    }
    if IsBooked(more, date, department, s) {
      var i :| 0 <= i < |more| && more[i].date == date && more[i].department == department && more[i].slot == s;
      if i < |records| {
        assert more[i] == records[i];
      }
    }
    assert more[|records|] == a;
  }

  /**
   * Storing one more record can only take labels away from an answer, and takes away
   * at most its own slot, and only from the answer for its own date and department.
   */
  lemma InsertTakesOnlyItsSlot(records: seq<Appointment>, a: Appointment, date: string, department: string)
    requires date != "" && department != ""
    ensures var before, after := AvailableSlots(records, date, department).value,
                                 AvailableSlots(records + [a], date, department).value;
      IsSubsequence(after, before)
      && (forall s :: s in before && (s != a.slot || a.date != date || a.department != department) ==> s in after)
      && (a.date == date && a.department == department ==> a.slot !in after)
  {
    var more := records + [a];
    forall s ensures IsBooked(more, date, department, s) <==>
      IsBooked(records, date, department, s) || (a.date == date && a.department == department && a.slot == s)
    {
      BookedAfterInsert(records, a, date, department, s);
    }
    FilterOutMonotone(AllSlots, BookedSlots(records, date, department), BookedSlots(more, date, department));
  }
}
