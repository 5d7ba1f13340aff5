/**
 * The reservation validator (src/Services/ReservationValidator.php): the
 * overlap test, the field rules and the conflict query, with its errors
 * kept in an ordered map keyed by form field.
 */
module Validation {
  import opened Wrappers
  import opened Strings
  import opened OrderedMap
  import opened Reservations
  import opened Calendar

  /** Half-open overlap of [start1, end1) and [start2, end2): `start1 < end2 && end1 > start2`. */
  predicate TimesOverlap(start1: string, end1: string, start2: string, end2: string) {
    Less(start1, end2) && Less(start2, end1)
  }

  /** Swapping the two intervals gives the same answer. */
  lemma OverlapSymmetric(start1: string, end1: string, start2: string, end2: string)
    ensures TimesOverlap(start1, end1, start2, end2) == TimesOverlap(start2, end2, start1, end1)
  {
  }

  /** One booking ending exactly when the next starts is not an overlap, in either order. */
  lemma BackToBackDoNotOverlap(start1: string, boundary: string, end2: string)
    ensures !TimesOverlap(start1, boundary, boundary, end2)
    ensures !TimesOverlap(boundary, end2, start1, boundary)
  {
    LessIrreflexive(boundary);
  }

  /**
   * A zero-length interval `[p, p]` overlaps `[s, e]` under this formula
   * exactly when `p` lies strictly between `s` and `e`: one inside another
   * reservation overlaps it, one on its boundary does not. Only the
   * `start < end` rule keeps such intervals out of the table.
   */
  lemma PointInsideOverlaps(p: string, s: string, e: string)
    ensures TimesOverlap(p, p, s, e) <==> Less(s, p) && Less(p, e)
    ensures !TimesOverlap(s, s, s, e) && !TimesOverlap(e, e, s, e)
  {
    LessIrreflexive(s);
    LessIrreflexive(e);
  }

  /**
   * On `HH:MM` texts the string test is the overlap of the two ranges of
   * minutes since midnight.
   */
  lemma OverlapInMinutes(h1: nat, m1: nat, h2: nat, m2: nat, h3: nat, m3: nat, h4: nat, m4: nat)
    requires h1 < 24 && h2 < 24 && h3 < 24 && h4 < 24
    requires m1 < 60 && m2 < 60 && m3 < 60 && m4 < 60
    ensures TimesOverlap(FormatTime(h1, m1), FormatTime(h2, m2), FormatTime(h3, m3), FormatTime(h4, m4))
            <==> 60 * h1 + m1 < 60 * h4 + m4 && 60 * h3 + m3 < 60 * h2 + m2
  {
    FormatTimeOrder(h1, m1, h4, m4);
    FormatTimeOrder(h3, m3, h2, m2);
  }

  /** The store's conflict query is the overlap test against every other row of that day. */
  lemma ClashIsOverlap(x: Reservation, date: string, start: string, end: string, excludeId: Option<string>)
    ensures Clashes(x, date, start, end, excludeId)
            <==> x.date == date && !(Excludes(excludeId) && x.id == excludeId.value)
                 && TimesOverlap(start, end, x.startTime, x.endTime)
  {
  }

  /** Why a form was refused: the value stored under a field key of the error map. */
  datatype Failure =
    | Required(field: string)   // "El campo <field> es obligatorio"
    | PastDate                  // under "reservation_date"
    | EndNotAfterStart          // under "end_time"
    | NoPeople                  // under "num_people"
    | TimeConflict              // under "time_conflict"

  const RequiredFields: seq<string> :=
    ["area", "responsible", "num_people", "reservation_date", "start_time", "end_time"]

  /** `empty($data[$field])` for the form the controller builds. */
  predicate FieldEmpty(d: Draft, field: string) {
    if field == "area" then Empty(d.area)
    else if field == "responsible" then Empty(d.responsible)
    else if field == "num_people" then d.numPeople == 0
    else if field == "reservation_date" then Empty(d.date)
    else if field == "start_time" then Empty(d.startTime)
    else if field == "end_time" then Empty(d.endTime)
    else true
  }

  /** The errors the required-field loop leaves after visiting `fields`. */
  function RequiredErrors(d: Draft, fields: seq<string>): seq<Entry<Failure>>
  {
    if fields == [] then []
    else
      var errs := RequiredErrors(d, fields[..|fields| - 1]);
      var f := fields[|fields| - 1];
      if FieldEmpty(d, f) then Put(errs, f, Required(f)) else errs
  }

  /** The empty fields among `fields`, in order. */
  function Missing(d: Draft, fields: seq<string>): (ms: seq<string>)
    ensures forall f :: f in ms <==> f in fields && FieldEmpty(d, f)
  {
    if fields == [] then []
    else
      var f := fields[|fields| - 1];
      assert fields == fields[..|fields| - 1] + [f];
      Missing(d, fields[..|fields| - 1]) + (if FieldEmpty(d, f) then [f] else [])
  }

  function RequiredEntries(fields: seq<string>): (m: seq<Entry<Failure>>)
    ensures |m| == |fields|
    ensures forall i :: 0 <= i < |m| ==> m[i] == Entry(fields[i], Required(fields[i]))
  {
    seq(|fields|, i requires 0 <= i < |fields| => Entry(fields[i], Required(fields[i])))
  }

  lemma KeysOfRequiredEntries(fields: seq<string>)
    ensures Keys(RequiredEntries(fields)) == fields
  {
    var m := RequiredEntries(fields);
    if fields != [] {
      assert m[1..] == RequiredEntries(fields[1..]);
      KeysOfRequiredEntries(fields[1..]);
    }
  }

  predicate Distinct(fields: seq<string>) {
    forall i, j :: 0 <= i < j < |fields| ==> fields[i] != fields[j]
  }

  /** The loop records one `Required` entry per empty field, in field order. */
  lemma {:induction false} RequiredErrorsAreMissing(d: Draft, fields: seq<string>)
    requires Distinct(fields)
    ensures RequiredErrors(d, fields) == RequiredEntries(Missing(d, fields))
  {
    if fields != [] {
      var init, f := fields[..|fields| - 1], fields[|fields| - 1];
      RequiredErrorsAreMissing(d, init);
      var ms := Missing(d, init);
      if FieldEmpty(d, f) {
        assert f !in init;
        KeysOfRequiredEntries(ms);
        PutAbsent(RequiredEntries(ms), f, Required(f));
        assert RequiredEntries(ms) + [Entry(f, Required(f))] == RequiredEntries(ms + [f]);
      } else {
        assert ms + [] == ms;
      }
    }
  }

  /** Every required field of `d` is present. */
  predicate Complete(d: Draft) {
    !Empty(d.area) && !Empty(d.responsible) && d.numPeople != 0
    && !Empty(d.date) && !Empty(d.startTime) && !Empty(d.endTime)
  }

  lemma RequiredFieldsDistinct()
    ensures Distinct(RequiredFields)
  {
  }

  lemma MissingIsEmptyIffComplete(d: Draft)
    ensures Missing(d, RequiredFields) == [] <==> Complete(d)
  {
    if Missing(d, RequiredFields) == [] {
      forall i | 0 <= i < |RequiredFields| ensures !FieldEmpty(d, RequiredFields[i]) {
        assert RequiredFields[i] in RequiredFields;
      }
      assert !FieldEmpty(d, RequiredFields[0]) && !FieldEmpty(d, RequiredFields[1]);
      assert !FieldEmpty(d, RequiredFields[2]) && !FieldEmpty(d, RequiredFields[3]);
      assert !FieldEmpty(d, RequiredFields[4]) && !FieldEmpty(d, RequiredFields[5]);
    } else {
      var f := Missing(d, RequiredFields)[0];
      assert f in Missing(d, RequiredFields);
    }
  }

  /** The field rules that run once every required field is present, in their order. */
  function FieldRuleErrors(d: Draft, today: string): seq<Entry<Failure>>
  {
    var e0: seq<Entry<Failure>> := [];
    var e1 := if Less(d.date, today) then Put(e0, "reservation_date", PastDate) else e0;
    var e2 := if !Less(d.startTime, d.endTime) then Put(e1, "end_time", EndNotAfterStart) else e1;
    if d.numPeople <= 0 then Put(e2, "num_people", NoPeople) else e2
  }

  /**
   * The errors `validate` leaves behind, given the answer the store would
   * give to the conflict query for this form.
   */
  function Errors(d: Draft, today: string, conflict: bool): seq<Entry<Failure>>
  {
    var required := RequiredErrors(d, RequiredFields);
    if required != [] then required
    else
      var rules := FieldRuleErrors(d, today);
      if rules == [] && conflict then Put(rules, "time_conflict", TimeConflict) else rules
  }

  /**
   * A form with an empty required field is refused with one `Required`
   * entry per empty field, in field order, and nothing else: no date, time,
   * count or conflict entry.
   */
  lemma MissingFieldsOnly(d: Draft, today: string, conflict: bool)
    requires !Complete(d)
    ensures Errors(d, today, conflict) == RequiredEntries(Missing(d, RequiredFields)) != []
    ensures forall e :: e in Errors(d, today, conflict) ==> e.value == Required(e.key)
    ensures Get(Errors(d, today, conflict), "time_conflict") == None
  {
    RequiredFieldsDistinct();
    RequiredErrorsAreMissing(d, RequiredFields);
    MissingIsEmptyIffComplete(d);
    KeysOfRequiredEntries(Missing(d, RequiredFields));
    assert "time_conflict" !in RequiredFields;
  }

  lemma FieldRuleKeys(d: Draft, today: string)
    ensures Keys(FieldRuleErrors(d, today)) ==
              (if Less(d.date, today) then ["reservation_date"] else [])
              + (if !Less(d.startTime, d.endTime) then ["end_time"] else [])
              + (if d.numPeople <= 0 then ["num_people"] else [])
  {
    var e0: seq<Entry<Failure>> := [];
    var e1 := if Less(d.date, today) then Put(e0, "reservation_date", PastDate) else e0;
    var e2 := if !Less(d.startTime, d.endTime) then Put(e1, "end_time", EndNotAfterStart) else e1;
    PutKeys(e0, "reservation_date", PastDate);
    PutKeys(e1, "end_time", EndNotAfterStart);
    PutKeys(e2, "num_people", NoPeople);
  }

  /**
   * With every field present, the date, time and count rules do not stop
   * one another: every rule that fails leaves its entry, in the order date,
   * end time, count; the conflict entry comes only when none of them failed
   * and the store reports a conflict.
   */
  lemma RuleErrorsInOrder(d: Draft, today: string, conflict: bool)
    requires Complete(d)
    ensures var rules := (if Less(d.date, today) then ["reservation_date"] else [])
                         + (if !Less(d.startTime, d.endTime) then ["end_time"] else [])
                         + (if d.numPeople <= 0 then ["num_people"] else []);
            Keys(Errors(d, today, conflict)) == rules + (if rules == [] && conflict then ["time_conflict"] else [])
  {
    RequiredFieldsDistinct();
    RequiredErrorsAreMissing(d, RequiredFields);
    MissingIsEmptyIffComplete(d);
    FieldRuleKeys(d, today);
    var rules := FieldRuleErrors(d, today);
    PutKeys(rules, "time_conflict", TimeConflict);
    if rules == [] {
      assert Keys(rules) == [];
    }
  }

  /** A date before today (as strings) is refused with a `reservation_date` entry. */
  lemma PastDateRefused(d: Draft, today: string, conflict: bool)
    requires Complete(d) && Less(d.date, today)
    ensures Get(Errors(d, today, conflict), "reservation_date") == Some(PastDate)
  {
    RequiredFieldsDistinct();
    RequiredErrorsAreMissing(d, RequiredFields);
    MissingIsEmptyIffComplete(d);
  }

  /** An end time not after the start time is refused with an `end_time` entry. */
  lemma EndNotAfterStartRefused(d: Draft, today: string, conflict: bool)
    requires Complete(d) && LessEq(d.endTime, d.startTime)
    ensures Get(Errors(d, today, conflict), "end_time") == Some(EndNotAfterStart)
  {
    RequiredFieldsDistinct();
    RequiredErrorsAreMissing(d, RequiredFields);
    MissingIsEmptyIffComplete(d);
    NotLessIsGreaterOrEqual(d.startTime, d.endTime);
  }

  /** A zero-length booking is always refused, whatever else the form holds. */
  lemma ZeroLengthRefused(d: Draft, today: string, conflict: bool)
    requires d.startTime == d.endTime
    ensures Errors(d, today, conflict) != []
  {
    if Complete(d) {
      LessIrreflexive(d.startTime);
      EndNotAfterStartRefused(d, today, conflict);
    } else {
      MissingFieldsOnly(d, today, conflict);
    }
  }

  /**
   * The conflict entry is recorded exactly when every other rule passed and
   * the store reports a conflict.
   */
  lemma ConflictReportedIff(d: Draft, today: string, conflict: bool)
    ensures Get(Errors(d, today, conflict), "time_conflict").Some?
            <==> Complete(d) && !Less(d.date, today) && Less(d.startTime, d.endTime)
                 && d.numPeople > 0 && conflict
  {
    if Complete(d) {
      RuleErrorsInOrder(d, today, conflict);
    } else {
      MissingFieldsOnly(d, today, conflict);
    }
  }

  /** The form is accepted exactly when every rule passes and there is no conflict. */
  lemma AcceptedIff(d: Draft, today: string, conflict: bool)
    ensures Errors(d, today, conflict) == []
            <==> Complete(d) && !Less(d.date, today) && Less(d.startTime, d.endTime)
                 && d.numPeople > 0 && !conflict
  {
    if Complete(d) {
      RuleErrorsInOrder(d, today, conflict);
    } else {
      MissingFieldsOnly(d, today, conflict);
    }
  }

  /** The first error message `getFirstError` reports, by the order the rules run in. */
  lemma FirstFailure(d: Draft, today: string, conflict: bool)
    ensures var first := First(Errors(d, today, conflict));
            if Missing(d, RequiredFields) != [] then first == Some(Required(Missing(d, RequiredFields)[0]))
            else if Less(d.date, today) then first == Some(PastDate)
            else if !Less(d.startTime, d.endTime) then first == Some(EndNotAfterStart)
            else if d.numPeople <= 0 then first == Some(NoPeople)
            else if conflict then first == Some(TimeConflict)
            else first == None
  {
    var errs := Errors(d, today, conflict);
    MissingIsEmptyIffComplete(d);
    if !Complete(d) {
      MissingFieldsOnly(d, today, conflict);
    } else {
      RuleErrorsInOrder(d, today, conflict);
      RequiredFieldsDistinct();
      RequiredErrorsAreMissing(d, RequiredFields);
      assert RequiredErrors(d, RequiredFields) == [];
      assert errs == Errors(d, today, conflict);
      if errs != [] {
        assert Keys(errs)[0] == errs[0].key;
        assert Get(errs, errs[0].key) == Some(errs[0].value);
        assert errs[0] in errs;
      }
      var k := Keys(errs);
      if Less(d.date, today) {
        PastDateRefused(d, today, conflict);
        assert k[0] == "reservation_date";
      } else if !Less(d.startTime, d.endTime) {
        NotLessIsGreaterOrEqual(d.startTime, d.endTime);
        EndNotAfterStartRefused(d, today, conflict);
        assert k[0] == "end_time";
      } else if d.numPeople <= 0 {
        assert errs == FieldRuleErrors(d, today) == Put([], "num_people", NoPeople) == [Entry("num_people", NoPeople)];
      } else if conflict {
        assert FieldRuleErrors(d, today) == [];
        assert errs == Put([], "time_conflict", TimeConflict) == [Entry("time_conflict", TimeConflict)];
      }
    }
  }

  class ReservationValidator {
    const store: ReservationStore
    /** The errors of the last call to `Validate`, by field, in the order they were found. */
    var errors: seq<Entry<Failure>>

    constructor (store: ReservationStore)
      ensures this.store == store && errors == []
    {
      this.store := store;
      errors := [];
    }

    /**
     * `validate`: clears the errors of any earlier call, records one entry
     * per failed rule and answers whether none failed. The conflict query
     * against the store runs only when the other rules passed.
     */
    method Validate(d: Draft, excludeId: Option<string>, today: string) returns (ok: bool)
      modifies this
      ensures errors == Errors(d, today, store.HasTimeConflict(d.date, d.startTime, d.endTime, excludeId))
      ensures ok <==> errors == []
    {
      errors := [];
      for i := 0 to |RequiredFields|
        invariant errors == RequiredErrors(d, RequiredFields[..i])
      {
        var field := RequiredFields[i];
        if FieldEmpty(d, field) {
          errors := Put(errors, field, Required(field));
        }
        assert RequiredFields[..i + 1][..i] == RequiredFields[..i];
      }
      assert RequiredFields[..|RequiredFields|] == RequiredFields;
      if errors != [] {
        return false;
      }
      if Less(d.date, today) {
        errors := Put(errors, "reservation_date", PastDate);
      }
      if !Less(d.startTime, d.endTime) {
        errors := Put(errors, "end_time", EndNotAfterStart);
      }
      if d.numPeople <= 0 {
        errors := Put(errors, "num_people", NoPeople);
      }
      if errors == [] {
        var conflict := store.HasTimeConflict(d.date, d.startTime, d.endTime, excludeId);
        if conflict {
          errors := Put(errors, "time_conflict", TimeConflict);
        }
      }
      ok := errors == [];
    }

    /** `getErrors`: the error map of the last call. */
    function GetErrors(): (r: seq<Entry<Failure>>)
      reads this
      ensures r == errors
    {
      errors
    }

    /** `getFirstError`: null when the last call found nothing, else the first error it found. */
    function GetFirstError(): (r: Option<Failure>)
      reads this
      ensures r.None? <==> errors == []
      ensures r.Some? ==> r.value == errors[0].value
    {
      First(errors)
    }
  }
}
