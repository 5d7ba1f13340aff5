/**
 * The reservation handlers of src/Controllers/ReservationController.php.
 * Every handler first passes the session gate; the form is a map from
 * field names to strings and the clock is a parameter.
 */
module ReservationHandlers {
  import opened Wrappers
  import opened Strings
  import opened Numbers
  import opened Sorting
  import opened Hex
  import opened OrderedMap
  import opened Reservations
  import opened Validation
  import Auth

  /** What `time()`, `date('Y-m-d')` and SQLite's `datetime('now')` read. */
  datatype Clock = Clock(time: int, today: string, timestamp: string)

  /** Two rows that hold the room on the same day at overlapping times. */
  predicate Overlapping(a: Reservation, b: Reservation) {
    a.date == b.date && TimesOverlap(a.startTime, a.endTime, b.startTime, b.endTime)
  }

  /** The booking invariant: no two reservations hold the room at the same time. */
  ghost predicate NoOverlaps(rows: seq<Reservation>) {
    forall i, j :: 0 <= i < j < |rows| ==> !Overlapping(rows[i], rows[j])
  }

  /** Where a handler sends the browser, and with which message. */
  datatype Outcome =
    | LoginRequired
    | SessionExpired
    | NotPost
    | NotFound
    | Forbidden
    | Rejected(failure: Failure)   // the validator's first error
    | StoreFailed
    | Done

  /**
   * The `$data` array `create` and `update` build from the form: area,
   * responsible and comment trimmed, `num_people` cast with `(int)`, the
   * date and times as sent, missing fields read as ''.
   */
  function FormDraft(post: map<string, string>): (d: Draft)
    ensures d.area == Trim(Auth.Posted(post, "area")) && d.responsible == Trim(Auth.Posted(post, "responsible"))
    ensures d.numPeople == IntCast(Auth.Posted(post, "num_people"))
    ensures d.date == Auth.Posted(post, "reservation_date")
    ensures d.startTime == Auth.Posted(post, "start_time") && d.endTime == Auth.Posted(post, "end_time")
    ensures d.comment == Some(Trim(Auth.Posted(post, "comment")))
  {
    Draft(Trim(Auth.Posted(post, "area")), Trim(Auth.Posted(post, "responsible")),
          IntCast(Auth.Posted(post, "num_people")),
          Auth.Posted(post, "reservation_date"), Auth.Posted(post, "start_time"), Auth.Posted(post, "end_time"),
          Some(Trim(Auth.Posted(post, "comment"))))
  }

  /** An integer field sent as its decimal digits reaches the validator as that integer. */
  lemma NumPeopleRoundTrip(post: map<string, string>, n: nat)
    requires "num_people" in post && post["num_people"] == NatToString(n)
    ensures FormDraft(post).numPeople == n
  {
    IntCastRoundTrip(n);
  }

  /**
   * A row never conflicts with its own new times on update: its id is the
   * excluded one, and a non-empty id is truthy.
   */
  lemma OwnRowNeverConflicts(r: Reservation, start: string, end: string)
    requires !Empty(r.id)
    ensures !Clashes(r, r.date, start, end, Some(r.id))
  {
  }

  /** A row appended after a conflict check that found nothing keeps the table free of overlaps. */
  lemma AppendKeepsNoOverlaps(rows: seq<Reservation>, x: Reservation)
    requires NoOverlaps(rows)
    requires forall r :: r in rows ==> !Clashes(r, x.date, x.startTime, x.endTime, None)
    ensures NoOverlaps(rows + [x])
  {
    var rows' := rows + [x];
    forall i, j | 0 <= i < j < |rows'| ensures !Overlapping(rows'[i], rows'[j]) {
      if j == |rows| {
        assert rows'[i] in rows;
      }
    }
  }

  /**
   * Editing the one row with `id` to times that clash with no row other
   * than (possibly) itself keeps the table free of overlaps.
   */
  lemma EditKeepsNoOverlaps(rows: seq<Reservation>, rows': seq<Reservation>, id: string, d: Draft)
    requires NoOverlaps(rows) && IdsUnique(rows)
    requires forall r :: r in rows ==> !Clashes(r, d.date, d.startTime, d.endTime, Some(id))
    requires |rows'| == |rows|
    requires forall i :: 0 <= i < |rows| ==> rows'[i] == if rows[i].id == id then Edited(rows[i], d) else rows[i]
    ensures NoOverlaps(rows')
  {
    forall i, j | 0 <= i < j < |rows'| ensures !Overlapping(rows'[i], rows'[j]) {
      assert rows[i] in rows && rows[j] in rows;
      if rows[i].id == id {
        assert rows[j].id != id;
        assert !Clashes(rows[j], d.date, d.startTime, d.endTime, Some(id));
      } else if rows[j].id == id {
        assert !Clashes(rows[i], d.date, d.startTime, d.endTime, Some(id));
      }
    }
  }

  /** Deleting a row keeps the table free of overlaps. */
  lemma RemoveKeepsNoOverlaps(rows: seq<Reservation>, id: string)
    requires NoOverlaps(rows)
    ensures NoOverlaps(Removed(rows, id))
  {
    var keep := (x: Reservation) => x.id != id;
    RemovedIsWhere(rows, id, keep);
    WhereKeepsPairwise(rows, keep, (a: Reservation, b: Reservation) => !Overlapping(a, b));
  }

  class ReservationController {
    const store: ReservationStore
    const validator: ReservationValidator

    ghost predicate Valid()
      reads this, store
    {
      validator.store == store && store.Valid()
    }

    constructor (store: ReservationStore)
      requires store.Valid()
      ensures this.store == store && Valid()
    {
      this.store := store;
      validator := new ReservationValidator(store);
    }

    /**
     * `index`: admins and managers see every reservation, anyone else only
     * their own; both by date and start time.
     */
    method Index(s: Auth.Session, clock: Clock) returns (outcome: Outcome, s': Auth.Session, listing: seq<Reservation>)
      ensures outcome == LoginRequired <==> Auth.RequireAuth(s, clock.time) == Auth.ToLogin
      ensures outcome == SessionExpired <==> Auth.RequireAuth(s, clock.time) == Auth.Expired
      ensures outcome == Done <==> Auth.RequireAuth(s, clock.time).Admitted?
      ensures s' == Auth.SessionAfterGate(s, clock.time)
      ensures outcome != Done ==> listing == []
      ensures outcome == Done ==> SortedBy(listing, ScheduleKey)
      ensures outcome == Done && Auth.CanExport(s) ==> multiset(listing) == multiset(store.rows)
      ensures outcome == Done && !Auth.CanExport(s) ==>
                forall x :: multiset(listing)[x] == if Some(x.userId) == s.userId then multiset(store.rows)[x] else 0
    {
      listing := [];
      var g := Auth.RequireAuth(s, clock.time);
      if g == Auth.ToLogin {
        return LoginRequired, s, listing;
      }
      if g == Auth.Expired {
        return SessionExpired, Auth.NoSession, listing;
      }
      s' := g.session;
      if Auth.IsAdmin(s') || Auth.IsManager(s') {
        listing := store.GetAll();
      } else {
        listing := store.GetByUserId(s'.userId.value);
      }
      outcome := Done;
    }

    /**
     * `create`: on a POST the form is validated against today's date and
     * the table; an accepted form is inserted under the session's user id
     * and email, a refused one reports the validator's first error and
     * writes nothing.
     */
    method Create(s: Auth.Session, isPost: bool, post: map<string, string>, clock: Clock, random: seq<Byte>)
      returns (outcome: Outcome, s': Auth.Session)
      requires Valid() && |random| == 8
      modifies store, validator
      ensures Valid()
      ensures outcome == LoginRequired <==> Auth.RequireAuth(s, clock.time) == Auth.ToLogin
      ensures outcome == SessionExpired <==> Auth.RequireAuth(s, clock.time) == Auth.Expired
      ensures outcome == NotPost <==> Auth.RequireAuth(s, clock.time).Admitted? && !isPost
      ensures outcome.Rejected? <==>
                Auth.RequireAuth(s, clock.time).Admitted? && isPost
                && Errors(FormDraft(post), clock.today,
                          old(store.HasTimeConflict(FormDraft(post).date, FormDraft(post).startTime,
                                                    FormDraft(post).endTime, None))) != []
      ensures outcome.Rejected? ==>
                Some(outcome.failure)
                == First(Errors(FormDraft(post), clock.today,
                                old(store.HasTimeConflict(FormDraft(post).date, FormDraft(post).startTime,
                                                          FormDraft(post).endTime, None))))
      ensures outcome == Done <==>
                Auth.RequireAuth(s, clock.time).Admitted? && isPost
                && Errors(FormDraft(post), clock.today,
                          old(store.HasTimeConflict(FormDraft(post).date, FormDraft(post).startTime,
                                                    FormDraft(post).endTime, None))) == []
                && old(store.FindById(BinToHex(random))).None?
      ensures outcome == StoreFailed <==>
                Auth.RequireAuth(s, clock.time).Admitted? && isPost
                && Errors(FormDraft(post), clock.today,
                          old(store.HasTimeConflict(FormDraft(post).date, FormDraft(post).startTime,
                                                    FormDraft(post).endTime, None))) == []
                && old(store.FindById(BinToHex(random))).Some?
      ensures s' == Auth.SessionAfterGate(s, clock.time)
      ensures outcome == Done ==>
                s.userId.Some?
                && store.rows == old(store.rows) + [NewRow(BinToHex(random), s.userId.value, s.email,
                                                           FormDraft(post), clock.timestamp)]
      ensures outcome != Done ==> store.rows == old(store.rows)
      ensures NoOverlaps(old(store.rows)) ==> NoOverlaps(store.rows)
    {
      var g := Auth.RequireAuth(s, clock.time);
      if g == Auth.ToLogin {
        return LoginRequired, s;
      }
      if g == Auth.Expired {
        return SessionExpired, Auth.NoSession;
      }
      s' := g.session;
      if !isPost {
        return NotPost, s';
      }
      var d := FormDraft(post);
      var ok := validator.Validate(d, None, clock.today);
      if !ok {
        var first := validator.GetFirstError();
        return Rejected(first.value), s';
      }
      AcceptedIff(d, clock.today, store.HasTimeConflict(d.date, d.startTime, d.endTime, None));
      ghost var before := store.rows;
      var id := store.Create(s'.userId.value, s'.email, d, random, clock.timestamp);
      if id.Some? {
        outcome := Done;
        if NoOverlaps(before) {
          AppendKeepsNoOverlaps(before, NewRow(BinToHex(random), s'.userId.value, s'.email, d, clock.timestamp));
        }
      } else {
        outcome := StoreFailed;
      }
    }

    /**
     * `update`: a missing reservation, then a missing permission, then a
     * refused form (its own id excluded from the conflict query) each stop
     * the handler with the table unchanged; otherwise the editable fields
     * of the reservation are overwritten.
     */
    method Update(s: Auth.Session, id: string, post: map<string, string>, clock: Clock)
      returns (outcome: Outcome, s': Auth.Session)
      requires Valid()
      modifies store, validator
      ensures Valid()
      ensures outcome == LoginRequired <==> Auth.RequireAuth(s, clock.time) == Auth.ToLogin
      ensures outcome == SessionExpired <==> Auth.RequireAuth(s, clock.time) == Auth.Expired
      ensures outcome == NotFound <==> Auth.RequireAuth(s, clock.time).Admitted? && old(store.FindById(id)).None?
      ensures outcome == Forbidden <==>
                Auth.RequireAuth(s, clock.time).Admitted? && old(store.FindById(id)).Some?
                && !Auth.CanModifyReservation(s, old(store.FindById(id)).value.userId)
      ensures outcome.Rejected? <==>
                Auth.RequireAuth(s, clock.time).Admitted? && old(store.FindById(id)).Some?
                && Auth.CanModifyReservation(s, old(store.FindById(id)).value.userId)
                && Errors(FormDraft(post), clock.today,
                          old(store.HasTimeConflict(FormDraft(post).date, FormDraft(post).startTime,
                                                    FormDraft(post).endTime, Some(id)))) != []
      ensures outcome.Rejected? ==>
                Some(outcome.failure)
                == First(Errors(FormDraft(post), clock.today,
                                old(store.HasTimeConflict(FormDraft(post).date, FormDraft(post).startTime,
                                                          FormDraft(post).endTime, Some(id)))))
      ensures outcome == Done <==>
                Auth.RequireAuth(s, clock.time).Admitted? && old(store.FindById(id)).Some?
                && Auth.CanModifyReservation(s, old(store.FindById(id)).value.userId)
                && Errors(FormDraft(post), clock.today,
                          old(store.HasTimeConflict(FormDraft(post).date, FormDraft(post).startTime,
                                                    FormDraft(post).endTime, Some(id)))) == []
      ensures s' == Auth.SessionAfterGate(s, clock.time)
      ensures outcome == Done ==>
                |store.rows| == |old(store.rows)|
                && forall i :: 0 <= i < |store.rows| ==>
                     store.rows[i] == if old(store.rows[i]).id == id
                                      then Edited(old(store.rows[i]), FormDraft(post)) else old(store.rows[i])
      ensures outcome != Done ==> store.rows == old(store.rows)
      ensures NoOverlaps(old(store.rows)) ==> NoOverlaps(store.rows)
    {
      var g := Auth.RequireAuth(s, clock.time);
      if g == Auth.ToLogin {
        return LoginRequired, s;
      }
      if g == Auth.Expired {
        return SessionExpired, Auth.NoSession;
      }
      s' := g.session;
      var reservation := store.FindById(id);
      if reservation.None? {
        return NotFound, s';
      }
      if !Auth.CanModifyReservation(s', reservation.value.userId) {
        return Forbidden, s';
      }
      var d := FormDraft(post);
      var ok := validator.Validate(d, Some(id), clock.today);
      if !ok {
        var first := validator.GetFirstError();
        return Rejected(first.value), s';
      }
      AcceptedIff(d, clock.today, store.HasTimeConflict(d.date, d.startTime, d.endTime, Some(id)));
      ghost var before := store.rows;
      var written := store.Update(id, d);
      if NoOverlaps(before) {
        EditKeepsNoOverlaps(before, store.rows, id, d);
      }
      outcome := if written then Done else StoreFailed;
    }

    /**
     * `delete`: a missing reservation, then a missing permission, stop the
     * handler with the table unchanged; otherwise the reservation is removed.
     */
    method Delete(s: Auth.Session, id: string, clock: Clock) returns (outcome: Outcome, s': Auth.Session)
      requires Valid()
      modifies store
      ensures Valid()
      ensures outcome == LoginRequired <==> Auth.RequireAuth(s, clock.time) == Auth.ToLogin
      ensures outcome == SessionExpired <==> Auth.RequireAuth(s, clock.time) == Auth.Expired
      ensures outcome == NotFound <==> Auth.RequireAuth(s, clock.time).Admitted? && old(store.FindById(id)).None?
      ensures outcome == Forbidden <==>
                Auth.RequireAuth(s, clock.time).Admitted? && old(store.FindById(id)).Some?
                && !Auth.CanDeleteReservation(s, old(store.FindById(id)).value.userId)
      ensures outcome == Done <==>
                Auth.RequireAuth(s, clock.time).Admitted? && old(store.FindById(id)).Some?
                && Auth.CanDeleteReservation(s, old(store.FindById(id)).value.userId)
      ensures s' == Auth.SessionAfterGate(s, clock.time)
      ensures outcome == Done ==> store.rows == Removed(old(store.rows), id) && |store.rows| == |old(store.rows)| - 1
      ensures outcome != Done ==> store.rows == old(store.rows)
      ensures NoOverlaps(old(store.rows)) ==> NoOverlaps(store.rows)
    {
      var g := Auth.RequireAuth(s, clock.time);
      if g == Auth.ToLogin {
        return LoginRequired, s;
      }
      if g == Auth.Expired {
        return SessionExpired, Auth.NoSession;
      }
      s' := g.session;
      var reservation := store.FindById(id);
      if reservation.None? {
        return NotFound, s';
      }
      if !Auth.CanDeleteReservation(s', reservation.value.userId) {
        return Forbidden, s';
      }
      RemovedKeepsIdsUnique(store.rows, id);
      if NoOverlaps(store.rows) {
        RemoveKeepsNoOverlaps(store.rows, id);
      }
      var ok := store.Delete(id);
      outcome := if ok then Done else StoreFailed;
    }

    /** `exportExcel`: only admins and managers receive the rows, by date and start time. */
    method ExportExcel(s: Auth.Session, clock: Clock) returns (outcome: Outcome, s': Auth.Session, rows: seq<Reservation>)
      ensures outcome == LoginRequired <==> Auth.RequireAuth(s, clock.time) == Auth.ToLogin
      ensures outcome == SessionExpired <==> Auth.RequireAuth(s, clock.time) == Auth.Expired
      ensures outcome == Forbidden <==> Auth.RequireAuth(s, clock.time).Admitted? && !Auth.CanExport(s)
      ensures outcome == Done <==> Auth.RequireAuth(s, clock.time).Admitted? && Auth.CanExport(s)
      ensures s' == Auth.SessionAfterGate(s, clock.time)
      ensures outcome != Done ==> rows == []
      ensures outcome == Done ==> multiset(rows) == multiset(store.rows) && SortedBy(rows, ScheduleKey)
    {
      rows := [];
      var g := Auth.RequireAuth(s, clock.time);
      if g == Auth.ToLogin {
        return LoginRequired, s, rows;
      }
      if g == Auth.Expired {
        return SessionExpired, Auth.NoSession, rows;
      }
      s' := g.session;
      if !Auth.CanExport(s') {
        return Forbidden, s', rows;
      }
      rows := store.GetAll();
      outcome := Done;
    }
  }
}
