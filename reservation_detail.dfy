/** The reservation editor (`ReservationDetailViewModel`): who may change a
    reservation, how a new one is initialised, and what a save or delete
    hands to the reservation book. Clock values are whole minutes; a date
    is a day number and a time of day a minute within that day. */
module ReservationDetail {
  import opened Common
  import opened Queries
  import U = Users
  import A = Auth
  import R = Reservations
  import T = Tables

  const MinutesPerDay: int := 1440

  /** `DateTime.Date`, as a day number. */
  function DateOf(t: int): int { t / MinutesPerDay }

  /** `DateTime.TimeOfDay`, in minutes. */
  function TimeOfDay(t: int): int {
    t % MinutesPerDay
  }

  /** `date + time`. */
  function At(day: int, time: int): int { day * MinutesPerDay + time }

  /** Splitting an instant into date and time of day and adding them again
      gives the instant back. */
  lemma DateTimeRoundTrip(t: int)
    ensures At(DateOf(t), TimeOfDay(t)) == t
  {
  }

  /** A reservation that starts and ends on one day is saved back with the
      same start and end after the editor loads it. */
  lemma {:induction false} LoadedSameDayReservationKeepsTimes(start: int, end: int)
    requires DateOf(start) == DateOf(end)
    ensures At(DateOf(start), TimeOfDay(start)) == start
    ensures At(DateOf(start), TimeOfDay(end)) == end
  {
    DateTimeRoundTrip(start);
    DateTimeRoundTrip(end);
  }

  /** A reservation shorter than a day that crosses midnight is loaded with
      an end time of day before its start time of day, so the editor's time
      check refuses to save it again. */
  lemma {:induction false} LoadedOvernightReservationIsRefused(start: int, end: int)
    requires DateOf(end) == DateOf(start) + 1 && end - start < MinutesPerDay
    ensures At(DateOf(start), TimeOfDay(end)) <= At(DateOf(start), TimeOfDay(start))
  {
    DateTimeRoundTrip(start);
    DateTimeRoundTrip(end);
  }

  /** `UpdateBaseRolePermissions`: the current user is Staff or Admin. */
  predicate StaffOrAdmin(user: Option<U.User>) {
    user.Some? && (user.value.role == U.Staff || user.value.role == U.Admin)
  }

  /** `UpdateDetailedPermissions` once the role flag is current: nobody
      without a user; Staff and Admin always; anyone else only for a
      reservation whose positive owner id is their own. */
  predicate CanManage(user: Option<U.User>, ownerUserId: int) {
    match user
    case None => false
    case Some(u) => StaffOrAdmin(user) || (ownerUserId > 0 && u.id == ownerUserId)
  }

  lemma ManageByRole(user: Option<U.User>, ownerUserId: int)
    ensures user.None? ==> !CanManage(user, ownerUserId)
    ensures user.Some? && user.value.role != U.Customer ==> CanManage(user, ownerUserId)
    ensures user.Some? && user.value.role == U.Customer ==>
              (CanManage(user, ownerUserId) <==> ownerUserId > 0 && user.value.id == ownerUserId)
  {
  }

  /** The status a save stores, or `None` where the source's lookup of the
      stored reservation finds nothing: Staff and Admin editing keep the
      chosen status, anyone else editing keeps the stored status, and a new
      reservation is Pending. */
  function SavedStatus(isExisting: bool, isStaffOrAdmin: bool, chosen: R.Status, stored: Option<R.Status>): Option<R.Status> {
    if isExisting && isStaffOrAdmin then Some(chosen)
    else if isExisting then (match stored case None => None case Some(s) => Some(s))
    else Some(R.Pending)
  }

  /** A new reservation starts tomorrow at 18:00 ... */
  function DefaultStart(now: int): int { At(DateOf(now) + 1, 18 * 60) }

  /** ... and ends two hours later. */
  function DefaultEnd(now: int): int { At(DateOf(now) + 1, 18 * 60 + 2 * 60) }

  /** The defaults pass the save checks on times: the end is after the
      start, and the start is not before `now`. */
  lemma {:induction false} DefaultsPassTimeChecks(now: int)
    ensures DefaultEnd(now) - DefaultStart(now) == 120
    ensures DefaultStart(now) > now
  {
    DateTimeRoundTrip(now);
    assert DefaultStart(now) == At(DateOf(now), TimeOfDay(now)) + (MinutesPerDay - TimeOfDay(now)) + 18 * 60;
  }

  /** The editable part of the form. */
  datatype Form = Form(selectedTable: Option<T.Table>, selectedDay: int, startTime: int, endTime: int,
                       status: R.Status, isExisting: bool)

  datatype SaveOutcome =
    | NotPermitted           // the user may not manage this reservation
    | NoOwner                // no positive owner id to save under
    | InvalidInput           // no table, end not after start, or a new one in the past
    | LookupFailed           // the stored reservation was needed and is gone
    | Submitted(record: R.Reservation, success: bool)

  datatype DeleteOutcome = DeleteNotPermitted | Declined | Deleted(success: bool)

  /** What a save decides before it calls the book: a refusal, or the
      record to hand over. */
  datatype SavePlan = Refuse(reason: SaveOutcome) | Submit(record: R.Reservation)

  /** The owner a save uses: the stored owner when editing, and the current
      user, or -1 without one, when creating. */
  function SaveOwner(isExisting: bool, ownerUserId: int, user: Option<U.User>): int {
    if isExisting then ownerUserId else match user case None => -1 case Some(u) => u.id
  }

  /** The checks of `SaveReservationAsync`, in order, and the record it
      builds: given the form `f`, the permission flags, the owner, the
      current user, the reservation id, the stored reservations `rs` and
      the clock `now`. A plan submits exactly when every check passes, and
      a submitted record has a table, a positive owner, an end after its
      start, and the status `SavedStatus` gives. */
  function PlanSave(f: Form, canManage: bool, isStaffOrAdmin: bool, ownerUserId: int, user: Option<U.User>,
                    reservationId: int, rs: seq<R.Reservation>, now: int): (p: SavePlan)
    ensures var owner := SaveOwner(f.isExisting, ownerUserId, user);
            var start := At(f.selectedDay, f.startTime);
            var end := At(f.selectedDay, f.endTime);
            p.Submit? <==>
              && canManage && owner > 0 && f.selectedTable.Some? && start < end
              && (!f.isExisting ==> now <= start)
              && (f.isExisting && !isStaffOrAdmin ==> R.Find(rs, reservationId).Some?)
    ensures p.Refuse? ==>
              p.reason == (if !canManage then NotPermitted
                           else if SaveOwner(f.isExisting, ownerUserId, user) <= 0 then NoOwner
                           else if f.selectedTable.None? || At(f.selectedDay, f.endTime) <= At(f.selectedDay, f.startTime)
                                   || (At(f.selectedDay, f.startTime) < now && !f.isExisting) then InvalidInput
                           else LookupFailed)
    ensures p.Submit? ==>
              && p.record.id == reservationId && p.record.tableId == f.selectedTable.value.id
              && p.record.userId == SaveOwner(f.isExisting, ownerUserId, user) > 0
              && p.record.timeStart == At(f.selectedDay, f.startTime) < p.record.timeEnd == At(f.selectedDay, f.endTime)
              && (!f.isExisting ==> now <= p.record.timeStart && p.record.status == R.Pending)
              && (f.isExisting && isStaffOrAdmin ==> p.record.status == f.status)
              && (f.isExisting && !isStaffOrAdmin ==> p.record.status == R.Find(rs, reservationId).value.status)
  {
    var owner := SaveOwner(f.isExisting, ownerUserId, user);
    var start := At(f.selectedDay, f.startTime);
    var end := At(f.selectedDay, f.endTime);
    if !canManage then Refuse(NotPermitted)
    else if owner <= 0 then Refuse(NoOwner)
    else if f.selectedTable.None? || end <= start || (start < now && !f.isExisting) then Refuse(InvalidInput)
    else
      var stored := match R.Find(rs, reservationId) case None => None case Some(x) => Some(x.status);
      match SavedStatus(f.isExisting, isStaffOrAdmin, f.status, stored)
      case None => Refuse(LookupFailed)
      case Some(st) => Submit(R.Reservation(reservationId, f.selectedTable.value.id, owner, start, end, st))
  }

  /** Only Staff and Admin change a stored reservation's status: for anyone
      else editing, the status chosen on the form makes no difference to
      the save, and a submitted record keeps the stored status. A new
      reservation is saved Pending whatever the form says. */
  lemma StatusOnlyStaffChanges(f: Form, chosen: R.Status, canManage: bool, isStaffOrAdmin: bool, ownerUserId: int,
                               user: Option<U.User>, reservationId: int, rs: seq<R.Reservation>, now: int)
    requires !f.isExisting || !isStaffOrAdmin
    ensures PlanSave(f.(status := chosen), canManage, isStaffOrAdmin, ownerUserId, user, reservationId, rs, now)
            == PlanSave(f, canManage, isStaffOrAdmin, ownerUserId, user, reservationId, rs, now)
    ensures var p := PlanSave(f, canManage, isStaffOrAdmin, ownerUserId, user, reservationId, rs, now);
            p.Submit? ==> p.record.status == (if f.isExisting then R.Find(rs, reservationId).value.status else R.Pending)
  {
  }

  class ReservationDetailViewModel {
    const auth: A.AuthSession
    const book: R.ReservationBook
    const tableRegistry: T.TableRegistry

    var reservationId: int
    var isInitialLoad: bool
    var ownerUserId: int
    var tables: seq<T.Table>
    var selectedTable: Option<T.Table>
    var selectedDay: int
    var startTime: int
    var endTime: int
    var status: R.Status
    var isExisting: bool
    var isStaffOrAdmin: bool
    var canManage: bool
    var isBusy: bool

    function CurrentForm(): Form
      reads this`selectedTable, this`selectedDay, this`startTime, this`endTime, this`status, this`isExisting
    {
      Form(selectedTable, selectedDay, startTime, endTime, status, isExisting)
    }

    /** The permission flags agree with the session's current user. */
    ghost predicate PermissionsCurrent()
      reads this`isStaffOrAdmin, this`canManage, this`ownerUserId, auth`currentUser
    {
      isStaffOrAdmin == StaffOrAdmin(auth.currentUser) && canManage == CanManage(auth.currentUser, ownerUserId)
    }

    /** `CanSave`. */
    predicate CanSave()
      reads this
    {
      canManage && !isBusy
    }

    /** `CanDelete`. */
    predicate CanDelete()
      reads this
    {
      canManage && isExisting && !isBusy
    }

    /** The form starts on today's date, from now to an hour from now,
        Pending, for no reservation yet; the role flag is taken from the
        session at once. */
    constructor (auth: A.AuthSession, book: R.ReservationBook, tableRegistry: T.TableRegistry, now: int)
      ensures this.auth == auth && this.book == book && this.tableRegistry == tableRegistry
      ensures reservationId == 0 && isInitialLoad && ownerUserId == -1 && tables == []
      ensures CurrentForm() == Form(None, DateOf(now), TimeOfDay(now), TimeOfDay(now + 60), R.Pending, false)
      ensures isStaffOrAdmin == StaffOrAdmin(auth.currentUser) && !canManage && !isBusy
    {
      this.auth := auth;
      this.book := book;
      this.tableRegistry := tableRegistry;
      reservationId := 0;
      isInitialLoad := true;
      ownerUserId := -1;
      tables := [];
      selectedTable := None;
      selectedDay := DateOf(now);
      startTime := TimeOfDay(now);
      endTime := TimeOfDay(now + 60);
      status := R.Pending;
      isExisting := false;
      isStaffOrAdmin := StaffOrAdmin(auth.currentUser);
      canManage := false;
      isBusy := false;
    }

    /** The `ReservationId` setter: a positive id means an existing
        reservation, and the next initialisation loads again. */
    method SetReservationId(id: int)
      modifies this`reservationId, this`isExisting, this`isInitialLoad
      ensures reservationId == id && isExisting == (id > 0) && isInitialLoad
    {
      reservationId := id;
      isExisting := id > 0;
      isInitialLoad := true;
    }

    method UpdateBaseRolePermissions()
      modifies this`isStaffOrAdmin
      ensures isStaffOrAdmin == StaffOrAdmin(auth.currentUser)
    {
      isStaffOrAdmin := StaffOrAdmin(auth.currentUser);
    }

    /** Uses the role flag as it stands. */
    method UpdateDetailedPermissions(ownerId: int)
      modifies this`canManage
      ensures canManage == (auth.currentUser.Some? &&
                            (isStaffOrAdmin || (ownerId > 0 && auth.currentUser.value.id == ownerId)))
    {
      if auth.currentUser.None? {
        canManage := false;
      } else {
        canManage := isStaffOrAdmin || (ownerId > 0 && auth.currentUser.value.id == ownerId);
      }
    }

    /** `AuthService_PropertyChanged` for `CurrentUser`: both flags follow
        the new user. */
    method OnCurrentUserChanged()
      modifies this`isStaffOrAdmin, this`canManage
      ensures PermissionsCurrent()
    {
      UpdateBaseRolePermissions();
      UpdateDetailedPermissions(ownerUserId);
    }

    /** The start of a pending load in `InitializeAsync`: busy, the role
        flag from the session, no owner and no permission yet, and the
        tables listed by number. */
    method BeginLoad()
      modifies this`isBusy, this`isStaffOrAdmin, this`ownerUserId, this`canManage, this`tables
      ensures isBusy && isStaffOrAdmin == StaffOrAdmin(auth.currentUser) && ownerUserId == -1 && !canManage
      ensures tables == T.ByNumber(tableRegistry.tables)
    {
      isBusy := true;
      UpdateBaseRolePermissions();
      ownerUserId := -1;
      canManage := false;
      tables := T.ByNumber(tableRegistry.tables);
    }

    /** The existing-reservation branch of `InitializeAsync` once the
        stored reservation `r` is found and `table` is the listed table
        with its table id: they fill the form, `r` sets the owner and
        permissions, and the load is done. The form ends idle. */
    method LoadExisting(r: R.Reservation, table: Option<T.Table>)
      requires isStaffOrAdmin == StaffOrAdmin(auth.currentUser)
      modifies this`ownerUserId, this`canManage, this`selectedTable, this`selectedDay, this`startTime,
               this`endTime, this`status, this`isExisting, this`isInitialLoad, this`isBusy
      ensures ownerUserId == r.userId && PermissionsCurrent() && !isInitialLoad && !isBusy
      ensures CurrentForm() == Form(table, DateOf(r.timeStart), TimeOfDay(r.timeStart),
                                    TimeOfDay(r.timeEnd), r.status, true)
    {
      ownerUserId := r.userId;
      UpdateDetailedPermissions(ownerUserId);
      selectedTable, selectedDay, startTime, endTime, status, isExisting :=
        table, DateOf(r.timeStart), TimeOfDay(r.timeStart), TimeOfDay(r.timeEnd), r.status, true;
      isInitialLoad, isBusy := false, false;
    }

    /** The new-reservation branch of `InitializeAsync`: needs a current
        user, who becomes the owner; the form gets the first listed table,
        tomorrow from 18:00 to 20:00, Pending; the load is done only if the
        user may manage it. The form ends idle. */
    method LoadNew(now: int)
      requires isInitialLoad && ownerUserId == -1 && !canManage && isStaffOrAdmin == StaffOrAdmin(auth.currentUser)
      modifies this`ownerUserId, this`canManage, this`selectedTable, this`selectedDay, this`startTime,
               this`endTime, this`status, this`isExisting, this`isInitialLoad, this`isBusy
      ensures !isBusy
      ensures match auth.currentUser
              case None =>
                ownerUserId == -1 && !canManage && isInitialLoad && CurrentForm() == old(CurrentForm())
              case Some(u) =>
                && ownerUserId == u.id && PermissionsCurrent() && isInitialLoad == !canManage
                && CurrentForm() == Form(if tables == [] then None else Some(tables[0]),
                                         DateOf(now) + 1, 18 * 60, 20 * 60, R.Pending, false)
                && At(selectedDay, startTime) == DefaultStart(now) && At(selectedDay, endTime) == DefaultEnd(now)
    {
      if auth.currentUser.None? {
        isBusy := false;
        return;
      }
      ownerUserId := auth.currentUser.value.id;
      UpdateDetailedPermissions(ownerUserId);
      selectedTable, selectedDay, startTime, status, isExisting :=
        (if tables == [] then None else Some(tables[0])), DateOf(now) + 1, 18 * 60, R.Pending, false;
      endTime := startTime + 2 * 60;
      if canManage {
        isInitialLoad := false;
      }
      isBusy := false;
    }

    /** `InitializeAsync`: only on a pending load while not busy. Lists the
        tables by number; for an existing reservation loads it (nothing
        more when it is gone); for a new one needs a current user and fills
        in the defaults; the load counts as done unless it stopped early. */
    method Initialize(now: int)
      modifies this
      ensures reservationId == old(reservationId)
      ensures !old(isInitialLoad) || old(isBusy) ==> unchanged(this)
      ensures old(isInitialLoad) && !old(isBusy) ==>
                && !isBusy
                && isStaffOrAdmin == StaffOrAdmin(auth.currentUser)
                && tables == T.ByNumber(tableRegistry.tables)
      ensures old(isInitialLoad) && !old(isBusy) && reservationId > 0 ==>
                match R.Find(book.reservations, reservationId)
                case None =>
                  ownerUserId == -1 && !canManage && isInitialLoad && CurrentForm() == old(CurrentForm())
                case Some(r) =>
                  && ownerUserId == r.userId && PermissionsCurrent() && !isInitialLoad
                  && CurrentForm() == Form(T.Find(tables, r.tableId), DateOf(r.timeStart), TimeOfDay(r.timeStart),
                                           TimeOfDay(r.timeEnd), r.status, true)
      ensures old(isInitialLoad) && !old(isBusy) && reservationId <= 0 ==>
                match auth.currentUser
                case None =>
                  ownerUserId == -1 && !canManage && isInitialLoad && CurrentForm() == old(CurrentForm())
                case Some(u) =>
                  && ownerUserId == u.id && PermissionsCurrent() && isInitialLoad == !canManage
                  && CurrentForm() == Form(if tables == [] then None else Some(tables[0]),
                                           DateOf(now) + 1, 18 * 60, 20 * 60, R.Pending, false)
                  && At(selectedDay, startTime) == DefaultStart(now) && At(selectedDay, endTime) == DefaultEnd(now)
    {
      if !isInitialLoad || isBusy {
        return;
      }
      BeginLoad();
      if reservationId > 0 {
        var found := R.Find(book.reservations, reservationId);
        if found.None? {
          isBusy := false;
          return;
        }
        LoadExisting(found.value, T.Find(tables, found.value.tableId));
      } else {
        LoadNew(now);
      }
    }

    /** The book call of `SaveReservationAsync` for a record that ends
        after it starts: an existing reservation is updated and a new one
        added, and the book's answer is the answer. */
    method SubmitRecord(rec: R.Reservation) returns (ok: bool)
      requires book.Valid() && rec.timeStart < rec.timeEnd
      modifies book
      ensures book.Valid()
      ensures !isExisting ==>
                && (ok <==> !R.HasOverlap(old(book.reservations), rec.tableId, rec.timeStart, rec.timeEnd, None))
                && book.reservations == (if ok then old(book.reservations) + [rec.(id := old(book.nextId))]
                                         else old(book.reservations))
      ensures isExisting ==>
                var k := IndexOfKey(old(book.reservations), R.ReservationKey, rec.id);
                if k.Some? && !R.HasOverlap(old(book.reservations), rec.tableId, rec.timeStart, rec.timeEnd, Some(rec.id))
                then book.reservations == old(book.reservations)[k.value := rec] && ok == (old(book.reservations)[k.value] != rec)
                else book.reservations == old(book.reservations) && !ok
    {
      if isExisting {
        ok := book.UpdateReservation(rec);
      } else {
        ok := book.AddReservation(rec);
      }
    }

    /** `SaveReservationAsync`: follows `PlanSave` on the form, the session
        and the stored reservations. A refusal leaves the book alone (the
        failed lookup of the stored reservation happens while busy, and the
        form ends idle); a submitted record goes to the book, and the form
        ends idle. */
    method Save(now: int) returns (outcome: SaveOutcome)
      requires book.Valid()
      modifies this`isBusy, book
      ensures book.Valid()
      ensures match PlanSave(CurrentForm(), canManage, isStaffOrAdmin, ownerUserId, auth.currentUser, reservationId,
                             old(book.reservations), now)
              case Refuse(reason) =>
                && outcome == reason && isBusy == (if reason == LookupFailed then false else old(isBusy))
                && book.reservations == old(book.reservations) && book.nextId == old(book.nextId)
              case Submit(rec) =>
                && outcome.Submitted? && outcome.record == rec && !isBusy
                && (!isExisting ==>
                      && (outcome.success <==> !R.HasOverlap(old(book.reservations), rec.tableId, rec.timeStart, rec.timeEnd, None))
                      && book.reservations == (if outcome.success then old(book.reservations) + [rec.(id := old(book.nextId))]
                                               else old(book.reservations)))
                && (isExisting ==>
                      var k := IndexOfKey(old(book.reservations), R.ReservationKey, rec.id);
                      if k.Some? && !R.HasOverlap(old(book.reservations), rec.tableId, rec.timeStart, rec.timeEnd, Some(rec.id))
                      then book.reservations == old(book.reservations)[k.value := rec]
                           && outcome.success == (old(book.reservations)[k.value] != rec)
                      else book.reservations == old(book.reservations) && !outcome.success)
    {
      var plan := PlanSave(CurrentForm(), canManage, isStaffOrAdmin, ownerUserId, auth.currentUser, reservationId,
                           book.reservations, now);
      match plan
      case Refuse(reason) =>
        if reason == LookupFailed {
          isBusy := false;
        }
        outcome := reason;
      case Submit(rec) =>
        isBusy := true;
        var ok := SubmitRecord(rec);
        isBusy := false;
        outcome := Submitted(rec, ok);
    }

    /** `DeleteReservationAsync`: only with permission on an existing
        reservation, and only once the user confirms; the book's answer is
        the answer. */
    method Delete(confirmed: bool) returns (outcome: DeleteOutcome)
      requires book.Valid()
      modifies this`isBusy, book
      ensures book.Valid()
      ensures !canManage || !isExisting ==> outcome == DeleteNotPermitted
      ensures canManage && isExisting && !confirmed ==> outcome == Declined
      ensures canManage && isExisting && confirmed ==>
                outcome.Deleted? && !isBusy && (outcome.success <==> R.Find(old(book.reservations), reservationId).Some?)
      ensures !outcome.Deleted? ==> book.reservations == old(book.reservations) && isBusy == old(isBusy)
      ensures outcome.Deleted? ==>
                match IndexOfKey(old(book.reservations), R.ReservationKey, reservationId)
                case None => book.reservations == old(book.reservations)
                case Some(k) => book.reservations == RemoveAt(old(book.reservations), k)
    {
      if !canManage || !isExisting {
        return DeleteNotPermitted;
      }
      if !confirmed {
        return Declined;
      }
      isBusy := true;
      var ok := book.DeleteReservation(reservationId);
      isBusy := false;
      outcome := Deleted(ok);
    }
  }

  /** Save and delete are enabled exactly for a user who may manage the
      reservation while the editor is idle; delete also needs an existing
      reservation, and with nobody logged in neither is enabled. */
  lemma Enablement(vm: ReservationDetailViewModel)
    requires vm.PermissionsCurrent()
    ensures vm.CanSave() <==> CanManage(vm.auth.currentUser, vm.ownerUserId) && !vm.isBusy
    ensures vm.CanDelete() <==> vm.CanSave() && vm.isExisting
    ensures vm.auth.currentUser.None? ==> !vm.CanSave() && !vm.CanDelete()
  {
  }
}
