/**
 * Which rows of the database keep a unit, said on their columns: when a reserved unit is put back
 * on sale, when a unit is free and what describes the hold of one that is not.
 */
module HoldRows {
  import opened Text
  import opened UnitHolds

  /** A reservation of the unit, pending or confirmed and still valid. */
  ghost predicate SomeReservation(t: Tables, a: Args, now: int) {
    !a.ignoreReservations
    && exists i | i in t.reservations ::
         var r := t.reservations[i];
         && r.unitId == a.unitId && (r.status == Pending || r.status == Confirmed) && now < r.validUntil
         && a.reservationId != Some(i) && (a.customerId == None || r.customerId != a.customerId)
  }

  /** A contract of the unit, not deleted: a draft with time to pay, or an active one that waits for the opening. */
  ghost predicate SomeContract(t: Tables, a: Args, now: int) {
    exists i | i in t.contracts ::
      var c := t.contracts[i];
      && c.unitId == a.unitId && !c.deleted
      && match c.status {
           case Draft => c.firstPaymentDeadline != None && now < c.firstPaymentDeadline.value
           case Active => c.preOpening && c.preOpeningStartedAt == None
           case _ => false
         }
      && a.contractId != Some(i) && a.customerId != Some(c.customerId)
  }

  /** A contract in force or ending, not deleted, that is to move to the unit; whose it is does not matter. */
  ghost predicate SomeMove(t: Tables, a: Args) {
    exists i | i in t.contracts ::
      var c := t.contracts[i];
      && c.scheduledUnitId == Some(a.unitId) && !c.deleted && (c.status == Active || c.status == Ending)
      && a.contractId != Some(i)
  }

  /** A waitlist entry told that the unit is kept for it. */
  ghost predicate SomeNotice(t: Tables, a: Args) {
    exists i | i in t.waitlist ::
      var e := t.waitlist[i];
      && e.heldUnitId == Some(a.unitId) && e.status == Notified
      && a.waitlistEntryId != Some(i) && (a.customerId == None || e.customerId != a.customerId)
  }

  /** A draft of the unit, not deleted, whatever its deadline. */
  ghost predicate IsOpenDraft(t: Tables, a: Args, i: Id) {
    && i in t.contracts && t.contracts[i].unitId == a.unitId
    && t.contracts[i].status == Draft && !t.contracts[i].deleted
    && a.contractId != Some(i) && a.customerId != Some(t.contracts[i].customerId)
  }

  /** An open draft that came out of a converted reservation of the unit. */
  ghost predicate SomeDraftOfReservation(t: Tables, a: Args) {
    exists i, j | j in t.reservations ::
      var r := t.reservations[j];
      && IsOpenDraft(t, a, i)
      && r.unitId == a.unitId && r.status == Converted && r.convertedContractId == Some(i)
  }

  /** An open draft that came out of a waitlist entry for the unit. */
  ghost predicate SomeDraftOfNotice(t: Tables, a: Args) {
    exists i, j | j in t.waitlist ::
      var e := t.waitlist[j];
      IsOpenDraft(t, a, i) && e.heldUnitId == Some(a.unitId) && e.convertedContractId == Some(i)
  }

  ghost predicate IsKept(t: Tables, a: Args, now: int) {
    || SomeReservation(t, a, now) || SomeContract(t, a, now) || SomeMove(t, a) || SomeNotice(t, a)
    || SomeDraftOfReservation(t, a) || SomeDraftOfNotice(t, a)
  }

  lemma HeldExactly(t: Tables, a: Args, now: int)
    ensures HeldByOther(t, a, now) <==> IsKept(t, a, now)
  {
    RowsExactly(t, a, now);
    DraftsExactly(t, a);
    hide SomeReservation, SomeContract, SomeMove, SomeNotice, SomeDraftOfReservation, SomeDraftOfNotice;
    hide IsLive, Retains, MovesIn, IsNotice, IsDraft, IsConverted;
  }

  lemma RowsExactly(t: Tables, a: Args, now: int)
    ensures SomeReservation(t, a, now)
            <==> !a.ignoreReservations
                 && exists i | i in t.reservations ::
                      && IsLive(t.reservations[i], a.unitId, now) && Not(a.reservationId, i)
                      && OtherOrNobody(a.customerId, t.reservations[i].customerId)
    ensures SomeContract(t, a, now)
            <==> exists i | i in t.contracts ::
                   && Retains(t.contracts[i], a.unitId, now) && Not(a.contractId, i)
                   && OtherOrNobody(a.customerId, Some(t.contracts[i].customerId))
    ensures SomeMove(t, a)
            <==> exists i | i in t.contracts :: MovesIn(t.contracts[i], a.unitId) && Not(a.contractId, i)
    ensures SomeNotice(t, a)
            <==> exists i | i in t.waitlist ::
                   && IsNotice(t.waitlist[i], a.unitId) && Not(a.waitlistEntryId, i)
                   && OtherOrNobody(a.customerId, t.waitlist[i].customerId)
  {
  }

  lemma DraftsExactly(t: Tables, a: Args)
    ensures SomeDraftOfReservation(t, a) || SomeDraftOfNotice(t, a)
            <==> exists i | i in t.contracts ::
                   && IsDraft(t.contracts[i], a.unitId) && Not(a.contractId, i)
                   && OtherOrNobody(a.customerId, Some(t.contracts[i].customerId)) && IsConverted(t, a.unitId, i)
  {
    if SomeDraftOfReservation(t, a) {
      var i, j :|
        && j in t.reservations && IsOpenDraft(t, a, i) && t.reservations[j].unitId == a.unitId
        && t.reservations[j].status == Converted && t.reservations[j].convertedContractId == Some(i);
      assert IsDraft(t.contracts[i], a.unitId) && IsConverted(t, a.unitId, i);
    }
    if SomeDraftOfNotice(t, a) {
      var i, j :|
        && j in t.waitlist && IsOpenDraft(t, a, i) && t.waitlist[j].heldUnitId == Some(a.unitId)
        && t.waitlist[j].convertedContractId == Some(i);
      assert IsDraft(t.contracts[i], a.unitId) && IsConverted(t, a.unitId, i);
    }
    forall i | i in t.contracts && IsDraft(t.contracts[i], a.unitId) && Not(a.contractId, i)
               && OtherOrNobody(a.customerId, Some(t.contracts[i].customerId)) && IsConverted(t, a.unitId, i)
      ensures SomeDraftOfReservation(t, a) || SomeDraftOfNotice(t, a)
    {
      assert IsOpenDraft(t, a, i);
    }
  }

  /** A unit is put back on sale if and only if it was reserved and no row of the five kinds keeps it. */
  lemma ReleasedExactly(t: Tables, a: Args, now: int, reason: string)
    ensures var (after, released) := Release(t, a, now, reason);
            && (released <==> a.unitId in t.units && t.units[a.unitId] == Reserved && !IsKept(t, a, now))
            && after.reservations == t.reservations && after.contracts == t.contracts && after.waitlist == t.waitlist
            && (if released then
                  && after.units == t.units[a.unitId := Available]
                  && after.history == t.history + [History(a.unitId, Reserved, Available, reason)]
                else after == t)
  {
    HeldExactly(t, a, now);
    hide HeldByOther, IsKept;
  }

  /** Nobody holds the unit if and only if no row keeps it. */
  lemma FreeExactly(t: Tables, unit: Id, now: int)
    ensures IsFree(t, unit, now) <==> !IsKept(t, NoExclusions(unit), now)
  {
    hide HeldByOther, IsKept, Holds;
    HeldMeansHolder(t, NoExclusions(unit), now);
    HeldExactly(t, NoExclusions(unit), now);
    assert forall h :: !Excludes(t, NoExclusions(unit), h);
  }

  /** The kind that describes a hold is that of the first kind of row that there is. */
  lemma DescribedExactly(t: Tables, unit: Id, now: int, hold: Option<UnitHold>)
    requires IsDescription(t, unit, now, hold)
    ensures var a := NoExclusions(unit);
            if SomeReservation(t, a, now) then hold.Some? && hold.value.kind.ReservationHold?
            else if SomeContract(t, a, now) then
              hold.Some? && (hold.value.kind.OnlineBooking? || hold.value.kind.PreOpeningHold?)
            else if SomeMove(t, a) then hold.Some? && hold.value.kind.ScheduledMove?
            else if SomeNotice(t, a) then hold.Some? && hold.value.kind.WaitlistHold?
            else if exists i :: IsOpenDraft(t, a, i) then hold.Some? && hold.value.kind.ContractDraft?
            else hold == None
  {
    var a := NoExclusions(unit);
    RowsExactly(t, a, now);
    forall i ensures IsOpenDraft(t, a, i) <==> i in t.contracts && IsDraft(t.contracts[i], unit) {
    }
    hide SomeReservation, SomeContract, SomeMove, SomeNotice, IsOpenDraft;
    hide IsLive, Retains, MovesIn, IsNotice, IsDraft;
  }

  /** A unit is offered if and only if it is available and no reservation of it, pending or confirmed, is valid. */
  lemma OfferedExactly(t: Tables, unit: Id, now: int)
    ensures IsOffered(t, unit, now)
            <==> && unit in t.units && t.units[unit] == Available
                 && forall i | i in t.reservations ::
                      var r := t.reservations[i];
                      r.unitId == unit && (r.status == Pending || r.status == Confirmed) ==> r.validUntil <= now
  {
  }
}
