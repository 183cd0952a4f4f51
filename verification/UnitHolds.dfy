/**
 * Who holds a storage unit, and when a reserved unit goes back on sale. The tables are maps
 * from id to row and each transaction is one step.
 */
module UnitHolds {
  import opened Text

  type Id = int

  datatype ReservationStatus = Pending | Confirmed | Expired | Converted | CancelledReservation
  datatype Reservation = Reservation(
    unitId: Id, customerId: Option<Id>, status: ReservationStatus, validUntil: int, convertedContractId: Option<Id>)

  datatype ContractStatus = Draft | Active | Ending | Ended | CancelledContract
  datatype Contract = Contract(
    unitId: Id, customerId: Id, status: ContractStatus, deleted: bool, firstPaymentDeadline: Option<int>,
    preOpening: bool, preOpeningStartedAt: Option<int>,
    scheduledUnitId: Option<Id>, scheduledUnitDate: Option<int>, createdAt: int)

  datatype EntryStatus = Waiting | Notified | ConvertedEntry | CancelledEntry
  datatype Entry = Entry(
    heldUnitId: Option<Id>, customerId: Option<Id>, status: EntryStatus, convertedContractId: Option<Id>,
    holdExpiresAt: Option<int>)

  datatype UnitStatus = Available | Occupied | Reserved | Maintenance | Blocked
  datatype History = History(unitId: Id, previousStatus: UnitStatus, newStatus: UnitStatus, reason: string)

  datatype Tables = Tables(
    reservations: map<Id, Reservation>, contracts: map<Id, Contract>, waitlist: map<Id, Entry>,
    units: map<Id, UnitStatus>, history: seq<History>)

  /** The optional arguments; an absent one excludes nothing. */
  datatype Args = Args(
    unitId: Id, contractId: Option<Id>, customerId: Option<Id>, reservationId: Option<Id>,
    waitlistEntryId: Option<Id>, ignoreReservations: bool)

  // ---- the row conditions ----------------------------------------------

  predicate IsLive(r: Reservation, unit: Id, now: int) {
    r.unitId == unit && (r.status.Pending? || r.status.Confirmed?) && r.validUntil > now
  }

  /** An online booking in time, or a signed contract before the opening. */
  predicate Retains(c: Contract, unit: Id, now: int) {
    && c.unitId == unit && !c.deleted
    && ((c.status.Draft? && c.firstPaymentDeadline.Some? && c.firstPaymentDeadline.value > now)
        || (c.status.Active? && c.preOpening && c.preOpeningStartedAt.None?))
  }

  predicate MovesIn(c: Contract, unit: Id) {
    c.scheduledUnitId == Some(unit) && (c.status.Active? || c.status.Ending?) && !c.deleted
  }

  predicate IsNotice(e: Entry, unit: Id) {
    e.heldUnitId == Some(unit) && e.status.Notified?
  }

  predicate IsDraft(c: Contract, unit: Id) {
    c.unitId == unit && c.status.Draft? && !c.deleted
  }

  /** The draft came out of a reservation or of a waitlist notice for this unit. */
  predicate IsConverted(t: Tables, unit: Id, draft: Id) {
    || (exists i | i in t.reservations ::
          && t.reservations[i].unitId == unit && t.reservations[i].status.Converted?
          && t.reservations[i].convertedContractId == Some(draft))
    || (exists i | i in t.waitlist ::
          t.waitlist[i].heldUnitId == Some(unit) && t.waitlist[i].convertedContractId == Some(draft))
  }

  predicate Not(excluded: Option<Id>, id: Id) {
    excluded != Some(id)
  }

  /** With a customer, what belongs to that customer does not count; what belongs to nobody does. */
  predicate OtherOrNobody(customer: Option<Id>, owner: Option<Id>) {
    customer.None? || owner != customer
  }

  // ---- the query -------------------------------------------------------

  /** `unitHeldByOther`. */
  predicate HeldByOther(t: Tables, a: Args, now: int) {
    if (!a.ignoreReservations
        && exists i | i in t.reservations ::
             && IsLive(t.reservations[i], a.unitId, now) && Not(a.reservationId, i)
             && OtherOrNobody(a.customerId, t.reservations[i].customerId))
       || (exists i | i in t.contracts ::
             && Retains(t.contracts[i], a.unitId, now) && Not(a.contractId, i)
             && OtherOrNobody(a.customerId, Some(t.contracts[i].customerId)))
       || (exists i | i in t.contracts :: MovesIn(t.contracts[i], a.unitId) && Not(a.contractId, i))
       || (exists i | i in t.waitlist ::
             && IsNotice(t.waitlist[i], a.unitId) && Not(a.waitlistEntryId, i)
             && OtherOrNobody(a.customerId, t.waitlist[i].customerId))
    then true
    else
      var drafts := set i | i in t.contracts
                            && IsDraft(t.contracts[i], a.unitId) && Not(a.contractId, i)
                            && OtherOrNobody(a.customerId, Some(t.contracts[i].customerId));
      exists i | i in drafts :: IsConverted(t, a.unitId, i)
  }

  // ---- holders ---------------------------------------------------------

  datatype Holder =
    | ByReservation(id: Id) | ByContract(id: Id) | ByMove(id: Id) | ByNotice(id: Id) | ByDraft(id: Id)

  /** A holder keeps the unit for its owner. */
  predicate Holds(t: Tables, unit: Id, now: int, h: Holder) {
    match h
    case ByReservation(i) => i in t.reservations && IsLive(t.reservations[i], unit, now)
    case ByContract(i) => i in t.contracts && Retains(t.contracts[i], unit, now)
    case ByMove(i) => i in t.contracts && MovesIn(t.contracts[i], unit)
    case ByNotice(i) => i in t.waitlist && IsNotice(t.waitlist[i], unit)
    case ByDraft(i) => i in t.contracts && IsDraft(t.contracts[i], unit) && IsConverted(t, unit, i)
  }

  function OwnerOf(t: Tables, h: Holder): Option<Id>
  {
    match h
    case ByReservation(i) => if i in t.reservations then t.reservations[i].customerId else None
    case ByNotice(i) => if i in t.waitlist then t.waitlist[i].customerId else None
    case ByContract(i) => if i in t.contracts then Some(t.contracts[i].customerId) else None
    case ByMove(i) => if i in t.contracts then Some(t.contracts[i].customerId) else None
    case ByDraft(i) => if i in t.contracts then Some(t.contracts[i].customerId) else None
  }

  /** The arguments leave a holder out: by its id, by its customer (moves excepted) or as a reservation. */
  predicate Excludes(t: Tables, a: Args, h: Holder) {
    || (h.ByReservation? && (a.ignoreReservations || a.reservationId == Some(h.id)))
    || ((h.ByContract? || h.ByMove? || h.ByDraft?) && a.contractId == Some(h.id))
    || (h.ByNotice? && a.waitlistEntryId == Some(h.id))
    || (!h.ByMove? && a.customerId.Some? && OwnerOf(t, h) == a.customerId)
  }

  ghost predicate HasHolder(t: Tables, a: Args, now: int) {
    exists h :: Holds(t, a.unitId, now, h) && !Excludes(t, a, h)
  }

  /** The five counts and the draft check find exactly the holders that are not excluded. */
  lemma HeldMeansHolder(t: Tables, a: Args, now: int)
    ensures HeldByOther(t, a, now) <==> HasHolder(t, a, now)
  {
    if HeldByOther(t, a, now) {
      var h := FindHolder(t, a, now);
    }
    if HasHolder(t, a, now) {
      var h :| Holds(t, a.unitId, now, h) && !Excludes(t, a, h);
      HolderIsFound(t, a, now, h);
    }
  }

  lemma FindHolder(t: Tables, a: Args, now: int) returns (h: Holder)
    requires HeldByOther(t, a, now)
    ensures Holds(t, a.unitId, now, h) && !Excludes(t, a, h)
  {
    hide IsLive, Retains, MovesIn, IsNotice, IsDraft, IsConverted;
    if i :| i in t.reservations && !a.ignoreReservations && IsLive(t.reservations[i], a.unitId, now)
            && Not(a.reservationId, i) && OtherOrNobody(a.customerId, t.reservations[i].customerId) {
      h := ByReservation(i);
    } else if i :| i in t.contracts && Retains(t.contracts[i], a.unitId, now) && Not(a.contractId, i)
                   && OtherOrNobody(a.customerId, Some(t.contracts[i].customerId)) {
      h := ByContract(i);
    } else if i :| i in t.contracts && MovesIn(t.contracts[i], a.unitId) && Not(a.contractId, i) {
      h := ByMove(i);
    } else if i :| i in t.waitlist && IsNotice(t.waitlist[i], a.unitId) && Not(a.waitlistEntryId, i)
                   && OtherOrNobody(a.customerId, t.waitlist[i].customerId) {
      h := ByNotice(i);
    } else {
      var i :| i in t.contracts && IsDraft(t.contracts[i], a.unitId) && Not(a.contractId, i)
               && OtherOrNobody(a.customerId, Some(t.contracts[i].customerId)) && IsConverted(t, a.unitId, i);
      h := ByDraft(i);
    }
  }

  lemma HolderIsFound(t: Tables, a: Args, now: int, h: Holder)
    requires Holds(t, a.unitId, now, h) && !Excludes(t, a, h)
    ensures HeldByOther(t, a, now)
  {
    hide IsLive, Retains, MovesIn, IsNotice, IsDraft, IsConverted;
  }

  function NoExclusions(unit: Id): Args {
    Args(unit, None, None, None, None, false)
  }

  /** `b` excludes everything that `a` does, and possibly more. */
  predicate ExcludesMore(a: Args, b: Args) {
    && a.unitId == b.unitId
    && (a.contractId.Some? ==> b.contractId == a.contractId)
    && (a.customerId.Some? ==> b.customerId == a.customerId)
    && (a.reservationId.Some? ==> b.reservationId == a.reservationId)
    && (a.waitlistEntryId.Some? ==> b.waitlistEntryId == a.waitlistEntryId)
    && (a.ignoreReservations ==> b.ignoreReservations)
  }

  /** Adding exclusions can only turn held into free. */
  lemma ExclusionsOnlyFree(t: Tables, a: Args, b: Args, now: int)
    requires ExcludesMore(a, b) && HeldByOther(t, b, now)
    ensures HeldByOther(t, a, now)
  {
    hide Holds, HeldByOther;
    HeldMeansHolder(t, a, now);
    HeldMeansHolder(t, b, now);
    var h :| Holds(t, b.unitId, now, h) && !Excludes(t, b, h);
    assert !Excludes(t, a, h);
  }

  // ---- describing a hold -----------------------------------------------

  datatype HoldKind = ReservationHold | OnlineBooking | PreOpeningHold | ScheduledMove | WaitlistHold | ContractDraft
  datatype UnitHold = UnitHold(kind: HoldKind, id: Id, customerId: Option<Id>, until: Option<int>)

  predicate HasLive(t: Tables, unit: Id, now: int) {
    exists i | i in t.reservations :: IsLive(t.reservations[i], unit, now)
  }

  predicate HasRetaining(t: Tables, unit: Id, now: int) {
    exists i | i in t.contracts :: Retains(t.contracts[i], unit, now)
  }

  predicate HasMove(t: Tables, unit: Id) {
    exists i | i in t.contracts :: MovesIn(t.contracts[i], unit)
  }

  predicate HasNotice(t: Tables, unit: Id) {
    exists i | i in t.waitlist :: IsNotice(t.waitlist[i], unit)
  }

  predicate HasDraft(t: Tables, unit: Id) {
    exists i | i in t.contracts :: IsDraft(t.contracts[i], unit)
  }

  /**
   * A right answer: the first kind that has a row, with one of its rows; of the live
   * reservations the one that ends first, of the drafts the newest.
   */
  predicate IsDescription(t: Tables, unit: Id, now: int, hold: Option<UnitHold>) {
    if HasLive(t, unit, now) then
      && hold.Some? && hold.value.kind.ReservationHold? && hold.value.id in t.reservations
      && var r := t.reservations[hold.value.id];
      && IsLive(r, unit, now) && hold.value.customerId == r.customerId && hold.value.until == Some(r.validUntil)
      && forall i | i in t.reservations && IsLive(t.reservations[i], unit, now) ::
           r.validUntil <= t.reservations[i].validUntil
    else if HasRetaining(t, unit, now) then
      && hold.Some? && hold.value.id in t.contracts
      && var c := t.contracts[hold.value.id];
      && Retains(c, unit, now) && hold.value.customerId == Some(c.customerId)
      && hold.value.kind == (if c.status.Draft? then OnlineBooking else PreOpeningHold)
      && hold.value.until == (if c.status.Draft? then c.firstPaymentDeadline else None)
    else if HasMove(t, unit) then
      && hold.Some? && hold.value.kind.ScheduledMove? && hold.value.id in t.contracts
      && var c := t.contracts[hold.value.id];
      && MovesIn(c, unit) && hold.value.customerId == Some(c.customerId) && hold.value.until == c.scheduledUnitDate
    else if HasNotice(t, unit) then
      && hold.Some? && hold.value.kind.WaitlistHold? && hold.value.id in t.waitlist
      && var e := t.waitlist[hold.value.id];
      && IsNotice(e, unit) && hold.value.customerId == e.customerId && hold.value.until == e.holdExpiresAt
    else if HasDraft(t, unit) then
      && hold.Some? && hold.value.kind.ContractDraft? && hold.value.id in t.contracts
      && var c := t.contracts[hold.value.id];
      && IsDraft(c, unit) && hold.value.customerId == Some(c.customerId) && hold.value.until == None
      && forall i | i in t.contracts && IsDraft(t.contracts[i], unit) :: t.contracts[i].createdAt <= c.createdAt
    else hold.None?
  }

  /**
   * The two queries agree: a unit that is held has a description; a description of any kind
   * but a draft means that it is held; and one of a draft, exactly when a draft was converted.
   */
  lemma QueriesAgree(t: Tables, unit: Id, now: int, hold: Option<UnitHold>)
    requires IsDescription(t, unit, now, hold)
    ensures HeldByOther(t, NoExclusions(unit), now) ==> hold.Some?
    ensures hold.Some? && !hold.value.kind.ContractDraft? ==> HeldByOther(t, NoExclusions(unit), now)
    ensures hold.Some? && hold.value.kind.ContractDraft? ==>
              (HeldByOther(t, NoExclusions(unit), now)
               <==> exists i | i in t.contracts :: IsDraft(t.contracts[i], unit) && IsConverted(t, unit, i))
  {
    hide IsLive, Retains, MovesIn, IsNotice, IsDraft, IsConverted;
  }

  // ---- releasing a unit ------------------------------------------------

  /** `releaseReservedUnit`. */
  function Release(t: Tables, a: Args, now: int, reason: string): (Tables, bool) {
    if HeldByOther(t, a, now) || a.unitId !in t.units || t.units[a.unitId] != Reserved then (t, false)
    else
      (t.(units := t.units[a.unitId := Available],
          history := t.history + [History(a.unitId, Reserved, Available, reason)]), true)
  }

  class UnitStore {
    var reservations: map<Id, Reservation>
    var contracts: map<Id, Contract>
    var waitlist: map<Id, Entry>
    var units: map<Id, UnitStatus>
    var history: seq<History>

    constructor (t: Tables)
      ensures Value() == t
    {
      reservations, contracts, waitlist := t.reservations, t.contracts, t.waitlist;
      units, history := t.units, t.history;
    }

    function Value(): Tables
      reads this
    {
      Tables(reservations, contracts, waitlist, units, history)
    }

    method ReleaseReservedUnit(a: Args, now: int, reason: string) returns (released: bool)
      modifies this`units, this`history
      ensures (Value(), released) == Release(old(Value()), a, now, reason)
    {
      if HeldByOther(Value(), a, now) {
        return false;
      }
      if a.unitId !in units || units[a.unitId] != Reserved {
        return false;
      }
      units := units[a.unitId := Available];
      history := history + [History(a.unitId, Reserved, Available, reason)];
      return true;
    }

    /** `describeUnitHold`: one query after another until one finds a row. */
    method DescribeUnitHold(unit: Id, now: int) returns (hold: Option<UnitHold>)
      ensures IsDescription(Value(), unit, now, hold)
    {
      hide IsLive, Retains, MovesIn, IsNotice, IsDraft;
      if HasLive(Value(), unit, now) {
        var live := set i | i in reservations && IsLive(reservations[i], unit, now);
        ghost var w :| w in reservations && IsLive(reservations[w], unit, now);
        assert w in live;
        var r := EndsFirst(live, reservations);
        return Some(UnitHold(ReservationHold, r, reservations[r].customerId, Some(reservations[r].validUntil)));
      }
      if HasRetaining(Value(), unit, now) {
        var i :| i in contracts && Retains(contracts[i], unit, now);
        var c := contracts[i];
        return Some(UnitHold(if c.status.Draft? then OnlineBooking else PreOpeningHold, i, Some(c.customerId),
                             if c.status.Draft? then c.firstPaymentDeadline else None));
      }
      if HasMove(Value(), unit) {
        var i :| i in contracts && MovesIn(contracts[i], unit);
        return Some(UnitHold(ScheduledMove, i, Some(contracts[i].customerId), contracts[i].scheduledUnitDate));
      }
      if HasNotice(Value(), unit) {
        var i :| i in waitlist && IsNotice(waitlist[i], unit);
        return Some(UnitHold(WaitlistHold, i, waitlist[i].customerId, waitlist[i].holdExpiresAt));
      }
      if HasDraft(Value(), unit) {
        var drafts := set i | i in contracts && IsDraft(contracts[i], unit);
        ghost var w :| w in contracts && IsDraft(contracts[w], unit);
        assert w in drafts;
        var d := Newest(drafts, contracts);
        return Some(UnitHold(ContractDraft, d, Some(contracts[d].customerId), None));
      }
      return None;
    }
  }

  method AnyOf<T>(ids: set<T>) returns (x: T)
    requires ids != {}
    ensures x in ids
  {
    x :| x in ids;
  }

  method EndsFirst(ids: set<Id>, rows: map<Id, Reservation>) returns (first: Id)
    requires ids != {} && ids <= rows.Keys
    ensures first in ids && forall i | i in ids :: rows[first].validUntil <= rows[i].validUntil
  {
    first := AnyOf(ids);
    var rest := ids - {first};
    while rest != {}
      invariant rest <= ids && first in ids
      invariant forall i | i in ids - rest :: rows[first].validUntil <= rows[i].validUntil
    {
      var i := AnyOf(rest);
      if rows[i].validUntil < rows[first].validUntil {
        first := i;
      }
      rest := rest - {i};
    }
  }

  method Newest(ids: set<Id>, rows: map<Id, Contract>) returns (newest: Id)
    requires ids != {} && ids <= rows.Keys
    ensures newest in ids && forall i | i in ids :: rows[i].createdAt <= rows[newest].createdAt
  {
    newest := AnyOf(ids);
    var rest := ids - {newest};
    while rest != {}
      invariant rest <= ids && newest in ids
      invariant forall i | i in ids - rest :: rows[i].createdAt <= rows[newest].createdAt
    {
      var i := AnyOf(rest);
      if rows[newest].createdAt < rows[i].createdAt {
        newest := i;
      }
      rest := rest - {i};
    }
  }

  // ---- the owner's side ------------------------------------------------

  /** Nobody holds the unit. */
  ghost predicate IsFree(t: Tables, unit: Id, now: int) {
    forall h :: !Holds(t, unit, now, h)
  }

  /** The owners named in a release have ended their own hold of the unit. */
  ghost predicate OwnersEnded(t: Tables, a: Args, now: int) {
    forall h :: Holds(t, a.unitId, now, h) ==> !Excludes(t, a, h)
  }

  /** A unit is released if and only if it was reserved and nobody but the excluded owners holds it. */
  lemma ReleasedExactlyWhenUnheld(t: Tables, a: Args, now: int, reason: string)
    ensures Release(t, a, now, reason).1
            <==> a.unitId in t.units && t.units[a.unitId] == Reserved && !HasHolder(t, a, now)
  {
    HeldMeansHolder(t, a, now);
    hide HeldByOther;
  }

  lemma HoldsIgnoresUnits(t: Tables, units: map<Id, UnitStatus>, history: seq<History>, unit: Id, now: int, h: Holder)
    ensures Holds(t.(units := units, history := history), unit, now, h) <==> Holds(t, unit, now, h)
  {
  }

  /** A released unit is free of every holder if and only if the owners named had ended their hold. */
  lemma ReleaseIsSafeExactly(t: Tables, a: Args, now: int, reason: string)
    requires Release(t, a, now, reason).1
    ensures IsFree(Release(t, a, now, reason).0, a.unitId, now) <==> OwnersEnded(t, a, now)
  {
    hide Holds, HeldByOther;
    HeldMeansHolder(t, a, now);
    var after := Release(t, a, now, reason).0;
    forall h ensures Holds(after, a.unitId, now, h) <==> Holds(t, a.unitId, now, h) {
      HoldsIgnoresUnits(t, after.units, after.history, a.unitId, now, h);
    }
  }

  // ---- runs ------------------------------------------------------------

  /**
   * One transaction: any change of the rows (holds that start, end or convert, by anyone and
   * with the clock); a unit put aside; or an owner that ends its hold and lets go of the unit.
   */
  datatype Step =
    | Rows(reservations: map<Id, Reservation>, contracts: map<Id, Contract>, waitlist: map<Id, Entry>)
    | SetAside(unit: Id, why: string)
    | LetGo(reservations: map<Id, Reservation>, contracts: map<Id, Contract>, waitlist: map<Id, Entry>,
            args: Args, why: string)

  function WithRows(t: Tables, s: Step): Tables {
    if s.SetAside? then t
    else t.(reservations := s.reservations, contracts := s.contracts, waitlist := s.waitlist)
  }

  function Apply(t: Tables, s: Step, now: int): Tables {
    match s
    case Rows(_, _, _) => WithRows(t, s)
    case SetAside(unit, why) =>
      if unit in t.units && t.units[unit] == Available then
        t.(units := t.units[unit := Reserved], history := t.history + [History(unit, Available, Reserved, why)])
      else t
    case LetGo(_, _, _, args, why) => Release(WithRows(t, s), args, now, why).0
  }

  /** Every owner that lets go has ended its own hold in the same transaction. */
  ghost predicate IsProper(t: Tables, s: Step, now: int) {
    s.LetGo? ==> OwnersEnded(WithRows(t, s), s.args, now)
  }

  /** A run: the tables after each step, with the time of each step. */
  ghost predicate IsRun(states: seq<Tables>, steps: seq<Step>, times: seq<int>) {
    && |states| == |steps| + 1 && |times| == |steps|
    && forall k :: 0 <= k < |steps| ==>
         IsProper(states[k], steps[k], times[k]) && states[k + 1] == Apply(states[k], steps[k], times[k])
  }

  function StatusIn(t: Tables, unit: Id): Option<UnitStatus> {
    if unit in t.units then Some(t.units[unit]) else None
  }

  lemma RunStep(states: seq<Tables>, steps: seq<Step>, times: seq<int>, k: nat)
    requires IsRun(states, steps, times) && k < |steps|
    ensures IsProper(states[k], steps[k], times[k]) && states[k + 1] == Apply(states[k], steps[k], times[k])
  {
  }

  /** Letting go changes no unit but the one let go of, and that one only when it is reserved and nobody holds it. */
  lemma LettingGoTouchesOne(t: Tables, s: Step, now: int, unit: Id)
    requires s.LetGo? && IsProper(t, s, now) && StatusIn(Apply(t, s, now), unit) != StatusIn(t, unit)
    ensures unit == s.args.unitId && StatusIn(t, unit) == Some(Reserved)
    ensures StatusIn(Apply(t, s, now), unit) == Some(Available) && IsFree(Apply(t, s, now), unit, now)
  {
    hide Holds, HeldByOther;
    ReleaseIsSafeExactly(WithRows(t, s), s.args, now, s.why);
  }

  /**
   * Over any run, between a moment at which a unit is reserved and a later one at which it is
   * available, it was let go of at a step after which nobody at all held it.
   */
  lemma {:induction false} BackOnSaleOnlyWhenFree(states: seq<Tables>, steps: seq<Step>, times: seq<int>,
                                                  i: nat, j: nat, unit: Id) returns (k: nat)
    requires IsRun(states, steps, times) && i <= j <= |steps|
    requires StatusIn(states[i], unit) == Some(Reserved) && StatusIn(states[j], unit) == Some(Available)
    ensures i <= k < j && steps[k].LetGo? && steps[k].args.unitId == unit
    ensures StatusIn(states[k], unit) == Some(Reserved) && StatusIn(states[k + 1], unit) == Some(Available)
    ensures IsFree(states[k + 1], unit, times[k])
    decreases j - i
  {
    hide IsFree, Apply, IsProper;
    RunStep(states, steps, times, i);
    assert |states| == |steps| + 1;
    hide IsRun;
    if StatusIn(states[i + 1], unit) == Some(Reserved) {
      k := BackOnSaleOnlyWhenFree(states, steps, times, i + 1, j, unit);
    } else {
      k := i;
      OnlyLettingGoFrees(states[i], steps[i], times[i], unit);
      LettingGoTouchesOne(states[i], steps[i], times[i], unit);
    }
  }

  lemma OnlyLettingGoFrees(t: Tables, s: Step, now: int, unit: Id)
    requires StatusIn(t, unit) == Some(Reserved) && StatusIn(Apply(t, s, now), unit) != Some(Reserved)
    ensures s.LetGo?
  {
    hide HeldByOther;
  }

  /** `noLiveReservationWhere`: the units that can be offered have no reservation in time. */
  predicate IsOffered(t: Tables, unit: Id, now: int) {
    StatusIn(t, unit) == Some(Available) && !HasLive(t, unit, now)
  }

  /** Offered from `now` on, as long as the rows stay. */
  ghost predicate IsOfferedFrom(t: Tables, unit: Id, now: int) {
    forall later :: now <= later ==> IsOffered(t, unit, later)
  }

  /** A unit that nobody holds and that is on sale is offered, then and later, until the rows change. */
  lemma FreeIsOffered(t: Tables, unit: Id, now: int, later: int)
    requires IsFree(t, unit, now) && StatusIn(t, unit) == Some(Available) && now <= later
    ensures IsOffered(t, unit, later)
  {
    forall i | i in t.reservations ensures !IsLive(t.reservations[i], unit, later) {
      assert !Holds(t, unit, now, ByReservation(i));
    }
  }

  /** Over any run, a reserved unit that is on sale later was offered right after it was let go of. */
  lemma ReleasedIsOffered(states: seq<Tables>, steps: seq<Step>, times: seq<int>, i: nat, j: nat, unit: Id)
    returns (k: nat)
    requires IsRun(states, steps, times) && i <= j <= |steps|
    requires StatusIn(states[i], unit) == Some(Reserved) && StatusIn(states[j], unit) == Some(Available)
    ensures i <= k < j && IsOfferedFrom(states[k + 1], unit, times[k])
  {
    hide IsRun, IsOffered, IsFree;
    assert |states| == |steps| + 1 == |times| + 1 by {
      LengthsOfRun(states, steps, times);
    }
    k := BackOnSaleOnlyWhenFree(states, steps, times, i, j, unit);
    var t := states[k + 1];
    forall later | times[k] <= later ensures IsOffered(t, unit, later) {
      FreeIsOffered(t, unit, times[k], later);
    }
  }

  lemma LengthsOfRun(states: seq<Tables>, steps: seq<Step>, times: seq<int>)
    requires IsRun(states, steps, times)
    ensures |states| == |steps| + 1 == |times| + 1
  {
  }

  /** Over any stretch of a run, a unit that is neither available nor reserved keeps its status. */
  lemma {:induction false} OthersNeverTouched(states: seq<Tables>, steps: seq<Step>, times: seq<int>,
                                              i: nat, j: nat, unit: Id)
    requires IsRun(states, steps, times) && i <= j <= |steps|
    requires StatusIn(states[i], unit) != Some(Reserved) && StatusIn(states[i], unit) != Some(Available)
    ensures StatusIn(states[j], unit) == StatusIn(states[i], unit)
    decreases j - i
  {
    hide Apply, IsProper;
    if i < j {
      RunStep(states, steps, times, i);
      OtherStays(states[i], steps[i], times[i], unit);
      OthersNeverTouched(states, steps, times, i + 1, j, unit);
    }
  }

  lemma OtherStays(t: Tables, s: Step, now: int, unit: Id)
    requires StatusIn(t, unit) != Some(Reserved) && StatusIn(t, unit) != Some(Available)
    ensures StatusIn(Apply(t, s, now), unit) == StatusIn(t, unit)
  {
    hide HeldByOther;
  }

  /** Replaying history rows over a set of units. */
  function Replay(units: map<Id, UnitStatus>, history: seq<History>): map<Id, UnitStatus> {
    if history == [] then units
    else
      var last := history[|history| - 1];
      Replay(units, history[..|history| - 1])[last.unitId := last.newStatus]
  }

  /** One step appends one row exactly when a unit changes, and the row says how. */
  lemma StepLogged(t: Tables, s: Step, now: int)
    ensures var after := Apply(t, s, now);
            || (after.units == t.units && after.history == t.history)
            || (exists h: History ::
                  && after.history == t.history + [h] && h.unitId in t.units
                  && t.units[h.unitId] == h.previousStatus != h.newStatus
                  && after.units == t.units[h.unitId := h.newStatus])
  {
    hide HeldByOther;
    if s.SetAside? && s.unit in t.units && t.units[s.unit] == Available {
      var h := History(s.unit, Available, Reserved, s.why);
      assert Apply(t, s, now).history == t.history + [h];
    } else if s.LetGo? && Release(WithRows(t, s), s.args, now, s.why).1 {
      var h := History(s.args.unitId, Reserved, Available, s.why);
      assert Apply(t, s, now).history == t.history + [h];
    }
  }

  /** Over any run, the history replayed from the start gives the units as they are. */
  lemma {:induction false} HistoryReplays(states: seq<Tables>, steps: seq<Step>, times: seq<int>, k: nat)
    requires IsRun(states, steps, times) && k <= |steps| && states[0].history == []
    ensures Replay(states[0].units, states[k].history) == states[k].units
  {
    hide Apply;
    if k > 0 {
      HistoryReplays(states, steps, times, k - 1);
      var t := states[k - 1];
      StepLogged(t, steps[k - 1], times[k - 1]);
      var after := states[k];
      assert after == Apply(t, steps[k - 1], times[k - 1]);
      hide IsRun;
      if after.history != t.history || after.units != t.units {
        var h :| after.history == t.history + [h] && after.units == t.units[h.unitId := h.newStatus];
        assert after.history[..|after.history| - 1] == t.history;
      }
    }
  }
}
