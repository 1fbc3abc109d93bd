/**
 * The two entry points of lib/availability.ts that choose a barber:
 * `checkAvailability`, which answers a customer's request for a date and
 * a wall-clock time (offering up to three other times when nobody is
 * free), and `autoAssignBarber`, which picks a barber for a booking whose
 * UTC interval is already known.
 */
module Assignment {
  import opened Wrappers
  import opened Utils
  import opened Store
  import opened Availability
  import opened Alternatives

  /**
   * A request to `checkAvailability`. The calendar date and the tenant's
   * timezone together become `day`; `time` is the text the customer gave.
   */
  datatype AvailabilityRequest = AvailabilityRequest(
    tenantId: TenantId,
    day: LocalDay,
    time: string,
    duration: int,
    barberId: Option<BarberId>)

  datatype AvailabilityResult = AvailabilityResult(
    available: bool,
    barberId: Option<BarberId>,
    alternatives: seq<string>)

  /** A named barber is a real request only when the id is a non-empty string. */
  predicate NamesBarber(requested: Option<BarberId>) {
    requested.Some? && requested.value != ""
  }

  /**
   * The barbers `checkAvailability` considers: the named one when it is an
   * active barber of the tenant (else nobody), and otherwise every active
   * barber of the tenant.
   */
  function CandidateIds(snap: Snapshot, tenantId: TenantId, requested: Option<BarberId>): (ids: seq<BarberId>)
    ensures NamesBarber(requested) ==>
              ids == (if FindActiveBarber(snap, requested.value, tenantId).Some? then [requested.value] else [])
    ensures !NamesBarber(requested) ==>
              forall id :: id in ids <==> exists b :: b in snap.barbers && b.id == id && b.tenantId == tenantId && b.active
  {
    if NamesBarber(requested) then
      match FindActiveBarber(snap, requested.value, tenantId)
      case Some(barber) => [barber.id]
      case None => []
    else
      ActiveBarberIds(snap, tenantId)
  }

  /**
   * What `checkAvailability` answers. A time that does not parse leaves
   * every candidate outside every schedule window, so nobody is chosen.
   */
  function AvailabilityOf(snap: Snapshot, req: AvailabilityRequest): AvailabilityResult {
    var candidates := CandidateIds(snap, req.tenantId, req.barberId);
    var time := ParseTimeString(req.time);
    var chosen := if time.None? then None else FirstAvailable(snap, candidates, ProbeAt(req.day, time.value, req.duration));
    if chosen.Some? then AvailabilityResult(true, chosen, [])
    else AvailabilityResult(false, None, AlternativeTimes(Grid(), SlotFree(snap, req.day, req.duration, candidates)))
  }

  /**
   * `checkAvailability`: parse the time, fetch the candidates, return the
   * first one available at the requested time; when there is none, return
   * the alternatives found on the same date.
   */
  method CheckAvailability(snap: Snapshot, req: AvailabilityRequest) returns (result: AvailabilityResult)
    ensures result == AvailabilityOf(snap, req)
  {
    var time := ParseTimeString(req.time);
    var candidates: seq<BarberId>;
    if NamesBarber(req.barberId) {
      var barber := FindActiveBarber(snap, req.barberId.value, req.tenantId);
      candidates := if barber.Some? then [barber.value.id] else [];
    } else {
      candidates := ActiveBarberIds(snap, req.tenantId);
    }
    if time.Some? {
      var chosen := SelectBarber(snap, candidates, ProbeAt(req.day, time.value, req.duration));
      if chosen.Some? {
        return AvailabilityResult(true, chosen, []);
      }
    } else {
      NoProbeForUnparsedTime(snap, candidates, req);
    }
    var alternatives := FindAlternatives(snap, req.day, req.duration, candidates);
    return AvailabilityResult(false, None, alternatives);
  }

  /** With the time unparsed, the loop over candidates is skipped in the model: every probe would fail gate 1. */
  lemma NoProbeForUnparsedTime(snap: Snapshot, candidates: seq<BarberId>, req: AvailabilityRequest)
    requires ParseTimeString(req.time).None?
    ensures AvailabilityOf(snap, req).barberId.None?
  {
  }

  // ---------------------------------------------------------------------
  // What the answer means
  // ---------------------------------------------------------------------

  /** The answer is available exactly when it names a barber, and then offers no alternatives. */
  lemma AnswerShape(snap: Snapshot, req: AvailabilityRequest)
    ensures var r := AvailabilityOf(snap, req);
            (r.available <==> r.barberId.Some?) && (r.available ==> r.alternatives == []) && |r.alternatives| <= 3
  {
  }

  /**
   * A barber in the answer is a candidate that is available for the
   * parsed time, and every candidate listed before it is not.
   */
  lemma AssignedBarberIsFirstAvailable(snap: Snapshot, req: AvailabilityRequest)
    requires AvailabilityOf(snap, req).available
    ensures var candidates := CandidateIds(snap, req.tenantId, req.barberId);
            var time := ParseTimeString(req.time);
            var p := ProbeAt(req.day, time.value, req.duration);
            time.Some? &&
            exists k | 0 <= k < |candidates| ::
              candidates[k] == AvailabilityOf(snap, req).barberId.value && Available(snap, candidates[k], p)
              && forall j | 0 <= j < k :: !Available(snap, candidates[j], p)
  {
    var candidates := CandidateIds(snap, req.tenantId, req.barberId);
    var time := ParseTimeString(req.time);
    var p := ProbeAt(req.day, time.value, req.duration);
    var k := FirstAvailableIndex(snap, candidates, p);
    assert k < |candidates| && candidates[k] == AvailabilityOf(snap, req).barberId.value;
  }

  /** "Not available" means no candidate can take the requested time. */
  lemma RefusalMeansNobodyFree(snap: Snapshot, req: AvailabilityRequest)
    requires !AvailabilityOf(snap, req).available
    requires ParseTimeString(req.time).Some?
    ensures var candidates := CandidateIds(snap, req.tenantId, req.barberId);
            forall i | 0 <= i < |candidates| ::
              !Available(snap, candidates[i], ProbeAt(req.day, ParseTimeString(req.time).value, req.duration))
  {
  }

  /** Naming a barber confines the answer to that barber. */
  lemma NamedBarberOnly(snap: Snapshot, req: AvailabilityRequest)
    requires NamesBarber(req.barberId) && AvailabilityOf(snap, req).available
    ensures AvailabilityOf(snap, req).barberId == req.barberId
  {
    AssignedBarberIsFirstAvailable(snap, req);
  }

  /** Naming a barber who is not an active barber of the tenant gets a refusal with nothing offered. */
  lemma UnknownBarberRefused(snap: Snapshot, req: AvailabilityRequest)
    requires NamesBarber(req.barberId)
    requires FindActiveBarber(snap, req.barberId.value, req.tenantId).None?
    ensures AvailabilityOf(snap, req) == AvailabilityResult(false, None, [])
  {
    var free := SlotFree(snap, req.day, req.duration, []);
    forall i | 0 <= i < |Grid()|
      ensures !free(Grid()[i])
    {
      NoCandidateNoFreeSlot(snap, req.day, req.duration, Grid()[i]);
    }
    NothingFreeNothingOffered(Grid(), free);
  }

  /** An alternative offered is a grid time at which some candidate is available. */
  lemma AlternativeIsBookable(snap: Snapshot, req: AvailabilityRequest, text: string)
    requires text in AvailabilityOf(snap, req).alternatives
    ensures var candidates := CandidateIds(snap, req.tenantId, req.barberId);
            exists i | 0 <= i < |Grid()| ::
              text == FormatTimeString(Grid()[i].hour, Grid()[i].minute)
              && FirstAvailable(snap, candidates, ProbeAt(req.day, Grid()[i], req.duration)).Some?
  {
    var candidates := CandidateIds(snap, req.tenantId, req.barberId);
    var free := SlotFree(snap, req.day, req.duration, candidates);
    OfferedSlotIsFree(Grid(), free, text);
    var i :| 0 <= i < |Grid()| && text == Label(Grid()[i]) && free(Grid()[i]);
    assert FirstAvailable(snap, candidates, ProbeAt(req.day, Grid()[i], req.duration)).Some?;
  }

  /** Fewer than three alternatives means every grid time some candidate can take was offered. */
  lemma FewAlternativesAreAll(snap: Snapshot, req: AvailabilityRequest, i: nat)
    requires !AvailabilityOf(snap, req).available && |AvailabilityOf(snap, req).alternatives| < 3
    requires i < |Grid()|
    requires FirstAvailable(snap, CandidateIds(snap, req.tenantId, req.barberId), ProbeAt(req.day, Grid()[i], req.duration)).Some?
    ensures FormatTimeString(Grid()[i].hour, Grid()[i].minute) in AvailabilityOf(snap, req).alternatives
  {
    var free := SlotFree(snap, req.day, req.duration, CandidateIds(snap, req.tenantId, req.barberId));
    assert free(Grid()[i]);
    FreeSlotOffered(Grid(), free, i);
  }

  /** The time just refused is never offered back as an alternative. */
  lemma RefusedTimeNotAlternative(snap: Snapshot, req: AvailabilityRequest)
    requires !AvailabilityOf(snap, req).available
    requires ParseTimeString(req.time).Some? && ValidClock(ParseTimeString(req.time).value)
    ensures var c := ParseTimeString(req.time).value;
            FormatTimeString(c.hour, c.minute) !in AvailabilityOf(snap, req).alternatives
  {
    var candidates := CandidateIds(snap, req.tenantId, req.barberId);
    var c := ParseTimeString(req.time).value;
    var free := SlotFree(snap, req.day, req.duration, candidates);
    assert !free(c);
    RefusedTimeNotOffered(Grid(), free, c);
  }

  // ---------------------------------------------------------------------
  // autoAssignBarber
  // ---------------------------------------------------------------------

  /** What `autoAssignBarber` answers: nobody for an unknown service, else the first available active barber. */
  function AutoAssignment(snap: Snapshot, tenantId: TenantId, serviceId: ServiceId, p: Probe): Option<BarberId> {
    if FindService(snap, serviceId).None? then None
    else FirstAvailable(snap, ActiveBarberIds(snap, tenantId), p)
  }

  /**
   * `autoAssignBarber`: look the service up, then probe the tenant's
   * active barbers in order and return the first one available.
   */
  method AutoAssignBarber(snap: Snapshot, tenantId: TenantId, serviceId: ServiceId, p: Probe)
    returns (chosen: Option<BarberId>)
    ensures chosen == AutoAssignment(snap, tenantId, serviceId, p)
  {
    var service := FindService(snap, serviceId);
    if service.None? {
      return None;
    }
    var candidates := ActiveBarberIds(snap, tenantId);
    chosen := SelectBarber(snap, candidates, p);
  }

  /** A chosen barber is an active barber of the tenant who is available, and the service exists. */
  lemma AutoAssignedIsAvailable(snap: Snapshot, tenantId: TenantId, serviceId: ServiceId, p: Probe)
    requires AutoAssignment(snap, tenantId, serviceId, p).Some?
    ensures var id := AutoAssignment(snap, tenantId, serviceId, p).value;
            FindService(snap, serviceId).Some?
            && (exists b :: b in snap.barbers && b.id == id && b.tenantId == tenantId && b.active)
            && Available(snap, id, p)
  {
    var ids := ActiveBarberIds(snap, tenantId);
    var k := FirstAvailableIndex(snap, ids, p);
    assert k < |ids| && ids[k] in ids;
  }

  /** Nobody is chosen only for an unknown service or when no active barber of the tenant is available. */
  lemma AutoAssignNoneMeans(snap: Snapshot, tenantId: TenantId, serviceId: ServiceId, p: Probe)
    requires AutoAssignment(snap, tenantId, serviceId, p).None?
    ensures FindService(snap, serviceId).None?
            || forall b | b in snap.barbers && b.tenantId == tenantId && b.active :: !Available(snap, b.id, p)
  {
    if FindService(snap, serviceId).Some? {
      var ids := ActiveBarberIds(snap, tenantId);
      forall b | b in snap.barbers && b.tenantId == tenantId && b.active
        ensures !Available(snap, b.id, p)
      {
        assert b.id in ids;
        var i :| 0 <= i < |ids| && ids[i] == b.id;
      }
    }
  }

  /** `checkAvailability` without a named barber picks whom `autoAssignBarber` would, for any known service. */
  lemma CheckAgreesWithAutoAssign(snap: Snapshot, req: AvailabilityRequest, serviceId: ServiceId)
    requires !NamesBarber(req.barberId) && ParseTimeString(req.time).Some?
    requires FindService(snap, serviceId).Some?
    ensures AvailabilityOf(snap, req).barberId
            == AutoAssignment(snap, req.tenantId, serviceId, ProbeAt(req.day, ParseTimeString(req.time).value, req.duration))
  {
  }
}
