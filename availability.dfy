/**
 * The decision at the heart of lib/availability.ts: `isBarberAvailable`,
 * three gates that must all pass (the request fits inside one weekly
 * schedule window, overlaps no active appointment and touches no
 * time-off), and the first-fit choice among candidate barbers that
 * `checkAvailability`, `findAlternatives` and `autoAssignBarber` share.
 */
module Availability {
  import opened Wrappers
  import opened Utils
  import opened Store

  /**
   * One calendar date of a request, in the tenant's timezone: its weekday
   * (`localDate.getDay()`) and the conversion of a wall-clock hour and
   * minute on that date to a UTC instant in minutes (`fromZonedTime`,
   * which follows the zone's offset and daylight-saving rules).
   */
  datatype LocalDay = LocalDay(weekday: Weekday, toUtc: (int, int) -> int)

  /** The arguments of `isBarberAvailable` besides the barber. */
  datatype Probe = Probe(startUtc: int, endUtc: int, weekday: int, hour: int, minute: int, duration: int)

  /** The probe for a wall-clock start on `day` lasting `duration` minutes. */
  function ProbeAt(day: LocalDay, c: Clock, duration: int): (p: Probe)
    ensures p.startUtc == day.toUtc(c.hour, c.minute)
    ensures p.endUtc - p.startUtc == EndMin(p) - StartMin(p) == duration
    ensures p.weekday == day.weekday && p.hour == c.hour && p.minute == c.minute
  {
    var start := day.toUtc(c.hour, c.minute);
    Probe(start, start + duration, day.weekday, c.hour, c.minute, duration)
  }

  function StartMin(p: Probe): int {
    p.hour * 60 + p.minute
  }

  function EndMin(p: Probe): int {
    StartMin(p) + p.duration
  }

  // ---------------------------------------------------------------------
  // Gate 1: the weekly schedule
  // ---------------------------------------------------------------------

  /** A rule's window in minutes of the day; `None` when either time reads as `NaN`. */
  function RuleWindow(rule: ScheduleRule): Option<(int, int)> {
    var s := ParseTimeString(rule.startTime);
    var e := ParseTimeString(rule.endTime);
    if s.Some? && e.Some? then Some((s.value.hour * 60 + s.value.minute, e.value.hour * 60 + e.value.minute))
    else None
  }

  /** The whole request lies inside the rule's window. */
  predicate WindowContains(rule: ScheduleRule, p: Probe) {
    var w := RuleWindow(rule);
    w.Some? && w.value.0 <= StartMin(p) && EndMin(p) <= w.value.1
  }

  predicate WithinSchedule(snap: Snapshot, barberId: BarberId, p: Probe) {
    exists i | 0 <= i < |snap.rules| ::
      snap.rules[i].barberId == barberId && snap.rules[i].weekday == p.weekday && WindowContains(snap.rules[i], p)
  }

  // ---------------------------------------------------------------------
  // Gates 2 and 3: appointments and time-off
  // ---------------------------------------------------------------------

  /** Only confirmed and tentative appointments occupy the barber. */
  predicate Occupies(s: Status) {
    s == Confirmed || s == Tentative
  }

  /** Half-open intervals [s1, e1) and [s2, e2) share an instant. */
  predicate Overlaps(s1: int, e1: int, s2: int, e2: int) {
    s1 < e2 && s2 < e1
  }

  /**
   * The row condition of the appointment query: same barber, an occupying
   * status, and one of three cases (covers the start, covers the end, lies
   * within).
   */
  predicate AppointmentConflicts(a: Appointment, barberId: BarberId, start: int, end: int) {
    && a.barberId == barberId
    && Occupies(a.status)
    && ((a.startAt <= start && a.endAt > start)
        || (a.startAt < end && a.endAt >= end)
        || (a.startAt >= start && a.endAt <= end))
  }

  /** The row condition of the time-off query; both bounds are inclusive. */
  predicate TimeOffConflicts(t: TimeOff, barberId: BarberId, start: int, end: int) {
    t.barberId == barberId && t.startAt <= end && t.endAt >= start
  }

  predicate NoAppointmentConflict(snap: Snapshot, barberId: BarberId, p: Probe) {
    forall i | 0 <= i < |snap.appointments| :: !AppointmentConflicts(snap.appointments[i], barberId, p.startUtc, p.endUtc)
  }

  predicate NoTimeOffConflict(snap: Snapshot, barberId: BarberId, p: Probe) {
    forall i | 0 <= i < |snap.timeOffs| :: !TimeOffConflicts(snap.timeOffs[i], barberId, p.startUtc, p.endUtc)
  }

  /** The appointment query of `isBarberAvailable`; it comes back empty exactly when gate 2 passes. */
  function ConflictingAppointments(snap: Snapshot, barberId: BarberId, p: Probe): (r: seq<Appointment>)
    ensures r == [] <==> NoAppointmentConflict(snap, barberId, p)
  {
    var r := Filter(snap.appointments, (a: Appointment) => AppointmentConflicts(a, barberId, p.startUtc, p.endUtc));
    assert r != [] ==> r[0] in snap.appointments;
    r
  }

  /** The time-off query of `isBarberAvailable`; it comes back empty exactly when gate 3 passes. */
  function ConflictingTimeOffs(snap: Snapshot, barberId: BarberId, p: Probe): (r: seq<TimeOff>)
    ensures r == [] <==> NoTimeOffConflict(snap, barberId, p)
  {
    var r := Filter(snap.timeOffs, (t: TimeOff) => TimeOffConflicts(t, barberId, p.startUtc, p.endUtc));
    assert r != [] ==> r[0] in snap.timeOffs;
    r
  }

  /** The barber can take the probe: all three gates pass. */
  predicate Available(snap: Snapshot, barberId: BarberId, p: Probe) {
    WithinSchedule(snap, barberId, p) && NoAppointmentConflict(snap, barberId, p) && NoTimeOffConflict(snap, barberId, p)
  }

  // ---------------------------------------------------------------------
  // isBarberAvailable
  // ---------------------------------------------------------------------

  /**
   * Step 1 of `isBarberAvailable`: fetch the barber's rules for the
   * weekday, give up when there are none, then scan them for one window
   * that holds the whole request, stopping at the first.
   */
  method CheckSchedule(snap: Snapshot, barberId: BarberId, p: Probe) returns (withinSchedule: bool)
    ensures withinSchedule == WithinSchedule(snap, barberId, p)
  {
    var rules := RulesFor(snap, barberId, p.weekday);
    ScheduleGate(snap, barberId, p);
    if |rules| == 0 {
      return false;
    }
    var requestStartMin := p.hour * 60 + p.minute;
    var requestEndMin := requestStartMin + p.duration;
    withinSchedule := false;
    var i := 0;
    while i < |rules|
      invariant 0 <= i <= |rules|
      invariant !withinSchedule
      invariant !AnyWindowContains(rules[..i], p)
    {
      // Both rule times parsed; a NaN hour or minute makes both comparisons false.
      var window := RuleWindow(rules[i]);
      assert WindowContains(rules[i], p)
             <==> window.Some? && requestStartMin >= window.value.0 && requestEndMin <= window.value.1;
      if window.Some? {
        var (ruleStartMin, ruleEndMin) := window.value;
        if requestStartMin >= ruleStartMin && requestEndMin <= ruleEndMin {
          withinSchedule := true;
          break;
        }
      }
      assert rules[..i + 1][..i] == rules[..i] && rules[..i + 1][i] == rules[i];
      assert AnyWindowContains(rules[..i + 1], p) == (AnyWindowContains(rules[..i], p) || WindowContains(rules[i], p));
      i := i + 1;
    }
    if withinSchedule {
      AnyWindowContainsAt(rules, p, i);
    } else {
      assert rules[..i] == rules;
    }
  }

  /** `isBarberAvailable`: the schedule step, then the appointment and time-off queries, each able to refuse. */
  method IsBarberAvailable(snap: Snapshot, barberId: BarberId, p: Probe) returns (ok: bool)
    ensures ok == Available(snap, barberId, p)
  {
    var withinSchedule := CheckSchedule(snap, barberId, p);
    if !withinSchedule {
      return false;
    }
    var overlappingAppointments := ConflictingAppointments(snap, barberId, p);
    if |overlappingAppointments| > 0 {
      return false;
    }
    var timeOffs := ConflictingTimeOffs(snap, barberId, p);
    if |timeOffs| > 0 {
      return false;
    }
    return true;
  }

  /** Some rule of `rules` holds the whole request; the test the rule loop of `isBarberAvailable` makes. */
  predicate AnyWindowContains(rules: seq<ScheduleRule>, p: Probe) {
    |rules| > 0 && (AnyWindowContains(rules[..|rules| - 1], p) || WindowContains(rules[|rules| - 1], p))
  }

  lemma {:induction false} AnyWindowContainsAt(rules: seq<ScheduleRule>, p: Probe, i: nat)
    requires i < |rules| && WindowContains(rules[i], p)
    ensures AnyWindowContains(rules, p)
  {
    if i < |rules| - 1 {
      AnyWindowContainsAt(rules[..|rules| - 1], p, i);
    }
  }

  lemma {:induction false} AnyWindowContainsWitness(rules: seq<ScheduleRule>, p: Probe)
    requires AnyWindowContains(rules, p)
    ensures exists j | 0 <= j < |rules| :: WindowContains(rules[j], p)
  {
    var n := |rules| - 1;
    if !WindowContains(rules[n], p) {
      AnyWindowContainsWitness(rules[..n], p);
      var j :| 0 <= j < n && WindowContains(rules[..n][j], p);
      assert rules[j] == rules[..n][j];
    }
  }

  /** The rule loop's test agrees with gate 1. */
  lemma ScheduleGate(snap: Snapshot, barberId: BarberId, p: Probe)
    ensures AnyWindowContains(RulesFor(snap, barberId, p.weekday), p) <==> WithinSchedule(snap, barberId, p)
  {
    var rules := RulesFor(snap, barberId, p.weekday);
    RulesForSchedule(snap, barberId, p);
    if AnyWindowContains(rules, p) {
      AnyWindowContainsWitness(rules, p);
    }
    if WithinSchedule(snap, barberId, p) {
      var j :| 0 <= j < |rules| && WindowContains(rules[j], p);
      AnyWindowContainsAt(rules, p, j);
    }
  }

  /** The schedule gate, read through the rule query: some fetched rule contains the request. */
  lemma RulesForSchedule(snap: Snapshot, barberId: BarberId, p: Probe)
    ensures WithinSchedule(snap, barberId, p)
            <==> exists j | 0 <= j < |RulesFor(snap, barberId, p.weekday)| :: WindowContains(RulesFor(snap, barberId, p.weekday)[j], p)
  {
    if WithinSchedule(snap, barberId, p) {
      ScheduleRuleFetched(snap, barberId, p);
    }
    if exists j | 0 <= j < |RulesFor(snap, barberId, p.weekday)| :: WindowContains(RulesFor(snap, barberId, p.weekday)[j], p) {
      FetchedRuleSchedules(snap, barberId, p);
    }
  }

  lemma ScheduleRuleFetched(snap: Snapshot, barberId: BarberId, p: Probe)
    requires WithinSchedule(snap, barberId, p)
    ensures exists j | 0 <= j < |RulesFor(snap, barberId, p.weekday)| :: WindowContains(RulesFor(snap, barberId, p.weekday)[j], p)
  {
    var rules := RulesFor(snap, barberId, p.weekday);
    var i :| 0 <= i < |snap.rules| && snap.rules[i].barberId == barberId && snap.rules[i].weekday == p.weekday
             && WindowContains(snap.rules[i], p);
    assert snap.rules[i] in rules;
    var j :| 0 <= j < |rules| && rules[j] == snap.rules[i];
    assert WindowContains(rules[j], p);
  }

  lemma FetchedRuleSchedules(snap: Snapshot, barberId: BarberId, p: Probe)
    requires exists j | 0 <= j < |RulesFor(snap, barberId, p.weekday)| :: WindowContains(RulesFor(snap, barberId, p.weekday)[j], p)
    ensures WithinSchedule(snap, barberId, p)
  {
    var rules := RulesFor(snap, barberId, p.weekday);
    var j :| 0 <= j < |rules| && WindowContains(rules[j], p);
    assert rules[j] in snap.rules;
    var i :| 0 <= i < |snap.rules| && snap.rules[i] == rules[j];
    assert snap.rules[i].barberId == barberId && snap.rules[i].weekday == p.weekday;
  }

  /** A weekday without rules for the barber means the barber does not work that day. */
  lemma NoRulesNoSchedule(snap: Snapshot, barberId: BarberId, p: Probe)
    requires RulesFor(snap, barberId, p.weekday) == []
    ensures !Available(snap, barberId, p)
  {
    RulesForSchedule(snap, barberId, p);
  }

  // ---------------------------------------------------------------------
  // Properties of the gates
  // ---------------------------------------------------------------------

  /**
   * For a positive-length request and a well-formed appointment, the
   * three-case condition of the query is exactly half-open overlap.
   */
  lemma ThreeCasesAreOverlap(a: Appointment, barberId: BarberId, start: int, end: int)
    requires start < end && a.startAt < a.endAt
    ensures AppointmentConflicts(a, barberId, start, end)
            <==> a.barberId == barberId && Occupies(a.status) && Overlaps(a.startAt, a.endAt, start, end)
  {
  }

  /** Overlap does not depend on which interval is named first. */
  lemma OverlapSymmetric(s1: int, e1: int, s2: int, e2: int)
    ensures Overlaps(s1, e1, s2, e2) == Overlaps(s2, e2, s1, e1)
  {
  }

  /**
   * Back-to-back bookings do not conflict: an appointment that ends when
   * the request starts, or starts when it ends, never blocks it.
   */
  lemma BackToBackAllowed(snap: Snapshot, barberId: BarberId, p: Probe, k: nat)
    requires p.startUtc < p.endUtc
    requires k < |snap.appointments|
    requires var a := snap.appointments[k]; a.startAt < a.endAt && (a.endAt == p.startUtc || a.startAt == p.endUtc)
    ensures !AppointmentConflicts(snap.appointments[k], barberId, p.startUtc, p.endUtc)
  {
  }

  /** A cancelled, no-show or completed appointment never blocks. */
  lemma OnlyOccupyingStatusBlocks(a: Appointment, barberId: BarberId, start: int, end: int)
    requires !Occupies(a.status)
    ensures !AppointmentConflicts(a, barberId, start, end)
  {
  }

  /**
   * The time-off check is inclusive: a time-off of the barber that merely
   * touches the request at either end makes the barber unavailable.
   */
  lemma TouchingTimeOffBlocks(snap: Snapshot, barberId: BarberId, p: Probe, k: nat)
    requires p.startUtc <= p.endUtc
    requires k < |snap.timeOffs|
    requires var t := snap.timeOffs[k]; t.barberId == barberId && t.startAt <= t.endAt
    requires snap.timeOffs[k].endAt == p.startUtc || snap.timeOffs[k].startAt == p.endUtc
    ensures !Available(snap, barberId, p)
  {
    assert TimeOffConflicts(snap.timeOffs[k], barberId, p.startUtc, p.endUtc);
  }

  /**
   * What a positive answer guarantees: one fetched rule holds the whole
   * request in minutes of the day, no occupying appointment of the barber
   * overlaps it, and no time-off of the barber overlaps or touches it.
   */
  lemma AvailableMeans(snap: Snapshot, barberId: BarberId, p: Probe)
    requires Available(snap, barberId, p)
    ensures exists j | 0 <= j < |RulesFor(snap, barberId, p.weekday)| ::
              var w := RuleWindow(RulesFor(snap, barberId, p.weekday)[j]);
              w.Some? && w.value.0 <= StartMin(p) && EndMin(p) <= w.value.1
    ensures forall a | a in snap.appointments && a.barberId == barberId && Occupies(a.status) ::
              !Overlaps(a.startAt, a.endAt, p.startUtc, p.endUtc)
    ensures forall t | t in snap.timeOffs && t.barberId == barberId ::
              t.endAt < p.startUtc || p.endUtc < t.startAt
  {
    RulesForSchedule(snap, barberId, p);
    ClearOfAppointments(snap, barberId, p);
    forall t | t in snap.timeOffs && t.barberId == barberId
      ensures t.endAt < p.startUtc || p.endUtc < t.startAt
    {
      var i :| 0 <= i < |snap.timeOffs| && snap.timeOffs[i] == t;
      assert !TimeOffConflicts(snap.timeOffs[i], barberId, p.startUtc, p.endUtc);
    }
  }

  /**
   * The converse, for appointments that are non-empty intervals: a fetched
   * rule holding the request, no overlapping occupying appointment and no
   * overlapping or touching time-off make the barber available.
   */
  lemma AvailableWhen(snap: Snapshot, barberId: BarberId, p: Probe)
    requires p.startUtc < p.endUtc
    requires forall a | a in snap.appointments :: a.startAt < a.endAt
    requires exists j | 0 <= j < |RulesFor(snap, barberId, p.weekday)| :: WindowContains(RulesFor(snap, barberId, p.weekday)[j], p)
    requires forall a | a in snap.appointments && a.barberId == barberId && Occupies(a.status) ::
               !Overlaps(a.startAt, a.endAt, p.startUtc, p.endUtc)
    requires forall t | t in snap.timeOffs && t.barberId == barberId :: t.endAt < p.startUtc || p.endUtc < t.startAt
    ensures Available(snap, barberId, p)
  {
    FetchedRuleSchedules(snap, barberId, p);
    AppointmentGatePasses(snap, barberId, p);
    TimeOffGatePasses(snap, barberId, p);
  }

  /**
   * Why `AvailableWhen` needs a positive-length request: a zero-length
   * request starting exactly when an occupying appointment of the barber
   * starts shares no instant with it, yet the first case of the query
   * catches it and the barber is refused.
   */
  lemma ZeroLengthAtAppointmentStartRefused(snap: Snapshot, barberId: BarberId, p: Probe, k: nat)
    requires p.startUtc == p.endUtc
    requires k < |snap.appointments|
    requires var a := snap.appointments[k]; a.barberId == barberId && Occupies(a.status) && a.startAt == p.startUtc < a.endAt
    ensures !Overlaps(snap.appointments[k].startAt, snap.appointments[k].endAt, p.startUtc, p.endUtc)
    ensures !Available(snap, barberId, p)
  {
    assert AppointmentConflicts(snap.appointments[k], barberId, p.startUtc, p.endUtc);
  }

  /**
   * The other end: a zero-length request at the instant an occupying
   * appointment of the barber ends shares no instant with it either, yet
   * the second case of the query catches it, so back-to-back is allowed
   * only for requests of positive length.
   */
  lemma ZeroLengthAtAppointmentEndRefused(snap: Snapshot, barberId: BarberId, p: Probe, k: nat)
    requires p.startUtc == p.endUtc
    requires k < |snap.appointments|
    requires var a := snap.appointments[k]; a.barberId == barberId && Occupies(a.status) && a.startAt < a.endAt == p.startUtc
    ensures !Overlaps(snap.appointments[k].startAt, snap.appointments[k].endAt, p.startUtc, p.endUtc)
    ensures !Available(snap, barberId, p)
  {
    assert AppointmentConflicts(snap.appointments[k], barberId, p.startUtc, p.endUtc);
  }

  /** Gate 2 passes when no occupying appointment of the barber overlaps a positive-length request. */
  lemma AppointmentGatePasses(snap: Snapshot, barberId: BarberId, p: Probe)
    requires p.startUtc < p.endUtc
    requires forall a | a in snap.appointments :: a.startAt < a.endAt
    requires forall a | a in snap.appointments && a.barberId == barberId && Occupies(a.status) ::
               !Overlaps(a.startAt, a.endAt, p.startUtc, p.endUtc)
    ensures NoAppointmentConflict(snap, barberId, p)
  {
    forall i | 0 <= i < |snap.appointments|
      ensures !AppointmentConflicts(snap.appointments[i], barberId, p.startUtc, p.endUtc)
    {
      assert snap.appointments[i] in snap.appointments;
      ThreeCasesAreOverlap(snap.appointments[i], barberId, p.startUtc, p.endUtc);
    }
  }

  /** Gate 3 passes when every time-off of the barber lies strictly before or strictly after the request. */
  lemma TimeOffGatePasses(snap: Snapshot, barberId: BarberId, p: Probe)
    requires forall t | t in snap.timeOffs && t.barberId == barberId :: t.endAt < p.startUtc || p.endUtc < t.startAt
    ensures NoTimeOffConflict(snap, barberId, p)
  {
    forall i | 0 <= i < |snap.timeOffs|
      ensures !TimeOffConflicts(snap.timeOffs[i], barberId, p.startUtc, p.endUtc)
    {
      assert snap.timeOffs[i] in snap.timeOffs;
    }
  }

  /** When gate 2 passes, no well-formed occupying appointment of the barber overlaps the request. */
  lemma ClearOfAppointments(snap: Snapshot, barberId: BarberId, p: Probe)
    requires NoAppointmentConflict(snap, barberId, p)
    ensures forall a | a in snap.appointments && a.barberId == barberId && Occupies(a.status) ::
              !Overlaps(a.startAt, a.endAt, p.startUtc, p.endUtc)
  {
    forall a | a in snap.appointments && a.barberId == barberId && Occupies(a.status)
      ensures !Overlaps(a.startAt, a.endAt, p.startUtc, p.endUtc)
    {
      var i :| 0 <= i < |snap.appointments| && snap.appointments[i] == a;
      assert !AppointmentConflicts(a, barberId, p.startUtc, p.endUtc);
    }
  }

  /**
   * A request that runs past the latest closing time of every rule of the
   * barber is refused, whatever the bookings: with the default rules,
   * "09:00" to "17:00", an hour-long request at 16:30.
   */
  lemma PastClosingRefused(snap: Snapshot, barberId: BarberId, p: Probe, close: int)
    requires forall i | 0 <= i < |snap.rules| && snap.rules[i].barberId == barberId && RuleWindow(snap.rules[i]).Some? ::
               RuleWindow(snap.rules[i]).value.1 <= close
    requires close < EndMin(p)
    ensures !Available(snap, barberId, p)
  {
  }

  /** Every appointment is a non-empty interval and occupying ones of the same barber never overlap. */
  predicate NoDoubleBooking(appointments: seq<Appointment>) {
    && (forall i | 0 <= i < |appointments| :: appointments[i].startAt < appointments[i].endAt)
    && (forall i, j | 0 <= i < j < |appointments| ::
          appointments[i].barberId == appointments[j].barberId
          && Occupies(appointments[i].status) && Occupies(appointments[j].status)
          ==> !Overlaps(appointments[i].startAt, appointments[i].endAt, appointments[j].startAt, appointments[j].endAt))
  }

  /**
   * Booking only what the engine reports available keeps the timeline free
   * of double bookings.
   */
  lemma BookingAvailableKeepsNoDoubleBooking(snap: Snapshot, barberId: BarberId, p: Probe, status: Status)
    requires NoDoubleBooking(snap.appointments)
    requires Available(snap, barberId, p)
    requires p.startUtc < p.endUtc
    ensures NoDoubleBooking(snap.appointments + [Appointment(barberId, status, p.startUtc, p.endUtc)])
  {
    ClearOfAppointments(snap, barberId, p);
    AppendKeepsNoDoubleBooking(snap.appointments, Appointment(barberId, status, p.startUtc, p.endUtc));
  }

  /** Adding a non-empty appointment that overlaps no occupying appointment of its barber keeps the timeline free of double bookings. */
  lemma AppendKeepsNoDoubleBooking(appointments: seq<Appointment>, b: Appointment)
    requires NoDoubleBooking(appointments)
    requires b.startAt < b.endAt
    requires forall a | a in appointments && a.barberId == b.barberId && Occupies(a.status) && a.startAt < a.endAt ::
               !Overlaps(a.startAt, a.endAt, b.startAt, b.endAt)
    ensures NoDoubleBooking(appointments + [b])
  {
    var booked := appointments + [b];
    forall i, j | 0 <= i < j < |booked| && booked[i].barberId == booked[j].barberId
                  && Occupies(booked[i].status) && Occupies(booked[j].status)
      ensures !Overlaps(booked[i].startAt, booked[i].endAt, booked[j].startAt, booked[j].endAt)
    {
      if j == |appointments| {
        assert booked[i] in appointments;
      }
    }
  }

  // ---------------------------------------------------------------------
  // First-fit choice among candidates
  // ---------------------------------------------------------------------

  /** The position of the first candidate, in list order, for which all three gates pass; `|ids|` if none. */
  function FirstAvailableIndex(snap: Snapshot, ids: seq<BarberId>, p: Probe): (k: nat)
    ensures k <= |ids|
    ensures forall j | 0 <= j < k :: !Available(snap, ids[j], p)
    ensures k < |ids| ==> Available(snap, ids[k], p)
  {
    if ids == [] then 0
    else if Available(snap, ids[0], p) then 0
    else
      var rest := FirstAvailableIndex(snap, ids[1..], p);
      assert forall j | 1 <= j <= rest :: ids[j] == ids[1..][j - 1];
      1 + rest
  }

  /** The first candidate, in list order, for which all three gates pass. */
  function FirstAvailable(snap: Snapshot, ids: seq<BarberId>, p: Probe): (r: Option<BarberId>)
    ensures r.None? <==> forall i | 0 <= i < |ids| :: !Available(snap, ids[i], p)
  {
    var k := FirstAvailableIndex(snap, ids, p);
    if k < |ids| then Some(ids[k]) else None
  }

  /** The candidate loop: probe each barber in order and stop at the first available one. */
  method SelectBarber(snap: Snapshot, ids: seq<BarberId>, p: Probe) returns (r: Option<BarberId>)
    ensures r == FirstAvailable(snap, ids, p)
  {
    for i := 0 to |ids|
      invariant i <= FirstAvailableIndex(snap, ids, p)
    {
      var ok := IsBarberAvailable(snap, ids[i], p);
      FirstIndexStep(snap, ids, p, i);
      if ok {
        return Some(ids[i]);
      }
    }
    return None;
  }

  /** The candidate loop's step: position `i`, not past the first available one, either is it or lies before it. */
  lemma FirstIndexStep(snap: Snapshot, ids: seq<BarberId>, p: Probe, i: nat)
    requires i < |ids| && i <= FirstAvailableIndex(snap, ids, p)
    ensures Available(snap, ids[i], p) ==> FirstAvailableIndex(snap, ids, p) == i
    ensures !Available(snap, ids[i], p) ==> i < FirstAvailableIndex(snap, ids, p)
  {
  }
}
