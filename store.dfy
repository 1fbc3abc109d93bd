/**
 * The data the availability engine of lib/availability.ts reads, as one
 * read-only snapshot: barbers, services, weekly schedule rules,
 * appointments and time-off. Each database query of the engine becomes a
 * filter over the snapshot; every sequence is in the order the database
 * returns its rows.
 */
module Store {
  import opened Wrappers

  type BarberId = string
  type TenantId = string
  type ServiceId = string

  /** A weekday as `Date.getDay()` returns it: 0 is Sunday, 6 is Saturday. */
  type Weekday = d: int | 0 <= d <= 6

  datatype Status = Tentative | Confirmed | Cancelled | NoShow | Completed

  datatype Barber = Barber(id: BarberId, tenantId: TenantId, active: bool)

  datatype Service = Service(id: ServiceId, durationMin: int)

  /** A recurring weekly window; the times are text such as "09:00" or "5:00 PM". */
  datatype ScheduleRule = ScheduleRule(
    tenantId: TenantId, barberId: BarberId, weekday: int, startTime: string, endTime: string)

  /** UTC instants are whole minutes. */
  datatype Appointment = Appointment(barberId: BarberId, status: Status, startAt: int, endAt: int)

  datatype TimeOff = TimeOff(barberId: BarberId, startAt: int, endAt: int)

  datatype Snapshot = Snapshot(
    barbers: seq<Barber>,
    services: seq<Service>,
    rules: seq<ScheduleRule>,
    appointments: seq<Appointment>,
    timeOffs: seq<TimeOff>)

  /** The elements of `s` that satisfy `keep`, in their original order. */
  function Filter<T>(s: seq<T>, keep: T -> bool): (r: seq<T>)
    ensures |r| <= |s|
    ensures forall i | 0 <= i < |r| :: r[i] in s && keep(r[i])
    ensures forall i | 0 <= i < |s| :: keep(s[i]) ==> s[i] in r
  {
    if s == [] then []
    else
      var n := |s| - 1;
      var r := Filter(s[..n], keep) + (if keep(s[n]) then [s[n]] else []);
      assert forall i | 0 <= i < n :: s[i] == s[..n][i];
      assert forall x | x in s[..n] :: x in s;
      r
  }

  /** Extending the input by one element extends the output by that element or by nothing. */
  lemma FilterStep<T>(s: seq<T>, keep: T -> bool, i: nat)
    requires i < |s|
    ensures Filter(s[..i + 1], keep) == Filter(s[..i], keep) + (if keep(s[i]) then [s[i]] else [])
  {
    assert s[..i + 1][..i] == s[..i];
  }

  /** Nothing is kept when no element satisfies `keep`. */
  lemma {:induction false} FilterNone<T>(s: seq<T>, keep: T -> bool)
    requires forall i | 0 <= i < |s| :: !keep(s[i])
    ensures Filter(s, keep) == []
  {
    if s != [] {
      FilterNone(s[..|s| - 1], keep);
    }
  }

  /** Filtering a prefix gives a prefix of the filtered whole. */
  lemma {:induction false} FilterPrefix<T>(s: seq<T>, keep: T -> bool, i: nat)
    requires i <= |s|
    ensures |Filter(s[..i], keep)| <= |Filter(s, keep)|
    ensures Filter(s, keep)[..|Filter(s[..i], keep)|] == Filter(s[..i], keep)
    decreases |s| - i
  {
    if i < |s| {
      FilterPrefix(s, keep, i + 1);
      FilterStep(s, keep, i);
    } else {
      assert s[..i] == s;
    }
  }

  /** `scheduleRule.findMany({ where: { barberId, weekday } })`. */
  function RulesFor(snap: Snapshot, barberId: BarberId, weekday: int): (rules: seq<ScheduleRule>)
    ensures forall r :: r in rules <==> r in snap.rules && r.barberId == barberId && r.weekday == weekday
  {
    Filter(snap.rules, (r: ScheduleRule) => r.barberId == barberId && r.weekday == weekday)
  }

  /** `barber.findMany({ where: { tenantId, active: true } })`, as ids. */
  function ActiveBarberIds(snap: Snapshot, tenantId: TenantId): (ids: seq<BarberId>)
    ensures forall id :: id in ids <==> exists b :: b in snap.barbers && b.id == id && b.tenantId == tenantId && b.active
  {
    var rows := Filter(snap.barbers, (b: Barber) => b.tenantId == tenantId && b.active);
    var ids := seq(|rows|, i requires 0 <= i < |rows| => rows[i].id);
    assert forall k | 0 <= k < |ids| :: rows[k] in rows;
    forall b | b in snap.barbers && b.tenantId == tenantId && b.active
      ensures b.id in ids
    {
      var j :| 0 <= j < |snap.barbers| && snap.barbers[j] == b;
      var k :| 0 <= k < |rows| && rows[k] == b;
      assert ids[k] == b.id;
    }
    ids
  }

  /** `barber.findFirst({ where: { id, tenantId, active: true } })`. */
  function FindActiveBarber(snap: Snapshot, id: BarberId, tenantId: TenantId): (r: Option<Barber>)
    ensures r.Some? ==> r.value in snap.barbers && r.value.id == id && r.value.tenantId == tenantId && r.value.active
    ensures r.None? <==> !exists b :: b in snap.barbers && b.id == id && b.tenantId == tenantId && b.active
  {
    var rows := Filter(snap.barbers, (b: Barber) => b.id == id && b.tenantId == tenantId && b.active);
    if rows == [] then None else Some(rows[0])
  }

  /** `service.findUnique({ where: { id } })`. */
  function FindService(snap: Snapshot, id: ServiceId): (r: Option<Service>)
    ensures r.Some? ==> r.value in snap.services && r.value.id == id
    ensures r.None? <==> !exists s :: s in snap.services && s.id == id
  {
    var rows := Filter(snap.services, (s: Service) => s.id == id);
    if rows == [] then None else Some(rows[0])
  }
}
