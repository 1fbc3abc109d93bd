/**
 * `findAlternatives` of lib/availability.ts: probe a fixed grid of start
 * times on the requested date, every 30 minutes from 9:00 to 19:00, and
 * collect the labels of at most three slots at which some candidate
 * barber is available, in grid order and without repeats.
 */
module Alternatives {
  import opened Utils
  import opened Store
  import opened Availability

  function MinuteOfDay(c: Clock): int {
    c.hour * 60 + c.minute
  }

  /** Strictly increasing time of day. */
  predicate Chronological(slots: seq<Clock>) {
    forall i, j | 0 <= i < j < |slots| :: MinuteOfDay(slots[i]) < MinuteOfDay(slots[j])
  }

  /** In a strictly increasing sequence, an earlier-or-equal time sits at an earlier-or-equal index. */
  lemma ChronologicalIndex(slots: seq<Clock>, a: nat, b: nat)
    requires Chronological(slots) && a < |slots| && b < |slots|
    requires MinuteOfDay(slots[a]) <= MinuteOfDay(slots[b])
    ensures a <= b
  {
  }

  /** The grid of start times that `findAlternatives` probes. */
  function Grid(): (g: seq<Clock>)
    ensures |g| == 21 && g[0] == Clock(9, 0) && g[20] == Clock(19, 0)
    ensures forall i | 0 <= i < |g| :: ValidClock(g[i]) && MinuteOfDay(g[i]) == 540 + 30 * i
    ensures Chronological(g)
  {
    var g := seq(21, i requires 0 <= i < 21 => Clock(9 + i / 2, 30 * (i % 2)));
    forall i | 0 <= i < 21
      ensures MinuteOfDay(g[i]) == 540 + 30 * i
    {
      assert i == 2 * (i / 2) + i % 2;
    }
    g
  }

  /**
   * The nested loops that build the grid: hours 9 through 19, minutes 0
   * and 30, stopping at 19:00 so as not to go past 7 PM.
   */
  method GenerateSlots() returns (slots: seq<Clock>)
    ensures slots == Grid()
  {
    slots := [];
    var h := 9;
    while h <= 19
      invariant 9 <= h <= 20
      invariant slots == Grid()[..if h <= 19 then 2 * (h - 9) else 21]
    {
      var m := 0;
      while m < 60
        invariant m == 0 || m == 30 || m == 60
        invariant h == 19 ==> m <= 30
        invariant slots == Grid()[..2 * (h - 9) + m / 30]
      {
        if h == 19 && m > 0 {
          break;
        }
        slots := slots + [Clock(h, m)];
        m := m + 30;
      }
      h := h + 1;
    }
  }

  /**
   * The probe `findAlternatives` makes at each slot, as a predicate on
   * start times: some candidate, probed in order, is available for a
   * request of `duration` minutes starting at that time of `day`.
   */
  function SlotFree(snap: Snapshot, day: LocalDay, duration: int, ids: seq<BarberId>): Clock -> bool {
    (slot: Clock) => FirstAvailable(snap, ids, ProbeAt(day, slot, duration)).Some?
  }

  /** A time later than every slot of a strictly increasing sequence extends it. */
  lemma ChronologicalAppend(slots: seq<Clock>, c: Clock)
    requires Chronological(slots)
    requires forall k | 0 <= k < |slots| :: MinuteOfDay(slots[k]) < MinuteOfDay(c)
    ensures Chronological(slots + [c])
  {
    var r := slots + [c];
    forall i, j | 0 <= i < j < |r|
      ensures MinuteOfDay(r[i]) < MinuteOfDay(r[j])
    {
      assert r[i] == slots[i];
      if j < |slots| {
        assert r[j] == slots[j];
      }
    }
  }

  /** Filtering keeps a strictly increasing sequence strictly increasing. */
  lemma {:induction false} FilterChronological(slots: seq<Clock>, free: Clock -> bool)
    requires Chronological(slots)
    ensures Chronological(Filter(slots, free))
  {
    if slots != [] {
      var n := |slots| - 1;
      assert Chronological(slots[..n]);
      FilterChronological(slots[..n], free);
      var init := Filter(slots[..n], free);
      forall k | 0 <= k < |init|
        ensures MinuteOfDay(init[k]) < MinuteOfDay(slots[n])
      {
        var j :| 0 <= j < n && slots[..n][j] == init[k];
        assert slots[j] == init[k];
      }
      assert Filter(slots, free) == init + (if free(slots[n]) then [slots[n]] else []);
      if free(slots[n]) {
        ChronologicalAppend(init, slots[n]);
      } else {
        assert Filter(slots, free) == init;
      }
    }
  }

  /** The first (at most) three slots of `grid` at which `free` holds, in grid order. */
  function AlternativeSlots(grid: seq<Clock>, free: Clock -> bool): (r: seq<Clock>)
    requires Chronological(grid)
    ensures |r| <= 3 && Chronological(r)
    ensures forall k | 0 <= k < |r| :: r[k] in grid && free(r[k])
    ensures forall i | 0 <= i < |grid| && free(grid[i]) ::
              |r| < 3 || MinuteOfDay(grid[i]) <= MinuteOfDay(r[|r| - 1]) ==> grid[i] in r
  {
    var all := Filter(grid, free);
    FilterChronological(grid, free);
    var r := if |all| <= 3 then all else all[..3];
    PrefixChronological(all, |r|);
    FirstFreeSlots(grid, free, |r|);
    r
  }

  /** A prefix of a strictly increasing sequence is strictly increasing. */
  lemma PrefixChronological(slots: seq<Clock>, n: nat)
    requires Chronological(slots) && n <= |slots|
    ensures Chronological(slots[..n])
  {
    var r := slots[..n];
    forall i, j | 0 <= i < j < |r|
      ensures MinuteOfDay(r[i]) < MinuteOfDay(r[j])
    {
      assert r[i] == slots[i] && r[j] == slots[j];
    }
  }

  /**
   * The first `n` free slots, in grid order, are free slots of the grid,
   * and every free slot up to the last of them is among them; when they
   * are all the free slots, every free slot is.
   */
  lemma FirstFreeSlots(grid: seq<Clock>, free: Clock -> bool, n: nat)
    requires Chronological(grid) && n <= |Filter(grid, free)|
    ensures var r := Filter(grid, free)[..n];
            forall k | 0 <= k < |r| :: r[k] in grid && free(r[k])
    ensures var r := Filter(grid, free)[..n];
            forall i | 0 <= i < |grid| && free(grid[i]) ::
              n == |Filter(grid, free)| || (0 < n && MinuteOfDay(grid[i]) <= MinuteOfDay(r[n - 1])) ==> grid[i] in r
  {
    var all := Filter(grid, free);
    var r := all[..n];
    FilterChronological(grid, free);
    forall k | 0 <= k < |r|
      ensures r[k] in grid && free(r[k])
    {
      assert r[k] == all[k];
    }
    forall i | 0 <= i < |grid| && free(grid[i]) && (n == |all| || (0 < n && MinuteOfDay(grid[i]) <= MinuteOfDay(r[n - 1])))
      ensures grid[i] in r
    {
      KeptInPrefix(all, n, grid[i]);
    }
  }

  /** A slot of an increasing sequence no later than the last of its first `n` is among those `n`. */
  lemma KeptInPrefix(all: seq<Clock>, n: nat, c: Clock)
    requires Chronological(all) && n <= |all| && c in all
    requires n == |all| || (0 < n && MinuteOfDay(c) <= MinuteOfDay(all[n - 1]))
    ensures c in all[..n]
  {
    var k :| 0 <= k < |all| && all[k] == c;
    if n < |all| {
      ChronologicalIndex(all, k, n - 1);
    }
    assert all[..n][k] == c;
  }

  /** The label of a slot, as `format(slotTime, 'h:mm a')` prints it. */
  function Label(c: Clock): string {
    FormatTimeString(c.hour, c.minute)
  }

  function Labels(slots: seq<Clock>): (r: seq<string>)
    ensures |r| == |slots|
  {
    seq(|slots|, k requires 0 <= k < |slots| => Label(slots[k]))
  }

  lemma LabelsAppend(slots: seq<Clock>, slot: Clock)
    ensures Labels(slots + [slot]) == Labels(slots) + [Label(slot)]
  {
    var l := Labels(slots + [slot]);
    assert forall k | 0 <= k < |slots| :: l[k] == Labels(slots)[k];
    assert l[|slots|] == Label(slot);
  }

  /** A slot later than every slot of `earlier` has a label none of them has. */
  lemma LaterLabelIsNew(earlier: seq<Clock>, slot: Clock)
    requires ValidClock(slot)
    requires forall k | 0 <= k < |earlier| :: ValidClock(earlier[k]) && MinuteOfDay(earlier[k]) < MinuteOfDay(slot)
    ensures Label(slot) !in Labels(earlier)
  {
    forall k | 0 <= k < |earlier|
      ensures Labels(earlier)[k] != Label(slot)
    {
      if Labels(earlier)[k] == Label(slot) {
        FormatTimeStringInjective(earlier[k], slot);
      }
    }
  }

  /** Labels of valid, strictly increasing slots are pairwise distinct. */
  lemma DistinctLabels(slots: seq<Clock>)
    requires Chronological(slots)
    requires forall k | 0 <= k < |slots| :: ValidClock(slots[k])
    ensures forall i, j | 0 <= i < j < |slots| :: Labels(slots)[i] != Labels(slots)[j]
  {
    forall i, j | 0 <= i < j < |slots|
      ensures Labels(slots)[i] != Labels(slots)[j]
    {
      if Labels(slots)[i] == Labels(slots)[j] {
        FormatTimeStringInjective(slots[i], slots[j]);
      }
    }
  }

  /** Every slot of the grid is a valid time of day. */
  predicate ValidGrid(grid: seq<Clock>) {
    Chronological(grid) && forall i | 0 <= i < |grid| :: ValidClock(grid[i])
  }

  /**
   * What `findAlternatives` returns when `free` tells which slots of `grid`
   * some candidate can take: the labels of the first three such slots, at
   * most three and no two alike.
   */
  function AlternativeTimes(grid: seq<Clock>, free: Clock -> bool): (alts: seq<string>)
    requires ValidGrid(grid)
    ensures |alts| <= 3
    ensures forall i, j | 0 <= i < j < |alts| :: alts[i] != alts[j]
  {
    var slots := AlternativeSlots(grid, free);
    forall k | 0 <= k < |slots| ensures ValidClock(slots[k]) {
      var i :| 0 <= i < |grid| && grid[i] == slots[k];
    }
    DistinctLabels(slots);
    Labels(slots)
  }

  /** Every offered label is the label of a slot of the grid that is free. */
  lemma OfferedSlotIsFree(grid: seq<Clock>, free: Clock -> bool, text: string)
    requires ValidGrid(grid) && text in AlternativeTimes(grid, free)
    ensures exists i | 0 <= i < |grid| :: text == Label(grid[i]) && free(grid[i])
  {
    var slots := AlternativeSlots(grid, free);
    var k :| 0 <= k < |slots| && Labels(slots)[k] == text;
    var i :| 0 <= i < |grid| && grid[i] == slots[k];
    assert text == Label(grid[i]) && free(grid[i]);
  }

  /** Fewer than three labels means every free slot of the grid was offered. */
  lemma FreeSlotOffered(grid: seq<Clock>, free: Clock -> bool, i: nat)
    requires ValidGrid(grid) && i < |grid| && free(grid[i])
    requires |AlternativeTimes(grid, free)| < 3
    ensures Label(grid[i]) in AlternativeTimes(grid, free)
  {
    var slots := AlternativeSlots(grid, free);
    var k :| 0 <= k < |slots| && slots[k] == grid[i];
    assert Labels(slots)[k] == Label(grid[i]);
  }

  /** Three labels means they are those of the three earliest free slots. */
  lemma EarlierFreeSlotOffered(grid: seq<Clock>, free: Clock -> bool, i: nat, j: nat)
    requires ValidGrid(grid) && i < j < |grid| && free(grid[i])
    requires Label(grid[j]) in AlternativeTimes(grid, free)
    ensures Label(grid[i]) in AlternativeTimes(grid, free)
  {
    var alts := AlternativeTimes(grid, free);
    var k :| 0 <= k < |alts| && alts[k] == Label(grid[j]);
    SlotOfLabel(grid, free, k, j);
    var slots := AlternativeSlots(grid, free);
    NoLaterThanLast(grid, slots, i, j, k);
    LabelOfKeptSlot(grid, free, grid[i]);
  }

  /** A grid slot before one that is kept is no later than the last slot kept. */
  lemma NoLaterThanLast(grid: seq<Clock>, slots: seq<Clock>, i: nat, j: nat, k: nat)
    requires Chronological(grid) && Chronological(slots)
    requires i < j < |grid| && k < |slots| && slots[k] == grid[j]
    ensures MinuteOfDay(grid[i]) <= MinuteOfDay(slots[|slots| - 1])
  {
    if k < |slots| - 1 {
      assert MinuteOfDay(slots[k]) < MinuteOfDay(slots[|slots| - 1]);
    }
  }

  /** Every slot kept is offered under its label. */
  lemma LabelOfKeptSlot(grid: seq<Clock>, free: Clock -> bool, c: Clock)
    requires ValidGrid(grid) && c in AlternativeSlots(grid, free)
    ensures Label(c) in AlternativeTimes(grid, free)
  {
    var slots := AlternativeSlots(grid, free);
    var n :| 0 <= n < |slots| && slots[n] == c;
    assert AlternativeTimes(grid, free)[n] == Label(c);
  }

  /** An offered label names the slot offered at the same position. */
  lemma SlotOfLabel(grid: seq<Clock>, free: Clock -> bool, k: nat, i: nat)
    requires ValidGrid(grid) && k < |AlternativeTimes(grid, free)| && i < |grid|
    requires AlternativeTimes(grid, free)[k] == Label(grid[i])
    ensures k < |AlternativeSlots(grid, free)| && AlternativeSlots(grid, free)[k] == grid[i]
  {
    var slots := AlternativeSlots(grid, free);
    assert AlternativeTimes(grid, free)[k] == Label(slots[k]);
    var a :| 0 <= a < |grid| && grid[a] == slots[k];
    FormatTimeStringInjective(grid[a], grid[i]);
  }

  /** Positions that two increasing sequences share are in the same order in both. */
  lemma SameOrder(grid: seq<Clock>, slots: seq<Clock>, k1: nat, k2: nat, i1: nat, i2: nat)
    requires Chronological(grid) && Chronological(slots)
    requires k1 < k2 < |slots| && i1 < |grid| && i2 < |grid|
    requires slots[k1] == grid[i1] && slots[k2] == grid[i2]
    ensures i1 < i2
  {
    ChronologicalIndex(grid, i1, i2);
  }

  /** The labels come in grid order: an earlier label is that of an earlier slot. */
  lemma OfferedInGridOrder(grid: seq<Clock>, free: Clock -> bool, k1: nat, k2: nat, i1: nat, i2: nat)
    requires ValidGrid(grid) && k1 < k2 < |AlternativeTimes(grid, free)| && i1 < |grid| && i2 < |grid|
    requires AlternativeTimes(grid, free)[k1] == Label(grid[i1]) && AlternativeTimes(grid, free)[k2] == Label(grid[i2])
    ensures i1 < i2
  {
    SlotOfLabel(grid, free, k1, i1);
    SlotOfLabel(grid, free, k2, i2);
    SameOrder(grid, AlternativeSlots(grid, free), k1, k2, i1, i2);
  }

  /** Where no slot is free there is nothing to offer. */
  lemma NothingFreeNothingOffered(grid: seq<Clock>, free: Clock -> bool)
    requires ValidGrid(grid)
    requires forall i | 0 <= i < |grid| :: !free(grid[i])
    ensures AlternativeTimes(grid, free) == []
  {
    FilterNone(grid, free);
  }

  /** With no candidate barber, no slot is free. */
  lemma NoCandidateNoFreeSlot(snap: Snapshot, day: LocalDay, duration: int, slot: Clock)
    ensures !SlotFree(snap, day, duration, [])(slot)
  {
    assert FirstAvailableIndex(snap, [], ProbeAt(day, slot, duration)) == 0;
  }

  /**
   * A time at which no candidate is available is never offered back as an
   * alternative: in particular, not the time that was just refused.
   */
  lemma RefusedTimeNotOffered(grid: seq<Clock>, free: Clock -> bool, c: Clock)
    requires ValidGrid(grid)
    requires ValidClock(c) && !free(c)
    ensures Label(c) !in AlternativeTimes(grid, free)
  {
    if Label(c) in AlternativeTimes(grid, free) {
      OfferedSlotIsFree(grid, free, Label(c));
      var i :| 0 <= i < |grid| && Label(c) == Label(grid[i]) && free(grid[i]);
      FormatTimeStringInjective(grid[i], c);
    }
  }

  // ---------------------------------------------------------------------
  // The search loop
  // ---------------------------------------------------------------------

  /** One slot of the search: a free slot adds its label, which is new; a busy one adds nothing. */
  lemma SearchStep(grid: seq<Clock>, free: Clock -> bool, i: nat)
    requires ValidGrid(grid) && i < |grid|
    ensures Labels(Filter(grid[..i + 1], free))
            == Labels(Filter(grid[..i], free)) + (if free(grid[i]) then [Label(grid[i])] else [])
    ensures Label(grid[i]) !in Labels(Filter(grid[..i], free))
  {
    var before := Filter(grid[..i], free);
    FilterStep(grid, free, i);
    forall k | 0 <= k < |before|
      ensures ValidClock(before[k]) && MinuteOfDay(before[k]) < MinuteOfDay(grid[i])
    {
      var j :| 0 <= j < i && grid[..i][j] == before[k];
      assert grid[j] == before[k];
    }
    LaterLabelIsNew(before, grid[i]);
    if free(grid[i]) {
      LabelsAppend(before, grid[i]);
    }
  }

  /** The search stops with the labels `AlternativeTimes` describes. */
  lemma SearchDone(grid: seq<Clock>, free: Clock -> bool, i: nat)
    requires ValidGrid(grid) && i <= |grid|
    requires |Filter(grid[..i], free)| <= 3
    requires i == |grid| || |Filter(grid[..i], free)| == 3
    ensures Labels(Filter(grid[..i], free)) == AlternativeTimes(grid, free)
  {
    FilterPrefix(grid, free, i);
    if i == |grid| {
      assert grid[..i] == grid;
    }
  }

  /**
   * `findAlternatives`: build the grid, then for each slot, while fewer
   * than three labels are held, probe the candidates in order and record
   * the slot's label when one is available and the label is new.
   */
  method FindAlternatives(snap: Snapshot, day: LocalDay, duration: int, barberIds: seq<BarberId>)
    returns (alternatives: seq<string>)
    ensures alternatives == AlternativeTimes(Grid(), SlotFree(snap, day, duration, barberIds))
  {
    ghost var free := SlotFree(snap, day, duration, barberIds);
    var slots := GenerateSlots();
    alternatives := [];
    var i := 0;
    while i < |slots|
      invariant ValidGrid(slots) && 0 <= i <= |slots|
      invariant |Filter(slots[..i], free)| <= 3
      invariant alternatives == Labels(Filter(slots[..i], free))
    {
      if |alternatives| >= 3 {
        break;
      }
      var slot := slots[i];
      var chosen := SelectBarber(snap, barberIds, ProbeAt(day, slot, duration));
      assert free(slot) == chosen.Some?;
      SearchStep(slots, free, i);
      if chosen.Some? {
        var timeStr := FormatTimeString(slot.hour, slot.minute);
        if timeStr !in alternatives {
          alternatives := alternatives + [timeStr];
        }
      }
      i := i + 1;
    }
    SearchDone(slots, free, i);
  }
}
