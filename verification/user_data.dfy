/**
  The store lifecycle of hooks/useUserData.ts: the fresh schedule and store,
  the weekly-reset rule and the transform applied when a stored value is
  loaded.

  Instants are integer milliseconds since 1970-01-01T00:00:00Z. JavaScript's
  `Date` keeps the same number, and its UTC fields are plain arithmetic on
  it: the UTC date is `t / MsPerDay` (floor division, which Dafny's `/` is
  for a positive divisor) and `getUTCDay` is that day number plus four,
  modulo seven, because the epoch fell on a Thursday.

  The rule computes its boundary from a clock shifted forward by two hours
  (Cairo time without daylight saving), then compares it with the stored,
  unshifted `lastReset`. Modelled as written, the boundary can lie up to two
  hours after the real instant of the check; `ReloadInWindowWipesEdits`
  exhibits the consequence and `NeedsWeeklyResetIntended` is the rule with
  both sides on the same clock.
 */
module UserDataHook {
  import opened Types

  const MsPerHour: int := 3_600_000
  const MsPerDay: int := 24 * MsPerHour
  const MsPerWeek: int := 7 * MsPerDay

  /** Cairo is taken to be UTC+2 all year. */
  const CairoOffset: int := 2 * MsPerHour

  /** The UTC hour the code passes to `setUTCHours` on the shifted date. */
  const ResetHour: int := 1

  /** `getInitialSchedule`: all six days, each meal free and unattended. */
  function InitialSchedule(): (s: Schedule)
    ensures forall d: Day :: d in s
    ensures s.Keys == set d | d in DaysOfWeek
    ensures forall d :: d in s ==> s[d].breakfast == EmptyMeal && s[d].lunch == EmptyMeal
  {
    assert forall d: Day :: d in DaysOfWeek by {
      forall d: Day
        ensures d in DaysOfWeek
      {
        EveryDayListed(d);
      }
    }
    map d | d in DaysOfWeek :: DayData(EmptyMeal, EmptyMeal)
  }

  /** `getInitialData`, created at the instant `now`. */
  function InitialData(now: int): (r: UserData)
    ensures r.title == DefaultTitle
    ensures r.people == []
    ensures r.schedule == InitialSchedule()
    ensures r.lastReset == now
  {
    UserData(DefaultTitle, [], InitialSchedule(), now)
  }

  /** `getCairoTime`: the clock whose UTC fields read Cairo civil time. */
  function CairoTime(now: int): (c: int)
    ensures c - now == 2 * MsPerHour
  {
    now + CairoOffset
  }

  /** `getUTCDay`: 0 is Sunday, 6 is Saturday. */
  function UtcDay(t: int): (w: int)
    ensures 0 <= w < 7
    ensures 0 <= t < MsPerDay ==> w == 4
    ensures (t / MsPerDay) % 7 == 2 ==> w == 6
  {
    (t / MsPerDay + 4) % 7
  }

  /** `setUTCHours(h, 0, 0, 0)`: the same UTC date at exactly `h` o'clock. */
  function AtUtcHour(t: int, h: int): (r: int)
    requires 0 <= h < 24
    ensures r / MsPerDay == t / MsPerDay
    ensures r % MsPerDay == h * MsPerHour
  {
    (t / MsPerDay) * MsPerDay + h * MsPerHour
  }

  /** The `diff` of the source: how many days back the previous Saturday
      lies, 0 on a Saturday itself. */
  function DaysSinceSaturday(w: int): (n: int)
    requires 0 <= w < 7
    ensures 0 <= n < 7
    ensures (w - n) % 7 == 6
  {
    if w < 6 then w + 1 else w - 6
  }

  /** The boundary `needsWeeklyReset` computes from the clock reading `t`:
      move to `h` o'clock of t's UTC date, step back `diff` whole days
      (`setUTCDate(getUTCDate() - diff)` shifts by whole days, UTC having no
      daylight saving), and step back one more week if that lies after `t`.
      The result is the latest Saturday at `h` o'clock not after `t`. */
  function SaturdayBoundary(t: int, h: int): (b: int)
    requires 0 <= h < 24
    ensures b <= t < b + MsPerWeek
    ensures UtcDay(b) == 6
    ensures b % MsPerDay == h * MsPerHour
  {
    var atHour := AtUtcHour(t, h);
    var back := atHour - DaysSinceSaturday(UtcDay(atHour)) * MsPerDay;
    BackToSaturday(t, h);
    if back > t then
      WeekBack(back);
      back - MsPerWeek
    else back
  }

  /** Moving to `h` o'clock and stepping back `diff` days lands on a
      Saturday at `h` o'clock, less than a week before `t` and less than a
      day after it. */
  lemma BackToSaturday(t: int, h: int)
    requires 0 <= h < 24
    ensures var atHour := AtUtcHour(t, h);
            var back := atHour - DaysSinceSaturday(UtcDay(atHour)) * MsPerDay;
            && UtcDay(back) == 6
            && back % MsPerDay == h * MsPerHour
            && t - MsPerWeek < back < t + MsPerDay
  {
    var atHour := AtUtcHour(t, h);
    var q := atHour / MsPerDay;
    var diff := DaysSinceSaturday(UtcDay(atHour));
    DaysBack(atHour, diff);
    WeekdayBack(q, diff);
    assert q * MsPerDay <= t < q * MsPerDay + MsPerDay;
  }

  /** The weekday `k` days before day number `d`. */
  lemma WeekdayBack(d: int, k: int)
    ensures (d - k + 4) % 7 == ((d + 4) % 7 - k) % 7
  {
    var m := (d + 4) % 7;
    assert d + 4 == ((d + 4) / 7) * 7 + m;
    assert d - k + 4 == (m - k) + ((d + 4) / 7) * 7;
    ModAddWeeks(m - k, (d + 4) / 7);
  }

  lemma ModAddWeeks(x: int, n: int)
    ensures (x + n * 7) % 7 == x % 7
  {
    var r := x % 7;
    assert x == (x / 7) * 7 + r;
    assert x + n * 7 == (x / 7 + n) * 7 + r;
  }

  /** One week earlier is the same weekday at the same time of day. */
  lemma WeekBack(t: int)
    ensures UtcDay(t - MsPerWeek) == UtcDay(t)
    ensures (t - MsPerWeek) % MsPerDay == t % MsPerDay
  {
    DaysBack(t, 7);
    ModAddWeeks(t / MsPerDay - 7 + 4, 1);
  }

  /** Stepping back `k` whole days keeps the time of day and moves the UTC
      date back by `k`. */
  lemma DaysBack(t: int, k: int)
    ensures (t - k * MsPerDay) / MsPerDay == t / MsPerDay - k
    ensures (t - k * MsPerDay) % MsPerDay == t % MsPerDay
  {
    var q := t / MsPerDay;
    var m := t % MsPerDay;
    assert t - k * MsPerDay == (q - k) * MsPerDay + m;
  }

  /** Two Saturdays at the same hour lie a whole number of weeks apart. */
  lemma SaturdaysWeeksApart(b: int, c: int, h: int)
    requires 0 <= h < 24
    requires UtcDay(b) == 6 && b % MsPerDay == h * MsPerHour
    requires UtcDay(c) == 6 && c % MsPerDay == h * MsPerHour
    ensures (c - b) % MsPerWeek == 0
  {
    var dc, db := c / MsPerDay, b / MsPerDay;
    assert c == dc * MsPerDay + h * MsPerHour;
    assert b == db * MsPerDay + h * MsPerHour;
    assert (dc - db) % 7 == 0;
    assert c - b == (dc - db) * MsPerDay;
  }

  /** No Saturday at `h` o'clock lies strictly between the boundary and `t`:
      the boundary is the most recent one. */
  lemma SaturdayBoundaryIsLatest(t: int, h: int, c: int)
    requires 0 <= h < 24
    requires c <= t && UtcDay(c) == 6 && c % MsPerDay == h * MsPerHour
    ensures c <= SaturdayBoundary(t, h)
  {
    SaturdaysWeeksApart(SaturdayBoundary(t, h), c, h);
  }

  /** The boundary the code compares `lastReset` with: Saturday 01:00 in
      the UTC fields of the shifted clock, at or before the shifted now. */
  function ResetBoundary(now: int): (b: int)
    ensures b <= CairoTime(now) < b + MsPerWeek
    ensures UtcDay(b) == 6 && b % MsPerDay == ResetHour * MsPerHour
  {
    SaturdayBoundary(CairoTime(now), ResetHour)
  }

  /** `needsWeeklyReset`: the stored reset instant precedes the boundary. */
  predicate NeedsWeeklyReset(lastReset: int, now: int)
    ensures lastReset >= CairoTime(now) ==> !NeedsWeeklyReset(lastReset, now)
    ensures lastReset <= CairoTime(now) - MsPerWeek ==> NeedsWeeklyReset(lastReset, now)
  {
    lastReset < ResetBoundary(now)
  }

  /** Once the rule is quiet for a `lastReset`, it is quiet for any later one
      checked at the same instant. */
  lemma NeedsWeeklyResetMonotone(earlier: int, later: int, now: int)
    requires earlier <= later
    ensures NeedsWeeklyReset(later, now) ==> NeedsWeeklyReset(earlier, now)
  {
  }

  /** The transform applied when the rule fires: a fresh schedule, the reset
      instant recorded, title and people kept. */
  function ApplyWeeklyReset(data: UserData, now: int): (r: UserData)
    ensures r.title == data.title && r.people == data.people
    ensures r.schedule == InitialSchedule()
    ensures r.lastReset == now
  {
    data.(schedule := InitialSchedule(), lastReset := now)
  }

  /** The load effect: the stored store, or a fresh one when nothing usable
      is stored (None covers both a missing key and a parse failure), reset
      if the rule fires. */
  function LoadUserData(stored: Option<UserData>, now: int): (r: UserData)
    ensures stored.None? ==> r.title == DefaultTitle && r.people == []
    ensures stored.Some? ==> r.title == stored.value.title && r.people == stored.value.people
    ensures stored.Some? && NeedsWeeklyReset(stored.value.lastReset, now) ==>
      r.schedule == InitialSchedule() && r.lastReset == now
    ensures stored.Some? && !NeedsWeeklyReset(stored.value.lastReset, now) ==> r == stored.value
    ensures stored.None? ==> r.schedule == InitialSchedule() && r.lastReset == now
  {
    var data := stored.GetOr(InitialData(now));
    if NeedsWeeklyReset(data.lastReset, now) then ApplyWeeklyReset(data, now) else data
  }

  /** Right after a reset at `now`, checking again at `now` stays quiet
      exactly when the boundary is not after the real instant `now`. */
  lemma RecheckAfterResetQuietIff(data: UserData, now: int)
    ensures !NeedsWeeklyReset(ApplyWeeklyReset(data, now).lastReset, now) <==> ResetBoundary(now) <= now
  {
  }

  /** Reloading at the same instant gives back the same store, at every
      instant: outside the window the rule is quiet on a fresh reset, and
      inside it the second reset of a freshly reset store changes nothing.
      The edits lost in the window are lost across an edit or a later
      reload (`ReloadInWindowWipesEdits`). */
  lemma {:induction false} ReloadIsStable(stored: Option<UserData>, now: int)
    ensures LoadUserData(Some(LoadUserData(stored, now)), now) == LoadUserData(stored, now)
  {
    var data := stored.GetOr(InitialData(now));
    var r := LoadUserData(stored, now);
    if NeedsWeeklyReset(data.lastReset, now) {
      assert r == ApplyWeeklyReset(data, now);
      assert ApplyWeeklyReset(r, now) == r;
    } else {
      assert r == data;
    }
  }

  /** Saturday 1970-01-03, 00:00 UTC (02:00 in Cairo). */
  const SaturdayMidnightUtc: int := 2 * MsPerDay

  /** In the first hour of Saturday 1970-01-03 (UTC) the shifted clock reads
      02:00 to 03:00, so the boundary computed is 01:00 UTC of that day, after
      the real instant. */
  lemma ResetBoundaryOnSaturdayMorning(now: int)
    requires SaturdayMidnightUtc <= now < SaturdayMidnightUtc + MsPerHour
    ensures ResetBoundary(now) == SaturdayMidnightUtc + MsPerHour
  {
    var b := SaturdayMidnightUtc + MsPerHour;
    assert b <= CairoTime(now) < b + MsPerDay;
    assert UtcDay(b) == 6 && b % MsPerDay == ResetHour * MsPerHour;
    SaturdayBoundaryIsLatest(CairoTime(now), ResetHour, b);
    SaturdaysWeeksApart(b, ResetBoundary(now), ResetHour);
  }

  /** The two-hour window before the boundary, as the code computes it: a
      store reset at `SaturdayMidnightUtc`, then edited, and reloaded one
      minute later is reset again, and the edit is lost. */
  lemma ReloadInWindowWipesEdits(data: UserData, edited: Schedule)
    requires edited != InitialSchedule()
    ensures var afterReset := LoadUserData(Some(data.(lastReset := SaturdayMidnightUtc - MsPerWeek)), SaturdayMidnightUtc);
            var reloaded := LoadUserData(Some(afterReset.(schedule := edited)), SaturdayMidnightUtc + 60_000);
            && afterReset.lastReset == SaturdayMidnightUtc
            && reloaded.schedule != edited
  {
    ResetBoundaryOnSaturdayMorning(SaturdayMidnightUtc);
    ResetBoundaryOnSaturdayMorning(SaturdayMidnightUtc + 60_000);
    assert NeedsWeeklyReset(SaturdayMidnightUtc - MsPerWeek, SaturdayMidnightUtc);
    assert NeedsWeeklyReset(SaturdayMidnightUtc, SaturdayMidnightUtc + 60_000);
  }

  // ---------------------------------------------------------------------
  // The rule with both sides on the real clock.
  // ---------------------------------------------------------------------

  /** The latest Saturday 01:00 UTC (03:00 in Cairo) not after `now`. */
  function IntendedBoundary(now: int): (b: int)
    ensures b <= now < b + MsPerWeek
    ensures UtcDay(b) == 6 && b % MsPerDay == ResetHour * MsPerHour
  {
    SaturdayBoundary(now, ResetHour)
  }

  /** The reset rule with the boundary taken on the real clock. */
  predicate NeedsWeeklyResetIntended(lastReset: int, now: int)
    ensures lastReset >= now ==> !NeedsWeeklyResetIntended(lastReset, now)
    ensures lastReset <= now - MsPerWeek ==> NeedsWeeklyResetIntended(lastReset, now)
  {
    lastReset < IntendedBoundary(now)
  }

  /** Outside the two-hour window the code's boundary is the intended one. */
  lemma {:induction false} BoundariesAgreeOutsideWindow(now: int)
    requires ResetBoundary(now) <= now
    ensures ResetBoundary(now) == IntendedBoundary(now)
  {
    SaturdayBoundaryIsLatest(now, ResetHour, ResetBoundary(now));
    SaturdayBoundaryIsLatest(CairoTime(now), ResetHour, IntendedBoundary(now));
  }

  /** The load effect with the corrected rule. */
  function LoadUserDataIntended(stored: Option<UserData>, now: int): (r: UserData)
    ensures stored.None? ==> r == InitialData(now)
    ensures stored.Some? ==> r.title == stored.value.title && r.people == stored.value.people
    ensures stored.Some? && NeedsWeeklyResetIntended(stored.value.lastReset, now) ==>
      r.schedule == InitialSchedule() && r.lastReset == now
    ensures stored.Some? && !NeedsWeeklyResetIntended(stored.value.lastReset, now) ==> r == stored.value
  {
    var data := stored.GetOr(InitialData(now));
    if NeedsWeeklyResetIntended(data.lastReset, now) then ApplyWeeklyReset(data, now) else data
  }

  /** Two instants of the same week share the intended boundary. */
  lemma SameWeekSameBoundary(now: int, later: int)
    requires now <= later < IntendedBoundary(now) + MsPerWeek
    ensures IntendedBoundary(later) == IntendedBoundary(now)
  {
    var b, c := IntendedBoundary(now), IntendedBoundary(later);
    SaturdayBoundaryIsLatest(later, ResetHour, b);
    SameSaturday(b, c, ResetHour);
  }

  /** Two Saturdays at the same hour less than a week apart are the same
      instant. */
  lemma SameSaturday(b: int, c: int, h: int)
    requires 0 <= h < 24
    requires UtcDay(b) == 6 && b % MsPerDay == h * MsPerHour
    requires UtcDay(c) == 6 && c % MsPerDay == h * MsPerHour
    requires b <= c < b + MsPerWeek
    ensures b == c
  {
    SaturdaysWeeksApart(b, c, h);
  }

  /** With both sides on one clock, a reload at the same or any later
      instant of the same week never fires again. */
  lemma {:induction false} IntendedReloadIsStable(stored: Option<UserData>, now: int, later: int)
    requires now <= later < IntendedBoundary(now) + MsPerWeek
    ensures !NeedsWeeklyResetIntended(LoadUserDataIntended(stored, now).lastReset, later)
  {
    var r := LoadUserDataIntended(stored, now);
    SameWeekSameBoundary(now, later);
    var data := stored.GetOr(InitialData(now));
    if !NeedsWeeklyResetIntended(data.lastReset, now) {
      assert r == data;
    }
  }
}
