/**
 * The daily streak: how many consecutive JST days the user has been active, the best run so
 * far, and the last active day.
 */
module Streaks {
  import opened Wrappers
  import opened Calendar

  datatype Streak = Streak(current: nat, best: nat, lastActiveYmd: Option<string>)

  /** The streak a profile starts with. */
  const NoStreak: Streak := Streak(0, 0, None)

  /** `n || 1` on a stored count: a missing or zero count reads as 1. */
  function OrOne(n: nat): nat {
    if n == 0 then 1 else n
  }

  function Max(a: int, b: int): int {
    if a >= b then a else b
  }

  /** `streak.lastActiveYmd || null`: an empty string counts as no last day. */
  function LastDay(s: Streak): Option<string> {
    if s.lastActiveYmd.Some? && s.lastActiveYmd.value != "" then s.lastActiveYmd else None
  }

  /** `nextStreak(streak, todayYmd)`: the streak after activity on `today`. */
  function NextStreak(s: Streak, today: string): (r: Streak)
    ensures r.current >= 1 && r.best >= 1
  {
    var last := LastDay(s);
    if last.None? then Streak(1, 1, Some(today))
    else
      var diff := YmdDiff(today, last.value);
      if diff == 0 then Streak(OrOne(s.current), OrOne(s.best), last)
      else if diff == 1 then
        var cur := s.current + 1;
        Streak(cur, Max(s.best, cur), Some(today))
      else Streak(1, Max(s.best, 1), Some(today))
  }

  /**
   * A stored streak is consistent when its current run does not exceed its best and a streak
   * without a last active day has no best run yet, as for a new profile.
   */
  predicate Consistent(s: Streak) {
    s.current <= s.best && (LastDay(s).None? ==> s.best == 0)
  }

  lemma NoStreakConsistent()
    ensures Consistent(NoStreak)
  {
  }

  /** Activity on a named day keeps the streak consistent. */
  lemma NextStreakConsistent(s: Streak, today: string)
    requires Consistent(s) && today != ""
    ensures Consistent(NextStreak(s, today))
  {
  }

  /** On a consistent streak the best run never decreases. */
  lemma NextStreakBestGrows(s: Streak, today: string)
    requires Consistent(s)
    ensures NextStreak(s, today).best >= s.best
  {
  }

  /** Both well-formed: after activity the last active day is today, also on the same-day path. */
  lemma NextStreakLastIsToday(s: Streak, today: string)
    requires IsYmd(today)
    requires LastDay(s).Some? ==> IsYmd(LastDay(s).value)
    ensures NextStreak(s, today).lastActiveYmd == Some(today)
  {
    var last := LastDay(s);
    if last.Some? && YmdDiff(today, last.value) == 0 {
      ZeroDiffSameYmd(today, last.value);
    }
  }

  /** Activity twice on the same day counts once. */
  lemma NextStreakSameDayIdempotent(s: Streak, today: string)
    requires IsYmd(today)
    requires LastDay(s).Some? ==> IsYmd(LastDay(s).value)
    ensures NextStreak(NextStreak(s, today), today) == NextStreak(s, today)
  {
    NextStreakLastIsToday(s, today);
    YmdDiffSelf(today);
  }

  /** Activity after a gap of two days or more, or dated before the last day, resets the run. */
  lemma NextStreakGapResets(s: Streak, today: string)
    requires LastDay(s).Some?
    requires YmdDiff(today, LastDay(s).value) < 0 || YmdDiff(today, LastDay(s).value) >= 2
    ensures NextStreak(s, today) == Streak(1, Max(s.best, 1), Some(today))
  {
  }

  /** Activity on the day after the last active day extends the run by one. */
  lemma NextDayExtends(s: Streak, day: string)
    requires LastDay(s).Some? && YmdDiff(day, LastDay(s).value) == 1
    ensures NextStreak(s, day) == Streak(s.current + 1, Max(s.best, s.current + 1), Some(day))
  {
  }

  /** The streak after activity on each of `days`, in order. */
  function DailyRun(s: Streak, days: seq<string>): Streak {
    if days == [] then s else NextStreak(DailyRun(s, days[..|days| - 1]), days[|days| - 1])
  }

  /** Each named day is the day after the one before it. */
  predicate Consecutive(days: seq<string>) {
    forall i :: 0 < i < |days| ==> days[i] != "" && YmdDiff(days[i], days[i - 1]) == 1
  }

  /**
   * From no streak, activity on `n >= 1` consecutive days gives a run of `n`, which is also
   * the best, ending on the last of those days.
   */
  lemma {:induction false} ConsecutiveDays(days: seq<string>)
    requires |days| >= 1 && days[0] != "" && Consecutive(days)
    ensures DailyRun(NoStreak, days) == Streak(|days|, |days|, Some(days[|days| - 1]))
  {
    var n := |days|;
    var init := days[..n - 1];
    if n == 1 {
      assert init == [];
    } else {
      assert init[0] == days[0];
      assert Consecutive(init) by {
        forall i | 0 < i < |init| ensures init[i] != "" && YmdDiff(init[i], init[i - 1]) == 1 {
          assert init[i] == days[i] && init[i - 1] == days[i - 1];
        }
      }
      ConsecutiveDays(init);
      var r := DailyRun(NoStreak, init);
      assert r == Streak(n - 1, n - 1, Some(days[n - 2]));
      assert LastDay(r) == Some(days[n - 2]);
      NextDayExtends(r, days[n - 1]);
    }
  }
}
