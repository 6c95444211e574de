/**
 * The three XP awards, each one read-modify-write transaction on the user's profile and the
 * day's log counters: +5 XP once per created card, +1 XP (2 on a critical hit) per correct
 * answer, and an arbitrary amount with an XP-only fallback when the transaction fails.
 *
 * Every award shares one step: add the XP, recompute the level from the total, add the stat
 * increments for each level passed since the STORED level, and advance the streak. The stat
 * increments come from the unsigned generator `FixedIncrements`, which agrees with the code
 * as written for every seed below 2^31 (see `StatGenerator.FixedAgreesBelow2To31`).
 */
module Awards {
  import opened Wrappers
  import opened StatGenerator
  import opened Progression
  import opened Streaks
  import opened Calendar

  /** The user document's game fields. `seed` may be absent on old profiles. */
  datatype Profile = Profile(
    seed: Option<int>, level: int, totalXp: int, totalCorrect: int, totalCreated: int,
    stats: Stats, streak: Streak)

  /** `users/{uid}/logs_daily/{ymd}`: what was earned that day. */
  datatype DailyLog = DailyLog(created: int, correct: int, xp: int)

  /** One user's documents: the profile (if it exists) and the daily logs by day. */
  datatype UserState = UserState(profile: Option<Profile>, logs: map<string, DailyLog>)

  datatype AwardError = NotSignedIn | QaNotFound | UserNotFound

  /** The returned tuple `{ isCritical, gain, leveledUp, levelAfter }`. */
  datatype CorrectOutcome = CorrectOutcome(isCritical: bool, gain: int, leveledUp: bool, levelAfter: int)

  /** The profile `ensureUserInitialized` writes: level 1, no XP, 5 in every stat. */
  function InitProfile(uid: seq<CodeUnit>): Profile {
    Profile(Some(UidSeed(uid)), 1, 0, 0, 0, Stats(5, 5, 5, 5), NoStreak)
  }

  /** The profile `createQaAndAward` creates inside its transaction: the same, but 0 in every stat. */
  function LazyProfile(uid: seq<CodeUnit>): Profile {
    Profile(Some(UidSeed(uid)), 1, 0, 0, 0, Zero, NoStreak)
  }

  /** `seedFromUid(uid)`: the FNV-1a hash of the user id, as a number. */
  function UidSeed(uid: seq<CodeUnit>): int {
    Fnv1a(uid) as int
  }

  /** `u.seed ?? seedFromUid(uid)`, given the user id's seed. */
  function SeedOf(u: Profile, uidSeed: int): int {
    if u.seed.Some? then u.seed.value else uidSeed
  }

  /** `u.level || 1`: the stored level, with 0 read as 1. */
  function StoredLevel(u: Profile): int {
    if u.level == 0 then 1 else u.level
  }

  /**
   * The stats after a move from `prevLevel` to `newLevel`: unchanged unless the level rose,
   * and then 10 points more for every level passed.
   */
  function LevelUpStats(stats: Stats, seed: int, prevLevel: int, newLevel: int): (s: Stats)
    ensures newLevel <= prevLevel ==> s == stats
    ensures newLevel > prevLevel ==>
      s == Plus(stats, FixedIncrements(seed, prevLevel, newLevel)) &&
      Total(s) == Total(stats) + 10 * (newLevel - prevLevel)
  {
    if newLevel > prevLevel then
      var inc := FixedIncrements(seed, prevLevel, newLevel);
      FixedIncrementsTotal(seed, prevLevel, newLevel);
      PlusTotal(stats, inc);
      Plus(stats, inc)
    else
      stats
  }

  /** Rising in two steps pays the same stats as rising in one. */
  lemma LevelUpStatsSplit(stats: Stats, seed: int, l0: int, l1: int, l2: int)
    requires l0 <= l1 <= l2
    ensures LevelUpStats(LevelUpStats(stats, seed, l0, l1), seed, l1, l2) == LevelUpStats(stats, seed, l0, l2)
  {
    if l0 < l1 < l2 {
      FixedIncrementsAdditive(seed, l0, l1, l2);
      PlusAssociative(stats, FixedIncrements(seed, l0, l1), FixedIncrements(seed, l1, l2));
    }
  }

  /** The step every award shares: `gain` XP, the level it reaches and the stats of the levels passed. */
  function ApplyGain(u: Profile, gain: int, uidSeed: int, today: string): Profile {
    var newXp := u.totalXp + gain;
    var newLevel := ComputeLevel(newXp);
    u.(totalXp := newXp, level := newLevel, streak := NextStreak(u.streak, today),
       stats := LevelUpStats(u.stats, SeedOf(u, uidSeed), StoredLevel(u), newLevel))
  }

  /** A merged `increment` of the day's counters; a missing log counts from 0. */
  function Bump(logs: map<string, DailyLog>, day: string, created: int, correct: int, xp: int)
    : map<string, DailyLog>
  {
    var d := if day in logs then logs[day] else DailyLog(0, 0, 0);
    logs[day := DailyLog(d.created + created, d.correct + correct, d.xp + xp)]
  }

  // ---------------------------------------------------------------------------------------
  // The three awards
  // ---------------------------------------------------------------------------------------

  /**
   * The transaction of `createQaAndAward`, given the card's `createdXpAwarded` flag as read
   * (`None` when the card is missing). Returns the new state and the flag now stored.
   */
  function CreateQaAward(st: UserState, awarded: Option<bool>, uid: seq<CodeUnit>, today: string)
    : Result<(UserState, bool), AwardError>
  {
    if uid == [] then Failure(NotSignedIn)
    else if awarded.None? then Failure(QaNotFound)
    else if awarded.value then Success((st, true))
    else
      var u := if st.profile.Some? then st.profile.value else LazyProfile(uid);
      var u' := ApplyGain(u, 5, UidSeed(uid), today).(totalCreated := u.totalCreated + 1);
      Success((UserState(Some(u'), Bump(st.logs, today, 1, 0, 5)), true))
  }

  /** `(seed + totalCorrect) % 20 === 0`: JavaScript's truncating `%` and Dafny's Euclidean `%` agree on whether the remainder is 0. */
  predicate IsCritical(seed: int, totalCorrect: int) {
    (seed + totalCorrect) % 20 == 0
  }

  /** The transaction of `awardCorrectXpAndUpdate(totalCorrectDelta)`. */
  function AwardCorrect(st: UserState, uid: seq<CodeUnit>, totalCorrectDelta: int, today: string)
    : Result<(UserState, CorrectOutcome), AwardError>
  {
    if uid == [] then Failure(NotSignedIn)
    else if st.profile.None? then Failure(UserNotFound)
    else
      var u := st.profile.value;
      var isCritical := IsCritical(SeedOf(u, UidSeed(uid)), u.totalCorrect);
      var gain := if isCritical then 2 else 1;
      var u' := ApplyGain(u, gain, UidSeed(uid), today).(totalCorrect := u.totalCorrect + totalCorrectDelta);
      var outcome := CorrectOutcome(isCritical, gain, u'.level > StoredLevel(u), u'.level);
      Success((UserState(Some(u'), Bump(st.logs, today, 0, 1, gain)), outcome))
  }

  /** `ensureUserInitialized`: creates the profile when it is missing. */
  function EnsureUserInitialized(st: UserState, uid: seq<CodeUnit>): (r: UserState)
    ensures r.logs == st.logs
    ensures uid != [] ==> r.profile.Some?
    ensures uid == [] || st.profile.Some? ==> r == st
    ensures uid != [] && st.profile.None? ==>
      r.profile.value.level == 1 && r.profile.value.totalXp == 0 &&
      Total(r.profile.value.stats) == 20 && r.profile.value.seed == Some(UidSeed(uid))
  {
    if uid == [] || st.profile.Some? then st else st.(profile := Some(InitProfile(uid)))
  }

  /**
   * `awardXp(addXp)`: nothing for 0 or when signed out; otherwise the profile is initialised
   * and the transaction runs. When the transaction fails (`txFails`), only the XP total and
   * the day's XP are incremented, leaving level, stats and streak behind.
   */
  function AwardXp(st: UserState, uid: seq<CodeUnit>, addXp: int, today: string, txFails: bool): UserState {
    if uid == [] || addXp == 0 then st
    else
      var s := EnsureUserInitialized(st, uid);
      var u := s.profile.value;
      var u' := if txFails then u.(totalXp := u.totalXp + addXp) else ApplyGain(u, addXp, UidSeed(uid), today);
      UserState(Some(u'), Bump(s.logs, today, 0, 0, addXp))
  }

  // ---------------------------------------------------------------------------------------
  // Properties of the shared step
  // ---------------------------------------------------------------------------------------

  /**
   * After the step the stored level is the level of the stored XP, whatever level was stored
   * before; the XP grows by the gain; the stats change only on a level-up, and then by the
   * increments of exactly the levels passed, 10 points per level.
   */
  lemma ApplyGainEffect(u: Profile, gain: int, uidSeed: int, today: string)
    ensures var u' := ApplyGain(u, gain, uidSeed, today);
      u'.level == ComputeLevel(u'.totalXp) && u'.totalXp == u.totalXp + gain &&
      (u'.level > StoredLevel(u) ==>
        u'.stats == Plus(u.stats, FixedIncrements(SeedOf(u, uidSeed), StoredLevel(u), u'.level)) &&
        Total(u'.stats) == Total(u.stats) + 10 * (u'.level - StoredLevel(u))) &&
      (u'.level <= StoredLevel(u) ==> u'.stats == u.stats) &&
      u'.totalCorrect == u.totalCorrect && u'.totalCreated == u.totalCreated && u'.seed == u.seed
  {
  }

  /** A profile whose stored level is the level of its XP. */
  predicate InStep(u: Profile) {
    u.level == ComputeLevel(u.totalXp)
  }

  /** The level, seed and stored level the second of two gains starts from. */
  lemma ApplyGainThenGain(u: Profile, x: int, uidSeed: int, today: string)
    requires InStep(u) && u.totalXp >= 0 && x >= 0
    ensures var u1 := ApplyGain(u, x, uidSeed, today);
      StoredLevel(u1) == ComputeLevel(u.totalXp + x) && StoredLevel(u) <= StoredLevel(u1) &&
      SeedOf(u1, uidSeed) == SeedOf(u, uidSeed) && u1.totalXp == u.totalXp + x &&
      u1.stats == LevelUpStats(u.stats, SeedOf(u, uidSeed), StoredLevel(u), ComputeLevel(u.totalXp + x)) &&
      u1.streak == NextStreak(u.streak, today)
  {
    ComputeLevelMonotone(u.totalXp, u.totalXp + x);
  }

  /**
   * Two gains in a row on one day end where one gain of their sum ends: levels skipped by the
   * first are paid by the increments over the whole range, which split at any level.
   */
  lemma ApplyGainTwice(u: Profile, x: int, g: int, uidSeed: int, today: string)
    requires InStep(u) && u.totalXp >= 0 && x >= 0 && g >= 0 && IsYmd(today)
    requires LastDay(u.streak).Some? ==> IsYmd(LastDay(u.streak).value)
    ensures ApplyGain(ApplyGain(u, x, uidSeed, today), g, uidSeed, today) ==
      ApplyGain(u.(totalXp := u.totalXp + x), g, uidSeed, today)
  {
    var twice, once := ApplyGain(ApplyGain(u, x, uidSeed, today), g, uidSeed, today),
      ApplyGain(u.(totalXp := u.totalXp + x), g, uidSeed, today);
    TwiceStats(u, x, g, uidSeed, today);
    NextStreakSameDayIdempotent(u.streak, today);
    assert twice.streak == once.streak;
    SameFields(twice, once);
  }

  /** The stats after two gains are those of one gain of their sum. */
  lemma TwiceStats(u: Profile, x: int, g: int, uidSeed: int, today: string)
    requires InStep(u) && u.totalXp >= 0 && x >= 0 && g >= 0
    ensures ApplyGain(ApplyGain(u, x, uidSeed, today), g, uidSeed, today).stats ==
      ApplyGain(u.(totalXp := u.totalXp + x), g, uidSeed, today).stats
  {
    var xp := u.totalXp + x;
    var l0, l1, l2 := StoredLevel(u), ComputeLevel(xp), ComputeLevel(xp + g);
    var seed := SeedOf(u, uidSeed);
    var u1, ux := ApplyGain(u, x, uidSeed, today), u.(totalXp := xp);
    ApplyGainThenGain(u, x, uidSeed, today);
    GainStats(u1, g, uidSeed, today, seed, l1, l2);
    GainStats(ux, g, uidSeed, today, seed, l0, l2);
    ComputeLevelMonotone(xp, xp + g);
    LevelUpStatsSplit(u.stats, seed, l0, l1, l2);
  }

  /** The stats after one gain, from the stored level to the level of the new XP. */
  lemma GainStats(u: Profile, gain: int, uidSeed: int, today: string, seed: int, prev: int, next: int)
    requires seed == SeedOf(u, uidSeed) && prev == StoredLevel(u) && next == ComputeLevel(u.totalXp + gain)
    ensures ApplyGain(u, gain, uidSeed, today).stats == LevelUpStats(u.stats, seed, prev, next)
  {
  }

  /** Two profiles that agree field by field are equal. */
  lemma SameFields(a: Profile, b: Profile)
    requires a.seed == b.seed && a.level == b.level && a.totalXp == b.totalXp
    requires a.totalCorrect == b.totalCorrect && a.totalCreated == b.totalCreated
    requires a.stats == b.stats && a.streak == b.streak
    ensures a == b
  {
  }

  // ---------------------------------------------------------------------------------------
  // Properties of the awards
  // ---------------------------------------------------------------------------------------

  /** After a card creation that goes through, the stored level is the level of the stored XP. */
  lemma CreateQaAwardKeepsInStep(st: UserState, awarded: Option<bool>, uid: seq<CodeUnit>, today: string)
    requires st.profile.Some? ==> InStep(st.profile.value)
    ensures var r := CreateQaAward(st, awarded, uid, today);
      r.Success? ==> r.value.0.profile.Some? ==> InStep(r.value.0.profile.value)
  {
    var u := if st.profile.Some? then st.profile.value else LazyProfile(uid);
    ApplyGainEffect(u, 5, UidSeed(uid), today);
  }

  /** After a correct answer that goes through, the stored level is the level of the stored XP. */
  lemma AwardCorrectKeepsInStep(st: UserState, uid: seq<CodeUnit>, delta: int, today: string)
    ensures var r := AwardCorrect(st, uid, delta, today);
      r.Success? ==> r.value.0.profile.Some? && InStep(r.value.0.profile.value)
  {
    if uid != [] && st.profile.Some? {
      var u := st.profile.value;
      ApplyGainEffect(u, if IsCritical(SeedOf(u, UidSeed(uid)), u.totalCorrect) then 2 else 1, UidSeed(uid), today);
    }
  }

  /** After an XP award whose transaction goes through, the stored level is the level of the stored XP. */
  lemma AwardXpKeepsInStep(st: UserState, uid: seq<CodeUnit>, x: int, today: string)
    requires st.profile.Some? ==> InStep(st.profile.value)
    ensures var s := AwardXp(st, uid, x, today, false);
      s.profile.Some? ==> InStep(s.profile.value)
  {
    if uid != [] && x != 0 {
      ApplyGainEffect(EnsureUserInitialized(st, uid).profile.value, x, UidSeed(uid), today);
    }
  }

  /**
   * Creating a card awards 5 XP and one creation, once: the flag it leaves set makes a
   * second run a no-op. A missing card aborts with nothing written.
   */
  lemma CreateQaAwardOnce(st: UserState, uid: seq<CodeUnit>, today: string)
    requires uid != []
    ensures CreateQaAward(st, None, uid, today) == Failure(QaNotFound)
    ensures CreateQaAward(st, Some(true), uid, today) == Success((st, true))
    ensures var r := CreateQaAward(st, Some(false), uid, today);
      var u := if st.profile.Some? then st.profile.value else LazyProfile(uid);
      r.Success? && r.value.1 &&
      r.value.0.profile.Some? && r.value.0.profile.value.totalXp == u.totalXp + 5 &&
      r.value.0.profile.value.totalCreated == u.totalCreated + 1 &&
      r.value.0.profile.value.totalCorrect == u.totalCorrect &&
      today in r.value.0.logs &&
      r.value.0.logs[today].created == (if today in st.logs then st.logs[today].created else 0) + 1 &&
      CreateQaAward(r.value.0, Some(r.value.1), uid, today) == Success((r.value.0, true))
  {
    var u := if st.profile.Some? then st.profile.value else LazyProfile(uid);
    ApplyGainEffect(u, 5, UidSeed(uid), today);
  }

  /**
   * A correct answer earns 2 XP on a critical hit and 1 otherwise; `leveledUp` says whether
   * the level rose past the stored one; the day's log counts one correct answer whatever the delta.
   */
  lemma AwardCorrectEffect(st: UserState, uid: seq<CodeUnit>, delta: int, today: string)
    requires uid != [] && st.profile.Some?
    ensures var r, u := AwardCorrect(st, uid, delta, today), st.profile.value;
      r.Success? && r.value.0.profile.Some? &&
      (r.value.1.gain == 2 <==> IsCritical(SeedOf(u, UidSeed(uid)), u.totalCorrect)) &&
      (r.value.1.gain == 1 <==> !IsCritical(SeedOf(u, UidSeed(uid)), u.totalCorrect)) &&
      r.value.0.profile.value.totalXp == u.totalXp + r.value.1.gain &&
      r.value.0.profile.value.totalCorrect == u.totalCorrect + delta &&
      r.value.1.levelAfter == r.value.0.profile.value.level &&
      (r.value.1.leveledUp <==> r.value.1.levelAfter > StoredLevel(u)) &&
      r.value.0.logs[today].correct == (if today in st.logs then st.logs[today].correct else 0) + 1
  {
    var u := st.profile.value;
    ApplyGainEffect(u, 1, UidSeed(uid), today);
    ApplyGainEffect(u, 2, UidSeed(uid), today);
  }

  /** A correct answer for a user with no profile aborts. */
  lemma AwardCorrectNeedsProfile(st: UserState, uid: seq<CodeUnit>, delta: int, today: string)
    requires uid != [] && st.profile.None?
    ensures AwardCorrect(st, uid, delta, today) == Failure(UserNotFound)
  {
  }

  /** Critical hits recur every 20 correct answers. */
  lemma CriticalPeriodic(seed: int, totalCorrect: int)
    ensures IsCritical(seed, totalCorrect) <==> IsCritical(seed, totalCorrect + 20)
  {
    assert seed + totalCorrect + 20 == (seed + totalCorrect) + 20;
  }

  /** Among any 20 consecutive values of `totalCorrect`, exactly one is critical. */
  lemma OneCriticalInTwenty(seed: int, start: int)
    ensures var k := start + (-(seed + start)) % 20;
      start <= k < start + 20 && IsCritical(seed, k) &&
      forall j :: start <= j < start + 20 && IsCritical(seed, j) ==> j == k
  {
    var k := start + (-(seed + start)) % 20;
    assert IsCritical(seed, k) by {
      var q := (-(seed + start)) / 20;
      assert -(seed + start) == 20 * q + (-(seed + start)) % 20;
      assert seed + k == -20 * q;
    }
    forall j | start <= j < start + 20 && IsCritical(seed, j)
      ensures j == k
    {
      var a := (seed + j) / 20;
      var b := (seed + k) / 20;
      assert seed + j == 20 * a;
      assert seed + k == 20 * b;
      assert -20 < 20 * (a - b) < 20;
    }
  }

  /** `awardXp(0)` and an award while signed out change nothing. */
  lemma AwardXpNothing(st: UserState, uid: seq<CodeUnit>, addXp: int, today: string, txFails: bool)
    requires uid == [] || addXp == 0
    ensures AwardXp(st, uid, addXp, today, txFails) == st
  {
  }

  /**
   * The fallback adds only XP: level, stats and streak stay as they were. The XP still shows
   * in the day's log.
   */
  lemma AwardXpFallback(st: UserState, uid: seq<CodeUnit>, addXp: int, today: string)
    requires uid != [] && addXp != 0
    ensures var s, u := AwardXp(st, uid, addXp, today, true), EnsureUserInitialized(st, uid).profile.value;
      s.profile.Some? && s.profile.value == u.(totalXp := u.totalXp + addXp) &&
      s.logs[today].xp == (if today in st.logs then st.logs[today].xp else 0) + addXp
  {
  }

  /**
   * The next award catches up after a fallback: on the same day, an award of `g` after a
   * failed award of `x` leaves the profile and the logs exactly as two awards that both went
   * through, with every skipped level's stats paid.
   */
  lemma FallbackCatchesUp(st: UserState, uid: seq<CodeUnit>, x: int, g: int, today: string)
    requires uid != [] && x > 0 && g > 0 && IsYmd(today)
    requires st.profile.Some? ==> InStep(st.profile.value) && st.profile.value.totalXp >= 0
    requires st.profile.Some? && LastDay(st.profile.value.streak).Some? ==>
      IsYmd(LastDay(st.profile.value.streak).value)
    ensures AwardXp(AwardXp(st, uid, x, today, true), uid, g, today, false) ==
      AwardXp(AwardXp(st, uid, x, today, false), uid, g, today, false)
  {
    var s0 := EnsureUserInitialized(st, uid);
    var u := s0.profile.value;
    var logs := Bump(Bump(s0.logs, today, 0, 0, x), today, 0, 0, g);
    var failed := AwardXp(st, uid, x, today, true);
    var passed := AwardXp(st, uid, x, today, false);
    assert failed == UserState(Some(u.(totalXp := u.totalXp + x)), Bump(s0.logs, today, 0, 0, x));
    assert passed == UserState(Some(ApplyGain(u, x, UidSeed(uid), today)), Bump(s0.logs, today, 0, 0, x));
    assert AwardXp(failed, uid, g, today, false) ==
      UserState(Some(ApplyGain(u.(totalXp := u.totalXp + x), g, UidSeed(uid), today)), logs);
    assert AwardXp(passed, uid, g, today, false) ==
      UserState(Some(ApplyGain(ApplyGain(u, x, UidSeed(uid), today), g, UidSeed(uid), today)), logs);
    ApplyGainTwice(u, x, g, UidSeed(uid), today);
  }

  /** The two initial profiles differ only in the stats: 0 each when created lazily, 5 each otherwise. */
  lemma InitialProfiles(uid: seq<CodeUnit>)
    ensures LazyProfile(uid) == InitProfile(uid).(stats := Zero)
    ensures Total(InitProfile(uid).stats) == 20 && Total(LazyProfile(uid).stats) == 0
  {
  }

  /** Both initial profiles start in step at level 1, with a 32-bit seed. */
  lemma InitialProfilesInStep(uid: seq<CodeUnit>)
    ensures InStep(InitProfile(uid)) && InStep(LazyProfile(uid))
    ensures 0 <= SeedOf(InitProfile(uid), UidSeed(uid)) < TwoTo32
  {
    assert ComputeLevel(0) == 1;
  }
}
