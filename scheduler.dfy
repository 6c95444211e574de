/**
 * The spaced-repetition scheduler: each card carries `srs` = {reps, ease, interval,
 * nextDueYmd, lastReviewedAt}. A correct answer lengthens the interval (1 day, then 3, then
 * the previous interval times the ease); a wrong one resets it and makes the card due today.
 *
 * Ease is kept in hundredths (2.5 is 250), so `Math.round((ease ± δ) * 100) / 100` is exact
 * integer arithmetic and `Math.round(interval * ease)` is `(interval * ease + 50) / 100`.
 */
module Scheduler {
  import opened Wrappers
  import opened Calendar
  import opened Sequences

  datatype Srs = Srs(reps: nat, ease: int, interval: nat, nextDueYmd: string, lastReviewedAt: Option<int>)

  /** A question card: its owner, optional article, scheduling state and creation time. */
  datatype Card = Card(
    id: string, uid: string, articleId: Option<string>, srs: Option<Srs>,
    createdAt: Option<int>, createdXpAwarded: bool)

  const DefaultEase: int := 250
  const MinEase: int := 130

  /** The `srs` a new card is created with: due the day it is created. */
  function NewCardSrs(today: string): Srs {
    Srs(0, DefaultEase, 0, today, None)
  }

  function Max(a: int, b: int): int {
    if a >= b then a else b
  }

  /** `Math.round(x / 100)` for `x >= 0`: halves round up. */
  function RoundHundredths(x: nat): (r: nat)
    ensures 100 * r <= x + 50 < 100 * r + 100
  {
    (x + 50) / 100
  }

  /** The ease after an answer: +0.02 when correct, −0.20 when wrong, never below 1.30. */
  function NextEase(ease: int, isCorrect: bool): int {
    Max(MinEase, if isCorrect then ease + 2 else ease - 20)
  }

  /** The interval after the `reps`-th correct answer in a row: 1, 3, then the scaled interval. */
  function CorrectInterval(reps: nat, prevInterval: nat, ease: int): nat
    requires ease >= MinEase
  {
    if reps == 1 then 1
    else if reps == 2 then 3
    else Max(1, RoundHundredths(prevInterval * ease))
  }

  /** The `srs` record `updateQaSrs` reads: the stored one, or a fresh one due today. */
  function CurrentSrs(srs: Option<Srs>, today: string): Srs {
    if srs.Some? then srs.value else NewCardSrs(today)
  }

  /** The record `updateQaSrs(qaId, isCorrect)` writes for a review on `today` at instant `now`. */
  function ReviewedSrs(srs: Option<Srs>, isCorrect: bool, today: string, now: int): Srs {
    var cur := CurrentSrs(srs, today);
    var ease := NextEase(cur.ease, isCorrect);
    var reps := if isCorrect then cur.reps + 1 else 0;
    var interval := if isCorrect then CorrectInterval(reps, cur.interval, ease) else 0;
    var nextDue := if interval > 0 then AddDaysToYmd(today, interval) else today;
    Srs(reps, ease, interval, nextDue, Some(now))
  }

  datatype SrsError = NotSignedIn | QaNotFound | PermissionDenied

  /** The whole `updateQaSrs` transaction on the card collection. */
  function SrsUpdate(
    qas: map<string, Card>, qaId: string, uid: Option<string>, isCorrect: bool, today: string, now: int)
    : Result<map<string, Card>, SrsError>
  {
    if uid.None? then Failure(NotSignedIn)
    else if qaId !in qas then Failure(QaNotFound)
    else if qas[qaId].uid != uid.value then Failure(PermissionDenied)
    else Success(qas[qaId := qas[qaId].(srs := Some(ReviewedSrs(qas[qaId].srs, isCorrect, today, now)))])
  }

  /**
   * `updateQaSrs`: reads the card, checks its owner, recomputes `reps`, `ease` and `interval`
   * in local variables and writes the new `srs` back; no other card changes.
   */
  method UpdateQaSrs(
    qas: map<string, Card>, qaId: string, uid: Option<string>, isCorrect: bool, today: string, now: int)
    returns (r: Result<map<string, Card>, SrsError>)
    ensures uid.None? ==> r == Failure(NotSignedIn)
    ensures uid.Some? && qaId !in qas ==> r == Failure(QaNotFound)
    ensures uid.Some? && qaId in qas && qas[qaId].uid != uid.value ==> r == Failure(PermissionDenied)
    ensures r.Success? ==>
      qaId in qas && r.value.Keys == qas.Keys &&
      (forall id :: id in qas && id != qaId ==> r.value[id] == qas[id])
    ensures r == SrsUpdate(qas, qaId, uid, isCorrect, today, now)
  {
    if uid.None? {
      return Failure(NotSignedIn);
    }
    if qaId !in qas {
      return Failure(QaNotFound);
    }
    var v := qas[qaId];
    if v.uid != uid.value {
      return Failure(PermissionDenied);
    }
    var cur := if v.srs.Some? then v.srs.value else Srs(0, DefaultEase, 0, today, None);
    var reps := cur.reps;
    var ease := cur.ease;
    var interval := cur.interval;
    if isCorrect {
      reps := reps + 1;
      ease := Max(MinEase, ease + 2);
      if reps == 1 {
        interval := 1;
      } else if reps == 2 {
        interval := 3;
      } else {
        interval := Max(1, (interval * ease + 50) / 100);
      }
    } else {
      reps := 0;
      interval := 0;
      ease := Max(MinEase, ease - 20);
    }
    var nextDue := if interval > 0 then AddDaysToYmd(today, interval) else today;
    r := Success(qas[qaId := v.(srs := Some(Srs(reps, ease, interval, nextDue, Some(now))))]);
  }

  // ---------------------------------------------------------------------------------------
  // Properties of a review
  // ---------------------------------------------------------------------------------------

  /** The ease never drops below 1.30, whatever was stored. */
  lemma ReviewEaseFloor(srs: Option<Srs>, isCorrect: bool, today: string, now: int)
    ensures ReviewedSrs(srs, isCorrect, today, now).ease >= MinEase
  {
  }

  /**
   * A correct answer adds a repetition and schedules the card `interval >= 1` days ahead;
   * on well-formed days it is not due again until then.
   */
  lemma CorrectReview(srs: Option<Srs>, today: string, now: int)
    requires IsYmd(today)
    ensures var cur, s := CurrentSrs(srs, today), ReviewedSrs(srs, true, today, now);
      s.reps == cur.reps + 1 && s.interval >= 1 && s.lastReviewedAt == Some(now) &&
      (IsYmd(s.nextDueYmd) ==> YmdDiff(s.nextDueYmd, today) == s.interval)
  {
    var s := ReviewedSrs(srs, true, today, now);
    if IsYmd(s.nextDueYmd) {
      AddDaysThenDiff(today, s.interval);
    }
  }

  /** A wrong answer resets repetitions and interval, lowers the ease and makes the card due today. */
  lemma IncorrectReview(srs: Option<Srs>, today: string, now: int)
    ensures var cur, s := CurrentSrs(srs, today), ReviewedSrs(srs, false, today, now);
      s.reps == 0 && s.interval == 0 && s.nextDueYmd == today && s.ease == Max(MinEase, cur.ease - 20)
  {
  }

  /** From the third correct answer on, the interval never shrinks: the ease is at least 1.30. */
  lemma CorrectNeverShortens(srs: Option<Srs>, today: string, now: int)
    requires CurrentSrs(srs, today).reps >= 2
    ensures ReviewedSrs(srs, true, today, now).interval >= CurrentSrs(srs, today).interval
  {
    var cur := CurrentSrs(srs, today);
    var e := NextEase(cur.ease, true);
    assert e >= MinEase;
    assert cur.interval * e >= cur.interval * 100 by {
      assert cur.interval * e == cur.interval * 100 + cur.interval * (e - 100);
    }
  }

  /** A new card answered correctly three times in a row waits 1, 3 and then 8 days. */
  lemma ThreeCorrectFromNew(d1: string, d2: string, d3: string, n1: int, n2: int, n3: int)
    ensures var s1 := ReviewedSrs(None, true, d1, n1);
      var s2 := ReviewedSrs(Some(s1), true, d2, n2);
      var s3 := ReviewedSrs(Some(s2), true, d3, n3);
      s1.interval == 1 && s2.interval == 3 && s3.interval == 8 &&
      s1.ease == 252 && s2.ease == 254 && s3.ease == 256
  {
  }

  // ---------------------------------------------------------------------------------------
  // The manual pick after a correct answer, and the edit dialog
  // ---------------------------------------------------------------------------------------

  /** The repetitions, ease and interval the manual path suggests before asking for a date. */
  datatype Suggestion = Suggestion(reps: nat, ease: int, interval: nat)

  /**
   * The suggestion computed on the manual path: like a correct review, except that a zero
   * stored interval counts as 1 (`cur.interval || 1`).
   */
  function Suggest(srs: Option<Srs>): Suggestion {
    var cur := if srs.Some? then srs.value else Srs(0, DefaultEase, 0, "", None);
    var reps := cur.reps + 1;
    var ease := NextEase(cur.ease, true);
    var base := if cur.interval == 0 then 1 else cur.interval;
    Suggestion(reps, ease, CorrectInterval(reps, base, ease))
  }

  /** The record written when the user picks a date: interval is the days from today, at least 0. */
  function PickedSrs(srs: Option<Srs>, picked: string, today: string, now: int): Srs {
    var s := Suggest(srs);
    Srs(s.reps, s.ease, Max(0, YmdDiff(picked, today)), picked, Some(now))
  }

  /**
   * `ok.onclick` after a correct answer on card `qaId`: a picked date is written directly;
   * cancelling falls back to `updateQaSrs(qaId, true)`; a missing card changes nothing.
   */
  function ManualReview(
    qas: map<string, Card>, qaId: string, uid: Option<string>, picked: Option<string>, today: string, now: int)
    : Result<map<string, Card>, SrsError>
  {
    if qaId !in qas then Success(qas)
    else if picked.Some? && picked.value != "" then
      Success(qas[qaId := qas[qaId].(srs := Some(PickedSrs(qas[qaId].srs, picked.value, today, now)))])
    else SrsUpdate(qas, qaId, uid, true, today, now)
  }

  /**
   * The two "correct" paths disagree on a card whose stored interval is 0 after two or more
   * repetitions: the automatic update schedules 1 day, the suggestion the ease rounded.
   */
  lemma ManualAndAutomaticDiffer(srs: Srs, today: string, now: int)
    requires srs.reps >= 2 && srs.interval == 0 && srs.ease >= 148
    ensures ReviewedSrs(Some(srs), true, today, now).interval == 1
    ensures Suggest(Some(srs)).interval == RoundHundredths(srs.ease + 2) >= 2
  {
  }

  /** On the other cards the two paths agree: same repetitions, ease and interval. */
  lemma ManualAgreesWhenIntervalSet(srs: Srs, today: string, now: int)
    requires srs.interval > 0
    ensures var s, a := Suggest(Some(srs)), ReviewedSrs(Some(srs), true, today, now);
      s.reps == a.reps && s.ease == a.ease && s.interval == a.interval
  {
  }

  /** Accepting the suggested date stores exactly the suggested interval. */
  lemma AcceptSuggestion(srs: Option<Srs>, today: string, now: int)
    requires IsYmd(today)
    requires IsYmd(AddDaysToYmd(today, Suggest(srs).interval))
    ensures var s := Suggest(srs);
      PickedSrs(srs, AddDaysToYmd(today, s.interval), today, now).interval == s.interval
  {
    AddDaysThenDiff(today, Suggest(srs).interval);
  }

  /** The edit dialog's date field: `yyyy-mm-dd`, digits in every place but the two dashes. */
  predicate DashedDate(d: string) {
    |d| == 10 && d[4] == '-' && d[7] == '-' &&
    forall i :: 0 <= i < 10 && i != 4 && i != 7 ==> IsDigit(d[i])
  }

  /** `d.replace(/-/g, '')`. */
  function RemoveDashes(d: string): (r: string)
    ensures |r| <= |d|
  {
    if d == [] then [] else (if d[0] == '-' then [] else [d[0]]) + RemoveDashes(d[1..])
  }

  /** A dashed date loses exactly its two dashes: the eight digits in order remain. */
  lemma DashedDateDigits(d: string)
    requires DashedDate(d)
    ensures RemoveDashes(d) == d[..4] + d[5..7] + d[8..]
    ensures |RemoveDashes(d)| == 8 && AllDigits(RemoveDashes(d))
  {
    var y, m, dd := d[..4], d[5..7], d[8..];
    assert d == y + [d[4]] + m + [d[7]] + dd;
    RemoveDashesAppend(y + [d[4]] + m + [d[7]], dd);
    RemoveDashesAppend(y + [d[4]] + m, [d[7]]);
    RemoveDashesAppend(y + [d[4]], m);
    RemoveDashesAppend(y, [d[4]]);
    RemoveDashesNone(y);
    RemoveDashesNone(m);
    RemoveDashesNone(dd);
  }

  /** Removing dashes from a concatenation removes them from each part. */
  lemma {:induction false} RemoveDashesAppend(a: string, b: string)
    ensures RemoveDashes(a + b) == RemoveDashes(a) + RemoveDashes(b)
  {
    if a == [] {
      assert a + b == b;
    } else {
      assert (a + b)[1..] == a[1..] + b;
      RemoveDashesAppend(a[1..], b);
    }
  }

  /** A string of digits has no dash to remove. */
  lemma {:induction false} RemoveDashesNone(s: string)
    requires AllDigits(s)
    ensures RemoveDashes(s) == s
  {
    if s != [] {
      assert AllDigits(s[1..]) by {
        forall i | 0 <= i < |s| - 1 ensures IsDigit(s[1..][i]) {
          assert s[1..][i] == s[i + 1];
        }
      }
      RemoveDashesNone(s[1..]);
    }
  }

  /**
   * The `srs` the edit dialog leaves on a card: with a well-formed date, the stored record
   * (or a fresh one) with that due day and the days from today, at least 0; otherwise as it was.
   */
  function EditedSrs(srs: Option<Srs>, d: string, today: string): Option<Srs> {
    if DashedDate(d) then
      var cur := if srs.Some? then srs.value else Srs(0, DefaultEase, 0, "", None);
      var ymd := RemoveDashes(d);
      Some(cur.(nextDueYmd := ymd, interval := Max(0, YmdDiff(ymd, today))))
    else srs
  }

  /**
   * A well-formed date field sets the due day to its eight digits and the interval to the
   * days from today (at least 0), keeping the stored repetitions, ease and last review, or
   * 0, 2.5 and none for a card never studied; a malformed field leaves `srs` as it was.
   */
  lemma EditedSrsEffect(srs: Option<Srs>, d: string, today: string)
    ensures !DashedDate(d) ==> EditedSrs(srs, d, today) == srs
    ensures DashedDate(d) ==> EditedSrs(srs, d, today).Some?
    ensures DashedDate(d) ==> (
      var e := EditedSrs(srs, d, today).value;
      e.nextDueYmd == d[..4] + d[5..7] + d[8..] &&
      e.interval == Max(0, YmdDiff(e.nextDueYmd, today)) &&
      (srs.Some? ==> e.reps == srs.value.reps && e.ease == srs.value.ease && e.lastReviewedAt == srs.value.lastReviewedAt) &&
      (srs.None? ==> e.reps == 0 && e.ease == DefaultEase && e.lastReviewedAt.None?))
  {
    if DashedDate(d) {
      DashedDateDigits(d);
    }
  }

  /**
   * On real days, the edited card is due today exactly when the picked day is not after
   * today, its interval is 0 exactly then, and otherwise the interval added to today is the
   * picked day.
   */
  lemma EditedDueDay(srs: Option<Srs>, d: string, today: string)
    requires DashedDate(d) && IsYmd(RemoveDashes(d)) && IsYmd(today)
    ensures EditedSrs(srs, d, today).Some?
    ensures var e, ymd := EditedSrs(srs, d, today).value, RemoveDashes(d);
      (IsDue(Some(e), today) <==> YmdDiff(ymd, today) <= 0) &&
      (e.interval == 0 <==> YmdDiff(ymd, today) <= 0) &&
      (e.interval > 0 ==> AddDaysToYmd(today, e.interval) == ymd)
  {
    var e, ymd := EditedSrs(srs, d, today).value, RemoveDashes(d);
    var n := YmdDiff(ymd, today);
    assert e.nextDueYmd == ymd && e.interval == Max(0, n);
    IsDueChronological(e, today);
    DiffThenAddDays(ymd, today);
  }

  // ---------------------------------------------------------------------------------------
  // Due cards
  // ---------------------------------------------------------------------------------------

  /** The due test of `countDueToday` and the due mode: no record or no day, or `nextDueYmd <= today`. */
  predicate IsDue(srs: Option<Srs>, today: string) {
    srs.None? || srs.value.nextDueYmd == "" || LexLe(srs.value.nextDueYmd, today)
  }

  /** On well-formed days the string test is the calendar test: due iff the due day is not after today. */
  lemma IsDueChronological(s: Srs, today: string)
    requires IsYmd(s.nextDueYmd) && IsYmd(today)
    ensures IsDue(Some(s), today) <==> YmdDiff(s.nextDueYmd, today) <= 0
  {
    LexLeIsChronological(s.nextDueYmd, today);
  }

  /** A card answered wrongly is due the same day. */
  lemma IncorrectIsDueToday(srs: Option<Srs>, today: string, now: int)
    requires IsYmd(today)
    ensures IsDue(Some(ReviewedSrs(srs, false, today, now)), today)
  {
    LexLeIsChronological(today, today);
  }

  /** A card answered correctly is not due again until `interval` days have passed. */
  lemma CorrectIsDueAfterInterval(srs: Option<Srs>, today: string, now: int, day: string)
    requires IsYmd(today) && IsYmd(day)
    requires IsYmd(ReviewedSrs(srs, true, today, now).nextDueYmd)
    ensures var s := ReviewedSrs(srs, true, today, now);
      IsDue(Some(s), day) <==> YmdDiff(day, today) >= s.interval
  {
    var s := ReviewedSrs(srs, true, today, now);
    CorrectReview(srs, today, now);
    IsDueChronological(s, day);
  }

  /** `limit(n)`: at most the first `n` results. */
  function Take(cards: seq<Card>, n: nat): (r: seq<Card>)
    ensures |r| <= n && |r| <= |cards|
    ensures forall c :: c in r ==> c in cards
  {
    if |cards| <= n then cards else cards[..n]
  }

  /** The user's cards (on one article, when given), in stored order. */
  function Owned(qas: seq<Card>, uid: string, articleId: Option<string>): seq<Card> {
    Select(qas, (c: Card) => c.uid == uid && (articleId.None? || c.articleId == articleId))
  }

  /**
   * The query `where('uid', '==', uid)`, optionally `where('articleId', '==', articleId)`,
   * `limit(limitN)`, over the collection in its stored order.
   */
  function Query(qas: seq<Card>, uid: string, articleId: Option<string>, limitN: nat): seq<Card> {
    Take(Owned(qas, uid, articleId), limitN)
  }

  lemma OwnedMembers(qas: seq<Card>, uid: string, articleId: Option<string>)
    ensures forall c :: c in Owned(qas, uid, articleId) <==>
      c in qas && c.uid == uid && (articleId.None? || c.articleId == articleId)
  {
    SelectMembers(qas, (c: Card) => c.uid == uid && (articleId.None? || c.articleId == articleId));
  }

  /** Every result of the query belongs to the user (and the article), and there are at most `limitN`. */
  lemma QueryResults(qas: seq<Card>, uid: string, articleId: Option<string>, limitN: nat)
    ensures |Query(qas, uid, articleId, limitN)| <= limitN
    ensures forall c :: c in Query(qas, uid, articleId, limitN) ==>
      c in qas && c.uid == uid && (articleId.Some? ==> c.articleId == articleId)
  {
    OwnedMembers(qas, uid, articleId);
  }

  /** `countDueToday(limitN)`: the due cards among the first `limitN` of the user's; 0 when signed out. */
  function CountDueToday(qas: seq<Card>, uid: Option<string>, today: string, limitN: nat): (n: nat)
    ensures n <= limitN
  {
    if uid.None? then 0 else |Select(Query(qas, uid.value, None, limitN), (c: Card) => IsDue(c.srs, today))|
  }

  /** A user whose cards are all due and fit the limit sees them all counted. */
  lemma CountAllDue(qas: seq<Card>, uid: string, today: string, limitN: nat)
    requires forall c :: c in qas && c.uid == uid ==> IsDue(c.srs, today)
    requires |Owned(qas, uid, None)| <= limitN
    ensures CountDueToday(qas, Some(uid), today, limitN) == |Owned(qas, uid, None)|
  {
    var owned := Owned(qas, uid, None);
    OwnedMembers(qas, uid, None);
    assert forall i :: 0 <= i < |owned| ==> owned[i] in owned;
    SelectAll(owned, (c: Card) => IsDue(c.srs, today));
  }
}
