/**
 * The study screen's session: which card to show next and the history of cards already shown.
 *
 * A card is drawn from the user's first 100 cards (on one article, when a filter is set),
 * minus the cards already shown in this session, filtered by the study mode: due cards only,
 * any card, or cards not studied for a given number of days. The draw itself is random; the
 * model picks any card of the filtered pool.
 */
module Study {
  import opened Wrappers
  import opened Calendar
  import opened Sequences
  import opened Scheduler
  import Helpers

  datatype StudyMode = Due | Random | Age

  /** `state.session.filters`. */
  datatype Filters = Filters(
    dueOnly: bool, articleId: Option<string>, qaId: Option<string>, studyMode: Option<StudyMode>,
    ageDays: int)

  const InitialFilters: Filters := Filters(true, None, None, Some(Due), 3)

  /** The query limit of `fetchRandomQa`. */
  const PoolLimit: nat := 100

  /** `filters.studyMode || (filters.dueOnly ? 'due' : 'random')`. */
  function ModeOf(f: Filters): StudyMode {
    if f.studyMode.Some? then f.studyMode.value else if f.dueOnly then Due else Random
  }

  /** The day a card was last studied: its last review, else its creation, else today. */
  function BaseYmd(c: Card, today: string): string {
    if c.srs.Some? && c.srs.value.lastReviewedAt.Some? then JstYmd(c.srs.value.lastReviewedAt.value)
    else if c.createdAt.Some? then JstYmd(c.createdAt.value)
    else today
  }

  /** The age mode's test: at least `minDays` days since the card was last studied. */
  predicate OldEnough(c: Card, today: string, minDays: int) {
    YmdDiff(today, BaseYmd(c, today)) >= minDays
  }

  /** Whether the study mode lets card `c` through. */
  predicate Accepts(f: Filters, c: Card, today: string) {
    match ModeOf(f)
    case Due => IsDue(c.srs, today)
    case Age => OldEnough(c, today, f.ageDays)
    case Random => true
  }

  /** The cards a random draw chooses from. */
  function Pool(qas: seq<Card>, uid: string, f: Filters, history: seq<string>, today: string): (pool: seq<Card>)
    ensures |pool| <= PoolLimit
  {
    var docs := Select(Query(qas, uid, f.articleId, PoolLimit), (c: Card) => c.id !in history);
    Select(docs, (c: Card) => Accepts(f, c, today))
  }

  /**
   * A card is in the pool exactly when the query returns it, it has not been shown in this
   * session and the mode accepts it; so every card of the pool belongs to the user (and the
   * article filter), is due in the due mode and is old enough in the age mode.
   */
  lemma PoolMembers(qas: seq<Card>, uid: string, f: Filters, history: seq<string>, today: string)
    ensures forall c :: c in Pool(qas, uid, f, history, today) <==>
      c in Query(qas, uid, f.articleId, PoolLimit) && c.id !in history && Accepts(f, c, today)
    ensures forall c :: c in Pool(qas, uid, f, history, today) ==>
      c in qas && c.uid == uid && (f.articleId.Some? ==> c.articleId == f.articleId)
  {
    var docs := Select(Query(qas, uid, f.articleId, PoolLimit), (c: Card) => c.id !in history);
    SelectMembers(Query(qas, uid, f.articleId, PoolLimit), (c: Card) => c.id !in history);
    SelectMembers(docs, (c: Card) => Accepts(f, c, today));
    QueryResults(qas, uid, f.articleId, PoolLimit);
  }

  /** In the age mode a card in the pool was last studied at least `ageDays` days ago. */
  lemma AgePoolOldEnough(qas: seq<Card>, uid: string, f: Filters, history: seq<string>, today: string, c: Card)
    requires ModeOf(f) == Age && c in Pool(qas, uid, f, history, today)
    ensures YmdDiff(today, BaseYmd(c, today)) >= f.ageDays
  {
    PoolMembers(qas, uid, f, history, today);
  }

  /** A card that was never studied nor has a creation time counts as studied today. */
  lemma AgeOfUndatedCard(c: Card, today: string, minDays: int)
    requires c.createdAt.None? && (c.srs.None? || c.srs.value.lastReviewedAt.None?)
    ensures OldEnough(c, today, minDays) <==> minDays <= 0
  {
  }

  /** The first card with id `id`, as `getDoc` reads it. */
  function Find(qas: seq<Card>, id: string): (r: Option<Card>)
    ensures r.Some? ==> r.value in qas && r.value.id == id
    ensures r.None? ==> forall c :: c in qas ==> c.id != id
  {
    if qas == [] then None
    else if qas[0].id == id then Some(qas[0])
    else
      var r := Find(qas[1..], id);
      assert forall c :: c in qas ==> c == qas[0] || c in qas[1..];
      r
  }

  /** The card named by `filters.qaId`, when it exists and belongs to the user. */
  function Explicit(qas: seq<Card>, uid: string, f: Filters): (r: Option<Card>)
    ensures r.Some? ==> f.qaId.Some? && r.value in qas && r.value.id == f.qaId.value && r.value.uid == uid
  {
    if f.qaId.None? then None
    else
      var c := Find(qas, f.qaId.value);
      if c.Some? && c.value.uid == uid then c else None
  }

  /** `Math.max(0, Math.min(365, v))`: the age field, clamped to a year. */
  function ClampAgeDays(v: int): (d: int)
    ensures 0 <= d <= 365
    ensures 0 <= v <= 365 ==> d == v
    ensures v < 0 ==> d == 0
    ensures v > 365 ==> d == 365
  {
    if v < 0 then 0 else if v > 365 then 365 else v
  }

  /** `state.session`: the filters and the ids shown so far, most recent last. */
  class StudySession {
    var history: seq<string>
    var filters: Filters

    constructor ()
      ensures history == [] && filters == InitialFilters
    {
      history := [];
      filters := InitialFilters;
    }

    /** `history[history.length - 1]`: the card on screen, if any. */
    function LastId(): (r: Option<string>)
      reads this
      ensures r.Some? <==> history != []
      ensures r.Some? ==> r.value == history[|history| - 1]
    {
      if history == [] then None else Some(history[|history| - 1])
    }

    /**
     * `fetchRandomQa()`: a card explicitly requested through `filters.qaId` wins (and the
     * request is cleared); otherwise any card of the pool, or none when the pool is empty.
     */
    method FetchRandomQa(qas: seq<Card>, uid: Option<string>, today: string) returns (qa: Option<Card>)
      modifies this
      ensures history == old(history)
      ensures uid.None? ==> qa == None && filters == old(filters)
      ensures uid.Some? ==> filters == old(filters).(qaId := None)
      ensures uid.Some? && Explicit(qas, uid.value, old(filters)).Some? ==>
        qa == Explicit(qas, uid.value, old(filters))
      ensures uid.Some? && Explicit(qas, uid.value, old(filters)).None? ==>
        (qa.None? <==> Pool(qas, uid.value, old(filters), history, today) == []) &&
        (qa.Some? ==> qa.value in Pool(qas, uid.value, old(filters), history, today))
    {
      if uid.None? {
        return None;
      }
      var f := filters;
      if f.qaId.Some? {
        filters := filters.(qaId := None);
        var c := Find(qas, f.qaId.value);
        if c.Some? && c.value.uid == uid.value {
          return c;
        }
      }
      var docs := Pool(qas, uid.value, f, history, today);
      if |docs| == 0 {
        return None;
      }
      var i :| 0 <= i < |docs|;
      qa := Some(docs[i]);
    }

    /** `load()`: fetches a card and pushes its id onto the history. */
    method Load(qas: seq<Card>, uid: Option<string>, today: string) returns (qa: Option<Card>)
      modifies this
      ensures qa.Some? ==> history == old(history) + [qa.value.id]
      ensures qa.None? ==> history == old(history)
      ensures uid.Some? && Explicit(qas, uid.value, old(filters)).None? && qa.Some? ==>
        qa.value.id !in old(history) && qa.value in Pool(qas, uid.value, old(filters), old(history), today)
    {
      qa := FetchRandomQa(qas, uid, today);
      if qa.Some? {
        if uid.Some? && Explicit(qas, uid.value, old(filters)).None? {
          PoolMembers(qas, uid.value, old(filters), old(history), today);
        }
        history := history + [qa.value.id];
      }
    }

    /** Changing the study mode sets `dueOnly` along with it and starts a new history. */
    method SetStudyMode(m: StudyMode)
      modifies this
      ensures filters == old(filters).(studyMode := Some(m), dueOnly := m == Due)
      ensures history == []
    {
      filters := filters.(studyMode := Some(m), dueOnly := m == Due);
      history := [];
    }

    /** Changing the age field stores it clamped to 0..365 and starts a new history. */
    method SetAgeDays(v: int)
      modifies this
      ensures filters == old(filters).(ageDays := ClampAgeDays(v))
      ensures history == []
    {
      filters := filters.(ageDays := ClampAgeDays(v));
      history := [];
    }

    /** Changing the article filter stores the trimmed id (none when blank) and starts a new history. */
    method SetArticleFilter(value: string)
      modifies this
      ensures filters == old(filters).(articleId := if Helpers.Trim(value) == "" then None else Some(Helpers.Trim(value)))
      ensures history == []
    {
      var id := Helpers.Trim(value);
      filters := filters.(articleId := if id == "" then None else Some(id));
      history := [];
    }

    /** `ng.onclick`: a wrong answer on the card on screen resets its schedule; with none, nothing changes. */
    method OnIncorrect(qas: map<string, Card>, uid: Option<string>, today: string, now: int)
      returns (r: Result<map<string, Card>, SrsError>)
      ensures history == [] ==> r == Success(qas)
      ensures history != [] ==> r == SrsUpdate(qas, history[|history| - 1], uid, false, today, now)
    {
      var last := LastId();
      if last.None? {
        return Success(qas);
      }
      r := SrsUpdate(qas, last.value, uid, false, today, now);
    }

    /**
     * `ok.onclick` after the XP award went through: the card on screen is rescheduled on the
     * manual path (the picked date, or the automatic update when the dialog is cancelled).
     */
    method OnCorrect(qas: map<string, Card>, uid: Option<string>, picked: Option<string>, today: string, now: int)
      returns (r: Result<map<string, Card>, SrsError>)
      ensures history == [] ==> r == Success(qas)
      ensures history != [] ==> r == ManualReview(qas, history[|history| - 1], uid, picked, today, now)
    {
      var last := LastId();
      if last.None? {
        return Success(qas);
      }
      r := ManualReview(qas, last.value, uid, picked, today, now);
    }
  }

  /** A draw in the pool path never repeats a card shown earlier in the session. */
  lemma LoadNeverRepeats(qas: seq<Card>, uid: string, f: Filters, history: seq<string>, today: string, c: Card)
    requires c in Pool(qas, uid, f, history, today)
    ensures c.id !in history
  {
    PoolMembers(qas, uid, f, history, today);
  }

  /** In the due mode every card of the pool is due today. */
  lemma DuePoolIsDue(qas: seq<Card>, uid: string, f: Filters, history: seq<string>, today: string, c: Card)
    requires ModeOf(f) == Due && c in Pool(qas, uid, f, history, today)
    ensures IsDue(c.srs, today)
  {
    PoolMembers(qas, uid, f, history, today);
  }
}
