/**
 * The application's shared store and the operations that change it:
 * `parse_and_store_feed` and the decision logic of the `/fetch_feed` and
 * `/clean` routes.
 */
module App {
  import opened Wrappers
  import opened Text
  import opened Fingerprint
  import opened Classifier
  import opened Extract
  import opened Ingest
  import opened Feeds

  /** `redirect(url_for('index'))` */
  const Redirect := 302
  const BadRequest := 400
  const NotFound := 404
  /** An exception caught by the route's `except` clause. */
  const ServerError := 500

  /** The database behind the global session: the `feed_data` table in insertion
      order, `feed_meta` as a map from feed name to `last_fetched`, and the number
      of classifier calls made so far. */
  class FeedStore {
    var table: seq<Record>
    var lastFetched: map<string, int>
    var classifierCalls: nat

    ghost predicate Valid()
      reads this
    {
      HashesUnique(table)
    }

    function State(): StoreState
      reads this
    {
      StoreState(table, lastFetched, classifierCalls)
    }

    /** The store as the process finds the database file: whatever rows and
        `last_fetched` entries earlier processes committed (the `unique=True`
        constraint guarantees distinct keys), and no classifier call made yet. */
    constructor (table0: seq<Record>, meta0: map<string, int>)
      requires HashesUnique(table0)
      ensures Valid() && State() == StoreState(table0, meta0, 0)
    {
      table := table0;
      lastFetched := meta0;
      classifierCalls := 0;
    }

    /** The body of the row loop once a candidate is found: skip it when its
        key is already stored or its info lacks "2024" or "English"; otherwise
        make the next classifier call on its title and append its row, stamped
        with the clock read after that call. */
    method StoreCandidate(digest: string -> string, classify: (nat, string) -> ClassifierReply,
                          clock: nat -> int, run: Run, c: Candidate)
      requires Valid()
      modifies this
      ensures Valid()
      ensures State() == ProcessCandidate(digest, Live(classify, clock), run, old(State()), c)
    {
      ProcessCandidateLive(digest, classify, clock, run, State(), c);
      var entryHash := GenerateHash(digest, c.title, c.link, c.info);
      var existingEntry := FirstWithHash(table, entryHash);
      if existingEntry.Some? {
        // already known: skipped
      } else if !Contains(c.info, "2024") {
        // not from 2024: skipped
      } else if !Contains(c.info, "English") {
        // not in English: skipped
      } else {
        var ok := IsInterestingTitle(classify(classifierCalls, c.title));
        var created := clock(classifierCalls);
        var entry := Record(run.feedName, c.title, run.urlPrefix + c.link, c.info, entryHash, !ok, created);
        AppendFreshKeepsUnique(table, entry);
        table := table + [entry];
        classifierCalls := classifierCalls + 1;
      }
    }

    /** One run for feed `run.feedName` on the fetched `page` (`None` when the
        fetch failed). The `n`-th classifier call of the process answers
        `classify(n, title)` and the clock read right after it gives `clock(n)`.
        The table, the classifier count and `last_fetched` end as `ParseAndStore`
        says for that environment. */
    method ParseAndStoreFeed(digest: string -> string, classify: (nat, string) -> ClassifierReply,
                             clock: nat -> int, run: Run, page: Option<seq<Row>>)
      returns (outcome: RunOutcome)
      requires Valid()
      modifies this
      ensures Valid()
      ensures RunResult(State(), outcome) == ParseAndStore(digest, Live(classify, clock), run, old(State()), page)
    {
      ghost var env := Live(classify, clock);
      if page.None? {
        return FetchFailed;
      }
      var rows := page.value;
      var i := 0;
      var aborted := false;
      while i < |rows| && !aborted
        invariant 0 <= i <= |rows|
        invariant IngestRows(digest, env, run, old(State()), rows[..i]) == RowsResult(State(), aborted)
        invariant Valid()
      {
        IngestRowsExtend(digest, env, run, old(State()), rows, i);
        match ExtractRow(rows[i]) {
          case NoCandidate =>
          case MissingHref =>
            aborted := true;
          case Found(c) =>
            StoreCandidate(digest, classify, clock, run, c);
        }
        i := i + 1;
      }
      if aborted {
        AbortIsFinal(digest, env, run, old(State()), rows, i);
        outcome := Aborted;
      } else {
        assert rows[..i] == rows;
        lastFetched := lastFetched[run.feedName := run.now];
        outcome := Completed;
      }
    }

    /** The `/clean` route: without a (non-empty) feed name it answers 400 and
        changes nothing; otherwise it deletes every record of that feed. */
    method CleanFeed(formName: Option<string>) returns (status: int)
      requires Valid()
      modifies this
      ensures Valid()
      ensures (formName.None? || formName.value == "") ==> status == BadRequest && State() == old(State())
      ensures formName.Some? && formName.value != "" ==>
        && status == Redirect
        && table == RemoveFeed(old(table), formName.value)
        && lastFetched == old(lastFetched) && classifierCalls == old(classifierCalls)
    {
      if formName.None? || formName.value == "" {
        return BadRequest;
      }
      RemoveFeedKeepsHashesUnique(table, formName.value);
      table := RemoveFeed(table, formName.value);
      status := Redirect;
    }

    /** The `/fetch_feed` route: an unknown or missing feed name answers 404 and
        changes nothing; otherwise the first configured feed of that name is
        fetched with `fetch` and ingested, and the route redirects, or answers 500
        when the run raised. */
    method FetchFeed(configs: seq<FeedConfig>, formName: Option<string>,
                     fetch: string -> Option<seq<Row>>,
                     digest: string -> string, classify: (nat, string) -> ClassifierReply,
                     clock: nat -> int, now: int) returns (status: int)
      requires Valid()
      modifies this
      ensures Valid()
      ensures FindFeed(configs, formName).None? ==> status == NotFound && State() == old(State())
      ensures FindFeed(configs, formName).Some? ==>
        var f := FindFeed(configs, formName).value;
        var r := ParseAndStore(digest, Live(classify, clock), Run(f.name, f.urlPrefix, now), old(State()),
                               fetch(f.urlToFetch));
        State() == r.state && status == (if r.outcome == Aborted then ServerError else Redirect)
    {
      var feed := FindFeed(configs, formName);
      if feed.None? {
        return NotFound;
      }
      var f := feed.value;
      var outcome := ParseAndStoreFeed(digest, classify, clock, Run(f.name, f.urlPrefix, now), fetch(f.urlToFetch));
      status := if outcome == Aborted then ServerError else Redirect;
    }
  }
}
