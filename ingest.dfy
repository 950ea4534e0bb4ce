/**
 * The store update of `parse_and_store_feed`, as functions on the store's state.
 * The method `App.FeedStore.ParseAndStoreFeed` runs the same steps imperatively
 * and is proved to end in the state `ParseAndStore` describes; the lemmas here
 * state what a run does to the store.
 */
module Ingest {
  import opened Wrappers
  import opened Text
  import opened Fingerprint
  import opened Classifier
  import opened Extract

  /** A `FeedData` row. `link` is the prefixed link; `hash` is the key over the
      unprefixed one. */
  datatype Record = Record(feedName: string, title: string, link: string, info: string,
                           hash: string, skipAi: bool, created: int)

  /** What one run is given besides the page: the feed's name and link prefix, and
      the time read after the loop, which becomes the feed's `last_fetched`. */
  datatype Run = Run(feedName: string, urlPrefix: string, now: int)

  /** What the process consults outside itself, both indexed by the number of
      classifier calls made before: the verdict of `is_interesting_title` on a
      title, and the wall-clock time read right after that call, which stamps the
      record. `Live` builds the verdict from the remote model's replies. */
  datatype Env = Env(judge: (nat, string) -> bool, clock: nat -> int)

  /** The environment of a process whose `n`-th classifier call answers
      `classify(n, title)`: its verdict is the reply parsed by
      `is_interesting_title`. */
  function Live(classify: (nat, string) -> ClassifierReply, clock: nat -> int): Env
  {
    Env((n: nat, title: string) => IsInterestingTitle(classify(n, title)), clock)
  }

  /** The `feed_data` table in insertion order, the `last_fetched` of each
      `feed_meta` row by feed name, and the number of classifier calls so far. */
  datatype StoreState = StoreState(table: seq<Record>, lastFetched: map<string, int>, calls: nat)

  /** How a run ends: the fetch failed (`fetch_html` returned `None`), the rows
      were all processed, or a title link without `href` raised `KeyError`. */
  datatype RunOutcome = FetchFailed | Completed | Aborted

  datatype RowsResult = RowsResult(state: StoreState, aborted: bool)
  datatype RunResult = RunResult(state: StoreState, outcome: RunOutcome)

  /** Some row of the table has key `h`. */
  predicate Stored(table: seq<Record>, h: string) {
    exists i :: 0 <= i < |table| && table[i].hash == h
  }

  /** The query `filter_by(hash=h).first()`: the first row with key `h`, if any. */
  function FirstWithHash(table: seq<Record>, h: string): (r: Option<Record>)
    ensures r.Some? <==> Stored(table, h)
    ensures r.Some? ==> exists i :: 0 <= i < |table| && table[i] == r.value && r.value.hash == h
                                    && forall j :: 0 <= j < i ==> table[j].hash != h
  {
    if table == [] then None
    else if table[0].hash == h then Some(table[0])
    else
      var r := FirstWithHash(table[1..], h);
      assert Stored(table, h) <==> Stored(table[1..], h) by {
        if Stored(table, h) {
          var i :| 0 <= i < |table| && table[i].hash == h;
          assert table[1..][i - 1] == table[i];
        }
        if Stored(table[1..], h) {
          var i :| 0 <= i < |table[1..]| && table[1..][i].hash == h;
          assert table[i + 1] == table[1..][i];
        }
      }
      if r.Some? then
        var i :| 0 <= i < |table[1..]| && table[1..][i] == r.value && r.value.hash == h
                 && forall j :: 0 <= j < i ==> table[1..][j].hash != h;
        assert table[i + 1] == r.value;
        assert forall j :: 0 <= j < i + 1 ==> table[j].hash != h by {
          forall j | 0 <= j < i + 1 ensures table[j].hash != h {
            if j > 0 { assert table[j] == table[1..][j - 1]; }
          }
        }
        r
      else r
  }

  /** The `unique=True` constraint on the hash column. */
  ghost predicate HashesUnique(table: seq<Record>) {
    forall i, j :: 0 <= i < j < |table| ==> table[i].hash != table[j].hash
  }

  /** The hard-coded acceptance test on the additional info: "2024" and
      "English" both occur in it somewhere. */
  predicate PassesInfoFilter(info: string)
    ensures PassesInfoFilter(info) <==>
      (exists i :: OccursAt(info, "2024", i)) && (exists i :: OccursAt(info, "English", i))
  {
    Contains(info, "2024") && Contains(info, "English")
  }

  /** A candidate that a run would skip without calling the classifier. */
  ghost predicate Settled(digest: string -> string, table: seq<Record>, c: Candidate) {
    Stored(table, GenerateHash(digest, c.title, c.link, c.info)) || !PassesInfoFilter(c.info)
  }

  /** `r` is the row stored for candidate `c` during `run`. */
  ghost predicate RecordOf(digest: string -> string, run: Run, c: Candidate, r: Record) {
    && r.feedName == run.feedName
    && r.title == c.title
    && r.link == run.urlPrefix + c.link
    && r.info == c.info
    && r.hash == GenerateHash(digest, c.title, c.link, c.info)
  }

  /** `r` is the row stored for the candidate that page row `row` yields. */
  ghost predicate FromRow(digest: string -> string, run: Run, row: Row, r: Record) {
    ExtractRow(row).Found? && RecordOf(digest, run, ExtractRow(row).candidate, r)
  }

  /** Some row of the page has a title link without `href`. */
  ghost predicate HasMissingHref(rows: seq<Row>) {
    exists j :: 0 <= j < |rows| && ExtractRow(rows[j]).MissingHref?
  }

  /** No row before index `j` raised `KeyError`. */
  ghost predicate ReachedRow(rows: seq<Row>, j: int) {
    j <= |rows| && forall i :: 0 <= i < j ==> !ExtractRow(rows[i]).MissingHref?
  }

  /** A clock that never reads the same time twice and never goes back. */
  ghost predicate StrictlyIncreasing(clock: nat -> int) {
    forall i: nat, j: nat :: i < j ==> clock(i) < clock(j)
  }

  /** Row `r` carries the verdict on its title from classifier call number
      `call` (`skip_ai` is its negation) and the time read right after that call. */
  ghost predicate StampedBy(env: Env, call: nat, r: Record) {
    && r.skipAi == !env.judge(call, r.title)
    && r.created == env.clock(call)
  }

  /** One candidate: skip it if its key is stored, or if its info lacks "2024" or
      "English"; otherwise classify its title (the `calls`-th classifier call) and
      append a row with `skip_ai = not verdict`, stamped with the time read after
      that call. */
  function ProcessCandidate(digest: string -> string, env: Env,
                            run: Run, s: StoreState, c: Candidate): (t: StoreState)
    ensures t.lastFetched == s.lastFetched
    ensures Settled(digest, t.table, c)
    ensures Settled(digest, s.table, c) ==> t == s
    ensures !Settled(digest, s.table, c) ==>
      && t.calls == s.calls + 1
      && |t.table| == |s.table| + 1 && t.table[..|s.table|] == s.table
      && RecordOf(digest, run, c, t.table[|s.table|])
      && StampedBy(env, s.calls, t.table[|s.table|])
  {
    var h := GenerateHash(digest, c.title, c.link, c.info);
    if Stored(s.table, h) then s
    else if !Contains(c.info, "2024") then s
    else if !Contains(c.info, "English") then s
    else
      var ok := env.judge(s.calls, c.title);
      var rec := Record(run.feedName, c.title, run.urlPrefix + c.link, c.info, h, !ok, env.clock(s.calls));
      assert (s.table + [rec])[|s.table|] == rec;
      s.(table := s.table + [rec], calls := s.calls + 1)
  }

  /** The loop over the page's rows, up to the first `KeyError`. It never changes
      or removes existing rows, leaves `last_fetched` alone, makes exactly one
      classifier call per row it appends, and aborts exactly when some row has a
      title link without `href`. */
  function IngestRows(digest: string -> string, env: Env,
                      run: Run, s: StoreState, rows: seq<Row>): (r: RowsResult)
    ensures |s.table| <= |r.state.table| && r.state.table[..|s.table|] == s.table
    ensures r.state.calls == s.calls + (|r.state.table| - |s.table|)
    ensures r.state.lastFetched == s.lastFetched
    ensures r.aborted <==> HasMissingHref(rows)
    decreases |rows|
  {
    if rows == [] then RowsResult(s, false)
    else
      var init := rows[..|rows| - 1];
      var prev := IngestRows(digest, env, run, s, init);
      assert HasMissingHref(rows) <==> HasMissingHref(init) || ExtractRow(rows[|rows| - 1]).MissingHref? by {
        forall j | 0 <= j < |init| ensures init[j] == rows[j] { }
      }
      var r :=
        if prev.aborted then prev
        else match ExtractRow(rows[|rows| - 1])
          case NoCandidate => prev
          case MissingHref => RowsResult(prev.state, true)
          case Found(c) => RowsResult(ProcessCandidate(digest, env, run, prev.state, c), false);
      assert r.state.table[..|s.table|] == r.state.table[..|prev.state.table|][..|s.table|];
      r
  }

  /** A whole run. A failed fetch changes nothing. Otherwise the rows are
      ingested; the run aborts exactly when some row has a title link without
      `href`, and then `last_fetched` is left alone; when it completes, the feed's
      `last_fetched` becomes `now`, created when missing and overwritten
      otherwise, and no other feed's entry changes. */
  function ParseAndStore(digest: string -> string, env: Env,
                         run: Run, s: StoreState, page: Option<seq<Row>>): (r: RunResult)
    ensures r.outcome == FetchFailed <==> page.None?
    ensures page.None? ==> r.state == s
    ensures page.Some? ==> (r.outcome == Aborted <==> HasMissingHref(page.value))
    ensures r.outcome == Completed ==> r.state.lastFetched == s.lastFetched[run.feedName := run.now]
    ensures r.outcome != Completed ==> r.state.lastFetched == s.lastFetched
    ensures |s.table| <= |r.state.table| && r.state.table[..|s.table|] == s.table
    ensures r.state.calls == s.calls + (|r.state.table| - |s.table|)
  {
    match page
    case None => RunResult(s, FetchFailed)
    case Some(rows) =>
      var r := IngestRows(digest, env, run, s, rows);
      if r.aborted then RunResult(r.state, Aborted)
      else RunResult(r.state.(lastFetched := r.state.lastFetched[run.feedName := run.now]), Completed)
  }

  /** One more row of the page: what the loop does with row `i`, given the
      result of the rows before it. */
  lemma IngestRowsExtend(digest: string -> string, env: Env, run: Run, s: StoreState,
                         rows: seq<Row>, i: nat)
    requires i < |rows|
    ensures var prev := IngestRows(digest, env, run, s, rows[..i]);
      IngestRows(digest, env, run, s, rows[..i + 1]) ==
        if prev.aborted then prev
        else match ExtractRow(rows[i])
          case NoCandidate => prev
          case MissingHref => RowsResult(prev.state, true)
          case Found(c) => RowsResult(ProcessCandidate(digest, env, run, prev.state, c), false)
  {
    assert rows[..i + 1][..i] == rows[..i];
    assert rows[..i + 1][i] == rows[i];
  }

  /** `ProcessCandidate` under the environment of a live classifier and clock,
      spelled out in their terms. */
  lemma ProcessCandidateLive(digest: string -> string, classify: (nat, string) -> ClassifierReply,
                             clock: nat -> int, run: Run, s: StoreState, c: Candidate)
    ensures var h := GenerateHash(digest, c.title, c.link, c.info);
      ProcessCandidate(digest, Live(classify, clock), run, s, c) ==
        if Stored(s.table, h) || !Contains(c.info, "2024") || !Contains(c.info, "English") then s
        else s.(table := s.table + [Record(run.feedName, c.title, run.urlPrefix + c.link, c.info, h,
                                           !IsInterestingTitle(classify(s.calls, c.title)), clock(s.calls))],
                calls := s.calls + 1)
  {
    var env := Live(classify, clock);
    assert env.judge(s.calls, c.title) == IsInterestingTitle(classify(s.calls, c.title));
  }

  /** Appending a row whose key is not yet stored keeps the keys unique. */
  lemma AppendFreshKeepsUnique(table: seq<Record>, r: Record)
    requires HashesUnique(table) && !Stored(table, r.hash)
    ensures HashesUnique(table + [r])
  {
    var t := table + [r];
    forall i, j | 0 <= i < j < |t| ensures t[i].hash != t[j].hash {
      assert t[i] == table[i];
      if j < |table| {
        assert t[j] == table[j];
      }
    }
  }

  lemma RowsPrefix(rows: seq<Row>, j: nat)
    requires 0 < |rows| && j <= |rows| - 1
    ensures rows[..|rows| - 1][..j] == rows[..j]
  {
  }

  /** Once a prefix of the rows has aborted, the rest of the page is not looked at. */
  lemma {:induction false} AbortIsFinal(digest: string -> string, env: Env,
                                        run: Run, s: StoreState, rows: seq<Row>, i: nat)
    requires i <= |rows| && IngestRows(digest, env, run, s, rows[..i]).aborted
    ensures IngestRows(digest, env, run, s, rows) == IngestRows(digest, env, run, s, rows[..i])
    decreases |rows|
  {
    if i < |rows| {
      RowsPrefix(rows, i);
      AbortIsFinal(digest, env, run, s, rows[..|rows| - 1], i);
    } else {
      assert rows[..i] == rows;
    }
  }

  /** Row `r` was appended for the candidate of page row `j`, whose info passed
      the filter, with classifier call number `call`. */
  ghost predicate AppendedBy(digest: string -> string, env: Env, run: Run, rows: seq<Row>,
                             j: int, call: nat, r: Record) {
    && 0 <= j < |rows| && FromRow(digest, run, rows[j], r)
    && PassesInfoFilter(r.info) && StampedBy(env, call, r)
  }

  /** `AppendedBy` on a page holds on the page with one more row; `r'` is the
      same row, read from the longer page's table. */
  lemma AppendedByLongerPage(digest: string -> string, env: Env, run: Run, rows: seq<Row>,
                             j: int, call: nat, r: Record, r': Record)
    requires |rows| > 0 && AppendedBy(digest, env, run, rows[..|rows| - 1], j, call, r)
    requires r' == r
    ensures AppendedBy(digest, env, run, rows, j, call, r')
  {
    assert rows[..|rows| - 1][j] == rows[j];
  }

  /** One more row extends the table of the shorter page by at most one row. */
  lemma LastRowExtends(digest: string -> string, env: Env, run: Run, s: StoreState, rows: seq<Row>,
                       prev: StoreState, t: StoreState)
    requires rows != []
    requires prev == IngestRows(digest, env, run, s, rows[..|rows| - 1]).state
    requires t == IngestRows(digest, env, run, s, rows).state
    ensures |prev.table| <= |t.table| <= |prev.table| + 1 && t.table[..|prev.table|] == prev.table
  {
  }

  /** When the last row of a page adds a row to the table, that row is the
      candidate's record, stamped and judged by the next classifier call. */
  lemma LastRowAppends(digest: string -> string, env: Env, run: Run, s: StoreState, rows: seq<Row>,
                       prev: StoreState, t: StoreState)
    requires rows != []
    requires prev == IngestRows(digest, env, run, s, rows[..|rows| - 1]).state
    requires t == IngestRows(digest, env, run, s, rows).state
    requires |prev.table| < |t.table|
    ensures AppendedBy(digest, env, run, rows, |rows| - 1, prev.calls, t.table[|prev.table|]) == true
  {
    var c := ExtractRow(rows[|rows| - 1]).candidate;
    assert t == ProcessCandidate(digest, env, run, prev, c);
    assert !Settled(digest, prev.table, c);
  }

  /** `r` was appended for the candidate of some row of the page, with call number `call`. */
  ghost predicate ComesFromPage(digest: string -> string, env: Env, run: Run, rows: seq<Row>,
                                call: nat, r: Record) {
    exists j :: AppendedBy(digest, env, run, rows, j, call, r)
  }

  /** `table` is `before` followed by rows that the page explains, the `n`-th of
      them stamped by classifier call `calls + n`.
      A note on proof cost: the contracts below write `GrownBy(...) == true`
      rather than `GrownBy(...)`. Both say the same thing, but the first form
      keeps each proof that only passes the fact on from expanding the
      quantifier inside, which keeps those proofs cheap and stable. */
  ghost predicate GrownBy(digest: string -> string, env: Env, run: Run, rows: seq<Row>,
                          before: seq<Record>, calls: nat, table: seq<Record>) {
    && |before| <= |table| && table[..|before|] == before
    && forall k :: |before| <= k < |table| ==>
         ComesFromPage(digest, env, run, rows, calls + (k - |before|), table[k])
  }

  /** One more page row keeps `GrownBy`: earlier rows keep their explanation on
      the longer page, and a row the last page row appends is explained by it. */
  lemma GrownByStep(digest: string -> string, env: Env, run: Run, rows: seq<Row>,
                    before: seq<Record>, calls: nat, prev: seq<Record>, t: seq<Record>, last: nat)
    requires rows != []
    requires GrownBy(digest, env, run, rows[..|rows| - 1], before, calls, prev) == true
    requires |prev| <= |t| <= |prev| + 1 && t[..|prev|] == prev
    requires last == calls + (|prev| - |before|)
    requires |prev| < |t| ==> AppendedBy(digest, env, run, rows, |rows| - 1, last, t[|prev|]) == true
    ensures GrownBy(digest, env, run, rows, before, calls, t) == true
  {
    assert t[..|before|] == prev[..|before|];
    forall k | |before| <= k < |t|
      ensures ComesFromPage(digest, env, run, rows, calls + (k - |before|), t[k])
    {
      if k < |prev| {
        var j :| AppendedBy(digest, env, run, rows[..|rows| - 1], j, calls + (k - |before|), prev[k]);
        assert t[k] == t[..|prev|][k];
        AppendedByLongerPage(digest, env, run, rows, j, calls + (k - |before|), prev[k], t[k]);
      } else {
        assert AppendedBy(digest, env, run, rows, |rows| - 1, calls + (k - |before|), t[k]);
      }
    }
  }

  /** The last page row keeps `GrownBy`, given that the rows before it had it. */
  lemma LastRowGrows(digest: string -> string, env: Env, run: Run, s: StoreState, rows: seq<Row>,
                     prev: StoreState, t: StoreState)
    requires rows != []
    requires prev == IngestRows(digest, env, run, s, rows[..|rows| - 1]).state
    requires t == IngestRows(digest, env, run, s, rows).state
    requires GrownBy(digest, env, run, rows[..|rows| - 1], s.table, s.calls, prev.table) == true
    ensures GrownBy(digest, env, run, rows, s.table, s.calls, t.table) == true
  {
    LastRowExtends(digest, env, run, s, rows, prev, t);
    if |prev.table| < |t.table| {
      LastRowAppends(digest, env, run, s, rows, prev, t);
    }
    assert prev.calls == s.calls + (|prev.table| - |s.table|);
    GrownByStep(digest, env, run, rows, s.table, s.calls, prev.table, t.table, prev.calls);
  }

  /** Every row a run adds comes from a candidate of the page: its link is the
      prefix plus the candidate's href, its key is the hash over the unprefixed
      href, its info passed the "2024"/"English" test, its `skip_ai` is the
      negated verdict of the classifier call made for it, and its `created` is the
      time read after that call (the calls of one run are numbered in the order of
      the rows they store). */
  lemma {:induction false} IngestedRecordsComeFromRows(digest: string -> string, env: Env,
                                                       run: Run, s: StoreState, rows: seq<Row>)
    ensures GrownBy(digest, env, run, rows, s.table, s.calls, IngestRows(digest, env, run, s, rows).state.table) == true
    decreases |rows|
  {
    if rows == [] {
      assert IngestRows(digest, env, run, s, rows).state == s;
      assert s.table[..|s.table|] == s.table;
    } else {
      IngestedRecordsComeFromRows(digest, env, run, s, rows[..|rows| - 1]);
      LastRowGrows(digest, env, run, s, rows, IngestRows(digest, env, run, s, rows[..|rows| - 1]).state,
                   IngestRows(digest, env, run, s, rows).state);
    }
  }

  /** With a clock that only moves forward, the rows one run appends carry
      strictly increasing `created` times, in the order they were processed. */
  lemma RunStampsIncreasing(digest: string -> string, env: Env, run: Run, s: StoreState, rows: seq<Row>)
    requires StrictlyIncreasing(env.clock)
    ensures var t := IngestRows(digest, env, run, s, rows).state;
      forall i, j :: |s.table| <= i < j < |t.table| ==> t.table[i].created < t.table[j].created
  {
    IngestedRecordsComeFromRows(digest, env, run, s, rows);
  }

  /** A run keeps the keys of the table unique. */
  lemma {:induction false} IngestKeepsHashesUnique(digest: string -> string, env: Env,
                                                   run: Run, s: StoreState, rows: seq<Row>)
    requires HashesUnique(s.table)
    ensures HashesUnique(IngestRows(digest, env, run, s, rows).state.table)
    decreases |rows|
  {
    if rows != [] {
      var init := rows[..|rows| - 1];
      IngestKeepsHashesUnique(digest, env, run, s, init);
      var prev := IngestRows(digest, env, run, s, init).state;
      var t := IngestRows(digest, env, run, s, rows).state;
      if t != prev {
        var n := |prev.table|;
        forall i, j | 0 <= i < j < |t.table| ensures t.table[i].hash != t.table[j].hash {
          if j < n {
            assert t.table[i] == prev.table[i] && t.table[j] == prev.table[j];
          } else {
            assert t.table[i] == prev.table[i];
          }
        }
      }
    }
  }

  /** A candidate settled against a table stays settled once rows are appended. */
  lemma SettledStaysSettled(digest: string -> string, prev: seq<Record>, t: seq<Record>, c: Candidate)
    requires |prev| <= |t| && t[..|prev|] == prev && Settled(digest, prev, c)
    ensures Settled(digest, t, c)
  {
    var h := GenerateHash(digest, c.title, c.link, c.info);
    if Stored(prev, h) {
      var i :| 0 <= i < |prev| && prev[i].hash == h;
      assert t[i] == t[..|prev|][i];
    }
  }

  /** The last row of a page, when reached and yielding a candidate, leaves it
      settled. */
  lemma LastRowSettled(digest: string -> string, env: Env, run: Run, s: StoreState, rows: seq<Row>,
                       prev: StoreState, t: StoreState)
    requires rows != [] && ReachedRow(rows, |rows| - 1) && ExtractRow(rows[|rows| - 1]).Found?
    requires prev == IngestRows(digest, env, run, s, rows[..|rows| - 1]).state
    requires t == IngestRows(digest, env, run, s, rows).state
    ensures Settled(digest, t.table, ExtractRow(rows[|rows| - 1]).candidate)
  {
    var init := rows[..|rows| - 1];
    assert !HasMissingHref(init) by {
      forall j | 0 <= j < |init| ensures !ExtractRow(init[j]).MissingHref? {
        assert init[j] == rows[j];
      }
    }
    assert t == ProcessCandidate(digest, env, run, prev, ExtractRow(rows[|rows| - 1]).candidate);
  }

  /** After a run, every candidate on the page before the first `KeyError` is
      settled: its key is stored or its info fails the test. */
  lemma {:induction false} IngestSettlesRows(digest: string -> string, env: Env,
                                             run: Run, s: StoreState, rows: seq<Row>)
    ensures var t := IngestRows(digest, env, run, s, rows).state;
      forall j :: 0 <= j < |rows| && ReachedRow(rows, j) && ExtractRow(rows[j]).Found? ==>
        Settled(digest, t.table, ExtractRow(rows[j]).candidate)
    decreases |rows|
  {
    if rows != [] {
      var init := rows[..|rows| - 1];
      IngestSettlesRows(digest, env, run, s, init);
      var prev := IngestRows(digest, env, run, s, init).state;
      var t := IngestRows(digest, env, run, s, rows).state;
      LastRowExtends(digest, env, run, s, rows, prev, t);
      forall j | 0 <= j < |rows| && ReachedRow(rows, j) && ExtractRow(rows[j]).Found?
        ensures Settled(digest, t.table, ExtractRow(rows[j]).candidate)
      {
        if j < |init| {
          assert init[j] == rows[j];
          assert ReachedRow(init, j);
          SettledStaysSettled(digest, prev.table, t.table, ExtractRow(init[j]).candidate);
        } else {
          LastRowSettled(digest, env, run, s, rows, prev, t);
        }
      }
    }
  }

  /** A page whose reachable candidates are all settled changes nothing. */
  lemma {:induction false} SettledRowsChangeNothing(digest: string -> string, env: Env,
                                                    run: Run, s: StoreState, rows: seq<Row>)
    requires forall j :: 0 <= j < |rows| && ReachedRow(rows, j) && ExtractRow(rows[j]).Found? ==>
               Settled(digest, s.table, ExtractRow(rows[j]).candidate)
    ensures IngestRows(digest, env, run, s, rows).state == s
    decreases |rows|
  {
    if rows != [] {
      var init := rows[..|rows| - 1];
      forall j | 0 <= j < |init| && ReachedRow(init, j) && ExtractRow(init[j]).Found?
        ensures Settled(digest, s.table, ExtractRow(init[j]).candidate)
      {
        assert init[j] == rows[j];
        assert ReachedRow(rows, j);
      }
      SettledRowsChangeNothing(digest, env, run, s, init);
      if !IngestRows(digest, env, run, s, init).aborted {
        assert ReachedRow(rows, |rows| - 1) by {
          forall i | 0 <= i < |rows| - 1 ensures !ExtractRow(rows[i]).MissingHref? {
            assert rows[i] == init[i];
          }
        }
      }
    }
  }

  /** Running the same page again, at any later time, under any feed name and
      with any classifier, adds no row and makes no classifier call, and ends the
      same way (completed or aborted) as the first run. */
  lemma RerunAddsNothing(digest: string -> string, env: Env, env': Env,
                         run: Run, run': Run, s: StoreState, rows: seq<Row>)
    ensures var first := ParseAndStore(digest, env, run, s, Some(rows));
            var second := ParseAndStore(digest, env', run', first.state, Some(rows));
      && second.state.table == first.state.table
      && second.state.calls == first.state.calls
      && second.outcome == first.outcome
  {
    IngestSettlesRows(digest, env, run, s, rows);
    var first := ParseAndStore(digest, env, run, s, Some(rows));
    forall j | 0 <= j < |rows| && ReachedRow(rows, j) && ExtractRow(rows[j]).Found?
      ensures Settled(digest, first.state.table, ExtractRow(rows[j]).candidate)
    {
    }
    SettledRowsChangeNothing(digest, env', run', first.state, rows);
  }
}
