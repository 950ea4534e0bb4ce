# rss-sift ingestion core, modelled in Dafny

rss-sift scrapes listing pages on a schedule, turns each `div.row` of a page into a
candidate entry, drops entries it has already seen, asks a remote language model whether
the title is on topic, and republishes the accepted entries of each feed as RSS. This
project models the part of `rss-sift.py` with real decisions in it:

- `generate_hash`, the deduplication key (`fingerprint.dfy`);
- the parsing of the classifier's reply in `is_interesting_title` (`classifier.dfy`, over
  the string helpers in `text.dfy`);
- row extraction in `parse_and_store_feed` (`extract.dfy`);
- the store update of `parse_and_store_feed`, as functions and lemmas (`ingest.dfy`) and as
  the imperative method `App.FeedStore.ParseAndStoreFeed` (`app.dfy`) proved to end in the
  state those functions describe;
- the store queries: the entry selection of `generate_rss_feed`, the delete of
  `clean_feed` and the configuration lookup of `fetch_feed` (`feeds.dfy`, `app.dfy`).

Abstractions:

- The SHA-256 hex digest is a parameter `digest: string -> string`. Nothing about it is
  assumed, except in `OneFieldChangeChangesHash`, which assumes it injective.
- The remote model is a parameter `classify: (nat, string) -> ClassifierReply`. It maps
  the index of the call and the title to the streamed fragments, or to `Failed` for any
  exception. Indexing by call number lets two calls about the same title answer differently.
- The clock is a parameter `clock: nat -> int`: `clock(n)` is the time read right after
  classifier call `n`, which stamps the record stored for it (`created`). The time read
  after the loop, which becomes `last_fetched`, is the run's `now`.
- The functions and lemmas of `ingest.dfy` take both through `Env`: `judge(n, title)` is
  the verdict of call `n`. `Live(classify, clock)` builds it by parsing each reply with
  `IsInterestingTitle`, and the imperative method is proved against that environment.
- A fetched page is `Option<seq<Row>>`: `None` when `fetch_html` returned `None`, otherwise
  the page's `div.row` elements. Each row keeps only the parts the extraction reads.
- The database is the `FeedStore` class. `feed_data` is a sequence of records in insertion
  order, with the hash column unique. `feed_meta` is a map from feed name to
  `last_fetched`. A counter records the classifier calls made so far.

What the code decides, in its own terms: the classifier's verdict is whether `"yes"`
occurs anywhere in the lowercased, space-joined reply (rss-sift.py:105-106), so "eyes" and
"No, yes" count as yes; nothing else of the reply is read. An entry is stored only when its
additional info contains both `'2024'` and `'English'` (rss-sift.py:174-177); no year is
parsed out of it.

## Model

| member | source | states |
|---|---|---|
| `Fingerprint.SameConcatenationSameHash` | rss-sift.py:128-130 | triples whose plain concatenation is equal get the same key, whatever the digest |
| `Fingerprint.FieldBoundaryCollision` | rss-sift.py:128-130 | since no separator is hashed, title "ab" with link "c" collides with title "a" with link "bc" |
| `Fingerprint.OneFieldChangeChangesHash` | rss-sift.py:128-130 | with an injective digest, changing exactly one of title, link or info changes the key |
| `Text.Contains` | rss-sift.py:106 | Python's `p in s`: true exactly when `p` occurs at some index of `s` |
| `Text.StripKeepsContains` | rss-sift.py:105 | `strip()` neither creates nor removes an occurrence of a pattern that starts and ends with non-whitespace |
| `Text.StripEnds` | rss-sift.py:105 | what `strip()` leaves starts and ends with a non-whitespace character |
| `Text.LowerStripCommute` | rss-sift.py:105 | stripping and lowercasing commute |
| `Text.JoinContainsPart` | rss-sift.py:105 | every fragment is a substring of the space-joined reply |
| `Classifier.NormalizeReply` | rss-sift.py:105 | the normalised reply has no whitespace at either end, and contains "yes" exactly when the lowercased joined fragments do |
| `Classifier.IsInterestingTitle` | rss-sift.py:99-116 | a failed call gives false; otherwise the verdict is true iff "yes" occurs in the lowercased space-joined fragments, so stripping plays no part |
| `Classifier.AnyYesFragmentAccepts` | rss-sift.py:105-106 | one fragment containing "yes" in any letter case makes the verdict true whatever the rest says |
| `Classifier.SubstringVerdictExamples` | rss-sift.py:105-106 | "eyes" and "No, yes" are both accepted |
| `Classifier.RejectionExamples` | rss-sift.py:105-116 | an empty reply, " No " and a failed call are rejected |
| `Extract.FirstBoldDiv` | rss-sift.py:158-163 | the index of the first text-center div with a `<b>`; none before it has one; none when no div has one |
| `Extract.ExtractRow` | rss-sift.py:141-166 | a candidate exactly when article, h1, title link with href and a first bold div with non-empty text are all present, and then it is made of the link's text, its href and that div's text; a title link without href aborts, and only then |
| `Extract.EmptyFirstBoldDivDropsRow` | rss-sift.py:158-166 | whenever the first bold div has empty text the row is dropped, whatever later bold divs hold |
| `Extract.IncompleteRowYieldsNothing` | rss-sift.py:143-166 | a row missing the article, the h1 or the title link, or with no bold div, yields no candidate |
| `Ingest.FirstWithHash` | rss-sift.py:169 | `filter_by(hash=h).first()`: some row exactly when a row has key `h`, and then the first such row |
| `Ingest.PassesInfoFilter` | rss-sift.py:174-177 | the info is accepted iff "2024" and "English" both occur in it |
| `Ingest.ProcessCandidate` | rss-sift.py:168-194 | a stored key or info lacking "2024" or "English" leaves the store unchanged with no classifier call; otherwise one call and one appended record with prefixed link, key over the unprefixed link, `skip_ai = not verdict` and `created` read after that call |
| `Ingest.IngestRows` | rss-sift.py:139-194 | the loop never changes or removes existing records, leaves `last_fetched` alone, makes one classifier call per appended record, and aborts iff some row has a title link without href |
| `Ingest.ParseAndStore` | rss-sift.py:133-205 | a failed fetch changes nothing; otherwise the run aborts iff some row has a title link without href; a completed run sets only its own feed's `last_fetched` to `now`, creating the entry when missing; an aborted run leaves `last_fetched` unchanged; existing records are kept |
| `Ingest.AbortIsFinal` | rss-sift.py:155-156 | once a prefix of the rows has aborted, the remaining rows change nothing |
| `Ingest.AppendFreshKeepsUnique` | rss-sift.py:44 | appending a record whose key is not stored keeps the keys unique |
| `Ingest.IngestedRecordsComeFromRows` | rss-sift.py:168-194 | the `n`-th record a run appends comes from a page row's candidate, with the run's feed name, prefixed link and key over the unprefixed href; its info passed the filter; its `skip_ai` is the negated verdict of the run's `n`-th classifier call and its `created` the time read after that call |
| `Ingest.RunStampsIncreasing` | rss-sift.py:192 | with a clock that only moves forward, the records one run appends have strictly increasing `created`, in processing order |
| `Ingest.IngestKeepsHashesUnique` | rss-sift.py:168-171 | a run keeps the keys of the table unique |
| `Ingest.IngestSettlesRows` | rss-sift.py:168-194 | after a run every candidate before the first abort is stored or fails the "2024"/"English" test |
| `Ingest.SettledRowsChangeNothing` | rss-sift.py:168-177 | a page whose reachable candidates are all stored or filtered changes nothing and calls no classifier |
| `Ingest.RerunAddsNothing` | rss-sift.py:133-205 | ingesting the same page again adds no record, makes no classifier call and ends the same way, at any time, under any feed name and with any classifier |
| `Feeds.Published` | rss-sift.py:214 | the records of the feed with `skip_ai` false, and no others |
| `Feeds.PublishedCounts` | rss-sift.py:214 | each record of the feed not marked `skip_ai` occurs as often as in the table; every other record not at all |
| `Feeds.PublishedAppend` | rss-sift.py:214 | the filter keeps table order: filtering a concatenation concatenates the filtered parts |
| `Feeds.InsertByCreated` | rss-sift.py:214 | inserting into a newest-first list keeps it newest-first and adds exactly that record |
| `Feeds.SortNewestFirst` | rss-sift.py:214 | the result is newest-first and a permutation of the input |
| `Feeds.TakeKeepsNewest` | rss-sift.py:214 | cutting a newest-first list after k records leaves out nothing newer than the last one kept |
| `Feeds.LimitedSelection` | rss-sift.py:214 | the first min(100, n) records of a newest-first permutation are a newest-first sub-multiset of size min(100, n) holding the newest records |
| `Feeds.FeedEntries` | rss-sift.py:214 | at most 100 entries, all of the feed and not `skip_ai`, newest first, a sub-multiset of the published records; anything left out is no newer than the last entry |
| `Feeds.FeedEntriesDistinct` | rss-sift.py:44 | with unique keys, no record is published twice |
| `Feeds.UnknownFeedIsEmpty` | rss-sift.py:214 | a feed with no records gives an empty selection |
| `Feeds.RemoveFeed` | rss-sift.py:270 | keeps exactly the records of other feeds |
| `Feeds.RemoveFeedKeepsOtherFeeds` | rss-sift.py:270 | the deleted feed has no records left; every other feed's records are unchanged and in the same order |
| `Feeds.RemoveFeedKeepsHashesUnique` | rss-sift.py:270 | deleting keeps the keys unique |
| `Feeds.FindFeed` | rss-sift.py:252-253 | the first configured feed with the given name; none exactly when the name is missing or no feed has it |
| `App.FeedStore.constructor` | rss-sift.py:55-59 | the store starts from whatever `feeds.db` holds: any table with unique keys and any `feed_meta`, with no classifier call made yet |
| `App.FeedStore.StoreCandidate` | rss-sift.py:168-194 | one found candidate changes the store exactly as `Ingest.ProcessCandidate` says for the live classifier and clock, keeping the keys unique |
| `App.FeedStore.ParseAndStoreFeed` | rss-sift.py:133-206 | the loop keeps the keys unique and ends in exactly the state and outcome `Ingest.ParseAndStore` gives for the live classifier and clock |
| `App.FeedStore.CleanFeed` | rss-sift.py:264-272 | a missing or empty name answers 400 and changes nothing; otherwise the table becomes `RemoveFeed` of the old one, `feed_meta` untouched, and the route redirects |
| `App.FeedStore.FetchFeed` | rss-sift.py:249-261 | an unknown or missing name answers 404 and changes nothing; otherwise the store ends as `ParseAndStore` on the fetched page, redirecting, or answering 500 when the run raised |

## Left out

- HTTP serving, templating, `waitress.serve` and argparse (rss-sift.py:225-237, 288-297). Of the routes only the decisions of `/fetch_feed` and `/clean` are modelled.
- The `/fetch_all_feeds` route (rss-sift.py:239-247). It runs `parse_and_store_feed` for the configured feeds in order. One `try` wraps the whole loop, so it stops at the first run that raises (an `Aborted` run here) and answers 500, and the feeds after it are not fetched. It is not modelled separately.
- `schedule_jobs` and APScheduler (rss-sift.py:277-286). These are background concurrency and cron timing.
- `fetch_html` and `requests` (rss-sift.py:119-126). This is network I/O; its result is an input.
- BeautifulSoup parsing. The page arrives as a list of rows, and texts arrive already passed through `get_text(strip=True)`.
- `replicate.run` and the prompt text (rss-sift.py:76-102). This is the remote model; only its reply or failure is an input.
- The SHA-256 internals. The digest is an uninterpreted parameter.
- SQLAlchemy session and commit mechanics, and the `id` columns. Records become visible immediately, as autoflush makes them. Records added before a `KeyError` stay in the store.
- Store errors and exceptions inside `clean_feed` that the routes turn into 500.
- FeedGenerator XML rendering (rss-sift.py:209-223). Only the selected entry list is modelled. `add_entry` prepends by default, so the rendered XML lists the selected entries in reverse, oldest first; that reversal is not modelled.
- Logging.
- Wall-clock time. The clock is a parameter; the model does not relate a run's `now` to the `created` times read during the run.
- The order of entries with equal `created`. SQL leaves it unspecified; the model keeps table order.
- `Text.LowerChar`: lowercases ASCII letters only, whereas Python's `str.lower()` covers all of Unicode.
- rep.py, a standalone script that calls the remote model once.
