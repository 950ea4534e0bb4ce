/**
 * The store queries behind the routes: the entry selection of
 * `generate_rss_feed`, the bulk delete of `clean_feed` and the configuration
 * lookup of `fetch_feed`.
 */
module Feeds {
  import opened Wrappers
  import opened Ingest

  /** The `.limit(100)` of the feed query. */
  const FeedLimit: nat := 100

  /** One entry of `config['feeds']`. */
  datatype FeedConfig = FeedConfig(name: string, urlToFetch: string, urlPrefix: string, cron: string)

  function Min(a: nat, b: nat): nat {
    if a <= b then a else b
  }

  /** `filter_by(feed_name=name, skip_ai=False)`, in table order. */
  function Published(table: seq<Record>, name: string): (r: seq<Record>)
    ensures |r| <= |table|
    ensures forall x :: x in r <==> x in table && x.feedName == name && !x.skipAi
  {
    if table == [] then []
    else (if table[0].feedName == name && !table[0].skipAi then [table[0]] else [])
         + Published(table[1..], name)
  }

  /** The filter keeps each record of the feed not marked `skip_ai` as often as
      the table holds it, and nothing else. */
  lemma {:induction false} PublishedCounts(table: seq<Record>, name: string, x: Record)
    ensures multiset(Published(table, name))[x] ==
              if x.feedName == name && !x.skipAi then multiset(table)[x] else 0
  {
    if table != [] {
      assert table == [table[0]] + table[1..];
      PublishedCounts(table[1..], name, x);
    }
  }

  /** The filter keeps table order: filtering a concatenation is concatenating
      the filtered parts. */
  lemma {:induction false} PublishedAppend(a: seq<Record>, b: seq<Record>, name: string)
    ensures Published(a + b, name) == Published(a, name) + Published(b, name)
  {
    if a != [] {
      assert (a + b)[0] == a[0] && (a + b)[1..] == a[1..] + b;
      PublishedAppend(a[1..], b, name);
      var head := if a[0].feedName == name && !a[0].skipAi then [a[0]] else [];
      assert Published(a + b, name) == head + (Published(a[1..], name) + Published(b, name));
      ConcatAssoc(head, Published(a[1..], name), Published(b, name));
      assert Published(a, name) == head + Published(a[1..], name);
    } else {
      assert a + b == b;
    }
  }

  lemma ConcatAssoc(x: seq<Record>, y: seq<Record>, z: seq<Record>)
    ensures x + (y + z) == (x + y) + z
  {
  }

  /** A table with unique keys holds each record at most once. */
  lemma {:induction false} UniqueKeysNoRepeats(table: seq<Record>, x: Record)
    requires HashesUnique(table)
    ensures multiset(table)[x] <= 1
  {
    if table != [] {
      assert table == [table[0]] + table[1..];
      assert HashesUnique(table[1..]) by {
        forall i, j | 0 <= i < j < |table[1..]| ensures table[1..][i].hash != table[1..][j].hash {
          assert table[1..][i] == table[i + 1] && table[1..][j] == table[j + 1];
        }
      }
      UniqueKeysNoRepeats(table[1..], x);
      if table[0] == x {
        assert x !in table[1..] by {
          forall j | 0 <= j < |table[1..]| ensures table[1..][j] != x {
            assert table[1..][j] == table[j + 1];
          }
        }
      }
    }
  }

  /** A sequence in which no element occurs twice has distinct positions. */
  lemma NoRepeatsDistinct(s: seq<Record>)
    requires forall x :: multiset(s)[x] <= 1
    ensures forall i, j :: 0 <= i < j < |s| ==> s[i] != s[j]
  {
    forall i, j | 0 <= i < j < |s| ensures s[i] != s[j] {
      assert s == s[..j] + s[j..];
      assert s[i] in s[..j] && s[j] in s[j..];
      assert multiset(s)[s[j]] == multiset(s[..j])[s[j]] + multiset(s[j..])[s[j]];
    }
  }

  /** Records ordered by `created`, newest first. */
  ghost predicate NewestFirst(s: seq<Record>) {
    forall i, j :: 0 <= i < j < |s| ==> s[i].created >= s[j].created
  }

  /** A record no older than the head of a newest-first list can go in front of it. */
  lemma ConsNewestFirst(x: Record, s: seq<Record>)
    requires NewestFirst(s) && (s != [] ==> s[0].created <= x.created)
    ensures NewestFirst([x] + s)
  {
    var t := [x] + s;
    forall i, j | 0 <= i < j < |t| ensures t[i].created >= t[j].created {
      if i == 0 {
        assert t[j] == s[j - 1];
        assert s[0].created >= s[j - 1].created;
      } else {
        assert t[i] == s[i - 1] && t[j] == s[j - 1];
      }
    }
  }

  /** Puts `r` in front of the first record of `s` that is not newer than it. */
  function InsertByCreated(r: Record, s: seq<Record>): (t: seq<Record>)
    requires NewestFirst(s)
    ensures NewestFirst(t)
    ensures multiset(t) == multiset(s) + multiset{r}
    ensures t[0] == r || (s != [] && t[0] == s[0])
  {
    if s == [] || s[0].created <= r.created then
      ConsNewestFirst(r, s);
      [r] + s
    else
      assert NewestFirst(s[1..]);
      var rest := InsertByCreated(r, s[1..]);
      assert s == [s[0]] + s[1..];
      assert rest[0].created <= s[0].created by {
        if rest[0] != r {
          assert rest[0] == s[1..][0] == s[1];
        }
      }
      ConsNewestFirst(s[0], rest);
      [s[0]] + rest
  }

  /** `order_by(created.desc())`, as a stable insertion sort: records created at
      the same time keep their table order. */
  function SortNewestFirst(s: seq<Record>): (t: seq<Record>)
    ensures NewestFirst(t)
    ensures multiset(t) == multiset(s)
  {
    if s == [] then []
    else
      assert s == [s[0]] + s[1..];
      InsertByCreated(s[0], SortNewestFirst(s[1..]))
  }

  /** Cutting a newest-first list after `k` records keeps the `k` newest: every
      record left out is no newer than the last one kept. */
  lemma TakeKeepsNewest(s: seq<Record>, k: nat)
    requires NewestFirst(s) && 0 < k <= |s|
    ensures multiset(s[..k]) <= multiset(s)
    ensures forall x :: x in multiset(s) - multiset(s[..k]) ==> x.created <= s[k - 1].created
  {
    assert s == s[..k] + s[k..];
    assert multiset(s) == multiset(s[..k]) + multiset(s[k..]);
    forall x | x in multiset(s) - multiset(s[..k]) ensures x.created <= s[k - 1].created {
      assert x in multiset(s[k..]);
      assert x in s[k..];
      var i :| 0 <= i < |s[k..]| && s[k..][i] == x;
      assert s[k + i] == x;
    }
  }

  /** The first `Min(FeedLimit, |p|)` records of a newest-first ordering of `p`. */
  lemma {:induction false} LimitedSelection(p: seq<Record>, sorted: seq<Record>)
    requires NewestFirst(sorted) && multiset(sorted) == multiset(p)
    ensures var entries := sorted[..Min(FeedLimit, |sorted|)];
      && |entries| == Min(FeedLimit, |p|)
      && (forall x :: x in entries ==> x in p)
      && NewestFirst(entries)
      && multiset(entries) <= multiset(p)
      && forall x :: x in multiset(p) - multiset(entries) ==>
           |entries| == FeedLimit && x.created <= entries[|entries| - 1].created
  {
    var k := Min(FeedLimit, |sorted|);
    assert |sorted| == |multiset(sorted)| == |p|;
    if k == 0 {
      assert multiset(p) == multiset{};
    } else {
      TakeKeepsNewest(sorted, k);
      if k == |sorted| {
        assert sorted[..k] == sorted;
      }
      forall x | x in sorted[..k] ensures x in p {
        assert x in multiset(sorted);
      }
    }
  }

  /** The entries `generate_rss_feed` selects for feed `name`: at most 100 of the
      feed's records not marked `skip_ai`, newest first, and no published record
      left out is newer than the last one selected. */
  function FeedEntries(table: seq<Record>, name: string): (entries: seq<Record>)
    ensures |entries| == Min(FeedLimit, |Published(table, name)|)
    ensures forall x :: x in entries ==> x in table && x.feedName == name && !x.skipAi
    ensures NewestFirst(entries)
    ensures multiset(entries) <= multiset(Published(table, name))
    ensures forall x :: x in multiset(Published(table, name)) - multiset(entries) ==>
              |entries| == FeedLimit && x.created <= entries[|entries| - 1].created
  {
    var sorted := SortNewestFirst(Published(table, name));
    LimitedSelection(Published(table, name), sorted);
    sorted[..Min(FeedLimit, |sorted|)]
  }

  /** With unique keys (the column's `unique=True`), no record is published twice. */
  lemma FeedEntriesDistinct(table: seq<Record>, name: string)
    requires HashesUnique(table)
    ensures var entries := FeedEntries(table, name);
      forall i, j :: 0 <= i < j < |entries| ==> entries[i] != entries[j]
  {
    var entries := FeedEntries(table, name);
    forall x ensures multiset(entries)[x] <= 1 {
      UniqueKeysNoRepeats(table, x);
      PublishedCounts(table, name, x);
    }
    NoRepeatsDistinct(entries);
  }

  /** A feed with no records (an unknown name, say) publishes an empty list. */
  lemma UnknownFeedIsEmpty(table: seq<Record>, name: string)
    requires forall i :: 0 <= i < |table| ==> table[i].feedName != name
    ensures FeedEntries(table, name) == []
  {
    NoMemberMeansEmpty(Published(table, name));
  }

  lemma NoMemberMeansEmpty(s: seq<Record>)
    ensures (forall x :: x !in s) ==> s == []
  {
    if s != [] {
      assert s[0] in s;
    }
  }

  /** The records of feed `name`, in table order. */
  function OfFeed(table: seq<Record>, name: string): (r: seq<Record>)
    ensures forall x :: x in r <==> x in table && x.feedName == name
  {
    if table == [] then []
    else (if table[0].feedName == name then [table[0]] else []) + OfFeed(table[1..], name)
  }

  /** `query(FeedData).filter_by(feed_name=name).delete()`. */
  function RemoveFeed(table: seq<Record>, name: string): (r: seq<Record>)
    ensures forall x :: x in r <==> x in table && x.feedName != name
  {
    if table == [] then []
    else (if table[0].feedName == name then [] else [table[0]]) + RemoveFeed(table[1..], name)
  }

  /** Deleting a feed removes all of its records and leaves every other feed's
      records exactly as they were, in the same order. */
  lemma {:induction false} RemoveFeedKeepsOtherFeeds(table: seq<Record>, name: string, other: string)
    ensures OfFeed(RemoveFeed(table, name), name) == []
    ensures other != name ==> OfFeed(RemoveFeed(table, name), other) == OfFeed(table, other)
  {
    if table != [] {
      RemoveFeedKeepsOtherFeeds(table[1..], name, other);
      var head := if table[0].feedName == name then [] else [table[0]];
      OfFeedAppend(head, RemoveFeed(table[1..], name), name);
      OfFeedAppend(head, RemoveFeed(table[1..], name), other);
    }
  }

  lemma {:induction false} OfFeedAppend(a: seq<Record>, b: seq<Record>, name: string)
    ensures OfFeed(a + b, name) == OfFeed(a, name) + OfFeed(b, name)
  {
    if a != [] {
      assert (a + b)[0] == a[0] && (a + b)[1..] == a[1..] + b;
      OfFeedAppend(a[1..], b, name);
      var head := if a[0].feedName == name then [a[0]] else [];
      assert OfFeed(a + b, name) == head + (OfFeed(a[1..], name) + OfFeed(b, name));
      ConcatAssoc(head, OfFeed(a[1..], name), OfFeed(b, name));
      assert OfFeed(a, name) == head + OfFeed(a[1..], name);
    } else {
      assert a + b == b;
    }
  }

  /** Dropping the first row of a table with unique keys leaves unique keys, all
      different from the dropped row's key. */
  lemma TailHashes(table: seq<Record>)
    requires table != [] && HashesUnique(table)
    ensures HashesUnique(table[1..])
    ensures forall x :: x in table[1..] ==> x.hash != table[0].hash
  {
    forall x | x in table[1..] ensures x.hash != table[0].hash {
      var m :| 0 <= m < |table[1..]| && table[1..][m] == x;
      assert table[m + 1] == x;
    }
    forall i, j | 0 <= i < j < |table[1..]| ensures table[1..][i].hash != table[1..][j].hash {
      assert table[1..][i] == table[i + 1] && table[1..][j] == table[j + 1];
    }
  }

  /** Deleting records keeps the keys unique. */
  lemma {:induction false} RemoveFeedKeepsHashesUnique(table: seq<Record>, name: string)
    requires HashesUnique(table)
    ensures HashesUnique(RemoveFeed(table, name))
  {
    if table != [] {
      TailHashes(table);
      RemoveFeedKeepsHashesUnique(table[1..], name);
      var rest := RemoveFeed(table[1..], name);
      if table[0].feedName != name {
        var r := [table[0]] + rest;
        forall i, j | 0 <= i < j < |r| ensures r[i].hash != r[j].hash {
          assert r[j] == rest[j - 1];
          if i == 0 {
            assert rest[j - 1] in rest;
          } else {
            assert r[i] == rest[i - 1];
          }
        }
      }
    }
  }

  /** `next((f for f in config['feeds'] if f['name'] == feed_name), None)`: the
      first configured feed with that name; none when the name is absent from the
      form or unknown. */
  function FindFeed(configs: seq<FeedConfig>, name: Option<string>): (r: Option<FeedConfig>)
    ensures r.None? <==> forall i :: 0 <= i < |configs| ==> Some(configs[i].name) != name
    ensures r.Some? ==> exists i :: 0 <= i < |configs| && configs[i] == r.value && Some(r.value.name) == name
                                    && forall j :: 0 <= j < i ==> Some(configs[j].name) != name
  {
    if configs == [] then None
    else if Some(configs[0].name) == name then Some(configs[0])
    else
      var r := FindFeed(configs[1..], name);
      if r.Some? then
        var i :| 0 <= i < |configs[1..]| && configs[1..][i] == r.value && Some(r.value.name) == name
                 && forall j :: 0 <= j < i ==> Some(configs[1..][j].name) != name;
        assert configs[i + 1] == r.value;
        assert forall j :: 0 <= j < i + 1 ==> Some(configs[j].name) != name by {
          forall j | 0 <= j < i + 1 ensures Some(configs[j].name) != name {
            if j > 0 { assert configs[j] == configs[1..][j - 1]; }
          }
        }
        r
      else
        assert forall i :: 0 <= i < |configs| ==> Some(configs[i].name) != name by {
          forall i | 0 <= i < |configs| ensures Some(configs[i].name) != name {
            if i > 0 { assert configs[i] == configs[1..][i - 1]; }
          }
        }
        r
  }
}
