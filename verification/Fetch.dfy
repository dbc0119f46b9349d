/** The backlog fetcher (server/cmd/aq/fetch.go): it asks the archive for pages, newest first,
    and moves the upper end of the range just below the oldest message of each page. */
module Fetch {
  import opened Common

  /** An archived message; decodable if a sensor reading can be made of its payload. */
  datatype Datum = Datum(received: int, decodable: bool, payload: string)

  const BEGINNING_OF_TIME := 1585094400000

  function Between(a: seq<Datum>, since: int, until: int): (r: seq<Datum>)
    ensures |r| <= |a|
  {
    if a == [] then []
    else (if since <= a[0].received <= until then [a[0]] else []) + Between(a[1..], since, until)
  }

  function Decodable(a: seq<Datum>): (r: seq<Datum>)
  {
    if a == [] then [] else (if a[0].decodable then [a[0]] else []) + Decodable(a[1..])
  }

  /** The archive answers with the newest messages of a range, at most a page of them. */
  function Page(a: seq<Datum>, since: int, until: int, pageSize: nat): seq<Datum> {
    var r := Between(a, since, until);
    r[..Min(pageSize, |r|)]
  }

  predicate Descending(a: seq<Datum>) {
    forall i, j :: 0 <= i < j < |a| ==> a[i].received >= a[j].received
  }

  predicate StrictlyDescending(a: seq<Datum>) {
    forall i, j :: 0 <= i < j < |a| ==> a[i].received > a[j].received
  }

  // ---------------------------------------------------------------------------
  // Ranges of a descending archive
  // ---------------------------------------------------------------------------

  lemma {:induction false} BetweenMembers(a: seq<Datum>, since: int, until: int)
    ensures forall d :: d in Between(a, since, until) <==> d in a && since <= d.received <= until
  {
    if a != [] {
      BetweenMembers(a[1..], since, until);
      assert a == [a[0]] + a[1..];
    }
  }

  lemma {:induction false} DecodableMembers(a: seq<Datum>)
    ensures forall d :: d in Decodable(a) <==> d in a && d.decodable
  {
    if a != [] {
      DecodableMembers(a[1..]);
      assert a == [a[0]] + a[1..];
    }
  }

  lemma {:induction false} BetweenIsDescending(a: seq<Datum>, since: int, until: int)
    requires Descending(a)
    ensures Descending(Between(a, since, until))
  {
    if a != [] {
      BetweenIsDescending(a[1..], since, until);
      BetweenMembers(a[1..], since, until);
      var rest := Between(a[1..], since, until);
      forall j | 0 <= j < |rest|
        ensures rest[j].received <= a[0].received
      {
        assert rest[j] in rest && rest[j] in a[1..];
      }
    }
  }

  lemma BetweenCons(d: Datum, rest: seq<Datum>, since: int, until: int)
    ensures Between([d] + rest, since, until) ==
            (if since <= d.received <= until then [d] else []) + Between(rest, since, until)
  {
    assert ([d] + rest)[1..] == rest;
  }

  lemma {:induction false} BetweenTwice(a: seq<Datum>, since: int, until: int, u: int)
    requires u <= until
    ensures Between(Between(a, since, until), since, u) == Between(a, since, u)
  {
    if a != [] {
      var rest := Between(a[1..], since, until);
      BetweenTwice(a[1..], since, until, u);
      if since <= a[0].received <= until {
        BetweenCons(a[0], rest, since, u);
      } else {
        assert Between(a, since, until) == rest;
      }
    }
  }

  lemma {:induction false} BetweenSuffix(a: seq<Datum>, since: int, u: int, n: nat)
    requires n <= |a| && (forall k :: 0 <= k < n ==> a[k].received > u)
    requires forall k :: n <= k < |a| ==> since <= a[k].received <= u
    ensures Between(a, since, u) == a[n..]
  {
    if a != [] {
      if n > 0 {
        BetweenSuffix(a[1..], since, u, n - 1);
      } else {
        BetweenSuffix(a[1..], since, u, 0);
        assert a[1..][0..] == a[1..];
      }
    }
  }

  lemma {:induction false} BetweenShorter(a: seq<Datum>, since: int, u: int, n: nat)
    requires n <= |a| && forall k :: 0 <= k < n ==> a[k].received > u
    ensures |Between(a, since, u)| <= |a| - n
  {
    if n > 0 {
      BetweenShorter(a[1..], since, u, n - 1);
    }
  }

  // ---------------------------------------------------------------------------
  // What the loop collects
  // ---------------------------------------------------------------------------

  /** What the loop looks at after a page: everything older than the page's last message. */
  function AfterPage(range: seq<Datum>, since: int, pageSize: nat): (rest: seq<Datum>)
    requires Descending(range) && pageSize > 0 && range != []
    ensures Descending(rest) && |rest| < |range|
  {
    var n := Min(pageSize, |range|);
    var u := range[n - 1].received - 1;
    BetweenIsDescending(range, since, u);
    BetweenShorter(range, since, u, n);
    Between(range, since, u)
  }

  /** The pages of a range, one after the other. */
  function Collected(range: seq<Datum>, since: int, pageSize: nat): (r: seq<Datum>)
    requires Descending(range) && pageSize > 0
    decreases |range|
  {
    if range == [] then []
    else range[..Min(pageSize, |range|)] + Collected(AfterPage(range, since, pageSize), since, pageSize)
  }

  /** No page ends between two messages of the same receive time. */
  predicate PagesSplitCleanly(range: seq<Datum>, pageSize: nat)
    requires pageSize > 0
    decreases |range|
  {
    |range| <= pageSize ||
    (range[pageSize - 1].received > range[pageSize].received && PagesSplitCleanly(range[pageSize..], pageSize))
  }

  lemma SplitsCleanlyIff(range: seq<Datum>, pageSize: nat)
    requires pageSize > 0 && (pageSize < |range| ==> range[pageSize - 1].received > range[pageSize].received)
    ensures PagesSplitCleanly(range, pageSize) <==> PagesSplitCleanly(range[Min(pageSize, |range|)..], pageSize)
  {
  }

  /** In a descending range, a page that ends cleanly is newer than the rest. */
  lemma CleanCut(range: seq<Datum>, n: nat)
    requires Descending(range) && 0 < n <= |range| && (n < |range| ==> range[n - 1].received > range[n].received)
    ensures forall k :: 0 <= k < n ==> range[k].received > range[n - 1].received - 1
    ensures forall k :: n <= k < |range| ==> range[k].received <= range[n - 1].received - 1
  {
    forall k | 0 <= k < |range|
      ensures if k < n then range[k].received >= range[n - 1].received else range[k].received <= range[n].received
    {
    }
  }

  lemma AfterCleanPage(range: seq<Datum>, since: int, pageSize: nat)
    requires Descending(range) && pageSize > 0 && range != []
    requires forall k :: 0 <= k < |range| ==> range[k].received >= since
    requires pageSize < |range| ==> range[pageSize - 1].received > range[pageSize].received
    ensures AfterPage(range, since, pageSize) == range[Min(pageSize, |range|)..]
  {
    var n := Min(pageSize, |range|);
    CleanCut(range, n);
    BetweenSuffix(range, since, range[n - 1].received - 1, n);
  }

  lemma AfterTornPage(range: seq<Datum>, since: int, pageSize: nat)
    requires Descending(range) && 0 < pageSize < |range|
    requires range[pageSize - 1].received == range[pageSize].received
    ensures |AfterPage(range, since, pageSize)| < |range| - pageSize
  {
    BetweenShorter(range, since, range[pageSize - 1].received - 1, pageSize + 1);
  }

  lemma {:induction false} CollectedIsShorter(range: seq<Datum>, since: int, pageSize: nat)
    requires Descending(range) && pageSize > 0
    ensures |Collected(range, since, pageSize)| <= |range|
    decreases |range|
  {
    if range != [] {
      AfterPageIsShorter(range, since, pageSize);
      CollectedIsShorter(AfterPage(range, since, pageSize), since, pageSize);
    }
  }

  lemma AfterPageIsShorter(range: seq<Datum>, since: int, pageSize: nat)
    requires Descending(range) && pageSize > 0 && range != []
    ensures |AfterPage(range, since, pageSize)| <= |range| - Min(pageSize, |range|)
  {
    var n := Min(pageSize, |range|);
    BetweenShorter(range, since, range[n - 1].received - 1, n);
  }

  lemma TornIsIncomplete(range: seq<Datum>, since: int, pageSize: nat)
    requires Descending(range) && 0 < pageSize < |range|
    requires range[pageSize - 1].received == range[pageSize].received
    ensures |Collected(range, since, pageSize)| < |range|
  {
    AfterTornPage(range, since, pageSize);
    CollectedIsShorter(AfterPage(range, since, pageSize), since, pageSize);
  }

  lemma CleanIsCompleteIff(range: seq<Datum>, since: int, pageSize: nat, rest: seq<Datum>)
    requires Descending(range) && pageSize > 0 && range != []
    requires rest == AfterPage(range, since, pageSize) == range[Min(pageSize, |range|)..]
    ensures Collected(range, since, pageSize) == range <==> Collected(rest, since, pageSize) == rest
  {
    var n := Min(pageSize, |range|);
    assert range == range[..n] + rest;
    SamePrefix(range[..n], Collected(rest, since, pageSize), rest);
  }

  /** Paging covers a range completely exactly when no page ends between two messages of the
      same receive time; otherwise the rest of those are skipped. */
  lemma {:induction false} CollectedIsCompleteIff(range: seq<Datum>, since: int, pageSize: nat)
    requires Descending(range) && pageSize > 0 && forall k :: 0 <= k < |range| ==> range[k].received >= since
    ensures Collected(range, since, pageSize) == range <==> PagesSplitCleanly(range, pageSize)
    decreases |range|
  {
    if range != [] {
      if pageSize < |range| && range[pageSize - 1].received == range[pageSize].received {
        TornIsIncomplete(range, since, pageSize);
      } else {
        AfterCleanPage(range, since, pageSize);
        var rest := range[Min(pageSize, |range|)..];
        CleanIsCompleteIff(range, since, pageSize, rest);
        CollectedIsCompleteIff(rest, since, pageSize);
        SplitsCleanlyIff(range, pageSize);
      }
    }
  }

  lemma SamePrefix(x: seq<Datum>, y: seq<Datum>, z: seq<Datum>)
    ensures x + y == x + z <==> y == z
  {
    if x + y == x + z {
      assert y == (x + y)[|x|..];
      assert z == (x + z)[|x|..];
    }
  }

  lemma {:induction false} StrictSplitsCleanly(range: seq<Datum>, pageSize: nat)
    requires StrictlyDescending(range) && pageSize > 0
    ensures PagesSplitCleanly(range, pageSize)
    decreases |range|
  {
    if |range| > pageSize {
      StrictSplitsCleanly(range[pageSize..], pageSize);
    }
  }

  lemma {:induction false} StrictBetween(a: seq<Datum>, since: int, until: int)
    requires StrictlyDescending(a)
    ensures StrictlyDescending(Between(a, since, until))
  {
    if a != [] {
      StrictBetween(a[1..], since, until);
      BetweenMembers(a[1..], since, until);
      var rest := Between(a[1..], since, until);
      forall j | 0 <= j < |rest|
        ensures rest[j].received < a[0].received
      {
        assert rest[j] in rest && rest[j] in a[1..];
      }
    }
  }

  lemma {:induction false} DecodableConcat(x: seq<Datum>, y: seq<Datum>)
    ensures Decodable(x + y) == Decodable(x) + Decodable(y)
  {
    if x == [] {
      assert x + y == y;
    } else {
      DecodableConcat(x[1..], y);
      assert (x + y)[0] == x[0] && (x + y)[1..] == x[1..] + y;
      var first, a, b := if x[0].decodable then [x[0]] else [], Decodable(x[1..]), Decodable(y);
      assert first + (a + b) == (first + a) + b;
    }
  }

  // ---------------------------------------------------------------------------
  // Execute
  // ---------------------------------------------------------------------------

  /** Where to start: just after the newest message in the store, if there is one. */
  function Since(stored: seq<Datum>): int {
    if |stored| == 0 then BEGINNING_OF_TIME else stored[0].received + 1
  }

  lemma CollectedStep(sofar: seq<Datum>, range: seq<Datum>, since: int, pageSize: nat, data: seq<Datum>)
    requires Descending(range) && pageSize > 0 && range != [] && data == range[..Min(pageSize, |range|)]
    ensures sofar + Collected(range, since, pageSize) ==
            sofar + data + Collected(AfterPage(range, since, pageSize), since, pageSize)
  {
  }

  lemma BetweenIsEarly(a: seq<Datum>, since: int, until: int, k: nat)
    requires k < |Between(a, since, until)|
    ensures Between(a, since, until)[k].received <= until
  {
    BetweenMembers(a, since, until);
    assert Between(a, since, until)[k] in Between(a, since, until);
  }

  /** Asking the archive again below the last message of a page moves past that page. */
  lemma NextRange(archive: seq<Datum>, since: int, until: int, pageSize: nat, data: seq<Datum>)
    requires pageSize > 0 && data == Page(archive, since, until, pageSize) && data != []
    requires Descending(Between(archive, since, until))
    ensures Between(archive, since, data[|data| - 1].received - 1) ==
            AfterPage(Between(archive, since, until), since, pageSize)
  {
    var range := Between(archive, since, until);
    assert data[|data| - 1] == range[Min(pageSize, |range|) - 1];
    BetweenIsEarly(archive, since, until, Min(pageSize, |range|) - 1);
    BetweenTwice(archive, since, until, data[|data| - 1].received - 1);
  }

  /** The paging loop of Execute. */
  method FetchLoop(archive: seq<Datum>, since: int, now: int, pageSize: nat)
    returns (published: seq<Datum>, countTotal: nat)
    requires pageSize > 0 && Descending(archive)
    ensures Descending(Between(archive, since, now))
    ensures published == Decodable(Collected(Between(archive, since, now), since, pageSize))
    ensures countTotal == |published|
  {
    var until := now;
    countTotal := 0;
    published := [];
    BetweenIsDescending(archive, since, now);
    ghost var range := Between(archive, since, now);
    ghost var all, sofar := Collected(range, since, pageSize), [];
    assert sofar + all == all;
    while true
      invariant range == Between(archive, since, until) && Descending(range)
      invariant published == Decodable(sofar) && countTotal == |published|
      invariant all == sofar + Collected(range, since, pageSize)
      decreases |range|
    {
      var data := Page(archive, since, until, pageSize);
      if |data| == 0 {
        break;
      }
      published, countTotal := PublishPage(data, published, countTotal);
      DecodableConcat(sofar, data);
      CollectedStep(sofar, range, since, pageSize, data);
      NextRange(archive, since, until, pageSize, data);
      until := data[|data| - 1].received - 1;
      sofar, range := sofar + data, AfterPage(range, since, pageSize);
    }
    assert sofar + [] == sofar;
  }

  /** The inner loop: publish what can be decoded, skip the rest. */
  method PublishPage(data: seq<Datum>, before: seq<Datum>, count: nat) returns (published: seq<Datum>, countTotal: nat)
    ensures published == before + Decodable(data)
    ensures countTotal == count + |Decodable(data)|
  {
    published, countTotal := before, count;
    for i := 0 to |data|
      invariant published == before + Decodable(data[..i])
      invariant countTotal == count + |Decodable(data[..i])|
    {
      assert data[..i + 1] == data[..i] + [data[i]];
      DecodableConcat(data[..i], [data[i]]);
      assert [data[i]][1..] == [];
      if data[i].decodable {
        published := published + [data[i]];
        countTotal := countTotal + 1;
      }
    }
    assert data[..|data|] == data;
  }

  lemma BetweenIsLate(a: seq<Datum>, since: int, until: int)
    ensures forall k :: 0 <= k < |Between(a, since, until)| ==> Between(a, since, until)[k].received >= since
  {
    BetweenMembers(a, since, until);
    forall k | 0 <= k < |Between(a, since, until)|
      ensures Between(a, since, until)[k].received >= since
    {
      assert Between(a, since, until)[k] in Between(a, since, until);
    }
  }

  /** With distinct receive times the loop publishes every decodable message of the range
      exactly once, newest first. */
  lemma FetchIsComplete(archive: seq<Datum>, since: int, now: int, pageSize: nat)
    requires pageSize > 0 && StrictlyDescending(archive)
    ensures Descending(Between(archive, since, now))
    ensures Collected(Between(archive, since, now), since, pageSize) == Between(archive, since, now)
  {
    BetweenIsDescending(archive, since, now);
    BetweenIsLate(archive, since, now);
    StrictBetween(archive, since, now);
    StrictSplitsCleanly(Between(archive, since, now), pageSize);
    CollectedIsCompleteIff(Between(archive, since, now), since, pageSize);
  }

  lemma InSecond(x: seq<Datum>, y: seq<Datum>, d: Datum)
    requires d in x + y && d !in x
    ensures d in y
  {
  }

  lemma AfterPageMembers(range: seq<Datum>, since: int, pageSize: nat, d: Datum)
    requires Descending(range) && pageSize > 0 && range != [] && d in AfterPage(range, since, pageSize)
    ensures d in range
  {
    BetweenMembers(range, since, range[Min(pageSize, |range|) - 1].received - 1);
  }

  lemma {:induction false} CollectedIsFromRange(range: seq<Datum>, since: int, pageSize: nat, d: Datum)
    requires Descending(range) && pageSize > 0 && d in Collected(range, since, pageSize)
    ensures d in range
    decreases |range|
  {
    var page, rest := range[..Min(pageSize, |range|)], AfterPage(range, since, pageSize);
    if d !in page {
      InSecond(page, Collected(rest, since, pageSize), d);
      CollectedIsFromRange(rest, since, pageSize, d);
      AfterPageMembers(range, since, pageSize, d);
    }
  }

  // ---------------------------------------------------------------------------
  // From run to run
  // ---------------------------------------------------------------------------

  /** What a run that finds the given store publishes. */
  function PublishedBy(stored: seq<Datum>, archive: seq<Datum>, now: int, pageSize: nat): seq<Datum>
    requires pageSize > 0 && Descending(archive)
  {
    BetweenIsDescending(archive, Since(stored), now);
    Decodable(Collected(Between(archive, Since(stored), now), Since(stored), pageSize))
  }

  /** Newer than the newest message stored. */
  predicate Newer(stored: seq<Datum>, d: Datum) {
    stored != [] ==> d.received > stored[0].received
  }

  /** A run publishes nothing but messages of the archive that are newer than the newest stored, or
      not older than the beginning of time if there is none. */
  lemma PublishedIsRecent(stored: seq<Datum>, archive: seq<Datum>, now: int, pageSize: nat, d: Datum)
    requires pageSize > 0 && Descending(archive) && d in PublishedBy(stored, archive, now, pageSize)
    ensures d in archive && d.decodable && d.received <= now
    ensures Newer(stored, d) && (stored == [] ==> d.received >= 1585094400000)
  {
    var since := Since(stored);
    var range := Between(archive, since, now);
    BetweenIsDescending(archive, since, now);
    DecodableMembers(Collected(range, since, pageSize));
    CollectedIsFromRange(range, since, pageSize, d);
    BetweenMembers(archive, since, now);
  }

  /** A later run, starting from a store that holds (newest first) at least everything an
      earlier run published, publishes none of it again, whatever the archive has become. */
  lemma LaterRunRepublishesNothing(stored: seq<Datum>, archive: seq<Datum>, now: int, pageSize: nat, d: Datum)
    requires pageSize > 0 && Descending(archive) && Descending(stored) && d in stored
    ensures d !in PublishedBy(stored, archive, now, pageSize)
  {
    var k :| 0 <= k < |stored| && stored[k] == d;
    assert stored[0].received >= stored[k].received;
    if d in PublishedBy(stored, archive, now, pageSize) {
      PublishedIsRecent(stored, archive, now, pageSize, d);
    }
  }

  /** A message that should be in the store by now, and is not. */
  predicate Missing(stored: seq<Datum>, archive: seq<Datum>, now: int, d: Datum) {
    && d in archive && d !in stored && d.decodable && d.received <= now
    && (stored == [] ==> d.received >= 1585094400000)
  }

  lemma MissingIsPublished(stored: seq<Datum>, archive: seq<Datum>, now: int, pageSize: nat, d: Datum)
    requires pageSize > 0 && Descending(archive)
    requires PagesSplitCleanly(Between(archive, Since(stored), now), pageSize)
    requires Missing(stored, archive, now, d) && Newer(stored, d)
    ensures d in PublishedBy(stored, archive, now, pageSize)
  {
    var since := Since(stored);
    var range := Between(archive, since, now);
    BetweenIsDescending(archive, since, now);
    BetweenIsLate(archive, since, now);
    CollectedIsCompleteIff(range, since, pageSize);
    BetweenMembers(archive, since, now);
    DecodableMembers(range);
  }

  /** A run brings in every missing message exactly if all of them are newer than the newest
      message stored. */
  lemma LaterRunCoversIff(stored: seq<Datum>, archive: seq<Datum>, now: int, pageSize: nat)
    requires pageSize > 0 && Descending(archive)
    requires PagesSplitCleanly(Between(archive, Since(stored), now), pageSize)
    ensures (forall d :: Missing(stored, archive, now, d) ==> d in PublishedBy(stored, archive, now, pageSize)) <==>
            (forall d :: Missing(stored, archive, now, d) ==> Newer(stored, d))
  {
    forall d | Missing(stored, archive, now, d)
      ensures d in PublishedBy(stored, archive, now, pageSize) <==> Newer(stored, d)
    {
      if Newer(stored, d) {
        MissingIsPublished(stored, archive, now, pageSize, d);
      } else if d in PublishedBy(stored, archive, now, pageSize) {
        PublishedIsRecent(stored, archive, now, pageSize, d);
      }
    }
  }

  lemma {:induction false} StrictDecodable(a: seq<Datum>)
    requires StrictlyDescending(a)
    ensures StrictlyDescending(Decodable(a))
  {
    if a != [] {
      StrictDecodable(a[1..]);
      DecodableMembers(a[1..]);
      var rest := Decodable(a[1..]);
      forall j | 0 <= j < |rest|
        ensures rest[j].received < a[0].received
      {
        assert rest[j] in rest && rest[j] in a[1..];
      }
    }
  }

  /** If a run is interrupted after its first messages have been stored, the others are lost to
      every later run, whatever the archive is then. */
  lemma InterruptedRunLosesTheRest(stored: seq<Datum>, archive: seq<Datum>, now: int, pageSize: nat, k: nat, j: nat,
                                   archive': seq<Datum>, now': int, pageSize': nat)
    requires pageSize > 0 && StrictlyDescending(archive) && pageSize' > 0 && Descending(archive')
    requires 0 < k <= j < |PublishedBy(stored, archive, now, pageSize)|
    ensures var all := PublishedBy(stored, archive, now, pageSize);
            all[j] !in PublishedBy(all[..k] + stored, archive', now', pageSize')
  {
    var all := PublishedBy(stored, archive, now, pageSize);
    FetchIsComplete(archive, Since(stored), now, pageSize);
    StrictBetween(archive, Since(stored), now);
    StrictDecodable(Between(archive, Since(stored), now));
    assert (all[..k] + stored)[0] == all[0];
    if all[j] in PublishedBy(all[..k] + stored, archive', now', pageSize') {
      PublishedIsRecent(all[..k] + stored, archive', now', pageSize', all[j]);
    }
  }
}
