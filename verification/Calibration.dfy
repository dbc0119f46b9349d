/** The calibration cache of the server (server/pkg/pipeline/calculate/calculate.go): the
    store's entries grouped by device and sorted by date, refreshed when a device is missing,
    and searched for the entry in force at a given time. */
module Calibration {
  import opened Common

  /** Times are in nanoseconds. */
  datatype Cal = Cal(id: int, sysID: nat, deviceID: string, validFrom: int)

  const NO_CAL := Cal(0, 0, "", 0)
  const MILLISECOND := 1_000_000
  const MIN_CACHE_UPDATE_DELAY := 5_000_000_000

  // ---------------------------------------------------------------------------
  // The entries of one device
  // ---------------------------------------------------------------------------

  /** The entries of a device, in listing order. */
  function Group(cals: seq<Cal>, sysID: nat): (group: seq<Cal>) {
    if cals == [] then []
    else
      var n := |cals| - 1;
      Group(cals[..n], sysID) + (if cals[n].sysID == sysID then [cals[n]] else [])
  }

  /** Grouping keeps every entry, as often as it was listed, under its own device and under
      no other; so the order of the listing does not matter. */
  lemma {:induction false} GroupKeepsEntries(cals: seq<Cal>, sysID: nat, c: Cal)
    ensures multiset(Group(cals, sysID))[c] == if c.sysID == sysID then multiset(cals)[c] else 0
  {
    if cals != [] {
      var front, last := cals[..|cals| - 1], cals[|cals| - 1];
      GroupKeepsEntries(front, sysID, c);
      CountSnoc(front, last, c);
      CountSnoc(Group(front, sysID), last, c);
      assert front + [last] == cals;
    }
  }

  lemma CountSnoc(s: seq<Cal>, x: Cal, c: Cal)
    ensures multiset(s + [x])[c] == multiset(s)[c] + (if x == c then 1 else 0)
  {
  }

  lemma ListingOrderDoesNotMatter(x: seq<Cal>, y: seq<Cal>, sysID: nat)
    requires multiset(x) == multiset(y)
    ensures multiset(Group(x, sysID)) == multiset(Group(y, sysID))
  {
    forall c
      ensures multiset(Group(x, sysID))[c] == multiset(Group(y, sysID))[c]
    {
      GroupKeepsEntries(x, sysID, c);
      GroupKeepsEntries(y, sysID, c);
    }
  }

  predicate Descending(s: seq<Cal>) {
    forall i, j :: 0 <= i < j < |s| ==> s[i].validFrom >= s[j].validFrom
  }

  /** The entry in force at a date: the latest of those not after it; failing that, the
      earliest of all; failing that, none. */
  predicate InForce(entries: multiset<Cal>, date: int, cal: Cal) {
    if entries == multiset{} then cal == Cal(0, 0, "", 0)
    else
      && cal in entries
      && if exists c :: c in entries && c.validFrom <= date
         then cal.validFrom <= date && forall c :: c in entries && c.validFrom <= date ==> c.validFrom <= cal.validFrom
         else forall c :: c in entries ==> cal.validFrom <= c.validFrom
  }

  // ---------------------------------------------------------------------------
  // Sorting
  // ---------------------------------------------------------------------------

  /** Sorting by date, latest first.  Entries of the same date may come in any order. */
  method SortByDate(s: seq<Cal>) returns (r: seq<Cal>)
    ensures Descending(r) && multiset(r) == multiset(s)
  {
    r := [];
    for n := 0 to |s|
      invariant Descending(r) && multiset(r) == multiset(s[..n])
    {
      var i := Position(r, s[n]);
      InsertKeeps(r, i, s[n]);
      assert s[..n + 1] == s[..n] + [s[n]];
      r := r[..i] + [s[n]] + r[i..];
    }
    assert s[..|s|] == s;
  }

  lemma InsertKeeps(s: seq<Cal>, i: nat, c: Cal)
    requires Descending(s) && i <= |s|
    requires forall k :: 0 <= k < i ==> s[k].validFrom >= c.validFrom
    requires forall k :: i <= k < |s| ==> s[k].validFrom <= c.validFrom
    ensures Descending(s[..i] + [c] + s[i..])
    ensures multiset(s[..i] + [c] + s[i..]) == multiset(s) + multiset{c}
  {
    assert s == s[..i] + s[i..];
  }

  method Position(s: seq<Cal>, c: Cal) returns (i: nat)
    requires Descending(s)
    ensures i <= |s|
    ensures forall k :: 0 <= k < i ==> s[k].validFrom >= c.validFrom
    ensures forall k :: i <= k < |s| ==> s[k].validFrom <= c.validFrom
  {
    i := 0;
    while i < |s| && s[i].validFrom > c.validFrom
      invariant 0 <= i <= |s| && forall k :: 0 <= k < i ==> s[k].validFrom >= c.validFrom
    {
      i := i + 1;
    }
  }

  // ---------------------------------------------------------------------------
  // The cache
  // ---------------------------------------------------------------------------

  /** The cache holds, for every device with entries in the listing and for no other, exactly
      those entries, latest first. */
  ghost predicate Agrees(cache: map<nat, seq<Cal>>, cals: seq<Cal>) {
    && (forall k :: k in cache <==> Group(cals, k) != [])
    && (forall k :: k in cache ==> Descending(cache[k]) && multiset(cache[k]) == multiset(Group(cals, k)))
  }

  function Lookup(cache: map<nat, seq<Cal>>, sysID: nat): seq<Cal> {
    if sysID in cache then cache[sysID] else []
  }

  lemma EntriesOf(cache: map<nat, seq<Cal>>, cals: seq<Cal>, sysID: nat)
    requires Agrees(cache, cals)
    ensures Descending(Lookup(cache, sysID)) && multiset(Lookup(cache, sysID)) == multiset(Group(cals, sysID))
  {
  }

  /** The grouping loop of populateCache. */
  method GroupByDevice(cals: seq<Cal>) returns (m: map<nat, seq<Cal>>)
    ensures forall k :: k in m <==> Group(cals, k) != []
    ensures forall k :: k in m ==> m[k] == Group(cals, k)
  {
    m := map[];
    for i := 0 to |cals|
      invariant forall k :: k in m <==> Group(cals[..i], k) != []
      invariant forall k :: k in m ==> m[k] == Group(cals[..i], k)
    {
      var cal := cals[i];
      assert cals[..i + 1][..i] == cals[..i];
      m := m[cal.sysID := (if cal.sysID in m then m[cal.sysID] else []) + [cal]];
    }
    assert cals[..|cals|] == cals;
  }

  /** The sorting loop of populateCache, over the map in any order. */
  method SortGroups(groups: map<nat, seq<Cal>>) returns (m: map<nat, seq<Cal>>)
    ensures m.Keys == groups.Keys
    ensures forall k :: k in m ==> Descending(m[k]) && multiset(m[k]) == multiset(groups[k])
  {
    m := groups;
    var todo := m.Keys;
    while todo != {}
      invariant todo <= m.Keys == groups.Keys
      invariant forall k :: k in m && k in todo ==> m[k] == groups[k]
      invariant forall k :: k in m && k !in todo ==> Descending(m[k]) && multiset(m[k]) == multiset(groups[k])
    {
      var k :| k in todo;
      var v := SortByDate(m[k]);
      m := m[k := v];
      todo := todo - {k};
    }
  }

  predicate Spaced(updates: seq<int>) {
    forall i, j :: 0 <= i < j < |updates| ==> updates[i] + 5_000_000_000 <= updates[j]
  }

  class Calculate {
    var calibrationCache: map<nat, seq<Cal>>
    var lastCacheUpdate: int
    ghost var listing: seq<Cal>  // the store listing last loaded
    ghost var updates: seq<int>  // when listings were loaded

    /** The cache agrees with the listing loaded last. */
    ghost predicate Loaded()
      reads this
    {
      Agrees(calibrationCache, listing) && updates != [] && updates[|updates| - 1] == lastCacheUpdate
    }

    /** And no two loads were less than five seconds apart. */
    ghost predicate Valid()
      reads this
    {
      Loaded() && Spaced(updates)
    }

    /** New, when the first listing succeeds. */
    constructor (cals: seq<Cal>, now: int)
      ensures Valid() && listing == cals && updates == [now]
    {
      calibrationCache, lastCacheUpdate, listing, updates := map[], now, [], [now];
      new;
      PopulateCache(cals, now);
    }

    /** populateCache */
    method PopulateCache(cals: seq<Cal>, now: int)
      modifies this`calibrationCache, this`lastCacheUpdate, this`listing
      ensures Agrees(calibrationCache, cals) && listing == cals && lastCacheUpdate == now
    {
      var m := GroupByDevice(cals);
      calibrationCache := SortGroups(m);
      lastCacheUpdate := now;
      listing := cals;
    }

    /** loadCache: listed is the store's answer, None for an error. */
    method LoadCache(listed: Option<seq<Cal>>, now: int)
      requires Loaded()
      modifies this
      ensures Loaded()
      ensures listed.None? ==> unchanged(this)
      ensures listed.Some? ==> listing == listed.value && updates == old(updates) + [now]
    {
      if listed.None? {
        return;
      }
      PopulateCache(listed.value, now);
      updates := updates + [now];
    }

    /** findCacheEntry.  The clock is read once for the delay test and once more when a
        listing has been loaded. */
    method FindCacheEntry(sysID: nat, t: int, now: int, listed: Option<seq<Cal>>, loaded: int) returns (cal: Cal)
      requires Valid() && lastCacheUpdate <= now <= loaded
      modifies this
      ensures Valid()
      ensures InForce(multiset(Group(listing, sysID)), t * 1_000_000, cal)
      ensures Group(old(listing), sysID) != [] || listed.None? ||
              now < old(lastCacheUpdate) + 5_000_000_000 ==>
                listing == old(listing) && updates == old(updates)
      ensures Group(old(listing), sysID) == [] && listed.Some? &&
              now >= old(lastCacheUpdate) + 5_000_000_000 ==>
                listing == listed.value && updates == old(updates) + [loaded]
    {
      var refreshedCache := false;
      var entries := Lookup(calibrationCache, sysID);
      while true
        invariant Valid()
        invariant !refreshedCache ==>
                    listing == old(listing) && updates == old(updates) && lastCacheUpdate == old(lastCacheUpdate)
        invariant refreshedCache ==>
                    && Group(old(listing), sysID) == [] && now >= old(lastCacheUpdate) + MIN_CACHE_UPDATE_DELAY
                    && (listed.None? ==> listing == old(listing) && updates == old(updates))
                    && (listed.Some? ==> listing == listed.value && updates == old(updates) + [loaded])
        decreases !refreshedCache
      {
        entries := Lookup(calibrationCache, sysID);
        if sysID in calibrationCache {
          break;
        }
        if refreshedCache {
          break;
        }
        if now < lastCacheUpdate + MIN_CACHE_UPDATE_DELAY {
          break;
        }
        LoadCache(listed, loaded);
        refreshedCache := true;
      }
      EntriesOf(calibrationCache, listing, sysID);
      cal := Search(entries, t * MILLISECOND);
    }
  }

  /** The first entry that is not after the date. */
  lemma FirstIsInForce(entries: seq<Cal>, date: int, i: nat)
    requires Descending(entries) && i < |entries| && entries[i].validFrom <= date
    requires forall k :: 0 <= k < i ==> entries[k].validFrom > date
    ensures InForce(multiset(entries), date, entries[i])
  {
    assert entries[i] in multiset(entries);
    forall c | c in multiset(entries) && c.validFrom <= date
      ensures c.validFrom <= entries[i].validFrom
    {
      var k :| 0 <= k < |entries| && entries[k] == c;
    }
  }

  /** If there is none, the last. */
  lemma LastIsInForce(entries: seq<Cal>, date: int)
    requires Descending(entries) && entries != []
    requires forall k :: 0 <= k < |entries| ==> entries[k].validFrom > date
    ensures InForce(multiset(entries), date, entries[|entries| - 1])
  {
    var last := entries[|entries| - 1];
    assert last in multiset(entries);
    forall c | c in multiset(entries)
      ensures c.validFrom > date && last.validFrom <= c.validFrom
    {
      var k :| 0 <= k < |entries| && entries[k] == c;
    }
  }

  /** The search loop of findCacheEntry. */
  method Search(entries: seq<Cal>, date: int) returns (cal: Cal)
    requires Descending(entries)
    ensures InForce(multiset(entries), date, cal)
  {
    cal := NO_CAL;
    for i := 0 to |entries|
      invariant i == 0 ==> cal == NO_CAL
      invariant i > 0 ==> cal == entries[i - 1]
      invariant forall k :: 0 <= k < i ==> entries[k].validFrom > date
    {
      cal := entries[i];
      if !(date < cal.validFrom) {
        FirstIsInForce(entries, date, i);
        return;
      }
    }
    if entries != [] {
      LastIsInForce(entries, date);
    }
  }
}
