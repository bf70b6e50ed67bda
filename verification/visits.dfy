/** The background script's bookkeeping: recording a page visit into the bucket
    of the current day, the 100-entry cap, the http/https guard of the tab
    listeners, and the retention cleanup of old day buckets. Both browser
    copies of the script run the same code; this module models it once.

    The host's key-value storage is a map from key to a list of visit records;
    the clock (`Date.now()`), the calendar day string and the retention cutoff
    are parameters, and date parsing is an arbitrary partial function. */
module Visits {
  import opened Seqs
  import opened Sorting

  datatype Option<T> = None | Some(value: T)

  /** One entry of a day bucket. Identity within a bucket is the url. */
  datatype VisitRecord = VisitRecord(url: string, title: string, lastVisited: int, visitCount: int)

  /** The extension's local storage: key to stored list of visit records. */
  type Store = map<string, seq<VisitRecord>>

  const MaxEntriesPerDay: nat := 100
  const DailyPrefix := "dailyVisits_"
  const PrivatePrefix := "privateVisits_"

  function LastVisited(v: VisitRecord): int { v.lastVisited }
  function Url(v: VisitRecord): string { v.url }

  /** `dailyVisits_${today}`: the prefix followed by the day, which can be read back. */
  function DailyKey(day: string): (k: string)
    ensures StartsWith(k, DailyPrefix) && k[|DailyPrefix|..] == day
  {
    DailyPrefix + day
  }

  /** `privateVisits_${today}`, never a daily key. */
  function PrivateKey(day: string): (k: string)
    ensures StartsWith(k, PrivatePrefix) && k[|PrivatePrefix|..] == day
    ensures !StartsWith(k, DailyPrefix)
  {
    assert (PrivatePrefix + day)[0] == 'p';
    PrivatePrefix + day
  }

  /** `result[key] || []`: a missing bucket reads as the empty list. */
  function BucketOf(store: Store, key: string): seq<VisitRecord> {
    if key in store then store[key] else []
  }

  // ---------------------------------------------------------------------------
  // Recording a visit

  /** The linear scan behind findIndex. */
  method FindIndex(visits: seq<VisitRecord>, url: string) returns (i: int)
    ensures i == FirstIndex(visits, Url, url)
  {
    i := 0;
    while i < |visits|
      invariant 0 <= i <= |visits|
      invariant forall j | 0 <= j < i :: visits[j].url != url
    {
      if visits[i].url == url {
        return;
      }
      i := i + 1;
    }
    i := -1;
  }

  /** The record that replaces an existing one on a repeat visit. */
  function Revisited(prev: VisitRecord, url: string, title: string, now: int): VisitRecord {
    VisitRecord(url, if title != "" then title else prev.title, now, prev.visitCount + 1)
  }

  /** The record appended on the first visit of the day to a url. */
  function FirstVisit(url: string, title: string, now: int): VisitRecord {
    VisitRecord(url, if title != "" then title else url, now, 1)
  }

  /** Update the record for url in place, or append a new one. */
  function Upsert(s: seq<VisitRecord>, url: string, title: string, now: int): seq<VisitRecord> {
    var i := FirstIndex(s, Url, url);
    if i >= 0 then s[i := Revisited(s[i], url, title, now)] else s + [FirstVisit(url, title, now)]
  }

  /** Over the cap: sort by lastVisited, most recent first, and keep the first 100. */
  function Cap(s: seq<VisitRecord>): seq<VisitRecord> {
    if |s| > MaxEntriesPerDay then SortDesc(s, LastVisited)[..MaxEntriesPerDay] else s
  }

  /** The bucket after one visit. */
  function RecordVisit(s: seq<VisitRecord>, url: string, title: string, now: int): seq<VisitRecord> {
    Cap(Upsert(s, url, title, now))
  }

  /** The store after one visit on `day`. */
  function StoreAfterVisit(store: Store, day: string, url: string, title: string, now: int): Store {
    store[DailyKey(day) := RecordVisit(BucketOf(store, DailyKey(day)), url, title, now)]
  }

  /** The update-or-append step of saveDailyVisit: findIndex by url, then
      rewrite that record or push a new one. */
  method UpsertVisit(visits: seq<VisitRecord>, url: string, title: string, now: int)
    returns (updated: seq<VisitRecord>)
    ensures updated == Upsert(visits, url, title, now)
  {
    var existingIndex := FindIndex(visits, url);
    if existingIndex >= 0 {
      updated := visits[existingIndex := Revisited(visits[existingIndex], url, title, now)];
    } else {
      updated := visits + [FirstVisit(url, title, now)];
    }
  }

  /** The cap step of saveDailyVisit: over 100 records, sort a copy by
      lastVisited, most recent first, and keep the first 100. */
  method CapVisits(visits: seq<VisitRecord>) returns (capped: seq<VisitRecord>)
    ensures capped == Cap(visits)
  {
    capped := visits;
    if |visits| > MaxEntriesPerDay {
      var sorted := SortSeq(visits, LastVisited);
      capped := sorted[..MaxEntriesPerDay];
    }
  }

  /** saveDailyVisit: read today's bucket, update or append, cap, write back.
      A failing storage call is caught and logged by the source; here storage
      calls do not fail. */
  method SaveDailyVisit(store: Store, day: string, url: string, title: string, now: int)
    returns (store': Store)
    ensures store' == StoreAfterVisit(store, day, url, title, now)
  {
    var storageKey := DailyKey(day);
    var dailyVisits := BucketOf(store, storageKey);
    dailyVisits := UpsertVisit(dailyVisits, url, title, now);
    dailyVisits := CapVisits(dailyVisits);
    store' := store[storageKey := dailyVisits];
  }

  // ---------------------------------------------------------------------------
  // Properties of one visit

  /** A repeat visit rewrites that one record in place and touches nothing else. */
  lemma RepeatVisitUpdatesInPlace(s: seq<VisitRecord>, url: string, title: string, now: int)
    requires FirstIndex(s, Url, url) >= 0 && |s| <= MaxEntriesPerDay
    ensures var i, r := FirstIndex(s, Url, url), RecordVisit(s, url, title, now);
      && |r| == |s|
      && r[i].url == url
      && r[i].title == (if title != "" then title else s[i].title)
      && r[i].lastVisited == now
      && r[i].visitCount == s[i].visitCount + 1
      && forall j | 0 <= j < |s| && j != i :: r[j] == s[j]
  {
  }

  /** A first visit appends at the end with count 1 and title `title || url`. */
  lemma NewVisitAppends(s: seq<VisitRecord>, url: string, title: string, now: int)
    requires forall j | 0 <= j < |s| :: s[j].url != url
    requires |s| < MaxEntriesPerDay
    ensures var r := RecordVisit(s, url, title, now);
      && |r| == |s| + 1
      && r[..|s|] == s
      && r[|s|] == VisitRecord(url, if title != "" then title else url, now, 1)
  {
    assert FirstIndex(s, Url, url) == -1;
  }

  /** A missing bucket is read as empty: the first visit of the day stores a
      one-element list under the daily key and leaves every other key alone. */
  lemma FirstVisitOfDay(store: Store, day: string, url: string, title: string, now: int)
    requires DailyKey(day) !in store
    ensures var st := StoreAfterVisit(store, day, url, title, now);
      && st[DailyKey(day)] == [VisitRecord(url, if title != "" then title else url, now, 1)]
      && st.Keys == store.Keys + {DailyKey(day)}
      && forall k | k in store :: st[k] == store[k]
  {
    NewVisitAppends([], url, title, now);
  }

  /** The cap: never more than 100 entries, and nothing changes at or under 100. */
  lemma CapBounds(s: seq<VisitRecord>)
    ensures |Cap(s)| <= MaxEntriesPerDay
    ensures |s| <= MaxEntriesPerDay ==> Cap(s) == s
    ensures |s| > MaxEntriesPerDay ==> |Cap(s)| == MaxEntriesPerDay
  {
  }

  /** When the cap triggers, the survivors are sorted most recent first, come
      from the bucket, and no evicted record is more recent than a kept one. */
  lemma CapKeepsMostRecent(s: seq<VisitRecord>)
    requires |s| > MaxEntriesPerDay
    ensures SortedDesc(Cap(s), LastVisited)
    ensures multiset(Cap(s)) <= multiset(s)
    ensures forall e: VisitRecord, k: VisitRecord | e in multiset(s) - multiset(Cap(s)) && k in Cap(s) ::
      e.lastVisited <= k.lastVisited
  {
    var t := SortDesc(s, LastVisited);
    SortDescCorrect(s, LastVisited);
    SortedPrefix(t, MaxEntriesPerDay, LastVisited);
    DroppedBySplit(s, t, MaxEntriesPerDay);
    SortedSplit(t, MaxEntriesPerDay, LastVisited);
    forall e: VisitRecord, k: VisitRecord | e in multiset(s) - multiset(Cap(s)) && k in Cap(s)
      ensures e.lastVisited <= k.lastVisited
    {
      assert e in t[MaxEntriesPerDay..] && LastVisited(e) <= LastVisited(k);
    }
  }

  /** Every record after a visit was in the bucket before, or is the visited url's. */
  lemma RecordVisitSources(s: seq<VisitRecord>, url: string, title: string, now: int)
    ensures forall v | v in RecordVisit(s, url, title, now) :: v in s || v.url == url
  {
    var u := Upsert(s, url, title, now);
    assert forall v | v in u :: v in s || v.url == url;
    if |u| > MaxEntriesPerDay {
      SortDescCorrect(u, LastVisited);
      var t := SortDesc(u, LastVisited);
      forall v | v in t[..MaxEntriesPerDay]
        ensures v in u
      {
        assert v in multiset(t);
      }
    }
  }

  /** Urls stay unique within a bucket. */
  lemma RecordVisitKeepsUrlsUnique(s: seq<VisitRecord>, url: string, title: string, now: int)
    requires UniqueBy(s, Url)
    ensures UniqueBy(RecordVisit(s, url, title, now), Url)
  {
    var u := Upsert(s, url, title, now);
    assert UniqueBy(u, Url) by {
      var i := FirstIndex(s, Url, url);
      if i < 0 {
        forall j, k | 0 <= j < k < |u| ensures Url(u[j]) != Url(u[k]) {
          if k < |s| { assert Url(s[j]) != Url(s[k]); }
        }
      }
    }
    if |u| > MaxEntriesPerDay {
      SortDescCorrect(u, LastVisited);
      PermutationKeepsUnique(u, SortDesc(u, LastVisited), Url);
    }
  }

  /** The visited url is in the bucket afterwards with lastVisited = now, provided
      the cap cannot evict it: the bucket had room, the url was already in a
      bucket within the cap, or the clock has moved past every stored visit. */
  lemma VisitedUrlSurvives(s: seq<VisitRecord>, url: string, title: string, now: int)
    requires || |s| < MaxEntriesPerDay
             || (FirstIndex(s, Url, url) >= 0 && |s| <= MaxEntriesPerDay)
             || forall j | 0 <= j < |s| :: s[j].lastVisited < now
    ensures var r := RecordVisit(s, url, title, now);
      exists j :: 0 <= j < |r| && r[j].url == url && r[j].lastVisited == now
  {
    var i := FirstIndex(s, Url, url);
    var u := Upsert(s, url, title, now);
    var p := if i >= 0 then i else |s|;
    assert u[p].url == url && u[p].lastVisited == now;
    if |u| <= MaxEntriesPerDay {
      assert RecordVisit(s, url, title, now) == u;
    } else {
      assert forall q | 0 <= q < |u| && q != p :: u[q] == s[q];
      SortDescStrictMaxFirst(u, p, LastVisited);
      assert RecordVisit(s, url, title, now)[0] == u[p];
    }
  }

  /** The first visit to a url not in the bucket leaves exactly one record for
      it, the new one, when the bucket had room or every stored visit is older:
      then even a full bucket's cap puts the new record first and keeps it. */
  lemma NewUrlRecorded(s: seq<VisitRecord>, url: string, title: string, now: int)
    requires forall j | 0 <= j < |s| :: s[j].url != url
    requires |s| <= MaxEntriesPerDay
    requires |s| < MaxEntriesPerDay || forall j | 0 <= j < |s| :: s[j].lastVisited < now
    ensures var r := RecordVisit(s, url, title, now);
      var i := FirstIndex(r, Url, url);
      && |r| <= MaxEntriesPerDay
      && 0 <= i && r[i] == FirstVisit(url, title, now)
      && (forall j | 0 <= j < |r| && j != i :: r[j].url != url)
      && (|s| < MaxEntriesPerDay ==> r == s + [FirstVisit(url, title, now)] && i == |s|)
  {
    var n := FirstVisit(url, title, now);
    assert FirstIndex(s, Url, url) == -1 by {
      assert forall j | 0 <= j < |s| :: Url(s[j]) != url;
    }
    var u := s + [n];
    assert Upsert(s, url, title, now) == u;
    if |s| < MaxEntriesPerDay {
      assert RecordVisit(s, url, title, now) == u;
      assert forall j | 0 <= j < |s| :: Url(u[j]) != url;
      assert Url(u[|s|]) == url;
    } else {
      assert forall q | 0 <= q < |u| && q != |s| :: LastVisited(u[q]) < LastVisited(u[|s|]) by {
        assert forall q | 0 <= q < |s| :: u[q] == s[q];
      }
      SortDescStrictMaxFirst(u, |s|, LastVisited);
      var t := SortDesc(u, LastVisited);
      SortDescCorrect(u, LastVisited);
      var r := t[..MaxEntriesPerDay];
      assert RecordVisit(s, url, title, now) == r;
      assert n !in s;
      assert multiset(u) == multiset(s) + multiset{n};
      assert multiset(t)[t[0]] == 1;
      SoleOccurrence(t, 0);
      forall j | 0 <= j < |r| && j != 0
        ensures r[j].url != url
      {
        assert r[j] == t[j] && t[j] != n;
        assert t[j] in multiset(u);
        assert t[j] in s;
      }
      assert Url(r[0]) == url;
    }
  }

  // ---------------------------------------------------------------------------
  // A sequence of visits to one url

  datatype Visit = Visit(title: string, time: int)

  /** Record the visits in order. */
  function RecordVisits(s: seq<VisitRecord>, url: string, vs: seq<Visit>): seq<VisitRecord>
    decreases |vs|
  {
    if |vs| == 0 then s
    else
      var last := vs[|vs| - 1];
      RecordVisit(RecordVisits(s, url, vs[..|vs| - 1]), url, last.title, last.time)
  }

  /** The last non-empty title among the visits, or the url if there is none. */
  function ShownTitle(url: string, vs: seq<Visit>): string
    decreases |vs|
  {
    if |vs| == 0 then url
    else if vs[|vs| - 1].title != "" then vs[|vs| - 1].title
    else ShownTitle(url, vs[..|vs| - 1])
  }

  /** n visits in one day to a url not yet in the bucket leave exactly one record
      for it, with visitCount n, the latest time, and the last non-empty title,
      provided the first of them cannot be evicted: the bucket had room, or it was
      full and every stored visit is older. With room, the record sits at the end
      and the earlier records are untouched. */
  lemma {:induction false} RepeatedVisits(s: seq<VisitRecord>, url: string, vs: seq<Visit>)
    requires forall j | 0 <= j < |s| :: s[j].url != url
    requires |s| <= MaxEntriesPerDay
    requires |vs| > 0
    requires |s| < MaxEntriesPerDay || forall j | 0 <= j < |s| :: s[j].lastVisited < vs[0].time
    ensures var r := RecordVisits(s, url, vs);
      var i := FirstIndex(r, Url, url);
      && |r| <= MaxEntriesPerDay
      && 0 <= i && r[i] == VisitRecord(url, ShownTitle(url, vs), vs[|vs| - 1].time, |vs|)
      && (forall j | 0 <= j < |r| && j != i :: r[j].url != url)
      && (|s| < MaxEntriesPerDay ==> |r| == |s| + 1 && r[..|s|] == s && i == |s|)
    decreases |vs|
  {
    var last := vs[|vs| - 1];
    if |vs| == 1 {
      NewUrlRecorded(s, url, last.title, last.time);
      assert vs[..0] == [];
      assert RecordVisits(s, url, vs) == RecordVisit(s, url, last.title, last.time);
    } else {
      var front := vs[..|vs| - 1];
      assert front[0] == vs[0];
      RepeatedVisits(s, url, front);
      var p := RecordVisits(s, url, front);
      var i := FirstIndex(p, Url, url);
      RepeatVisitUpdatesInPlace(p, url, last.title, last.time);
      var r := RecordVisits(s, url, vs);
      assert r == RecordVisit(p, url, last.title, last.time);
      assert forall j | 0 <= j < |r| && j != i :: r[j] == p[j];
      assert FirstIndex(r, Url, url) == i by {
        assert forall j | 0 <= j < i :: Url(r[j]) != url;
        assert Url(r[i]) == url;
      }
      if |s| < MaxEntriesPerDay {
        assert r[..|s|] == s by {
          forall j | 0 <= j < |s| ensures r[j] == s[j] {
            assert p[..|s|][j] == s[j];
          }
        }
      }
    }
  }

  /** Titles "A", "", "A2" on one url give one record titled "A2" with count 3. */
  lemma ThreeVisitsExample()
    ensures RecordVisits([], "https://a.example/", [Visit("A", 1), Visit("", 2), Visit("A2", 3)])
         == [VisitRecord("https://a.example/", "A2", 3, 3)]
  {
    var vs := [Visit("A", 1), Visit("", 2), Visit("A2", 3)];
    RepeatedVisits([], "https://a.example/", vs);
  }

  // ---------------------------------------------------------------------------
  // The tab listeners

  /** A tab event as the listeners see it; "" stands for a missing url or title. */
  datatype TabEvent =
    | Updated(status: string, url: string, title: string)   // tabs.onUpdated
    | Activated(url: string, title: string)                   // tabs.onActivated

  predicate IsWebUrl(url: string) {
    StartsWith(url, "http://") || StartsWith(url, "https://")
  }

  /** The listeners' guard: a completed load or an activation, of an http(s) url. */
  predicate ShouldRecord(ev: TabEvent) {
    match ev
    case Updated(status, url, _) => status == "complete" && url != "" && IsWebUrl(url)
    case Activated(url, _) => url != "" && IsWebUrl(url)
  }

  function StoreAfterEvent(store: Store, ev: TabEvent, day: string, now: int): Store {
    if ShouldRecord(ev) then StoreAfterVisit(store, day, ev.url, ev.title, now) else store
  }

  /** The two listeners: save the visit when the guard passes. */
  method OnTabEvent(store: Store, ev: TabEvent, day: string, now: int) returns (store': Store)
    ensures store' == StoreAfterEvent(store, ev, day, now)
  {
    store' := store;
    match ev {
      case Updated(status, url, title) =>
        if status == "complete" && url != "" {
          if StartsWith(url, "http://") || StartsWith(url, "https://") {
            store' := SaveDailyVisit(store, day, url, title, now);
          }
        }
      case Activated(url, title) =>
        if url != "" && (StartsWith(url, "http://") || StartsWith(url, "https://")) {
          store' := SaveDailyVisit(store, day, url, title, now);
        }
    }
  }

  /** Every record of every bucket has an http(s) url. */
  ghost predicate OnlyWebUrls(store: Store) {
    forall k, v | k in store && v in store[k] :: IsWebUrl(v.url)
  }

  /** The guard lets only http(s) urls into storage, and only on a completed load
      or an activation; any other event leaves storage as it was. */
  lemma EventsRecordOnlyWebUrls(store: Store, ev: TabEvent, day: string, now: int)
    requires OnlyWebUrls(store)
    ensures OnlyWebUrls(StoreAfterEvent(store, ev, day, now))
    ensures StoreAfterEvent(store, ev, day, now) != store ==>
      IsWebUrl(ev.url) && (ev.Updated? ==> ev.status == "complete")
  {
    if ShouldRecord(ev) {
      var key := DailyKey(day);
      RecordVisitSources(BucketOf(store, key), ev.url, ev.title, now);
    }
  }

  /** A recorded event leaves its url in today's bucket, stamped now, when the
      cap cannot evict it. */
  lemma RecordedEventIsStored(store: Store, ev: TabEvent, day: string, now: int)
    requires ShouldRecord(ev)
    requires var b := BucketOf(store, DailyKey(day));
      || |b| < MaxEntriesPerDay
      || (FirstIndex(b, Url, ev.url) >= 0 && |b| <= MaxEntriesPerDay)
      || forall j | 0 <= j < |b| :: b[j].lastVisited < now
    ensures var b := StoreAfterEvent(store, ev, day, now)[DailyKey(day)];
      exists j :: 0 <= j < |b| && b[j].url == ev.url && b[j].lastVisited == now
  {
    var b := BucketOf(store, DailyKey(day));
    VisitedUrlSurvives(b, ev.url, ev.title, now);
    assert StoreAfterEvent(store, ev, day, now)[DailyKey(day)] == RecordVisit(b, ev.url, ev.title, now);
  }

  // ---------------------------------------------------------------------------
  // Retention

  /** A key cleanupOldVisits removes: a daily key whose date parses to a time
      strictly before the cutoff. An unparseable date compares false and stays. */
  predicate Expired(key: string, cutoff: int, parse: string -> Option<int>) {
    && StartsWith(key, DailyPrefix)
    && match parse(key[|DailyPrefix|..])
       case Some(date) => date < cutoff
       case None => false
  }

  function ExpiredKeys(store: Store, cutoff: int, parse: string -> Option<int>): set<string> {
    set k | k in store && Expired(k, cutoff, parse)
  }

  function AfterCleanup(store: Store, cutoff: int, parse: string -> Option<int>): Store {
    store - ExpiredKeys(store, cutoff, parse)
  }

  /** cleanupOldVisits: collect the expired keys in enumeration order (any order),
      then issue one removal, only if something was collected. */
  method CleanupOldVisits(store: Store, cutoff: int, parse: string -> Option<int>)
    returns (store': Store, keysToRemove: seq<string>, removeIssued: bool)
    ensures forall k :: k in keysToRemove <==> k in store && Expired(k, cutoff, parse)
    ensures forall i, j | 0 <= i < j < |keysToRemove| :: keysToRemove[i] != keysToRemove[j]
    ensures removeIssued <==> |keysToRemove| > 0
    ensures store' == AfterCleanup(store, cutoff, parse)
  {
    keysToRemove := [];
    var pending := store.Keys;
    while pending != {}
      invariant pending <= store.Keys
      invariant forall k :: k in keysToRemove <==> k in store.Keys - pending && Expired(k, cutoff, parse)
      invariant forall i, j | 0 <= i < j < |keysToRemove| :: keysToRemove[i] != keysToRemove[j]
      decreases pending
    {
      var key :| key in pending;
      if StartsWith(key, DailyPrefix) {
        var dateStr := key[|DailyPrefix|..];
        match parse(dateStr) {
          case Some(date) =>
            if date < cutoff {
              assert key !in keysToRemove;
              keysToRemove := keysToRemove + [key];
            }
          case None =>
        }
      }
      pending := pending - {key};
    }
    removeIssued := |keysToRemove| > 0;
    if removeIssued {
      store' := store - set k | k in keysToRemove;
    } else {
      store' := store;
    }
  }

  /** Cleanup removes exactly the expired keys and leaves every other entry as it was. */
  lemma CleanupRemovesExactlyExpired(store: Store, cutoff: int, parse: string -> Option<int>, k: string)
    ensures k in AfterCleanup(store, cutoff, parse) <==> k in store && !Expired(k, cutoff, parse)
    ensures k in AfterCleanup(store, cutoff, parse) ==> AfterCleanup(store, cutoff, parse)[k] == store[k]
  {
  }

  /** Private buckets, other keys, days at or after the cutoff and unparseable
      days all survive a cleanup. */
  lemma CleanupKeeps(store: Store, cutoff: int, parse: string -> Option<int>, day: string)
    ensures PrivateKey(day) in store ==> PrivateKey(day) in AfterCleanup(store, cutoff, parse)
    ensures DailyKey(day) in store && (parse(day).None? || parse(day).value >= cutoff)
      ==> DailyKey(day) in AfterCleanup(store, cutoff, parse)
    ensures DailyKey(day) in store && parse(day).Some? && parse(day).value < cutoff
      ==> DailyKey(day) !in AfterCleanup(store, cutoff, parse)
  {
    assert DailyKey(day)[|DailyPrefix|..] == day;
  }

  /** A second cleanup with the same cutoff removes nothing more. */
  lemma CleanupIdempotent(store: Store, cutoff: int, parse: string -> Option<int>)
    ensures AfterCleanup(AfterCleanup(store, cutoff, parse), cutoff, parse) == AfterCleanup(store, cutoff, parse)
  {
  }
}
