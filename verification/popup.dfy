/** The popup's list logic: the search filter over today's sites and the
    bookmarks, the tab switch that clears the query, loading today's list
    (Chromium: the day's bucket; Firefox: private entries, then regular ones)
    and the bookmark list, each sorted most recent first. Rendering is reduced
    to the list last handed to the renderer. */
module Popup {
  import opened Seqs
  import opened Sorting
  import opened Visits
  import opened Bookmarks
  import opened Text

  /** The two tabs; the page has no other `data-tab` value. */
  datatype Tab = TodayTab | BookmarksTab

  // ---------------------------------------------------------------------------
  // Search

  /** The search rule: the lower-cased title or the lower-cased url contains the
      query. The query arrives lower-cased already. */
  predicate Matches(title: string, url: string, query: string) {
    Includes(ToLower(title), query) || Includes(ToLower(url), query)
  }

  function SiteMatches(query: string): VisitRecord -> bool {
    (v: VisitRecord) => Matches(v.title, v.url, query)
  }

  function BookmarkMatches(query: string): Bookmark -> bool {
    (b: Bookmark) => Matches(b.title, b.url, query)
  }

  /** The Today filter of applySearch. */
  function SearchSites(sites: seq<VisitRecord>, query: string): seq<VisitRecord> {
    Filter(sites, SiteMatches(query))
  }

  /** The Bookmarks filter of applySearch. */
  function SearchBookmarks(bookmarks: seq<Bookmark>, query: string): seq<Bookmark> {
    Filter(bookmarks, BookmarkMatches(query))
  }

  /** A match is a substring occurrence of the query in the lower-cased title or url. */
  lemma MatchesIsSubstring(title: string, url: string, query: string)
    ensures Matches(title, url, query) <==>
      (exists i :: OccursAt(ToLower(title), query, i)) || (exists i :: OccursAt(ToLower(url), query, i))
  {
    IncludesIff(ToLower(title), query);
    IncludesIff(ToLower(url), query);
  }

  /** The Today filter keeps every matching site with all its occurrences, drops
      every other one, and keeps the original order. */
  lemma SearchSitesExact(sites: seq<VisitRecord>, query: string)
    ensures forall v :: (multiset(SearchSites(sites, query))[v]
      == if Matches(v.title, v.url, query) then multiset(sites)[v] else 0)
    ensures IsSubsequence(SearchSites(sites, query), sites)
  {
    FilterCount(sites, SiteMatches(query));
    FilterIsSubsequence(sites, SiteMatches(query));
  }

  /** The Bookmarks filter obeys the same rule. */
  lemma SearchBookmarksExact(bookmarks: seq<Bookmark>, query: string)
    ensures forall b :: (multiset(SearchBookmarks(bookmarks, query))[b]
      == if Matches(b.title, b.url, query) then multiset(bookmarks)[b] else 0)
    ensures IsSubsequence(SearchBookmarks(bookmarks, query), bookmarks)
  {
    FilterCount(bookmarks, BookmarkMatches(query));
    FilterIsSubsequence(bookmarks, BookmarkMatches(query));
  }

  /** The empty query shows the whole list. */
  lemma EmptyQueryKeepsAll(sites: seq<VisitRecord>, bookmarks: seq<Bookmark>)
    ensures SearchSites(sites, "") == sites
    ensures SearchBookmarks(bookmarks, "") == bookmarks
  {
    forall i | 0 <= i < |sites|
      ensures SiteMatches("")(sites[i])
    {
      IncludesEmpty(ToLower(sites[i].title));
    }
    FilterKeepsAll(sites, SiteMatches(""));
    forall i | 0 <= i < |bookmarks|
      ensures BookmarkMatches("")(bookmarks[i])
    {
      IncludesEmpty(ToLower(bookmarks[i].title));
    }
    FilterKeepsAll(bookmarks, BookmarkMatches(""));
  }

  /** Upper case in a title does not hide it from a lower-case query. */
  lemma SearchIgnoresCase()
    ensures Matches("Example Domain", "https://x.org/", "exa")
    ensures !Matches("Blog", "https://b.org/", "exa")
  {
    var t := ToLower("Example Domain");
    assert t[..3] == "exa";
    assert StartsWith(t, "exa");
    assert ToLower("Blog") == "blog";
    IncludesNeedsFirst("blog", "exa");
    assert ToLower("https://b.org/") == "https://b.org/";
    IncludesNeedsFirst("https://b.org/", "exa");
  }

  // ---------------------------------------------------------------------------
  // Today's list and the bookmark list

  /** What the Firefox popup collects before sorting: in a private window the
      private entries followed by the regular ones, otherwise only the regular
      ones; a missing key reads as the empty list. */
  function MergedToday(store: Store, day: string, isPrivate: bool): seq<VisitRecord> {
    if isPrivate then BucketOf(store, PrivateKey(day)) + BucketOf(store, DailyKey(day))
    else BucketOf(store, DailyKey(day))
  }

  /** Today's list in a private window holds exactly the private and the regular
      entries, most recent first, and equal timestamps keep private entries
      before regular ones, each in stored order. */
  lemma PrivateTodayList(store: Store, day: string, k: int)
    ensures var p, g := BucketOf(store, PrivateKey(day)), BucketOf(store, DailyKey(day));
      var r := SortDesc(MergedToday(store, day, true), LastVisited);
      && multiset(r) == multiset(p) + multiset(g)
      && SortedDesc(r, LastVisited)
      && WithKey(r, LastVisited, k) == WithKey(p, LastVisited, k) + WithKey(g, LastVisited, k)
  {
    var p, g := BucketOf(store, PrivateKey(day)), BucketOf(store, DailyKey(day));
    SortDescCorrect(p + g, LastVisited);
    SortDescStable(p + g, LastVisited, k);
    WithKeyAppend(p, g, LastVisited, k);
  }

  /** In a regular window today's list is the day's bucket, reordered: no private
      entry can appear. */
  lemma RegularTodayList(store: Store, day: string)
    ensures var r := SortDesc(MergedToday(store, day, false), LastVisited);
      && multiset(r) == multiset(BucketOf(store, DailyKey(day)))
      && SortedDesc(r, LastVisited)
      && forall v | v in r :: v in BucketOf(store, DailyKey(day))
  {
    var g := BucketOf(store, DailyKey(day));
    SortDescCorrect(g, LastVisited);
    forall v | v in SortDesc(g, LastVisited)
      ensures v in g
    {
      assert v in multiset(SortDesc(g, LastVisited));
    }
  }

  /** The bookmark list holds exactly the extracted bookmarks, most recently
      added first, and only url-bearing nodes. */
  lemma BookmarkList(tree: seq<BookmarkNode>)
    ensures var r := SortDesc(Extracted(tree), DateAdded);
      && multiset(r) == multiset(Extracted(tree))
      && SortedDesc(r, DateAdded)
      && forall b | b in r :: b.url != ""
  {
    var e := Extracted(tree);
    SortDescCorrect(e, DateAdded);
    ExtractedUrls(tree);
    forall b | b in SortDesc(e, DateAdded)
      ensures b.url != ""
    {
      assert b in multiset(SortDesc(e, DateAdded));
    }
  }

  /** One iteration of extractBookmarks' loop extends the pushed records by the
      next node's contribution. */
  lemma ExtractStep(start: seq<Bookmark>, before: seq<Bookmark>, after: seq<Bookmark>,
                    nodes: seq<BookmarkNode>, i: nat)
    requires i < |nodes|
    requires before == start + Extracted(nodes[..i])
    requires after == before + Own(nodes[i]) + Extracted(nodes[i].children)
    ensures after == start + Extracted(nodes[..i + 1])
  {
    ExtractedSnoc(nodes, i);
    ConcatAssoc(start, Extracted(nodes[..i]), Own(nodes[i]), Extracted(nodes[i].children));
  }

  // ---------------------------------------------------------------------------
  // The popup page

  /** The page's state: the current tab, the search box, the two full lists and
      the lists last rendered in each tab. */
  class PopupPage {
    var currentTab: Tab
    var searchValue: string
    var allTodaySites: seq<VisitRecord>
    var allBookmarks: seq<Bookmark>
    var shownSites: seq<VisitRecord>
    var shownBookmarks: seq<Bookmark>

    /** A freshly opened popup: Today tab, empty query, both lists empty. */
    constructor ()
      ensures currentTab == TodayTab && searchValue == ""
      ensures allTodaySites == [] && allBookmarks == []
      ensures shownSites == [] && shownBookmarks == []
    {
      currentTab := TodayTab;
      searchValue := "";
      allTodaySites := [];
      allBookmarks := [];
      shownSites := [];
      shownBookmarks := [];
    }

    /** applySearch: filter the current tab's full list and render the result. */
    method ApplySearch(query: string)
      modifies this`shownSites, this`shownBookmarks
      ensures currentTab == TodayTab ==>
        shownSites == SearchSites(allTodaySites, query) && shownBookmarks == old(shownBookmarks)
      ensures currentTab == BookmarksTab ==>
        shownBookmarks == SearchBookmarks(allBookmarks, query) && shownSites == old(shownSites)
    {
      if currentTab == TodayTab {
        shownSites := SearchSites(allTodaySites, query);
      } else {
        shownBookmarks := SearchBookmarks(allBookmarks, query);
      }
    }

    /** The search box's input handler: the typed value, lower-cased, is the query. */
    method OnSearchInput(value: string)
      modifies this`searchValue, this`shownSites, this`shownBookmarks
      ensures searchValue == value
      ensures currentTab == TodayTab ==>
        shownSites == SearchSites(allTodaySites, ToLower(value)) && shownBookmarks == old(shownBookmarks)
      ensures currentTab == BookmarksTab ==>
        shownBookmarks == SearchBookmarks(allBookmarks, ToLower(value)) && shownSites == old(shownSites)
    {
      searchValue := value;
      ApplySearch(ToLower(value));
    }

    /** switchTab: make the tab current, clear the search box and re-filter with
      the empty query, which shows the tab's whole list. */
    method SwitchTab(tab: Tab)
      modifies this`currentTab, this`searchValue, this`shownSites, this`shownBookmarks
      ensures currentTab == tab && searchValue == ""
      ensures tab == TodayTab ==> shownSites == allTodaySites && shownBookmarks == old(shownBookmarks)
      ensures tab == BookmarksTab ==> shownBookmarks == allBookmarks && shownSites == old(shownSites)
    {
      currentTab := tab;
      searchValue := "";
      ApplySearch("");
      EmptyQueryKeepsAll(allTodaySites, allBookmarks);
    }

    /** loadTodaySites (Chromium): the day's bucket, sorted most recent first and
      rendered whole. */
    method LoadTodaySites(store: Store, day: string)
      modifies this`allTodaySites, this`shownSites
      ensures allTodaySites == SortDesc(BucketOf(store, DailyKey(day)), LastVisited)
      ensures shownSites == allTodaySites
    {
      var storageKey := DailyKey(day);
      allTodaySites := BucketOf(store, storageKey);
      allTodaySites := SortSeq(allTodaySites, LastVisited);
      shownSites := allTodaySites;
    }

    /** loadTodaySites (Firefox): in a private window the private entries followed
      by the regular ones, otherwise the regular ones; then sorted most recent
      first and rendered whole. */
    method LoadTodaySitesInWindow(store: Store, day: string, isPrivate: bool)
      modifies this`allTodaySites, this`shownSites
      ensures allTodaySites == SortDesc(MergedToday(store, day, isPrivate), LastVisited)
      ensures shownSites == allTodaySites
    {
      var regularKey, privateKey := DailyKey(day), PrivateKey(day);
      if isPrivate {
        var regularSites := BucketOf(store, regularKey);
        var privateSites := BucketOf(store, privateKey);
        allTodaySites := privateSites + regularSites;
      } else {
        allTodaySites := BucketOf(store, regularKey);
      }
      allTodaySites := SortSeq(allTodaySites, LastVisited);
      shownSites := allTodaySites;
    }

    /** extractBookmarks: walk the nodes in order, push each url-bearing node's
      record, and recurse into its children. */
    method ExtractBookmarks(nodes: seq<BookmarkNode>)
      modifies this`allBookmarks
      ensures allBookmarks == old(allBookmarks) + Extracted(nodes)
      decreases nodes
    {
      ghost var start := allBookmarks;
      for i := 0 to |nodes|
        invariant allBookmarks == start + Extracted(nodes[..i])
      {
        var node := nodes[i];
        ghost var before := allBookmarks;
        if node.url != "" {
          allBookmarks := allBookmarks + [Bookmark(node.id, node.title, node.url, node.dateAdded)];
        }
        assert allBookmarks == before + Own(node);
        ExtractBookmarks(node.children);
        ExtractStep(start, before, allBookmarks, nodes, i);
      }
      assert nodes[..|nodes|] == nodes;
    }

    /** loadBookmarks: start from the empty list, extract from the whole tree,
      sort most recently added first and render. */
    method LoadBookmarks(tree: seq<BookmarkNode>)
      modifies this`allBookmarks, this`shownBookmarks
      ensures allBookmarks == SortDesc(Extracted(tree), DateAdded)
      ensures shownBookmarks == allBookmarks
    {
      allBookmarks := [];
      ExtractBookmarks(tree);
      assert allBookmarks == Extracted(tree);
      allBookmarks := SortSeq(allBookmarks, DateAdded);
      shownBookmarks := allBookmarks;
    }
  }
}
