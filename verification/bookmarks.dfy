/** The bookmark side of the popup: flattening the browser's bookmark tree into
    the list the Bookmarks tab shows, and the add-or-remove decision of the star
    button against the bookmark store. */
module Bookmarks {
  import opened Seqs

  /** A node of the tree returned by bookmarks.getTree. A folder has url "";
      a node without children has the empty child list. */
  datatype BookmarkNode = BookmarkNode(
    id: string, title: string, url: string, dateAdded: int, children: seq<BookmarkNode>)

  /** The record the popup keeps for each bookmark. */
  datatype Bookmark = Bookmark(id: string, title: string, url: string, dateAdded: int)

  function DateAdded(b: Bookmark): int { b.dateAdded }
  function Id(b: Bookmark): string { b.id }
  function UrlOf(b: Bookmark): string { b.url }
  predicate HasUrl(n: BookmarkNode) { n.url != "" }

  function ToBookmark(n: BookmarkNode): Bookmark {
    Bookmark(n.id, n.title, n.url, n.dateAdded)
  }

  /** What one node contributes by itself: its record when it has a url. */
  function Own(n: BookmarkNode): seq<Bookmark> {
    if HasUrl(n) then [ToBookmark(n)] else []
  }

  /** extractBookmarks: for each node in order, push its record when it has a url,
      then descend into its children. */
  function Extracted(nodes: seq<BookmarkNode>): seq<Bookmark>
    decreases nodes
  {
    if |nodes| == 0 then []
    else Own(nodes[0]) + Extracted(nodes[0].children) + Extracted(nodes[1..])
  }

  lemma {:induction false} ExtractedAppend(a: seq<BookmarkNode>, b: seq<BookmarkNode>)
    ensures Extracted(a + b) == Extracted(a) + Extracted(b)
    decreases |a|
  {
    if |a| == 0 {
      assert a + b == b;
    } else {
      var head := Own(a[0]) + Extracted(a[0].children);
      assert Extracted(a) == head + Extracted(a[1..]);
      assert Extracted(a + b) == head + Extracted(a[1..] + b) by {
        assert (a + b)[0] == a[0];
        assert (a + b)[1..] == a[1..] + b;
      }
      ExtractedAppend(a[1..], b);
      ConcatAssoc3(head, Extracted(a[1..]), Extracted(b));
    }
  }

  /** One more node of the loop: its own record, then its subtree. */
  lemma ExtractedSnoc(nodes: seq<BookmarkNode>, i: nat)
    requires i < |nodes|
    ensures Extracted(nodes[..i + 1])
         == Extracted(nodes[..i]) + Own(nodes[i]) + Extracted(nodes[i].children)
  {
    assert nodes[..i + 1] == nodes[..i] + [nodes[i]];
    ExtractedAppend(nodes[..i], [nodes[i]]);
    assert [nodes[i]][1..] == [];
  }

  // ---------------------------------------------------------------------------
  // Reference definition: depth-first pre-order of the whole forest

  /** Every node of the forest, each one before its descendants, siblings left
      to right. */
  function PreOrder(nodes: seq<BookmarkNode>): seq<BookmarkNode>
    decreases nodes
  {
    if |nodes| == 0 then []
    else [nodes[0]] + PreOrder(nodes[0].children) + PreOrder(nodes[1..])
  }

  function Project(ns: seq<BookmarkNode>): seq<Bookmark> {
    seq(|ns|, i requires 0 <= i < |ns| => ToBookmark(ns[i]))
  }

  lemma ProjectAppend(a: seq<BookmarkNode>, b: seq<BookmarkNode>)
    ensures Project(a + b) == Project(a) + Project(b)
  {
  }

  /** The extracted list is exactly the url-bearing nodes of the pre-order
      traversal, in that order: no folder, no node skipped, a node before its
      children. */
  lemma {:induction false} ExtractedIsPreOrderWithUrl(nodes: seq<BookmarkNode>)
    ensures Extracted(nodes) == Project(Filter(PreOrder(nodes), HasUrl))
    decreases nodes
  {
    if |nodes| > 0 {
      var n, rest := nodes[0], nodes[1..];
      ExtractedIsPreOrderWithUrl(n.children);
      ExtractedIsPreOrderWithUrl(rest);
      FilterAppend([n] + PreOrder(n.children), PreOrder(rest), HasUrl);
      FilterAppend([n], PreOrder(n.children), HasUrl);
      var own := Filter([n], HasUrl);
      assert Project(own) == Own(n);
      ProjectAppend(own + Filter(PreOrder(n.children), HasUrl), Filter(PreOrder(rest), HasUrl));
      ProjectAppend(own, Filter(PreOrder(n.children), HasUrl));
    }
  }

  /** Only url-bearing nodes are extracted, and every one of them is. */
  lemma ExtractedUrls(nodes: seq<BookmarkNode>)
    ensures forall b | b in Extracted(nodes) :: b.url != ""
    ensures forall n | n in PreOrder(nodes) && HasUrl(n) :: ToBookmark(n) in Extracted(nodes)
  {
    ExtractedIsPreOrderWithUrl(nodes);
    var kept := Filter(PreOrder(nodes), HasUrl);
    FilterMembers(PreOrder(nodes), HasUrl);
    forall b | b in Extracted(nodes)
      ensures b.url != ""
    {
      var i :| 0 <= i < |kept| && Project(kept)[i] == b;
      assert kept[i] in kept;
    }
    forall n | n in PreOrder(nodes) && HasUrl(n)
      ensures ToBookmark(n) in Extracted(nodes)
    {
      assert n in kept;
      var i :| 0 <= i < |kept| && kept[i] == n;
      assert Project(kept)[i] == ToBookmark(n);
    }
  }

  // ---------------------------------------------------------------------------
  // The star button

  function UrlIs(url: string): Bookmark -> bool { (b: Bookmark) => b.url == url }
  function IdIsNot(id: string): Bookmark -> bool { (b: Bookmark) => b.id != id }

  /** bookmarks.search({url}): the bookmarks with exactly this url, in store order. */
  function Search(store: seq<Bookmark>, url: string): seq<Bookmark> {
    Filter(store, UrlIs(url))
  }

  /** bookmarks.remove(id): drop the bookmark with this id. */
  function Remove(store: seq<Bookmark>, id: string): seq<Bookmark> {
    Filter(store, IdIsNot(id))
  }

  /** The result of toggleBookmark: the store afterwards and whether the button
      now shows the url as bookmarked. */
  datatype ToggleOutcome = ToggleOutcome(store: seq<Bookmark>, bookmarked: bool)

  /** toggleBookmark: when a search for the url finds something, remove the first
      hit; otherwise create a bookmark with this title and url. The host picks
      the new id and the creation time. */
  function Toggle(store: seq<Bookmark>, url: string, title: string, newId: string, now: int)
    : ToggleOutcome
  {
    var existing := Search(store, url);
    if |existing| > 0 then ToggleOutcome(Remove(store, existing[0].id), false)
    else ToggleOutcome(store + [Bookmark(newId, title, url, now)], true)
  }

  /** The first search hit is the first bookmark with the url. */
  lemma {:induction false} SearchFirst(store: seq<Bookmark>, url: string)
    requires FirstIndex(store, UrlOf, url) >= 0
    ensures |Search(store, url)| > 0 && Search(store, url)[0] == store[FirstIndex(store, UrlOf, url)]
    decreases |store|
  {
    if store[0].url != url {
      SearchFirst(store[1..], url);
    }
  }

  /** With unique ids, removing by the id at position i removes exactly position i. */
  lemma RemoveAt(store: seq<Bookmark>, i: nat)
    requires i < |store| && UniqueBy(store, Id)
    ensures Remove(store, store[i].id) == store[..i] + store[i + 1..]
  {
    var p := IdIsNot(store[i].id);
    var before, x, after := store[..i], store[i], store[i + 1..];
    assert store == before + [x] + after;
    FilterAppend(before + [x], after, p);
    FilterAppend(before, [x], p);
    assert Filter([x], p) == [] by {
      assert !p(x);
      assert [x][1..] == [];
    }
    forall j | 0 <= j < |before|
      ensures p(before[j])
    {
      assert Id(store[j]) != Id(store[i]);
    }
    FilterKeepsAll(before, p);
    forall j | 0 <= j < |after|
      ensures p(after[j])
    {
      assert Id(store[i]) != Id(store[i + 1 + j]);
    }
    FilterKeepsAll(after, p);
  }

  /** Toggling a bookmarked url removes exactly its first bookmark and clears the
      button; toggling an unbookmarked url appends exactly one bookmark for it and
      sets the button. */
  lemma ToggleDecision(store: seq<Bookmark>, url: string, title: string, newId: string, now: int)
    requires UniqueBy(store, Id)
    ensures var r, i := Toggle(store, url, title, newId, now), FirstIndex(store, UrlOf, url);
      && (i >= 0 ==> !r.bookmarked && r.store == store[..i] + store[i + 1..])
      && (i < 0 ==> r.bookmarked && r.store == store + [Bookmark(newId, title, url, now)])
  {
    var i := FirstIndex(store, UrlOf, url);
    if i >= 0 {
      SearchFirst(store, url);
      RemoveAt(store, i);
    } else {
      FilterNone(store, UrlIs(url));
    }
  }

  /** When the url has at most one bookmark, the button state after a toggle
      agrees with the store: set exactly when one bookmark for the url remains. */
  lemma ToggleButtonMatchesStore(store: seq<Bookmark>, url: string, title: string, newId: string, now: int)
    requires UniqueBy(store, Id)
    requires forall i, j | 0 <= i < j < |store| && store[i].url == url :: store[j].url != url
    ensures var r := Toggle(store, url, title, newId, now);
      r.bookmarked <==> exists b :: b in r.store && b.url == url
  {
    ToggleDecision(store, url, title, newId, now);
    var i := FirstIndex(store, UrlOf, url);
    if i >= 0 {
      OnlyMatchRemoved(store, url, i);
    } else {
      var added := store + [Bookmark(newId, title, url, now)];
      assert added[|store|] in added;
    }
  }

  /** Removing the only bookmark with a url leaves none with it. */
  lemma OnlyMatchRemoved(store: seq<Bookmark>, url: string, i: nat)
    requires i < |store| && store[i].url == url
    requires forall j | 0 <= j < i :: store[j].url != url
    requires forall i, j | 0 <= i < j < |store| && store[i].url == url :: store[j].url != url
    ensures forall b | b in store[..i] + store[i + 1..] :: b.url != url
  {
    var rest := store[..i] + store[i + 1..];
    forall k | 0 <= k < |rest|
      ensures rest[k].url != url
    {
      if k < i {
        assert rest[k] == store[k];
      } else {
        assert rest[k] == store[k + 1];
      }
    }
  }

  /** Toggling an unbookmarked url twice, with a fresh id, restores the store. */
  lemma ToggleTwiceRestores(store: seq<Bookmark>, url: string, title: string,
                            newId: string, now: int, otherId: string, later: int)
    requires UniqueBy(store, Id)
    requires forall b | b in store :: b.url != url
    requires forall b | b in store :: b.id != newId
    ensures var once := Toggle(store, url, title, newId, now);
      once.bookmarked
      && var twice := Toggle(once.store, url, title, otherId, later);
      !twice.bookmarked && twice.store == store
  {
    var once := Toggle(store, url, title, newId, now);
    ToggleDecision(store, url, title, newId, now);
    var s1 := once.store;
    assert UniqueBy(s1, Id);
    assert FirstIndex(s1, UrlOf, url) == |store| by {
      assert s1[|store|].url == url;
      assert forall j | 0 <= j < |store| :: s1[j] == store[j] && store[j] in store;
    }
    ToggleDecision(s1, url, title, otherId, later);
    assert s1[..|store|] == store;
  }
}
