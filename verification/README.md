# Daily visits and bookmarks popup — a Dafny model

This project models the bookkeeping core of a browser extension. The extension records the pages a user visits each day and shows them, together with the user's bookmarks, in a popup. The extension ships two near-identical copies of each script: one for Chromium (`background.js`, `popup.js`) and one for Firefox (`firefox/background.js`, `firefox/popup.js`). Each behaviour is modelled once, and both copies are cited.

The modules are:

- `Visits` (visits.dfy) covers the background script:
  - `saveDailyVisit`, which updates or appends a visit record in the bucket `dailyVisits_<day>` and caps the bucket at 100 records, most recent first;
  - the http/https guard of the `tabs.onUpdated` and `tabs.onActivated` listeners;
  - `cleanupOldVisits`, which selects and removes the expired daily buckets.
  
  Storage is a map from key to a list of visit records. The clock (`Date.now()`), the day string, the retention cutoff and the date parser are parameters. The update and the cap are methods, each proved equal to a specification function. The cap sorts an array in place.
- `Sorting` (sorting.dfy) covers the descending sorts `list.sort((a, b) => key(b) - key(a))`:
  - the specification is a stable insertion sort (`SortDesc`), proved to be a permutation, ordered and stable;
  - `SortInPlace` is an in-place array insertion sort, proved equal to `SortDesc`.
- `Bookmarks` (bookmarks.dfy) covers two things:
  - `extractBookmarks`, which flattens the bookmark tree;
  - the decision in `toggleBookmark` between removing and creating a bookmark, made against the bookmark store seen as a sequence.
- `Text` (text.dfy) covers the lower-casing used by the search and `escapeHtml`.
- `Popup` (popup.dfy) covers the search filter `applySearch`, the tab switch, `loadTodaySites` in both variants, and `loadBookmarks`. The page's globals (`currentTab`, `allTodaySites`, `allBookmarks`, the search box and the last rendered lists) are the fields of class `PopupPage`.
- `Seqs` (seqs.dfy) holds shared definitions:
  - `startsWith` and `includes`;
  - order-preserving filtering;
  - subsequences;
  - uniqueness of a projection.

Where a JavaScript value can be missing or falsy (`tab.url`, `title`, a bookmark node's `url` or `children`), the model uses the empty string or the empty list. `result[key] || []` is `Visits.BucketOf`.

## Model

| member | source | states |
|---|---|---|
| Visits.DailyKey | background.js:46-47 | The bucket key is `dailyVisits_` followed by the day, and the day can be read back from it. The Firefox copy is firefox/background.js:59-60. |
| Visits.PrivateKey | firefox/popup.js:81-82 | The private key is `privateVisits_` followed by the same day, and it never starts with `dailyVisits_`. |
| Seqs.FirstIndex | background.js:54 | `findIndex` by a key: the result is the first position whose key equals the given one, or -1 exactly when no element has it. It serves both the visit lookup by url and the first hit of the bookmark search (popup.js:260-264). |
| Visits.FindIndex | background.js:54 | The linear scan of `findIndex` by url returns `FirstIndex`. The Firefox copy is firefox/background.js:69. |
| Visits.UpsertVisit | background.js:54-72 | The update-or-append step computes `Upsert`: it rewrites the first record with the url, or pushes a new record. The Firefox copy is firefox/background.js:69-87. |
| Visits.CapVisits | background.js:75-78 | The cap step computes `Cap`. A list of more than 100 records is sorted in an array, most recent first, and cut to 100. A shorter list is returned as it is. The Firefox copy is firefox/background.js:90-93. |
| Visits.SaveDailyVisit | background.js:45-85 | The store afterwards is `StoreAfterVisit`: today's bucket (missing reads as empty), updated and capped, is written back under the daily key. Every other key is unchanged. The Firefox copy is firefox/background.js:58-101. |
| Visits.RepeatVisitUpdatesInPlace | background.js:56-63 | In a bucket of at most 100 records, where no cap runs, a url already in the bucket keeps its position and is the only record changed. Its count goes up by 1, lastVisited becomes now, and its title is the new title if non-empty, else the old one. The length is unchanged. The Firefox copy is firefox/background.js:71-78. |
| Visits.NewVisitAppends | background.js:64-72 | In a bucket of fewer than 100 records, where no cap runs, a new url is appended at the end with count 1, lastVisited now and title `title` or, when that is empty, the url. Every earlier record is unchanged. The Firefox copy is firefox/background.js:79-87. |
| Visits.FirstVisitOfDay | background.js:46-51 | With no bucket for the day, the store gains exactly the daily key, holding the one new record. All other keys keep their values. |
| Visits.CapBounds | background.js:75-78 | A bucket never holds more than 100 records after the cap. At or under 100 the list is unchanged; over 100 exactly 100 remain. |
| Visits.CapKeepsMostRecent | background.js:75-78 | When the cap triggers, the survivors are ordered by non-increasing lastVisited and are a sub-multiset of the list. No evicted record is more recent than any kept one. The Firefox copy is firefox/background.js:90-93. |
| Visits.RecordVisitSources | background.js:54-78 | Every record after a save was in the bucket before, or carries the visited url. |
| Visits.RecordVisitKeepsUrlsUnique | background.js:54-78 | If urls are pairwise distinct in the bucket before a save, they are pairwise distinct after it. |
| Visits.VisitedUrlSurvives | background.js:54-78 | After a save the visited url is in the bucket with lastVisited = now, provided the cap cannot evict it: the bucket had room, or the url was already in a bucket of at most 100, or every stored visit is older than now. |
| Visits.NewUrlRecorded | background.js:64-78 | The first visit to a url not in the bucket leaves exactly one record with that url, the new one, when the bucket had room or every stored visit is older. In a full bucket the cap then sorts the new record first and keeps it; with room it is appended and nothing else changes. |
| Visits.RepeatedVisits | background.js:54-78 | n visits in a day to a url not in the bucket leave exactly one record with that url. Its count is n, lastVisited is the last visit's time, and its title is the last non-empty title, or the url. This holds when the bucket had room, and also for a full bucket whose stored visits are all older than the first of the n. With room, the record is at the end and the earlier records are unchanged. |
| Visits.ThreeVisitsExample | background.js:60-62 | Visits titled "A", "" and "A2" give one record titled "A2" with count 3. |
| Visits.ShouldRecord | background.js:27-29 | The listeners' guard, as a definition: a completed load or an activation of a non-empty url starting with `http://` or `https://` (background.js:38). Its properties are stated by `EventsRecordOnlyWebUrls`. |
| Visits.OnTabEvent | background.js:26-42 | The listeners save a visit only for a completed load or an activation whose url starts with `http://` or `https://`. Otherwise the store is unchanged. The Firefox copy is firefox/background.js:35-55. |
| Visits.EventsRecordOnlyWebUrls | background.js:26-42 | If every stored record has an http(s) url before an event, the same holds after it. A store changed by an event came from an http(s) url and, for an update, from a completed load. |
| Visits.RecordedEventIsStored | background.js:26-42 | An event that passes the guard leaves its url in today's bucket with lastVisited = now, whenever the cap cannot evict it (the three cases of `VisitedUrlSurvives`). |
| Visits.CleanupOldVisits | background.js:88-111 | The collected keys are exactly the `dailyVisits_` keys whose parsed date is before the cutoff, each once. The removal is issued exactly when that list is non-empty. The store afterwards lacks exactly those keys. The Firefox copy is firefox/background.js:104-127. |
| Visits.Expired | background.js:95-103 | The definition of a key that cleanup removes: a `dailyVisits_` key whose date parses to a time before the cutoff. `CleanupOldVisits` and `CleanupKeeps` state what it selects. |
| Visits.AfterCleanup | background.js:105-107 | The definition of the store after removal: every expired key is dropped. `CleanupRemovesExactlyExpired` and `CleanupIdempotent` state its properties. |
| Visits.CleanupRemovesExactlyExpired | background.js:95-107 | A key survives cleanup exactly when it is not expired, and a surviving key keeps its value. |
| Visits.CleanupKeeps | background.js:95-103 | The following survive: private buckets, daily buckets dated at or after the cutoff, and daily buckets whose date does not parse. A daily bucket dated before the cutoff is removed. The Firefox copy is firefox/background.js:111-119. |
| Visits.CleanupIdempotent | background.js:95-107 | A second cleanup with the same cutoff removes nothing more. |
| Sorting.SortDescCorrect | background.js:76 | The specification of `sort((a, b) => b.k - a.k)` is a permutation of its input, ordered by non-increasing key. |
| Sorting.SortDescStable | background.js:76 | The sort is stable: the elements sharing a key keep their relative order. |
| Sorting.InsertIntoPrefix | background.js:76 | Moving a[i] down into the sorted prefix a[..i] inserts it after every element whose key is at least its own. The rest of the array is unchanged. |
| Sorting.SortInPlace | background.js:76 | The in-place array sort leaves a[..] equal to the specification sort of its old contents. |
| Sorting.SortSeq | popup.js:77 | Sorting a list through an array yields the specification sort. |
| Sorting.SortDescStrictMaxFirst | background.js:76 | An element whose key is larger than every other element's comes first after sorting. |
| Seqs.IncludesIff | popup.js:56-57 | `includes` holds exactly when the query occurs at some offset. |
| Seqs.FilterCount | popup.js:55-58 | `filter` keeps every passing element with all its occurrences and drops the rest. |
| Seqs.FilterIsSubsequence | popup.js:55-58 | `filter` keeps the original order: its result is a subsequence of its input. |
| Bookmarks.Extracted | popup.js:92-106 | The definition of `extractBookmarks` as a recursive function: each node's own record when it has a url, then its subtree, then the following siblings. `ExtractedIsPreOrderWithUrl` and `ExtractedUrls` state what it produces. |
| Bookmarks.ExtractedIsPreOrderWithUrl | popup.js:92-106 | The extracted list is the url-bearing nodes of the depth-first pre-order traversal, in that order. A node comes before its children and siblings go left to right. The Firefox copy is firefox/popup.js:121-135. |
| Bookmarks.ExtractedUrls | popup.js:92-106 | Every extracted bookmark has a url, and every url-bearing node of the tree is extracted. |
| Bookmarks.Toggle | popup.js:257-279 | The definition of `toggleBookmark`'s effect: search by url; remove the first hit and clear the button, or create a bookmark and set the button. `ToggleDecision`, `ToggleButtonMatchesStore` and `ToggleTwiceRestores` state its properties. The Firefox copy is firefox/popup.js:286-308. |
| Bookmarks.ToggleDecision | popup.js:260-270 | If a bookmark has the url, exactly the first such bookmark is removed and the button is cleared. Otherwise exactly one bookmark with the title and url is appended and the button is set. The Firefox copy is firefox/popup.js:289-299. |
| Bookmarks.ToggleButtonMatchesStore | popup.js:260-270 | When at most one bookmark has the url, the button is set after a toggle exactly when the store holds a bookmark for the url. |
| Bookmarks.ToggleTwiceRestores | popup.js:260-270 | Toggling an unbookmarked url twice, with a fresh id, restores the store and leaves the button cleared. |
| Bookmarks.SearchFirst | popup.js:260-264 | The first hit of the url search is the first bookmark in the store with that url. |
| Bookmarks.RemoveAt | popup.js:264 | With unique ids, removing by the id of position i removes exactly that position. |
| Text.ToLower | popup.js:49 | Lower-casing keeps the length, maps each upper-case ASCII letter to the same letter in lower case, leaves no upper-case ASCII letter and changes no other character. |
| Text.ToLowerIdempotent | popup.js:49 | Lower-casing an already lower-cased query changes nothing. |
| Text.EscapePassesChar | popup.js:322-327 | One character through the five passes is its entity. No later pass touches an entity written by an earlier one. |
| Text.EscapeHtml | popup.js:320-328 | The definition of `escapeHtml`: the empty text gives "", any other text goes through the five chained replacements. `EscapeHtmlPerChar`, `EscapeHtmlNoMarkup` and `EscapeHtmlRoundTrip` state its properties. |
| Text.EscapeHtmlPerChar | popup.js:320-328 | The five chained replacements, `&` first, are the same as escaping each character on its own. No entity is escaped twice. |
| Text.EscapeHtmlNoMarkup | popup.js:320-328 | The escaped text contains no `<`, `>`, `"` or `'`. |
| Text.EscapeHtmlRoundTrip | popup.js:320-328 | Decoding the five entities recovers the original text. This covers the empty text, which escapes to "". |
| Popup.Matches | popup.js:55-65 | The definition of the search rule: the lower-cased title or the lower-cased url includes the query. `MatchesIsSubstring` states what it means. The Firefox copy is firefox/popup.js:57-67. |
| Popup.SearchSites | popup.js:54-59 | The definition of the Today filter: `allTodaySites` filtered by `Matches`. `SearchSitesExact` and `EmptyQueryKeepsAll` state its properties. |
| Popup.SearchBookmarks | popup.js:60-65 | The definition of the Bookmarks filter: `allBookmarks` filtered by `Matches`. `SearchBookmarksExact` and `EmptyQueryKeepsAll` state its properties. |
| Popup.MatchesIsSubstring | popup.js:55-58 | A site or bookmark matches exactly when the query occurs in its lower-cased title or its lower-cased url. |
| Popup.SearchSitesExact | popup.js:54-59 | The Today filter keeps exactly the matching sites, with all their occurrences, in the original order. The Firefox copy is firefox/popup.js:56-61. |
| Popup.SearchBookmarksExact | popup.js:60-65 | The Bookmarks filter keeps exactly the matching bookmarks, in the original order. The Firefox copy is firefox/popup.js:62-67. |
| Popup.EmptyQueryKeepsAll | popup.js:41-42 | The empty query keeps every site and every bookmark. |
| Popup.SearchIgnoresCase | popup.js:49-58 | Lower-case "exa" finds the title "Example Domain" and does not find "Blog" at https://b.org/. |
| Popup.MergedToday | firefox/popup.js:87-105 | The definition of the list collected before sorting: private then regular entries in a private window, otherwise the regular entries, a missing key reading as empty. `PrivateTodayList` and `RegularTodayList` state its properties. |
| Popup.PrivateTodayList | firefox/popup.js:87-107 | In a private window today's list holds exactly the private and the regular entries (each missing key reads as empty), by non-increasing lastVisited. Entries with equal times keep private before regular, each in stored order. |
| Popup.RegularTodayList | firefox/popup.js:101-107 | In a regular window today's list is the daily bucket reordered by non-increasing lastVisited. No entry from outside it appears. |
| Popup.BookmarkList | popup.js:108-109 | The bookmark list is a permutation of the extracted bookmarks, by non-increasing dateAdded, and has no url-less entry. The Firefox copy is firefox/popup.js:137-138. |
| Popup.PopupPage.constructor | popup.js:2-4 | A new popup starts on the Today tab with empty lists. |
| Popup.PopupPage.ApplySearch | popup.js:53-67 | Only the current tab's rendered list changes, and it becomes that tab's full list filtered by the query. |
| Popup.PopupPage.OnSearchInput | popup.js:46-51 | Typing filters the current tab with the lower-cased value. |
| Popup.PopupPage.SwitchTab | popup.js:26-43 | Switching makes the tab current, empties the search box and renders the tab's whole list. The other tab's rendering is untouched. The Firefox copy is firefox/popup.js:28-45. |
| Popup.PopupPage.LoadTodaySites | popup.js:70-84 | Today's list is the day's bucket (empty if missing), sorted most recent first, and it is rendered whole. |
| Popup.PopupPage.LoadTodaySitesInWindow | firefox/popup.js:72-113 | Today's list is private followed by regular entries in a private window, else the regular entries only. It is sorted most recent first and rendered whole. |
| Popup.PopupPage.ExtractBookmarks | popup.js:92-106 | The recursive walk appends exactly the extracted list of the given nodes to the bookmark list. |
| Popup.PopupPage.LoadBookmarks | popup.js:87-116 | The bookmark list is the tree's extracted bookmarks sorted by non-increasing dateAdded, and it is rendered. The Firefox copy is firefox/popup.js:116-145. |

## Left out

- Rendering is left out: DOM construction, `renderTodaySites`, `renderBookmarks`, `renderEmptyState` and `updateBookmarkButtons`. A render call is modelled only as the list handed to it.
- Also left out: event-listener wiring, `getFaviconUrl`, detached windows, `tabs.create`, keyboard commands and install logging. They are user interface over browser objects.
- The asynchronous storage, tabs and bookmarks calls are not modelled as promises. Storage is an explicit map, and a storage call never fails. Each function's `catch` branch (logging, or the empty-state message in the popup) is therefore not modelled.
- The clock and the calendar are parameters: `Date.now()`, `toISOString().split('T')[0]`, `setDate(getDate() - 7)`, and the mismatch between the UTC key date and the local cutoff. `new Date(dateStr)` is an arbitrary partial function from the key suffix to a time. An unparseable date is `None`, and `None` never counts as before the cutoff, just as a comparison with an invalid date is false.
- Scheduling through `alarms` or `setInterval` is left out, and so is the lost update when two saves overlap their read-modify-write. This is concurrency.
- Text.ToLower: lower-cases only the ASCII letters; JavaScript's `toLowerCase` also maps other Unicode letters.
- No code writes or deletes the `privateVisits_` buckets. They are only read, in the Firefox popup.
- The reload of the bookmark list that `toggleBookmark` performs on the Bookmarks tab is left out. The tree that `getTree` returns afterwards is host state, which the model does not derive from the flat store it toggles against.
- `removeBookmark` is left out, as are the button's CSS class changes. The class is modelled as the `bookmarked` flag.
- Bookmarks.Toggle: treats the bookmark store as a sequence. Its `search({url})` is exact url equality in store order; the browser also normalises urls and does not document the order. `create` appends a bookmark whose id and creation time the host supplies. The lemmas assume what the browser guarantees: ids are unique.
- Bookmarks.ToggleButtonMatchesStore: assumes at most one bookmark for the url. With several, the source removes only the first, and the button is cleared while others remain.
- Numbers are unbounded integers. JavaScript numbers are doubles, but timestamps and counts stay far below 2^53. A missing `visitCount` or `dateAdded`, which would give `NaN`, is not modelled.
- Tab names: only the two `data-tab` values of the page exist, as `Popup.Tab`. Any other name would reach `getElementById` with a missing element before `currentTab` changes.
- Visits.VisitedUrlSurvives: requires that the cap cannot evict the visit (room, a repeat visit within the cap, or a clock past every stored visit). Without that, a visit stamped with an older time can be evicted by the cap, as the source's sort permits.
- Visits.RepeatedVisits: a full bucket is covered only when every stored visit is older than the first of the n visits. Otherwise the cap may evict the new record, and the count then restarts.
