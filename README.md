# Bookmark store and tip-of-the-day card

This project models the two pieces of state logic in a mobile app for diagnosing potato-leaf diseases. Both models come with Dafny proofs.

- **Bookmark store** (`context/BookmarkContext.tsx`). The provider holds `bookmarks`, an ordered list of disease ids, which starts empty. `toggleBookmark(disease)` replaces the list. If `disease.id` is already in it, every occurrence is filtered out. Otherwise the id is appended at the end. `isBookmarked(id)` is a membership test. The model is the class `Bookmarks.BookmarkProvider`. The new list is computed by the pure function `Bookmarks.Toggled`, and `Bookmarks.ToggleAll` folds it over a run of toggles. Two ghost fields record the last loaded list and the ids toggled since then, so the class invariant ties `bookmarks` to that history.
- **Tip of the day** (`components/TipOfTheDay.tsx`). The card holds `tipIndex` and `tip` over the fixed pool of five `tipsOfTheDay` strings. Before the mount effect runs, the state is `""` and `0`. The mount effect picks some index of the pool and shows that tip. `getNextTip` advances the index modulo the pool size and shows the matching tip. The model is the class `Tips.TipOfTheDay`, the pure function `Tips.NextIndex`, and `Tips.Advance` for repeated advances.

The shared catalogue facts are in module `DiseaseData`: `Disease` has a string `id`, and the tip pool holds 5 entries (`constants/diseaseData.ts:1-7, 35-41`).

Behaviour of the code worth noting:
- A failed or absent load leaves the list as it is, so toggles made before the load finished are kept. A successful load overwrites the whole list, toggles made before it included.
- Loading does not check the stored list for duplicates. Duplicate-freedom is therefore proved as a property that toggling preserves (`ToggleKeepsNoDuplicates`, `ToggleAllNoDuplicates`), not as a class invariant.
- Toggling a present id removes every copy of it, not just one.

## Model

| member | source | states |
|---|---|---|
| `Bookmarks.RemoveAll` | context/BookmarkContext.tsx:60 | The filtered list does not contain the removed id. Every other id is in it exactly when it was in the input. Every other id occurs as often as before. The list is shorter by the number of copies removed. |
| `Bookmarks.RemoveAllAppend` | context/BookmarkContext.tsx:60 | Filtering a concatenation filters each part in turn, so the ids that remain keep their original relative order. |
| `Bookmarks.RemoveAllAbsent` | context/BookmarkContext.tsx:59-60 | Filtering out an id that is not in the list returns the list unchanged. |
| `Bookmarks.Toggled` | context/BookmarkContext.tsx:57-64 | The toggled id's membership flips, and every other id's membership is unchanged. A present id has all its copies filtered out. An absent id is appended as the last element, with all earlier elements and their order unchanged. |
| `Bookmarks.ToggleKeepsNoDuplicates` | context/BookmarkContext.tsx:59-62 | If the list has no duplicates before a toggle, it has none after. |
| `Bookmarks.ToggleLength` | context/BookmarkContext.tsx:59-62 | On a duplicate-free list, a toggle adds exactly one element when the id is absent and removes exactly one when it is present. |
| `Bookmarks.ToggleTwiceRestores` | context/BookmarkContext.tsx:59-62 | Toggling an absent id twice restores exactly the original list. |
| `Bookmarks.ToggleTwiceMovesToEnd` | context/BookmarkContext.tsx:59-62 | Toggling a present id twice gives the list with every copy of the id removed and one copy appended at the end. This equals the original list only when the id occurred once, as the last element. |
| `Bookmarks.ToggleAllSnoc` | context/BookmarkContext.tsx:57-64 | Running one more toggle after a run of toggles gives the same list as running the longer run. |
| `Bookmarks.ToggleAllParity` | context/BookmarkContext.tsx:57-69 | After any run of toggles, an id is present exactly when one of these holds, but not both: it was present at the start, or it was toggled an odd number of times. |
| `Bookmarks.ToggleAllFromEmpty` | context/BookmarkContext.tsx:57-69 | Starting from the initial empty list, an id is bookmarked after a run of toggles exactly when it was toggled an odd number of times. |
| `Bookmarks.ToggleAllNoDuplicates` | context/BookmarkContext.tsx:57-64 | Any run of toggles keeps a duplicate-free list duplicate-free. |
| `Bookmarks.BookmarkProvider.constructor` | context/BookmarkContext.tsx:26 | The provider starts with an empty list, nothing loaded and no toggles. |
| `Bookmarks.BookmarkProvider.Load` | context/BookmarkContext.tsx:29-42 | A parsed stored list replaces the whole in-memory list. When nothing was stored, or reading or parsing failed, the state is unchanged. |
| `Bookmarks.BookmarkProvider.ToggleBookmark` | context/BookmarkContext.tsx:57-65 | The new list is the toggled old list, and the disease id is added to the toggle history. The invariant that the list equals the history folded over the last loaded list is preserved. |
| `Bookmarks.BookmarkProvider.IsBookmarked` | context/BookmarkContext.tsx:67-69 | Holds exactly when the id is in `bookmarks`. In a valid state, that means it was in the loaded list or was toggled an odd number of times since, but not both. As a predicate it changes no state. |
| `Tips.NextIndex` | components/TipOfTheDay.tsx:26 | With a non-empty pool of size n, the next index always lies in [0, n). It is one more than the current index below the last position, and it wraps to 0 from index n - 1. |
| `Tips.AdvanceSteps` | components/TipOfTheDay.tsx:25-29 | While the end of the pool is not reached, k advances move the index forward by exactly k. |
| `Tips.AdvanceCompose` | components/TipOfTheDay.tsx:25-29 | Advancing a times and then b times is the same as advancing a + b times. |
| `Tips.AdvanceToZero` | components/TipOfTheDay.tsx:26 | From an in-range index i, n - i advances land on index 0. |
| `Tips.AdvanceFullCycle` | components/TipOfTheDay.tsx:25-29 | n advances from any in-range index return to that index, and so to the same tip. |
| `Tips.TipOfTheDay.constructor` | components/TipOfTheDay.tsx:15-16 | Before the mount effect runs, the tip is empty and the index is 0. The tip/index invariant does not yet hold. |
| `Tips.TipOfTheDay.Mount` | components/TipOfTheDay.tsx:18-23 | The mount effect picks some index of the pool and shows the tip at that index, which establishes the tip/index invariant. |
| `Tips.TipOfTheDay.GetNextTip` | components/TipOfTheDay.tsx:25-29 | The new index is the modular successor of the old one and always lies in range. The tip shown is the pool entry at the new index. This holds from any state, the pre-mount state included. |

## Left out

- Saving to storage after every change (context/BookmarkContext.tsx:44-55) is not modelled. It is asynchronous I/O with no effect on the in-memory list, and its write order is not modelled.
- Reading from storage and `JSON.parse` are not modelled. `Load` receives the outcome as a parameter: a parsed list of ids, or none. Stored JSON that parses to something other than a list of strings, such as `null`, is not modelled.
- React context creation, the default no-op context value and the `useBookmarks` hook are not modelled. They are framework plumbing.
- `Math.random` and the floating-point index computation of the mount effect are not modelled. `Mount` instead chooses any index in `[0, n)` nondeterministically.
- Rendering, the fade-in animation, icons and style sheets are not modelled. They are UI.
- The disease texts and image references in `constants/diseaseData.ts` are static content. The `Disease` datatype keeps only the text fields.
- The camera and library picker, the multipart upload and the prediction-result handling in `app/(tabs)/predict.tsx` sit outside the modelled core and are not modelled.
- React's update timing is not modelled. The model assumes each call sees the state committed by the previous one. It does not capture stale reads within one render: `isBookmarked` and `getNextTip` read the last rendered state, so two `getNextTip` calls before a re-render advance the index once in the code and twice in the model.
