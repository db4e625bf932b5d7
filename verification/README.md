# FrostWire helpers and Vuze's copy-on-write set, modelled in Dafny

This project models small pieces of the FrostWire desktop client and of the Vuze core it bundles:

- **`CopyOnWriteSet<T>`** (Vuze). The set copies its backing collection only when a mutation follows a call that handed that collection out. The handing-out calls are `getSet()` and `iterator()`. Membership uses either `equals` (a `HashSet`) or reference identity (an `IdentityHashSet`), and the mode is chosen once at construction.
  - `copy_on_write.dfy` models the set, its backing collection and its iterator as heap objects, so that "the collection handed out earlier" can be compared by reference with "the collection the set mutates now", as in the Java code.
  - `object_sets.dfy` holds the membership rules of the two backing collection kinds, as pure functions over `set<Obj<V>>`.
- **`LibraryUtils.getSecondsInDDHHMMSS`**: formats a duration as "N day(s)", "HH:MM:SS" or "MM:SS" (`library_utils.dfy`). Two readers, `ParseClock` and `ParseDays`, undo it.
- **`LibraryUtils.clean`**: trims a string and escapes its double quotes (`library_utils.dfy`). `Unescape` undoes it.
- **The list work of `LibraryUtils.movePlaylistItemsToIndex`** (`playlist_reorder.dfy`). This is the loop that moves the selected rows to the drop index one at a time, followed by the 1-based renumbering. The loop is modelled twice: as written, and with the correction described under Findings. The correction is proved against an independent reference, `BlockMove`, which places the unselected rows before the drop index, then the selected rows, then the remaining unselected rows.
- **`ClearBitsSearchResult`**: `getFileName` strips the search engine's `<b>`/`</b>` tags from the title; `getFilenameNoExtension`; and the constant getters (`clear_bits_search_result.dfy`).
- **`ThemeMediator`**: the font recommended for the interface language, and the add/remove operations on the theme-observer list (`theme_mediator.dfy`).

`java_strings.dfy` states the `java.lang.String` behaviour these helpers rely on:
- `trim`, which removes characters up to U+0020 from both ends;
- `startsWith` and `endsWith`;
- `replace`, a single left-to-right pass that rewrites each non-overlapping occurrence;
- `String.valueOf` for non-negative numbers.

`results.dfy` holds `Option`, `Result` and `Outcome`. These stand for Java's `null` returns and its exceptions.

Inputs the Java code reads from its surroundings are passed in as parameters instead:
- the configured language (`ApplicationSettings.getLanguage()`);
- the playlist's items;
- the search result's title.

Each `synchronized` method of the set is one atomic step.

## Model

| member | source | states |
|---|---|---|
| `CopyOnWrite.CopyOnWriteSet.Empty` | vuze/azureus2/src/com/aelitis/azureus/core/util/CopyOnWriteSet.java:37-51 | A new set starts empty, on a fresh backing collection of the chosen kind: identity or equality membership, fixed for the set's lifetime. That collection is not yet marked as handed out. |
| `CopyOnWrite.CopyOnWriteSet.Add` | vuze/azureus2/src/com/aelitis/azureus/core/util/CopyOnWriteSet.java:53-83 | The contents become the old contents plus the element's key. If the backing collection had been handed out, the set switches to a fresh copy and leaves the old collection untouched; otherwise it mutates the same object in place. Either way the flag ends cleared. |
| `CopyOnWrite.CopyOnWriteSet.Remove` | vuze/azureus2/src/com/aelitis/azureus/core/util/CopyOnWriteSet.java:85-117 | Returns true exactly when the element's key was present. The contents lose that key. The same copy-or-in-place rule as `add` applies, and the flag ends cleared. |
| `CopyOnWrite.CopyOnWriteSet.Contains` | vuze/azureus2/src/com/aelitis/azureus/core/util/CopyOnWriteSet.java:119-124 | Reports membership of the element's key in the current contents, and changes nothing. |
| `CopyOnWrite.CopyOnWriteSet.Size` | vuze/azureus2/src/com/aelitis/azureus/core/util/CopyOnWriteSet.java:126-130 | Returns the number of distinct keys held, and changes nothing. |
| `CopyOnWrite.CopyOnWriteSet.GetSet` | vuze/azureus2/src/com/aelitis/azureus/core/util/CopyOnWriteSet.java:132-141 | Returns the live backing object itself, not a copy, and marks it as handed out. |
| `CopyOnWrite.CopyOnWriteSet.Iterator` | vuze/azureus2/src/com/aelitis/azureus/core/util/CopyOnWriteSet.java:143-152 | Marks the backing object as handed out and returns an iterator that walks that same object, not a copy. The walk lists each element the object holds at this moment exactly once, in no promised order. The iterator starts valid: the object it walks still holds exactly those elements. |
| `CopyOnWrite.CopyOnWriteSetIterator.HasNext` | vuze/azureus2/src/com/aelitis/azureus/core/util/CopyOnWriteSet.java:168-172 | True exactly when the walk has elements left. |
| `CopyOnWrite.CopyOnWriteSetIterator.Next` | vuze/azureus2/src/com/aelitis/azureus/core/util/CopyOnWriteSet.java:174-180 | Only on a valid iterator, one whose walked object still holds what it held when the walk began. Yields the next element of the walk, which that object holds, and records it as the last one. At the end it fails with no such element and leaves the last one as it was. The iterator stays valid. |
| `CopyOnWrite.CopyOnWriteSetIterator.Remove` | vuze/azureus2/src/com/aelitis/azureus/core/util/CopyOnWriteSet.java:182-194 | Before any `next` it fails with an illegal state and leaves the set, its flag and its backing collection unchanged. Otherwise it acts as the set's own `remove` on the last yielded element: the backing contents lose that element's key, and the flag ends cleared. A collection that had been handed out is replaced by a fresh copy and itself left untouched; otherwise the same object is changed in place. The collection the walk runs over is never changed. |
| `CopyOnWrite.SnapshotSurvives` | vuze/azureus2/src/com/aelitis/azureus/core/util/CopyOnWriteSet.java:53-152 | After `getSet()`, any run of calls leaves the returned object's contents unchanged. The set ends up holding exactly what the run's add/remove calls leave, applied in order to the snapshot. |
| `CopyOnWrite.MutationKeepsIteratorValid` | vuze/azureus2/src/com/aelitis/azureus/core/util/CopyOnWriteSet.java:53-150 | An open iterator stays valid through any `add` or `remove` on its set. The walked object keeps the elements it had when the walk began, the walk itself is untouched, and the set's own contents change as the call says. |
| `CopyOnWrite.IteratorRemoveSparesSnapshot` | vuze/azureus2/src/com/aelitis/azureus/core/util/CopyOnWriteSet.java:132-194 | After `getSet()`, an `iterator()`, one `next()` and one iterator `remove()` leave the `getSet()` result's contents unchanged. On a non-empty set the removal succeeds and the set loses one element. On an empty set it is rejected and the set is unchanged. |
| `CopyOnWrite.IteratorSeesFrozenView` | vuze/azureus2/src/com/aelitis/azureus/core/util/CopyOnWriteSet.java:143-180 | An iterator taken when the set holds only `a` stays valid through an `add(b)`, because the `add` copies the handed-out object instead of changing it. The iterator then yields `a` and stops. |
| `CopyOnWrite.AddWhileIteratingIsSeen` | vuze/azureus2/src/com/aelitis/azureus/core/util/CopyOnWriteSet.java:53-130 | An element added while an iterator is open is visible to `contains` and `size` on the set itself. |
| `ObjectSets.Insert` | vuze/azureus2/src/com/aelitis/azureus/core/util/CopyOnWriteSet.java:59-81 | The keys grow by exactly the added element's key. At most that one element is stored, and only when no element with its key was stored. No two stored elements ever share a key. |
| `ObjectSets.Delete` | vuze/azureus2/src/com/aelitis/azureus/core/util/CopyOnWriteSet.java:91-115 | The keys lose exactly the element's key and nothing else is dropped. The size falls by one when the key was present, and nothing changes when it was absent. |
| `ObjectSets.SizeCountsKeys` | vuze/azureus2/src/com/aelitis/azureus/core/util/CopyOnWriteSet.java:126-130 | In a collection whose elements have distinct keys, the size equals the number of keys. |
| `ObjectSets.InsertIdempotent` | vuze/azureus2/src/com/aelitis/azureus/core/util/CopyOnWriteSet.java:53-83 | Adding the same element twice leaves what adding it once leaves. |
| `ObjectSets.IdentityKeepsEqualValues` | vuze/azureus2/src/com/aelitis/azureus/core/util/CopyOnWriteSet.java:37-51 | In identity mode, two distinct objects are both kept even when `equals` says they are equal. |
| `ObjectSets.EqualityMergesEqualValues` | vuze/azureus2/src/com/aelitis/azureus/core/util/CopyOnWriteSet.java:37-51 | In equality mode, an object equal to a stored one is not added, and the first one stays. |
| `ObjectSets.NetMembership` | vuze/azureus2/src/com/aelitis/azureus/core/util/CopyOnWriteSet.java:53-124 | After a run of adds and removes, an element is a member exactly when the last call about its key was an add. When no call touched it, it is a member as it was before. |
| `LibraryUtils.SecondsInDDHHMMSS` | gui/com/frostwire/gui/library/LibraryUtils.java:124-171 | The result's shape follows the size of the count. Below an hour, negatives included, it is five characters with a colon third. From an hour up to a day it is eight characters with colons third and sixth. From a day up it has no colon and ends in " day" or " days". |
| `LibraryUtils.NegativeIsZero` | gui/com/frostwire/gui/library/LibraryUtils.java:124-127 | A negative count formats like zero, as "00:00". |
| `LibraryUtils.Pad2RoundTrip` | gui/com/frostwire/gui/library/LibraryUtils.java:147-149 | A field below 100 is padded to exactly two digits that read back as the number. |
| `LibraryUtils.UnderAnHour` | gui/com/frostwire/gui/library/LibraryUtils.java:136-170 | Below an hour the result is exactly "MM:SS", with minutes `s/60` and seconds `s%60`, each below 60. |
| `LibraryUtils.UnderADay` | gui/com/frostwire/gui/library/LibraryUtils.java:136-170 | From an hour up to a day the result is "HH:MM:SS", each field two digits: hours below 24, minutes and seconds below 60. |
| `LibraryUtils.ClockRoundTrip` | gui/com/frostwire/gui/library/LibraryUtils.java:124-171 | Below a day, reading the printed clock back gives the original number of seconds. |
| `LibraryUtils.DaysRoundTrip` | gui/com/frostwire/gui/library/LibraryUtils.java:137-159 | From a day up only the whole days are printed. They read back as `s/86400`, with the plural "s" exactly when there is more than one day. |
| `LibraryUtils.Clean` | gui/com/frostwire/gui/library/LibraryUtils.java:802-804 | In the result every double quote is directly preceded by a backslash. |
| `LibraryUtils.EscapeQuotesMarksEachQuote` | gui/com/frostwire/gui/library/LibraryUtils.java:803 | Replacing `"` by `\"` leaves no quote without a backslash before it. |
| `LibraryUtils.EscapeRoundTrip` | gui/com/frostwire/gui/library/LibraryUtils.java:803 | The quote escaping loses nothing: unescaping gives back the text. |
| `LibraryUtils.CleanRoundTrip` | gui/com/frostwire/gui/library/LibraryUtils.java:802-804 | Unescaping the result of `clean` gives exactly the trimmed input. |
| `LibraryUtils.CleanLeavesPlainText` | gui/com/frostwire/gui/library/LibraryUtils.java:802-804 | Text with no quotes and no surrounding whitespace is returned unchanged. |
| `JavaStrings.Trim` | gui/com/frostwire/gui/library/LibraryUtils.java:803 | The result is a contiguous slice of the input. Everything cut off on either side is whitespace in Java's sense, and the result neither starts nor ends with such a character. |
| `JavaStrings.TrimLeavesTidyString` | gui/com/frostwire/gui/library/LibraryUtils.java:803 | A string that neither starts nor ends with whitespace is its own trim. |
| `JavaStrings.ReplaceAll` | gui/com/limegroup/gnutella/gui/search/ClearBitsSearchResult.java:50 | Text that does not contain the pattern comes back unchanged. |
| `JavaStrings.ReplaceAllLength` | gui/com/limegroup/gnutella/gui/search/ClearBitsSearchResult.java:50 | Each occurrence the left-to-right scan rewrites trades the pattern's length for the replacement's length. |
| `JavaStrings.ReplaceAllPassesOver` | gui/com/limegroup/gnutella/gui/search/ClearBitsSearchResult.java:50 | A prefix in which no occurrence starts is copied through unchanged, whatever follows it. |
| `JavaStrings.DecimalRoundTrip` | gui/com/frostwire/gui/library/LibraryUtils.java:146 | A number's decimal digits read back as the number. |
| `PlaylistReorder.MoveStep` | gui/com/frostwire/gui/library/LibraryUtils.java:816-817 | One add-then-remove keeps the list's length. The moved entry sits just before the entry that was at `target`: at `target - 1` for a forward move, at `target` otherwise. |
| `PlaylistReorder.MoveStepSlices` | gui/com/frostwire/gui/library/LibraryUtils.java:816-817 | An add at `target` followed by a remove of the original moves the entry at `source` to just before the old `target` entry. A forward move shifts the entries in between down, a backward move shifts them up, and a move onto itself changes nothing. |
| `PlaylistReorder.MoveStepPermutes` | gui/com/frostwire/gui/library/LibraryUtils.java:816-817 | A move rearranges the entries without losing or duplicating any. |
| `PlaylistReorder.ShiftSelection` | gui/com/frostwire/gui/library/LibraryUtils.java:820-824 | Selection entries up to the current one are kept. Each later entry below the insertion point moves down by one, and the others are kept. |
| `PlaylistReorder.ReorderAsWritten` | gui/com/frostwire/gui/library/LibraryUtils.java:812-831 | The loop as written, including the out-of-bounds failures of `get` and `add`. When it succeeds it yields a rearrangement of the entries. |
| `PlaylistReorder.Reorder` | gui/com/frostwire/gui/library/LibraryUtils.java:812-831 | The corrected loop, which also advances the insertion point past a row already in place. When it succeeds it yields a rearrangement of the entries. |
| `PlaylistReorder.ReorderMovesBlock` | gui/com/frostwire/gui/library/LibraryUtils.java:806-831 | The corrected loop succeeds for any ascending selection of valid rows and any valid drop index. It yields the unselected rows before the index, then the selected rows in selection order, then the remaining unselected rows. |
| `PlaylistReorder.AsWrittenSwapsBlockAtDropPoint` | gui/com/frostwire/gui/library/LibraryUtils.java:815-829 | Selecting rows 3 and 4 of five and dropping them at row 3 swaps the two rows in the loop as written. The corrected loop leaves the list alone. |
| `PlaylistReorder.Renumber` | gui/com/frostwire/gui/library/LibraryUtils.java:834-837 | Every entry keeps its track and position, and entry `i` gets sort index `i + 1`. |
| `PlaylistReorder.MovePlaylistItemsToIndex` | gui/com/frostwire/gui/library/LibraryUtils.java:806-838 | On success the entries are a rearrangement of the old ones, numbered 1, 2, 3, ... in their new order. For an ascending selection of valid rows and a valid drop index it succeeds, and the selected block lands at the drop index. |
| `ClearBitsSearchResult.ConstantGetters` | gui/com/limegroup/gnutella/gui/search/ClearBitsSearchResult.java:43-91 | The extension is "torrent" and the host is "http://www.clearbits.net/". The speed is 2147483645, two below the largest `int`. The secure status is 0. |
| `ClearBitsSearchResult.StripBoldShortens` | gui/com/limegroup/gnutella/gui/search/ClearBitsSearchResult.java:50 | Removing the two tags never lengthens the title, and a title containing neither tag is left as it is. |
| `ClearBitsSearchResult.GetFileName` | gui/com/limegroup/gnutella/gui/search/ClearBitsSearchResult.java:48-52 | The file name always ends in ".torrent", and what precedes it is the title after one `<b>` pass and one `</b>` pass. It is at most 8 characters longer than the title. A title with neither tag gives `title + ".torrent"`. |
| `ClearBitsSearchResult.FileNameCarriesExtension` | gui/com/limegroup/gnutella/gui/search/ClearBitsSearchResult.java:44-52 | The file name is the stripped title followed by "." and the extension the result reports. |
| `ClearBitsSearchResult.HighlightStripped` | gui/com/limegroup/gnutella/gui/search/ClearBitsSearchResult.java:49-52 | A tag-free title wrapped in `<b>`…`</b>` gives the bare title plus ".torrent". |
| `ClearBitsSearchResult.NestedTagSurvives` | gui/com/limegroup/gnutella/gui/search/ClearBitsSearchResult.java:50 | Removal is a single pass: in "<<b>b>" the `<b>` formed by removing the inner one survives. |
| `ClearBitsSearchResult.ClosingTagFormedByFirstPass` | gui/com/limegroup/gnutella/gui/search/ClearBitsSearchResult.java:50 | The `</b>` pass runs on the output of the `<b>` pass, so a closing tag formed by the first pass is removed. |
| `ClearBitsSearchResult.GetFilenameNoExtension` | gui/com/limegroup/gnutella/gui/search/ClearBitsSearchResult.java:54-57 | The result is the untouched title, tags kept, between "<html>" and "</html>". |
| `ThemeMediator.RecommendedFontName` | gui/com/frostwire/gui/theme/ThemeMediator.java:171-195 | A null language gives no font. A font is given exactly when the language starts with one of the five table prefixes. |
| `ThemeMediator.FontNameFollowsTable` | gui/com/frostwire/gui/theme/ThemeMediator.java:171-195 | The chain of `startsWith` tests agrees with a first-match lookup in the prefix table. |
| `ThemeMediator.PrefixDecidesFont` | gui/com/frostwire/gui/theme/ThemeMediator.java:176-191 | Any language that starts with a table prefix gets that prefix's font: "ja" Meiryo, "ko" Malgun Gothic, "zh" Microsoft JhengHei, "he" Gisha, "th" Leelawadee. |
| `ThemeMediator.EveryChineseVariant` | gui/com/frostwire/gui/theme/ThemeMediator.java:182-185 | Every language starting with "zh" gets Microsoft JhengHei, whatever follows the prefix. |
| `ThemeMediator.AddThemeObserver` | gui/com/frostwire/gui/theme/ThemeMediator.java:86-88 | The observer is appended at the end, duplicates allowed, and the earlier entries are kept in order. |
| `ThemeMediator.RemoveThemeObserver` | gui/com/frostwire/gui/theme/ThemeMediator.java:98-100 | An absent observer leaves the list unchanged, and a present one shortens it by one. |
| `ThemeMediator.RemoveCutsFirstOccurrence` | gui/com/frostwire/gui/theme/ThemeMediator.java:98-100 | Removal cuts out exactly the first equal entry and keeps the rest in order. |
| `ThemeMediator.RemoveDropsOneCopy` | gui/com/frostwire/gui/theme/ThemeMediator.java:98-100 | Removal takes away one copy of the observer, if there is one, and nothing else. |
| `ThemeMediator.RemoveUndoesAdd` | gui/com/frostwire/gui/theme/ThemeMediator.java:86-100 | Removing an observer that was just added, and was not there before, restores the list. |
| `ThemeMediator.RemoveKeepsDuplicate` | gui/com/frostwire/gui/theme/ThemeMediator.java:86-100 | An observer registered twice is still registered after one removal. |

## Left out

- Concurrency in `CopyOnWriteSet`: the monitor, the `volatile` publication of the backing field and the unsynchronised reads in `contains`/`size`. Each method is one atomic step.
- `HashSet`/`IdentityHashSet` internals and iteration order. A backing collection is a mathematical set of objects filed by key. The iterator walks some enumeration of it, with no order promised.
- `null` elements and `null` strings. A `null` element in the set, and the iterator's `last == null` test on a `null` element that was really yielded, are not modelled.
- Running out of memory while copying the backing collection.
- The wrapped `HashSet` iterator's fail-fast check. Java throws `ConcurrentModificationException` when a set is changed under its iterator. The model instead makes `next()` require a valid iterator, one whose walked object is unchanged, and proves that the set's own calls keep it so.
- CopyOnWrite.CopyOnWriteSetIterator.Remove: follows the code. `last` is never cleared, so a second `remove()` without `next()` is accepted and removes the same element again, which is a no-op on the set. The documented contract of `java.util.Iterator.remove()` forbids this: it throws `IllegalStateException` when `remove` has already been called after the last call to `next`. This implementation does not enforce that.
- PlaylistReorder.MovePlaylistItemsToIndex: it does not model the following.
  - `item.save()`, the database write. The result carries the new sort indexes instead.
  - The view refresh through `GUIMediator`.
  - The in-place changes to the caller's `selectedIndexes` array.
  - The partly reordered list that an exception mid-loop leaves behind. The model reports the error and returns no list.
- PlaylistReorder.MovePlaylistItemsToIndex: uses the corrected loop described under Findings. The loop as written is `PlaylistReorder.ReorderAsWritten`.
- LibraryUtils.Clean: strings are sequences of Dafny characters, not Java's UTF-16 code units. The two differ only outside the Basic Multilingual Plane, and neither `trim` nor the quote replacement touches those characters.
- Integer width: `getSecondsInDDHHMMSS` takes an `int`, and the model uses unbounded integers. No arithmetic in it can overflow, because it only divides and takes remainders of a non-negative value. Playlist positions and selected indexes are Java `int`s, and the model uses unbounded integers for them too.
- ClearBits: `getCreationTime` (date parsing and the clock), `getSpamRating` (floating point), `getSize` (its field's type is not part of this model), `getQuality`, `getHash`, `getVendor`, and the GUI and network actions.
- ThemeMediator: look-and-feel switching, font installation, component-tree updates and the observers' `updateTheme` callbacks. These are Swing side effects.
- The rest of `LibraryUtils`: playlist creation and other threads, database saves, dialogs, file-system walks, tag reading, the radio-station probe and the floating-point playlist duration.

## Findings

| source | as written | input that shows it | evidently intended | confidence | as-written member | corrected member |
|---|---|---|---|---|---|---|
| gui/com/frostwire/gui/library/LibraryUtils.java:815-829 | when a selected row already sits at the insertion point the loop skips it without advancing `targetIndex`, so the next selected row is inserted in front of it | items `[10,11,12,13,14]`, `selectedIndexes = [3,4]`, `index = 3` gives `[10,11,12,14,13]` | the selected rows end up together at the drop index in selection order, so here the list stays `[10,11,12,13,14]`; the insertion point should move past a row that is already in place | not executed | `PlaylistReorder.AsWrittenSwapsBlockAtDropPoint` | `PlaylistReorder.ReorderMovesBlock` |
