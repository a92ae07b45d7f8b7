# Quick search for the pfSense web console, modelled in Dafny

The project models the two halves of the quick-search feature.

The server half, `diag_quicksearch.php`, builds a flat index of the console's pages. For each PHP file it records the UI strings mined from the source, the file's web path and a page title. The index lives in a shared-memory cache that expires after 30 minutes, and a build lock keeps a second request from rebuilding a stale index while a rebuild is in progress. A missing or empty index is built without the lock (diag_quicksearch.php:369-372). The endpoint answers a query with at most 50 ranked results, one per page.

The client half, `quicksearch_inline.js`, takes those results, picks a title for each and groups them under shared " / " prefixes. It then renders them and moves a keyboard cursor over the visible rows.

Modules, one per file:

- `Wrappers`: `Option`.
- `Text`: ASCII character classes, lower and upper case, `\s+` collapsing, PHP `trim`, substring search, `implode`, and the byte-wise string order (`strcmp`, and `localeCompare` as modelled).
- `Seqs`: duplicate removal in first-seen order, `array_filter` on empty strings, flattening, and a stable insertion sort proved sorted and a permutation.
- `ServerText`:
  - `norm_text`, `looks_meaningful`, `prettify_filename` and PHP `basename`;
  - `should_skip_path`.
- `SourceIndex`:
  - `derive_page_title_from_php`, with the regex results given as input;
  - `extract_texts_from_php`;
  - `build_source_index` as a method with its nested loop and `break 2`, proved equal to a specification function.
- `Search`:
  - `norm` and the `preg_split`/`array_filter` word split;
  - the token-boundary test that `token_regex` builds;
  - `score_item` in integer tenths, as a method with its loop;
  - `search_ranked`: filter, score, sort, keep the first result per path, cap, renumber.
- `Cache`: the `QsCache` class over a map, the `?rebuild` operation, and the MAIN block's refresh policy. The block is modelled step by step as a method, and as a function with one lemma per branch.
- `ClientText`: `escapeHtml` (safety and a round trip with a decoder), `humanizePath` and `titleFromItem`.
- `Grouping`: `groupItems`.
  - The two counting loops and the assignment loop are methods, proved equal to a specification function.
  - Lemmas prove the properties: every titled record lands exactly once, in the group named by its key or in the singles. Every group key is shared by at least two records, and the groups and singles are sorted as the comparators say.
- `Focus`: `keyboardIndex` and the length of `focusables` as a class, changed by `clearList`, `render`, `updateFocusables` and `focusStep`.

One behaviour of `groupItems` is worth knowing. `freq1` also counts records that go to a two-segment group, so a first-segment group can hold a single record (`Grouping.OneItemGroup`).

`?rebuild` removes the index, its time stamp and the lock (diag_quicksearch.php:101-104), and nothing else.

A request with `?rebuild` never gets as far as the query. The code handles `?rebuild` and stops (diag_quicksearch.php:101-107) before the MAIN block looks at `q` (diag_quicksearch.php:360). So `Cache.Rebuild` and `Cache.Answer` model two separate requests, and the model has no request-level dispatch between them.

## Model

| member | source | states |
|---|---|---|
| Text.CollapseTrimClean | diag_quicksearch.php:113-114 | collapsing `\s+` runs and trimming leaves single spaces only and no space at either end |
| Text.StrLeTotal | diag_quicksearch.php:334 | the string order used for `strcmp` and `localeCompare` relates every pair of strings |
| Text.StrLeTrans | diag_quicksearch.php:334 | the string order is transitive |
| Text.StrLeAntisym | diag_quicksearch.php:334 | strings ordered both ways are equal |
| Seqs.DedupSpec | diag_quicksearch.php:209-210 | the `$seen`/`$uniq` pass keeps each value once, keeps exactly the input's values, in first-seen order, and never adds entries |
| Seqs.DropEmptyMembers | quicksearch_inline.js:317 | `filter(Boolean)` keeps exactly the non-empty pieces |
| Seqs.SortSpec | quicksearch_inline.js:349-353 | the sort yields a sequence ordered by the comparator that is a permutation of its input |
| Seqs.SortPerm | diag_quicksearch.php:333-336 | sorting keeps the multiset and the length for any comparator |
| ServerText.CleanSpec | diag_quicksearch.php:113-114 | the cleaned text has single spaces only and starts and ends outside PHP's trim set |
| ServerText.NormText | diag_quicksearch.php:110-118 | empty exactly when the clean text is, at most `max`+1 characters, the clean text itself when short enough, otherwise its first `max` characters followed by "…" |
| ServerText.NormTextIdempotent | diag_quicksearch.php:110-118 | normalising a normalised text changes nothing |
| ServerText.CleanFixed | diag_quicksearch.php:113-114 | an already clean text is left unchanged by cleaning |
| ServerText.Unscore | diag_quicksearch.php:126 | `_` becomes a space, every other character is kept, and no `_` is left |
| ServerText.UcWords | diag_quicksearch.php:129 | same length; the first character and each one after a default delimiter are upper-cased, and every other character is left as it is |
| ServerText.UcWordsLower | diag_quicksearch.php:129 | `ucwords` changes only case: the lower-case form is kept |
| ServerText.FilenameWordsShape | diag_quicksearch.php:125-128 | the words of a file name have no `_`, single spaces and no space at the ends; an empty name gives no words |
| ServerText.PrettifyShape | diag_quicksearch.php:124-130 | the pretty name is empty only for an empty base, and is the base itself when the cleaned words are empty; otherwise it is the cleaned words with the first character and each one after a space upper-cased and every other character unchanged: same length and lower-case form, no `_`, single spaces, no outer spaces |
| ServerText.AfterLastSlashShape | diag_quicksearch.php:136 | the text after the last `/` is a suffix of the path preceded by a `/` whenever it is shorter |
| ServerText.Basename | diag_quicksearch.php:136 | `basename` never contains a `/` |
| ServerText.BasenameLower | diag_quicksearch.php:134-136 | taking the basename commutes with lower-casing |
| SourceIndex.Cap | diag_quicksearch.php:279 | a cap below one still lets one record out, because the count is compared with it only after the append |
| SourceIndex.NonEmptyNormMembers | diag_quicksearch.php:156 | a crumb is kept exactly when it is the non-empty `norm_text` of a raw `$pgtitle` string |
| SourceIndex.PageTitleSpec | diag_quicksearch.php:143-181 | crumbs are non-empty, duplicate-free and in first-seen order; without a NAME directive the title starts with the first crumb and contains every crumb; a non-empty file name never gives an empty title |
| SourceIndex.Keep | diag_quicksearch.php:186-190 | `$add` appends the text exactly when there is room and it looks meaningful, and otherwise leaves the list alone |
| SourceIndex.Gather | diag_quicksearch.php:185-207 | at most `cap` texts, each meaningful |
| SourceIndex.GatherFrom | diag_quicksearch.php:185-207 | every gathered text is one of the candidates |
| SourceIndex.GatherComplete | diag_quicksearch.php:187-189 | a meaningful candidate is not lost while the cap is not reached |
| SourceIndex.ExtractedSpec | diag_quicksearch.php:184-212 | extracted texts are duplicate-free, at most `cap`, each meaningful and at most `maxlen`+1 long, exactly the gathered texts in first-seen order, and complete while the cap is not reached |
| SourceIndex.ExtractTexts | diag_quicksearch.php:184-212 | the method returns the extracted texts |
| SourceIndex.AddAll | diag_quicksearch.php:185-207 | the `$add` loop returns the gathered texts |
| SourceIndex.Unique | diag_quicksearch.php:209-211 | the `$seen`/`$uniq` loop returns the deduplicated list |
| SourceIndex.WebPath | diag_quicksearch.php:263-265 | the web path starts with `/` |
| SourceIndex.WebPathNotSkipped | diag_quicksearch.php:257-265 | a file path that passes `should_skip_path` gives a web path that passes it too |
| SourceIndex.FileTexts | diag_quicksearch.php:269-270 | a file always contributes at least one text |
| SourceIndex.BuildSpec | diag_quicksearch.php:249-284 | at most `max_index` records (at least one allowed), ids equal position + 1, every record has a page, and exactly the first `Cap` rows are kept |
| SourceIndex.BuildUnderCap | diag_quicksearch.php:272-281 | when all rows fit, the index is all of them numbered |
| SourceIndex.BuildAtCap | diag_quicksearch.php:279 | once the cap is reached, the index is the first `Cap` rows |
| SourceIndex.BuildStopped | diag_quicksearch.php:279 | `break 2` inside file `i` yields the full specification |
| SourceIndex.IndexFile | diag_quicksearch.php:257-270 | an accepted file yields its texts, web path and page title |
| SourceIndex.BuildSourceIndex | diag_quicksearch.php:249-284 | the nested loop with `break 2` computes the specification |
| SourceIndex.AddFile | diag_quicksearch.php:256-281 | one file's rows are appended until the cap stops the build |
| SourceIndex.AppendRows | diag_quicksearch.php:272-280 | the inner loop appends rows and reports whether the cap was reached |
| SourceIndex.BuildNotSkipped | diag_quicksearch.php:257 | no record of the index has a path that `should_skip_path` rejects |
| SourceIndex.BuildRejected | diag_quicksearch.php:257-260 | a skipped, empty, oversized or unreadable file adds nothing |
| SourceIndex.BuildFallback | diag_quicksearch.php:270 | a file with no extracted texts adds exactly one record titled with its pretty file name |
| Search.NormSpec | diag_quicksearch.php:287-291 | normalised text has single spaces, no trim characters at the ends and no upper case, and normalising twice is normalising once |
| Search.SpaceIndex | diag_quicksearch.php:322 | the first `\s` character, or the end |
| Search.SplitWs | diag_quicksearch.php:322 | `preg_split` always yields at least one piece |
| Search.Truthy | diag_quicksearch.php:322 | `array_filter` drops "" and "0" |
| Search.SplitPiecesSpaceFree | diag_quicksearch.php:322 | each piece of the split is free of whitespace |
| Search.SplitPiecesContained | diag_quicksearch.php:322 | each piece of the split occurs in the query |
| Search.SplitJoin | diag_quicksearch.php:322 | joining the pieces of a single-spaced text with spaces gives the text back |
| Search.WordsSpec | diag_quicksearch.php:322 | a query word is a piece that is neither "" nor "0"; it has no whitespace and occurs in the query |
| Search.TokenMatchSpec | diag_quicksearch.php:292-295 | the token test holds exactly when the word occurs somewhere with no letter or digit on either side |
| Search.TokenContains | diag_quicksearch.php:308-309 | a token match is also a substring match |
| Search.WordHitSpec | diag_quicksearch.php:306-310 | one word adds between 0 and 1.1, something exactly when it occurs in the text or in the path, and at least 1.0 on a token match |
| Search.HitsSpec | diag_quicksearch.php:303-311 | the hits are bounded by 1.1 per word, and positive exactly when some word hits |
| Search.ScoreSpec | diag_quicksearch.php:298-317 | the score is positive exactly when the title is non-empty and some word occurs in the title or path; it is bounded; an empty title scores 0 |
| Search.ScoreItem | diag_quicksearch.php:298-317 | the scoring loop computes the score |
| Search.FilteredSpec | diag_quicksearch.php:325-330 | a candidate is a document that is not skipped, with its own positive score |
| Search.CandidatesSpec | diag_quicksearch.php:325-330 | the same for the `score_item` score |
| Search.CollectCandidates | diag_quicksearch.php:325-330 | the candidate loop computes the candidates |
| Search.CandLeTotalPreorder | diag_quicksearch.php:333-336 | higher score first, then `strcmp` on the title, is a total preorder |
| Search.Shown | diag_quicksearch.php:354 | the number shown is all of them or the cap, whichever is smaller |
| Search.FirstByPathFrom | diag_quicksearch.php:338-343 | a kept candidate is a candidate |
| Search.FirstByPathComplete | diag_quicksearch.php:338-343 | every non-empty path among the candidates is kept |
| Search.FirstByPathDistinct | diag_quicksearch.php:341-342 | kept paths are non-empty and pairwise distinct |
| Search.FirstByPathFirst | diag_quicksearch.php:341-342 | the kept candidate for a path is its first occurrence in ranked order |
| Search.FirstByPathSorted | diag_quicksearch.php:338-343 | keeping the first per path keeps the ranking order |
| Search.PickByPath | diag_quicksearch.php:338-356 | the pick loop with its `break` computes the results |
| Search.SearchRanked | diag_quicksearch.php:320-357 | the method computes the specification |
| Search.ResultsShape | diag_quicksearch.php:338-356 | at most the cap, ids equal position + 1, paths non-empty and distinct |
| Search.ResultsFirst | diag_quicksearch.php:339-353 | every result is the first ranked candidate with its path |
| Search.ResultsComplete | diag_quicksearch.php:339-355 | below the cap, every ranked path appears in the results |
| Search.SearchShape | diag_quicksearch.php:320-357 | an empty query or no candidates give no results; otherwise at most `limit` results, numbered from 1, with non-empty, not-skipped, distinct paths |
| Search.RankedSpec | diag_quicksearch.php:331-336 | the ranking is sorted and a permutation of the candidates |
| Search.SearchFirstRanked | diag_quicksearch.php:320-357 | each result is the best-ranked candidate for its path |
| Search.SearchComplete | diag_quicksearch.php:320-357 | below the cap, every ranked path appears among the results |
| Cache.PutGet | diag_quicksearch.php:89-95 | after `set(k, v)`, `get(k)` is `v`, null included |
| Cache.PutOther | diag_quicksearch.php:89-95 | `set(k, v)` leaves every other key as it was |
| Cache.PutKeys | diag_quicksearch.php:92 | null removes the key; a value adds exactly that key |
| Cache.QsCache.constructor | diag_quicksearch.php:72-79 | a fresh segment reads as an empty map |
| Cache.QsCache.Get | diag_quicksearch.php:81-87 | `get` returns the stored value or null |
| Cache.QsCache.Set | diag_quicksearch.php:89-95 | `set` replaces the map by its update |
| Cache.Usable | diag_quicksearch.php:365-369 | the cached index is used exactly when it is a non-empty array |
| Cache.RefreshMissing | diag_quicksearch.php:369-372 | a missing or empty index is built and stamped with now; the lock and every other key are unchanged |
| Cache.RefreshFresh | diag_quicksearch.php:373 | an index at most 1800 s old is served and the cache is left alone |
| Cache.RefreshStaleUnlocked | diag_quicksearch.php:374-384 | a stale index with an expired lock is replaced and restamped only by a non-empty build and kept otherwise; the lock ends cleared; other keys are unchanged |
| Cache.RefreshStaleLocked | diag_quicksearch.php:374-375 | a stale index with a held lock is served and the cache is left alone |
| Cache.RefreshCoherent | diag_quicksearch.php:365-385 | the served index is the one cached afterwards, and a usable index is never replaced by an empty one |
| Cache.RebuildForcesBuild | diag_quicksearch.php:101-104 | after `?rebuild`, the next request builds, stamps with now and holds no lock |
| Cache.Rebuild | diag_quicksearch.php:101-104 | `?rebuild` removes the index, its time stamp and the lock, and nothing else |
| Cache.Refresh | diag_quicksearch.php:365-385 | the MAIN block's reads and writes produce the refresh specification |
| Cache.Answer | diag_quicksearch.php:360-387 | an empty trimmed query answers nothing and leaves the cache alone; otherwise the cache is refreshed and the refreshed index is ranked with limit 50 |
| ClientText.EscapeHtml | quicksearch_inline.js:143 | escaping never shortens the text |
| ClientText.EscapeSafe | quicksearch_inline.js:143 | the result holds no `<`, `>`, `"` or `'`, and every `&` starts one of the five entities |
| ClientText.EscapeRoundTrip | quicksearch_inline.js:143 | decoding the five entities gives the original text back |
| ClientText.EscapePlain | quicksearch_inline.js:143 | a text without special characters is unchanged |
| ClientText.UcWordStarts | quicksearch_inline.js:144 | same length; each `\b\w` position (a word character at the start or after a non-word character) is upper-cased, and every other character is left as it is |
| ClientText.StripPhpEndShape | quicksearch_inline.js:144 | dropping ".php" leaves a prefix |
| ClientText.PathWordsShape | quicksearch_inline.js:144 | the words of the last path segment have no `/` or `_`, single spaces, no outer spaces, and are no longer than the segment |
| ClientText.UcWordStartsShape | quicksearch_inline.js:144 | capitalising keeps the spaces, the lower-case form and the word starts, leaves every other character unchanged, and leaves no word start in lower case |
| ClientText.HumanizeShape | quicksearch_inline.js:144 | `humanizePath` has no `/` or `_`, single spaces, no outer spaces, and is no longer than the last segment; it is the cleaned words with each word start upper-cased and every other character unchanged |
| ClientText.HumanizeEmpty | quicksearch_inline.js:144 | an empty path or one ending in `/` humanizes to "" |
| ClientText.FirstNonEmptySpec | quicksearch_inline.js:147 | the `\|\|` chain is empty exactly when every field is, and is otherwise the first non-empty field |
| ClientText.TitleSpec | quicksearch_inline.js:146-150 | a non-path-like first field is the title; otherwise the humanized path when non-empty, otherwise the path; an empty title means an empty path; a path-like title is the path itself |
| ClientText.TitleFirstField | quicksearch_inline.js:147-149 | the first non-empty, non-path-like field is the title |
| Grouping.SepIndex | quicksearch_inline.js:317 | the first " / ", with none before it |
| Grouping.SplitSep | quicksearch_inline.js:317 | `split` always yields at least one piece |
| Grouping.SegmentsSpec | quicksearch_inline.js:313-317 | every segment is non-empty and holds no " / " |
| Grouping.FullTitleShape | quicksearch_inline.js:313-316 | the normalised title has single spaces only and no outer spaces |
| Grouping.Records | quicksearch_inline.js:312-319 | one record per item |
| Grouping.CountFreqs | quicksearch_inline.js:321-327 | the first loop leaves `freq1[k]` and `freq2[k]` equal to the number of titled records with that first segment or two-segment prefix |
| Grouping.KeyOfFreqs | quicksearch_inline.js:334-339 | the key computed from the dictionaries is the two-segment key when shared, else the first-segment key when shared, else none |
| Grouping.Assign | quicksearch_inline.js:329-347 | the second loop puts the keys in first-use order, each key's rows in record order, and the keyless rows in the singles |
| Grouping.GroupItems | quicksearch_inline.js:311-355 | the method computes the specification |
| Grouping.MembersOrder | quicksearch_inline.js:341-343 | a key with rows is in the map, and the empty key never is |
| Grouping.OrderNoDup | quicksearch_inline.js:342 | a key enters the map once |
| Grouping.Conserve | quicksearch_inline.js:332-347 | the singles and the keys' lists share out exactly the titled rows |
| Grouping.GroupItemsConserve | quicksearch_inline.js:323-353 | every titled record is in exactly one group or in the singles, and no other row appears |
| Grouping.GroupItemsPlace | quicksearch_inline.js:334-346 | a titled record without a key is a single; with a key, it is in the group titled by that key |
| Grouping.GroupItemsGroups | quicksearch_inline.js:334-350 | every group is non-empty, its title is shared by at least two titled records, and it holds only rows of records with that key |
| Grouping.GroupItemsSingles | quicksearch_inline.js:344-346 | every single comes from a titled record without a key |
| Grouping.KeyShared | quicksearch_inline.js:337-339 | a record's key, when it has one, is shared by at least two records |
| Grouping.OrderKeyShared | quicksearch_inline.js:341-343 | a key in the map has rows and is shared by at least two records |
| Grouping.RowLeTotal | quicksearch_inline.js:350 | the item comparator is a total preorder |
| Grouping.GroupLeTotal | quicksearch_inline.js:351 | the group comparator is a total preorder |
| Grouping.GroupItemsSorted | quicksearch_inline.js:351-353 | groups are ordered by item count descending, then by title; singles are ordered by title |
| Grouping.GroupItemsSortedWithin | quicksearch_inline.js:350 | the items inside each group are ordered by title |
| Grouping.KeysDistinct | quicksearch_inline.js:325-326 | a first-segment key never equals a two-segment key |
| Grouping.OneItemGroup | quicksearch_inline.js:325-339 | a worked example over three hand-built records: for "A / B", "A / B" and "A / C", the first-segment group "A" holds the last record alone |
| Focus.ClampedSpec | quicksearch_inline.js:390-391 | with rows, the index ends in range, a valid index is kept, and too high or negative indexes go to the last or first row; with none, the index is -1 or stays negative |
| Focus.ClampedIdempotent | quicksearch_inline.js:390-391 | clamping twice is clamping once, and the result is in range |
| Focus.SteppedSpec | quicksearch_inline.js:454-467 | no rows: nothing changes; otherwise the index moves by delta and stops at the first or last row |
| Focus.StepRoundTrip | quicksearch_inline.js:454-467 | a step down then up returns, except from the last row |
| Focus.SteppedInRange | quicksearch_inline.js:454-467 | steps keep the index in range, and a step of 0 stays put |
| Focus.KeyboardFocus.constructor | quicksearch_inline.js:358-359 | no rows and index -1 at start |
| Focus.KeyboardFocus.Clear | quicksearch_inline.js:361-367 | `clearList` empties the rows and resets the index to -1 |
| Focus.KeyboardFocus.UpdateFocusables | quicksearch_inline.js:387-391 | the new rows are taken and the index clamped, so it stays in range |
| Focus.KeyboardFocus.FocusStep | quicksearch_inline.js:454-467 | `focusStep` keeps the rows and applies the step, keeping the index in range |
| Focus.KeyboardFocus.Render | quicksearch_inline.js:400-450 | after `render`, the visible rows are the group headers and the singles, and the first is focused, or -1 when there are none |

## Left out

- File system traversal and reads (`collect_php_files_recursive`, `filesize`, `file_get_contents`) are I/O. Each file comes with its full path, its size, its contents (or their absence) and what the regular expressions mine from it.
- The regular expressions of `derive_page_title_from_php` and `extract_texts_from_php` are not modelled. Their matches are given, in the order the code visits them.
- Strings are valid Unicode text. On a subject that is not valid UTF-8, `preg_replace('/\s+/u', …)` returns null. Under `strict_types=1` (diag_quicksearch.php:22), the `trim(null)` that follows (lines 114 and 290) then throws a TypeError and the request dies. Two cases are not modelled. A query such as `?q=%FF` fails instead of giving `{"items":[]}`. A mined string with an invalid byte aborts `build_source_index`, and nothing is cached. So `ServerText.NormText`, `Search.Norm`, `SourceIndex.DerivePageTitle` and `Cache.Answer` always return a value here.
- `html_entity_decode`, `strip_tags` and `mb_strtolower` are library behaviour. The first two are the identity; lower-casing is ASCII only.
- Unicode classes are ASCII classes: `\p{L}` and `\pN`, the `\s` of the `/u` patterns in PHP (`/\s+/u` in `norm_text` and `norm`, and the `preg_split` of `search_ranked`, diag_quicksearch.php:113, 289 and 322), and JavaScript's `\s` and `\w`. The `~\s+~` of `prettify_filename` (diag_quicksearch.php:127) has no `/u` and is ASCII in the code too. `mb_strlen` is the length in characters.
- Shared memory and the semaphore (`ftok`, `sem_*`, `shm_*`), and any race between requests, are concurrency. The cache is a sequential map, and each request runs without interleaving.
- Cache.QsCache.Set: every write takes effect. In the code, `shm_put_var` (diag_quicksearch.php:93) fails with a warning when the serialised map does not fit the 6 MiB segment (`$ram_size`, diag_quicksearch.php:40). The result is ignored and the old map stays. The model does not capture that failure, so `Cache.RefreshMissing` and `Cache.RefreshStaleUnlocked` assume the write succeeds.
- The clock (`time()`) and the build result are parameters of the refresh.
- Scores are floating point in the code and integer tenths here. Exact equality of two float scores in the sort may differ from the tenths.
- `usort`, `Array.prototype.sort` and `localeCompare` are library calls. The sorts are a stable insertion sort with the same comparators, and `localeCompare` is byte-wise order.
- The debug modes, JSON output, authentication and headers of the endpoint are not modelled.
- The JSON result carries the name under five keys (`title`, `label`, `name`, `text`, `display`); the model keeps one name per item.
- The DOM, CSS, event wiring, `fetch`, abort handling, the navbar icon and `handleKey` are not modelled. `Focus` keeps only the number of visible rows and the index, not which element carries the `focused` class.
- JavaScript `undefined`, `null` and falsy values are `Option` or the empty string.
- Focus.KeyboardFocus.Render: the row count is the group headers plus the singles, as `render` lays them out; expanding a group is modelled only through `UpdateFocusables`.
