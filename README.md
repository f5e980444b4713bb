# nasXplorer aggregation core in Dafny

nasXplorer scans the shares of a CIFS (Windows file-sharing) server. It walks
every share's directory tree and reports, per share:

- the number of folders and files and their total size;
- a histogram of file sizes;
- two histograms of file recency, one by last access and one by last write;
- the most common file extensions.

This project models the per-share aggregation of `nasxplorer.py` and proves
properties about it:

- `SizeBuckets` models `breakdown_sizes`: four size buckets whose upper bounds
  (100 KiB, 1 MiB, 1 GiB) are inclusive.
- `AccessBuckets` models `breakdown_access`. It sorts the caller's list in
  place, largest first, using an `array`. It stores the maximum as `last` and
  counts each timestamp in the first of five trailing windows whose cutoff its
  date reaches. An empty list gives the all-empty result.
- `FileTypes` models `update_type`. The extension key is the text after the
  last dot, lower-cased, or `" "` when the name has no dot. The table is a map
  plus the keys' insertion order, which is the order Python's `dict` iterates.
- `TopTypes` models `get_top_types` exactly as written, including the
  `list[index - 1]` read at line 218. A corrected reading is modelled beside it
  (see Findings).
- `ShareSelection` models `get_shares`.
- `CurrentFolder` models `get_current_folder`: `split`, `join` and `strip` on
  strings.
- `InputConfig` models the parameter check of `get_input_details` over a
  parsed JSON object.
- `ShareWalker` models `get_share_content`.
  - The server is a tree of listings. Every directory carries its own listing,
    or the failure to list it.
  - The accumulator dictionary is the class `ShareStats`. Its methods update
    its fields in place.
  - Each method is proved against the functions `FilesIn` and `FolderCount`,
    which say which files and how many folders a walk reaches.
- `Wrappers` holds the `Option` type.

Notes on the code, where it does less or other than its own comments say:

- **Top types.** The comments at nasxplorer.py:208 and 308 promise the `top`
  file types. The code returns the least frequent key followed by the first
  `top - 1` keys whenever there are at least `top` keys. So when there are
  exactly `top` keys it returns every key, but not in count order.
- **Parameters.** The comment at nasxplorer.py:57 speaks of the required
  parameters. The loop runs over all eight parameters, so `domain` and
  `log_level` must also be present. Only the six required ones must also be
  non-empty.

## Model

| member | source | states |
|---|---|---|
| SizeBuckets.BucketOf | nasxplorer.py:140-153 | a size lands in bucket 1, 2, 3 or 4 exactly when it is ≤ 100 KiB, in (100 KiB, 1 MiB], in (1 MiB, 1 GiB] or above 1 GiB |
| SizeBuckets.BreakdownSizes | nasxplorer.py:139-154 | the loop yields the per-bucket counts of the input list, and the four counts add up to its length |
| SizeBuckets.BucketsPartition | nasxplorer.py:145-153 | every size is counted exactly once: the four counts sum to the number of sizes |
| SizeBuckets.CountBucketBound | nasxplorer.py:145-153 | a bucket count is at most the length; buckets other than 1..4 stay zero; a bucket holds every size iff every size maps to it |
| AccessBuckets.SortDescending | nasxplorer.py:162 | after the in-place sort the array is in non-increasing order and is a permutation of its old contents |
| AccessBuckets.BreakdownAccess | nasxplorer.py:158-190 | the caller's array ends up sorted largest first and is a permutation; the result is the summary of the original list: all-empty for no timestamps, otherwise the maximum as `last` (the first sorted element) and the five window counts |
| AccessBuckets.WindowOf | nasxplorer.py:169-185 | a timestamp is in window 1 iff its date reaches the 24-hour cutoff, in window 2 iff it misses that and reaches the 7-day cutoff, in window 3 iff it misses both and reaches the 1-month cutoff, in window 4 iff it misses those three and reaches the 3-month cutoff, in window 5 iff it misses those four and reaches the 12-month cutoff, and in none iff it misses all five cutoffs |
| AccessBuckets.AccessSummary | nasxplorer.py:160-188 | the result is all-empty iff there are no timestamps; otherwise `last` is an element ≥ every element; the five window counts plus the timestamps in no window make up the whole list |
| AccessBuckets.WindowRanges | nasxplorer.py:169-185 | under calendar-ordered cutoffs, window w holds exactly the dates between its cutoff and the next shorter window's cutoff; window 0 (none) holds the dates before the 12-month cutoff |
| AccessBuckets.CountWindowPermutation | nasxplorer.py:162-185 | window counts depend only on the multiset of timestamps, so counting the sorted list counts the caller's list |
| AccessBuckets.WindowsPartition | nasxplorer.py:169-185 | each timestamp falls in exactly one of "none" and the five windows |
| AccessBuckets.SummaryCountsBound | nasxplorer.py:169-185 | for every list, the empty one included, the five window counts sum to the length minus the timestamps older than every cutoff, so to at most the length |
| AccessBuckets.SummaryShape | nasxplorer.py:163-188 | the result is all-empty iff the list is empty; otherwise `last` is an element that is ≥ every element |
| AccessBuckets.StaleTimestampCountsNowhere | nasxplorer.py:169-185 | a single timestamp older than 12 months is still `last` but adds to no window |
| AccessBuckets.DescendingUnique | nasxplorer.py:162 | two descending orders of the same multiset are equal, so the sorted list is determined by its contents |
| AccessBuckets.Max | nasxplorer.py:165 | the value stored as `last` is an element of the list and no element exceeds it |
| FileTypes.LastDot | nasxplorer.py:196 | the position `rsplit('.', 1)` splits at: absent iff there is no dot, otherwise a dot with no dot after it |
| FileTypes.Lower | nasxplorer.py:197 | lower-casing keeps the length and maps every character through ASCII lower-casing |
| FileTypes.TypeKey | nasxplorer.py:196-199 | a name without a dot gets the key `" "`; otherwise the key is shorter than the name and holds no dot |
| FileTypes.TypeKeyMeaning | nasxplorer.py:196-199 | a name without a dot gets the key `" "`; otherwise the key is the lower-cased text after the last dot; no key contains a dot |
| FileTypes.TypeKeyExamples | nasxplorer.py:196-199 | `archive.tar.gz` → `gz`, `report.TXT` → `txt`, `README` → `" "`, `x.` → `""` |
| FileTypes.UpdateType | nasxplorer.py:194-205 | the file's key has its count raised by exactly 1 (from 0 when absent); every other count is unchanged; the key set gains just that key; a new key goes at the end of the iteration order |
| FileTypes.UpdateTypeKeepsValid | nasxplorer.py:201-204 | counting a file keeps each key listed once with a positive count and raises the table's total by 1 |
| FileTypes.TallyNamesConcat | nasxplorer.py:264 | counting two runs of names in turn is counting them together |
| FileTypes.TallyNamesTotal | nasxplorer.py:264 | after counting n names the table is well formed and its total has grown by n |
| FileTypes.TallyNamesCount | nasxplorer.py:264 | each key's count grows by the number of names whose key it is |
| TopTypes.GetTopTypes | nasxplorer.py:209-219 | the loops return the keys of the count-sorted items when there are fewer than `top`; otherwise the key read at index -1 (the last one) followed by the keys of the first top-1 items |
| TopTypes.AppendEveryKey | nasxplorer.py:214-215 | the loop over all items appends every key, in order |
| TopTypes.AppendFromIndexMinusOne | nasxplorer.py:217-218 | the loop over `range(top)` reading `list[index - 1]` yields nothing for `top` ≤ 0, and otherwise the last item's key followed by the keys of the first top-1 items |
| TopTypes.TopOfSorted | nasxplorer.py:213-218 | the as-written list has min(top, n) keys for n items (none when `top` ≤ 0), each of them a key of the sorted items |
| TopTypes.Insert | nasxplorer.py:211 | inserting an item into the sorted list adds exactly one item (InsertPermutes, InsertSorted and InsertStable state where it goes) |
| TopTypes.InsertPermutes | nasxplorer.py:211 | insertion adds the item and keeps every other item |
| TopTypes.InsertSorted | nasxplorer.py:211 | inserting into a non-increasing list keeps it non-increasing |
| TopTypes.InsertStable | nasxplorer.py:211 | insertion keeps the relative order of equal counts, the new item going after those already there |
| TopTypes.SortByCount | nasxplorer.py:211 | the sort keeps the number of items (SortPermutes, SortSorts and SortStable state the rest) |
| TopTypes.SortPermutes | nasxplorer.py:211 | the sorted items are a permutation of the table's items |
| TopTypes.SortSorts | nasxplorer.py:211 | the sorted items are in non-increasing count order |
| TopTypes.SortStable | nasxplorer.py:211 | for each count, the items with that count keep their relative order (stability) |
| TopTypes.TiesKeepInsertionOrder | nasxplorer.py:211 | items with equal counts come out of the sort in the table's insertion order |
| TopTypes.SortKeepsKeysDistinct | nasxplorer.py:211 | the sort does not repeat a key |
| TopTypes.SortedItemsMatchTable | nasxplorer.py:211 | each sorted item is a key of the table with its count, and every key of the table is on the sorted list |
| TopTypes.AllTypesWhenFew | nasxplorer.py:213-215 | with fewer than `top` types every key comes back exactly once, nothing else, in non-increasing count order |
| TopTypes.TopTypesWhenMany | nasxplorer.py:216-218 | with 0 < top ≤ number of types exactly `top` distinct keys of the table come back: a least frequent key first, then the keys of the first top-1 sorted items |
| TopTypes.TopOfSortedShape | nasxplorer.py:216-218 | the as-written list has `top` distinct keys: the last sorted key, then the first top-1 in order |
| TopTypes.LastIsLeastFrequent | nasxplorer.py:218 | the key read at index -1 has a smallest count of the table |
| TopTypes.AsWrittenDropsFrequentType | nasxplorer.py:218 | with counts a: 3, b: 2, c: 1 and top = 2 the code returns `["c", "a"]`, leaving out `b`, while the intended list is `["a", "b"]` |
| TopTypes.IntendedTopIsMostFrequent | nasxplorer.py:209-219 | the corrected list holds min(top, number of types) distinct keys of the table, and no key left out is more frequent than a key on it |
| ShareSelection.GetShares | nasxplorer.py:223-232 | a non-empty include list is returned as it is; otherwise the loop returns the kept shares |
| ShareSelection.KeptShares | nasxplorer.py:227-229 | the default selection is no longer than the share list, and each selected name is offered, not excluded, non-empty and does not end in `$` |
| ShareSelection.KeptSharesMembers | nasxplorer.py:227-229 | a name is in the default selection iff the server offers it, it is not excluded and it does not end in `$` |
| ShareSelection.KeptSharesInOrder | nasxplorer.py:227-229 | the default selection keeps the server's order (it is a subsequence of the share list) |
| ShareSelection.SelectionExample | nasxplorer.py:223-232 | shares `A`, `B`, `C$` with `B` excluded select `A` alone |
| CurrentFolder.Split | nasxplorer.py:237-240 | `split('\\')` yields at least one piece and no piece holds the separator |
| CurrentFolder.Join | nasxplorer.py:242 | `'/'.join` starts with the first piece, is exactly that piece when there is one, and otherwise puts the separator right after it |
| CurrentFolder.JoinSplit | nasxplorer.py:240-242 | joining the pieces of a split with the same separator gives back the string |
| CurrentFolder.SplitJoin | nasxplorer.py:242 | splitting a join of separator-free pieces gives back the pieces |
| CurrentFolder.Strip | nasxplorer.py:242 | `strip()` returns a slice of the input with only whitespace outside it and no whitespace at either end |
| CurrentFolder.GetCurrentFolder | nasxplorer.py:236-243 | fewer than 5 components give `/`; otherwise the result is the join of component 0 and components 4 onward with `/`, stripped: a slice of it with only whitespace outside, and neither starting nor ending with whitespace; no backslash is left in the result |
| CurrentFolder.CurrentFolderMeaning | nasxplorer.py:236-243 | fewer than 5 components give `/`; otherwise the result is the join of component 0 and components 4 onward, stripped (a slice of it with only whitespace outside, neither starting nor ending with whitespace), and, when no component contains `/`, that join splits back into exactly those components; no backslash is left |
| InputConfig.Rejects | nasxplorer.py:58 | an absent parameter is rejected; a present parameter outside the required list (`domain`, `log_level`) is never rejected, whatever its value |
| InputConfig.Accepted | nasxplorer.py:57-65 | a configuration is accepted iff none of the eight parameters is rejected |
| InputConfig.FirstRejected | nasxplorer.py:57-61 | the parameter the error names is the first one that is absent, or required and `""`; there is none iff every parameter passes |
| InputConfig.GetInputDetails | nasxplorer.py:52-68 | text that does not parse gives no result; otherwise the loop stops at the first rejected parameter, and the data comes back unchanged iff every parameter is present and no required one is `""` |
| InputConfig.AcceptedByFirstRejected | nasxplorer.py:57-65 | the configuration is accepted exactly when no parameter is rejected |
| InputConfig.AllEmptyRejected | nasxplorer.py:57-61 | a configuration whose every value is `""` is refused, and the error names `sourceIp` |
| ShareWalker.FilesIn | nasxplorer.py:246-268 | the files a walk reaches, in walk order: none for a failed listing, and every file a listing holds directly |
| ShareWalker.FolderCount | nasxplorer.py:246-268 | the folders a walk counts: none for a failed listing, and at least what each listed entry counts (a directory other than `.`/`..` itself plus its subtree) |
| ShareWalker.FailedListingIsIsolated | nasxplorer.py:246-268 | a directory whose listing fails still counts as a folder, adds no file, and its siblings on both sides are walked |
| ShareWalker.SelfAndParentAreSkipped | nasxplorer.py:251-252 | `.` and `..` entries add no folder and no file, whatever their listing holds |
| ShareWalker.AbsorbConcat | nasxplorer.py:249-264 | accumulating the files of two walks in turn is accumulating them together |
| ShareWalker.AbsorbKeepsConsistent | nasxplorer.py:259-264 | accumulating files keeps the three lists one entry per file, the byte total the sum of the sizes, and the type table's total equal to the file count |
| ShareWalker.ShareTotals | nasxplorer.py:303-306 | a fresh accumulator that walks a share is consistent and holds that walk's folder and file counts |
| ShareWalker.ShareColumns | nasxplorer.py:261-263 | the three lists of a fresh accumulator are the reached files' access times, write times and sizes, in walk order |
| ShareWalker.ShareTypeCounts | nasxplorer.py:264 | after a share's walk each extension key counts the reached files that carry it |
| ShareWalker.ShareStats.constructor | nasxplorer.py:303-304 | the accumulator starts with zero counts, empty lists and an empty type table |
| ShareWalker.ShareStats.CountType | nasxplorer.py:194-205 | the accumulator's type table becomes `update_type` of the old one, in place |
| ShareWalker.ShareStats.GetShareContent | nasxplorer.py:246-268 | the walk adds exactly the folders and files the listing reaches, appending the files' columns in walk order; a failed listing adds nothing; a consistent accumulator stays consistent |
| ShareWalker.ShareStats.VisitEntry | nasxplorer.py:249-264 | one entry: a directory other than `.`/`..` is counted and then walked; a file adds its size, is counted, has its times and size appended and its type counted |

## Left out

- The SMB connection, `listShares` and `listPath` are network calls. The model
  takes a list of share names and a tree of listings instead.
- The float gigabyte total and its rounding are left out.
  ShareWalker.ShareStats.GetShareContent keeps an integer byte total
  (`sizeBytes`) where the source adds `file_size / 1024**3` as a float.
- AccessBuckets.BreakdownAccess: `date.today()`, `datetime.utcfromtimestamp`
  and `relativedelta` are clock and calendar calls.
  - Today's date and the three calendar-month cutoffs are parameters, as day
    numbers.
  - Timestamps are whole seconds; the date of a timestamp is its floor
    division by 86400.
  - The 24-hour and 7-day cutoffs are computed as today minus 1 and minus 7
    days.
- AccessBuckets.SortDescending is an insertion sort standing in for Python's
  `list.sort`. Only the sort's contract is modelled: non-increasing order and a
  permutation. For integers that contract determines the result
  (`DescendingUnique`).
- TopTypes.SortByCount is an insertion sort standing in for `sorted(...,
  reverse=True, key=...)`. Its proved properties are a permutation, a
  non-increasing order and stability, which is what `sorted` promises.
  `reverse=True` with a key keeps equal items in their original order, and the
  model does the same.
- FileTypes.Lower lower-cases ASCII only. Python's Unicode `str.lower` is not
  modelled.
- CurrentFolder.Strip removes ASCII whitespace only. The other Unicode spaces
  that Python's `str.strip` removes are not modelled.
- The `OperationFailure` around a file's attribute reads (nasxplorer.py:265-266)
  is left out. A listed file's attributes are plain fields of the entry.
- InputConfig.GetInputDetails: opening and reading the file and `json.load` are
  I/O.
  - The parsed document is an input, and text that is not JSON is `None`.
  - A top-level JSON value that is not an object is not modelled.
  - The logged error message is modelled as the name of the rejected
    parameter.
- The following are output formatting or orchestration and are not part of the
  model:
  - `get_logger` and `setLevel`;
  - `get_table` (PrettyTable and `ctime`);
  - `create_excel` (xlsxwriter);
  - the JSON dump;
  - the `__main__` loop over shares.
- The path strings `get_share_content` builds are not modelled. `full_path`
  (nasxplorer.py:250) only feeds log messages. `os.path.join(folder_path,
  y.filename)` (nasxplorer.py:255) is the path the recursive call lists, and
  the tree replaces it: a `Directory` entry carries the listing found at its
  path.
- ShareSelection.GetShares requires that every share name it indexes is
  non-empty. On a name that is empty and not excluded, `share.name[len(share.name)-1]`
  (nasxplorer.py:228) raises IndexError; the model does not represent that
  crash.
- AccessBuckets.BreakdownAccess: `DayOf` is total, but
  `datetime.utcfromtimestamp` (nasxplorer.py:170) raises for timestamps
  outside the years 1 to 9999, such as a "never" file time. There the source
  aborts, and the model returns counts.
- ShareWalker.ShareStats.GetShareContent walks a finite tree, so listing
  cycles and trees deeper than Python's recursion limit are out of reach. On
  those the recursive call at nasxplorer.py:255 raises RecursionError, which
  is not an `OperationFailure` and aborts the whole run.
- AccessBuckets.BreakdownAccess reads the clock once per call: one set of
  cutoffs serves every timestamp. The source calls `date.today()` afresh in
  each comparison (nasxplorer.py:171-183), so a call that runs across
  midnight can place two timestamps of the same date in different windows.
  The model does not capture that.

## Findings

| source | as written | input that shows it | evidently intended | confidence | as-written member | corrected member |
|---|---|---|---|---|---|---|
| nasxplorer.py:218 | `top_types.append(list[index - 1][0])` for `index` in `range(top)`, so index 0 reads the last (least frequent) item and the item at `top - 1` is never read | types `{a: 3, b: 2, c: 1}`, `top = 2`: returns `["c", "a"]` | the `top` most frequent keys, `list[index][0]`, giving `["a", "b"]` | high (derived by proof, not executed) | TopTypes.AsWrittenDropsFrequentType | TopTypes.IntendedTopIsMostFrequent |
