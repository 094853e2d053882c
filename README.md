# m3u8 downloader — a verified model of its core

The `Downloader` of `m3u8_downloader.py` takes the URL of an HLS manifest (`.m3u8`) and works in four steps:

1. It derives a base URL and a video name from the manifest URL.
2. It turns the manifest's segment URIs into a playlist of absolute URLs.
3. It downloads every segment into a temporary directory with a thread pool. Each segment's file is named by its zero-padded index plus `.ts`. The manifest's segments are retried until a pass has no failure.
4. It concatenates the `.ts` files of the directory into the video.

The model is split into five modules:

- `Text`: the string operations the model needs. The code calls `rsplit('/', 1)` and `split('.')` itself. `rfind` is what `pathlib`'s `suffix` does inside. `<` on strings is never called by the code; it is the order in which the condition for a correct merge is stated (a listing sorted by name).
- `Urls`: `base_url`, `ep_name` and the playlist.
- `Naming`: the segment file name `f'{index:0{digit}}.ts'`, its shape, its injectivity, and the fact that its lexicographic order is the numeric order of the indices.
- `Merging`: `_merge` over a directory listing given as a sequence of (name, bytes) entries. This module also holds an index-ordered merge and the theorem relating the two.
- `Downloading`: the `Downloader` class. Its state is `finished`, the playlist, `total`, and the temporary directory as a map from file name to bytes. It covers `_download_ts`, one pass of `_download_playlist`, and the repeated passes. Pure functions (`AsWrittenRun`, `RetryRun`) state what a sequence of passes adds up to.

The network and the thread pool are inputs to the model:

- A `Response` per segment and pass stands in for `get_response`.
- The tasks of a pass run in submission order. Their file writes go to distinct names, so any interleaving leaves the same directory.
- `as_completed` yields the futures in an arbitrary order, an input permutation of the submitted indices.
- The retry recursion, which the code does not bound (only CPython's recursion limit ends it), runs over a finite schedule of passes.

The code's evident intent and its behaviour disagree in two places. After a pass with failures, the code builds `fail_list` (line 51) but uses only its length (line 55), announces that the failed segments are downloaded again (line 56), and then re-runs the whole playlist (line 57), so `finished` can exceed `total`. It names every segment file by its index zero-padded to one width (lines 64-65), which matters only if name order is meant to be index order, yet it merges the files in whatever order the directory lists them (line 73). The model follows the code. A retry of only the failed segments and a merge in index order are modelled beside it, as recorded under "## Findings".

## Model

| member | source | states |
|---|---|---|
| Text.RSplitOnce | m3u8_downloader.py:23-24 | `rsplit(sep, 1)`: one part (the whole string) exactly when `sep` does not occur; otherwise the text before and after the last `sep`, which glue back to the input |
| Text.Split | m3u8_downloader.py:24 | `split(sep)`: at least one part, no part contains `sep`, and joining the parts with `sep` gives back the input |
| Text.LexLess | m3u8_downloader.py:73 | Python's `<` on `str`: lexicographic on code points, a proper prefix first. The code never compares names; this is the order a sorted listing would follow. `Text.LexLessAsymmetric`, `Text.LexLessTransitive` and `Text.LexLessTotal` prove it a strict total order |
| Text.LexLessAsymmetric | m3u8_downloader.py:73 | `<` on strings is irreflexive and asymmetric |
| Text.LexLessTransitive | m3u8_downloader.py:73 | `<` on strings is transitive |
| Text.LexLessTotal | m3u8_downloader.py:73 | any two distinct strings are ordered one way or the other by `<` |
| Text.SplitFirstIsPrefix | m3u8_downloader.py:24 | `split(sep)[0]` is the longest `sep`-free prefix: it stops at the first `sep` or at the end |
| Urls.LastComponent | m3u8_downloader.py:24 | `rsplit('/', 1)[-1]` holds no `/`, is a suffix of the URL, follows its last `/` when there is one, and is the whole URL otherwise |
| Urls.BaseUrl | m3u8_downloader.py:23 | `base_url` ends with `/`. With a `/` in the URL, `base_url + last component == url`. Without one, it is `url + "/"` |
| Urls.EpName | m3u8_downloader.py:24 | `ep_name` holds neither `/` nor `.`. It is a prefix of the last component and ends either at a `.` of it or at its end |
| Urls.Playlist | m3u8_downloader.py:30 | the list comprehension `base_url + s['uri']` over the segments; its properties are the two rows below |
| Urls.PlaylistRecoversUris | m3u8_downloader.py:30-31 | one playlist entry per segment; entry `i` is `base_url` followed by URI `i`, and stripping the base gives the URI back |
| Urls.PlaylistPreservesOrder | m3u8_downloader.py:30 | the playlist of `u + v` is the playlist of `u` followed by that of `v`, so segment order is kept |
| Naming.Decimal | m3u8_downloader.py:64 | `str(n)` is a non-empty string of digits with no leading zero unless `n == 0`, so with `ParseDecimalInverts` it is the only such string for `n` and its length is `len(str(n))` |
| Naming.ParseDecimalInverts | m3u8_downloader.py:64 | reading back the digits of `str(n)` gives `n` |
| Naming.ZeroPad | m3u8_downloader.py:65 | `f'{n:0{w}}'` has length `max(w, len(str(n)))`, is all digits, and reads back as `n` |
| Naming.SegmentName | m3u8_downloader.py:64-65 | `ts_id`, the index padded to `len(str(total))` digits plus `.ts`; its contract is stated by the lemmas in the rows below |
| Naming.SegmentNameShape | m3u8_downloader.py:64-65 | a segment name is at least four characters long, ends in `.ts`, has only digits before the suffix, and those digits give back the index |
| Naming.IsSegmentNameExactly | m3u8_downloader.py:64-65 | a name passes `IsSegmentName(name, total)` exactly when it is the name of some index below `total` |
| Naming.SegmentNameInjective | m3u8_downloader.py:64-66 | distinct indices get distinct file names, so no segment overwrites another's file |
| Naming.SegmentNameLength | m3u8_downloader.py:64-65 | for `index < total`, the name has length `len(str(total)) + 3` |
| Naming.SegmentNameOrder | m3u8_downloader.py:64-65 | for `i < j < total`, `name(i) < name(j)` as Python strings |
| Naming.SegmentNameOrderReflected | m3u8_downloader.py:64-65 | for indices below `total`, `name(i) < name(j)` implies `i < j` |
| Merging.Suffix | m3u8_downloader.py:74 | `item.suffix` is empty or a proper tail of the name that starts with its last `.` and holds no other `.` |
| Merging.SuffixNonEmpty | m3u8_downloader.py:74 | the suffix is non-empty exactly when some `.` follows the first character and the name does not end with `.` |
| Merging.SegmentNameIsTs | m3u8_downloader.py:64-74 | every segment file has suffix `.ts`, so the merge picks it up |
| Merging.IsTs | m3u8_downloader.py:74 | the test `item.suffix == '.ts'`; `Merging.SegmentNameIsTs` proves it of every segment name |
| Merging.TsEntries | m3u8_downloader.py:73-74 | the generator's filter `item.suffix == '.ts'`; never longer than the listing, and in listing order as `Merging.TsEntriesConcat` proves |
| Merging.TsEntriesConcat | m3u8_downloader.py:73-74 | filtering a listing in two parts gives the two filtered parts one after the other, so the kept entries stay in listing order |
| Merging.MergeOutput | m3u8_downloader.py:72-76 | the bytes `_merge` writes: those of the `.ts` entries, one after the other; stated by the rows below |
| Merging.TsEntriesMembers | m3u8_downloader.py:73-74 | the entries the merge keeps are exactly the listing's entries whose suffix is `.ts` |
| Merging.Enumerates | m3u8_downloader.py:73 | `PATH_TEMP.iterdir()` as an input: a listing that names every file of the directory exactly once, each with the bytes the directory holds for it |
| Merging.MergeOutputConcat | m3u8_downloader.py:72-76 | merging a listing in two parts gives the two merges one after the other |
| Merging.MergeOutputEntry | m3u8_downloader.py:73-76 | an entry contributes its bytes at its place in the listing if its suffix is `.ts`, and nothing otherwise |
| Merging.Merge | m3u8_downloader.py:70-76 | the loop writes exactly the concatenation of the listing's `.ts` entries, in listing order |
| Merging.MergeInOrder | m3u8_downloader.py:72-76 | index-ordered merge: succeeds exactly when every segment file is present, and then writes the segments in playlist order |
| Merging.SortedListingMergesInPlaylistOrder | m3u8_downloader.py:73-76 | for a listing of the directory sorted by name, in which every `.ts` file is a segment file and every segment is present, the merge as written equals the index-ordered merge |
| Merging.MergeFollowsListingOrder | m3u8_downloader.py:73-76 | for two segments listed in the order of index 1 then index 0, the merge as written gives `b1 + b0`, while playlist order gives `b0 + b1` |
| Downloading.Succeeded | m3u8_downloader.py:59-62 | a segment's task returns normally exactly on a reply with status 200. Any other reply raises at line 62; a network error or time-out already raises inside `requests.get` at line 84, and a 4xx or 5xx status at line 85 |
| Downloading.Range | m3u8_downloader.py:44 | `enumerate(self.playlist)` submits the indices `0 .. total-1`: `total` of them, each below `total` |
| Downloading.PassCovers | m3u8_downloader.py:43-45 | a pass has a response for every playlist entry, and `as_completed` yields each submitted future exactly once (its completion order is a permutation of the batch) |
| Downloading.CountOk | m3u8_downloader.py:53 | the number of `finished += 1` a batch adds: its successes, never more than its size |
| Downloading.CountOkAll | m3u8_downloader.py:53 | a batch's success count equals its size exactly when every segment of it succeeds |
| Downloading.Failed | m3u8_downloader.py:47-53 | each completion of a pass is either counted as a success or listed as failed, never both, and the listed ones did fail |
| Downloading.FailedInCompletionOrder | m3u8_downloader.py:45-51 | `fail_list` keeps the failures in the order `as_completed` yields them: it is a subsequence of the completion order |
| Downloading.UrlsOf | m3u8_downloader.py:43-51 | `fail_list` holds `futures[future]`, the playlist URL of each failed segment, in the order of the failures |
| Downloading.FailedContains | m3u8_downloader.py:49-51 | every segment that fails in a pass is listed in `fail_list` |
| Downloading.CountOkPermutation | m3u8_downloader.py:45 | the success count of a pass does not depend on the order of `as_completed` |
| Downloading.StoreAfter | m3u8_downloader.py:59-68 | the directory after the tasks of a batch: each successful task writes its body under its segment's name; stated by the rows below |
| Downloading.StoreAfterSegment | m3u8_downloader.py:59-68 | after a pass, a segment of the batch that succeeded has its body in its file, and every other segment's file is as before |
| Downloading.StoreAfterOther | m3u8_downloader.py:59-68 | a pass touches no file that is not a segment file |
| Downloading.PassEffect | m3u8_downloader.py:42-44 | a pass keeps all non-segment files and all existing segment files, and creates the file of each successful segment |
| Downloading.CleanPassHolds | m3u8_downloader.py:42-55 | after a pass over the whole playlist without failure, every segment's file holds that pass's body |
| Downloading.AsWrittenRun | m3u8_downloader.py:40-57 | a run uses at most the scheduled passes, and a completed run used at least one |
| Downloading.AsWrittenStopsAtFirstClean | m3u8_downloader.py:55-57 | every pass before the last had a failure; a completed run ends at a pass without failure, and one that did not complete used the whole schedule |
| Downloading.AsWrittenCompletesIffSomeClean | m3u8_downloader.py:55-57 | the run completes exactly when some scheduled pass has no failure |
| Downloading.AsWrittenCountsEveryPass | m3u8_downloader.py:53-57 | `finished` grows by the successes of all passes run. A completed run adds `total` plus the successes of every earlier pass, so `finished` can exceed `total` |
| Downloading.AsWrittenScenario | m3u8_downloader.py:40-57 | five segments, segment 2 fails once: two passes over the whole playlist, and `finished` ends at 9 |
| Downloading.RetryRun | m3u8_downloader.py:55-57 | the corrected retry uses at most the scheduled passes, and a completed run used at least one |
| Downloading.RetryCountsEachSegmentOnce | m3u8_downloader.py:53-57 | with the corrected retry, successes never exceed the batch size and equal it when the run completes |
| Downloading.FailureIsRetried | m3u8_downloader.py:49-57 | a segment that fails in a pass is in the next pass's batch |
| Downloading.RetryCoversBatch | m3u8_downloader.py:55-57 | the batch is covered once the pass's successes and the retried failures all have their files |
| Downloading.RetryScenario | m3u8_downloader.py:55-57 | the same five segments under the corrected retry: the second pass covers only segment 2, and the count ends at 5 |
| Downloading.Downloader.constructor | m3u8_downloader.py:20-25 | stores the URL and the proxy flag, derives `base_url` and `ep_name`, and starts `finished` at 0 |
| Downloading.Downloader.LoadPlaylist | m3u8_downloader.py:30-32 | `playlist` is the base URL plus each URI, `total` is its length, and the temporary directory keeps what it held |
| Downloading.Downloader.DownloadTs | m3u8_downloader.py:59-68 | succeeds exactly on a reply with status 200, and then writes the body under the segment's name; otherwise writes nothing |
| Downloading.Downloader.SubmitAll | m3u8_downloader.py:42-44 | the directory after one task per segment of the batch |
| Downloading.Downloader.TallyCompletions | m3u8_downloader.py:45-54 | `finished` grows by the successes; `fail_list` holds the URLs of `Failed`, which `Downloading.FailedInCompletionOrder` proves to be in completion order |
| Downloading.Downloader.DownloadPass | m3u8_downloader.py:41-54 | one pass: the new directory, `finished` grown by the batch's successes, `fail_list` with the failures' URLs, and successes plus failures equal to the batch size |
| Downloading.Downloader.DownloadPlaylist | m3u8_downloader.py:40-57 | the passes, completion and `finished` of `AsWrittenRun`. On completion every segment's file holds the last pass's body. No non-segment file changes and no segment file disappears |
| Downloading.Downloader.RetryFailed | m3u8_downloader.py:40-57 | the corrected retry. Same bookkeeping as `RetryRun`; on completion `finished` grew by exactly the batch size and every segment of the batch has its file |

## Left out

- `get_response` (m3u8_downloader.py:79-86): the HTTP request, headers and proxy settings are not modelled. Each segment's outcome in each pass is an input `Response`: a reply with a status and a body, or an exception.
- `m3u8.loads` (m3u8_downloader.py:28-29): fetching and parsing the manifest is not modelled. The segment URIs are an input sequence.
- Thread-pool concurrency (m3u8_downloader.py:42-45): tasks run one after another, and the completion order is an input permutation. The number of workers has no effect on the model.
- Downloading.Downloader.DownloadPlaylist: the code sets no ceiling on retries, but each retry is a nested call (line 57). After about a thousand failing passes in a row, CPython's recursion limit raises `RecursionError`. That call is outside the only `try` (lines 47-51), so the exception leaves `download`. The model's finite schedule of passes stands for both endings: a schedule that runs out gives `completed == false`, whether the source would have gone on retrying or crashed.
- Downloading.Downloader.RetryFailed: the same finite schedule bounds the corrected retry.
- `download` (m3u8_downloader.py:27-38): its steps are modelled separately and not composed into one method. The state between `_download_playlist` and `_merge` is the `temp` field, while the merge takes the directory listing as an input.
- File I/O errors while writing a segment (m3u8_downloader.py:66-68) are not modelled; only response failures make a task fail.
- The video file written by `_merge` (m3u8_downloader.py:71-72) is not modelled; `Merge` returns its bytes.
- `shutil.rmtree` and `Path.mkdir` (m3u8_downloader.py:32, 38) are not modelled, except that the directory starts with whatever it already held.
- The real order of `iterdir` (m3u8_downloader.py:73) depends on the operating system, so the listing is an input.
- `print` output and the progress percentage (m3u8_downloader.py:33, 35, 37, 50, 54, 56) are display only.
- Downloading.Downloader.constructor: the source sets `playlist` and `total` only in `download`. The model starts them empty.
- Merging.Suffix: it follows the long-standing `pathlib` rule. The suffix starts at the last `.` when that `.` is neither the first nor the last character of the name.

## Findings

| source | as written | input that shows it | evidently intended | confidence | as-written member | corrected member |
|---|---|---|---|---|---|---|
| m3u8_downloader.py:55-57 | after a pass with failures, `_download_playlist` runs again over the whole `self.playlist`; `fail_list` is used only for its length, and `finished` is never reset | five segments, segment 2 fails on its first request only: two passes of five downloads, and `finished` ends at 9 for `total` 5 | retry only the failed segments, so that `finished` ends at exactly `total` | not executed; high | Downloading.AsWrittenScenario | Downloading.Downloader.RetryFailed |
| m3u8_downloader.py:73-76 | the `.ts` files are concatenated in the order the file system lists them | two segments whose listing yields `1.ts` before `0.ts`, with bodies `b0`, `b1` such that `b0 + b1 != b1 + b0`: the video is `b1 + b0` | concatenate the segments in index order | not executed; medium (many file systems list these names sorted, and then the output is right, as `Merging.SortedListingMergesInPlaylistOrder` shows) | Merging.MergeFollowsListingOrder | Merging.MergeInOrder |
