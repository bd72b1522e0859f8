# repoze.squeeze: a Dafny model of the resource-squeezing core

repoze.squeeze is WSGI middleware. It watches the HTML pages an application
serves. It learns which scripts and stylesheets keep appearing together.
It then rewrites pages so that such a group is fetched as one merged file
from a cache directory. This project models the decision and rewriting core
of `repoze/squeeze/processor.py` and proves properties of it.

- `Slices`: `get_slices_ordered_by_size`, every contiguous slice of a
  sequence, shortest first. It is a double loop followed by Python's stable
  sort on length.
- `StableSort`: Python's `list.sort(key=...)` for natural-number keys. It is
  defined as the concatenation of the key buckets in order, and proved
  sorted, a permutation, and stable.
- `Statistics`: `maintain_appearances`.
  - `Maintain` is the reference definition.
  - The method `MaintainAppearances` follows the source's loops and is proved
    equal to `Maintain`.
  - It counts appearances and registers the full sequence. It walks the
    slices in sorted order, bumps the tracked ones and selects those whose
    ratio is strictly above the threshold. It registers the inverse groups
    over a snapshot of the keys, and sorts the selections by the position of
    their first member.
- `RawCache`: the per-`Vary` request data. It holds the 200/304 update of the
  raw response cache, as a function and as a method of `AcceptRequestData`.
- `MergeCache`: what `get_merged_resource` computes, as a function of the
  cache directory.
  - A selection is not ready when any member is missing.
  - The merged body wraps only `text/css` members that carry a non-empty
    media type.
  - The expiry is a running-minimum fold. A missing expiry is ordered below
    every timestamp, as Python 2 orders `None` below an integer.
  - The file name is the digest of the body followed by the extension of the
    first member's content type.
  - The file is written only when absent.
- `Squeeze`: the `ResourceSqueezingMiddleware` object.
  - The class `Middleware` holds the URL prefix, the digest and extension
    functions, and the cache directory, which its methods update.
  - The class `Element` is a script, link or style element whose URL is
    rewritten or which is removed from the document.
  - `UpdateElements` follows `update_elements` loop by loop. It is proved to
    equal the functional pass `UpdatePass`, about which the lemmas speak.
- `Urls`: `get_url_for_resource`, and the two parts of `get_url` that do not
  depend on the document: the `http://` pass-through and the join onto the
  base.
- `Strings`: `startswith`, `endswith`, `rstrip`, `lstrip` and `strip` for a
  single character.

Abstractions:
- The SHA-1 digest and `mimetypes.guess_extension` are function-valued
  fields of `Middleware`, so nothing is assumed about them.
- The cache directory is a `map` from file name to contents.
- Timestamps are integers. A missing one is `None`. The source's expiries
  are webob datetimes; see "## Left out".
- The threshold and the ratio are exact `real`s.

The selection loop of `update_elements` has a `break` after a removal
(`repoze/squeeze/processor.py:210-212`) and none after a rewrite
(`repoze/squeeze/processor.py:206-209`). A rewritten element is therefore
still checked against the later selections. `Squeeze.RewriteThenDetach`
shows an element that is first rewritten and then removed, and
`Squeeze.MergeLoopUrl` shows that a rewritten element points at the file of
the last rewriting selection reached before the first removing one.

## Model

| member | source | states |
|---|---|---|
| Slices.GetSlicesOrderedBySize | repoze/squeeze/processor.py:273-280 | The result is the slice of `items` for each span of `Ordered(n)`, in that order, and every such span lies within `items` |
| Slices.AllSlices | repoze/squeeze/processor.py:274-278 | The double loop appends the slices `items[i:j]` row by row, `i` outer and `j` inner |
| Slices.SlicesFrom | repoze/squeeze/processor.py:277-278 | The inner loop appends `items[i:j]` for `j` from `i + 1` to the length, in order |
| Slices.OrderedComplete | repoze/squeeze/processor.py:276-279 | A span is listed iff `0 <= i < j <= n`: every non-empty contiguous slice and nothing else |
| Slices.OrderedStrict | repoze/squeeze/processor.py:279 | Spans come by increasing length, and equal lengths by increasing start, so no span is listed twice |
| Slices.OrderedCount | repoze/squeeze/processor.py:276-278 | There are exactly n(n+1)/2 slices |
| Slices.OrderedPermutesGenerated | repoze/squeeze/processor.py:279 | The length sort only reorders the slices the double loop generated |
| Slices.OrderedEndsWithWhole | repoze/squeeze/processor.py:279 | The last slice is the whole sequence, and every other slice is shorter |
| Slices.OrderedMembers | repoze/squeeze/processor.py:276-278 | Every generated or sorted span lies within the sequence, and every length is at most n |
| Slices.RowsToMembers | repoze/squeeze/processor.py:276-278 | After `i` rounds of the outer loop, the spans are exactly those with start below `i` |
| StableSort.SortByKeySorted | repoze/squeeze/processor.py:279 | The sort orders the list by key |
| StableSort.SortByKeyPermutation | repoze/squeeze/processor.py:279 | The sort keeps the same multiset of elements |
| StableSort.SortByKeyStable | repoze/squeeze/processor.py:279 | Elements with equal keys keep their relative order, as Python's sort guarantees |
| StableSort.BucketMembers | repoze/squeeze/processor.py:279 | A key's bucket holds only elements of that key taken from the list |
| Statistics.MaintainAppearances | repoze/squeeze/processor.py:282-387 | The selections, groups and appearances the loops leave are exactly those of the reference definition `Maintain` |
| Statistics.CountAppearances | repoze/squeeze/processor.py:354-356 | The counting loop adds one per occurrence, as `BumpAll` |
| Statistics.VisitSlices | repoze/squeeze/processor.py:362-383 | The slice loop is the fold of one turn per slice, in the given order |
| Statistics.VisitSlice | repoze/squeeze/processor.py:363-383 | One turn: single URLs and untracked slices change nothing; otherwise see `VisitTracked` |
| Statistics.VisitTracked | repoze/squeeze/processor.py:366-383 | A tracked slice gets its count bumped. It is selected when the new count over the highest appearance count is strictly above the threshold. The inverses of the groups are registered |
| Statistics.AddInverses | repoze/squeeze/processor.py:379-383 | Looping over a snapshot of the keys in any order registers, at 0, each non-empty complement of each other group, and changes nothing else |
| Statistics.RegisterInverses | repoze/squeeze/processor.py:379-383 | The keys become the old keys plus the complements; existing counts are kept and new keys count 0 |
| Statistics.Inverse | repoze/squeeze/processor.py:381 | The complement holds exactly the members of the group that are not in the selection, and is no longer than the group |
| Statistics.InverseAppend | repoze/squeeze/processor.py:381 | The complement of a concatenation is the concatenation of the complements, so the group's order and repeats are kept |
| Statistics.InverseSingle | repoze/squeeze/processor.py:381 | A single member is kept iff it is not in the selection |
| Statistics.MaxCount | repoze/squeeze/processor.py:372 | No member's appearance count exceeds the maximum, and for a non-empty selection some member reaches it |
| Statistics.Highest | repoze/squeeze/processor.py:372 | `max(...) or 1`: the largest member count when some member has been seen, and 1 when none has |
| Statistics.IndexOf | repoze/squeeze/processor.py:385-386 | `refs.index(x)`: the first position holding `x` |
| Statistics.BumpAllCounts | repoze/squeeze/processor.py:354-356 | Each count grows by the number of occurrences in `refs`, and a key is present iff it was before or occurs in `refs` |
| Statistics.MaintainCountsAppearances | repoze/squeeze/processor.py:354-356 | After the call, `appearances[r]` has grown by exactly the occurrences of `r` in `refs`; other URLs are unchanged |
| Statistics.MaintainCountsGroups | repoze/squeeze/processor.py:358-369 | No group is removed or decreases, `refs` is tracked, and each count grows by the number of turns at which it was the slice and already tracked |
| Statistics.Register | repoze/squeeze/processor.py:358 | `groups.setdefault(refs, 0)`. Its properties are carried by `MaintainCountsGroups`: `refs` is tracked and no count changes |
| Statistics.Step | repoze/squeeze/processor.py:363-383 | One turn of the slice loop. Its properties are carried by `StepCounts`, `StepKeepsOtherCounts` and `StepRegistersInverses` |
| Statistics.WalkAll | repoze/squeeze/processor.py:362-383 | The whole slice loop as a fold of `Step`. Its properties are carried by `WalkAllCounts`, `ChosenSound` and `ChosenComplete` |
| Statistics.StepCounts | repoze/squeeze/processor.py:363-369 | One turn adds one to the slice's count exactly when it is tracked and longer than one, and never drops a key |
| Statistics.StepKeepsOtherCounts | repoze/squeeze/processor.py:369-383 | A tracked turn bumps the slice by one and leaves every other existing count as it was |
| Statistics.StepRegistersInverses | repoze/squeeze/processor.py:379-383 | After a tracked turn, the non-empty complement of every other group of the snapshot is tracked. Every new group is such a complement and starts at 0 |
| Statistics.WalkAllCounts | repoze/squeeze/processor.py:362-369 | Over the whole slice loop, each count grows by the number of tracked turns for it, and no key is dropped |
| Statistics.ChosenComplete | repoze/squeeze/processor.py:376-377 | A slice whose turn selects it is in the selections |
| Statistics.ChosenSound | repoze/squeeze/processor.py:363-377 | Every selection comes from a turn that selected it: tracked at its turn, with ratio strictly above the threshold |
| Statistics.WalkUntracked | repoze/squeeze/processor.py:363-367 | A loop over untracked slices changes nothing |
| Statistics.MaintainSelections | repoze/squeeze/processor.py:360-377 | A group is returned iff some turn of the slice loop selected it |
| Statistics.MaintainSelectionsAreSlices | repoze/squeeze/processor.py:362-364 | Every selection is a contiguous slice of `refs` of length at least 2 |
| Statistics.MaintainSelectionsSorted | repoze/squeeze/processor.py:385-386 | Selections are sorted by the index of their first member. They are a permutation of the chosen list, and ties keep their order of selection |
| Statistics.FirstObservation | repoze/squeeze/processor.py:293-300 | From empty groups, one call leaves the groups as exactly `{refs: 1}`. It returns `[refs]` iff 1 over the highest count is above the threshold |
| Statistics.FirstObservationDistinct | repoze/squeeze/processor.py:293-300 | From empty state with distinct URLs, each URL has count 1, the groups are `{refs: 1}`, and `[refs]` is returned iff the threshold is below 1 |
| Statistics.RepeatObservation | repoze/squeeze/processor.py:302-309 | When `refs` is the only tracked group, with count n, a call with `refs` leaves exactly `{refs: n + 1}`. It returns `[refs]` iff n + 1 over the highest count is above the threshold |
| Statistics.SecondObservationDistinct | repoze/squeeze/processor.py:302-309 | A second call with the same distinct URLs counts each URL twice, leaves `{refs: 2}`, and returns `[refs]` iff the threshold is below 1 |
| Statistics.SubsetObservation | repoze/squeeze/processor.py:311-319 | After two observations of `abcde`, observing `abc` at 0.8 returns nothing, counts `abc` once, and registers the inverse group `de` at 0; `a`, `b` and `c` are counted a third time |
| Statistics.SubsetAtLowerThreshold | repoze/squeeze/processor.py:321-324 | Observing `abc` again at 0.4 returns `[abc]`, since 2 over 4 is above 0.4, and leaves `abc` at 2 and `de` at 0 |
| Statistics.WalkOnlyWhole | repoze/squeeze/processor.py:362-367 | When every slice of `refs` other than the whole is a single URL or an untracked group, the slice loop comes down to the turn of `refs` |
| Statistics.ForeignShortKeysOnlyWhole | repoze/squeeze/processor.py:362-367 | When every tracked group shorter than `refs` starts with a URL `refs` does not hold, no slice but the whole takes part in a turn |
| Statistics.MaintainOnlyWhole | repoze/squeeze/processor.py:354-386 | When every slice of `refs` other than the whole is a single URL or an untracked group, the call is the turn of `refs` alone: its count goes up by one, the complements are registered, and `[refs]` is returned iff the new count over the highest appearance count is above the threshold |
| Statistics.MaintainShortKeysForeign | repoze/squeeze/processor.py:354-386 | The same outcome when every tracked group shorter than `refs` starts with a URL `refs` does not hold, as in the subset observations |
| Statistics.InverseOfPrefix | repoze/squeeze/processor.py:381 | The complement of `x + y` with respect to `x`, when `y` shares no member with `x`, is `y` |
| Statistics.InverseDisjoint | repoze/squeeze/processor.py:381 | A group none of whose members is selected is its own complement |
| RawCache.Recorded | repoze/squeeze/processor.py:121-136 | Only URLs seen in a document are cached. A 200 stores the response. A 304 refreshes only the expiry of an existing entry and keeps its body and content type. Anything else leaves the cache alone |
| RawCache.AcceptRequestData.RecordResponse | repoze/squeeze/processor.py:128-136 | The cache field becomes `Recorded` of its old value; nothing else changes |
| RawCache.AcceptRequestData.constructor | repoze/squeeze/processor.py:29-34 | All four dictionaries start empty |
| RawCache.NotModifiedAfterOk | repoze/squeeze/processor.py:129-136 | A 304 after a 200 keeps the 200's body and type and takes the 304's expiry |
| RawCache.RecordedIdempotent | repoze/squeeze/processor.py:128-136 | Recording the same response twice is the same as recording it once |
| MergeCache.Merge | repoze/squeeze/processor.py:49-82 | Not ready, with no name, no expiry and no write, iff some member is missing. Otherwise the name is the digest of the merged body plus the first member's extension, the file exists afterwards with the body if it was new, the expiry is the fold, and no existing file changes |
| MergeCache.Store | repoze/squeeze/processor.py:78-80 | The file is written only when absent, and existing files are never changed |
| MergeCache.MergeAgain | repoze/squeeze/processor.py:76-82 | Merging the same selection again returns the same name and expiry and leaves the directory unchanged |
| MergeCache.MergedBody | repoze/squeeze/processor.py:64-74 | The merged body. Its properties are carried by `MergedBodyAppend`, `MergedBodyPlain` and `MergedBodyExample` |
| MergeCache.FoldExpires | repoze/squeeze/processor.py:68-69 | One step of the running minimum, shared with lines 201-202. Its properties are carried by `MergedExpiresMin`, `TurnExpires` and `ExpiresAfterMissing` |
| MergeCache.Extension | repoze/squeeze/processor.py:58-61 | The first member's guessed extension, or none without a content type. It is used only through `Merge`, whose contract names it |
| MergeCache.MergedBodyAppend | repoze/squeeze/processor.py:64-74 | The body of a concatenated selection is the concatenation of the bodies |
| MergeCache.MergedBodyPlain | repoze/squeeze/processor.py:70-73 | With no `text/css` member carrying a media type, the body is the raw bodies in order |
| MergeCache.MergedBodyExample | repoze/squeeze/processor.py:70-73 | A media-typed stylesheet is wrapped in `@media m {\n...}\n` and a member of another type is not |
| MergeCache.MergedExpiresMin | repoze/squeeze/processor.py:65-69 | When every member has an expiry, the fold is their minimum |
| MergeCache.ReadyExpires | repoze/squeeze/processor.py:65-69 | When every cached response has an expiry, so does the merge of a non-empty ready selection |
| MergeCache.ExpiresAfterMissing | repoze/squeeze/processor.py:68-69 | A member with no expiry resets the fold under Python 2 ordering: 5, none, 7 gives 7 |
| Squeeze.AllCached | repoze/squeeze/processor.py:52-55 | The first loop answers whether every member is in the cache |
| Squeeze.Concatenate | repoze/squeeze/processor.py:64-74 | The second loop builds the merged body and the folded expiry |
| Squeeze.Middleware.GetMergedResource | repoze/squeeze/processor.py:49-82 | The returned expiry and name, and the new cache directory, are those of `Merge` on the old directory |
| Squeeze.Middleware.MergeElement | repoze/squeeze/processor.py:194-212 | The loop over the selections for one element performs `MergeLoop`: merge first, then test membership, rewrite without stopping, remove and stop |
| Squeeze.Middleware.UpdateElement | repoze/squeeze/processor.py:181-212 | An element with no URL is skipped. Otherwise its media type is recorded under the resolved URL, and only an on-host URL is merged |
| Squeeze.Middleware.UpdateElements | repoze/squeeze/processor.py:175-214 | The running expiry, the change flag, the cache directory and every element's final state are those of `UpdatePass` from an empty pass |
| Squeeze.Middleware.constructor | repoze/squeeze/processor.py:43-47 | The configuration and the cache directory are as given |
| Squeeze.MergeTurn | repoze/squeeze/processor.py:195-212 | One selection of the loop for an element. Its properties are carried by `TurnFacts` and `TurnExpires` |
| Squeeze.ElementStep | repoze/squeeze/processor.py:181-212 | One turn of the element loop. Its properties are carried by `UpdateElement` and `UpdatePassAt`, `UpdatePassUntouched` and `UpdatePassDetach` |
| Squeeze.TurnFacts | repoze/squeeze/processor.py:194-212 | One selection: the merged file of a ready selection is written whether or not it holds the URL. The loop stops iff the element is removed, and the flag is set iff the element is rewritten. A rewritten element points at the merged file's URL, and any other keeps its URL |
| Squeeze.TurnExpires | repoze/squeeze/processor.py:195-202 | One selection folds its merged expiry into the running expiry iff it is ready and holds the URL, and stops the loop iff it removes the element |
| Squeeze.MergeLoopFiles | repoze/squeeze/processor.py:194-212 | The selection loop only adds files and keeps the media types |
| Squeeze.MergeLoopStores | repoze/squeeze/processor.py:194-199 | Every ready selection reached before a removal has its merged file written, even when it does not hold the URL |
| Squeeze.MergeLoopDetach | repoze/squeeze/processor.py:198-212 | The element ends removed iff some ready selection holds its URL other than last |
| Squeeze.MergeLoopChanged | repoze/squeeze/processor.py:206-212 | The flag is set iff it already was, or a ready selection ending in the URL is reached before any removal |
| Squeeze.RewrittenBy | repoze/squeeze/processor.py:194-212 | The selection that rewrites an element last, if any, ends in the element's URL and is ready |
| Squeeze.RewrittenByReached | repoze/squeeze/processor.py:194-212 | There is such a selection iff a rewrite is reached before any removal |
| Squeeze.RewrittenByLast | repoze/squeeze/processor.py:194-212 | It is reached before any removal, and every later rewriting selection comes after a removing one |
| Squeeze.MergeLoopUrl | repoze/squeeze/processor.py:206-209 | With no rewrite reached, the URL is unchanged. Otherwise the element points, through the URL prefix, at the file of the last rewriting selection reached before the first removal, and that file exists |
| Squeeze.RewriteThenDetach | repoze/squeeze/processor.py:206-212 | No `break` after a rewrite: an element rewritten by one selection and inside a later one is removed too |
| Squeeze.RewriteReachedCons | repoze/squeeze/processor.py:194-212 | Reaching a rewrite before a removal, unfolded one selection at a time |
| Squeeze.UpdatePassAt | repoze/squeeze/processor.py:180-214 | Each element's final state is what its own turn of the element loop made of it |
| Squeeze.UpdatePassUntouched | repoze/squeeze/processor.py:184-192 | Elements with no URL, or an off-host URL, are left as they are |
| Squeeze.UpdatePassDetach | repoze/squeeze/processor.py:191-212 | An element is removed iff its resolved URL is on the host and some ready selection holds it other than last |
| Squeeze.MergeLoopExpiresBelow | repoze/squeeze/processor.py:194-202 | When every response has an expiry, the loop's expiry is at most the one it started from and at most that of every selection folded in |
| Squeeze.MergeLoopExpiresReached | repoze/squeeze/processor.py:194-202 | The loop's expiry is the one it started from or that of a selection folded in, and the former when none is |
| Squeeze.UpdatePassExpiresBelow | repoze/squeeze/processor.py:180-212 | When every response has an expiry, the pass's expiry is at most the starting one and at most that of every selection folded in at any element |
| Squeeze.UpdatePassExpiresReached | repoze/squeeze/processor.py:180-212 | The pass's expiry is the starting one or that of a selection folded in at some element, and the former when none is |
| Squeeze.UpdatePassExpiry | repoze/squeeze/processor.py:175-214 | When every cached response has an expiry: the expiry `update_elements` returns is `None` iff no ready selection holding an on-host URL is reached before a removal, and otherwise it is the minimum over the selections folded in |
| Squeeze.UpdatePassFiles | repoze/squeeze/processor.py:175-214 | A pass never rewrites an existing file in the cache directory |
| Urls.GetUrl | repoze/squeeze/processor.py:259-271 | An `http://` reference is kept. Anything else is the base without trailing slashes, one `/`, and the reference |
| Urls.GetUrlTrailingSlash | repoze/squeeze/processor.py:271 | A trailing slash on the base changes nothing |
| Urls.GetUrlResolvedIsFixed | repoze/squeeze/processor.py:259-271 | A URL resolved against an `http://` base resolves to itself again |
| Urls.UrlForResource | repoze/squeeze/processor.py:84-87 | An `http` prefix loses its trailing slashes, then `/` and the resource. A path prefix is stripped of slashes at both ends and put between the host and the resource |
| Urls.UrlForResourceTrailingSlash | repoze/squeeze/processor.py:85-87 | A trailing slash on the prefix does not change the URL |
| Urls.UrlForResourceLeadingSlash | repoze/squeeze/processor.py:87 | A leading slash on a path prefix does not change the URL |
| Strings.RStrip | repoze/squeeze/processor.py:86 | `rstrip('/')` returns a prefix that does not end in `/`, having cut only `/` |
| Strings.LStrip | repoze/squeeze/processor.py:87 | `lstrip` returns a suffix that does not start with the character, having cut only that character |
| Strings.Strip | repoze/squeeze/processor.py:87 | `strip('/')`: a contiguous part of the input, neither end of which is `/`, with only `/` cut at either end |
| Strings.RStripUnique | repoze/squeeze/processor.py:86 | RStrip's contract determines its result |
| Strings.RStripIdempotent | repoze/squeeze/processor.py:86 | Stripping twice is stripping once |

## Left out

- `process_html` is not part of this model. It covers HTML parsing and serialisation through lxml, the XPath lookups, the loop over the two element kinds, and the `or changed` at lines 167-168, which does not merge the two flags. These are library calls.
- The WSGI plumbing of `__call__` is not part of this model: the request and the response, the `Vary`-keyed registry of request data, the `Expires` and `Cache-Control` headers, and `urllib.unquote`. Only the 200/304 update of the raw cache is modelled; the status code is a parameter.
- The regular expressions are not part of this model. This covers the `@import` matching of style blocks and the rewriting of stylesheet `url(...)` references. A style element's accessor result and mutator are abstracted as the `url` field of `Element`.
- The tag-function dispatch is not part of this model. Its effect is the `url` field of `Element` and its rewriting.
- `get_url`'s discovery of the base is not part of this model: the `<base>` lookup, `urlsplit` and `dirname`. The base is a parameter of `GetUrl` and `UpdateElements`.
- SHA-1, `mimetypes.guess_extension` and the filesystem are parameters. The digest and the extension table are uninterpreted functions, the cache directory is a map, and a failed write is not modelled.
- Floating-point division is modelled as exact `real` division, so the threshold comparison is exact.
- MergeCache.FoldExpires, MergeCache.MergedExpires and MergeCache.ExpiresAfterMissing: timestamps are integers, and a missing one is ordered below every timestamp, as Python 2 orders `None` below an integer. In the source the expiry is `response.expires` (line 122), a datetime or `None`. There, comparing `None` with a datetime raises `TypeError` (lines 68 and 201), so the reset these members show holds only under the integer abstraction. The minimum properties are stated only when every expiry is present.
- The configuration checks that raise `ValueError` (lines 38-41) are not modelled. Storing the threshold is not modelled either; it is a parameter of `MaintainAppearances`.
- Concurrency, logging and `make_squeeze_middleware` are not modelled. The code has no locking.
- The doctest traces of thousands of calls (lines 326-349) are not replayed as lemmas. The first two observations (lines 293-309) are, and so are the two observations of the subset `abc` with the inverse group `de` (lines 311-324).
- Squeeze.Middleware.UpdateElements: it requires every selection to be non-empty. The code reads `selection[0]`, and every selection from `maintain_appearances` is a non-empty slice. It also requires the elements to be distinct objects, as the elements of a document are.
- MergeCache.Merge: it requires a non-empty selection. For an empty one the source raises `IndexError` at `selection[0]` (line 59); the model leaves that case out.
- Squeeze.Middleware.GetMergedResource: it requires a non-empty selection, for the same reason as `MergeCache.Merge`.
- Squeeze.Middleware.UpdateElements: a removed element is marked as no longer attached instead of being taken out of a parent's child list.
- Statistics.MaintainAppearances: the dictionaries the source updates in place are passed in and returned as values. Aliasing between them is not modelled; in the source they are distinct objects.
- Statistics.AddInverses: the key snapshot is a set visited in an arbitrary order chosen by the verifier. The result is proved not to depend on that order.
