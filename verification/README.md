# Artifact result view: selection pipeline

A Dafny model of how the artifact page of the Genshin artifact analyzer
(`src/features/artifacts/ArtifactsUpload.jsx`) turns an uploaded list of
artifacts and the scoring tables into what the user sees:

- which builds are scored: the user's builds and the preset builds whose
  configuration entry is enabled, presets winning on a shared key
  (`enabled_builds.dfy`, an imperative merge proved against a reference map);
- which cached tables are shown, with two empty tables as the default, and
  when the page shows "Calculating" instead (`results.dfy`);
- the sort keys `"field-direction"` and the rule that toggles them when a
  column arrow is clicked, with `split("-")` modelled exactly (`sort_key.dfy`);
- the comparator handed to `Array.prototype.sort`, with `Math.max` over an
  empty fits map giving `-Infinity` and `-Infinity - -Infinity` (NaN) read as a
  tie (`compare.dfy`);
- the sort: a reference stable insertion sort, and an insertion sort
  scanning from the right, as SpiderMonkey sorts short arrays
  (`sorting.dfy`), and
  `Array.prototype.filter` (`filtering.dfy`);
- `filterFn` and `filteredArtifacts`, both as written (index list, sort,
  filter) and as evidently intended (filter, then sort) (`selection.dfy`);
- the rendered page, `slice(page * offset, (page + 1) * offset)` with the
  clamping and negative-index rules of `slice` (`paging.dfy`, `view.dfy`);
- the `lock.json` export of the listed artifacts that are not locked
  (`lock_export.dfy`);
- the guard that decides whether the scoring worker is asked for a
  calculation, and the two screens that replace the view (`calculation.dfy`).

The scores themselves are inputs: `Tables` holds, per artifact index, the
fitness against each build and the rarity, as the worker delivers them.
Scores are reals. A fits entry (an object) is always truthy; a rarity of 0 is
falsy, so an index counts as scored when it has a fits entry and a non-zero
rarity (`Compare.Scored`).

On scored indices the comparator is a total preorder
(`Compare.CompareTransitive`, `Compare.CompareAntisymmetric`). An unscored
index ties with every index (`Compare.UnscoredTiesBreakTransitivity`), so
once one is present the comparator is not consistent and ECMAScript leaves
the order of `sort` to the engine. `filteredArtifacts` sorts the whole index
list, unscored indices included, before filtering them out, so its order
then depends on the engine and can contradict the sort key (see
"## Findings"). The model keeps the source's pipeline as
`Selection.ListedAfterSort`, for whatever permutation the engine's sort
returns, and as `Selection.FilteredArtifactsAsWritten`, with an insertion
sort scanning from the right; the page and the `lock.json` export it
yields are `View.RenderedPageAsWritten` and
`LockExport.LockListAsWrittenContents`. The intended list
`Selection.FilteredArtifacts` (the accepted indices, stably sorted) is what
`View.RenderedPage` pages and `LockExport.LockListOfView` exports, and what
the order results are about. The two agree when
every artifact of the upload is scored: then the as-written pipeline, and
any sort with the guarantees `sort` gives for a consistent comparator
followed by the filter, lists exactly the intended list
(`Selection.AsWrittenAgreesWhenAllScored`,
`Selection.ConformingSortListsIntended`, `Sorting.EveryStableSortAgrees`).

## Model

| member | source | states |
|---|---|---|
| EnabledBuilds.MergeEnabledBuilds | src/features/artifacts/ArtifactsUpload.jsx:57-70 | the two copying loops build exactly the reference merge `EnabledBuilds` |
| EnabledBuilds.EnabledBuildsMembership | src/features/artifacts/ArtifactsUpload.jsx:57-70 | a key is in the merge iff it is in the builds or the presets and its configuration entry exists and is enabled; on a shared key the preset's build is kept, otherwise the user's |
| EnabledBuilds.DisabledBuildInvisible | src/features/artifacts/ArtifactsUpload.jsx:57-70 | changing or removing a build whose configuration is missing or disabled, in either map, leaves the merge unchanged |
| EnabledBuilds.EnabledBuildsEmpty | src/features/artifacts/ArtifactsUpload.jsx:57-70 | the merge has no keys iff no key of either map is enabled |
| Results.LookupResults | src/features/artifacts/ArtifactsUpload.jsx:73-81 | the stored tables under `[artifactsId][resultHash]` when every level is present, two empty maps when any level is missing |
| Results.LookupLoading | src/features/artifacts/ArtifactsUpload.jsx:73-86 | a missing entry at any level shows the loading state; a present one is loading iff one of its tables is empty |
| SortKey.Split | src/features/artifacts/ArtifactsUpload.jsx:203-207 | `split("-")` yields at least one part, no part contains the separator, and joining the parts with "-" gives the string back |
| SortKey.SplitJoin | src/features/artifacts/ArtifactsUpload.jsx:203-207 | splitting the join of separator-free parts gives the parts back |
| SortKey.SplitKey | src/features/artifacts/ArtifactsUpload.jsx:203-207 | "field-dir" with separator-free parts splits into exactly field and dir |
| SortKey.ToggleSortKeyResult | src/features/artifacts/ArtifactsUpload.jsx:201-214 | same field: the new key is the field with the current direction flipped ("desc" after "asc", "asc" otherwise), whatever direction was requested; different field: the request verbatim |
| SortKey.ToggleTwiceRestores | src/features/artifacts/ArtifactsUpload.jsx:201-214 | on a well-formed key, the same request twice restores the key |
| SortKey.ToggleStaysInSortKeys | src/features/artifacts/ArtifactsUpload.jsx:201-214 | among the four comparator keys a click yields one of them, on the requested field, and clicking the highlighted arrow always changes the key |
| SortKey.RarityKeysSplit | src/features/artifacts/ArtifactsUpload.jsx:141-144 | "rarity-desc" and "rarity-asc" split into "rarity" and their direction |
| SortKey.FitnessKeysSplit | src/features/artifacts/ArtifactsUpload.jsx:145-155 | "fitness-desc" and "fitness-asc" split into "fitness" and their direction |
| SortKey.SortKeysWellFormed | src/features/artifacts/ArtifactsUpload.jsx:126 | the four keys are well formed on "rarity" and "fitness", and the default "rarity-desc" is one of them |
| SortKey.SortKeyParts | src/features/artifacts/ArtifactsUpload.jsx:141-155 | every comparator key is well formed with field "rarity" or "fitness" |
| SortKey.SortKeyOfParts | src/features/artifacts/ArtifactsUpload.jsx:205-207 | a comparator field joined with "asc" or "desc" is a comparator key |
| Compare.MaxFit | src/features/artifacts/ArtifactsUpload.jsx:147-148 | `Math.max` over the fits is `-Infinity` iff there are none, otherwise one of the fits and at least every fit |
| Compare.SignDiff | src/features/artifacts/ArtifactsUpload.jsx:146-154 | the sign of a difference of best fitnesses is at most 0 iff the first is at most the second, and at least 0 iff it is at least the second, `-Infinity` included |
| Compare.CompareIndices | src/features/artifacts/ArtifactsUpload.jsx:131-158 | the comparator's sign is -1, 0 or 1; it is 0 when either index lacks a fits entry or a truthy rarity, and 0 for a key other than the four |
| Compare.CompareMeaning | src/features/artifacts/ArtifactsUpload.jsx:141-155 | on scored indices: non-increasing rarity under "rarity-desc", non-decreasing under "rarity-asc", non-increasing and non-decreasing best fitness under the fitness keys |
| Compare.CompareAntisymmetric | src/features/artifacts/ArtifactsUpload.jsx:131-158 | swapping the arguments negates the comparator |
| Compare.CompareTransitive | src/features/artifacts/ArtifactsUpload.jsx:131-158 | on scored indices the comparator is transitive in its weak and strict forms |
| Compare.UnscoredTiesBreakTransitivity | src/features/artifacts/ArtifactsUpload.jsx:133-140 | an unscored index ties with two scored indices that compare strictly, so ties are not transitive once unscored indices are present |
| Sorting.Insert | src/features/artifacts/ArtifactsUpload.jsx:180 | the reference insertion adds exactly the one element |
| Sorting.Sort | src/features/artifacts/ArtifactsUpload.jsx:180 | the reference stable sort is a permutation of its input |
| Sorting.InsertElement | src/features/artifacts/ArtifactsUpload.jsx:180 | an element of an insertion is the inserted one or was there before |
| Sorting.PrependSorted | src/features/artifacts/ArtifactsUpload.jsx:180 | an element that may precede every scored element keeps a sorted list sorted |
| Sorting.PrependStable | src/features/artifacts/ArtifactsUpload.jsx:180 | an element below all its ties keeps a stable list stable |
| Sorting.InsertedFirstIsBelow | src/features/artifacts/ArtifactsUpload.jsx:180 | an element placed first compares strictly below every scored element after it |
| Sorting.InsertSorted | src/features/artifacts/ArtifactsUpload.jsx:180 | reference insertion keeps scored elements in comparator order |
| Sorting.InsertStable | src/features/artifacts/ArtifactsUpload.jsx:180 | inserting an element larger than all keeps ties in increasing order |
| Sorting.InsertNoDuplicates | src/features/artifacts/ArtifactsUpload.jsx:180 | inserting a new element creates no duplicate |
| Sorting.SortSorted | src/features/artifacts/ArtifactsUpload.jsx:180 | the reference sort has every scored pair in comparator order |
| Sorting.SortStable | src/features/artifacts/ArtifactsUpload.jsx:180 | the reference sort keeps tying scored elements of an increasing list in their original order |
| Sorting.SortNoDuplicates | src/features/artifacts/ArtifactsUpload.jsx:180 | sorting a list without duplicates leaves none |
| Sorting.BeforeAsymmetric | src/features/artifacts/ArtifactsUpload.jsx:131-158 | comparator-then-index order is asymmetric and irreflexive on all indices, scored or not |
| Sorting.SortedStableIsStrict | src/features/artifacts/ArtifactsUpload.jsx:180 | a sorted and stable list of scored indices is strictly ordered by comparator, then index |
| Sorting.SortStrictOnScored | src/features/artifacts/ArtifactsUpload.jsx:180 | stably sorting an increasing list of scored indices gives a strictly ordered list of scored indices |
| Sorting.StrictlyOrderedUnique | src/features/artifacts/ArtifactsUpload.jsx:180 | two strictly ordered lists with the same elements are equal |
| Sorting.EveryStableSortAgrees | src/features/artifacts/ArtifactsUpload.jsx:180 | on an increasing list of scored indices every permutation that is sorted and stable is the reference sort |
| Sorting.InsertFromRight | src/features/artifacts/ArtifactsUpload.jsx:180 | the right-to-left insertion adds exactly the one element |
| Sorting.SortFromRight | src/features/artifacts/ArtifactsUpload.jsx:180 | the right-to-left insertion sort is a permutation of its input |
| Sorting.InsertFromRightOrdered | src/features/artifacts/ArtifactsUpload.jsx:180 | on scored elements, inserting from the right an element above all keeps the list strictly ordered |
| Sorting.SortFromRightOrdered | src/features/artifacts/ArtifactsUpload.jsx:180 | on an increasing list of scored indices the right-to-left insertion sort is strictly ordered |
| Sorting.CountAtMostOne | src/features/artifacts/ArtifactsUpload.jsx:179 | a list without duplicates has every multiset count at most one |
| Sorting.PermutationNoDuplicates | src/features/artifacts/ArtifactsUpload.jsx:179-180 | a permutation of a list without duplicates has none |
| Filtering.FilterSeq | src/features/artifacts/ArtifactsUpload.jsx:181 | the result is no longer than the input and holds exactly the input's elements the predicate accepts |
| Filtering.FilterKeepsPairwise | src/features/artifacts/ArtifactsUpload.jsx:181 | any relation between earlier and later input elements holds between earlier and later output elements |
| Selection.IndexList | src/features/artifacts/ArtifactsUpload.jsx:179 | the index list of an upload of n artifacts is 0 to n-1 |
| Selection.IndexListPermutation | src/features/artifacts/ArtifactsUpload.jsx:179-180 | whatever order the sort chose, the sorted index list holds each index of the upload exactly once |
| Selection.AcceptedIndices | src/features/artifacts/ArtifactsUpload.jsx:159-181 | exactly the indices of the upload that `filterFn` accepts, increasing, all scored |
| Selection.AcceptMeaning | src/features/artifacts/ArtifactsUpload.jsx:159-175 | `filterFn` accepts an index iff it has fits and a non-zero rarity, some build's fitness reaches the fitness threshold or the rarity reaches the rarity threshold, and set and slot match when those filters are positive |
| Selection.ListedAfterSortContents | src/features/artifacts/ArtifactsUpload.jsx:176-184 | as written, for any permutation of the index list the engine's sort returns: empty without artifacts or with none; otherwise exactly the accepted indices of the upload, without duplicates |
| Selection.ListedAfterSortAgrees | src/features/artifacts/ArtifactsUpload.jsx:176-184 | as written, with every artifact scored and any sort that is a permutation, sorted and stable: exactly the intended list |
| Selection.FilteredArtifactsAsWrittenContents | src/features/artifacts/ArtifactsUpload.jsx:176-184 | as written, with the right-to-left insertion sort: the same contents |
| Selection.FilteredArtifactsContents | src/features/artifacts/ArtifactsUpload.jsx:176-184 | intended list: empty without artifacts or with none; otherwise exactly the accepted indices of the upload, without duplicates |
| Selection.FilteredArtifactsOrdered | src/features/artifacts/ArtifactsUpload.jsx:176-184 | intended list: in comparator order with ties in upload order; the source's list is the same when every index is scored (`Selection.AsWrittenAgreesWhenAllScored`) |
| Selection.FilteredArtifactsByKey | src/features/artifacts/ArtifactsUpload.jsx:131-184 | intended list: every listed index is scored; it runs by rarity or best fitness, down for "-desc" and up for "-asc" |
| Selection.FilteredArtifactsStrict | src/features/artifacts/ArtifactsUpload.jsx:176-184 | intended list: strictly ordered by comparator, then index |
| Selection.FilterOfOrderedPermutation | src/features/artifacts/ArtifactsUpload.jsx:179-181 | filtering any strictly ordered permutation of the index list gives the intended list |
| Selection.ConformingSortListsIntended | src/features/artifacts/ArtifactsUpload.jsx:179-181 | with every artifact scored, any sort that is a permutation, sorted and stable, followed by the filter, lists exactly the intended list |
| Selection.AsWrittenAgreesWhenAllScored | src/features/artifacts/ArtifactsUpload.jsx:176-184 | with every artifact scored, the as-written pipeline lists exactly the intended list |
| Selection.MisorderAccepted | src/features/artifacts/ArtifactsUpload.jsx:133-175 | in the three-artifact example index 1 (rarity 0) is unscored and rejected, indices 0 and 2 are accepted |
| Selection.MisorderFilter | src/features/artifacts/ArtifactsUpload.jsx:179-181 | in the example the index list is [0, 1, 2] and filtering it leaves [0, 2] |
| Selection.MisorderInsertions | src/features/artifacts/ArtifactsUpload.jsx:180 | in the example each insertion from the right stops at once at the unscored index |
| Selection.MisorderSortFromRight | src/features/artifacts/ArtifactsUpload.jsx:180 | in the example the right-to-left insertion sort leaves the index list unchanged |
| Selection.AsWrittenListsLowerFirst | src/features/artifacts/ArtifactsUpload.jsx:176-184 | as written, the example lists [0, 2] |
| Selection.IntendedListsHigherFirst | src/features/artifacts/ArtifactsUpload.jsx:176-184 | as intended, the example lists [2, 0] |
| Selection.AsWrittenMisorders | src/features/artifacts/ArtifactsUpload.jsx:176-184 | under "rarity-desc" the as-written list puts rarity 1.0 above rarity 2.0, the intended one the reverse |
| Paging.SlicePosition | src/features/artifacts/ArtifactsUpload.jsx:384 | a `slice` argument counts from the end when negative and is clamped to the list |
| Paging.PageContents | src/features/artifacts/ArtifactsUpload.jsx:383-384 | a page holds at most `offset` elements, exactly the run starting at `page * offset` in list order, empty past the end |
| Paging.SliceAt | src/features/artifacts/ArtifactsUpload.jsx:384 | element k of a slice is the list element at the clamped start plus k |
| Paging.SlicePositionGap | src/features/artifacts/ArtifactsUpload.jsx:384 | clamping never widens the gap between two `slice` arguments |
| Paging.PageLength | src/features/artifacts/ArtifactsUpload.jsx:383-384 | for any page number, negative included, a page holds at most `offset` elements |
| Paging.PageElements | src/features/artifacts/ArtifactsUpload.jsx:383-384 | for any integer page and page size, every element a page shows is an element of the list |
| Paging.PageKeepsPairwise | src/features/artifacts/ArtifactsUpload.jsx:383-384 | for any integer page and page size, a page keeps the list order |
| Paging.PageAt | src/features/artifacts/ArtifactsUpload.jsx:383-384 | position `pos` of a page is list element `page * offset + pos` when it exists and `pos` is below the page size |
| Paging.PageOfElement | src/features/artifacts/ArtifactsUpload.jsx:383-384 | with a positive page size, element k is shown at position `k % offset` of page `k / offset` |
| Paging.PageOfElementUnique | src/features/artifacts/ArtifactsUpload.jsx:383-384 | no other page shows element k |
| View.RenderedPageAsWrittenContents | src/features/artifacts/ArtifactsUpload.jsx:383-384 | the page the source renders, for any order the engine's sort chose, any page number and a non-negative page size: at most `offset` cards, each for a distinct accepted index of the upload |
| View.RenderedPageAsWrittenAgrees | src/features/artifacts/ArtifactsUpload.jsx:383-384 | with every artifact scored and a conforming sort, the source's page is the page of the intended list |
| View.RenderedPageContents | src/features/artifacts/ArtifactsUpload.jsx:383-396 | for any page number and a non-negative page size, the rendered cards of the intended list are at most `offset`, each for an accepted index of the upload, in comparator order |
| View.DefaultFirstPage | src/features/artifacts/ArtifactsUpload.jsx:127-128 | with the default page 0 and page size 20 the view shows the first twenty listed indices, or all when fewer |
| LockExport.LockList | src/features/artifacts/ArtifactsUpload.jsx:190 | the export holds exactly the listed indices whose artifact is not locked |
| LockExport.LockListInOrder | src/features/artifacts/ArtifactsUpload.jsx:190 | the export keeps the listed order |
| LockExport.LockListAsWrittenContents | src/features/artifacts/ArtifactsUpload.jsx:176-190 | exported from the list the source builds, for any order the engine's sort chose: each accepted, unlocked index of the upload, once |
| LockExport.LockListAsWrittenAgrees | src/features/artifacts/ArtifactsUpload.jsx:176-190 | with every artifact scored and a conforming sort, the source exports exactly what the intended list exports |
| LockExport.LockListOfView | src/features/artifacts/ArtifactsUpload.jsx:176-190 | exported from the intended list: each accepted, unlocked index of the upload, once, in comparator order |
| Calculation.CalculationRequest | src/features/artifacts/ArtifactsUpload.jsx:216-225 | no request without an upload, with an empty upload or without enabled builds; otherwise the upload and the enabled builds are sent |
| Calculation.RequestOnlyForResultView | src/features/artifacts/ArtifactsUpload.jsx:216-264 | a calculation is requested exactly when the result view is rendered for a non-empty upload |
| Calculation.RequestFromConfiguration | src/features/artifacts/ArtifactsUpload.jsx:57-70 | a calculation is requested exactly when the upload is non-empty and some user or preset build is enabled |

## Left out

- The scoring: fitness and rarity come from `src/workers/calculator.ts` and the `calculateFitsAndRarity` reducer, which are not part of this model; their tables are inputs.
- `getArtifactsResultHash` (line 72) is not part of this model; `Results.LookupResults` takes its result as a parameter.
- The worker protocol (lines 224-251): `postMessage`, progress messages, `onmessage` and the `setTimeout` fallback are asynchronous I/O; the model stops at the request built by `Calculation.CalculationRequest`.
- Redux `useSelector`/`dispatch`, `useQueryParams` and its parsing of query strings into numbers, React memoisation and effect scheduling, i18n and all JSX (sliders, arrows, `Paginator`, `ArtifactFitnessCard`, `BackToHome`): framework and UI. The query parameters are given as a typed `ViewParams`.
- The default fitness and rarity thresholds (lines 114 and 120) come from a configuration module that is not part of this model; they are ordinary inputs.
- The Blob and DOM download of `lock.json` (lines 186-198): browser I/O. Only the selection at line 190 is modelled.
- When the `lock.json` button appears (`format === "GOOD"` and a non-empty list, line 364) and when the paginator appears (more listed indices than `offset`, line 373): rendering conditions only.
- Floating point: scores are reals. `-Infinity` from `Math.max` over no fits is modelled exactly; NaN and infinite scores in the tables, and `toFixed` formatting, are not.
- Sorting.Sort: a reference stable sort, not an engine's. ECMAScript leaves the order of `sort` to the engine once the comparator is inconsistent, which it is when an unscored index is present. The as-written pipeline is modelled with one order a conforming engine may produce, `Sorting.SortFromRight` (insertion of each element from the right end of the sorted prefix, as SpiderMonkey sorts short arrays); engines that search the insertion point differently, or merge longer runs, may order such lists differently. What holds for every order the engine may choose is stated on `Selection.ListedAfterSort`. Order results about the source's own list are stated only for uploads whose artifacts are all scored.
- EnabledBuilds.EnabledBuilds: a map, so the key insertion order of the JavaScript object (the user's builds first, then keys only the presets have) is not modelled. That order reaches only `getArtifactsResultHash` and the worker message, neither of which is part of this model.
- View.RenderedPage: pages the intended list, so its order is the source's only when every artifact is scored (`View.RenderedPageAsWrittenAgrees`); for the source's own list only the page size and contents are promised, by `View.RenderedPageAsWrittenContents`.
- LockExport.LockListOfView: exports from the intended list, so its order is the source's only when every artifact is scored (`LockExport.LockListAsWrittenAgrees`); for the source's own list only the contents are promised, by `LockExport.LockListAsWrittenContents`.
- Selection.Accept: rejects an index outside the upload when a set or slot filter is on; the source never passes one, since its indices all come from the upload.
- Paging.PageOf: integer arguments only; a fractional or non-numeric page or page size from the query string is not modelled.
- `src/App.jsx`: routing, lazy loading and preset loading through a decoder that is not part of this model.

## Findings

| source | as written | input that shows it | evidently intended | confidence | as-written member | corrected member |
|---|---|---|---|---|---|---|
| src/features/artifacts/ArtifactsUpload.jsx:176-184 | the whole index list is sorted with a comparator that ties an unscored index with every index, then filtered; the sort's order is then up to the engine | three artifacts all with fits, rarities 1.0, 0 and 2.0, key "rarity-desc", thresholds 0: right-to-left insertion stops at index 1 both times and the view lists [0, 2] | the accepted indices in comparator order, [2, 0] (filter, then sort) | not executed | Selection.FilteredArtifactsAsWritten, Selection.AsWrittenMisorders | Selection.FilteredArtifacts, Selection.FilteredArtifactsOrdered |
