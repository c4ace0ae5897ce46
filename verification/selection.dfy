/** `filterFn` and `filteredArtifacts`: the artifact indices the view lists,
    in display order. */
module Selection {
  import opened Types
  import opened Compare
  import opened Sorting
  import opened Filtering

  /** `filterFn(i)`: scored, good enough by best fitness or by rarity, and
      matching the set and slot filters when they are on. The set and slot of
      an index outside the upload are never read by the source, whose indices
      all come from the upload; here such an index is rejected. */
  predicate Accept(t: Tables, arts: seq<Artifact>, p: ViewParams, i: nat) {
    && Scored(t, i)
    && (ScoreLe(Fin(p.fitness), MaxFit(t.allFits[i])) || t.allRarity[i] >= p.rarity)
    && (p.setFilter > 0 ==> i < |arts| && arts[i].setId == p.setFilter)
    && (p.posFilter > 0 ==> i < |arts| && arts[i].position == p.posFilter)
  }

  /** `filterFn` as the callback handed to `filter`. */
  function Keep(t: Tables, arts: seq<Artifact>, p: ViewParams): nat -> bool {
    (i: nat) => Accept(t, arts, p, i)
  }

  /** `artifacts.map((_, index) => index)` */
  function IndexList(n: nat): (s: seq<nat>)
    ensures |s| == n && forall i :: 0 <= i < n ==> s[i] == i
  {
    seq(n, i => i)
  }

  /** Every permutation of the index list holds each index of the upload
      exactly once, whatever order the sort chose. */
  lemma IndexListPermutation(n: nat, r: seq<nat>)
    requires multiset(r) == multiset(IndexList(n))
    ensures forall i: nat :: i in r <==> i < n
    ensures NoDuplicates(r)
  {
    var indices := IndexList(n);
    forall i: nat ensures i in r <==> i < n {
      calc {
        i in r;
        i in multiset(r);
        i in multiset(indices);
        i in indices;
      }
      if i < n {
        assert indices[i] == i;
      }
    }
    PermutationNoDuplicates(indices, r);
  }

  /** The accepted indices of the upload, in upload order. */
  function AcceptedIndices(arts: seq<Artifact>, t: Tables, p: ViewParams): (r: seq<nat>)
    ensures forall i: nat :: i in r <==> i < |arts| && Accept(t, arts, p, i)
    ensures Increasing(r)
    ensures AllScored(t, r)
  {
    var indices := IndexList(|arts|);
    FilterKeepsPairwise(indices, Keep(t, arts, p), (a: nat, b: nat) => a < b);
    assert forall i: nat :: i in indices <==> i < |arts| by {
      forall i: nat | i < |arts| ensures i in indices {
        assert indices[i] == i;
      }
    }
    var r := FilterSeq(indices, Keep(t, arts, p));
    assert forall k :: 0 <= k < |r| ==> r[k] in r;
    r
  }

  /** `filteredArtifacts` as written, given `sorted`, the array the engine's
      `sort` returned for the index list: that array filtered. Once an
      unscored index is present the comparator is not consistent and the
      order of `sorted` is left to the engine. */
  function ListedAfterSort(arts: Option<seq<Artifact>>, t: Tables, p: ViewParams, sorted: seq<nat>): seq<nat> {
    if arts.None? || |arts.value| == 0 then []
    else FilterSeq(sorted, Keep(t, arts.value, p))
  }

  /** `filteredArtifacts` as written, with the sort an insertion sort that
      scans from the right, as SpiderMonkey sorts short arrays. */
  function FilteredArtifactsAsWritten(arts: Option<seq<Artifact>>, t: Tables, p: ViewParams): seq<nat> {
    if arts.None? || |arts.value| == 0 then []
    else ListedAfterSort(arts, t, p, SortFromRight(t, p.sortKey, IndexList(|arts.value|)))
  }

  /** `filteredArtifacts` as intended: the accepted indices, stably sorted.
      Every accepted index is scored, so the comparator is consistent on
      the list it sorts. The rest of the model uses this definition. */
  function FilteredArtifacts(arts: Option<seq<Artifact>>, t: Tables, p: ViewParams): seq<nat> {
    if arts.None? || |arts.value| == 0 then []
    else Sort(t, p.sortKey, AcceptedIndices(arts.value, t, p))
  }

  /** The view lists nothing without artifacts; otherwise it lists each index
      of the upload that `filterFn` accepts, exactly once. */
  lemma FilteredArtifactsContents(arts: Option<seq<Artifact>>, t: Tables, p: ViewParams)
    ensures arts.None? || arts.value == [] ==> FilteredArtifacts(arts, t, p) == []
    ensures arts.Some? ==> forall i: nat ::
      i in FilteredArtifacts(arts, t, p) <==> i < |arts.value| && Accept(t, arts.value, p, i)
    ensures NoDuplicates(FilteredArtifacts(arts, t, p))
  {
    if arts.Some? && |arts.value| > 0 {
      var accepted := AcceptedIndices(arts.value, t, p);
      var r := Sort(t, p.sortKey, accepted);
      forall i: nat ensures i in r <==> i in accepted {
        assert i in r <==> i in multiset(r);
      }
      SortNoDuplicates(t, p.sortKey, accepted);
    }
  }

  /** As written, whatever permutation of the index list the engine's sort
      returned, the view lists each index of the upload that `filterFn`
      accepts, exactly once: only their order depends on the engine. */
  lemma ListedAfterSortContents(arts: Option<seq<Artifact>>, t: Tables, p: ViewParams, sorted: seq<nat>)
    requires arts.Some? ==> multiset(sorted) == multiset(IndexList(|arts.value|))
    ensures arts.None? || arts.value == [] ==> ListedAfterSort(arts, t, p, sorted) == []
    ensures arts.Some? ==> forall i: nat ::
      i in ListedAfterSort(arts, t, p, sorted) <==> i < |arts.value| && Accept(t, arts.value, p, i)
    ensures NoDuplicates(ListedAfterSort(arts, t, p, sorted))
  {
    if arts.Some? && |arts.value| > 0 {
      IndexListPermutation(|arts.value|, sorted);
      FilterKeepsPairwise(sorted, Keep(t, arts.value, p), (a: nat, b: nat) => a != b);
    }
  }

  /** With every artifact of the upload scored, the source's list is the
      intended one whatever conforming sort the engine runs: a permutation
      of the index list, sorted and stable. */
  lemma ListedAfterSortAgrees(arts: seq<Artifact>, t: Tables, p: ViewParams, sorted: seq<nat>)
    requires forall i :: 0 <= i < |arts| ==> Scored(t, i)
    requires multiset(sorted) == multiset(IndexList(|arts|))
    requires SortedOnScored(t, p.sortKey, sorted) && StableOnScored(t, p.sortKey, sorted)
    ensures ListedAfterSort(Some(arts), t, p, sorted) == FilteredArtifacts(Some(arts), t, p)
  {
    if |arts| > 0 {
      ConformingSortListsIntended(arts, t, p, sorted);
    }
  }

  /** For the right-to-left insertion sort, the same contents. */
  lemma FilteredArtifactsAsWrittenContents(arts: Option<seq<Artifact>>, t: Tables, p: ViewParams)
    ensures arts.None? || arts.value == [] ==> FilteredArtifactsAsWritten(arts, t, p) == []
    ensures arts.Some? ==> forall i: nat ::
      i in FilteredArtifactsAsWritten(arts, t, p) <==> i < |arts.value| && Accept(t, arts.value, p, i)
    ensures NoDuplicates(FilteredArtifactsAsWritten(arts, t, p))
  {
    if arts.Some? && |arts.value| > 0 {
      ListedAfterSortContents(arts, t, p, SortFromRight(t, p.sortKey, IndexList(|arts.value|)));
    }
  }

  /** The listed indices are in comparator order, and indices that tie are in
      upload order. */
  lemma FilteredArtifactsOrdered(arts: Option<seq<Artifact>>, t: Tables, p: ViewParams)
    ensures var r := FilteredArtifacts(arts, t, p);
      forall k, l :: 0 <= k < l < |r| ==> CompareIndices(t, p.sortKey, r[k], r[l]) <= 0
    ensures var r := FilteredArtifacts(arts, t, p);
      forall k, l :: 0 <= k < l < |r| && CompareIndices(t, p.sortKey, r[k], r[l]) == 0 ==> r[k] < r[l]
  {
    if arts.Some? && |arts.value| > 0 {
      var accepted := AcceptedIndices(arts.value, t, p);
      var r := Sort(t, p.sortKey, accepted);
      SortStrictOnScored(t, p.sortKey, accepted);
      forall k, l | 0 <= k < l < |r|
        ensures CompareIndices(t, p.sortKey, r[k], r[l]) <= 0
        ensures CompareIndices(t, p.sortKey, r[k], r[l]) == 0 ==> r[k] < r[l]
      {
        assert Before(t, p.sortKey, r[k], r[l]);
      }
    }
  }

  /** Under each of the four keys the list runs by rarity or by best fitness,
      downwards for "-desc" and upwards for "-asc". */
  lemma FilteredArtifactsByKey(arts: Option<seq<Artifact>>, t: Tables, p: ViewParams)
    ensures var r := FilteredArtifacts(arts, t, p);
      forall k :: 0 <= k < |r| ==> Scored(t, r[k])
    ensures var r := FilteredArtifacts(arts, t, p);
      p.sortKey == "rarity-desc" ==> forall k, l :: 0 <= k < l < |r| ==>
        Scored(t, r[k]) && Scored(t, r[l]) && t.allRarity[r[k]] >= t.allRarity[r[l]]
    ensures var r := FilteredArtifacts(arts, t, p);
      p.sortKey == "rarity-asc" ==> forall k, l :: 0 <= k < l < |r| ==>
        Scored(t, r[k]) && Scored(t, r[l]) && t.allRarity[r[k]] <= t.allRarity[r[l]]
    ensures var r := FilteredArtifacts(arts, t, p);
      p.sortKey == "fitness-desc" ==> forall k, l :: 0 <= k < l < |r| ==>
        Scored(t, r[k]) && Scored(t, r[l]) && ScoreLe(MaxFit(t.allFits[r[l]]), MaxFit(t.allFits[r[k]]))
    ensures var r := FilteredArtifacts(arts, t, p);
      p.sortKey == "fitness-asc" ==> forall k, l :: 0 <= k < l < |r| ==>
        Scored(t, r[k]) && Scored(t, r[l]) && ScoreLe(MaxFit(t.allFits[r[k]]), MaxFit(t.allFits[r[l]]))
  {
    var r := FilteredArtifacts(arts, t, p);
    FilteredArtifactsContents(arts, t, p);
    FilteredArtifactsOrdered(arts, t, p);
    assert forall k :: 0 <= k < |r| ==> r[k] in r;
    forall k, l | 0 <= k < l < |r| ensures Scored(t, r[k]) && Scored(t, r[l]) {
      assert r[k] in r && r[l] in r;
    }
    forall k, l | 0 <= k < l < |r|
      ensures p.sortKey == "rarity-desc" ==> t.allRarity[r[k]] >= t.allRarity[r[l]]
      ensures p.sortKey == "rarity-asc" ==> t.allRarity[r[k]] <= t.allRarity[r[l]]
      ensures p.sortKey == "fitness-desc" ==> ScoreLe(MaxFit(t.allFits[r[l]]), MaxFit(t.allFits[r[k]]))
      ensures p.sortKey == "fitness-asc" ==> ScoreLe(MaxFit(t.allFits[r[k]]), MaxFit(t.allFits[r[l]]))
    {
      assert r[k] in r && r[l] in r;
      CompareMeaning(t, p.sortKey, r[k], r[l]);
    }
  }

  /** The intended list is strictly ordered: comparator first, index on a tie. */
  lemma FilteredArtifactsStrict(arts: seq<Artifact>, t: Tables, p: ViewParams)
    ensures StrictlyOrdered(t, p.sortKey, FilteredArtifacts(Some(arts), t, p))
  {
    if |arts| > 0 {
      SortStrictOnScored(t, p.sortKey, AcceptedIndices(arts, t, p));
    }
  }

  /** Filtering a strictly ordered permutation of the index list gives the
      intended list. */
  lemma FilterOfOrderedPermutation(arts: seq<Artifact>, t: Tables, p: ViewParams, sorted: seq<nat>)
    requires |arts| > 0
    requires multiset(sorted) == multiset(IndexList(|arts|))
    requires StrictlyOrdered(t, p.sortKey, sorted)
    ensures FilterSeq(sorted, Keep(t, arts, p)) == FilteredArtifacts(Some(arts), t, p)
  {
    var listed := FilterSeq(sorted, Keep(t, arts, p));
    IndexListPermutation(|arts|, sorted);
    FilterKeepsPairwise(sorted, Keep(t, arts, p), (a: nat, b: nat) => Before(t, p.sortKey, a, b));
    FilteredArtifactsContents(Some(arts), t, p);
    FilteredArtifactsStrict(arts, t, p);
    StrictlyOrderedUnique(t, p.sortKey, listed, FilteredArtifacts(Some(arts), t, p));
  }

  /** When every artifact of the upload is scored, the source's order is the
      intended one: any sort with the guarantees `Array.prototype.sort` gives
      for a consistent comparator (a permutation, sorted, stable), followed
      by the filter, lists exactly `FilteredArtifacts`. */
  lemma ConformingSortListsIntended(arts: seq<Artifact>, t: Tables, p: ViewParams, sorted: seq<nat>)
    requires |arts| > 0
    requires forall i :: 0 <= i < |arts| ==> Scored(t, i)
    requires multiset(sorted) == multiset(IndexList(|arts|))
    requires SortedOnScored(t, p.sortKey, sorted) && StableOnScored(t, p.sortKey, sorted)
    ensures FilterSeq(sorted, Keep(t, arts, p)) == FilteredArtifacts(Some(arts), t, p)
  {
    IndexListPermutation(|arts|, sorted);
    forall k | 0 <= k < |sorted| ensures Scored(t, sorted[k]) {
      assert sorted[k] in sorted;
    }
    SortedStableIsStrict(t, p.sortKey, sorted);
    FilterOfOrderedPermutation(arts, t, p, sorted);
  }

  /** When every artifact of the upload is scored, the as-written pipeline
      lists exactly the intended one. */
  lemma AsWrittenAgreesWhenAllScored(arts: seq<Artifact>, t: Tables, p: ViewParams)
    requires forall i :: 0 <= i < |arts| ==> Scored(t, i)
    ensures FilteredArtifactsAsWritten(Some(arts), t, p) == FilteredArtifacts(Some(arts), t, p)
  {
    if |arts| > 0 {
      var indices := IndexList(|arts|);
      assert AllScored(t, indices);
      SortFromRightOrdered(t, p.sortKey, indices);
      FilterOfOrderedPermutation(arts, t, p, SortFromRight(t, p.sortKey, indices));
      assert FilteredArtifactsAsWritten(Some(arts), t, p)
          == FilterSeq(SortFromRight(t, p.sortKey, indices), Keep(t, arts, p));
    }
  }

  /** Three artifacts with fits; the middle one has rarity 0 and so is
      unscored. Sorted by "rarity-desc" without thresholds or filters. */
  const MisorderArts: seq<Artifact> := [Artifact(1, 1, false), Artifact(1, 1, false), Artifact(1, 1, false)]
  const MisorderTables: Tables :=
    Tables(map[0 := map["b" := 1.0], 1 := map["b" := 1.0], 2 := map["b" := 1.0]],
           map[0 := 1.0, 1 := 0.0, 2 := 2.0])
  const MisorderParams: ViewParams := ViewParams(0.0, 0.0, 0, 0, "rarity-desc", 0, 20)

  /** Which of the three indices are scored and accepted. */
  lemma MisorderAccepted()
    ensures Scored(MisorderTables, 0) && !Scored(MisorderTables, 1) && Scored(MisorderTables, 2)
    ensures Keep(MisorderTables, MisorderArts, MisorderParams)(0)
    ensures !Keep(MisorderTables, MisorderArts, MisorderParams)(1)
    ensures Keep(MisorderTables, MisorderArts, MisorderParams)(2)
  {
    assert Accept(MisorderTables, MisorderArts, MisorderParams, 0);
    assert Accept(MisorderTables, MisorderArts, MisorderParams, 2);
  }

  /** The three-element index list, and the accepted indices filtered from it. */
  lemma MisorderFilter()
    ensures IndexList(3) == [0, 1, 2]
    ensures FilterSeq(IndexList(3), Keep(MisorderTables, MisorderArts, MisorderParams)) == [0, 2]
  {
    var keep := Keep(MisorderTables, MisorderArts, MisorderParams);
    MisorderAccepted();
    var s0: seq<nat>, s1: seq<nat>, s2: seq<nat> := [0, 1, 2], [1, 2], [2];
    assert IndexList(3) == s0;
    assert s0[1..] == s1 && s1[1..] == s2 && s2[1..] == [];
    assert FilterSeq(s2, keep) == [2];
    assert FilterSeq(s1, keep) == [2];
  }

  /** The unscored index 1 ties with both neighbours, so each insertion from
      the right stops at once. */
  lemma MisorderInsertions()
    ensures InsertFromRight(MisorderTables, "rarity-desc", [0], 1) == [0, 1]
    ensures InsertFromRight(MisorderTables, "rarity-desc", [0, 1], 2) == [0, 1, 2]
  {
    MisorderAccepted();
    assert CompareIndices(MisorderTables, "rarity-desc", 0, 1) == 0;
    assert CompareIndices(MisorderTables, "rarity-desc", 1, 2) == 0;
  }

  /** The right-to-left insertion sort leaves the index list as it is. */
  lemma MisorderSortFromRight()
    ensures SortFromRight(MisorderTables, "rarity-desc", IndexList(3)) == IndexList(3)
  {
    var t := MisorderTables;
    MisorderInsertions();
    var s0: seq<nat>, s1: seq<nat>, s2: seq<nat> := [0, 1, 2], [0, 1], [0];
    assert IndexList(3) == s0;
    assert s0[..2] == s1 && s1[..1] == s2 && s2[..0] == [];
    assert SortFromRight(t, "rarity-desc", s2) == s2;
    assert SortFromRight(t, "rarity-desc", s1) == s1;
  }

  /** As written, the insertion from the right stops at the unscored index
      both times: the list stays [0, 1, 2] and the filter leaves [0, 2]. */
  lemma AsWrittenListsLowerFirst()
    ensures FilteredArtifactsAsWritten(Some(MisorderArts), MisorderTables, MisorderParams) == [0, 2]
  {
    MisorderFilter();
    MisorderSortFromRight();
    assert |MisorderArts| == 3 && MisorderParams.sortKey == "rarity-desc";
  }

  /** As intended, the accepted indices [0, 2] are sorted and 2, of higher
      rarity, goes first. */
  lemma IntendedListsHigherFirst()
    ensures FilteredArtifacts(Some(MisorderArts), MisorderTables, MisorderParams) == [2, 0]
  {
    var t, key := MisorderTables, MisorderParams.sortKey;
    MisorderAccepted();
    MisorderFilter();
    var s0: seq<nat>, s1: seq<nat> := [0, 2], [0];
    assert AcceptedIndices(MisorderArts, t, MisorderParams) == s0;
    assert s0[..1] == s1 && s1[..0] == [];
    assert Sort(t, key, s1) == s1;
    assert CompareIndices(t, key, 0, 2) == 1;
    assert Sort(t, key, s0) == [2, 0];
  }

  /** The as-written view lists rarity 1.0 above rarity 2.0 under
      "rarity-desc"; the intended list has them the other way round. */
  lemma AsWrittenMisorders()
    ensures FilteredArtifactsAsWritten(Some(MisorderArts), MisorderTables, MisorderParams) == [0, 2]
    ensures FilteredArtifacts(Some(MisorderArts), MisorderTables, MisorderParams) == [2, 0]
    ensures MisorderParams.sortKey == "rarity-desc"
    ensures MisorderTables.allRarity[0] < MisorderTables.allRarity[2]
  {
    AsWrittenListsLowerFirst();
    IntendedListsHigherFirst();
  }

  /** An index of the upload passes `filterFn` exactly when it has fits and a
      non-zero rarity, some build's fitness or its rarity reaches its
      threshold, and it is in the chosen set and slot when those filters are on. */
  lemma AcceptMeaning(t: Tables, arts: seq<Artifact>, p: ViewParams, i: nat)
    requires i < |arts|
    ensures Accept(t, arts, p, i) <==>
      && i in t.allFits && i in t.allRarity && t.allRarity[i] != 0.0
      && ((exists b :: b in t.allFits[i] && t.allFits[i][b] >= p.fitness) || t.allRarity[i] >= p.rarity)
      && (p.setFilter > 0 ==> arts[i].setId == p.setFilter)
      && (p.posFilter > 0 ==> arts[i].position == p.posFilter)
  {
    if i in t.allFits {
      var fits := t.allFits[i];
      if exists b :: b in fits && fits[b] >= p.fitness {
        var b :| b in fits && fits[b] >= p.fitness;
        assert ScoreLe(Fin(p.fitness), MaxFit(fits));
      }
      if ScoreLe(Fin(p.fitness), MaxFit(fits)) {
        var m := MaxFit(fits).v;
        var b :| b in fits && fits[b] == m;
      }
    }
  }
}
