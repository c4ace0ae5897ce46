/** The cards the result view renders: one page of the filtered list. */
module View {
  import opened Types
  import opened Compare
  import opened Sorting
  import opened Selection
  import opened Paging

  /** `filteredArtifacts.slice(page * offset, (page + 1) * offset)` for the
      current query parameters, on the intended list. */
  function RenderedPage(arts: Option<seq<Artifact>>, t: Tables, p: ViewParams): seq<nat> {
    PageOf(FilteredArtifacts(arts, t, p), p.page, p.offset)
  }

  /** With a non-negative page size, and whatever the page number, the view
      renders at most `offset` cards, each for an accepted index of the
      upload, in the comparator order of the filtered list. */
  lemma RenderedPageContents(arts: Option<seq<Artifact>>, t: Tables, p: ViewParams)
    requires p.offset >= 0
    ensures var r := RenderedPage(arts, t, p);
      && |r| <= p.offset
      && (forall k :: 0 <= k < |r| ==> arts.Some? && r[k] < |arts.value| && Accept(t, arts.value, p, r[k]))
      && (forall k, l :: 0 <= k < l < |r| ==> CompareIndices(t, p.sortKey, r[k], r[l]) <= 0)
  {
    var s := FilteredArtifacts(arts, t, p);
    PageLength(s, p.page, p.offset);
    FilteredArtifactsContents(arts, t, p);
    FilteredArtifactsOrdered(arts, t, p);
    PageElements(s, p.page, p.offset);
    PageKeepsPairwise(s, p.page, p.offset, (a: nat, b: nat) => CompareIndices(t, p.sortKey, a, b) <= 0);
    var r := RenderedPage(arts, t, p);
    assert forall k :: 0 <= k < |r| ==> r[k] in r;
  }

  /** `filteredArtifacts.slice(page * offset, (page + 1) * offset)` on the
      list the source builds, given the array the engine's sort returned. */
  function RenderedPageAsWritten(arts: Option<seq<Artifact>>, t: Tables, p: ViewParams, sorted: seq<nat>): seq<nat> {
    PageOf(ListedAfterSort(arts, t, p, sorted), p.page, p.offset)
  }

  /** Whatever order the engine's sort chose, the source renders at most
      `offset` cards, each for a distinct accepted index of the upload. */
  lemma RenderedPageAsWrittenContents(arts: Option<seq<Artifact>>, t: Tables, p: ViewParams, sorted: seq<nat>)
    requires arts.Some? ==> multiset(sorted) == multiset(IndexList(|arts.value|))
    requires p.offset >= 0
    ensures var r := RenderedPageAsWritten(arts, t, p, sorted);
      && |r| <= p.offset
      && (forall k :: 0 <= k < |r| ==> arts.Some? && r[k] < |arts.value| && Accept(t, arts.value, p, r[k]))
      && NoDuplicates(r)
  {
    var s := ListedAfterSort(arts, t, p, sorted);
    ListedAfterSortContents(arts, t, p, sorted);
    PageLength(s, p.page, p.offset);
    PageElements(s, p.page, p.offset);
    PageKeepsPairwise(s, p.page, p.offset, (a: nat, b: nat) => a != b);
    var r := RenderedPageAsWritten(arts, t, p, sorted);
    assert forall k :: 0 <= k < |r| ==> r[k] in r;
  }

  /** With every artifact of the upload scored and a conforming sort, the
      source renders exactly the page of the intended list. */
  lemma RenderedPageAsWrittenAgrees(arts: seq<Artifact>, t: Tables, p: ViewParams, sorted: seq<nat>)
    requires forall i :: 0 <= i < |arts| ==> Scored(t, i)
    requires multiset(sorted) == multiset(IndexList(|arts|))
    requires SortedOnScored(t, p.sortKey, sorted) && StableOnScored(t, p.sortKey, sorted)
    ensures RenderedPageAsWritten(Some(arts), t, p, sorted) == RenderedPage(Some(arts), t, p)
  {
    ListedAfterSortAgrees(arts, t, p, sorted);
  }

  /** On the default first page of 20 the view shows the first twenty
      filtered indices, or all of them when there are fewer. */
  lemma DefaultFirstPage(arts: Option<seq<Artifact>>, t: Tables, p: ViewParams)
    requires p.page == 0 && p.offset == DefaultOffset
    ensures var s := FilteredArtifacts(arts, t, p);
      RenderedPage(arts, t, p) == if |s| <= 20 then s else s[..20]
  {
    var s := FilteredArtifacts(arts, t, p);
    assert s[0..|s|] == s;
  }
}
