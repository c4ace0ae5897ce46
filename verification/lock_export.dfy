/** The "lock.json" export: the listed artifacts that are not locked yet. */
module LockExport {
  import opened Types
  import opened Compare
  import opened Sorting
  import opened Filtering
  import opened Selection

  /** `filteredArtifacts.filter((idx) => !artifacts[idx].locked)`. The listed
      indices all belong to the upload; the range test inside the predicate
      only keeps it total and changes nothing for them. */
  function LockList(arts: seq<Artifact>, shown: seq<nat>): (r: seq<nat>)
    requires forall k :: 0 <= k < |shown| ==> shown[k] < |arts|
    ensures forall i :: i in r <==> i in shown && !arts[i].locked
  {
    FilterSeq(shown, (i: nat) => i < |arts| && !arts[i].locked)
  }

  /** The export keeps the listed order: any relation between earlier and
      later listed indices holds between earlier and later exported ones. */
  lemma LockListInOrder(arts: seq<Artifact>, shown: seq<nat>, before: (nat, nat) -> bool)
    requires forall k :: 0 <= k < |shown| ==> shown[k] < |arts|
    requires forall k, l :: 0 <= k < l < |shown| ==> before(shown[k], shown[l])
    ensures var r := LockList(arts, shown);
      forall k, l :: 0 <= k < l < |r| ==> before(r[k], r[l])
  {
    FilterKeepsPairwise(shown, (i: nat) => i < |arts| && !arts[i].locked, before);
  }

  /** Exported from the intended list: each unlocked index of the upload
      that it lists, once, in its order. */
  lemma LockListOfView(arts: seq<Artifact>, t: Tables, p: ViewParams)
    ensures var shown := FilteredArtifacts(Some(arts), t, p);
      (forall k :: 0 <= k < |shown| ==> shown[k] < |arts|) &&
      var r := LockList(arts, shown);
      && (forall i: nat :: i in r <==> i < |arts| && Accept(t, arts, p, i) && !arts[i].locked)
      && NoDuplicates(r)
      && (forall k, l :: 0 <= k < l < |r| ==> CompareIndices(t, p.sortKey, r[k], r[l]) <= 0)
  {
    var shown := FilteredArtifacts(Some(arts), t, p);
    FilteredArtifactsContents(Some(arts), t, p);
    FilteredArtifactsOrdered(Some(arts), t, p);
    assert forall k :: 0 <= k < |shown| ==> shown[k] in shown;
    LockListInOrder(arts, shown, (a: nat, b: nat) => a != b);
    LockListInOrder(arts, shown, (a: nat, b: nat) => CompareIndices(t, p.sortKey, a, b) <= 0);
  }

  /** Exported from the list the source builds, whatever order the engine's
      sort chose: each accepted, unlocked index of the upload, once. */
  lemma LockListAsWrittenContents(arts: seq<Artifact>, t: Tables, p: ViewParams, sorted: seq<nat>)
    requires multiset(sorted) == multiset(IndexList(|arts|))
    ensures var shown := ListedAfterSort(Some(arts), t, p, sorted);
      (forall k :: 0 <= k < |shown| ==> shown[k] < |arts|) &&
      var r := LockList(arts, shown);
      && (forall i: nat :: i in r <==> i < |arts| && Accept(t, arts, p, i) && !arts[i].locked)
      && NoDuplicates(r)
  {
    var shown := ListedAfterSort(Some(arts), t, p, sorted);
    ListedAfterSortContents(Some(arts), t, p, sorted);
    assert forall k :: 0 <= k < |shown| ==> shown[k] in shown;
    LockListInOrder(arts, shown, (a: nat, b: nat) => a != b);
  }

  /** With every artifact of the upload scored and a conforming sort, the
      source exports exactly what the intended list exports. */
  lemma LockListAsWrittenAgrees(arts: seq<Artifact>, t: Tables, p: ViewParams, sorted: seq<nat>)
    requires forall i :: 0 <= i < |arts| ==> Scored(t, i)
    requires multiset(sorted) == multiset(IndexList(|arts|))
    requires SortedOnScored(t, p.sortKey, sorted) && StableOnScored(t, p.sortKey, sorted)
    ensures var shown := FilteredArtifacts(Some(arts), t, p);
      && (forall k :: 0 <= k < |shown| ==> shown[k] < |arts|)
      && ListedAfterSort(Some(arts), t, p, sorted) == shown
      && LockList(arts, ListedAfterSort(Some(arts), t, p, sorted)) == LockList(arts, shown)
  {
    var shown := FilteredArtifacts(Some(arts), t, p);
    FilteredArtifactsContents(Some(arts), t, p);
    assert forall k :: 0 <= k < |shown| ==> shown[k] in shown;
    ListedAfterSortAgrees(arts, t, p, sorted);
  }
}
