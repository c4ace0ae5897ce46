/** Reading the cached scoring result for the current artifact upload and
    build fingerprint, and the loading flag derived from it. */
module Results {
  import opened Types

  /** The cache: upload identity, then build fingerprint, to the tables.
      The outer level may be missing altogether (`undefined`). */
  type Store = Option<map<string, map<string, Tables>>>

  /** The tables shown while nothing is cached: two empty maps. */
  const EmptyTables: Tables := Tables(map[], map[])

  /** The stored tables under `[artifactsId][resultHash]`, or two empty maps
      when the store, the upload entry or the fingerprint entry is missing.
      `resultHash` is the fingerprint of the enabled builds, computed by a
      hash function that is not part of this model. */
  function LookupResults(store: Store, artifactsId: string, resultHash: string): (t: Tables)
    ensures store.Some? && artifactsId in store.value && resultHash in store.value[artifactsId] ==>
      t == store.value[artifactsId][resultHash]
    ensures !(store.Some? && artifactsId in store.value && resultHash in store.value[artifactsId]) ==>
      t.allFits == map[] && t.allRarity == map[]
  {
    var byUpload := if store.Some? then store.value else map[];
    var byHash := if artifactsId in byUpload then byUpload[artifactsId] else map[];
    if resultHash in byHash then byHash[resultHash] else EmptyTables
  }

  /** The view waits for a calculation while either table has no key. */
  predicate IsLoading(t: Tables) {
    |t.allFits| == 0 || |t.allRarity| == 0
  }

  /** A missing cache entry at any level shows the loading state; a present
      entry shows its tables, and is loading exactly when one of them is empty. */
  lemma LookupLoading(store: Store, artifactsId: string, resultHash: string)
    ensures !(store.Some? && artifactsId in store.value && resultHash in store.value[artifactsId]) ==>
      IsLoading(LookupResults(store, artifactsId, resultHash))
    ensures store.Some? && artifactsId in store.value && resultHash in store.value[artifactsId] ==>
      (IsLoading(LookupResults(store, artifactsId, resultHash)) <==>
        store.value[artifactsId][resultHash].allFits == map[] ||
        store.value[artifactsId][resultHash].allRarity == map[])
  {
    var t := LookupResults(store, artifactsId, resultHash);
    if |t.allFits| != 0 {
      assert t.allFits != map[];
    }
    if |t.allRarity| != 0 {
      assert t.allRarity != map[];
    }
  }
}
