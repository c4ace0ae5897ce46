/** Values shared by the result-view selection pipeline of the artifact page. */
module Types {

  /** A value that may be absent (JavaScript `undefined`). */
  datatype Option<+T> = None | Some(value: T)

  /** One uploaded artifact, restricted to the fields the selection reads.
      Its stats, substats and rarity tier are read only by the scorer,
      which is not part of this model. */
  datatype Artifact = Artifact(setId: int, position: int, locked: bool)

  /** The per-build configuration entry; only its `enabled` flag is read. */
  datatype BuildConfig = BuildConfig(enabled: bool)

  /** The pair of tables the scoring worker delivers: for each artifact index,
      its fitness against every enabled build, and its rarity score. */
  datatype Tables = Tables(allFits: map<nat, map<string, real>>, allRarity: map<nat, real>)

  /** The query parameters that steer the view. */
  datatype ViewParams = ViewParams(
    fitness: real,   // minimum best fitness
    rarity: real,    // minimum rarity
    setFilter: int,  // set filter, off when not positive
    posFilter: int,  // slot filter, off when not positive
    sortKey: string, // "field-direction"
    page: int,
    offset: int      // page size
  )

  const DefaultSortKey: string := "rarity-desc"
  const DefaultOffset: int := 20
}
