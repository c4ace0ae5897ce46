/** `compareFn`: the comparator handed to `Array.prototype.sort`. */
module Compare {
  import opened Types
  import SortKey

  /** A best fitness: `Math.max` over the values of a fits map, which is
      `-Infinity` when the map is empty. */
  datatype Score = NegInf | Fin(v: real)

  /** The numeric order on scores, `-Infinity` below every real. */
  predicate ScoreLe(x: Score, y: Score) {
    x.NegInf? || (y.Fin? && x.v <= y.v)
  }

  /** A finite non-empty set of reals has a largest element. */
  lemma {:induction false} MaxExists(vals: set<real>)
    requires vals != {}
    ensures exists m :: m in vals && forall v :: v in vals ==> v <= m
    decreases |vals|
  {
    if forall e :: e !in vals {
      assert false;
    }
    var x :| x in vals;
    if vals != {x} {
      var rest := vals - {x};
      MaxExists(rest);
      var m :| m in rest && forall v :: v in rest ==> v <= m;
      var best := if x <= m then m else x;
      forall v | v in vals ensures v <= best {
        if v != x { assert v in rest; }
      }
    } else {
      assert forall v :: v in vals ==> v <= x;
    }
  }

  /** `Math.max(...Object.values(fits))`: the largest fitness over the
      builds, `-Infinity` when there are none. */
  function MaxFit(fits: map<string, real>): (m: Score)
    ensures m.NegInf? <==> fits == map[]
    ensures m.Fin? ==> m.v in fits.Values && forall k :: k in fits ==> fits[k] <= m.v
  {
    if fits == map[] then NegInf
    else
      var k :| k in fits;
      assert fits[k] in fits.Values;
      MaxExists(fits.Values);
      var x :| x in fits.Values && forall v :: v in fits.Values ==> v <= x;
      assert forall k :: k in fits ==> fits[k] in fits.Values;
      Fin(x)
  }

  /** The sign of a real, the only thing `Array.prototype.sort` reads from a
      comparator result. */
  function Sign(x: real): int {
    if x < 0.0 then -1 else if x > 0.0 then 1 else 0
  }

  /** The sign of `x - y` under IEEE arithmetic: `-Infinity - -Infinity` is
      NaN, which the sort reads as 0. */
  function SignDiff(x: Score, y: Score): (c: int)
    ensures c <= 0 <==> ScoreLe(x, y)
    ensures c >= 0 <==> ScoreLe(y, x)
  {
    match (x, y)
    case (NegInf, NegInf) => 0
    case (NegInf, Fin(_)) => -1
    case (Fin(_), NegInf) => 1
    case (Fin(a), Fin(b)) => Sign(a - b)
  }

  /** `!!allFits[i] && !!allRarity[i]`: a fits entry is an object and always
      truthy, a rarity of 0 is falsy and counts as missing. */
  predicate Scored(t: Tables, i: nat) {
    i in t.allFits && i in t.allRarity && t.allRarity[i] != 0.0
  }

  /** The comparator, as the sign of its result: negative puts `a` first,
      positive puts `b` first. Unscored indices tie with everything; a key
      other than the four falls through to `undefined`, which the sort reads
      as 0. */
  function CompareIndices(t: Tables, sortKey: string, a: nat, b: nat): (c: int)
    ensures -1 <= c <= 1
    ensures !(Scored(t, a) && Scored(t, b)) ==> c == 0
    ensures c == 0 <== sortKey !in SortKey.SortKeys
  {
    if !Scored(t, a) || !Scored(t, b) then 0
    else if sortKey == "rarity-desc" then Sign(t.allRarity[b] - t.allRarity[a])
    else if sortKey == "rarity-asc" then Sign(t.allRarity[a] - t.allRarity[b])
    else if sortKey == "fitness-desc" then SignDiff(MaxFit(t.allFits[b]), MaxFit(t.allFits[a]))
    else if sortKey == "fitness-asc" then SignDiff(MaxFit(t.allFits[a]), MaxFit(t.allFits[b]))
    else 0
  }

  /** What "a may come before b" means under each key, for scored indices. */
  lemma CompareMeaning(t: Tables, sortKey: string, a: nat, b: nat)
    requires Scored(t, a) && Scored(t, b)
    ensures sortKey == "rarity-desc" ==>
      (CompareIndices(t, sortKey, a, b) <= 0 <==> t.allRarity[a] >= t.allRarity[b])
    ensures sortKey == "rarity-asc" ==>
      (CompareIndices(t, sortKey, a, b) <= 0 <==> t.allRarity[a] <= t.allRarity[b])
    ensures sortKey == "fitness-desc" ==>
      (CompareIndices(t, sortKey, a, b) <= 0 <==> ScoreLe(MaxFit(t.allFits[b]), MaxFit(t.allFits[a])))
    ensures sortKey == "fitness-asc" ==>
      (CompareIndices(t, sortKey, a, b) <= 0 <==> ScoreLe(MaxFit(t.allFits[a]), MaxFit(t.allFits[b])))
  {
  }

  /** Swapping the arguments negates the comparator. */
  lemma CompareAntisymmetric(t: Tables, sortKey: string, a: nat, b: nat)
    ensures CompareIndices(t, sortKey, a, b) == -CompareIndices(t, sortKey, b, a)
  {
  }

  /** On scored indices the comparator is transitive, both in its weak and in
      its strict form: it is a total preorder there. */
  lemma CompareTransitive(t: Tables, sortKey: string, a: nat, b: nat, c: nat)
    requires Scored(t, a) && Scored(t, b) && Scored(t, c)
    ensures CompareIndices(t, sortKey, a, b) <= 0 && CompareIndices(t, sortKey, b, c) <= 0 ==>
      CompareIndices(t, sortKey, a, c) <= 0
    ensures CompareIndices(t, sortKey, a, b) < 0 && CompareIndices(t, sortKey, b, c) <= 0 ==>
      CompareIndices(t, sortKey, a, c) < 0
    ensures CompareIndices(t, sortKey, a, b) <= 0 && CompareIndices(t, sortKey, b, c) < 0 ==>
      CompareIndices(t, sortKey, a, c) < 0
  {
  }

  /** With an unscored index the tie relation is not transitive: it ties with
      two scored indices that the comparator orders strictly. The order
      `Array.prototype.sort` then produces is left to the engine. */
  lemma UnscoredTiesBreakTransitivity()
    ensures exists t: Tables, a: nat, b: nat, u: nat ::
      && CompareIndices(t, "rarity-desc", a, u) == 0
      && CompareIndices(t, "rarity-desc", u, b) == 0
      && CompareIndices(t, "rarity-desc", a, b) < 0
  {
    var t := Tables(map[0 := map[], 1 := map[]], map[0 := 2.0, 1 := 1.0]);
    assert Scored(t, 0) && Scored(t, 1) && !Scored(t, 2);
    assert CompareIndices(t, "rarity-desc", 0, 2) == 0;
    assert CompareIndices(t, "rarity-desc", 2, 1) == 0;
    assert CompareIndices(t, "rarity-desc", 0, 1) < 0;
  }
}
