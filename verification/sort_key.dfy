/** Sort keys are strings "field-direction"; clicking a column header asks
    for a key and the toggle rule decides the new one. */
module SortKey {
  import opened Types

  /** The four keys the comparator understands. */
  const SortKeys: set<string> := {"rarity-desc", "rarity-asc", "fitness-desc", "fitness-asc"}

  /** `s.split("-")`: the pieces between the separators, at least one. */
  function Split(s: string): (parts: seq<string>)
    ensures |parts| >= 1
    ensures forall i :: 0 <= i < |parts| ==> '-' !in parts[i]
    ensures Join(parts) == s
  {
    if |s| == 0 then [""]
    else if s[0] == '-' then [""] + Split(s[1..])
    else
      var rest := Split(s[1..]);
      assert s == [s[0]] + s[1..];
      [[s[0]] + rest[0]] + rest[1..]
  }

  /** `parts.join("-")`, the inverse of Split. */
  function Join(parts: seq<string>): string
    requires |parts| >= 1
  {
    if |parts| == 1 then parts[0] else parts[0] + "-" + Join(parts[1..])
  }

  /** Splitting a piece without separator in front of a string glues the
      piece to the first part. */
  lemma {:induction false} SplitPrefix(p: string, s: string)
    requires '-' !in p
    ensures Split(p + s) == [p + Split(s)[0]] + Split(s)[1..]
  {
    if p != [] {
      assert p + s == [p[0]] + (p[1..] + s);
      SplitPrefix(p[1..], s);
      assert p[0] != '-' by { assert p[0] in p; }
      assert (p + s)[1..] == p[1..] + s;
      assert [p[0]] + (p[1..] + Split(s)[0]) == p + Split(s)[0];
    } else {
      assert p + s == s;
      assert p + Split(s)[0] == Split(s)[0];
      assert Split(s) == [Split(s)[0]] + Split(s)[1..];
    }
  }

  /** Joining pieces that contain no separator and splitting again gives
      the pieces back. */
  lemma {:induction false} SplitJoin(parts: seq<string>)
    requires |parts| >= 1
    requires forall i :: 0 <= i < |parts| ==> '-' !in parts[i]
    ensures Split(Join(parts)) == parts
  {
    if |parts| == 1 {
      SplitPrefix(parts[0], "");
      assert parts[0] + "" == parts[0];
    } else {
      var rest := parts[1..];
      SplitJoin(rest);
      var s := "-" + Join(rest);
      assert Split(s) == [""] + Split(Join(rest)) by {
        assert s[1..] == Join(rest);
      }
      assert parts[0] + "-" + Join(rest) == parts[0] + s;
      SplitPrefix(parts[0], s);
      assert parts[0] + "" == parts[0];
      assert parts == [parts[0]] + rest;
    }
  }

  /** `key.split("-")[0]` */
  function Field(key: string): string {
    Split(key)[0]
  }

  /** `key.split("-")[1]`, `None` standing for `undefined`. */
  function Direction(key: string): Option<string> {
    var parts := Split(key);
    if |parts| > 1 then Some(parts[1]) else None
  }

  /** The direction a toggle switches to: "desc" after "asc", "asc" after
      anything else, an absent direction included. */
  function Flipped(dir: Option<string>): string {
    if dir == Some("asc") then "desc" else "asc"
  }

  /** `handleSortChange`: asking for the field already sorted on flips the
      current direction; asking for another field takes the request as is. */
  function ToggleSortKey(current: string, requested: string): string {
    if Field(requested) == Field(current) then
      Field(requested) + "-" + Flipped(Direction(current))
    else requested
  }

  /** A key is well formed when it is a field without separator, one
      separator, and "asc" or "desc". */
  predicate WellFormed(key: string) {
    var parts := Split(key);
    |parts| == 2 && (parts[1] == "asc" || parts[1] == "desc")
  }

  /** Same field: the result keeps the field, has the current direction
      flipped, and does not depend on the direction that was requested.
      Different field: the request is taken verbatim. */
  lemma {:induction false} ToggleSortKeyResult(current: string, requested: string, other: string)
    ensures Field(requested) == Field(current) ==>
      Split(ToggleSortKey(current, requested)) == [Field(current), Flipped(Direction(current))]
    ensures Field(requested) == Field(current) && Field(other) == Field(current) ==>
      ToggleSortKey(current, requested) == ToggleSortKey(current, other)
    ensures Field(requested) != Field(current) ==> ToggleSortKey(current, requested) == requested
  {
    if Field(requested) == Field(current) {
      var f := Field(current);
      var d := Flipped(Direction(current));
      assert '-' !in f by { assert Split(current)[0] == f; }
      assert '-' !in d by {
        if d == "asc" { assert "asc"[0] == 'a' && "asc"[1] == 's' && "asc"[2] == 'c'; }
        else { assert "desc"[0] == 'd' && "desc"[1] == 'e' && "desc"[2] == 's' && "desc"[3] == 'c'; }
      }
      assert Join([f, d]) == f + "-" + d;
      SplitJoin([f, d]);
    }
  }

  /** On a well-formed key, asking twice for the same field restores the key. */
  lemma {:induction false} ToggleTwiceRestores(current: string, requested: string)
    requires WellFormed(current)
    requires Field(requested) == Field(current)
    ensures ToggleSortKey(ToggleSortKey(current, requested), requested) == current
  {
    var once := ToggleSortKey(current, requested);
    ToggleSortKeyResult(current, requested, requested);
    assert Split(once) == [Field(current), Flipped(Direction(current))];
    assert Field(once) == Field(current);
    var parts := Split(current);
    assert Direction(once) == Some(Flipped(Direction(current)));
    assert Flipped(Some(Flipped(Direction(current)))) == parts[1];
    ToggleSortKeyResult(once, requested, requested);
    assert Split(ToggleSortKey(once, requested)) == parts;
    assert Join(parts) == current;
    assert Join(Split(ToggleSortKey(once, requested))) == ToggleSortKey(once, requested);
  }

  /** Splitting a key "field-dir" whose parts have no separator. */
  lemma {:induction false} SplitKey(f: string, d: string)
    requires '-' !in f && '-' !in d
    ensures Split(f + "-" + d) == [f, d]
  {
    SplitJoin([f, d]);
    assert Join([f, d]) == f + "-" + d;
  }

  /** How the two rarity keys split. */
  lemma RarityKeysSplit()
    ensures Split("rarity-desc") == ["rarity", "desc"]
    ensures Split("rarity-asc") == ["rarity", "asc"]
  {
    assert "rarity" + "-" + "desc" == "rarity-desc";
    SplitKey("rarity", "desc");
    assert "rarity" + "-" + "asc" == "rarity-asc";
    SplitKey("rarity", "asc");
  }

  /** How the two fitness keys split. */
  lemma FitnessKeysSplit()
    ensures Split("fitness-desc") == ["fitness", "desc"]
    ensures Split("fitness-asc") == ["fitness", "asc"]
  {
    assert "fitness" + "-" + "desc" == "fitness-desc";
    SplitKey("fitness", "desc");
    assert "fitness" + "-" + "asc" == "fitness-asc";
    SplitKey("fitness", "asc");
  }

  /** The four comparator keys are well formed, on the fields "fitness"
      and "rarity", and the default key is one of them. */
  lemma SortKeysWellFormed()
    ensures WellFormed("rarity-desc") && Field("rarity-desc") == "rarity"
    ensures WellFormed("rarity-asc") && Field("rarity-asc") == "rarity"
    ensures WellFormed("fitness-desc") && Field("fitness-desc") == "fitness"
    ensures WellFormed("fitness-asc") && Field("fitness-asc") == "fitness"
    ensures DefaultSortKey in SortKeys
  {
    RarityKeysSplit();
    FitnessKeysSplit();
  }

  /** Each comparator key splits into "fitness" or "rarity" and "asc" or "desc". */
  lemma SortKeyParts(key: string)
    requires key in SortKeys
    ensures WellFormed(key)
    ensures Field(key) == "rarity" || Field(key) == "fitness"
  {
    if key == "rarity-desc" {
      SortKeysWellFormed();
    } else if key == "rarity-asc" {
      SortKeysWellFormed();
    } else if key == "fitness-desc" {
      SortKeysWellFormed();
    } else {
      assert key == "fitness-asc";
      SortKeysWellFormed();
    }
  }

  /** Joining a comparator field and a direction gives a comparator key. */
  lemma SortKeyOfParts(field: string, dir: string)
    requires field == "rarity" || field == "fitness"
    requires dir == "asc" || dir == "desc"
    ensures field + "-" + dir in SortKeys
  {
    if field == "rarity" && dir == "desc" {
      assert field + "-" + dir == "rarity-desc";
    } else if field == "rarity" {
      assert field + "-" + dir == "rarity-asc";
    } else if dir == "desc" {
      assert field + "-" + dir == "fitness-desc";
    } else {
      assert field + "-" + dir == "fitness-asc";
    }
  }

  /** Clicking among the four comparator keys always yields one of them, on
      the field that was asked for. Clicking the highlighted arrow, which asks
      for the current key itself, always changes the key. */
  lemma ToggleStaysInSortKeys(current: string, requested: string)
    requires current in SortKeys && requested in SortKeys
    ensures ToggleSortKey(current, requested) in SortKeys
    ensures Field(ToggleSortKey(current, requested)) == Field(requested)
    ensures requested == current ==> ToggleSortKey(current, requested) != current
  {
    SortKeyParts(current);
    SortKeyParts(requested);
    var r := ToggleSortKey(current, requested);
    ToggleSortKeyResult(current, requested, requested);
    if Field(requested) == Field(current) {
      var d := Flipped(Direction(current));
      SortKeyOfParts(Field(current), d);
      assert Split(r)[1] != Split(current)[1];
    }
  }
}
