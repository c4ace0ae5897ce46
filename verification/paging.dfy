/** The page of the list that the view renders. */
module Paging {

  /** How `Array.prototype.slice` turns an integer argument into a position:
      a negative one counts from the end, and both are clamped to the list. */
  function SlicePosition(len: nat, rel: int): (k: nat)
    ensures k <= len
    ensures 0 <= rel <= len ==> k == rel
    ensures rel > len ==> k == len
    ensures rel < 0 ==> k == if len + rel < 0 then 0 else len + rel
  {
    if rel < 0 then (if len + rel < 0 then 0 else len + rel)
    else if rel < len then rel
    else len
  }

  /** `s.slice(start, end)` on integer arguments. */
  function Slice<T>(s: seq<T>, start: int, end: int): seq<T> {
    var from, to := SlicePosition(|s|, start), SlicePosition(|s|, end);
    if from < to then s[from..to] else []
  }

  /** `filteredArtifacts.slice(page * offset, (page + 1) * offset)` */
  function PageOf<T>(s: seq<T>, page: int, offset: int): seq<T> {
    Slice(s, page * offset, (page + 1) * offset)
  }

  /** A page is the contiguous run of at most `offset` elements starting at
      `page * offset`, in list order, and empty past the end of the list. */
  lemma PageContents<T>(s: seq<T>, page: nat, offset: nat)
    ensures |PageOf(s, page, offset)| <= offset
    ensures |PageOf(s, page, offset)| ==
      if page * offset >= |s| then 0
      else if |s| - page * offset < offset then |s| - page * offset
      else offset
    ensures forall k :: 0 <= k < |PageOf(s, page, offset)| ==>
      page * offset + k < |s| && PageOf(s, page, offset)[k] == s[page * offset + k]
  {
    assert (page + 1) * offset == page * offset + offset;
  }

  /** A slice is the run of the list starting at the clamped start. */
  lemma SliceAt<T>(s: seq<T>, start: int, end: int)
    ensures var from := SlicePosition(|s|, start);
      forall k :: 0 <= k < |Slice(s, start, end)| ==>
        from + k < |s| && Slice(s, start, end)[k] == s[from + k]
  {
    var from, to := SlicePosition(|s|, start), SlicePosition(|s|, end);
    if from < to {
      assert Slice(s, start, end) == s[from..to];
    } else {
      assert Slice(s, start, end) == [];
    }
  }

  /** Clamping never widens a gap: the end position exceeds the start
      position by at most the distance between the arguments. */
  lemma SlicePositionGap(len: nat, a: int, b: int)
    requires a <= b
    ensures SlicePosition(len, b) <= SlicePosition(len, a) + (b - a)
  {
  }

  /** For any page number, negative ones included, a page holds at most
      `offset` elements. */
  lemma PageLength<T>(s: seq<T>, page: int, offset: nat)
    ensures |PageOf(s, page, offset)| <= offset
  {
    var start := page * offset;
    assert (page + 1) * offset == start + offset;
    SlicePositionGap(|s|, start, start + offset);
  }

  /** Every element a page shows is an element of the list. */
  lemma PageElements<T>(s: seq<T>, page: int, offset: int)
    ensures forall x :: x in PageOf(s, page, offset) ==> x in s
  {
    var r := PageOf(s, page, offset);
    var from := SlicePosition(|s|, page * offset);
    SliceAt(s, page * offset, (page + 1) * offset);
    forall x | x in r ensures x in s {
      var k :| 0 <= k < |r| && r[k] == x;
      assert r[k] == s[from + k];
    }
  }

  /** A page keeps the list order: any relation between earlier and later
      list elements holds between earlier and later page elements. */
  lemma PageKeepsPairwise<T>(s: seq<T>, page: int, offset: int, before: (T, T) -> bool)
    requires forall i, j :: 0 <= i < j < |s| ==> before(s[i], s[j])
    ensures var r := PageOf(s, page, offset);
      forall k, l :: 0 <= k < l < |r| ==> before(r[k], r[l])
  {
    var r := PageOf(s, page, offset);
    var from := SlicePosition(|s|, page * offset);
    SliceAt(s, page * offset, (page + 1) * offset);
    forall k, l | 0 <= k < l < |r| ensures before(r[k], r[l]) {
      assert r[k] == s[from + k] && r[l] == s[from + l];
    }
  }

  /** With a positive page size, element `k` of the list is shown at
      position `k % offset` of page `k / offset`. */
  lemma PageOfElement<T>(s: seq<T>, offset: nat, k: nat)
    requires offset > 0 && k < |s|
    ensures k % offset < |PageOf(s, k / offset, offset)|
    ensures PageOf(s, k / offset, offset)[k % offset] == s[k]
  {
    var page, pos := k / offset, k % offset;
    assert page * offset + pos == k;
    PageAt(s, page, offset, pos);
  }

  /** Position `pos` of page `page` is list element `page * offset + pos`
      whenever that element exists and `pos` is within the page size. */
  lemma PageAt<T>(s: seq<T>, page: nat, offset: nat, pos: nat)
    requires pos < offset && page * offset + pos < |s|
    ensures pos < |PageOf(s, page, offset)|
    ensures PageOf(s, page, offset)[pos] == s[page * offset + pos]
  {
    PageContents(s, page, offset);
  }

  /** No other page shows element `k`: a page `q` covers the list positions
      from `q * offset` on, and `k` lies in that range only for `q == k / offset`. */
  lemma PageOfElementUnique<T>(s: seq<T>, offset: nat, k: nat, q: nat)
    requires offset > 0 && k < |s|
    requires q * offset <= k < q * offset + |PageOf(s, q, offset)|
    ensures q == k / offset
  {
    PageContents(s, q, offset);
    DivUnique(k, offset, q);
  }

  /** The quotient is the only `q` with `q * d <= k < q * d + d`. */
  lemma DivUnique(k: nat, d: nat, q: nat)
    requires d > 0 && q * d <= k < q * d + d
    ensures k / d == q
  {
    var q', r' := k / d, k % d;
    assert k == q' * d + r' && 0 <= r' < d;
    if q' < q {
      MulMonotone(q' + 1, q, d);
      assert false;
    } else if q' > q {
      MulMonotone(q + 1, q', d);
      assert false;
    }
  }

  lemma MulMonotone(a: nat, b: nat, c: nat)
    requires a <= b
    ensures a * c <= b * c
  {
  }
}
