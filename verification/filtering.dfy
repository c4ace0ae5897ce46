/** `Array.prototype.filter`: keeps, in order, the elements a predicate accepts. */
module Filtering {

  function FilterSeq<T(!new)>(s: seq<T>, keep: T -> bool): (r: seq<T>)
    ensures |r| <= |s|
    ensures forall x :: x in r <==> x in s && keep(x)
  {
    if s == [] then []
    else
      assert forall x :: x in s <==> x == s[0] || x in s[1..];
      (if keep(s[0]) then [s[0]] else []) + FilterSeq(s[1..], keep)
  }

  /** Any relation that holds between every earlier and later element of the
      input still holds in the output: filtering preserves order. */
  lemma {:induction false} FilterKeepsPairwise<T(!new)>(s: seq<T>, keep: T -> bool, before: (T, T) -> bool)
    requires forall i, j :: 0 <= i < j < |s| ==> before(s[i], s[j])
    ensures forall i, j :: 0 <= i < j < |FilterSeq(s, keep)| ==>
      before(FilterSeq(s, keep)[i], FilterSeq(s, keep)[j])
  {
    if s != [] {
      var tail := s[1..];
      forall i, j | 0 <= i < j < |tail| ensures before(tail[i], tail[j]) {
        assert tail[i] == s[i + 1] && tail[j] == s[j + 1];
      }
      FilterKeepsPairwise(tail, keep, before);
      var rest := FilterSeq(tail, keep);
      if keep(s[0]) {
        var r := [s[0]] + rest;
        assert r == FilterSeq(s, keep);
        forall i, j | 0 <= i < j < |r| ensures before(r[i], r[j]) {
          if i == 0 {
            assert r[j] in tail;
            var m :| 0 <= m < |tail| && tail[m] == r[j];
            assert tail[m] == s[m + 1];
          } else {
            assert r[i] == rest[i - 1] && r[j] == rest[j - 1];
          }
        }
      } else {
        assert rest == FilterSeq(s, keep);
      }
    }
  }
}
