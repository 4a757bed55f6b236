/** `binary_insert_idx` of lib/ford_johnson.rb: a binary search whose upper
    limit is a caller-given bound rather than the length of the chain, and
    Array#insert. */
module BinaryInsert {
  import opened Pairs

  /** Where the search of `x` in s[lo..hi) ends: the loop of
      `binary_insert_idx` run from min_idx == lo and max_idx == hi. */
  function SearchIdx(x: Elem, s: seq<Elem>, lo: int, hi: int): (r: int)
    requires 0 <= lo <= hi <= |s|
    ensures lo <= r <= hi
    decreases hi - lo
  {
    if lo == hi then lo
    else
      var mid := (lo + hi) / 2;
      if Compare(x, s[mid]) > 0 then SearchIdx(x, s, mid + 1, hi)
      else SearchIdx(x, s, lo, mid)
  }

  /** The loop invariant of the search, as an induction: everything before
      min_idx is below `x`, and the element at max_idx (when it is inside the
      bound) is not below `x`. */
  lemma {:induction false} SearchIdxSeparates(x: Elem, s: seq<Elem>, bound: int, lo: int, hi: int)
    requires 0 <= lo <= hi <= bound <= |s|
    requires Sorted(s[..bound])
    requires forall j :: 0 <= j < lo ==> Key(s[j]) < Key(x)
    requires hi < bound ==> Key(x) <= Key(s[hi])
    ensures forall j :: 0 <= j < SearchIdx(x, s, lo, hi) ==> Key(s[j]) < Key(x)
    ensures SearchIdx(x, s, lo, hi) < bound ==> Key(x) <= Key(s[SearchIdx(x, s, lo, hi)])
    decreases hi - lo
  {
    if lo < hi {
      var mid := (lo + hi) / 2;
      assert s[..bound][mid] == s[mid];
      if Compare(x, s[mid]) > 0 {
        forall j | 0 <= j < mid + 1 ensures Key(s[j]) < Key(x) {
          if j >= lo {
            assert s[..bound][j] == s[j];
          }
        }
        SearchIdxSeparates(x, s, bound, mid + 1, hi);
      } else {
        SearchIdxSeparates(x, s, bound, lo, mid);
      }
    }
  }

  /** When the first `bound` elements are sorted, the search finds the place
      that keeps them sorted: everything before it is below `x`, and the
      element at it, when inside the bound, is not. */
  lemma SearchIdxPlaces(x: Elem, s: seq<Elem>, bound: int)
    requires 0 <= bound <= |s|
    requires Sorted(s[..bound])
    ensures forall j :: 0 <= j < SearchIdx(x, s, 0, bound) ==> Key(s[j]) < Key(x)
    ensures SearchIdx(x, s, 0, bound) < bound ==> Key(x) <= Key(s[SearchIdx(x, s, 0, bound)])
  {
    SearchIdxSeparates(x, s, bound, 0, bound);
  }

  /** binary_insert_idx(new_element, sorted_elements, group_size) */
  method BinaryInsertIdx(newElement: Elem, sortedElements: seq<Elem>, groupSize: int) returns (idx: int)
    requires 0 <= groupSize <= |sortedElements|
    ensures idx == SearchIdx(newElement, sortedElements, 0, groupSize)
    ensures 0 <= idx <= groupSize
    ensures Sorted(sortedElements[..groupSize]) ==>
              (forall j :: 0 <= j < idx ==> Key(sortedElements[j]) < Key(newElement)) &&
              (idx < groupSize ==> Key(newElement) <= Key(sortedElements[idx]))
  {
    var minIdx := 0;
    var maxIdx := groupSize;
    while minIdx != maxIdx
      invariant 0 <= minIdx <= maxIdx <= groupSize
      invariant SearchIdx(newElement, sortedElements, minIdx, maxIdx) == SearchIdx(newElement, sortedElements, 0, groupSize)
      decreases maxIdx - minIdx
    {
      var middleIdx := (minIdx + maxIdx) / 2;
      if Compare(newElement, sortedElements[middleIdx]) > 0 {
        minIdx := middleIdx + 1;
      } else {
        maxIdx := middleIdx;
      }
    }
    idx := minIdx;
    if Sorted(sortedElements[..groupSize]) {
      SearchIdxPlaces(newElement, sortedElements, groupSize);
    }
  }

  /** Array#insert(i, x) */
  function InsertAt(s: seq<Elem>, i: int, x: Elem): (r: seq<Elem>)
    requires 0 <= i <= |s|
    ensures |r| == |s| + 1
  {
    s[..i] + [x] + s[i..]
  }

  /** Array#insert(i, x) puts `x` at index i, keeps what was before it and
      shifts what was from i on by one place: nothing is lost or duplicated. */
  lemma InsertAtPlaces(s: seq<Elem>, i: int, x: Elem)
    requires 0 <= i <= |s|
    ensures InsertAt(s, i, x)[i] == x
    ensures InsertAt(s, i, x)[..i] == s[..i] && InsertAt(s, i, x)[i + 1..] == s[i..]
    ensures multiset(InsertAt(s, i, x)) == multiset(s) + multiset{x}
  {
    assert s == s[..i] + s[i..];
  }
}
