/** minmax_element (base/algorithm.h): the first minimum and the last maximum of a range, two
    elements at a time. */
module MinMax {

  /** A strict weak ordering: asymmetric, with transitive incomparability. */
  ghost predicate StrictWeak<T(!new)>(less: (T, T) -> bool) {
    && (forall x, y :: less(x, y) ==> !less(y, x))
    && (forall x, y, z :: less(x, z) ==> less(x, y) || less(y, z))
  }

  ghost predicate IsFirstMin<T(!new)>(s: seq<T>, less: (T, T) -> bool, n: nat, i: nat)
    requires n <= |s|
  {
    && i < n
    && (forall j :: 0 <= j < n ==> !less(s[j], s[i]))
    && (forall j :: 0 <= j < i ==> less(s[i], s[j]))
  }

  ghost predicate IsLastMax<T(!new)>(s: seq<T>, less: (T, T) -> bool, n: nat, i: nat)
    requires n <= |s|
  {
    && i < n
    && (forall j :: 0 <= j < n ==> !less(s[i], s[j]))
    && (forall j :: i < j < n ==> less(s[j], s[i]))
  }

  /** One more element: it becomes the minimum only if it is smaller. */
  lemma NextMin<T(!new)>(s: seq<T>, less: (T, T) -> bool, n: nat, i: nat)
    requires StrictWeak(less) && n < |s| && IsFirstMin(s, less, n, i)
    ensures IsFirstMin(s, less, n + 1, if less(s[n], s[i]) then n else i)
  {
  }

  /** One more element: it becomes the maximum unless it is smaller. */
  lemma NextMax<T(!new)>(s: seq<T>, less: (T, T) -> bool, n: nat, i: nat)
    requires StrictWeak(less) && n < |s| && IsLastMax(s, less, n, i)
    ensures IsLastMax(s, less, n + 1, if !less(s[n], s[i]) then n else i)
  {
  }

  lemma Triple<T(!new)>(less: (T, T) -> bool, x: T, y: T, m: T)
    requires StrictWeak(less)
    ensures less(y, x) && less(x, m) ==> less(y, m)
    ensures !less(y, x) && less(y, m) ==> less(x, m)
    ensures less(y, x) && !less(y, m) ==> !less(x, m)
    ensures !less(y, x) && !less(x, m) ==> !less(y, m)
    ensures less(y, x) ==> !less(x, y)
  {
  }

  /** Of two more elements only the smaller can be the minimum, and only the other one the
      maximum; of two equivalent ones the first is tried as minimum, the last as maximum. */
  lemma NextPair<T(!new)>(s: seq<T>, less: (T, T) -> bool, n: nat, min: nat, max: nat)
    requires StrictWeak(less) && n + 1 < |s| && IsFirstMin(s, less, n, min) && IsLastMax(s, less, n, max)
    ensures var (lo, hi) := if less(s[n + 1], s[n]) then (n + 1, n) else (n, n + 1);
            && IsFirstMin(s, less, n + 2, if less(s[lo], s[min]) then lo else min)
            && IsLastMax(s, less, n + 2, if !less(s[hi], s[max]) then hi else max)
  {
    var min', max' := if less(s[n], s[min]) then n else min, if !less(s[n], s[max]) then n else max;
    Triple(less, s[n], s[n + 1], s[min]);
    Triple(less, s[n], s[n + 1], s[max]);
    hide StrictWeak, IsFirstMin, IsLastMax;
    NextMin(s, less, n, min);
    NextMin(s, less, n + 1, min');
    NextMax(s, less, n, max);
    NextMax(s, less, n + 1, max');
  }

  /** A last element that is a new minimum cannot be a new maximum, so it needs no comparison. */
  lemma MinIsNotMax<T(!new)>(s: seq<T>, less: (T, T) -> bool, n: nat, min: nat, max: nat)
    requires StrictWeak(less) && n < |s| && IsFirstMin(s, less, n, min) && IsLastMax(s, less, n, max)
    ensures less(s[n], s[min]) ==> less(s[n], s[max])
  {
  }

  /** There is at most one answer. */
  lemma Unique<T(!new)>(s: seq<T>, less: (T, T) -> bool, i: nat, j: nat)
    requires i < j < |s|
    ensures !(IsFirstMin(s, less, |s|, i) && IsFirstMin(s, less, |s|, j))
    ensures !(IsLastMax(s, less, |s|, i) && IsLastMax(s, less, |s|, j))
  {
    var (forward, backward) := (less(s[i], s[j]), less(s[j], s[i]));
  }

  /** The comparison object; calls counts its applications. */
  class Comparer<T(!new)> {
    const less: (T, T) -> bool
    var calls: nat

    constructor (less: (T, T) -> bool)
      ensures this.less == less && calls == 0
    {
      this.less, calls := less, 0;
    }

    method Less(x: T, y: T) returns (b: bool)
      modifies this
      ensures b == less(x, y) && calls == old(calls) + 1
    {
      b := less(x, y);
      calls := calls + 1;
    }
  }

  /** Positions stand for iterators; an empty range has both at its end. */
  method MinMaxElement<T(!new)>(s: seq<T>, comp: Comparer<T>) returns (min: nat, max: nat)
    requires StrictWeak(comp.less)
    modifies comp
    ensures s == [] ==> min == max == 0 && comp.calls == old(comp.calls)
    ensures s != [] ==> IsFirstMin(s, comp.less, |s|, min) && IsLastMax(s, comp.less, |s|, max)
    ensures s != [] ==> comp.calls - old(comp.calls) <= 3 * (|s| - 1) / 2
  {
    hide StrictWeak, IsFirstMin, IsLastMax;
    ghost var less := comp.less;
    min, max := 0, 0;
    if |s| == 0 { return; }
    var first: nat := 1;
    Single(s, less);
    if first != |s| {
      NextMin(s, less, 1, 0);
      NextMax(s, less, 1, 0);
      max := first;
      var swapped := comp.Less(s[max], s[min]);
      if swapped {
        min, max := max, min;
      }
      first := first + 1;
    }
    while first != |s|
      invariant 1 <= first <= |s| && (first == 1 ==> |s| == 1)
      invariant IsFirstMin(s, less, first, min) && IsLastMax(s, less, first, max)
      invariant min < |s| && max < |s|
      invariant 2 * (comp.calls - old(comp.calls)) == if first == 1 then 0 else 3 * first - 4
      decreases |s| - first
    {
      var next := first + 1;
      if next != |s| {
        NextPair(s, less, first, min, max);
        var descending := comp.Less(s[next], s[first]);
        var (small, large) := if descending then (next, first) else (first, next);
        var smaller := comp.Less(s[small], s[min]);
        if smaller { min := small; }
        var below := comp.Less(s[large], s[max]);
        if !below { max := large; }
      } else {
        NextMin(s, less, first, min);
        NextMax(s, less, first, max);
        MinIsNotMax(s, less, first, min, max);
        var smaller := comp.Less(s[first], s[min]);
        if smaller {
          min := first;
        } else {
          var below := comp.Less(s[first], s[max]);
          if !below { max := first; }
        }
        break;
      }
      first := next + 1;
    }
  }

  lemma Single<T(!new)>(s: seq<T>, less: (T, T) -> bool)
    requires StrictWeak(less) && s != []
    ensures IsFirstMin(s, less, 1, 0) && IsLastMax(s, less, 1, 0)
  {
  }
}
