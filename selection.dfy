/**
 * Python's `max(items, key=f)`: a left-to-right scan that replaces the best
 * item seen so far only by one whose key is strictly greater, so the first
 * item of greatest key wins a tie.
 */
module Selection {

  /** `k` is the first position of greatest key in `xs`. */
  ghost predicate IsFirstLargest<T>(xs: seq<T>, key: T -> real, k: int) {
    && 0 <= k < |xs|
    && (forall j :: 0 <= j < |xs| ==> key(xs[j]) <= key(xs[k]))
    && (forall j :: 0 <= j < k ==> key(xs[j]) < key(xs[k]))
  }

  /** The position `max(xs, key=key)` returns the element of. */
  function LargestIndex<T>(xs: seq<T>, key: T -> real): (k: nat)
    requires |xs| > 0
    ensures IsFirstLargest(xs, key, k)
  {
    if |xs| == 1 then 0
    else
      var best := LargestIndex(xs[..|xs| - 1], key);
      if key(xs[|xs| - 1]) > key(xs[best]) then |xs| - 1 else best
  }

  /** The first largest position is unique, so LargestIndex is the only index with that property. */
  lemma LargestIndexUnique<T>(xs: seq<T>, key: T -> real, k: int)
    requires |xs| > 0
    ensures IsFirstLargest(xs, key, k) <==> k == LargestIndex(xs, key)
  {
  }

  /** Reference definition of the greatest key, as a fold of binary maxima. */
  function MaxKey<T>(xs: seq<T>, key: T -> real): real
    requires |xs| > 0
  {
    if |xs| == 1 then key(xs[0])
    else
      var rest := MaxKey(xs[1..], key);
      if key(xs[0]) >= rest then key(xs[0]) else rest
  }

  lemma {:induction false} MaxKeyIsMaximum<T>(xs: seq<T>, key: T -> real)
    requires |xs| > 0
    ensures forall j :: 0 <= j < |xs| ==> key(xs[j]) <= MaxKey(xs, key)
    ensures exists j :: 0 <= j < |xs| && key(xs[j]) == MaxKey(xs, key)
  {
    if |xs| > 1 {
      MaxKeyIsMaximum(xs[1..], key);
      var j :| 0 <= j < |xs[1..]| && key(xs[1..][j]) == MaxKey(xs[1..], key);
      assert key(xs[j + 1]) == MaxKey(xs[1..], key);
      forall i | 1 <= i < |xs| ensures key(xs[i]) <= MaxKey(xs, key) {
        assert xs[i] == xs[1..][i - 1];
      }
    } else {
      assert key(xs[0]) == MaxKey(xs, key);
    }
  }

  /** The selected element's key is the greatest key. */
  lemma SelectedKeyIsMaxKey<T>(xs: seq<T>, key: T -> real)
    requires |xs| > 0
    ensures key(xs[LargestIndex(xs, key)]) == MaxKey(xs, key)
  {
  }

  /**
   * When one element's key is strictly greater than every other's, the
   * selection does not depend on the order of the items.
   */
  lemma {:induction false} UniqueLargestIgnoresOrder<T>(xs: seq<T>, ys: seq<T>, key: T -> real, k: nat)
    requires k < |xs| && multiset(xs) == multiset(ys)
    requires forall j :: 0 <= j < |xs| && j != k ==> key(xs[j]) < key(xs[k])
    ensures |ys| > 0 && ys[LargestIndex(ys, key)] == xs[k]
  {
    assert xs[k] in multiset(ys) by { assert xs[k] in multiset(xs); }
    assert |ys| > 0;
    var m :| 0 <= m < |ys| && ys[m] == xs[k];
    var s := LargestIndex(ys, key);
    assert ys[s] in multiset(xs) by { assert ys[s] in multiset(ys); }
    var j :| 0 <= j < |xs| && xs[j] == ys[s];
    assert key(ys[m]) <= key(ys[s]);
  }
}
