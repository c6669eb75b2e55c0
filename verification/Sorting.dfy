/** Text order by character (by code point, which is the order by code unit below U+10000) and the stable sorts built on
    it. JavaScript's sort is stable, so its result is the one this insertion sort computes. */
module Sorting {

  /** `compareText(left, right) <= 0`. */
  predicate TextLe(left: string, right: string) {
    left == "" || (right != "" && (left[0] < right[0] || (left[0] == right[0] && TextLe(left[1..], right[1..]))))
  }

  lemma {:induction false} TextLeIsTotal(left: string, right: string)
    ensures TextLe(left, right) || TextLe(right, left)
    ensures TextLe(left, right) && TextLe(right, left) ==> left == right
    ensures left == right ==> TextLe(left, right)
  {
    if left != "" && right != "" && left[0] == right[0] {
      TextLeIsTotal(left[1..], right[1..]);
      assert left == [left[0]] + left[1..] && right == [right[0]] + right[1..];
    }
  }

  lemma {:induction false} TextLeIsTransitive(left: string, middle: string, right: string)
    requires TextLe(left, middle) && TextLe(middle, right)
    ensures TextLe(left, right)
  {
    if left != "" && left[0] == middle[0] == right[0] {
      TextLeIsTransitive(left[1..], middle[1..], right[1..]);
    }
  }

  /** The first place where two texts differ, or the end of one. */
  ghost predicate AgreeUpTo(left: string, right: string, k: nat) {
    k <= |left| && k <= |right| && left[..k] == right[..k]
  }

  /** A text comes before another if it starts it, or has the smaller character where they first differ. */
  lemma {:induction false} TextLeMeans(left: string, right: string)
    ensures TextLe(left, right)
      <==> left <= right
           || exists k: nat :: AgreeUpTo(left, right, k) && k < |left| && k < |right| && left[k] < right[k]
  {
    if left == "" {
      assert left <= right;
    } else if right != "" {
      if left[0] == right[0] {
        TextLeMeans(left[1..], right[1..]);
        assert left == [left[0]] + left[1..] && right == [right[0]] + right[1..];
        SameHead(left, right);
      } else {
        assert AgreeUpTo(left, right, 0);
        forall k: nat ensures AgreeUpTo(left, right, k) ==> k == 0 {
          assert 0 < k <= |left| && k <= |right| ==> left[..k][0] == left[0] && right[..k][0] == right[0];
        }
      }
    }
  }

  lemma SameHead(left: string, right: string)
    requires left != "" && right != "" && left[0] == right[0]
    ensures forall k: nat :: AgreeUpTo(left[1..], right[1..], k) <==> AgreeUpTo(left, right, k + 1)
    ensures left[1..] <= right[1..] <==> left <= right
  {
    forall k: nat ensures AgreeUpTo(left[1..], right[1..], k) <==> AgreeUpTo(left, right, k + 1) {
      if k < |left| && k < |right| {
        assert left[..k + 1] == [left[0]] + left[1..][..k] && right[..k + 1] == [right[0]] + right[1..][..k];
      }
    }
  }

  ghost predicate TotalPreorder<T(!new)>(le: (T, T) -> bool) {
    && (forall x, y :: le(x, y) || le(y, x))
    && (forall x, y, z :: le(x, y) && le(y, z) ==> le(x, z))
  }

  lemma TextLeIsTotalPreorder()
    ensures TotalPreorder(TextLe)
  {
    forall x, y ensures TextLe(x, y) || TextLe(y, x) { TextLeIsTotal(x, y); }
    forall x, y, z | TextLe(x, y) && TextLe(y, z) ensures TextLe(x, z) { TextLeIsTransitive(x, y, z); }
  }

  // ---------------------------------------------------------------- stable sorting

  function Insert<T>(x: T, sorted: seq<T>, le: (T, T) -> bool): seq<T> {
    if sorted == [] then [x]
    else if le(x, sorted[0]) then [x] + sorted
    else [sorted[0]] + Insert(x, sorted[1..], le)
  }

  function Sort<T>(values: seq<T>, le: (T, T) -> bool): seq<T> {
    if values == [] then [] else Insert(values[0], Sort(values[1..], le), le)
  }

  ghost predicate IsSorted<T>(values: seq<T>, le: (T, T) -> bool) {
    forall j, k :: 0 <= j < k < |values| ==> le(values[j], values[k])
  }

  lemma {:induction false} InsertElements<T>(x: T, sorted: seq<T>, le: (T, T) -> bool)
    ensures multiset(Insert(x, sorted, le)) == multiset(sorted) + multiset{x}
  {
    if sorted != [] {
      assert sorted == [sorted[0]] + sorted[1..];
      if !le(x, sorted[0]) { InsertElements(x, sorted[1..], le); }
    }
  }

  lemma {:induction false} InsertKeepsOrder<T(!new)>(x: T, sorted: seq<T>, le: (T, T) -> bool)
    requires TotalPreorder(le) && IsSorted(sorted, le)
    ensures IsSorted(Insert(x, sorted, le), le)
  {
    if sorted != [] {
      if le(x, sorted[0]) {
        forall k | 0 <= k < |sorted| ensures le(x, sorted[k]) { assert k > 0 ==> le(sorted[0], sorted[k]); }
      } else {
        var tail := sorted[1..];
        var rest := Insert(x, tail, le);
        InsertKeepsOrder(x, tail, le);
        InsertElements(x, tail, le);
        forall k | 0 <= k < |rest| ensures le(sorted[0], rest[k]) {
          InsertedOrOld(x, tail, le, rest[k]);
          if rest[k] in tail { var j :| 0 <= j < |tail| && tail[j] == rest[k]; assert le(sorted[0], sorted[j + 1]); }
        }
      }
    }
  }

  lemma {:induction false} InsertedOrOld<T>(x: T, sorted: seq<T>, le: (T, T) -> bool, y: T)
    requires y in Insert(x, sorted, le)
    ensures y == x || y in sorted
  {
    if sorted != [] && !le(x, sorted[0]) && y != sorted[0] { InsertedOrOld(x, sorted[1..], le, y); }
  }

  /** A sort is sorted and loses, adds and repeats nothing. */
  lemma {:induction false} SortIsSorted<T(!new)>(values: seq<T>, le: (T, T) -> bool)
    requires TotalPreorder(le)
    ensures IsSorted(Sort(values, le), le)
    ensures multiset(Sort(values, le)) == multiset(values)
  {
    if values != [] {
      SortIsSorted(values[1..], le);
      InsertKeepsOrder(values[0], Sort(values[1..], le), le);
      InsertElements(values[0], Sort(values[1..], le), le);
      assert values == [values[0]] + values[1..];
    }
  }

  /** What is in order already stays as it is. */
  /** The values that `le` does not tell from `y`, in order. */
  ghost function TiedWith<T>(values: seq<T>, y: T, le: (T, T) -> bool): seq<T> {
    if values == [] then []
    else (if le(values[0], y) && le(y, values[0]) then [values[0]] else []) + TiedWith(values[1..], y, le)
  }

  lemma {:induction false} InsertIsStable<T(!new)>(x: T, sorted: seq<T>, y: T, le: (T, T) -> bool)
    requires TotalPreorder(le)
    ensures TiedWith(Insert(x, sorted, le), y, le) == TiedWith([x], y, le) + TiedWith(sorted, y, le)
  {
    if sorted == [] {
      assert [x] + sorted == [x];
    } else if le(x, sorted[0]) {
      assert ([x] + sorted)[1..] == sorted && [x][1..] == [];
    } else {
      InsertIsStable(x, sorted[1..], y, le);
      assert Insert(x, sorted, le)[1..] == Insert(x, sorted[1..], le) && [x][1..] == [];
    }
  }

  lemma FirstTied<T>(values: seq<T>, y: T, le: (T, T) -> bool)
    requires values != []
    ensures TiedWith(values, y, le) == TiedWith([values[0]], y, le) + TiedWith(values[1..], y, le)
  {
    assert [values[0]][1..] == [];
  }

  /** Sorting is stable: what the order does not tell apart stays in the order in which it was. */
  lemma {:induction false} SortIsStable<T(!new)>(values: seq<T>, y: T, le: (T, T) -> bool)
    requires TotalPreorder(le)
    ensures TiedWith(Sort(values, le), y, le) == TiedWith(values, y, le)
  {
    if values != [] {
      SortIsStable(values[1..], y, le);
      InsertIsStable(values[0], Sort(values[1..], le), y, le);
      FirstTied(values, y, le);
    }
  }

  lemma {:induction false} SortOfSorted<T(!new)>(values: seq<T>, le: (T, T) -> bool)
    requires IsSorted(values, le)
    ensures Sort(values, le) == values
  {
    if values != [] {
      SortOfSorted(values[1..], le);
      assert values == [values[0]] + values[1..];
    }
  }

  ghost predicate IsStrict<T>(values: seq<T>, le: (T, T) -> bool) {
    forall j, k :: 0 <= j < k < |values| ==> le(values[j], values[k]) && !le(values[k], values[j])
  }

  /** Only one sequence of these elements is in strict order. */
  lemma {:induction false} StrictOrderIsUnique<T(!new)>(one: seq<T>, other: seq<T>, le: (T, T) -> bool)
    requires IsStrict(one, le) && IsStrict(other, le)
    requires multiset(one) == multiset(other)
    ensures one == other
  {
    assert |one| == |multiset(one)| == |multiset(other)| == |other|;
    if one != [] {
      SameFirst(one, other, le);
      TailMultiset(one);
      TailMultiset(other);
      StrictOrderIsUnique(one[1..], other[1..], le);
      assert one == [one[0]] + one[1..] && other == [other[0]] + other[1..];
    }
  }

  lemma TailMultiset<T>(values: seq<T>)
    requires values != []
    ensures multiset(values[1..]) == multiset(values) - multiset{values[0]}
  {
    assert values == [values[0]] + values[1..];
  }

  lemma SameFirst<T(!new)>(one: seq<T>, other: seq<T>, le: (T, T) -> bool)
    requires IsStrict(one, le) && IsStrict(other, le)
    requires multiset(one) == multiset(other) && |one| == |other| > 0
    ensures one[0] == other[0]
  {
    assert other[0] in multiset(one) && one[0] in multiset(other);
    var k :| 0 <= k < |one| && one[k] == other[0];
    var j :| 0 <= j < |other| && other[j] == one[0];
  }

  lemma Twice<T>(values: seq<T>, j: nat, k: nat)
    requires j < k < |values|
    ensures values[j] == values[k] ==> multiset(values)[values[j]] >= 2
  {
    assert values == values[..k] + values[k..];
    assert values[j] in values[..k] && values[k] in values[k..];
  }

  /** A sorted sequence in which no two elements are tied is in strict order. */
  lemma NoTiesIsStrict<T(!new)>(values: seq<T>, le: (T, T) -> bool)
    requires IsSorted(values, le)
    requires forall x, y :: x in values && y in values && le(x, y) && le(y, x) ==> x == y
    requires forall x :: multiset(values)[x] <= 1
    ensures IsStrict(values, le)
  {
    forall j, k | 0 <= j < k < |values| ensures !le(values[k], values[j]) {
      assert values[j] in values && values[k] in values;
      Twice(values, j, k);
    }
  }

  ghost predicate Untied<T>(values: seq<T>, le: (T, T) -> bool) {
    forall j, k :: 0 <= j < k < |values| ==> !(le(values[j], values[k]) && le(values[k], values[j]))
  }

  lemma {:induction false} UntiedHasNoRepeats<T(!new)>(values: seq<T>, le: (T, T) -> bool, x: T)
    requires TotalPreorder(le) && Untied(values, le)
    ensures multiset(values)[x] <= 1
  {
    if values != [] {
      var shorter, last := values[..|values| - 1], values[|values| - 1];
      assert values == shorter + [last];
      UntiedHasNoRepeats(shorter, le, x);
      assert le(last, last);
      forall k | 0 <= k < |shorter| ensures shorter[k] != last {
        assert values[k] == shorter[k] && values[|values| - 1] == last;
      }
    }
  }

  lemma SortIsUntied<T(!new)>(values: seq<T>, le: (T, T) -> bool)
    requires TotalPreorder(le) && Untied(values, le)
    ensures IsStrict(Sort(values, le), le)
  {
    var sorted := Sort(values, le);
    SortIsSorted(values, le);
    forall x, y | x in sorted && y in sorted && le(x, y) && le(y, x) ensures x == y {
      assert x in multiset(values) && y in multiset(values);
      var j :| 0 <= j < |values| && values[j] == x;
      var k :| 0 <= k < |values| && values[k] == y;
    }
    forall x ensures multiset(sorted)[x] <= 1 { UntiedHasNoRepeats(values, le, x); }
    NoTiesIsStrict(sorted, le);
  }

  /** Without ties, the sorted sequence depends on the elements only. */
  lemma SortOfSameElements<T(!new)>(one: seq<T>, other: seq<T>, le: (T, T) -> bool)
    requires TotalPreorder(le) && Untied(one, le) && Untied(other, le)
    requires forall x :: x in one <==> x in other
    ensures Sort(one, le) == Sort(other, le)
  {
    forall x ensures multiset(one)[x] == multiset(other)[x] {
      UntiedHasNoRepeats(one, le, x);
      UntiedHasNoRepeats(other, le, x);
      assert x in one <==> x in multiset(one);
      assert x in other <==> x in multiset(other);
    }
    assert multiset(one) == multiset(other);
    SortIsSorted(one, le);
    SortIsSorted(other, le);
    SortIsUntied(one, le);
    SortIsUntied(other, le);
    StrictOrderIsUnique(Sort(one, le), Sort(other, le), le);
  }

  // ---------------------------------------------------------------- sorting a set of texts

  /** `[...new Set(values)]`: the first occurrence of each value, in order. */
  function Dedupe(values: seq<string>): seq<string> {
    if values == [] then []
    else var shorter := values[..|values| - 1];
         Dedupe(shorter) + (if values[|values| - 1] in shorter then [] else [values[|values| - 1]])
  }

  function UniqueSorted(values: seq<string>): seq<string> {
    Sort(Dedupe(values), TextLe)
  }

  lemma {:induction false} DedupeIsASet(values: seq<string>)
    ensures forall value :: value in Dedupe(values) <==> value in values
    ensures forall value :: multiset(Dedupe(values))[value] <= 1
  {
    if values != [] {
      var shorter, last := values[..|values| - 1], values[|values| - 1];
      DedupeIsASet(shorter);
      assert values == shorter + [last];
      assert last !in shorter ==> multiset(Dedupe(shorter))[last] == 0;
    }
  }

  /** Elements, order and absence of repeats of a sorted set. */
  lemma UniqueSortedIsSorted(values: seq<string>)
    ensures IsSorted(UniqueSorted(values), TextLe)
    ensures forall value :: value in UniqueSorted(values) <==> value in values
    ensures forall value :: multiset(UniqueSorted(values))[value] <= 1
  {
    TextLeIsTotalPreorder();
    SortIsSorted(Dedupe(values), TextLe);
    DedupeIsASet(values);
    forall value ensures value in UniqueSorted(values) <==> value in values {
      assert value in UniqueSorted(values) <==> value in multiset(UniqueSorted(values));
      assert value in Dedupe(values) <==> value in multiset(Dedupe(values));
    }
  }

  /** Order and repeats do not matter, and nothing else is lost. */
  lemma UniqueSortedOfSameElements(one: seq<string>, other: seq<string>)
    ensures (forall value :: value in one <==> value in other) <==> UniqueSorted(one) == UniqueSorted(other)
  {
    UniqueSortedIsSorted(one);
    UniqueSortedIsSorted(other);
    if forall value :: value in one <==> value in other {
      var left, right := UniqueSorted(one), UniqueSorted(other);
      forall value ensures multiset(left)[value] == multiset(right)[value] {
        assert value in left <==> value in multiset(left);
        assert value in right <==> value in multiset(right);
      }
      forall x, y | TextLe(x, y) && TextLe(y, x) ensures x == y { TextLeIsTotal(x, y); }
      NoTiesIsStrict(left, TextLe);
      NoTiesIsStrict(right, TextLe);
      StrictOrderIsUnique(left, right, TextLe);
    }
    if UniqueSorted(one) == UniqueSorted(other) {
      forall value ensures value in one <==> value in other {
        assert value in one <==> value in UniqueSorted(one);
      }
    }
  }

  /** Sorting a sorted set again changes nothing. */
  lemma UniqueSortedTwice(values: seq<string>)
    ensures UniqueSorted(UniqueSorted(values)) == UniqueSorted(values)
  {
    UniqueSortedIsSorted(values);
    UniqueSortedOfSameElements(UniqueSorted(values), values);
  }
}
