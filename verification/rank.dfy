/** Rank selection: the element `std::nth_element` leaves at position k,
    i.e. the k-th smallest element by a real-valued key. Both median filters
    use it, one on integer samples and one on real samples. */
module Rank {

  /** The keys never decrease along `s`. */
  predicate SortedBy<T>(s: seq<T>, key: T -> real) {
    forall i, j :: 0 <= i < j < |s| ==> key(s[i]) <= key(s[j])
  }

  /** How many elements of `s` satisfy `f`. */
  function Count<T>(s: seq<T>, f: T -> bool): (n: nat)
    ensures n <= |s|
  {
    if |s| == 0 then 0 else (if f(s[0]) then 1 else 0) + Count(s[1..], f)
  }

  /** `x` placed before the first element whose key is not below its own. */
  function Insert<T>(x: T, s: seq<T>, key: T -> real): (r: seq<T>)
    requires SortedBy(s, key)
    ensures SortedBy(r, key)
    ensures multiset(r) == multiset(s) + multiset{x}
    ensures |r| == |s| + 1
    ensures r[0] == x || (|s| > 0 && r[0] == s[0])
  {
    if |s| == 0 then [x]
    else if key(x) <= key(s[0]) then [x] + s
    else
      var rest := Insert(x, s[1..], key);
      assert s == [s[0]] + s[1..];
      ConsSorted(s[0], rest, key);
      [s[0]] + rest
  }

  /** Putting an element no larger than the head in front keeps a sequence sorted. */
  lemma ConsSorted<T>(x: T, s: seq<T>, key: T -> real)
    requires SortedBy(s, key) && (|s| > 0 ==> key(x) <= key(s[0]))
    ensures SortedBy([x] + s, key)
  {
    var r := [x] + s;
    forall i, j | 0 <= i < j < |r|
      ensures key(r[i]) <= key(r[j])
    {
      if i == 0 && j > 1 {
        assert key(s[0]) <= key(s[j - 1]);
      }
    }
  }

  /** Insertion sort by key. */
  function Sort<T>(s: seq<T>, key: T -> real): (r: seq<T>)
    ensures SortedBy(r, key)
    ensures multiset(r) == multiset(s)
    ensures |r| == |s|
  {
    if |s| == 0 then []
    else
      assert s == [s[0]] + s[1..];
      Insert(s[0], Sort(s[1..], key), key)
  }

  /** Counting is unchanged by inserting, apart from the inserted element. */
  lemma {:induction false} CountInsert<T>(x: T, s: seq<T>, key: T -> real, f: T -> bool)
    requires SortedBy(s, key)
    ensures Count(Insert(x, s, key), f) == Count(s, f) + (if f(x) then 1 else 0)
  {
    if |s| > 0 && key(x) > key(s[0]) {
      CountInsert(x, s[1..], key, f);
      assert Insert(x, s, key)[1..] == Insert(x, s[1..], key);
    } else if |s| > 0 {
      assert Insert(x, s, key)[1..] == s;
    }
  }

  /** Sorting keeps every count. */
  lemma {:induction false} CountSort<T>(s: seq<T>, key: T -> real, f: T -> bool)
    ensures Count(Sort(s, key), f) == Count(s, f)
  {
    if |s| > 0 {
      CountSort(s[1..], key, f);
      CountInsert(s[0], Sort(s[1..], key), key, f);
    }
  }

  /** A weaker condition is met at least as often. */
  lemma {:induction false} CountMonotone<T>(s: seq<T>, f: T -> bool, g: T -> bool)
    requires forall i :: 0 <= i < |s| ==> f(s[i]) ==> g(s[i])
    ensures Count(s, f) <= Count(s, g)
  {
    if |s| > 0 {
      CountMonotone(s[1..], f, g);
    }
  }

  /** In a sorted sequence, the elements keyed below key(r[k]) all sit before k. */
  lemma {:induction false} SortedCountBelow<T>(r: seq<T>, key: T -> real, k: nat, t: real)
    requires SortedBy(r, key) && k < |r| && key(r[k]) >= t
    ensures Count(r, x => key(x) < t) <= k
  {
    if k > 0 {
      SortedCountBelow(r[1..], key, k - 1, t);
    } else if |r| > 1 {
      SortedCountBelow(r[1..], key, 0, t);
    }
  }

  /** In a sorted sequence, r[0] .. r[k] all have keys at most key(r[k]). */
  lemma {:induction false} SortedCountAtMost<T>(r: seq<T>, key: T -> real, k: nat, t: real)
    requires SortedBy(r, key) && k < |r| && key(r[k]) <= t
    ensures Count(r, x => key(x) <= t) >= k + 1
  {
    if k > 0 {
      SortedCountAtMost(r[1..], key, k - 1, t);
    }
  }

  /** v is a rank-k element of s: fewer than k+1 elements are keyed below
      it, and more than k are keyed at or below it. */
  predicate HasRank<T>(s: seq<T>, key: T -> real, k: nat, v: T) {
    Count(s, x => key(x) < key(v)) <= k < Count(s, x => key(x) <= key(v))
  }

  /** `nth_element(begin, begin + k, end)` followed by reading position k. */
  function Select<T>(s: seq<T>, k: nat, key: T -> real): (v: T)
    requires k < |s|
    ensures v in s
    ensures HasRank(s, key, k, v)
  {
    var r := Sort(s, key);
    assert r[k] in multiset(r);
    SortedCountBelow(r, key, k, key(r[k]));
    SortedCountAtMost(r, key, k, key(r[k]));
    CountSort(s, key, x => key(x) < key(r[k]));
    CountSort(s, key, x => key(x) <= key(r[k]));
    r[k]
  }

  /** Any two elements of rank k have the same key: whatever order
      `nth_element` leaves the rest in, position k holds the same value
      up to key. */
  lemma RankUnique<T>(s: seq<T>, key: T -> real, k: nat, v: T, w: T)
    requires HasRank(s, key, k, v) && HasRank(s, key, k, w)
    ensures key(v) == key(w)
  {
    if key(v) < key(w) {
      CountMonotone(s, x => key(x) <= key(v), x => key(x) < key(w));
    } else if key(w) < key(v) {
      CountMonotone(s, x => key(x) <= key(w), x => key(x) < key(v));
    }
  }

  /** The selected element lies between the smallest and largest keys. */
  lemma SelectBounds<T>(s: seq<T>, k: nat, key: T -> real, lo: real, hi: real)
    requires k < |s|
    requires forall i :: 0 <= i < |s| ==> lo <= key(s[i]) <= hi
    ensures lo <= key(Select(s, k, key)) <= hi
  {
    var v := Select(s, k, key);
    var i :| 0 <= i < |s| && s[i] == v;
  }
}
