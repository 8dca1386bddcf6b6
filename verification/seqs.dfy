/** Generic sequence vocabulary shared by the views: an optional value,
    duplicate freedom, first-occurrence de-duplication, sums, reversal and a
    stable insertion sort keyed by an integer. */
module Seqs {

  /** The conventional Some/None datatype, used for lookups that may miss. */
  datatype Option<+T> = None | Some(value: T)

  predicate NoDuplicates<T(==)>(s: seq<T>) {
    forall i, j | 0 <= i < j < |s| :: s[i] != s[j]
  }

  /** The position of the first occurrence of x in s. */
  function FirstIndex<T(==)>(s: seq<T>, x: T): (i: nat)
    requires x in s
    ensures i < |s| && s[i] == x
    ensures x !in s[..i]
  {
    if s[0] == x then 0
    else
      assert x in s[1..];
      var j := FirstIndex(s[1..], x);
      assert s[..j + 1] == [s[0]] + s[1..][..j];
      1 + j
  }

  /** Any index holding x with no earlier x is the first index. */
  lemma FirstIndexIsUnique<T>(s: seq<T>, x: T, i: nat)
    requires i < |s| && s[i] == x && x !in s[..i]
    ensures FirstIndex(s, x) == i
  {
  }

  /** Extending a sequence does not move the first occurrence of an element
      that is already present. */
  lemma FirstIndexOfExtension<T>(s: seq<T>, t: seq<T>, x: T)
    requires x in s
    ensures x in s + t
    ensures FirstIndex(s + t, x) == FirstIndex(s, x)
  {
    var i := FirstIndex(s, x);
    assert (s + t)[i] == x;
    assert (s + t)[..i] == s[..i];
    FirstIndexIsUnique(s + t, x, i);
  }

  /** First-occurrence de-duplication: scanning s from the left, an element is
      kept exactly when it has not been kept before. */
  function Unique<T(==)>(s: seq<T>): (u: seq<T>)
    ensures NoDuplicates(u)
    ensures forall i | 0 <= i < |u| :: u[i] in s
    ensures forall i | 0 <= i < |s| :: s[i] in u
    ensures |u| <= |s|
  {
    if |s| == 0 then []
    else
      var u' := Unique(s[..|s| - 1]);
      assert forall i | 0 <= i < |s| - 1 :: s[i] == s[..|s| - 1][i];
      if s[|s| - 1] in u' then u' else u' + [s[|s| - 1]]
  }

  /** The kept elements appear in the order of their first occurrences. */
  lemma {:induction false} UniqueKeepsFirstOccurrenceOrder<T>(s: seq<T>, i: nat, j: nat)
    requires i < j < |Unique(s)|
    ensures FirstIndex(s, Unique(s)[i]) < FirstIndex(s, Unique(s)[j])
    decreases |s|
  {
    var init := s[..|s| - 1];
    var last := s[|s| - 1];
    assert s == init + [last];
    var u' := Unique(init);
    var u := Unique(s);
    if j < |u'| {
      UniqueKeepsFirstOccurrenceOrder(init, i, j);
      FirstIndexOfExtension(init, [last], u'[i]);
      FirstIndexOfExtension(init, [last], u'[j]);
    } else {
      // u[j] is the last element, appended because it never occurred before
      assert last !in u' && u[j] == last && u[i] == u'[i];
      assert last !in init;
      FirstIndexIsUnique(s, last, |s| - 1);
      FirstIndexOfExtension(init, [last], u'[i]);
    }
  }

  /** A sequence without duplicates is its own de-duplication. */
  lemma {:induction false} UniqueOfDistinct<T>(s: seq<T>)
    requires NoDuplicates(s)
    ensures Unique(s) == s
  {
    if |s| > 0 {
      var init := s[..|s| - 1];
      assert NoDuplicates(init);
      UniqueOfDistinct(init);
      assert s[|s| - 1] !in init;
      assert s == init + [s[|s| - 1]];
    }
  }

  /** De-duplicating twice is the same as de-duplicating once. */
  lemma UniqueIsIdempotent<T>(s: seq<T>)
    ensures Unique(Unique(s)) == Unique(s)
  {
    UniqueOfDistinct(Unique(s));
  }

  /** A distinct sequence holds each element at most once. */
  lemma {:induction false} DistinctMultiplicity<T>(s: seq<T>, x: T)
    requires NoDuplicates(s)
    ensures multiset(s)[x] <= 1
  {
    if |s| > 0 {
      var init := s[..|s| - 1];
      assert s == init + [s[|s| - 1]];
      assert NoDuplicates(init);
      DistinctMultiplicity(init, x);
      if x == s[|s| - 1] {
        assert x !in init;
      }
    }
  }

  /** An element held at two positions occurs at least twice. */
  lemma RepeatedElementMultiplicity<T>(r: seq<T>, i: nat, j: nat)
    requires i < j < |r|
    ensures r[i] == r[j] ==> multiset(r)[r[i]] >= 2
  {
    assert r == r[..j] + [r[j]] + r[j + 1..];
    assert r[i] == r[..j][i];
  }

  /** A permutation of a distinct sequence is distinct. */
  lemma PermutationKeepsDistinct<T>(s: seq<T>, r: seq<T>)
    requires NoDuplicates(s)
    requires multiset(r) == multiset(s)
    ensures NoDuplicates(r)
  {
    forall i, j | 0 <= i < j < |r|
      ensures r[i] != r[j]
    {
      RepeatedElementMultiplicity(r, i, j);
      DistinctMultiplicity(s, r[i]);
    }
  }

  function Sum(s: seq<nat>): nat {
    if |s| == 0 then 0 else Sum(s[..|s| - 1]) + s[|s| - 1]
  }

  /** A sum of terms each at most `bound` is at most `bound` times their number. */
  lemma {:induction false} SumBounded(s: seq<nat>, bound: nat)
    requires forall i | 0 <= i < |s| :: s[i] <= bound
    ensures Sum(s) <= bound * |s|
  {
    if |s| > 0 {
      SumBounded(s[..|s| - 1], bound);
    }
  }

  /** A sum of zeros is zero. */
  lemma {:induction false} SumOfZeros(s: seq<nat>)
    requires forall i | 0 <= i < |s| :: s[i] == 0
    ensures Sum(s) == 0
  {
    if |s| > 0 {
      SumOfZeros(s[..|s| - 1]);
    }
  }

  /** A sum of terms all equal to c is c times their number. */
  lemma {:induction false} SumOfConstant(s: seq<nat>, c: nat)
    requires forall i | 0 <= i < |s| :: s[i] == c
    ensures Sum(s) == c * |s|
  {
    if |s| > 0 {
      SumOfConstant(s[..|s| - 1], c);
    }
  }

  /** The number of `false` entries. */
  function CountFalse(b: seq<bool>): (n: nat)
    ensures n <= |b|
    ensures n == 0 <==> forall i | 0 <= i < |b| :: b[i]
    ensures n == |b| <==> forall i | 0 <= i < |b| :: !b[i]
  {
    if |b| == 0 then 0
    else
      assert forall i | 0 <= i < |b| - 1 :: b[i] == b[..|b| - 1][i];
      CountFalse(b[..|b| - 1]) + (if b[|b| - 1] then 0 else 1)
  }

  /** The positions of the `false` entries. */
  function FalsePositions(b: seq<bool>): set<nat> {
    set i: nat | i < |b| && !b[i]
  }

  /** The count is the number of positions holding `false`. */
  lemma {:induction false} CountFalseIsSetSize(b: seq<bool>)
    ensures CountFalse(b) == |FalsePositions(b)|
  {
    if |b| > 0 {
      var last := |b| - 1;
      var init := b[..last];
      CountFalseIsSetSize(init);
      var before := FalsePositions(init);
      var after := FalsePositions(b);
      assert forall i | 0 <= i < last :: b[i] == init[i];
      if b[last] {
        assert forall i :: i in after <==> i in before;
        assert after == before;
      } else {
        assert forall i :: i in after <==> i in before || i == last;
        assert after == before + {last};
      }
    }
  }

  /** The union of a sequence of sets of names (UnionSpec states its
      members). */
  function Union(ss: seq<set<string>>): set<string> {
    if |ss| == 0 then {} else Union(ss[..|ss| - 1]) + ss[|ss| - 1]
  }

  /** A name is in the union exactly when one of the sets holds it. */
  lemma {:induction false} UnionSpec(ss: seq<set<string>>)
    ensures forall x :: x in Union(ss) <==> exists i | 0 <= i < |ss| :: x in ss[i]
  {
    if |ss| > 0 {
      var last := |ss| - 1;
      var init := ss[..last];
      UnionSpec(init);
      assert Union(ss) == Union(init) + ss[last];
      forall x | x in Union(ss) ensures exists i | 0 <= i < |ss| :: x in ss[i] {
        if x in Union(init) {
          var i :| 0 <= i < |init| && x in init[i];
          assert ss[i] == init[i];
        } else {
          assert x in ss[last];
        }
      }
      forall x | exists i | 0 <= i < |ss| :: x in ss[i] ensures x in Union(ss) {
        var i :| 0 <= i < |ss| && x in ss[i];
        if i < last {
          assert ss[i] == init[i];
        }
      }
    }
  }

  function Reverse<T>(s: seq<T>): (r: seq<T>)
    ensures |r| == |s|
    ensures forall i | 0 <= i < |s| :: r[i] == s[|s| - 1 - i]
  {
    if |s| == 0 then [] else [s[|s| - 1]] + Reverse(s[..|s| - 1])
  }

  /** Reversing an ascending sequence keeps its members and makes it strictly
      descending. */
  lemma ReverseOfAscending(a: seq<int>)
    requires forall i, j | 0 <= i < j < |a| :: a[i] < a[j]
    ensures forall x :: x in Reverse(a) <==> x in a
    ensures StrictlyDescending(Reverse(a))
  {
    var w := Reverse(a);
    forall x | x in a ensures x in w {
      var i :| 0 <= i < |a| && a[i] == x;
      assert w[|a| - 1 - i] == x;
    }
    forall i, j | 0 <= i < j < |w| ensures w[i] > w[j] {
      assert w[i] == a[|a| - 1 - i] && w[j] == a[|a| - 1 - j];
    }
  }

  /** `q` is the whole part of `total / n` (no condition when `n` is 0). */
  predicate FloorMean(q: nat, total: nat, n: nat) {
    n > 0 ==> q * n <= total < (q + 1) * n
  }

  /** Floor division of a total by a positive count: the quotient brackets
      the total and stays under any per-term bound. */
  lemma FloorDivision(n: nat, m: nat, bound: nat)
    requires m > 0 && n <= bound * m
    ensures (n / m) * m <= n < (n / m + 1) * m
    ensures n / m <= bound
  {
    var q := n / m;
    assert n == q * m + n % m;
  }

  /** A multiple of a positive count divides back exactly. */
  lemma ExactDivision(c: nat, m: nat)
    requires m > 0
    ensures (c * m) / m == c
  {
    FloorDivision(c * m, m, c);
  }

  /** A positive factor can be cancelled from a strict inequality. */
  lemma MulCancel(a: int, b: int, d: int)
    requires d > 0 && a * d < b * d
    ensures a < b
  {
  }

  function Identity(x: int): int {
    x
  }

  predicate StrictlyDescending(s: seq<int>) {
    forall i, j | 0 <= i < j < |s| :: s[i] > s[j]
  }

  predicate SortedDesc<T>(s: seq<T>, key: T -> int) {
    forall i, j | 0 <= i < j < |s| :: key(s[i]) >= key(s[j])
  }

  /** Inserts x in front of the first element whose key is smaller, so that
      among equal keys the inserted element comes first. */
  function InsertDesc<T>(x: T, s: seq<T>, key: T -> int): (r: seq<T>)
    ensures multiset(r) == multiset(s) + multiset{x}
    ensures |r| == |s| + 1
  {
    if |s| == 0 || key(x) >= key(s[0]) then [x] + s
    else
      assert s == [s[0]] + s[1..];
      [s[0]] + InsertDesc(x, s[1..], key)
  }

  /** Inserting into a sorted sequence keeps it sorted, and the front is
      either the inserted element or the old front. */
  lemma {:induction false} InsertDescSorted<T>(x: T, s: seq<T>, key: T -> int)
    requires SortedDesc(s, key)
    ensures SortedDesc(InsertDesc(x, s, key), key)
    ensures InsertDesc(x, s, key)[0] == x || (|s| > 0 && InsertDesc(x, s, key)[0] == s[0])
  {
    if |s| == 0 || key(x) >= key(s[0]) {
      ConsSorted(x, s, key);
    } else {
      var rest := InsertDesc(x, s[1..], key);
      InsertDescSorted(x, s[1..], key);
      ConsSorted(s[0], rest, key);
    }
  }

  /** Putting an element no smaller than the front of a sorted sequence in
      front of it keeps it sorted. */
  lemma ConsSorted<T>(h: T, s: seq<T>, key: T -> int)
    requires SortedDesc(s, key)
    requires |s| > 0 ==> key(h) >= key(s[0])
    ensures SortedDesc([h] + s, key)
  {
    var r := [h] + s;
    assert forall j | 1 <= j < |r| :: r[j] == s[j - 1];
  }

  /** Stable insertion sort, largest key first. */
  function SortDesc<T>(s: seq<T>, key: T -> int): (r: seq<T>)
    ensures SortedDesc(r, key)
    ensures multiset(r) == multiset(s)
    ensures |r| == |s|
  {
    if |s| == 0 then []
    else
      assert s == [s[0]] + s[1..];
      var sorted := SortDesc(s[1..], key);
      InsertDescSorted(s[0], sorted, key);
      InsertDesc(s[0], sorted, key)
  }

  /** De-duplicating and then sorting, largest first, gives a strictly
      descending sequence with the same members. */
  lemma SortedUnique(xs: seq<int>)
    ensures StrictlyDescending(SortDesc(Unique(xs), Identity))
    ensures forall x :: x in SortDesc(Unique(xs), Identity) <==> x in xs
  {
    var distinct := Unique(xs);
    var sorted := SortDesc(distinct, Identity);
    SortedDistinctIsStrict(distinct);
    forall x ensures x in sorted <==> x in xs {
      assert x in sorted <==> x in multiset(sorted);
      assert x in distinct ==> x in xs;
      if x in xs {
        var i :| 0 <= i < |xs| && xs[i] == x;
        assert xs[i] in distinct;
      }
    }
  }

  /** Sorting a distinct sequence of integers, largest first, gives a strictly
      descending sequence. */
  lemma SortedDistinctIsStrict(s: seq<int>)
    requires NoDuplicates(s)
    ensures StrictlyDescending(SortDesc(s, Identity))
  {
    var r := SortDesc(s, Identity);
    PermutationKeepsDistinct(s, r);
    forall i, j | 0 <= i < j < |r| ensures r[i] > r[j] {
      assert Identity(r[i]) >= Identity(r[j]);
      assert r[i] != r[j];
    }
  }
}
