/** The singly linked lists of list.c as sequences of their elements, ordered by an integer key. */
module Lists {

  predicate Sorted<T>(key: T -> int, s: seq<T>) {
    forall i, j :: 0 <= i < j < |s| ==> key(s[i]) <= key(s[j])
  }

  predicate StrictlySorted<T>(key: T -> int, s: seq<T>) {
    forall i, j :: 0 <= i < j < |s| ==> key(s[i]) < key(s[j])
  }

  /** The elements of a list. */
  ghost function Elems<T>(s: seq<T>): set<T> {
    if s == [] then {} else {s[0]} + Elems(s[1..])
  }

  lemma {:induction false} ElemsMember<T>(s: seq<T>, x: T)
    ensures x in Elems(s) <==> x in s
  {
    if s == [] {
    } else {
      ElemsMember(s[1..], x);
      assert s == [s[0]] + s[1..];
    }
  }

  /** Strictly sorted, element by element. */
  predicate Ascending<T>(key: T -> int, s: seq<T>) {
    |s| < 2 || (key(s[0]) < key(s[1]) && Ascending(key, s[1..]))
  }

  lemma {:induction false} AscendingIsStrict<T>(key: T -> int, s: seq<T>)
    ensures Ascending(key, s) <==> StrictlySorted(key, s)
  {
    if |s| < 2 {
    } else {
      AscendingIsStrict(key, s[1..]);
      assert forall i :: 0 <= i < |s| - 1 ==> s[1..][i] == s[i + 1];
      if StrictlySorted(key, s[1..]) && key(s[0]) < key(s[1]) {
        StrictCons(key, s[0], s[1..]);
        assert s == [s[0]] + s[1..];
      }
    }
  }

  lemma AscendingHead<T>(key: T -> int, s: seq<T>, y: T)
    requires Ascending(key, s) && s != [] && y in Elems(s[1..])
    ensures key(s[0]) < key(y)
  {
    AscendingIsStrict(key, s);
    ElemsMember(s[1..], y);
  }

  /** A strictly sorted list is determined by its elements. */
  lemma {:induction false} AscendingUnique<T>(key: T -> int, a: seq<T>, b: seq<T>)
    requires Ascending(key, a) && Ascending(key, b) && Elems(a) == Elems(b)
    ensures a == b
  {
    if a == [] {
    } else {
      assert a[0] in Elems(b);
      assert b != [] && b[0] in Elems(a);
      if a[0] != b[0] {
        assert b[0] in Elems(a[1..]) && a[0] in Elems(b[1..]);
        AscendingHead(key, a, b[0]);
        AscendingHead(key, b, a[0]);
      }
      forall y ensures y in Elems(a[1..]) <==> y in Elems(b[1..]) {
        if y in Elems(a[1..]) { AscendingHead(key, a, y); }
        if y in Elems(b[1..]) { AscendingHead(key, b, y); }
      }
      AscendingUnique(key, a[1..], b[1..]);
      assert a == [a[0]] + a[1..] && b == [b[0]] + b[1..];
    }
  }

  /** Ordered insertion: before the first element that is not smaller. */
  function SortInsert<T>(key: T -> int, x: T, s: seq<T>): seq<T> {
    if s == [] || key(s[0]) >= key(x) then [x] + s
    else [s[0]] + SortInsert(key, x, s[1..])
  }

  /** The simple sort that merge sort is measured against. */
  function InsertionSort<T>(key: T -> int, s: seq<T>): seq<T> {
    if s == [] then [] else SortInsert(key, s[0], InsertionSort(key, s[1..]))
  }

  /** The elements whose key is `k`, in list order. */
  function WithKey<T>(key: T -> int, k: int, s: seq<T>): seq<T> {
    if s == [] then []
    else (if key(s[0]) == k then [s[0]] else []) + WithKey(key, k, s[1..])
  }

  function MergeSpec<T>(key: T -> int, a: seq<T>, b: seq<T>): seq<T> {
    if a == [] then b
    else if b == [] then a
    else if key(a[0]) <= key(b[0]) then [a[0]] + MergeSpec(key, a[1..], b)
    else [b[0]] + MergeSpec(key, a, b[1..])
  }

  // ---------- Facts about ordered insertion ----------

  lemma SortedCons<T>(key: T -> int, x: T, s: seq<T>)
    requires Sorted(key, s) && forall j :: 0 <= j < |s| ==> key(x) <= key(s[j])
    ensures Sorted(key, [x] + s)
  {
  }

  lemma {:induction false} SortInsertPermutes<T>(key: T -> int, x: T, s: seq<T>)
    ensures multiset(SortInsert(key, x, s)) == multiset{x} + multiset(s)
  {
    if s == [] || key(s[0]) >= key(x) {
    } else {
      SortInsertPermutes(key, x, s[1..]);
      assert s == [s[0]] + s[1..];
    }
  }

  lemma SortInsertMember<T>(key: T -> int, x: T, s: seq<T>, y: T)
    ensures y in SortInsert(key, x, s) <==> y == x || y in s
  {
    SortInsertPermutes(key, x, s);
    assert y in multiset(SortInsert(key, x, s)) <==> y == x || y in multiset(s);
  }

  lemma {:induction false} SortInsertSorted<T>(key: T -> int, x: T, s: seq<T>)
    requires Sorted(key, s)
    ensures Sorted(key, SortInsert(key, x, s))
  {
    if s == [] || key(s[0]) >= key(x) {
    } else {
      var r := SortInsert(key, x, s[1..]);
      SortInsertSorted(key, x, s[1..]);
      forall j | 0 <= j < |r| ensures key(s[0]) <= key(r[j]) {
        SortInsertMember(key, x, s[1..], r[j]);
      }
      SortedCons(key, s[0], r);
    }
  }

  lemma {:induction false} SortInsertWithKey<T>(key: T -> int, x: T, s: seq<T>, k: int)
    ensures WithKey(key, k, SortInsert(key, x, s)) == WithKey(key, k, [x] + s)
  {
    assert ([x] + s)[1..] == s;
    if s == [] || key(s[0]) >= key(x) {
    } else {
      var r := SortInsert(key, x, s[1..]);
      SortInsertWithKey(key, x, s[1..], k);
      assert ([s[0]] + r)[1..] == r;
      assert ([x] + s[1..])[1..] == s[1..];
    }
  }

  lemma {:induction false} InsertionSortKeeps<T>(key: T -> int, s: seq<T>, k: int)
    ensures WithKey(key, k, InsertionSort(key, s)) == WithKey(key, k, s)
  {
    if s == [] {
    } else {
      var r := InsertionSort(key, s[1..]);
      InsertionSortKeeps(key, s[1..], k);
      SortInsertWithKey(key, s[0], r, k);
      assert ([s[0]] + r)[1..] == r;
    }
  }

  /** Insertion sort returns a sorted, stable permutation. */
  lemma {:induction false} InsertionSortStable<T>(key: T -> int, s: seq<T>)
    ensures Sorted(key, InsertionSort(key, s))
    ensures multiset(InsertionSort(key, s)) == multiset(s)
    ensures forall k :: WithKey(key, k, InsertionSort(key, s)) == WithKey(key, k, s)
  {
    hide SortInsert, WithKey, Sorted;
    if s == [] {
      SortedShort(key, s);
    } else {
      var r := InsertionSort(key, s[1..]);
      InsertionSortStable(key, s[1..]);
      SortInsertSorted(key, s[0], r);
      SortInsertPermutes(key, s[0], r);
      assert s == [s[0]] + s[1..];
    }
    forall k ensures WithKey(key, k, InsertionSort(key, s)) == WithKey(key, k, s) {
      InsertionSortKeeps(key, s, k);
    }
  }

  lemma SortedShort<T>(key: T -> int, s: seq<T>)
    requires |s| < 2
    ensures Sorted(key, s)
  {
  }

  lemma {:induction false} WithKeyMember<T>(key: T -> int, k: int, s: seq<T>, x: T)
    ensures x in WithKey(key, k, s) <==> x in s && key(x) == k
  {
    if s == [] {
    } else {
      WithKeyMember(key, k, s[1..], x);
      assert s == [s[0]] + s[1..];
    }
  }

  /** A sorted list that keeps, for every key, the same elements in the same order is unique. */
  lemma {:induction false} StableSortUnique<T>(key: T -> int, a: seq<T>, b: seq<T>)
    requires Sorted(key, a) && Sorted(key, b)
    requires forall k :: WithKey(key, k, a) == WithKey(key, k, b)
    ensures a == b
  {
    if a == [] {
    } else {
      var k := key(a[0]);
      WithKeyMember(key, k, a, a[0]);
      WithKeyMember(key, k, b, a[0]);
      assert b != [];
      WithKeyMember(key, key(b[0]), b, b[0]);
      WithKeyMember(key, key(b[0]), a, b[0]);
      assert key(b[0]) == k;
      assert WithKey(key, k, a)[0] == a[0] && WithKey(key, k, b)[0] == b[0];
      forall m ensures WithKey(key, m, a[1..]) == WithKey(key, m, b[1..]) {
        assert WithKey(key, m, a) == WithKey(key, m, b);
        var pre := if m == k then [a[0]] else [];
        assert WithKey(key, m, a) == pre + WithKey(key, m, a[1..]);
        assert WithKey(key, m, b) == pre + WithKey(key, m, b[1..]);
        assert WithKey(key, m, a[1..]) == WithKey(key, m, a)[|pre|..];
        assert WithKey(key, m, b[1..]) == WithKey(key, m, b)[|pre|..];
      }
      StableSortUnique(key, a[1..], b[1..]);
      assert a == [a[0]] + a[1..] && b == [b[0]] + b[1..];
    }
  }

  /** Sorting a list that is already sorted changes nothing. */
  lemma {:induction false} InsertionSortOfSorted<T>(key: T -> int, s: seq<T>)
    requires Sorted(key, s)
    ensures InsertionSort(key, s) == s
  {
    InsertionSortStable(key, s);
    StableSortUnique(key, InsertionSort(key, s), s);
  }

  /** Pushing a new element in front of a sorted list and sorting is ordered insertion. */
  lemma {:induction false} PushThenSort<T>(key: T -> int, x: T, s: seq<T>)
    requires Sorted(key, s)
    ensures InsertionSort(key, [x] + s) == SortInsert(key, x, s)
  {
    InsertionSortOfSorted(key, s);
    assert ([x] + s)[1..] == s;
  }

  lemma StrictIsSorted<T>(key: T -> int, s: seq<T>)
    requires StrictlySorted(key, s)
    ensures Sorted(key, s)
  {
  }

  lemma StrictCons<T>(key: T -> int, x: T, s: seq<T>)
    requires StrictlySorted(key, s) && forall j :: 0 <= j < |s| ==> key(x) < key(s[j])
    ensures StrictlySorted(key, [x] + s)
  {
  }

  lemma {:induction false} SortInsertStrict<T>(key: T -> int, x: T, s: seq<T>)
    requires StrictlySorted(key, s) && forall i :: 0 <= i < |s| ==> key(s[i]) != key(x)
    ensures StrictlySorted(key, SortInsert(key, x, s))
  {
    if s == [] || key(s[0]) >= key(x) {
      StrictCons(key, x, s);
    } else {
      var r := SortInsert(key, x, s[1..]);
      SortInsertStrict(key, x, s[1..]);
      forall j | 0 <= j < |r| ensures key(s[0]) < key(r[j]) {
        SortInsertMember(key, x, s[1..], r[j]);
      }
      StrictCons(key, s[0], r);
    }
  }

  /** Push-then-sort keeps a list of distinct characters strictly sorted and adds just the new one. */
  lemma PushThenSortStrict<T>(key: T -> int, x: T, s: seq<T>)
    requires Ascending(key, s) && forall y :: y in Elems(s) ==> key(y) != key(x)
    ensures Ascending(key, InsertionSort(key, [x] + s))
    ensures Elems(InsertionSort(key, [x] + s)) == {x} + Elems(s)
  {
    AscendingIsStrict(key, s);
    StrictIsSorted(key, s);
    forall i | 0 <= i < |s| ensures key(s[i]) != key(x) { ElemsMember(s, s[i]); }
    PushThenSort(key, x, s);
    SortInsertStrict(key, x, s);
    AscendingIsStrict(key, SortInsert(key, x, s));
    forall y ensures y in Elems(SortInsert(key, x, s)) <==> y in {x} + Elems(s) {
      SortInsertMember(key, x, s, y);
      ElemsMember(SortInsert(key, x, s), y);
      ElemsMember(s, y);
    }
  }

  lemma {:induction false} MergeAfterInsert<T>(key: T -> int, x: T, a: seq<T>, b: seq<T>)
    ensures MergeSpec(key, SortInsert(key, x, a), b) == SortInsert(key, x, MergeSpec(key, a, b))
    decreases |a| + |b|
  {
    var c := SortInsert(key, x, a);
    if a == [] || key(a[0]) >= key(x) {
      assert c[1..] == a;
      if b != [] && key(x) > key(b[0]) {
        MergeAfterInsert(key, x, a, b[1..]);
        var m := MergeSpec(key, a, b);
        assert m[0] == b[0] && m[1..] == MergeSpec(key, a, b[1..]);
      }
    } else if b != [] {
      assert c[1..] == SortInsert(key, x, a[1..]);
      var m := MergeSpec(key, a, b);
      if key(a[0]) <= key(b[0]) {
        MergeAfterInsert(key, x, a[1..], b);
        assert m[1..] == MergeSpec(key, a[1..], b);
      } else {
        MergeAfterInsert(key, x, a, b[1..]);
        assert m[1..] == MergeSpec(key, a, b[1..]);
      }
    }
  }

  /** Merging two sorted halves sorts their concatenation. */
  lemma {:induction false} MergeOfSorts<T>(key: T -> int, a: seq<T>, b: seq<T>)
    ensures MergeSpec(key, InsertionSort(key, a), InsertionSort(key, b)) == InsertionSort(key, a + b)
  {
    if a == [] {
      assert a + b == b;
    } else {
      MergeOfSorts(key, a[1..], b);
      MergeAfterInsert(key, a[0], InsertionSort(key, a[1..]), InsertionSort(key, b));
      assert (a + b)[1..] == a[1..] + b;
    }
  }

  lemma Regroup<T>(a: seq<T>, x: T, b: seq<T>)
    ensures a + ([x] + b) == (a + [x]) + b
  {
  }

  lemma StepInsert<T>(key: T -> int, x: T, s: seq<T>, i: nat)
    requires i < |s| && key(s[i]) < key(x)
    ensures s[..i] + SortInsert(key, x, s[i..]) == s[..i + 1] + SortInsert(key, x, s[i + 1..])
  {
    assert s[i..][1..] == s[i + 1..] && s[..i + 1] == s[..i] + [s[i]];
    Regroup(s[..i], s[i], SortInsert(key, x, s[i + 1..]));
  }

  /** The list without its first element of the given key. */
  function WithoutFirst<T>(key: T -> int, value: int, s: seq<T>): seq<T> {
    if s == [] then []
    else if key(s[0]) == value then s[1..]
    else [s[0]] + WithoutFirst(key, value, s[1..])
  }

  /** Only the first match goes: what stands before it matches nowhere, and what stands behind it stays. */
  lemma {:induction false} WithoutFirstIs<T>(key: T -> int, value: int, before: seq<T>, rest: seq<T>)
    requires forall i :: 0 <= i < |before| ==> key(before[i]) != value
    ensures rest == [] ==> WithoutFirst(key, value, before + rest) == before
    ensures rest != [] && key(rest[0]) == value ==> WithoutFirst(key, value, before + rest) == before + rest[1..]
  {
    if before == [] {
      assert before + rest == rest;
    } else {
      assert (before + rest)[1..] == before[1..] + rest;
      WithoutFirstIs(key, value, before[1..], rest);
      assert before == [before[0]] + before[1..];
    }
  }

  lemma {:induction false} WithoutPart<T>(key: T -> int, value: int, s: seq<T>)
    ensures forall i :: 0 <= i < |WithoutFirst(key, value, s)| ==> WithoutFirst(key, value, s)[i] in s
  {
    if s == [] || key(s[0]) == value {
    } else {
      WithoutPart(key, value, s[1..]);
    }
  }

  /** On a strictly sorted list the first element of a key is the only one. */
  lemma {:induction false} WithoutAscending<T>(key: T -> int, value: int, s: seq<T>)
    requires Ascending(key, s)
    ensures Ascending(key, WithoutFirst(key, value, s))
    ensures forall x :: x in Elems(WithoutFirst(key, value, s)) <==> x in Elems(s) && key(x) != value
  {
    if s == [] {
    } else {
      forall x | x in Elems(s[1..]) ensures key(s[0]) < key(x) { AscendingHead(key, s, x); }
      if key(s[0]) != value {
        var rest := WithoutFirst(key, value, s[1..]);
        WithoutAscending(key, value, s[1..]);
        assert ([s[0]] + rest)[1..] == rest;
        if rest != [] { assert rest[0] in Elems(rest); }
      }
    }
  }

  /** Search with early exit; on a strictly sorted list it misses no element. */
  method LinearSearch<T>(key: T -> int, s: seq<T>, value: int) returns (index: int)
    requires Ascending(key, s)
    ensures -1 <= index < |s|
    ensures index >= 0 ==> key(s[index]) == value && s[index] in Elems(s)
    ensures index == -1 <==> forall x :: x in Elems(s) ==> key(x) != value
  {
    AscendingIsStrict(key, s);
    var cur := 0;
    while cur < |s|
      invariant 0 <= cur <= |s|
      invariant forall i :: 0 <= i < cur ==> key(s[i]) < value
    {
      if key(s[cur]) == value {
        ElemsMember(s, s[cur]);
        return cur;
      } else if key(s[cur]) > value {
        break;
      }
      cur := cur + 1;
    }
    assert forall i :: 0 <= i < |s| ==> key(s[i]) != value;
    forall x | x in Elems(s) ensures key(x) != value { ElemsMember(s, x); }
    return -1;
  }
}
