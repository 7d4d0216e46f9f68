/** List cells as list.c links them: the merge sort of trie.c, ordered insertion and removal relink them in place.
    `cells` names the cells of a list in order; what an operation leaves linked is a function of that sequence. */
module LinkedLists {
  import opened Lists

  class Cell<T> {
    const data: T
    var next: Cell?<T>

    constructor (data: T, next: Cell?<T>)
      ensures this.data == data && this.next == next
    {
      this.data, this.next := data, next;
    }
  }

  /** From `head` the links lead through `cells`, in order, to `end`. */
  ghost predicate Links<T>(head: Cell?<T>, cells: seq<Cell<T>>, end: Cell?<T>)
    reads cells
  {
    if cells == [] then head == end else head == cells[0] && Links(cells[0].next, cells[1..], end)
  }

  /** No cell occurs twice. */
  ghost predicate Once<T>(m: multiset<Cell<T>>) {
    forall c :: c in m ==> m[c] == 1
  }

  lemma {:induction false} LinksSnoc<T>(head: Cell?<T>, cells: seq<Cell<T>>, c: Cell<T>)
    requires Links(head, cells, c)
    ensures Links(head, cells + [c], c.next)
  {
    if cells == [] {
      assert (cells + [c])[1..] == [];
    } else {
      LinksSnoc(cells[0].next, cells[1..], c);
      assert (cells + [c])[1..] == cells[1..] + [c];
    }
  }

  lemma {:induction false} LinksConcat<T>(head: Cell?<T>, a: seq<Cell<T>>, b: seq<Cell<T>>,
                                          mid: Cell?<T>, end: Cell?<T>)
    requires Links(head, a, mid) && Links(mid, b, end)
    ensures Links(head, a + b, end)
  {
    if a == [] {
      assert a + b == b;
    } else {
      LinksConcat(a[0].next, a[1..], b, mid, end);
      assert (a + b)[1..] == a[1..] + b;
    }
  }

  lemma LinksFirst<T>(head: Cell?<T>, cells: seq<Cell<T>>)
    requires Links(head, cells, null)
    ensures head == null <==> cells == []
    ensures cells != [] ==> head == cells[0] && Links(cells[0].next, cells[1..], null)
  {
  }

  lemma LinksEmpty<T>(head: Cell?<T>)
    ensures Links(head, [], head)
  {
  }

  /** The cell at a position, or null behind the last. */
  ghost function At<T>(cells: seq<Cell<T>>, i: nat): Cell?<T> {
    if i < |cells| then cells[i] else null
  }

  lemma {:induction false} NextAt<T>(head: Cell?<T>, cells: seq<Cell<T>>, i: nat)
    requires Links(head, cells, null)
    ensures head == At(cells, 0) && (i < |cells| ==> cells[i].next == At(cells, i + 1))
  {
    if cells == [] {
    } else {
      NextAt(cells[0].next, cells[1..], if i == 0 then 0 else i - 1);
    }
  }

  lemma {:induction false} LinksAt<T>(head: Cell?<T>, cells: seq<Cell<T>>, i: nat)
    requires Links(head, cells, null) && i <= |cells|
    ensures Links(head, cells[..i], At(cells, i)) && Links(At(cells, i), cells[i..], null)
  {
    if i == 0 {
      assert cells[0..] == cells;
      NextAt(head, cells, 0);
    } else {
      LinksAt(cells[0].next, cells[1..], i - 1);
      assert cells[1..][..i - 1] == cells[..i][1..] && cells[1..][i - 1..] == cells[i..];
    }
  }

  /** The two-pointer split: a list of two or more is cut in the middle, a shorter one is left alone. */
  method Bisect<T>(head: Cell?<T>, ghost cells: seq<Cell<T>>) returns (back: Cell?<T>)
    requires Links(head, cells, null) && Once(multiset(cells))
    modifies cells
    ensures |cells| >= 2 ==> Links(head, cells[..|cells| / 2], null) && Links(back, cells[|cells| / 2..], null)
    ensures |cells| < 2 ==> back == head && Links(head, cells, null)
  {
    hide Links, Once;
    var fast, slow := head, head;
    var prev: Cell?<T> := null;
    ghost var k := 0;
    NextAt(head, cells, 0);
    while fast != null && fast.next != null
      invariant Links(head, cells, null)
      invariant 2 * k <= |cells| && slow == At(cells, k) && fast == At(cells, 2 * k)
      invariant if k == 0 then prev == null else prev == cells[k - 1]
      decreases |cells| - k
    {
      NextAt(head, cells, k);
      NextAt(head, cells, 2 * k);
      NextAt(head, cells, 2 * k + 1);
      fast := fast.next.next;
      prev := slow;
      slow := slow.next;
      k := k + 1;
    }
    NextAt(head, cells, 2 * k);
    if prev != null {
      LinksAt(head, cells, k - 1);
      LinksAt(head, cells, k);
      CutFrame(cells, k);
      prev.next := null;
      LinksSnoc(head, cells[..k - 1], prev);
      assert cells[..k - 1] + [prev] == cells[..k];
    }
    back := slow;
  }

  lemma CutFrame<T>(cells: seq<Cell<T>>, k: nat)
    requires 0 < k <= |cells| && Once(multiset(cells))
    ensures cells[k - 1] !in cells[..k - 1] && cells[k - 1] !in cells[k..]
  {
    var a, c, b := cells[..k - 1], cells[k - 1], cells[k..];
    assert cells == a + [c] + b;
    assert multiset(cells)[c] == multiset(a)[c] + 1 + multiset(b)[c];
    assert c in multiset(cells);
  }

  /** Merges two lists of distinct cells in place; ties take from the first. */
  method Merge<T>(key: Cell<T> -> int, list1: Cell?<T>, list2: Cell?<T>, ghost a: seq<Cell<T>>, ghost b: seq<Cell<T>>)
    returns (head: Cell?<T>)
    requires Links(list1, a, null) && Links(list2, b, null) && Once(multiset(a) + multiset(b))
    modifies a, b
    ensures Links(head, MergeSpec(key, a, b), null)
  {
    hide Separate, Within, Once, Links;
    LinksFirst(list1, a);
    if list1 == null {
      return list2;
    }
    var dummy := new Cell(list1.data, null);
    FreshApart(dummy, a, b);
    MergeBehind(key, dummy, list1, list2, a, b);
    LinksFirst(dummy, [dummy] + MergeSpec(key, a, b));
    assert ([dummy] + MergeSpec(key, a, b))[1..] == MergeSpec(key, a, b);
    head := dummy.next;
  }

  /** The merge loop: it relinks the cells of both lists behind a dummy head. */
  method MergeBehind<T>(key: Cell<T> -> int, dummy: Cell<T>, list1: Cell?<T>, list2: Cell?<T>,
                        ghost a: seq<Cell<T>>, ghost b: seq<Cell<T>>)
    requires Links(list1, a, null) && Links(list2, b, null)
    requires Separate([], dummy, a, b) && Within([], dummy, a, b, dummy, a, b)
    modifies dummy, a, b
    ensures Links(dummy, [dummy] + MergeSpec(key, a, b), null)
  {
    hide Separate, Within, Once, Links;
    var l1, l2 := list1, list2;
    var tail: Cell<T> := dummy;
    ghost var front: seq<Cell<T>>, x, y := [], a, b;
    LinksEmpty(dummy);
    while l1 != null && l2 != null
      invariant Links(dummy, front, tail) && Links(l1, x, null) && Links(l2, y, null)
      invariant Separate(front, tail, x, y) && Within(front, tail, x, y, dummy, a, b)
      invariant front + [tail] + MergeSpec(key, x, y) == [dummy] + MergeSpec(key, a, b)
      invariant tail == dummy || tail in a || tail in b
      decreases |x| + |y|
    {
      SeparateFrame(front, tail, x, y);
      LinksFirst(l1, x);
      LinksFirst(l2, y);
      ghost var done := front + [tail];
      if key(l1) <= key(l2) {
        Take1(front, tail, x, y, dummy, a, b);
        var next := l1.next;
        tail.next := l1;
        LinksSnoc(dummy, front, tail);
        front, tail, x := done, l1, x[1..];
        l1 := next;
      } else {
        Take2(front, tail, x, y, dummy, a, b);
        var next := l2.next;
        tail.next := l2;
        LinksSnoc(dummy, front, tail);
        front, tail, y := done, l2, y[1..];
        l2 := next;
      }
      Regroup(done, tail, MergeSpec(key, x, y));
    }
    SeparateFrame(front, tail, x, y);
    LinksFirst(l1, x);
    LinksFirst(l2, y);
    tail.next := if l1 != null then l1 else l2;
    LinksSnoc(dummy, front, tail);
    LinksConcat(dummy, front + [tail], if l1 != null then x else y, tail.next, null);
  }

  lemma FreshApart<T>(c: Cell<T>, a: seq<Cell<T>>, b: seq<Cell<T>>)
    requires c !in a && c !in b && Once(multiset(a) + multiset(b))
    ensures Separate([], c, a, b) && Within([], c, a, b, c, a, b)
  {
    var m, n := multiset(a) + multiset(b), multiset([]) + multiset{c} + multiset(a) + multiset(b);
    forall d | d in n ensures n[d] == 1 {
      if d != c { assert d in m; }
    }
  }

  /** The merged part, its last cell and what is left of both lists share no cell. */
  ghost predicate Separate<T>(front: seq<Cell<T>>, tail: Cell<T>, x: seq<Cell<T>>, y: seq<Cell<T>>) {
    Once(multiset(front) + multiset{tail} + multiset(x) + multiset(y))
  }

  ghost predicate Within<T>(front: seq<Cell<T>>, tail: Cell<T>, x: seq<Cell<T>>, y: seq<Cell<T>>,
                            dummy: Cell<T>, a: seq<Cell<T>>, b: seq<Cell<T>>)
  {
    multiset(front) + multiset{tail} + multiset(x) + multiset(y) == multiset{dummy} + multiset(a) + multiset(b)
  }

  lemma SeparateFrame<T>(front: seq<Cell<T>>, tail: Cell<T>, x: seq<Cell<T>>, y: seq<Cell<T>>)
    requires Separate(front, tail, x, y)
    ensures tail !in front && tail !in x && tail !in y
  {
    var m := multiset(front) + multiset{tail} + multiset(x) + multiset(y);
    assert m[tail] == multiset(front)[tail] + 1 + multiset(x)[tail] + multiset(y)[tail];
    assert tail in m;
  }

  lemma Take1<T>(front: seq<Cell<T>>, tail: Cell<T>, x: seq<Cell<T>>, y: seq<Cell<T>>,
                 dummy: Cell<T>, a: seq<Cell<T>>, b: seq<Cell<T>>)
    requires x != [] && Separate(front, tail, x, y) && Within(front, tail, x, y, dummy, a, b)
    ensures Separate(front + [tail], x[0], x[1..], y) && Within(front + [tail], x[0], x[1..], y, dummy, a, b)
    ensures x[0] == dummy || x[0] in a || x[0] in b
  {
    var n := multiset{dummy} + multiset(a) + multiset(b);
    assert x[0] in multiset(x) && x[0] in n;
    assert x == [x[0]] + x[1..];
    assert multiset(front + [tail]) + multiset{x[0]} + multiset(x[1..]) + multiset(y)
        == multiset(front) + multiset{tail} + multiset(x) + multiset(y);
  }

  lemma Take2<T>(front: seq<Cell<T>>, tail: Cell<T>, x: seq<Cell<T>>, y: seq<Cell<T>>,
                 dummy: Cell<T>, a: seq<Cell<T>>, b: seq<Cell<T>>)
    requires y != [] && Separate(front, tail, x, y) && Within(front, tail, x, y, dummy, a, b)
    ensures Separate(front + [tail], y[0], x, y[1..]) && Within(front + [tail], y[0], x, y[1..], dummy, a, b)
    ensures y[0] == dummy || y[0] in a || y[0] in b
  {
    var n := multiset{dummy} + multiset(a) + multiset(b);
    assert y[0] in multiset(y) && y[0] in n;
    assert y == [y[0]] + y[1..];
    assert multiset(front + [tail]) + multiset{y[0]} + multiset(x) + multiset(y[1..])
        == multiset(front) + multiset{tail} + multiset(x) + multiset(y);
  }

  /** Both halves, sorted, still share no cell and reach no other. */
  lemma SortedHalves<T>(key: Cell<T> -> int, cells: seq<Cell<T>>, a: seq<Cell<T>>, b: seq<Cell<T>>)
    requires Once(multiset(cells)) && cells == a + b
    ensures Once(multiset(a)) && Once(multiset(b))
    ensures Once(multiset(InsertionSort(key, a)) + multiset(InsertionSort(key, b)))
    ensures forall i :: 0 <= i < |a| ==> a[i] in cells
    ensures forall i :: 0 <= i < |b| ==> b[i] in cells && b[i] !in a
    ensures forall i :: 0 <= i < |InsertionSort(key, a)| ==>
              InsertionSort(key, a)[i] in cells && InsertionSort(key, a)[i] !in b
    ensures forall i :: 0 <= i < |InsertionSort(key, b)| ==> InsertionSort(key, b)[i] in cells
    ensures MergeSpec(key, InsertionSort(key, a), InsertionSort(key, b)) == InsertionSort(key, cells)
  {
    hide InsertionSort, MergeSpec;
    var r, t := InsertionSort(key, a), InsertionSort(key, b);
    InsertionSortStable(key, a);
    InsertionSortStable(key, b);
    MergeOfSorts(key, a, b);
    forall c ensures multiset(cells)[c] == multiset(a)[c] + multiset(b)[c] {}
    forall c | c in a ensures c in cells && c !in b { assert c in multiset(cells) && c in multiset(a); }
    forall c | c in multiset(b) ensures multiset(b)[c] == 1 { assert c in multiset(cells); }
    forall c | c in multiset(a) ensures multiset(a)[c] == 1 { assert c in multiset(cells); }
    forall c | c in r ensures c in cells && c !in b { assert c in multiset(r) && c in multiset(a) && c in a; }
    forall c | c in t ensures c in cells { assert c in multiset(t) && c in multiset(b) && c in b; }
  }

  /** Merge sort relinks the cells into the order insertion sort gives them. */
  method SortCells<T>(key: Cell<T> -> int, head: Cell?<T>, ghost cells: seq<Cell<T>>) returns (r: Cell?<T>)
    requires Links(head, cells, null) && Once(multiset(cells))
    modifies cells
    ensures Links(r, InsertionSort(key, cells), null)
    decreases |cells|
  {
    hide Links, Once, InsertionSort, MergeSpec, Sorted;
    LinksFirst(head, cells);
    if head != null { LinksFirst(head.next, cells[1..]); }
    if head == null || head.next == null {
      SortShort(key, cells);
      return head;
    }
    ghost var front, rear := cells[..|cells| / 2], cells[|cells| / 2..];
    SortedHalves(key, cells, front, rear);
    ghost var frontSorted, rearSorted := InsertionSort(key, front), InsertionSort(key, rear);
    var back := Bisect(head, cells);
    var a := SortCells(key, head, front);
    var b := SortCells(key, back, rear);
    r := Merge(key, a, b, frontSorted, rearSorted);
  }

  lemma SortShort<T>(key: T -> int, s: seq<T>)
    requires |s| < 2
    ensures InsertionSort(key, s) == s
  {
    InsertionSortOfSorted(key, s);
  }

  /** The data a list of cells holds. */
  ghost function Data<T>(cells: seq<Cell<T>>): seq<T> {
    if cells == [] then [] else [cells[0].data] + Data(cells[1..])
  }

  lemma {:induction false} InsertData<T>(key: Cell<T> -> int, dataKey: T -> int, c: Cell<T>, cells: seq<Cell<T>>)
    requires forall d :: key(d) == dataKey(d.data)
    ensures Data(SortInsert(key, c, cells)) == SortInsert(dataKey, c.data, Data(cells))
  {
    if cells == [] || key(cells[0]) >= key(c) {
      assert ([c] + cells)[1..] == cells;
    } else {
      InsertData(key, dataKey, c, cells[1..]);
      assert Data(cells)[1..] == Data(cells[1..]);
      assert ([cells[0]] + SortInsert(key, c, cells[1..]))[1..] == SortInsert(key, c, cells[1..]);
    }
  }

  lemma {:induction false} SortData<T>(key: Cell<T> -> int, dataKey: T -> int, cells: seq<Cell<T>>)
    requires forall d :: key(d) == dataKey(d.data)
    ensures Data(InsertionSort(key, cells)) == InsertionSort(dataKey, Data(cells))
  {
    if cells == [] {
    } else {
      SortData(key, dataKey, cells[1..]);
      InsertData(key, dataKey, cells[0], InsertionSort(key, cells[1..]));
      assert Data(cells)[1..] == Data(cells[1..]);
    }
  }

  lemma PushCell<T>(c: Cell<T>, head: Cell?<T>, cells: seq<Cell<T>>)
    requires Links(head, cells, null) && Once(multiset(cells)) && c !in cells && c.next == head
    ensures Links(c, [c] + cells, null) && Once(multiset([c] + cells))
    ensures Data([c] + cells) == [c.data] + Data(cells)
  {
    assert ([c] + cells)[1..] == cells;
    var m := multiset([c] + cells);
    assert m == multiset{c} + multiset(cells);
    forall d | d in m ensures m[d] == 1 {
      if d != c { assert d in multiset(cells); }
    }
  }

  /** Lays a list out as cells, by pushes in front. */
  method FromSeq<T>(s: seq<T>) returns (head: Cell?<T>, ghost cells: seq<Cell<T>>)
    ensures Links(head, cells, null) && Once(multiset(cells)) && Data(cells) == s
    ensures fresh(cells)
  {
    hide Once;
    head, cells := null, [];
    NoCells<T>();
    var i := |s|;
    while i > 0
      invariant 0 <= i <= |s|
      invariant Links(head, cells, null) && Once(multiset(cells)) && Data(cells) == s[i..]
      invariant fresh(cells)
    {
      i := i - 1;
      var c := new Cell(s[i], head);
      PushCell(c, head, cells);
      head, cells := c, [c] + cells;
      assert s[i..] == [s[i]] + s[i + 1..];
    }
  }

  lemma NoCells<T>()
    ensures Once<T>(multiset([]))
  {
  }

  /** Reads a list of cells from its head. */
  method ToSeq<T>(head: Cell?<T>, ghost cells: seq<Cell<T>>) returns (s: seq<T>)
    requires Links(head, cells, null)
    ensures s == Data(cells)
  {
    var cur := head;
    ghost var rest := cells;
    s := [];
    while cur != null
      invariant Links(cur, rest, null) && s + Data(rest) == Data(cells)
      decreases |rest|
    {
      Regroup(s, cur.data, Data(rest[1..]));
      s := s + [cur.data];
      cur, rest := cur.next, rest[1..];
    }
  }

  /** The merge sort of a list, run on its cells. */
  method MergeSort<T>(key: T -> int, s: seq<T>) returns (r: seq<T>)
    ensures r == InsertionSort(key, s)
  {
    hide Links, Once;
    var head, cells := FromSeq(s);
    var cellKey := (c: Cell<T>) => key(c.data);
    SortData(cellKey, key, cells);
    var sorted := SortCells(cellKey, head, cells);
    r := ToSeq(sorted, InsertionSort(cellKey, cells));
  }

  /** Ordered insertion in place. */
  method SortInsertCell<T>(key: Cell<T> -> int, head: Cell?<T>, c: Cell<T>, ghost cells: seq<Cell<T>>)
    returns (r: Cell<T>)
    requires Links(head, cells, null) && Once(multiset(cells)) && c !in cells
    modifies c, cells
    ensures Links(r, SortInsert(key, c, cells), null)
  {
    hide Links, Once;
    NextAt(head, cells, 0);
    if head == null || key(head) >= key(c) {
      c.next := head;
      LinksCons(c, cells);
      return c;
    }
    var cur: Cell<T> := head;
    ghost var i := 0;
    while cur.next != null && key(cur.next) < key(c)
      invariant Links(head, cells, null) && i < |cells| && cur == cells[i]
      invariant SortInsert(key, c, cells) == cells[..i + 1] + SortInsert(key, c, cells[i + 1..])
      decreases |cells| - i
    {
      NextAt(head, cells, i);
      StepInsert(key, c, cells, i + 1);
      cur, i := cur.next, i + 1;
    }
    NextAt(head, cells, i);
    LinkBehind(head, c, cur, cells, i);
    r := head;
  }

  /** Link a new cell in behind the cell at position `i`. */
  method LinkBehind<T>(head: Cell<T>, c: Cell<T>, cur: Cell<T>, ghost cells: seq<Cell<T>>, ghost i: nat)
    requires Links(head, cells, null) && Once(multiset(cells)) && c !in cells && i < |cells| && cur == cells[i]
    modifies c, cur
    ensures Links(head, cells[..i + 1] + ([c] + cells[i + 1..]), null)
  {
    hide Links, Once;
    ghost var front, rest := cells[..i], cells[i + 1..];
    NextAt(head, cells, i);
    LinksAt(head, cells, i);
    LinksAt(head, cells, i + 1);
    CutFrame(cells, i + 1);
    NotInParts(c, cells, i);
    c.next := cur.next;
    cur.next := c;
    LinksCons(c, rest);
    LinksSnoc(head, front, cur);
    LinksConcat(head, front + [cur], [c] + rest, c, null);
    assert front + [cur] == cells[..i + 1];
  }

  lemma NotInParts<T>(c: Cell<T>, cells: seq<Cell<T>>, i: nat)
    requires c !in cells && i < |cells|
    ensures c !in cells[..i] && c !in cells[i + 1..]
  {
  }

  lemma {:induction false} WithoutData<T>(key: Cell<T> -> int, dataKey: T -> int, value: int, cells: seq<Cell<T>>)
    requires forall d :: key(d) == dataKey(d.data)
    ensures Data(WithoutFirst(key, value, cells)) == WithoutFirst(dataKey, value, Data(cells))
  {
    if cells == [] {
    } else {
      assert Data(cells)[1..] == Data(cells[1..]);
      if key(cells[0]) != value {
        WithoutData(key, dataKey, value, cells[1..]);
        var rest := WithoutFirst(key, value, cells[1..]);
        assert ([cells[0]] + rest)[1..] == rest;
      }
    }
  }

  /** The recursive removal: cells before the removed one are linked again on the way back. The counter tells how
      many cells went. */
  method RemoveCell<T>(key: Cell<T> -> int, head: Cell?<T>, value: int, ghost cells: seq<Cell<T>>)
    returns (r: Cell?<T>, counter: nat)
    requires Links(head, cells, null) && Once(multiset(cells))
    modifies cells
    ensures Links(r, WithoutFirst(key, value, cells), null)
    ensures |WithoutFirst(key, value, cells)| == |cells| - counter
    decreases |cells|
  {
    hide Links, Once;
    LinksFirst(head, cells);
    if head == null {
      return null, 0;
    }
    if key(head) == value {
      return head.next, 1;
    }
    TailApart(cells);
    WithoutPart(key, value, cells[1..]);
    ghost var rest := WithoutFirst(key, value, cells[1..]);
    var next, removed := RemoveCell(key, head.next, value, cells[1..]);
    head.next := next;
    LinksCons(head, rest);
    r, counter := head, removed;
  }

  lemma TailApart<T>(cells: seq<Cell<T>>)
    requires Once(multiset(cells)) && cells != []
    ensures Once(multiset(cells[1..])) && cells[0] !in cells[1..]
    ensures forall i :: 0 <= i < |cells[1..]| ==> cells[1..][i] in cells
  {
    assert cells == [cells[0]] + cells[1..];
    forall c | c in multiset(cells[1..]) ensures multiset(cells[1..])[c] == 1 { assert c in multiset(cells); }
    assert multiset(cells)[cells[0]] == 1;
  }

  lemma LinksCons<T>(c: Cell<T>, cells: seq<Cell<T>>)
    requires Links(c.next, cells, null)
    ensures Links(c, [c] + cells, null)
  {
    assert ([c] + cells)[1..] == cells;
  }

  lemma {:induction false} DataLength<T>(cells: seq<Cell<T>>)
    ensures |Data(cells)| == |cells|
  {
    if cells == [] {
    } else {
      DataLength(cells[1..]);
    }
  }

  /** Removal of the first element that carries the given key, run on the list's cells; `len` follows. */
  method RemoveFirst<T>(key: T -> int, s: seq<T>, value: int) returns (r: seq<T>, len: nat)
    ensures r == WithoutFirst(key, value, s) && len == |r|
  {
    hide Links, Once;
    var head, cells := FromSeq(s);
    var cellKey := (c: Cell<T>) => key(c.data);
    WithoutData(cellKey, key, value, cells);
    DataLength(cells);
    DataLength(WithoutFirst(cellKey, value, cells));
    var rest, counter := RemoveCell(cellKey, head, value, cells);
    r := ToSeq(rest, WithoutFirst(cellKey, value, cells));
    len := |s| - counter;
  }
}
