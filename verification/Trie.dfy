/** The topic trie of trie.c. A node is named by the string that leads to it; the children list
    and the data slot of every node, and the size counter, are updated in place. */
module Tries {
  import opened Bytes
  import Lists
  import LinkedLists
  import TS = TrieSpec

  type Links = map<Str, seq<byte>>

  /** Every node but the root is listed by its parent. */
  ghost predicate Linked(children: Links) {
    forall p: Str, c: byte {:trigger p + [c] in children} ::
      p + [c] in children ==> p in children && c in Lists.Elems(children[p])
  }

  /** Every listed child is a node. */
  ghost predicate Closed(children: Links) {
    forall p: Str, c: byte {:trigger c in Lists.Elems(children[p])} ::
      p in children && c in Lists.Elems(children[p]) ==> p + [c] in children
  }

  ghost predicate Shape(children: Links) {
    && [] in children && Linked(children) && Closed(children)
    && forall p :: p in children ==> Lists.Ascending(Signed, children[p])
  }

  lemma SnocInjective(p: Str, c: byte, q: Str, d: byte)
    requires p + [c] == q + [d]
    ensures p == q && c == d
  {
    assert p == (p + [c])[..|p|] && q == (q + [d])[..|q|];
    assert (p + [c])[|p|] == c;
  }

  lemma LinkedWithChild(children: Links, p: Str, c: byte, kids: seq<byte>)
    requires Linked(children) && p in children && p + [c] !in children
    requires Lists.Elems(kids) == {c} + Lists.Elems(children[p])
    ensures Linked(children[p := kids][p + [c] := []])
  {
    var after := children[p := kids][p + [c] := []];
    forall q: Str, d: byte {:trigger q + [d] in after} | q + [d] in after
      ensures q in after && d in Lists.Elems(after[q])
    {
      if q + [d] == p + [c] { SnocInjective(q, d, p, c); }
    }
  }

  lemma ClosedWithChild(children: Links, p: Str, c: byte, kids: seq<byte>)
    requires Closed(children) && p in children && p + [c] !in children
    requires Lists.Elems(kids) == {c} + Lists.Elems(children[p])
    ensures Closed(children[p := kids][p + [c] := []])
  {
  }

  /** Drop the node `p + [c]` and give its parent the list `kids`. */
  function Unlink(children: Links, p: Str, c: byte, kids: seq<byte>): Links {
    (map q | q in children && q != p + [c] :: children[q])[p := kids]
  }

  lemma LinkedWithoutLeaf(children: Links, p: Str, c: byte, kids: seq<byte>)
    requires Linked(children) && p + [c] in children && children[p + [c]] == []
    requires Lists.Elems(kids) == Lists.Elems(children[p]) - {c}
    ensures Linked(Unlink(children, p, c, kids))
  {
    var after := Unlink(children, p, c, kids);
    forall q: Str, d: byte {:trigger q + [d] in after} | q + [d] in after
      ensures q in after && d in Lists.Elems(after[q])
    {
      assert q + [d] in children;
    }
  }

  lemma ClosedWithoutLeaf(children: Links, p: Str, c: byte, kids: seq<byte>)
    requires Closed(children) && p in children
    requires Lists.Elems(kids) == Lists.Elems(children[p]) - {c}
    ensures Closed(Unlink(children, p, c, kids))
  {
    var after := Unlink(children, p, c, kids);
    forall q: Str, d: byte {:trigger d in Lists.Elems(after[q])} | q in after && d in Lists.Elems(after[q])
      ensures q + [d] in after
    {
      if q + [d] == p + [c] { SnocInjective(q, d, p, c); }
    }
  }

  /** The nodes determine every children list, so tries with equal states are structurally equal. */
  lemma NodesDetermineLists(a: Links, b: Links)
    requires Shape(a) && Shape(b) && a.Keys == b.Keys
    ensures a == b
  {
    forall p | p in a ensures a[p] == b[p] {
      forall c: byte ensures c in Lists.Elems(a[p]) <==> c in Lists.Elems(b[p]) {
        assert c in Lists.Elems(a[p]) <==> p + [c] in a;
        assert c in Lists.Elems(b[p]) <==> p + [c] in b;
      }
      Lists.AscendingUnique(Signed, a[p], b[p]);
    }
  }

  method WithoutChar(kids: seq<byte>, c: byte) returns (r: seq<byte>)
    requires Lists.Ascending(Signed, kids)
    ensures Lists.Ascending(Signed, r) && Lists.Elems(r) == Lists.Elems(kids) - {c}
  {
    var rest, _ := LinkedLists.RemoveFirst(Signed, kids, Signed(c));
    r := rest;
    Lists.WithoutAscending(Signed, Signed(c), kids);
  }

  /** The subtree at `p` has been released: its top node remains, empty, and nothing else changed. */
  ghost predicate Freed<V>(kids: Links, m: map<Str, V>, p: Str, kids': Links, m': map<Str, V>) {
    && (forall q :: q in kids' <==> q in kids && !TS.Below(p, q))
    && (forall q :: q in kids' && q != p ==> kids'[q] == kids[q])
    && (forall q :: q in m' <==> q in m && !(p <= q))
    && (forall q :: q in m' ==> m'[q] == m[q])
  }

  /** The branches of `p` through `done` have been released. */
  ghost predicate Released<V>(kids: Links, m: map<Str, V>, p: Str, done: set<byte>, kids': Links, m': map<Str, V>) {
    && (forall q :: q in kids' <==> q in kids && !(TS.Branch(p, done, q) && |q| > |p| + 1))
    && (forall q :: q in kids' && !TS.Branch(p, done, q) ==> kids'[q] == kids[q])
    && (forall q :: q in m' <==> q in m && !TS.Branch(p, done, q))
    && (forall q :: q in m' ==> m'[q] == m[q])
  }

  lemma ReleasedStep<V>(kids0: Links, m0: map<Str, V>, p: Str, done: set<byte>, c: byte,
                        kids1: Links, m1: map<Str, V>, kids2: Links, m2: map<Str, V>)
    requires Released(kids0, m0, p, done, kids1, m1) && Freed(kids1, m1, p + [c], kids2, m2)
    ensures Released(kids0, m0, p, done + {c}, kids2, m2)
  {
    forall q: Str
      ensures p + [c] <= q <==> TS.Branch(p, {c}, q)
      ensures TS.Below(p + [c], q) <==> TS.Branch(p, {c}, q) && |q| > |p| + 1
      ensures TS.Branch(p, done + {c}, q) <==> TS.Branch(p, done, q) || TS.Branch(p, {c}, q)
    {
      TS.BranchOfChild(p, c, q);
      if p + [c] <= q && |q| == |p| + 1 { assert q == p + [c]; }
    }
  }

  lemma ReleasedAll<V>(kids0: Links, m0: map<Str, V>, p: Str, chars: set<byte>,
                       kids1: Links, m1: map<Str, V>, kids2: Links, m2: map<Str, V>)
    requires Released(kids0, m0, p, chars, kids1, m1)
    requires m0.Keys <= kids0.Keys && forall q :: q in kids0 && TS.Below(p, q) ==> TS.Branch(p, chars, q)
    requires forall q :: q in kids2 <==> q in kids1 && !TS.Below(p, q)
    requires forall q :: q in kids2 && q != p ==> kids2[q] == kids1[q]
    requires m2 == TS.Minus(m1, p)
    ensures Freed(kids0, m0, p, kids2, m2)
  {
  }

  lemma ReleasedData<V>(kids0: Links, m0: map<Str, V>, p: Str, chars: set<byte>, kids1: Links, m1: map<Str, V>)
    requires Released(kids0, m0, p, chars, kids1, m1)
    requires m0.Keys <= kids0.Keys && forall q :: q in kids0 && TS.Below(p, q) ==> TS.Branch(p, chars, q)
    ensures forall q :: q in m1 <==> q in m0 && !TS.Below(p, q)
    ensures forall q :: q in m1 ==> m1[q] == m0[q]
    ensures forall q :: !TS.Below(p, q) ==> (q in kids1 <==> q in kids0)
    ensures forall q :: TS.Below(p, q) && q in kids1 ==> |q| == |p| + 1
    ensures forall c: byte :: p + [c] in kids0 ==> p + [c] in kids1
  {
  }

  /** The head of a strictly sorted list occurs once. */
  lemma HeadApart(kids: seq<byte>)
    requires kids != [] && Lists.Ascending(Signed, kids)
    ensures Lists.Ascending(Signed, kids[1..]) && Lists.Elems(kids[1..]) == Lists.Elems(kids) - {kids[0]}
  {
    if kids[0] in Lists.Elems(kids[1..]) { Lists.AscendingHead(Signed, kids, kids[0]); }
  }

  lemma ElemsShift(done: set<byte>, rest: seq<byte>)
    requires rest != []
    ensures done + Lists.Elems(rest) == done + {rest[0]} + Lists.Elems(rest[1..])
  {
  }

  class Trie<V> {
    var children: map<Str, seq<byte>>
    var data: map<Str, V>
    var size: nat

    ghost predicate Valid()
      reads this
    {
      Shape(children) && data.Keys <= children.Keys && size == |data|
    }

    ghost function State(): TS.State<V>
      reads this
    {
      TS.State(children.Keys, data)
    }

    lemma StateWellFormed()
      requires Valid()
      ensures TS.WellFormed(State())
    {
    }

    constructor ()
      ensures Valid() && State() == TS.Empty()
    {
      children, data, size := map[[] := []], map[], 0;
      new;
      assert forall p: Str, c: byte :: p + [c] != [];
    }

    // ---------- Insertion and search ----------

    /** Search the children list of `p` for the character `c`. */
    method HasChild(p: Str, c: byte) returns (found: bool)
      requires Valid() && p in children
      ensures found <==> p + [c] in children
    {
      var index := Lists.LinearSearch(Signed, children[p], Signed(c));
      found := index >= 0;
      if found { assert c in Lists.Elems(children[p]); }
    }

    /** The child of `p` for `c`; when missing it is pushed in front of the list, which is then sorted. */
    method EnsureChild(p: Str, c: byte)
      requires Valid() && p in children
      modifies this`children
      ensures Valid()
      ensures forall q :: q in children <==> q in old(children) || q == p + [c]
    {
      var found := HasChild(p, c);
      if !found {
        assert c !in Lists.Elems(children[p]);
        Lists.PushThenSortStrict(Signed, c, children[p]);
        var kids := LinkedLists.MergeSort(Signed, [c] + children[p]);
        LinkedWithChild(children, p, c, kids);
        ClosedWithChild(children, p, c, kids);
        children := children[p := kids][p + [c] := []];
      }
    }

    /** Walk down, creating the nodes that are missing. */
    method GrowTo(key: Str)
      requires Valid()
      modifies this`children
      ensures Valid() && key in children && TS.Grown(old(children.Keys), key, children.Keys)
    {
      var i, cursor := 0, [];
      while i < |key|
        invariant 0 <= i <= |key| && cursor == key[..i]
        invariant Valid() && cursor in children && TS.Grown(old(children.Keys), cursor, children.Keys)
      {
        ghost var paths := children.Keys;
        EnsureChild(cursor, key[i]);
        TS.GrownStep(old(children.Keys), cursor, key[i], paths, children.Keys);
        i, cursor := i + 1, cursor + [key[i]];
      }
      assert cursor == key;
    }

    method Insert(key: Str, v: V)
      requires Valid()
      modifies this
      ensures Valid() && State() == TS.Insert(old(State()), key, v)
    {
      GrowTo(key);
      SetData(key, v);
    }

    /** Store the data of an existing node, counting it when it had none. */
    method SetData(p: Str, v: V)
      requires Valid() && p in children
      modifies this`data, this`size
      ensures Valid() && data == old(data)[p := v]
    {
      if p !in data {
        size := size + 1;
      }
      assert data[p := v].Keys == data.Keys + {p};
      data := data[p := v];
    }

    /** Walk down; the node exists exactly when its path does. */
    method FindNode(key: Str) returns (found: bool)
      requires Valid()
      ensures found <==> key in children
    {
      var i, cursor := 0, [];
      while i < |key|
        invariant 0 <= i <= |key| && cursor == key[..i] && cursor in children
      {
        found := HasChild(cursor, key[i]);
        i, cursor := i + 1, cursor + [key[i]];
        if !found {
          StateWellFormed();
          if key in children { TS.PrefixInPaths(State(), key, cursor); }
          return;
        }
      }
      assert cursor == key;
      return true;
    }

    method Find(key: Str) returns (r: Option<V>)
      requires Valid()
      ensures r == if key in data then Some(data[key]) else None
    {
      var found := FindNode(key);
      r := if found && key in data then Some(data[key]) else None;
    }

    // ---------- Deletion ----------

    /** Unlink a childless child. */
    method DropLeaf(p: Str, c: byte)
      requires Valid() && p + [c] in children && children[p + [c]] == [] && p + [c] !in data
      modifies this`children
      ensures Valid()
      ensures forall q :: q in children <==> q in old(children) && q != p + [c]
    {
      var kids := WithoutChar(children[p], c);
      LinkedWithoutLeaf(children, p, c, kids);
      ClosedWithoutLeaf(children, p, c, kids);
      children := Unlink(children, p, c, kids);
    }

    /** Forget the data of a node that has some. */
    method ClearData(p: Str)
      requires Valid() && p in data
      modifies this`data, this`size
      ensures Valid() && data == TS.Minus(old(data), p)
    {
      TS.MinusSize(data, p);
      data := map q | q in data && q != p :: data[q];
      if size > 0 {
        size := size - 1;
      }
    }

    lemma NoChildrenIff(p: Str)
      requires Valid() && p in children
      ensures children[p] == [] <==> forall c: byte :: p + [c] !in children
    {
      if children[p] != [] {
        Lists.ElemsMember(children[p], children[p][0]);
      }
    }

    /** The end of the walk: drop the data, if any, and say whether the node is now free. */
    method DeleteHere(key: Str) returns (free: bool, found: bool)
      requires Valid() && key in children
      modifies this`data, this`size
      ensures Valid() && data == TS.Minus(old(data), key)
      ensures found <==> key in old(data)
      ensures free <==> found && TS.OnlyHolds(old(State()), key, |key|)
      ensures free ==> children[key] == []
    {
      free, found := false, key in data;
      TS.MinusSize(data, key);
      if found {
        StateWellFormed();
        TS.OnlyHoldsAtEnd(State(), key);
        TS.ChildlessIff(State(), key);
        NoChildrenIff(key);
        ClearData(key);
        free := |children[key]| == 0;
      }
    }

    /** Recursive deletion below the node `key[..i]`; `prune` asks the caller to drop that node. */
    method DeleteFrom(key: Str, i: nat) returns (prune: bool, found: bool)
      requires Valid() && i <= |key| && key[..i] in children
      modifies this
      ensures Valid() && key[..i] in children
      ensures found <==> key in old(data)
      ensures data == TS.Minus(old(data), key)
      ensures forall q :: q in children <==> q in old(children) && !(found && TS.Pruned(old(State()), key, i, q))
      ensures prune <==> found && TS.OnlyHolds(old(State()), key, i)
      ensures prune ==> key[..i] !in data && children[key[..i]] == []
      decreases |key| - i
    {
      ghost var before := State();
      var node := key[..i];
      if i == |key| {
        assert node == key;
        prune, found := DeleteHere(key);
        return;
      }
      StateWellFormed();
      assert key[..i + 1] == node + [key[i]];
      var present := HasChild(node, key[i]);
      if !present {
        if key in data { TS.PrefixInPaths(before, key, key[..i + 1]); }
        TS.MinusSize(data, key);
        return false, false;
      }
      prune, found := DeleteFrom(key, i + 1);
      if found {
        TS.PrunedAre(before, key, i, node);
        TS.OnlyHoldsStep(before, key, i);
      }
      if prune {
        prune := PruneChild(key, i, before);
      }
    }

    /** Drop the emptied child on the way to `key` and say whether its parent is now free as well. */
    method PruneChild(key: Str, i: nat, ghost before: TS.State<V>) returns (free: bool)
      requires Valid() && i < |key| && key[..i] in children
      requires TS.WellFormed(before) && key in before.data && TS.OnlyHolds(before, key, i + 1)
      requires data == TS.Minus(before.data, key)
      requires forall q :: q in children <==> q in before.paths && !TS.Pruned(before, key, i + 1, q)
      requires key[..i] + [key[i]] in children && children[key[..i] + [key[i]]] == []
      requires key[..i] + [key[i]] !in data
      modifies this`children
      ensures Valid()
      ensures forall q :: q in children <==> q in old(children) && q != key[..i] + [key[i]]
      ensures free <==> TS.OnlyHolds(before, key, i)
      ensures key[..i] in children && (free ==> key[..i] !in data && children[key[..i]] == [])
    {
      var node := key[..i];
      DropLeaf(node, key[i]);
      TS.ParentGoesToo(before, key, i, children.Keys);
      NoChildrenIff(node);
      free := node !in data && |children[node]| == 0;
    }

    method Delete(key: Str) returns (found: bool)
      requires Valid()
      modifies this
      ensures Valid() && State() == TS.Delete(old(State()), key)
      ensures found <==> key != [] && key in old(data)
    {
      found := false;
      if |key| > 0 {
        assert key[..0] == [];
        var _, f := DeleteFrom(key, 0);
        found := f;
        TS.MinusSize(old(data), key);
      }
    }

    // ---------- Releasing subtrees ----------

    ghost predicate Bounded(depth: nat)
      reads this
    {
      forall q :: q in children ==> |q| <= depth
    }

    /** Whatever lies below `p` lies below one of its listed children. */
    lemma EverythingBelow(p: Str)
      requires Valid() && p in children
      ensures forall q :: q in children && TS.Below(p, q) ==> TS.Branch(p, Lists.Elems(children[p]), q)
    {
      StateWellFormed();
      forall q | q in children && TS.Below(p, q) ensures TS.Branch(p, Lists.Elems(children[p]), q) {
        TS.ExtendsThroughChild(p, q);
        TS.PrefixInPaths(State(), q, p + [q[|p|]]);
      }
    }

    /** Release the emptied children of `p`, one list cell after the other: its children list becomes empty. */
    method ClearList(p: Str)
      requires Valid() && p in children
      requires forall q :: q in children && TS.Below(p, q) ==> |q| == |p| + 1 && q !in data
      modifies this`children
      ensures Valid() && p in children && children[p] == []
      ensures forall q :: q in children <==> q in old(children) && !TS.Below(p, q)
      ensures forall q :: q in children && q != p ==> children[q] == old(children)[q]
    {
      while children[p] != []
        invariant Valid() && p in children
        invariant forall q :: q in children ==> q in old(children)
        invariant forall q :: q in old(children) && !TS.Below(p, q) ==> q in children
        invariant forall q :: q in children && q != p ==> children[q] == old(children)[q]
        decreases |children[p]|
      {
        ReleaseHead(p);
      }
      EverythingBelow(p);
    }

    /** Release the first cell of a children list, and the childless node in it. */
    method ReleaseHead(p: Str)
      requires Valid() && p in children && children[p] != []
      requires forall q :: q in children && TS.Below(p, q) ==> |q| == |p| + 1 && q !in data
      modifies this`children
      ensures Valid() && p in children && children[p] == old(children[p])[1..]
      ensures forall q :: q in children <==> q in old(children) && q != p + [old(children[p])[0]]
      ensures forall q :: q in children && q != p ==> children[q] == old(children)[q]
    {
      var c, kids := children[p][0], children[p][1..];
      assert c in Lists.Elems(children[p]);
      assert p + [c] in children && TS.Below(p, p + [c]);
      NoGrandchildren(p, c);
      HeadApart(children[p]);
      LinkedWithoutLeaf(children, p, c, kids);
      ClosedWithoutLeaf(children, p, c, kids);
      children := Unlink(children, p, c, kids);
    }

    lemma NoGrandchildren(p: Str, c: byte)
      requires Valid() && p in children && p + [c] in children
      requires forall q :: q in children && TS.Below(p, q) ==> |q| == |p| + 1
      ensures children[p + [c]] == []
    {
      NoChildrenIff(p + [c]);
      forall d: byte ensures p + [c] + [d] !in children {
        assert TS.Below(p, p + [c] + [d]);
      }
    }

    /** Free the subtree at `p`; until its parent unlinks it, the node stays as an empty leaf. */
    method NodeFree(p: Str, ghost depth: nat)
      requires Valid() && p in children && Bounded(depth)
      modifies this
      ensures Valid() && p in children && children[p] == []
      ensures Freed(old(children), old(data), p, children, data)
      decreases depth - |p|, 1
    {
      EverythingBelow(p);
      FreeChildren(p, depth);
      EmptyNode(p, old(children), old(data), Lists.Elems(old(children[p])));
    }

    /** The rest of the release: the children list, then the data. */
    method EmptyNode(p: Str, ghost kids0: Links, ghost m0: map<Str, V>, ghost chars: set<byte>)
      requires Valid() && p in children && Released(kids0, m0, p, chars, children, data)
      requires m0.Keys <= kids0.Keys && forall q :: q in kids0 && TS.Below(p, q) ==> TS.Branch(p, chars, q)
      modifies this
      ensures Valid() && p in children && children[p] == [] && Freed(kids0, m0, p, children, data)
    {
      ReleasedData(kids0, m0, p, chars, children, data);
      ClearList(p);
      if p in data {
        ClearData(p);
      } else {
        TS.MinusSize(data, p);
      }
      ReleasedAll(kids0, m0, p, chars, old(children), old(data), children, data);
    }

    /** Free every child of `p` in list order, leaving the list itself in place. */
    method FreeChildren(p: Str, ghost depth: nat)
      requires Valid() && p in children && Bounded(depth)
      modifies this
      ensures Valid() && p in children
      ensures Released(old(children), old(data), p, Lists.Elems(old(children[p])), children, data)
      decreases depth - |p|, 0
    {
      var rest := children[p];
      ghost var done: set<byte> := {};
      while rest != []
        invariant Valid() && p in children && Bounded(depth)
        invariant Lists.Elems(old(children[p])) == done + Lists.Elems(rest)
        invariant Released(old(children), old(data), p, done, children, data)
        decreases |rest|
      {
        ElemsShift(done, rest);
        FreeChild(p, rest[0], old(children), old(data), done, depth);
        done, rest := done + {rest[0]}, rest[1..];
      }
    }

    method FreeChild(p: Str, c: byte, ghost kids: Links, ghost m: map<Str, V>, ghost done: set<byte>, ghost depth: nat)
      requires Valid() && Bounded(depth) && p in children && p in kids && c in Lists.Elems(kids[p])
      requires Released(kids, m, p, done, children, data)
      modifies this
      ensures Valid() && Bounded(depth) && p in children && Released(kids, m, p, done + {c}, children, data)
      decreases depth - |p|, 0, 0
    {
      assert p + [c] in children;
      NodeFree(p + [c], depth);
      ReleasedStep(kids, m, p, done, c, old(children), old(data), children, data);
    }

    /** Remove every key with the given prefix. An inner prefix node stays behind, emptied. */
    method PrefixDelete(prefix: Str)
      requires Valid()
      modifies this
      ensures Valid() && State() == TS.PrefixDelete(old(State()), prefix)
    {
      var found := FindNode(prefix);
      if !found {
        return;
      }
      StateWellFormed();
      TS.ChildlessIff(State(), prefix);
      NoChildrenIff(prefix);
      if |children[prefix]| == 0 {
        var _ := Delete(prefix);
        return;
      }
      ClearBelow(prefix);
    }

    /** Free the children, delete the prefix key while its list still looks full, then clear the list. */
    method ClearBelow(prefix: Str)
      requires Valid() && prefix in children && children[prefix] != []
      modifies this
      ensures Valid()
      ensures forall q :: q in children <==> q in old(children) && !TS.Below(prefix, q)
      ensures forall q :: q in data <==> q in old(data) && !(prefix <= q && q != [])
      ensures forall q :: q in data ==> data[q] == old(data)[q]
    {
      hide Released;
      ghost var depth := TS.LongestPath(children.Keys);
      var c := children[prefix][0];
      Lists.ElemsMember(children[prefix], c);
      EverythingBelow(prefix);
      FreeChildren(prefix, depth);
      ReleasedData(old(children), old(data), prefix, Lists.Elems(old(children[prefix])), children, data);
      DeleteFull(prefix, c);
      ClearList(prefix);
    }

    /** Delete a key whose node still lists a child: only its data goes. */
    method DeleteFull(key: Str, ghost c: byte)
      requires Valid() && key + [c] in children
      modifies this
      ensures Valid() && children.Keys == old(children.Keys)
      ensures forall q :: q in data <==> q in old(data) && (q == key ==> key == [])
      ensures forall q :: q in data ==> data[q] == old(data)[q]
    {
      TS.DeleteWithChild(State(), key, c);
      var _ := Delete(key);
    }

    // ---------- Post-order map over a subtree ----------

    /** The nodes under `prefix`, in the order in which the mapped function is applied to them. */
    method PrefixMap(prefix: Str) returns (visits: seq<Str>)
      requires Valid()
      ensures TS.IsPostOrder(children.Keys, prefix, visits)
    {
      var found := FindNode(prefix);
      if !found {
        StateWellFormed();
        forall q | q in children ensures !(prefix <= q) {
          if prefix <= q { TS.PrefixInPaths(State(), q, prefix); }
        }
        return [];
      }
      ghost var depth := TS.LongestPath(children.Keys);
      visits := MapFrom(prefix, depth);
    }

    method MapFrom(p: Str, ghost depth: nat) returns (visits: seq<Str>)
      requires Valid() && p in children && Bounded(depth)
      ensures TS.IsPostOrder(children.Keys, p, visits)
      decreases depth - |p|
    {
      EverythingBelow(p);
      visits := [];
      var rest := children[p];
      ghost var done: set<byte> := {};
      while rest != []
        invariant Lists.Ascending(Signed, rest)
        invariant Lists.Elems(children[p]) == done + Lists.Elems(rest)
        invariant forall c, d :: c in done && d in Lists.Elems(rest) ==> Signed(c) < Signed(d)
        invariant TS.IsBranchOrder(children.Keys, p, done, visits)
        decreases |rest|
      {
        var c := rest[0];
        ElemsShift(done, rest);
        assert c in Lists.Elems(children[p]);
        var sub := MapFrom(p + [c], depth);
        TS.BranchOrderStep(children.Keys, p, done, c, visits, sub);
        forall d | d in Lists.Elems(rest[1..]) ensures Signed(c) < Signed(d) {
          Lists.AscendingHead(Signed, rest, d);
        }
        visits := visits + sub;
        done, rest := done + {c}, rest[1..];
      }
      TS.BranchOrderEnd(children.Keys, p, done, visits);
      visits := visits + [p];
    }
  }
}
