/** What the topic trie means: the set of paths that have a node and the finite map of stored data.
    Children are kept sorted, so the two together determine the whole structure. */
module TrieSpec {
  import opened Bytes

  datatype State<V> = State(paths: set<Str>, data: map<Str, V>)

  ghost predicate WellFormed<V>(s: State<V>) {
    && [] in s.paths
    && (forall p: Str, c: byte {:trigger p + [c] in s.paths} :: p + [c] in s.paths ==> p in s.paths)
    && s.data.Keys <= s.paths
  }

  function Empty<V>(): State<V> {
    State({[]}, map[])
  }

  ghost function Prefixes(k: Str): set<Str> {
    if k == [] then {[]} else Prefixes(k[..|k| - 1]) + {k}
  }

  /** Nothing but the way to `k` lives at or below its prefix of length `i`. */
  ghost predicate OnlyHolds<V>(s: State<V>, k: Str, i: nat)
    requires i <= |k|
  {
    && (forall q :: q in s.paths && k[..i] <= q ==> q <= k)
    && (forall q :: q in s.data && k[..i] <= q ==> q == k)
  }

  /** `q` is a node that goes away with `k`, looking no higher than depth `from`. */
  ghost predicate Pruned<V>(s: State<V>, k: Str, from: nat, q: Str)
    decreases |k| - from
  {
    from < |k| && (Pruned(s, k, from + 1, q) || (q == k[..from + 1] && OnlyHolds(s, k, from + 1)))
  }

  ghost function Minus<V>(m: map<Str, V>, k: Str): map<Str, V> {
    map q | q in m && q != k :: m[q]
  }

  ghost function Insert<V>(s: State<V>, k: Str, v: V): State<V> {
    State(s.paths + Prefixes(k), s.data[k := v])
  }

  ghost function Delete<V>(s: State<V>, k: Str): State<V> {
    if k == [] || k !in s.data then s
    else State((set q | q in s.paths && !Pruned(s, k, 0, q)), Minus(s.data, k))
  }

  ghost predicate Childless<V>(s: State<V>, p: Str) {
    forall q :: q in s.paths && p <= q ==> q == p
  }

  /** `q` is strictly below `p`. */
  predicate Below(p: Str, q: Str) {
    p <= q && q != p
  }

  ghost function Above(keys: set<Str>, p: Str): set<Str> {
    set q | q in keys && p <= q
  }

  ghost function PrefixDelete<V>(s: State<V>, p: Str): State<V> {
    if p !in s.paths then s
    else if Childless(s, p) then Delete(s, p)
    else State((set q | q in s.paths && !Below(p, q)), map q | q in s.data && !(p <= q && q != []) :: s.data[q])
  }

  lemma {:induction false} PathsPrefixClosed<V>(s: State<V>, p: Str, i: nat)
    requires WellFormed(s) && p in s.paths && i <= |p|
    ensures p[..i] in s.paths
    decreases |p|
  {
    if i == |p| {
      assert p[..i] == p;
    } else {
      var parent := p[..|p| - 1];
      assert p == parent + [p[|p| - 1]];
      PathsPrefixClosed(s, parent, i);
      assert parent[..i] == p[..i];
    }
  }

  lemma PrefixInPaths<V>(s: State<V>, q: Str, p: Str)
    requires WellFormed(s) && q in s.paths && p <= q
    ensures p in s.paths
  {
    PathsPrefixClosed(s, q, |p|);
    assert q[..|p|] == p;
  }

  lemma {:induction false} PrefixesAre(k: Str, p: Str)
    ensures p in Prefixes(k) <==> p <= k
  {
    if k == [] {
    } else {
      PrefixesAre(k[..|k| - 1], p);
      if p <= k && |p| < |k| {
        assert p <= k[..|k| - 1];
      } else if p <= k {
        assert p == k;
      }
    }
  }

  lemma MinusSize<V>(m: map<Str, V>, k: Str)
    ensures |Minus(m, k)| == if k in m then |m| - 1 else |m|
    ensures k !in m ==> Minus(m, k) == m
  {
    assert Minus(m, k).Keys == m.Keys - {k};
  }

  /** The paths of `t` are those of `s` and the way to `k`. */
  ghost predicate Grown(s: set<Str>, k: Str, t: set<Str>) {
    forall q :: q in t <==> q in s || q in Prefixes(k)
  }

  lemma GrownStep(s: set<Str>, p: Str, c: byte, t: set<Str>, u: set<Str>)
    requires Grown(s, p, t) && forall q :: q in u <==> q in t || q == p + [c]
    ensures Grown(s, p + [c], u)
  {
    assert (p + [c])[..|p|] == p;
  }

  // ---------- Every operation keeps the structure well formed ----------

  lemma InsertWellFormed<V>(s: State<V>, k: Str, v: V)
    requires WellFormed(s)
    ensures WellFormed(Insert(s, k, v))
  {
    var t := Insert(s, k, v);
    PrefixesAre(k, []);
    PrefixesAre(k, k);
    forall p: Str, c: byte | p + [c] in t.paths ensures p in t.paths {
      PrefixesAre(k, p + [c]);
      PrefixesAre(k, p);
      assert p <= p + [c];
    }
  }

  lemma {:induction false} PrunedAre<V>(s: State<V>, k: Str, from: nat, p: Str)
    ensures Pruned(s, k, from, p) <==> p <= k && from < |p| && OnlyHolds(s, k, |p|)
    decreases |k| - from
  {
    if from >= |k| {
    } else {
      PrunedAre(s, k, from + 1, p);
      if p <= k && |p| == from + 1 {
        assert p == k[..from + 1];
      }
    }
  }

  lemma ExtendsThroughChild(p: Str, q: Str)
    requires p <= q && p != q
    ensures p + [q[|p|]] <= q && q[..|p| + 1] == p + [q[|p|]]
  {
    assert q[..|p| + 1] == p + [q[|p|]];
  }

  /** A node has nothing below it exactly when it has no children. */
  lemma ChildlessIff<V>(s: State<V>, p: Str)
    requires WellFormed(s) && p in s.paths
    ensures Childless(s, p) <==> forall c: byte :: p + [c] !in s.paths
  {
    if Childless(s, p) {
      forall c: byte ensures p + [c] !in s.paths {
        assert p <= p + [c] && |p + [c]| != |p|;
      }
    } else {
      var q :| q in s.paths && p <= q && q != p;
      ExtendsThroughChild(p, q);
      PrefixInPaths(s, q, p + [q[|p|]]);
    }
  }

  lemma OnlyHoldsAtEnd<V>(s: State<V>, k: Str)
    requires WellFormed(s) && k in s.data
    ensures OnlyHolds(s, k, |k|) <==> Childless(s, k)
  {
    assert k[..|k|] == k;
    if Childless(s, k) {
      forall q | q in s.paths && k <= q ensures q <= k { assert q == k; }
      forall q | q in s.data && k <= q ensures q == k { assert q in s.paths; }
    }
  }

  /** One step up: nothing else at this node, and no other child. */
  lemma OnlyHoldsStep<V>(s: State<V>, k: Str, i: nat)
    requires WellFormed(s) && i < |k| && k in s.paths
    ensures OnlyHolds(s, k, i) <==>
              OnlyHolds(s, k, i + 1) && k[..i] !in s.data &&
              forall c: byte :: k[..i] + [c] in s.paths ==> c == k[i]
  {
    var p, p' := k[..i], k[..i + 1];
    assert p' == p + [k[i]];
    if OnlyHolds(s, k, i) {
      forall c: byte | p + [c] in s.paths ensures c == k[i] {
        assert p <= p + [c];
        assert (p + [c])[i] == k[i];
      }
      assert p in s.data ==> p == k;
    } else if k[..i] !in s.data && forall c: byte :: p + [c] in s.paths ==> c == k[i] {
      forall q | q in s.paths && p <= q && q != p ensures p' <= q {
        ExtendsThroughChild(p, q);
        PrefixInPaths(s, q, p + [q[i]]);
      }
      assert p <= k;
    }
  }

  /** After the child on the way to `k` is dropped, its parent goes too exactly when it has no data and no child. */
  lemma ParentGoesToo<V>(s: State<V>, k: Str, i: nat, left: set<Str>)
    requires WellFormed(s) && i < |k| && k in s.data && OnlyHolds(s, k, i + 1)
    requires forall q :: q in left <==> q in s.paths && !Pruned(s, k, i + 1, q) && q != k[..i] + [k[i]]
    ensures OnlyHolds(s, k, i) <==> k[..i] !in Minus(s.data, k) && forall c: byte :: k[..i] + [c] !in left
  {
    OnlyHoldsStep(s, k, i);
    var p := k[..i];
    forall c: byte ensures p + [c] in left <==> p + [c] in s.paths && c != k[i] {
      PrunedAre(s, k, i + 1, p + [c]);
      assert (p + [c])[i] == c && (p + [k[i]])[i] == k[i];
    }
  }

  lemma DeleteWellFormed<V>(s: State<V>, k: Str)
    requires WellFormed(s)
    ensures WellFormed(Delete(s, k))
  {
    if k != [] && k in s.data {
      var t := Delete(s, k);
      PrunedAre(s, k, 0, []);
      forall p: Str, c: byte | p + [c] in t.paths ensures p in t.paths {
        PrunedAre(s, k, 0, p + [c]);
        PrunedAre(s, k, 0, p);
      }
      forall p | p in t.data ensures p in t.paths {
        PrunedAre(s, k, 0, p);
      }
    }
  }

  lemma PrefixDeleteWellFormed<V>(s: State<V>, p: Str)
    requires WellFormed(s)
    ensures WellFormed(PrefixDelete(s, p))
  {
    DeleteWellFormed(s, p);
  }

  /** A node that still has a child is not pruned when its data goes. */
  lemma DeleteWithChild<V>(s: State<V>, k: Str, c: byte)
    requires k + [c] in s.paths
    ensures Delete(s, k).paths == s.paths
  {
    forall q | q in s.paths ensures !Pruned(s, k, 0, q) {
      PrunedAre(s, k, 0, q);
      if q <= k {
        assert k[..|q|] == q <= k + [c];
      }
    }
  }

  // ---------- Agreement with a plain finite map ----------

  /** Deletion is map removal, except that the empty key cannot be deleted. */
  lemma DeleteIsMapRemoval<V>(s: State<V>, k: Str)
    ensures Delete(s, k).data == Minus(s.data, k) <==> k != [] || [] !in s.data
  {
    if k == [] && [] in s.data {
      assert [] !in Minus(s.data, k);
    }
  }

  /** Prefix deletion removes exactly the keys with that prefix, except that the empty key stays. */
  lemma PrefixDeleteIsMapRemoval<V>(s: State<V>, p: Str)
    requires WellFormed(s)
    ensures PrefixDelete(s, p).data == s.data - Above(s.data.Keys, p) <==> p != [] || [] !in s.data
  {
    if p !in s.paths {
      forall q | q in s.data ensures !(p <= q) {
        if p <= q { PrefixInPaths(s, q, p); }
      }
    } else if Childless(s, p) {
      DeleteIsMapRemoval(s, p);
      forall q | q in s.data ensures q in Above(s.data.Keys, p) ==> q == p {
      }
      assert s.data - Above(s.data.Keys, p) == Minus(s.data, p);
    }
    if p == [] && [] in s.data {
      assert [] in PrefixDelete(s, p).data;
      assert [] in Above(s.data.Keys, p);
    }
  }

  datatype Op<V> = Put(key: Str, val: V) | Del(key: Str) | DelPrefix(key: Str)

  ghost function Step<V>(s: State<V>, op: Op<V>): State<V> {
    match op
    case Put(k, v) => Insert(s, k, v)
    case Del(k) => Delete(s, k)
    case DelPrefix(p) => PrefixDelete(s, p)
  }

  ghost function MapStep<V>(m: map<Str, V>, op: Op<V>): map<Str, V> {
    match op
    case Put(k, v) => m[k := v]
    case Del(k) => Minus(m, k)
    case DelPrefix(p) => m - Above(m.Keys, p)
  }

  ghost function Run<V>(ops: seq<Op<V>>): State<V> {
    if ops == [] then Empty() else Step(Run(ops[..|ops| - 1]), ops[|ops| - 1])
  }

  ghost function MapRun<V>(ops: seq<Op<V>>): map<Str, V> {
    if ops == [] then map[] else MapStep(MapRun(ops[..|ops| - 1]), ops[|ops| - 1])
  }

  /** No deletion names the empty key while it is stored. */
  ghost predicate SparesEmptyKey<V>(ops: seq<Op<V>>) {
    forall i :: 0 <= i < |ops| && !ops[i].Put? && ops[i].key == [] ==> [] !in MapRun(ops[..i])
  }

  /** One operation does to the data what it does to a map, except for a deletion of the stored empty key. */
  lemma StepIsMapStep<V>(s: State<V>, op: Op<V>)
    requires WellFormed(s)
    ensures WellFormed(Step(s, op))
    ensures Step(s, op).data == MapStep(s.data, op) <==> op.Put? || op.key != [] || [] !in s.data
  {
    match op {
      case Put(k, v) => InsertWellFormed(s, k, v);
      case Del(k) =>
        DeleteWellFormed(s, k);
        DeleteIsMapRemoval(s, k);
      case DelPrefix(p) =>
        PrefixDeleteWellFormed(s, p);
        PrefixDeleteIsMapRemoval(s, p);
    }
  }

  /** After a run that never deletes the stored empty key, such as one that deletes non-empty keys only, the trie
      stores what a plain map would. */
  lemma {:induction false} RunRefinesMap<V>(ops: seq<Op<V>>)
    requires SparesEmptyKey(ops)
    ensures WellFormed(Run(ops)) && Run(ops).data == MapRun(ops)
  {
    hide Step, MapStep, WellFormed;
    if ops == [] {
      EmptyWellFormed<V>();
    } else {
      var before, op := ops[..|ops| - 1], ops[|ops| - 1];
      assert forall i :: 0 <= i < |before| ==> before[i] == ops[i] && before[..i] == ops[..i];
      RunRefinesMap(before);
      StepIsMapStep(Run(before), op);
    }
  }

  lemma EmptyWellFormed<V>()
    ensures WellFormed(Empty<V>())
  {
  }

  /** The condition is exact: the trie agrees with the map all along a run if and only if the run meets it. */
  lemma RunRefinesMapIff<V>(ops: seq<Op<V>>)
    ensures (forall i :: 0 <= i <= |ops| ==> Run(ops[..i]).data == MapRun(ops[..i])) <==> SparesEmptyKey(ops)
  {
    hide Step, MapStep, WellFormed, Run, MapRun;
    if SparesEmptyKey(ops) {
      forall i | 0 <= i <= |ops| ensures Run(ops[..i]).data == MapRun(ops[..i]) {
        var part := ops[..i];
        assert forall j :: 0 <= j < |part| ==> part[j] == ops[j] && part[..j] == ops[..j];
        RunRefinesMap(part);
      }
    }
    if forall i :: 0 <= i <= |ops| ==> Run(ops[..i]).data == MapRun(ops[..i]) {
      forall i | 0 <= i < |ops| ensures ops[i].Put? || ops[i].key != [] || [] !in MapRun(ops[..i]) {
        RunWellFormed(ops[..i]);
        RunSnoc(ops, i);
        StepIsMapStep(Run(ops[..i]), ops[i]);
        assert Run(ops[..i + 1]).data == MapRun(ops[..i + 1]);
      }
    }
  }

  lemma RunSnoc<V>(ops: seq<Op<V>>, i: nat)
    requires i < |ops|
    ensures Run(ops[..i + 1]) == Step(Run(ops[..i]), ops[i])
    ensures MapRun(ops[..i + 1]) == MapStep(MapRun(ops[..i]), ops[i])
  {
    assert ops[..i + 1][..i] == ops[..i];
  }

  lemma {:induction false} RunWellFormed<V>(ops: seq<Op<V>>)
    ensures WellFormed(Run(ops))
  {
    if ops == [] {
    } else {
      RunWellFormed(ops[..|ops| - 1]);
      StepIsMapStep(Run(ops[..|ops| - 1]), ops[|ops| - 1]);
    }
  }

  // ---------- Which nodes there are ----------

  /** Insertion adds the nodes on the way to the key. */
  lemma InsertNodes<V>(s: State<V>, k: Str, v: V, q: Str)
    ensures q in Insert(s, k, v).paths <==> q in s.paths || q <= k
  {
    PrefixesAre(k, q);
  }

  lemma {:induction false} PrunedIff<V>(s: State<V>, k: Str, from: nat, q: Str)
    requires from <= |k|
    ensures Pruned(s, k, from, q) <==> from < |q| && q <= k && OnlyHolds(s, k, |q|)
    decreases |k| - from
  {
    if from == |k| {
    } else {
      PrunedIff(s, k, from + 1, q);
      if q <= k && |q| == from + 1 { assert q == k[..from + 1]; }
    }
  }

  /** Deletion of a stored key takes away a node if and only if it lies on the way to the key, is not the root, and
      nothing at or below it leads anywhere else or holds other data. */
  lemma DeleteNodes<V>(s: State<V>, k: Str, q: Str)
    requires k != [] && k in s.data && q in s.paths
    ensures q !in Delete(s, k).paths <==>
              && q != [] && q <= k
              && (forall r :: r in s.paths && q <= r ==> r <= k) && (forall r :: r in s.data && q <= r ==> r == k)
  {
    PrunedIff(s, k, 0, q);
    if q <= k { assert k[..|q|] == q; }
  }

  /** Prefix deletion takes away the nodes below the prefix, or deletes the prefix as a key when there are none. */
  lemma PrefixDeleteNodes<V>(s: State<V>, p: Str, q: Str)
    requires WellFormed(s) && p in s.paths && q in s.paths
    ensures (exists c: byte :: p + [c] in s.paths) ==>
              (q !in PrefixDelete(s, p).paths <==> p <= q && |q| > |p|)
    ensures (forall c: byte :: p + [c] !in s.paths) ==> PrefixDelete(s, p) == Delete(s, p)
  {
    ChildlessIff(s, p);
  }

  // ---------- Canonical shape ----------

  ghost predicate Live<V>(s: State<V>, p: Str) {
    exists k :: k in s.data && p <= k
  }

  /** Every node but the root lies on the way to a stored key. */
  ghost predicate Canonical<V>(s: State<V>) {
    WellFormed(s) && forall p :: p in s.paths && p != [] ==> Live(s, p)
  }

  lemma InsertCanonical<V>(s: State<V>, k: Str, v: V)
    requires Canonical(s)
    ensures Canonical(Insert(s, k, v))
  {
    InsertWellFormed(s, k, v);
    var t := Insert(s, k, v);
    forall p | p in t.paths && p != [] ensures Live(t, p) {
      PrefixesAre(k, p);
      if p <= k {
        assert k in t.data;
      } else {
        var d :| d in s.data && p <= d;
        assert d in t.data;
      }
    }
  }

  /** Below a node that does not only hold `k`, some other key is stored. */
  lemma OtherKeyBelow<V>(s: State<V>, k: Str, p: Str) returns (e: Str)
    requires Canonical(s) && p != [] && p <= k && !OnlyHolds(s, k, |p|)
    ensures e in s.data && p <= e && e != k
  {
    assert k[..|p|] == p;
    if q :| q in s.paths && p <= q && !(q <= k) {
      assert Live(s, q);
      e :| e in s.data && q <= e;
    } else {
      e :| e in s.data && p <= e && e != k;
    }
  }

  lemma DeleteKeepsLive<V>(s: State<V>, k: Str, p: Str)
    requires Canonical(s) && k != [] && k in s.data && p in s.paths && p != []
    requires p <= k ==> !OnlyHolds(s, k, |p|)
    ensures Live(Delete(s, k), p)
  {
    var d :| d in s.data && p <= d;
    if d == k {
      d := OtherKeyBelow(s, k, p);
    }
    assert d in Delete(s, k).data;
  }

  lemma DeleteCanonical<V>(s: State<V>, k: Str)
    requires Canonical(s)
    ensures Canonical(Delete(s, k))
  {
    DeleteWellFormed(s, k);
    if k != [] && k in s.data {
      forall p | p in Delete(s, k).paths && p != [] ensures Live(Delete(s, k), p) {
        PrunedAre(s, k, 0, p);
        DeleteKeepsLive(s, k, p);
      }
    }
  }

  lemma CanonicalIncluded<V>(s: State<V>, t: State<V>, p: Str)
    requires Canonical(s) && WellFormed(t) && s.data == t.data && p in s.paths
    ensures p in t.paths
  {
    if p != [] {
      var k :| k in s.data && p <= k;
      PrefixInPaths(t, k, p);
    }
  }

  /** A canonical trie is determined by what it stores. */
  lemma CanonicalUnique<V>(s: State<V>, t: State<V>)
    requires Canonical(s) && Canonical(t) && s.data == t.data
    ensures s == t
  {
    forall p ensures p in s.paths <==> p in t.paths {
      if p in s.paths { CanonicalIncluded(s, t, p); }
      if p in t.paths { CanonicalIncluded(t, s, p); }
    }
  }

  lemma {:induction false} RunCanonical<V>(ops: seq<Op<V>>)
    requires forall i :: 0 <= i < |ops| ==> !ops[i].DelPrefix?
    ensures Canonical(Run(ops))
  {
    if ops == [] {
    } else {
      var before, op := ops[..|ops| - 1], ops[|ops| - 1];
      RunCanonical(before);
      match op {
        case Put(k, v) => InsertCanonical(Run(before), k, v);
        case Del(k) => DeleteCanonical(Run(before), k);
      }
    }
  }

  /** Two histories of insertions and deletions that leave the same map leave the same trie. */
  lemma HistoriesConverge<V>(ops1: seq<Op<V>>, ops2: seq<Op<V>>)
    requires forall i :: 0 <= i < |ops1| ==> !ops1[i].DelPrefix?
    requires forall i :: 0 <= i < |ops2| ==> !ops2[i].DelPrefix?
    requires Run(ops1).data == Run(ops2).data
    ensures Run(ops1) == Run(ops2)
  {
    RunCanonical(ops1);
    RunCanonical(ops2);
    CanonicalUnique(Run(ops1), Run(ops2));
  }

  /** No node on the way to the absent key `k` is a dead end. */
  ghost predicate NoDeadEnd<V>(s: State<V>, k: Str) {
    forall i :: 0 < i <= |k| && k[..i] in s.paths ==> !OnlyHolds(s, k, i)
  }

  /** Inserting a fresh key and deleting it restores the trie exactly when its path met no dead end. */
  lemma InsertDeleteRestores<V>(s: State<V>, k: Str, v: V)
    requires WellFormed(s) && k != [] && k !in s.data
    ensures Delete(Insert(s, k, v), k) == s <==> NoDeadEnd(s, k)
  {
    var t := Insert(s, k, v);
    var u := Delete(t, k);
    assert u.data == s.data;
    forall i | 0 <= i <= |k| ensures OnlyHolds(t, k, i) <==> OnlyHolds(s, k, i) {
      forall q ensures q in t.paths <==> q in s.paths || q <= k {
        PrefixesAre(k, q);
      }
    }
    forall p ensures p in u.paths <==> (p in s.paths || p <= k) && !(p <= k && 0 < |p| && OnlyHolds(s, k, |p|)) {
      PrefixesAre(k, p);
      PrunedAre(t, k, 0, p);
    }
    if NoDeadEnd(s, k) {
      forall p ensures p in u.paths <==> p in s.paths {
        if p <= k && p !in s.paths && p != [] {
          forall q | q in s.paths ensures !(p <= q) {
            if p <= q { PrefixInPaths(s, q, p); }
          }
          assert k[..|p|] == p;
          assert OnlyHolds(s, k, |p|);
        }
        if p <= k && p in s.paths {
          assert k[..|p|] == p;
        }
      }
    } else {
      var i :| 0 < i <= |k| && k[..i] in s.paths && OnlyHolds(s, k, i);
      assert k[..i] !in u.paths;
    }
  }

  lemma CanonicalHasNoDeadEnd<V>(s: State<V>, k: Str)
    requires Canonical(s) && k !in s.data
    ensures NoDeadEnd(s, k)
  {
    forall i | 0 < i <= |k| && k[..i] in s.paths ensures !OnlyHolds(s, k, i) {
      var d :| d in s.data && k[..i] <= d;
      assert d != k;
    }
  }

  /** Prefix deletion keeps the canonical shape exactly when it leaves no emptied inner node behind. */
  lemma PrefixDeleteCanonical<V>(s: State<V>, p: Str)
    requires Canonical(s)
    ensures Canonical(PrefixDelete(s, p)) <==> p == [] || p !in s.paths || Childless(s, p)
  {
    PrefixDeleteWellFormed(s, p);
    var t := PrefixDelete(s, p);
    if p !in s.paths {
    } else if Childless(s, p) {
      DeleteCanonical(s, p);
    } else if p == [] {
      assert forall q :: q in t.paths ==> q == [];
    } else {
      assert p in t.paths;
      forall k | k in t.data ensures !(p <= k) {
        assert k !in Above(s.data.Keys, p);
      }
      assert !Live(t, p);
    }
  }

  /** Two corners: the empty key cannot be deleted, and deleting the prefix `a` of the key `ab` leaves the
      node `a` behind as a dead end, which a later insertion and deletion of `a` then clears away. */
  lemma Corners<V>(v: V)
    ensures Delete(Insert(Empty(), [], v), []).data == map[[] := v]
    ensures var s := PrefixDelete(Insert(Empty(), [97, 98], v), [97]);
            && s.data == map[] && s.paths == {[], [97]} && !Canonical(s)
            && Delete(Insert(s, [97], v), [97]) != s
  {
    var a, ab: Str := [97], [97, 98];
    var t := Insert(Empty(), ab, v);
    forall q: Str ensures q in t.paths <==> q <= ab { PrefixesAre(ab, q); }
    assert a <= ab && ab[..0] == [] && ab[..1] == a;
    assert [] <= ab;
    var s := PrefixDelete(t, a);
    assert ab in t.paths && a in t.paths && !Childless(t, a);
    assert Below(a, ab) && !Below(a, a) && !Below(a, []);
    forall q ensures q in s.paths <==> q == [] || q == a {
      if q <= ab && |q| == 0 { assert q == []; }
      if q <= ab && |q| == 1 { assert q == ab[..1]; }
      if q <= ab && |q| == 2 { assert q == ab; }
    }
    assert s.data == map[];
    assert !Live(s, a);
    InsertWellFormed(Empty(), ab, v);
    PrefixDeleteWellFormed(t, a);
    InsertDeleteRestores(s, a, v);
    assert a[..1] == a && OnlyHolds(s, a, 1);
  }

  // ---------- Branches: what lies below some of the children of a node ----------

  predicate Branch(p: Str, chars: set<byte>, q: Str) {
    p <= q && |q| > |p| && q[|p|] in chars
  }

  lemma BranchOfChild(p: Str, c: byte, q: Str)
    ensures p + [c] <= q <==> Branch(p, {c}, q)
  {
    if p <= q && |q| > |p| && q[|p|] == c {
      ExtendsThroughChild(p, q);
    }
    if p + [c] <= q {
      assert q[|p|] == (p + [c])[|p|] == c;
      assert p <= p + [c] <= q;
    }
  }

  lemma {:induction false} LongestPath(paths: set<Str>) returns (depth: nat)
    ensures forall q :: q in paths ==> |q| <= depth
  {
    if paths == {} {
      depth := 0;
    } else {
      var q :| q in paths;
      depth := LongestPath(paths - {q});
      depth := if |q| > depth then |q| else depth;
    }
  }

  // ---------- Post-order ----------

  /** `a` is visited before `b`: below it, or in an earlier branch. */
  predicate PostBefore(a: Str, b: Str) {
    a != [] && (b == [] || (if a[0] == b[0] then PostBefore(a[1..], b[1..]) else Signed(a[0]) < Signed(b[0])))
  }

  /** The paths part at position `i`, and `a` goes on with the earlier character. */
  ghost predicate Parts(a: Str, b: Str, i: nat) {
    i < |a| && i < |b| && a[..i] == b[..i] && Signed(a[i]) < Signed(b[i])
  }

  lemma PartsLater(a: Str, b: Str, i: nat)
    requires a != [] && b != [] && a[0] == b[0]
    ensures Parts(a, b, i) <==> i > 0 && Parts(a[1..], b[1..], i - 1)
  {
    if 0 < i && i < |a| && i < |b| {
      assert a[..i] == [a[0]] + a[1..][..i - 1] && b[..i] == [b[0]] + b[1..][..i - 1];
      assert a[..i][1..] == a[1..][..i - 1] && b[..i][1..] == b[1..][..i - 1];
    }
  }

  lemma PartsNow(a: Str, b: Str, i: nat)
    requires a != [] && b != [] && a[0] != b[0]
    ensures Parts(a, b, i) <==> i == 0 && Signed(a[0]) < Signed(b[0])
  {
    if 0 < i && i < |a| && i < |b| {
      assert a[..i][0] != b[..i][0];
    }
  }

  /** A path comes before the paths above it, and before those that branch off to a later character. */
  lemma {:induction false} PostBeforeIff(a: Str, b: Str)
    ensures PostBefore(a, b) <==> (b <= a && a != b) || exists i: nat :: Parts(a, b, i)
  {
    hide Signed;
    if a == [] || b == [] {
    } else if a[0] != b[0] {
      hide Parts;
      PartsNow(a, b, 0);
      forall i: nat ensures Parts(a, b, i) <==> i == 0 && Signed(a[0]) < Signed(b[0]) { PartsNow(a, b, i); }
    } else {
      hide Parts;
      PostBeforeIff(a[1..], b[1..]);
      forall i: nat ensures Parts(a, b, i + 1) <==> Parts(a[1..], b[1..], i) { PartsLater(a, b, i + 1); }
      PartsLater(a, b, 0);
      assert forall i: nat :: Parts(a, b, i) ==> i > 0 && Parts(a[1..], b[1..], i - 1) by {
        forall i: nat | Parts(a, b, i) ensures i > 0 && Parts(a[1..], b[1..], i - 1) { PartsLater(a, b, i); }
      }
      assert a == [a[0]] + a[1..] && b == [b[0]] + b[1..];
    }
  }

  ghost predicate PostOrdered(vs: seq<Str>) {
    forall i, j :: 0 <= i < j < |vs| ==> PostBefore(vs[i], vs[j])
  }

  /** The visits under `p`: every node whose path extends `p` once, children before parents, in character order. */
  ghost predicate IsPostOrder(paths: set<Str>, p: Str, vs: seq<Str>) {
    PostOrdered(vs) && forall q :: q in vs <==> q in paths && p <= q
  }

  lemma {:induction false} PostBeforeStrict(a: Str, b: Str)
    ensures !(PostBefore(a, b) && PostBefore(b, a))
    ensures !PostBefore(a, a)
  {
    if a != [] && b != [] {
      PostBeforeStrict(a[1..], b[1..]);
    } else if a != [] {
      PostBeforeStrict(a[1..], a[1..]);
    }
  }

  lemma HeadIsMember(vs: seq<Str>)
    requires vs != []
    ensures exists q :: q in vs
  {
    assert vs[0] in vs;
  }

  /** The order of visits is determined by the set of nodes visited. */
  lemma {:induction false} PostOrderUnique(vs: seq<Str>, ws: seq<Str>)
    requires PostOrdered(vs) && PostOrdered(ws)
    requires forall q :: q in vs <==> q in ws
    ensures vs == ws
  {
    if vs == [] {
      if ws != [] { HeadIsMember(ws); }
    } else {
      assert vs[0] in ws;
      assert ws[0] in vs;
      PostBeforeStrict(vs[0], ws[0]);
      assert vs[0] == ws[0];
      forall q ensures q in vs[1..] <==> q in ws[1..] {
        PostBeforeStrict(vs[0], q);
        assert q in vs <==> q == vs[0] || q in vs[1..];
        assert q in ws <==> q == ws[0] || q in ws[1..];
      }
      PostOrderUnique(vs[1..], ws[1..]);
    }
  }

  lemma {:induction false} PostBeforeExtend(p: Str, a: Str, b: Str)
    ensures PostBefore(p + a, p + b) <==> PostBefore(a, b)
  {
    if p == [] {
      assert p + a == a && p + b == b;
    } else {
      PostBeforeExtend(p[1..], a, b);
      assert (p + a)[1..] == p[1..] + a && (p + b)[1..] == p[1..] + b;
    }
  }

  /** Paths through different children of `p` are ordered by the child's character. */
  lemma PostBeforeSiblings(p: Str, c: byte, d: byte, a: Str, b: Str)
    requires p + [c] <= a && p + [d] <= b && Signed(c) < Signed(d)
    ensures PostBefore(a, b)
  {
    var x, y := a[|p|..], b[|p|..];
    assert a == p + x && b == p + y;
    assert x[0] == (p + [c])[|p|] == c && y[0] == (p + [d])[|p|] == d;
    PostBeforeExtend(p, x, y);
  }

  lemma PostBeforeParent(p: Str, a: Str)
    requires p <= a && a != p
    ensures PostBefore(a, p)
  {
    assert a == p + a[|p|..] && p == p + [];
    PostBeforeExtend(p, a[|p|..], []);
  }

  /** The visits below `p` through the characters `chars`. */
  ghost predicate IsBranchOrder(paths: set<Str>, p: Str, chars: set<byte>, vs: seq<Str>) {
    PostOrdered(vs) && forall q :: q in vs <==> q in paths && Branch(p, chars, q)
  }

  lemma PostOrderedConcat(vs: seq<Str>, ws: seq<Str>)
    requires PostOrdered(vs) && PostOrdered(ws)
    requires forall a, b :: a in vs && b in ws ==> PostBefore(a, b)
    ensures PostOrdered(vs + ws)
  {
    var r := vs + ws;
    forall i, j | 0 <= i < j < |r| ensures PostBefore(r[i], r[j]) {
      if i < |vs| <= j {
        assert r[i] in vs && r[j] in ws;
      }
    }
  }

  lemma BranchOrderStep(paths: set<Str>, p: Str, done: set<byte>, c: byte, vs: seq<Str>, ws: seq<Str>)
    requires IsBranchOrder(paths, p, done, vs) && IsPostOrder(paths, p + [c], ws)
    requires forall d :: d in done ==> Signed(d) < Signed(c)
    ensures IsBranchOrder(paths, p, done + {c}, vs + ws)
  {
    forall a, b | a in vs && b in ws ensures PostBefore(a, b) {
      ExtendsThroughChild(p, a);
      PostBeforeSiblings(p, a[|p|], c, a, b);
    }
    PostOrderedConcat(vs, ws);
    forall q ensures q in vs + ws <==> q in paths && Branch(p, done + {c}, q) {
      BranchOfChild(p, c, q);
    }
  }

  lemma BranchOrderEnd(paths: set<Str>, p: Str, chars: set<byte>, vs: seq<Str>)
    requires p in paths && IsBranchOrder(paths, p, chars, vs)
    requires forall q :: q in paths && Below(p, q) ==> Branch(p, chars, q)
    ensures IsPostOrder(paths, p, vs + [p])
  {
    forall a, b | a in vs && b in [p] ensures PostBefore(a, b) {
      PostBeforeParent(p, a);
    }
    PostOrderedConcat(vs, [p]);
    forall q ensures q in vs + [p] <==> q in paths && p <= q {
    }
  }
}
