/** The recursive subscription that a wildcard filter maps over the subtree of its topic. */
module Wildcards {
  import opened Bytes
  import opened BrokerSpec
  import Lists
  import TS = TrieSpec
  import opened Tries

  /** Every string from `n` to `q`, one character longer each time, is stored. */
  ghost predicate OnChain(keys: set<Str>, n: Str, q: Str)
    decreases |q|
  {
    q in keys && n <= q && (q == n || OnChain(keys, n, q[..|q| - 1]))
  }

  lemma {:induction false} ChainStart(keys: set<Str>, n: Str, q: Str)
    requires OnChain(keys, n, q)
    ensures n in keys
    decreases |q|
  {
    if q == n {
    } else {
      ChainStart(keys, n, q[..|q| - 1]);
    }
  }

  /** From a stored topic, the chain to a longer one goes on from the child on the way. */
  lemma {:induction false} ChainThroughChild(keys: set<Str>, p: Str, c: byte, q: Str)
    requires p in keys && TS.Branch(p, {c}, q)
    ensures OnChain(keys, p, q) <==> OnChain(keys, p + [c], q)
    decreases |q|
  {
    TS.BranchOfChild(p, c, q);
    var parent := q[..|q| - 1];
    if |q| == |p| + 1 {
      assert q == p + [c] && parent == p;
    } else {
      assert q != p + [c] && q != p;
      assert p <= parent && parent[|p|] == c;
      ChainThroughChild(keys, p, c, parent);
      assert p + [c] <= parent by { TS.BranchOfChild(p, c, parent); }
    }
  }

  /** One call of the recursive subscription at `p` pushes the subscriber to every topic chained to `p`. */
  ghost predicate Pushed(m: Topics, p: Str, sub: Subscriber, m': Topics) {
    && (forall q :: q in m' <==> q in m)
    && (forall q :: q in m ==> m'[q] == if OnChain(m.Keys, p, q) then [sub] + m[q] else m[q])
  }

  /** The same, for the branches of `p` through `done` only. */
  ghost predicate PushedBelow(m: Topics, p: Str, done: set<byte>, sub: Subscriber, m': Topics) {
    && (forall q :: q in m' <==> q in m)
    && (forall q :: q in m ==>
          m'[q] == if TS.Branch(p, done, q) && OnChain(m.Keys, p, q) then [sub] + m[q] else m[q])
  }

  lemma PushedBelowStep(m: Topics, p: Str, done: set<byte>, c: byte, sub: Subscriber, m1: Topics, m2: Topics)
    requires p in m && c !in done && PushedBelow(m, p, done, sub, m1) && Pushed(m1, p + [c], sub, m2)
    ensures PushedBelow(m, p, done + {c}, sub, m2)
  {
    assert m1.Keys == m.Keys;
    forall q | q in m
      ensures m2[q] == if TS.Branch(p, done + {c}, q) && OnChain(m.Keys, p, q) then [sub] + m[q] else m[q]
    {
      TS.BranchOfChild(p, c, q);
      if TS.Branch(p, {c}, q) {
        ChainThroughChild(m.Keys, p, c, q);
      }
    }
  }

  lemma PushedBelowAll(m: Topics, p: Str, chars: set<byte>, sub: Subscriber, m1: Topics)
    requires p in m && PushedBelow(m, p, chars, sub, m1)
    requires forall q :: q in m && TS.Below(p, q) ==> TS.Branch(p, chars, q)
    ensures Pushed(m, p, sub, m1[p := [sub] + m1[p]])
  {
    assert OnChain(m.Keys, p, p);
  }

  /** Push the subscriber to the topic at `p` and, through topics only, to those below it. */
  method RecursiveSubscription(t: Trie<seq<Subscriber>>, p: Str, sub: Subscriber, ghost depth: nat)
    requires t.Valid() && p in t.children && t.Bounded(depth)
    modifies t`data, t`size
    ensures t.Valid() && Pushed(old(t.data), p, sub, t.data)
    decreases depth - |p|
  {
    if p !in t.data {
      forall q | q in t.data ensures !OnChain(t.data.Keys, p, q) {
        if OnChain(t.data.Keys, p, q) { ChainStart(t.data.Keys, p, q); }
      }
      return;
    }
    var rest := t.children[p];
    ghost var done: set<byte> := {};
    while rest != []
      invariant t.Valid() && p in t.data && Lists.Ascending(Signed, rest)
      invariant Lists.Elems(t.children[p]) == done + Lists.Elems(rest)
      invariant forall c, d :: c in done && d in Lists.Elems(rest) ==> Signed(c) < Signed(d)
      invariant PushedBelow(old(t.data), p, done, sub, t.data)
      decreases |rest|
    {
      var c := rest[0];
      ghost var m := t.data;
      ElemsShift(done, rest);
      assert c in Lists.Elems(t.children[p]) && c in Lists.Elems(rest);
      RecursiveSubscription(t, p + [c], sub, depth);
      PushedBelowStep(old(t.data), p, done, c, sub, m, t.data);
      forall d | d in Lists.Elems(rest[1..]) ensures Signed(c) < Signed(d) {
        Lists.AscendingHead(Signed, rest, d);
      }
      done, rest := done + {c}, rest[1..];
    }
    t.EverythingBelow(p);
    PushedBelowAll(old(t.data), p, done, sub, t.data);
    t.SetData(p, [sub] + t.data[p]);
  }

  // ---------- The map over the whole subtree ----------

  /** How many of the visited nodes push to `q`. */
  ghost function Pushes(keys: set<Str>, visits: seq<Str>, q: Str): nat {
    if visits == [] then 0
    else Pushes(keys, visits[..|visits| - 1], q) + if OnChain(keys, visits[|visits| - 1], q) then 1 else 0
  }

  ghost predicate PushedTimes(m: Topics, visits: seq<Str>, sub: Subscriber, m': Topics) {
    && (forall q :: q in m' <==> q in m)
    && (forall q :: q in m ==> m'[q] == Repeat(sub, Pushes(m.Keys, visits, q)) + m[q])
  }

  lemma PushedTimesStep(m: Topics, visits: seq<Str>, v: Str, sub: Subscriber, m1: Topics, m2: Topics)
    requires PushedTimes(m, visits, sub, m1) && Pushed(m1, v, sub, m2)
    ensures PushedTimes(m, visits + [v], sub, m2)
  {
    hide Repeat, OnChain;
    assert m1.Keys == m.Keys;
    assert (visits + [v])[..|visits|] == visits;
    forall q | q in m ensures m2[q] == Repeat(sub, Pushes(m.Keys, visits + [v], q)) + m[q] {
      RepeatOnce(sub, Pushes(m.Keys, visits, q), m[q]);
    }
  }

  lemma RepeatOnce(sub: Subscriber, n: nat, subs: seq<Subscriber>)
    ensures [sub] + (Repeat(sub, n) + subs) == Repeat(sub, n + 1) + subs
  {
  }

  ghost function Pushers(keys: set<Str>, visits: seq<Str>, q: Str): set<Str> {
    set v | v in visits && OnChain(keys, v, q)
  }

  lemma {:induction false} PushesCount(keys: set<Str>, visits: seq<Str>, q: Str)
    requires TS.PostOrdered(visits)
    ensures Pushes(keys, visits, q) == |Pushers(keys, visits, q)|
  {
    if visits == [] {
    } else {
      var before, v := visits[..|visits| - 1], visits[|visits| - 1];
      PushesCount(keys, before, q);
      assert visits == before + [v];
      if v in before {
        TS.PostBeforeStrict(v, v);
      }
      assert Pushers(keys, visits, q) == Pushers(keys, before, q) + if OnChain(keys, v, q) then {v} else {};
    }
  }

  /** Over the subtree of `base`, the pushes to a topic number the unbroken run of topics that ends at it. */
  lemma {:induction false} PushersAreCopies(m: Topics, paths: set<Str>, base: Str, visits: seq<Str>, q: Str)
    requires TS.IsPostOrder(paths, base, visits) && m.Keys <= paths
    ensures |Pushers(m.Keys, visits, q)| == Copies(m.Keys, base, q)
    decreases |q|
  {
    var s := Pushers(m.Keys, visits, q);
    if q !in m || !(base <= q) {
      assert s == {};
    } else if q == base {
      forall v ensures v in s <==> v == base {
        if v in s { assert base <= v <= base; }
      }
      assert s == {base};
    } else {
      var parent := q[..|q| - 1];
      PushersAreCopies(m, paths, base, visits, parent);
      forall v ensures v in s <==> v == q || v in Pushers(m.Keys, visits, parent) {
        if OnChain(m.Keys, v, parent) { assert v <= parent <= q; }
      }
      assert q !in Pushers(m.Keys, visits, parent);
      assert s == Pushers(m.Keys, visits, parent) + {q};
    }
  }

  lemma PushedTimesIsWildcard(m: Topics, paths: set<Str>, base: Str, visits: seq<Str>, sub: Subscriber, m': Topics)
    requires TS.IsPostOrder(paths, base, visits) && m.Keys <= paths && PushedTimes(m, visits, sub, m')
    ensures m' == Wildcard(m, base, sub)
  {
    forall q | q in m ensures m'[q] == Repeat(sub, Copies(m.Keys, base, q)) + m[q] {
      PushesCount(m.Keys, visits, q);
      PushersAreCopies(m, paths, base, visits, q);
    }
  }

  /** The map over the subtree: every stored topic is pushed to as often as its run of topics is long. */
  method SubscribeBelow(t: Trie<seq<Subscriber>>, base: Str, sub: Subscriber)
    requires t.Valid()
    modifies t`data, t`size
    ensures t.Valid() && t.data == Wildcard(old(t.data), base, sub)
  {
    var visits := t.PrefixMap(base);
    ghost var depth := TS.LongestPath(t.children.Keys);
    for i := 0 to |visits|
      invariant t.Valid() && PushedTimes(old(t.data), visits[..i], sub, t.data)
    {
      ghost var m := t.data;
      assert visits[i] in visits;
      RecursiveSubscription(t, visits[i], sub, depth);
      PushedTimesStep(old(t.data), visits[..i], visits[i], sub, m, t.data);
      assert visits[..i + 1] == visits[..i] + [visits[i]];
    }
    assert visits[..|visits|] == visits;
    PushedTimesIsWildcard(old(t.data), t.children.Keys, base, visits, sub, t.data);
  }
}
