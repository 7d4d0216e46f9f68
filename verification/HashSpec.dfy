/** What the open-addressing hashtable of hashtable.c computes: bounded linear probing over a window of
    eight slots, growth by doubling and reinsertion. The hash before reduction is a fixed function `h`;
    `limit` is the largest number of slots the allocator can supply. */
module HashSpec {
  import opened Bytes

  const WINDOW: nat := 8
  const INITIAL: nat := 4
  const SIZE_MAX: nat := 0xFFFF_FFFF_FFFF_FFFF

  datatype Slot<V> = Free | Taken(key: Str, val: V)

  datatype Table<V> = Table(slots: seq<Slot<V>>, size: nat)

  datatype Outcome<V> = Outcome(ok: bool, table: Table<V>)

  // ---------- Keys ----------

  /** No key of the family passes for another one. */
  ghost predicate Distinct(u: iset<Str>) {
    forall a, b :: a in u && b in u && PrefixCI(a, b) ==> a == b
  }

  /** Lower-case keys of one length are never confused. */
  lemma EqualLengthLowerCaseDistinct(u: iset<Str>, n: nat)
    requires forall k :: k in u ==> |k| == n && forall i :: 0 <= i < n ==> Lower(k[i]) == k[i]
    ensures Distinct(u)
  {
  }

  /** The form in which `uuid_unparse` prints: 36 lower-case hexadecimal digits and hyphens. */
  predicate IsUuid(k: Str) {
    |k| == 36 && forall i :: 0 <= i < |k| ==> 48 <= k[i] <= 57 || 97 <= k[i] <= 102 || k[i] == 45
  }

  /** Printed UUIDs never pass for one another. */
  lemma UuidsDistinct()
    ensures Distinct(iset k | IsUuid(k))
  {
    EqualLengthLowerCaseDistinct(iset k | IsUuid(k), 36);
  }

  // ---------- Probing ----------

  /** The slot after `j`, around the end of the table. */
  function Next(n: nat, j: nat): (r: nat)
    requires j < n
    ensures r < n
  {
    if j + 1 < n then j + 1 else 0
  }

  /** The `d`-th slot probed for a hash. */
  function Pos(n: nat, hash: nat, d: nat): (j: nat)
    requires n > 0
    ensures j < n
  {
    if d == 0 then hash % n else Next(n, Pos(n, hash, d - 1))
  }

  lemma MulGap(n: nat, a: nat, b: nat)
    requires a < b
    ensures n * a + n <= n * b
    decreases b
  {
    if a + 1 == b {
    } else {
      MulGap(n, a, b - 1);
    }
    assert n * b == n * (b - 1) + n;
  }

  lemma RemainderUnique(n: nat, x: nat, q: nat, r: nat)
    requires r < n && x == n * q + r
    ensures x % n == r
  {
    assert x == n * (x / n) + x % n;
    if x / n < q { MulGap(n, x / n, q); }
    if q < x / n { MulGap(n, q, x / n); }
  }

  /** Stepping the probe wraps around the end of the table. */
  lemma NextWraps(n: nat, j: nat)
    requires j < n
    ensures (j + 1) % n == Next(n, j)
  {
    if j + 1 < n {
      RemainderUnique(n, j + 1, 0, j + 1);
    } else {
      RemainderUnique(n, n, 1, 0);
    }
  }

  lemma NextOf(n: nat, x: nat)
    requires n > 0
    ensures Next(n, x % n) == (x + 1) % n
  {
    var q, r := x / n, x % n;
    assert x == n * q + r;
    if r + 1 < n {
      RemainderUnique(n, x + 1, q, r + 1);
    } else {
      assert n * (q + 1) == n * q + n;
      RemainderUnique(n, x + 1, q + 1, 0);
    }
  }

  /** `x` steps behind the slot of a hash, modulo the size of the table. */
  function Behind(n: nat, hash: nat, x: nat): (j: nat)
    requires n > 0
    ensures j < n
  {
    (hash + x) % n
  }

  /** The `d`-th slot is `d` steps behind the first one. */
  lemma {:induction false} PosIs(n: nat, hash: nat, d: nat)
    requires n > 0
    ensures Pos(n, hash, d) == Behind(n, hash, d)
  {
    if d == 0 {
    } else {
      PosIs(n, hash, d - 1);
      NextOf(n, hash + d - 1);
    }
  }

  /** Where a put lands: the first free slot of the window or the first that holds the key. */
  function Probe<V>(slots: seq<Slot<V>>, hash: nat, key: Str, d: nat): (r: Option<nat>)
    requires |slots| > 0
    ensures r.Some? ==> r.value < |slots|
    decreases WINDOW - d
  {
    if d >= WINDOW then None
    else
      var j := Pos(|slots|, hash, d);
      if slots[j].Free? || PrefixCI(slots[j].key, key) then Some(j) else Probe(slots, hash, key, d + 1)
  }

  /** Where a lookup or a deletion finds the key; free slots are passed over. */
  function Locate<V>(slots: seq<Slot<V>>, hash: nat, key: Str, d: nat): (r: Option<nat>)
    requires |slots| > 0
    ensures r.Some? ==> r.value < |slots| && slots[r.value].Taken?
    decreases WINDOW - d
  {
    if d >= WINDOW then None
    else
      var j := Pos(|slots|, hash, d);
      if slots[j].Taken? && PrefixCI(key, slots[j].key) then Some(j) else Locate(slots, hash, key, d + 1)
  }

  /** The slot for a put, or none when the table is half full or the window is exhausted. */
  function Index<V>(h: Str -> nat, t: Table<V>, key: Str): (r: Option<nat>)
    requires |t.slots| > 0
    ensures r.Some? ==> r.value < |t.slots|
  {
    if t.size >= |t.slots| / 2 then None else Probe(t.slots, h(key), key, 0)
  }

  /** A put stops at the `x`-th slot of the window: it is free, or the key stored there begins the new one. */
  ghost predicate Stops<V>(slots: seq<Slot<V>>, hash: nat, key: Str, x: nat)
    requires |slots| > 0
  {
    var slot := slots[Behind(|slots|, hash, x)];
    slot.Free? || PrefixCI(slot.key, key)
  }

  /** A lookup stops there: the key stored there begins with the one asked for. */
  ghost predicate Answers<V>(slots: seq<Slot<V>>, hash: nat, key: Str, x: nat)
    requires |slots| > 0
  {
    var slot := slots[Behind(|slots|, hash, x)];
    slot.Taken? && PrefixCI(key, slot.key)
  }

  /** Of the eight slots from the hash on, `x` is the first at which a put stops, looking from `d` on. */
  ghost predicate FirstStop<V>(slots: seq<Slot<V>>, hash: nat, key: Str, d: nat, x: nat)
    requires |slots| > 0
  {
    d <= x < 8 && Stops(slots, hash, key, x) && forall y: nat :: d <= y < x ==> !Stops(slots, hash, key, y)
  }

  ghost predicate FirstAnswer<V>(slots: seq<Slot<V>>, hash: nat, key: Str, d: nat, x: nat)
    requires |slots| > 0
  {
    d <= x < 8 && Answers(slots, hash, key, x) && forall y: nat :: d <= y < x ==> !Answers(slots, hash, key, y)
  }

  lemma FirstStep<V>(slots: seq<Slot<V>>, hash: nat, key: Str, d: nat, x: nat)
    requires |slots| > 0 && d < 8
    ensures FirstStop(slots, hash, key, d, x) <==>
              if Stops(slots, hash, key, d) then x == d else FirstStop(slots, hash, key, d + 1, x)
    ensures FirstAnswer(slots, hash, key, d, x) <==>
              if Answers(slots, hash, key, d) then x == d else FirstAnswer(slots, hash, key, d + 1, x)
  {
    hide Stops, Answers;
  }

  lemma {:induction false} ProbeIff<V>(slots: seq<Slot<V>>, hash: nat, key: Str, d: nat, j: nat)
    requires |slots| > 0 && d <= 8
    ensures Probe(slots, hash, key, d) == Some(j) <==>
              exists x: nat :: FirstStop(slots, hash, key, d, x) && j == Behind(|slots|, hash, x)
    decreases 8 - d
  {
    hide Pos, Behind, PrefixCI, FirstStop;
    if d == 8 {
      forall x ensures !FirstStop(slots, hash, key, 8, x) { NoneFirst(slots, hash, key, x); }
    } else {
      PosIs(|slots|, hash, d);
      ProbeIff(slots, hash, key, d + 1, j);
      forall x: nat
        ensures FirstStop(slots, hash, key, d, x) <==>
                  if Stops(slots, hash, key, d) then x == d else FirstStop(slots, hash, key, d + 1, x)
      {
        FirstStep(slots, hash, key, d, x);
      }
    }
  }

  lemma NoneFirst<V>(slots: seq<Slot<V>>, hash: nat, key: Str, x: nat)
    requires |slots| > 0
    ensures !FirstStop(slots, hash, key, 8, x) && !FirstAnswer(slots, hash, key, 8, x)
  {
  }

  lemma {:induction false} LocateIff<V>(slots: seq<Slot<V>>, hash: nat, key: Str, d: nat, j: nat)
    requires |slots| > 0 && d <= 8
    ensures Locate(slots, hash, key, d) == Some(j) <==>
              exists x: nat :: FirstAnswer(slots, hash, key, d, x) && j == Behind(|slots|, hash, x)
    decreases 8 - d
  {
    hide Pos, Behind, PrefixCI, FirstAnswer;
    if d == 8 {
      forall x ensures !FirstAnswer(slots, hash, key, 8, x) { NoneFirst(slots, hash, key, x); }
    } else {
      PosIs(|slots|, hash, d);
      LocateIff(slots, hash, key, d + 1, j);
      forall x: nat
        ensures FirstAnswer(slots, hash, key, d, x) <==>
                  if Answers(slots, hash, key, d) then x == d else FirstAnswer(slots, hash, key, d + 1, x)
      {
        FirstStep(slots, hash, key, d, x);
      }
    }
  }

  // ---------- Operations ----------

  function Blank<V>(n: nat): Table<V> {
    Table(seq(n, _ => Free), 0)
  }

  function Store<V>(t: Table<V>, j: nat, key: Str, val: V): Table<V>
    requires j < |t.slots|
  {
    Table(t.slots[j := Taken(key, val)], if t.slots[j].Free? then t.size + 1 else t.size)
  }

  function Room(limit: nat, n: nat): nat {
    if n <= limit then limit - n + 1 else 0
  }

  function Put<V>(h: Str -> nat, limit: nat, t: Table<V>, key: Str, val: V): (r: Outcome<V>)
    requires |t.slots| > 0
    ensures |r.table.slots| >= |t.slots|
    decreases Room(limit, |t.slots|), 0, 0
  {
    var index := Index(h, t, key);
    if index.Some? then Outcome(true, Store(t, index.value, key, val))
    else if 2 * |t.slots| > limit then Outcome(false, t)
    else
      var grown := Reinsert(h, limit, t.slots, Blank(2 * |t.slots|));
      if grown.ok then Put(h, limit, grown.table, key, val) else grown
  }

  /** Put every entry of the old slots, in order; a failure leaves the rest behind. */
  function Reinsert<V>(h: Str -> nat, limit: nat, from: seq<Slot<V>>, t: Table<V>): (r: Outcome<V>)
    requires |t.slots| > 0
    ensures |r.table.slots| >= |t.slots|
    decreases Room(limit, |t.slots|), 1, |from|
  {
    if from == [] then Outcome(true, t)
    else if from[0].Free? then Reinsert(h, limit, from[1..], t)
    else
      var put := Put(h, limit, t, from[0].key, from[0].val);
      if put.ok then Reinsert(h, limit, from[1..], put.table) else put
  }

  function Get<V>(h: Str -> nat, t: Table<V>, key: Str): Option<V>
    requires |t.slots| > 0
  {
    var at := Locate(t.slots, h(key), key, 0);
    if at.Some? then Some(t.slots[at.value].val) else None
  }

  function Del<V>(h: Str -> nat, t: Table<V>, key: Str): Table<V>
    requires |t.slots| > 0
  {
    var at := Locate(t.slots, h(key), key, 0);
    if at.Some? then Table(t.slots[at.value := Free], if t.size > 0 then t.size - 1 else SIZE_MAX) else t
  }

  // ---------- Contents ----------

  ghost function Contents<V>(slots: seq<Slot<V>>): map<Str, V> {
    if slots == [] then map[]
    else
      var rest := Contents(slots[1..]);
      if slots[0].Taken? then rest[slots[0].key := slots[0].val] else rest
  }

  ghost predicate Unique<V>(slots: seq<Slot<V>>) {
    forall i, j :: 0 <= i < j < |slots| && slots[i].Taken? && slots[j].Taken? ==> slots[i].key != slots[j].key
  }

  /** A key is stored exactly when some slot holds it. */
  lemma {:induction false} ContentsKey<V>(slots: seq<Slot<V>>, k: Str)
    ensures k in Contents(slots) <==> exists j :: 0 <= j < |slots| && slots[j].Taken? && slots[j].key == k
  {
    if slots == [] {
    } else {
      ContentsKey(slots[1..], k);
      if k in Contents(slots[1..]) {
        var j :| 0 <= j < |slots[1..]| && slots[1..][j].Taken? && slots[1..][j].key == k;
        assert slots[j + 1].Taken? && slots[j + 1].key == k;
      }
      if j :| 0 <= j < |slots| && slots[j].Taken? && slots[j].key == k {
        if j > 0 { assert slots[1..][j - 1] == slots[j]; }
      }
    }
  }

  lemma {:induction false} ContentsAt<V>(slots: seq<Slot<V>>, j: nat)
    requires Unique(slots) && j < |slots| && slots[j].Taken?
    ensures slots[j].key in Contents(slots) && Contents(slots)[slots[j].key] == slots[j].val
  {
    if j == 0 {
    } else {
      assert forall i :: 0 <= i < |slots| - 1 ==> slots[1..][i] == slots[i + 1];
      ContentsAt(slots[1..], j - 1);
    }
  }

  lemma UniqueUpdate<V>(slots: seq<Slot<V>>, j: nat, x: Slot<V>)
    requires Unique(slots) && j < |slots|
    requires x.Taken? ==> forall i :: 0 <= i < |slots| && i != j && slots[i].Taken? ==> slots[i].key != x.key
    ensures Unique(slots[j := x])
  {
  }

  /** Writing a key that no other slot holds is a map update. */
  lemma ContentsStore<V>(slots: seq<Slot<V>>, j: nat, key: Str, val: V)
    requires Unique(slots) && j < |slots|
    requires slots[j].Free? || slots[j].key == key
    requires forall i :: 0 <= i < |slots| && i != j && slots[i].Taken? ==> slots[i].key != key
    ensures Unique(slots[j := Taken(key, val)])
    ensures Contents(slots[j := Taken(key, val)]) == Contents(slots)[key := val]
  {
    var after := slots[j := Taken(key, val)];
    UniqueUpdate(slots, j, Taken(key, val));
    forall k
      ensures k in Contents(after) <==> k == key || k in Contents(slots)
      ensures k in Contents(after) ==> Contents(after)[k] == if k == key then val else Contents(slots)[k]
    {
      ContentsKey(slots, k);
      ContentsKey(after, k);
      ContentsAt(after, j);
      assert after[j].key == key;
      if k != key && k in Contents(slots) {
        var i :| 0 <= i < |slots| && slots[i].Taken? && slots[i].key == k;
        assert after[i] == slots[i];
        ContentsAt(slots, i);
        ContentsAt(after, i);
      }
      if k != key && k in Contents(after) {
        var i :| 0 <= i < |after| && after[i].Taken? && after[i].key == k;
        assert after[i] == slots[i];
      }
    }
  }

  /** Freeing a slot removes its key. */
  lemma ContentsErase<V>(slots: seq<Slot<V>>, j: nat)
    requires Unique(slots) && j < |slots| && slots[j].Taken?
    ensures Unique(slots[j := Free])
    ensures Contents(slots[j := Free]) == Contents(slots) - {slots[j].key}
  {
    var after := slots[j := Free];
    UniqueUpdate(slots, j, Free);
    forall k
      ensures k in Contents(after) <==> k != slots[j].key && k in Contents(slots)
      ensures k in Contents(after) ==> k in Contents(slots) && Contents(after)[k] == Contents(slots)[k]
    {
      ContentsKey(slots, k);
      ContentsKey(after, k);
      if k in Contents(after) {
        var i :| 0 <= i < |after| && after[i].Taken? && after[i].key == k;
        assert after[i] == slots[i];
        ContentsAt(slots, i);
        ContentsAt(after, i);
      }
      if k != slots[j].key && k in Contents(slots) {
        var i :| 0 <= i < |slots| && slots[i].Taken? && slots[i].key == k;
        assert after[i] == slots[i];
      }
    }
  }

  // ---------- The invariant ----------

  /** Slot `j` lies in the probe window of the hash. */
  ghost predicate InWindow(n: nat, hash: nat, j: nat)
    requires n > 0
  {
    exists d: nat :: d < WINDOW && Pos(n, hash, d) == j
  }

  ghost predicate Placed<V>(h: Str -> nat, slots: seq<Slot<V>>) {
    forall j :: 0 <= j < |slots| && slots[j].Taken? ==> InWindow(|slots|, h(slots[j].key), j)
  }

  /** Each stored key sits in exactly one slot, inside its window, and the table is at most half full. */
  ghost predicate Inv<V>(h: Str -> nat, u: iset<Str>, t: Table<V>) {
    && |t.slots| >= INITIAL
    && Unique(t.slots) && Placed(h, t.slots)
    && t.size == |Contents(t.slots)| && 2 * t.size <= |t.slots|
    && forall j :: 0 <= j < |t.slots| && t.slots[j].Taken? ==> t.slots[j].key in u
  }

  // ---------- Probing lemmas ----------

  /** What a probe passed over: taken slots of other keys. */
  ghost predicate Passed<V>(slots: seq<Slot<V>>, hash: nat, key: Str, d: nat, e: nat)
    requires |slots| > 0
  {
    forall x: nat :: d <= x < e ==> slots[Pos(|slots|, hash, x)].Taken? && slots[Pos(|slots|, hash, x)].key != key
  }

  lemma {:induction false} ProbeStops<V>(u: iset<Str>, slots: seq<Slot<V>>, hash: nat, key: Str, d: nat)
    returns (e: nat)
    requires |slots| > 0 && Distinct(u) && key in u && d <= WINDOW
    requires forall j :: 0 <= j < |slots| && slots[j].Taken? ==> slots[j].key in u
    ensures d <= e <= WINDOW && Passed(slots, hash, key, d, e)
    ensures e == WINDOW <==> Probe(slots, hash, key, d).None?
    ensures e < WINDOW ==>
              var j := Pos(|slots|, hash, e);
              Probe(slots, hash, key, d) == Some(j) && (slots[j].Free? || slots[j].key == key)
    decreases WINDOW - d
  {
    e := d;
    if d >= WINDOW {
    } else {
      var j := Pos(|slots|, hash, d);
      if slots[j].Taken? && !PrefixCI(slots[j].key, key) {
        e := ProbeStops(u, slots, hash, key, d + 1);
      }
    }
  }

  lemma {:induction false} LocateFinds<V>(u: iset<Str>, slots: seq<Slot<V>>, hash: nat, key: Str, d: nat)
    requires |slots| > 0 && Distinct(u) && key in u
    requires forall j :: 0 <= j < |slots| && slots[j].Taken? ==> slots[j].key in u
    ensures var r := Locate(slots, hash, key, d);
            if r.Some? then slots[r.value].key == key
            else forall x: nat :: d <= x < WINDOW ==>
                   slots[Pos(|slots|, hash, x)].Free? || slots[Pos(|slots|, hash, x)].key != key
    decreases WINDOW - d
  {
    if d >= WINDOW {
    } else {
      LocateFinds(u, slots, hash, key, d + 1);
    }
  }

  /** A stored key is located at its slot; an absent one is not located. */
  lemma LocateCorrect<V>(h: Str -> nat, u: iset<Str>, t: Table<V>, key: Str)
    requires Inv(h, u, t) && Distinct(u) && key in u
    ensures var r := Locate(t.slots, h(key), key, 0);
            && (r.Some? <==> key in Contents(t.slots))
            && (r.Some? ==> t.slots[r.value].key == key && Contents(t.slots)[key] == t.slots[r.value].val)
  {
    var r := Locate(t.slots, h(key), key, 0);
    LocateFinds(u, t.slots, h(key), key, 0);
    ContentsKey(t.slots, key);
    if r.Some? {
      ContentsAt(t.slots, r.value);
    }
    if key in Contents(t.slots) {
      var j :| 0 <= j < |t.slots| && t.slots[j].Taken? && t.slots[j].key == key;
      var d: nat :| d < WINDOW && Pos(|t.slots|, h(key), d) == j;
    }
  }

  /** Lookup answers as the map does, whatever gaps deletions left. */
  lemma GetIsLookup<V>(h: Str -> nat, u: iset<Str>, t: Table<V>, key: Str)
    requires Inv(h, u, t) && Distinct(u) && key in u
    ensures Get(h, t, key) == if key in Contents(t.slots) then Some(Contents(t.slots)[key]) else None
  {
    LocateCorrect(h, u, t, key);
  }

  lemma DelIsRemoval<V>(h: Str -> nat, u: iset<Str>, t: Table<V>, key: Str)
    requires Inv(h, u, t) && Distinct(u) && key in u
    ensures Inv(h, u, Del(h, t, key))
    ensures Contents(Del(h, t, key).slots) == Contents(t.slots) - {key}
  {
    LocateCorrect(h, u, t, key);
    var r := Locate(t.slots, h(key), key, 0);
    if r.Some? {
      ContentsErase(t.slots, r.value);
      var m := Contents(t.slots);
      assert (m - {key}).Keys == m.Keys - {key};
    } else {
      assert Contents(t.slots) - {key} == Contents(t.slots);
    }
  }

  // ---------- Keys of any kind ----------

  /** Without any assumption on keys, a put takes slot `j` if and only if the table is less than half full and `j` is
      the first of the eight slots from the hash on that is free or holds a key that begins the new one. */
  lemma PutSlotIff<V>(h: Str -> nat, t: Table<V>, key: Str, j: nat)
    requires |t.slots| > 0
    ensures Index(h, t, key) == Some(j) <==>
              && t.size < |t.slots| / 2
              && exists x: nat :: FirstStop(t.slots, h(key), key, 0, x) && j == (h(key) + x) % |t.slots|
  {
    ProbeIff(t.slots, h(key), key, 0, j);
  }

  /** A lookup reads, and a deletion frees, the first of the eight slots whose key begins with the given one. */
  lemma GetFindsIff<V>(h: Str -> nat, t: Table<V>, key: Str, j: nat)
    requires |t.slots| > 0
    ensures Locate(t.slots, h(key), key, 0) == Some(j) <==>
              exists x: nat :: FirstAnswer(t.slots, h(key), key, 0, x) && j == (h(key) + x) % |t.slots|
    ensures Locate(t.slots, h(key), key, 0) == Some(j) ==>
              && Get(h, t, key) == Some(t.slots[j].val)
              && Del(h, t, key).slots == t.slots[j := Free]
    ensures Locate(t.slots, h(key), key, 0) == None ==> Get(h, t, key) == None && Del(h, t, key) == t
  {
    LocateIff(t.slots, h(key), key, 0, j);
  }

  lemma KeysAAndAB(a: Str, ab: Str)
    requires a == [97] && ab == [97, 98]
    ensures PrefixCI(a, ab) && !PrefixCI(ab, a) && PrefixCI(a, a) && PrefixCI(ab, ab)
  {
  }

  /** Keys `a` and `ab` of one hash: a put of `ab` overwrites the entry of `a`; a put of `a` leaves that of `ab` alone;
      and where only `ab` is stored, `a` is found, and deleted. */
  lemma ShorterKeyPasses(h: Str -> nat, limit: nat)
    requires h([97]) == h([97, 98]) == 0
    ensures var a, ab: Str := [97], [97, 98];
            && Put(h, limit, Table([Taken(a, 1), Free, Free, Free], 1), ab, 2)
               == Outcome(true, Table([Taken(ab, 2), Free, Free, Free], 1))
            && Put(h, limit, Table([Taken(ab, 1), Free, Free, Free], 1), a, 2)
               == Outcome(true, Table([Taken(ab, 1), Taken(a, 2), Free, Free], 2))
            && Get(h, Table([Taken(ab, 1), Free, Free, Free], 1), a) == Some(1)
            && Del(h, Table([Taken(ab, 1), Free, Free, Free], 1), a) == Table([Free, Free, Free, Free], 0)
  {
    var a, ab: Str := [97], [97, 98];
    KeysAAndAB(a, ab);
    hide PrefixCI;
    assert Pos(4, 0, 0) == 0 && Pos(4, 0, 1) == 1;
    var one: seq<Slot<int>> := [Taken(a, 1), Free, Free, Free];
    var two: seq<Slot<int>> := [Taken(ab, 1), Free, Free, Free];
    assert Probe(one, 0, ab, 0) == Some(0);
    assert Probe(two, 0, a, 1) == Some(1);
    assert Probe(two, 0, a, 0) == Some(1);
  }

  /** A table of four slots with two entries grows to eight for the third, and everything moves to its new place. */
  lemma ThirdEntryGrows(h: Str -> nat, a: Str, b: Str, c: Str)
    requires h(a) == 97 && h(b) == 98 && h(c) == 99
    ensures Put(h, 8, Table([Free, Taken(a, 1), Taken(b, 2), Free], 2), c, 3)
         == Outcome(true, Table([Free, Taken(a, 1), Taken(b, 2), Taken(c, 3), Free, Free, Free, Free], 3))
  {
    var t0, t1, t2 := Blank<int>(8), Table([Free, Taken(a, 1), Free, Free, Free, Free, Free, Free], 1),
                      Table([Free, Taken(a, 1), Taken(b, 2), Free, Free, Free, Free, Free], 2);
    assert t0.slots == [Free, Free, Free, Free, Free, Free, Free, Free];
    assert Put(h, 8, t0, a, 1) == Outcome(true, t1);
    assert Put(h, 8, t1, b, 2) == Outcome(true, t2);
    var from: seq<Slot<int>> := [Free, Taken(a, 1), Taken(b, 2), Free];
    var f1, f2, f3: seq<Slot<int>> := [Taken(a, 1), Taken(b, 2), Free], [Taken(b, 2), Free], [Free];
    assert from[1..] == f1 && f1[1..] == f2 && f2[1..] == f3 && f3[1..] == [];
    assert Reinsert(h, 8, f3, t2) == Outcome(true, t2);
    assert Reinsert(h, 8, f2, t1) == Outcome(true, t2);
    assert Reinsert(h, 8, f1, t0) == Outcome(true, t2);
    assert Reinsert(h, 8, from, t0) == Outcome(true, t2);
  }

  /** Keys of one hash keep their order when the table grows. */
  lemma GrowthKeepsOrder(h: Str -> nat, a: Str, b: Str, c: Str)
    requires h(a) == h(b) == h(c) == 0 && !PrefixCI(a, b) && !PrefixCI(a, c) && !PrefixCI(b, c)
    ensures Put(h, 8, Table([Taken(a, 1), Taken(b, 2), Free, Free], 2), c, 3)
         == Outcome(true, Table([Taken(a, 1), Taken(b, 2), Taken(c, 3), Free, Free, Free, Free, Free], 3))
  {
    hide PrefixCI;
    var t0, t1, t2 := Blank<int>(8), Table([Taken(a, 1), Free, Free, Free, Free, Free, Free, Free], 1),
                      Table([Taken(a, 1), Taken(b, 2), Free, Free, Free, Free, Free, Free], 2);
    assert t0.slots == [Free, Free, Free, Free, Free, Free, Free, Free];
    assert Pos(8, 0, 0) == 0 && Pos(8, 0, 1) == 1 && Pos(8, 0, 2) == 2;
    assert Probe(t1.slots, 0, b, 1) == Some(1);
    assert Probe(t2.slots, 0, c, 2) == Some(2) && Probe(t2.slots, 0, c, 1) == Some(2);
    assert Put(h, 8, t0, a, 1) == Outcome(true, t1) && Put(h, 8, t1, b, 2) == Outcome(true, t2);
    hide Index, Probe;
    ReinsertTwo(h, a, b, t0, t1, t2);
  }

  lemma ReinsertTwo(h: Str -> nat, a: Str, b: Str, t0: Table<int>, t1: Table<int>, t2: Table<int>)
    requires |t0.slots| > 0 && |t1.slots| > 0 && |t2.slots| > 0
    requires Put(h, 8, t0, a, 1) == Outcome(true, t1) && Put(h, 8, t1, b, 2) == Outcome(true, t2)
    ensures Reinsert(h, 8, [Taken(a, 1), Taken(b, 2), Free, Free], t0) == Outcome(true, t2)
  {
    hide Put;
    var from: seq<Slot<int>> := [Taken(a, 1), Taken(b, 2), Free, Free];
    var f1, f2, f3: seq<Slot<int>> := [Taken(b, 2), Free, Free], [Free, Free], [Free];
    assert from[1..] == f1 && f1[1..] == f2 && f2[1..] == f3 && f3[1..] == [];
    assert Reinsert(h, 8, f3, t2) == Outcome(true, t2);
    assert Reinsert(h, 8, f2, t2) == Outcome(true, t2);
    assert Reinsert(h, 8, f1, t1) == Outcome(true, t2);
  }

  // ---------- Puts and growth ----------

  /** No gap precedes slot `j` on the way from the hash. */
  ghost predicate Reached<V>(slots: seq<Slot<V>>, hash: nat, j: nat)
    requires |slots| > 0
  {
    exists d: nat :: d < WINDOW && Pos(|slots|, hash, d) == j &&
                     forall e: nat :: e < d ==> slots[Pos(|slots|, hash, e)].Taken?
  }

  /** What a table looks like while nothing has been deleted since it was allocated. */
  ghost predicate Compact<V>(h: Str -> nat, slots: seq<Slot<V>>)
    requires |slots| > 0
  {
    forall j :: 0 <= j < |slots| && slots[j].Taken? ==> Reached(slots, h(slots[j].key), j)
  }

  /** The put updates the key in place, adds an absent key, or grows first: it does not fall into a gap
      in front of the slot that already holds the key. */
  ghost predicate Lands<V>(h: Str -> nat, t: Table<V>, key: Str)
    requires |t.slots| > 0
  {
    var index := Index(h, t, key);
    index.None? || key !in Contents(t.slots) || t.slots[index.value].Taken?
  }

  lemma CompactLands<V>(h: Str -> nat, u: iset<Str>, t: Table<V>, key: Str)
    requires Inv(h, u, t) && Distinct(u) && key in u && Compact(h, t.slots)
    ensures Lands(h, t, key)
  {
    hide Pos, Probe;
    if Index(h, t, key).Some? && key in Contents(t.slots) {
      var e := ProbeStops(u, t.slots, h(key), key, 0);
      ContentsKey(t.slots, key);
      var j :| 0 <= j < |t.slots| && t.slots[j].Taken? && t.slots[j].key == key;
      assert Reached(t.slots, h(key), j);
      var d: nat :| d < WINDOW && Pos(|t.slots|, h(key), d) == j &&
                    forall x: nat :: x < d ==> t.slots[Pos(|t.slots|, h(key), x)].Taken?;
      assert e <= d;
    }
  }

  lemma StoreKeepsCompact<V>(h: Str -> nat, t: Table<V>, key: Str, val: V, e: nat)
    requires |t.slots| > 0 && Compact(h, t.slots) && e < WINDOW && Passed(t.slots, h(key), key, 0, e)
    requires var j := Pos(|t.slots|, h(key), e); t.slots[j].Free? || t.slots[j].key == key
    ensures Compact(h, t.slots[Pos(|t.slots|, h(key), e) := Taken(key, val)])
  {
    var at := Pos(|t.slots|, h(key), e);
    var after := t.slots[at := Taken(key, val)];
    forall j | 0 <= j < |after| && after[j].Taken? ensures Reached(after, h(after[j].key), j) {
      if j == at {
        assert forall x: nat :: x < e ==> after[Pos(|after|, h(key), x)].Taken?;
      } else {
        assert Reached(t.slots, h(t.slots[j].key), j);
        var d: nat :| d < WINDOW && Pos(|t.slots|, h(t.slots[j].key), d) == j &&
                      forall x: nat :: x < d ==> t.slots[Pos(|t.slots|, h(t.slots[j].key), x)].Taken?;
        assert forall x: nat :: x < d ==> after[Pos(|after|, h(after[j].key), x)].Taken?;
      }
    }
  }

  /** A put that finds a slot and does not fall into a gap is a map update. */
  lemma StoreCorrect<V>(h: Str -> nat, u: iset<Str>, t: Table<V>, key: Str, val: V)
    requires Inv(h, u, t) && Distinct(u) && key in u && Lands(h, t, key) && Index(h, t, key).Some?
    ensures var after := Store(t, Index(h, t, key).value, key, val);
            && Inv(h, u, after) && Contents(after.slots) == Contents(t.slots)[key := val]
            && (Compact(h, t.slots) ==> Compact(h, after.slots))
  {
    var e := ProbeStops(u, t.slots, h(key), key, 0);
    var j := Index(h, t, key).value;
    ContentsKey(t.slots, key);
    if t.slots[j].Taken? { ContentsAt(t.slots, j); }
    ContentsStore(t.slots, j, key, val);
    var m := Contents(t.slots);
    assert m[key := val].Keys == m.Keys + {key};
    if Compact(h, t.slots) { StoreKeepsCompact(h, t, key, val, e); }
  }

  lemma BlankCorrect<V>(h: Str -> nat, u: iset<Str>, n: nat)
    requires n >= INITIAL
    ensures Inv(h, u, Blank<V>(n)) && Compact(h, Blank<V>(n).slots) && Contents(Blank<V>(n).slots) == map[]
  {
    var slots := Blank<V>(n).slots;
    forall k ensures k !in Contents(slots) { ContentsKey(slots, k); }
  }

  ghost predicate KeysIn<V>(u: iset<Str>, slots: seq<Slot<V>>) {
    forall j :: 0 <= j < |slots| && slots[j].Taken? ==> slots[j].key in u
  }

  /** One map holds nothing that the other does not. */
  ghost predicate PartOf<V>(a: map<Str, V>, b: map<Str, V>) {
    forall k :: k in a ==> k in b && a[k] == b[k]
  }

  /** A put that does not fall into a gap keeps the invariant through any nesting of growth. When it succeeds it is
      a map update; when it fails, entries may be lost but none is added or changed. */
  lemma {:induction false} PutCorrect<V>(h: Str -> nat, u: iset<Str>, limit: nat, t: Table<V>, key: Str, val: V)
    requires Inv(h, u, t) && Distinct(u) && key in u && Lands(h, t, key)
    ensures var r := Put(h, limit, t, key, val);
            && Inv(h, u, r.table)
            && (Compact(h, t.slots) || |r.table.slots| > |t.slots| ==> Compact(h, r.table.slots))
            && (r.ok ==> Contents(r.table.slots) == Contents(t.slots)[key := val])
            && (!r.ok ==> PartOf(Contents(r.table.slots), Contents(t.slots)))
    decreases Room(limit, |t.slots|), 0, 0
  {
    hide Contents, Compact, Probe, Placed, Lands;
    if Index(h, t, key).Some? {
      StoreCorrect(h, u, t, key, val);
    } else if 2 * |t.slots| <= limit {
      var blank := Blank<V>(2 * |t.slots|);
      BlankCorrect<V>(h, u, 2 * |t.slots|);
      ReinsertCorrect(h, u, limit, t.slots, blank);
      var grown := Reinsert(h, limit, t.slots, blank);
      assert map[] + Contents(t.slots) == Contents(t.slots);
      if grown.ok {
        CompactLands(h, u, grown.table, key);
        PutCorrect(h, u, limit, grown.table, key, val);
      }
    }
  }

  /** Reinsertion keeps exactly the same contents, even when it grows the table again; one that fails adds nothing. */
  lemma {:induction false} ReinsertCorrect<V>(h: Str -> nat, u: iset<Str>, limit: nat, from: seq<Slot<V>>, t: Table<V>)
    requires Inv(h, u, t) && Distinct(u) && Compact(h, t.slots)
    requires Unique(from) && KeysIn(u, from)
    requires forall k :: k in Contents(from) ==> k !in Contents(t.slots)
    ensures var r := Reinsert(h, limit, from, t);
            && Inv(h, u, r.table) && Compact(h, r.table.slots)
            && (r.ok ==> Contents(r.table.slots) == Contents(t.slots) + Contents(from))
            && (!r.ok ==> PartOf(Contents(r.table.slots), Contents(t.slots) + Contents(from)))
    decreases Room(limit, |t.slots|), 1, |from|
  {
    if from == [] {
      assert Contents(t.slots) + map[] == Contents(t.slots);
    } else {
      UniqueTail(u, from);
      if from[0].Free? {
        ReinsertCorrect(h, u, limit, from[1..], t);
      } else {
        var k := from[0].key;
        assert k in Contents(from);
        PutCorrect(h, u, limit, t, k, from[0].val);
        var put := Put(h, limit, t, k, from[0].val);
        MapShift(Contents(t.slots), k, from[0].val, Contents(from[1..]));
        if put.ok {
          forall x | x in Contents(from[1..]) ensures x !in Contents(put.table.slots) {
            assert x in Contents(from);
          }
          ReinsertCorrect(h, u, limit, from[1..], put.table);
        }
      }
    }
  }

  lemma MapShift<V>(m: map<Str, V>, k: Str, v: V, rest: map<Str, V>)
    requires k !in rest
    ensures m[k := v] + rest == m + rest[k := v]
  {
  }

  lemma UniqueTail<V>(u: iset<Str>, from: seq<Slot<V>>)
    requires from != [] && Unique(from) && KeysIn(u, from)
    ensures Unique(from[1..]) && KeysIn(u, from[1..])
    ensures from[0].Taken? ==> from[0].key in u && from[0].key !in Contents(from[1..])
  {
    assert forall i :: 0 <= i < |from| - 1 ==> from[1..][i] == from[i + 1];
    if from[0].Taken? { ContentsKey(from[1..], from[0].key); }
  }

  /** The put keeps the invariant exactly when it does not fall into a gap before the key's own slot. */
  lemma PutKeepsInvIff<V>(h: Str -> nat, u: iset<Str>, limit: nat, t: Table<V>, key: Str, val: V)
    requires Inv(h, u, t) && Distinct(u) && key in u
    ensures Inv(h, u, Put(h, limit, t, key, val).table) <==> Lands(h, t, key)
  {
    if Lands(h, t, key) {
      PutCorrect(h, u, limit, t, key, val);
    } else {
      ContentsKey(t.slots, key);
      var j :| 0 <= j < |t.slots| && t.slots[j].Taken? && t.slots[j].key == key;
      var i := Index(h, t, key).value;
      var after := Store(t, i, key, val).slots;
      assert after[i].Taken? && after[j].Taken? && after[i].key == after[j].key && i != j;
    }
  }

  lemma {:induction false} LocateAt<V>(u: iset<Str>, slots: seq<Slot<V>>, hash: nat, key: Str, d: nat, e: nat)
    requires |slots| > 0 && Distinct(u) && key in u && d <= e < WINDOW && Passed(slots, hash, key, d, e)
    requires forall j :: 0 <= j < |slots| && slots[j].Taken? ==> slots[j].key in u
    requires var j := Pos(|slots|, hash, e); slots[j].Taken? && slots[j].key == key
    ensures Locate(slots, hash, key, d) == Some(Pos(|slots|, hash, e))
    decreases e - d
  {
    if d == e {
      assert PrefixCI(key, key);
    } else {
      LocateAt(u, slots, hash, key, d + 1, e);
    }
  }

  /** A put that falls into a gap hides the old entry: deleting the key again brings the table back as it was, with the
      key still stored under its old value. */
  lemma PutIntoGapThenDelete<V>(h: Str -> nat, u: iset<Str>, limit: nat, t: Table<V>, key: Str, val: V)
    requires Inv(h, u, t) && Distinct(u) && key in u && !Lands(h, t, key)
    ensures Put(h, limit, t, key, val).ok && Get(h, Put(h, limit, t, key, val).table, key) == Some(val)
    ensures Del(h, Put(h, limit, t, key, val).table, key) == t && Get(h, t, key).Some?
  {
    hide Probe, Pos;
    var e := ProbeStops(u, t.slots, h(key), key, 0);
    var i := Index(h, t, key).value;
    var after := t.slots[i := Taken(key, val)];
    assert i == Pos(|t.slots|, h(key), e);
    assert Passed(after, h(key), key, 0, e);
    LocateAt(u, after, h(key), key, 0, e);
    assert after[i := Free] == t.slots;
    LocateCorrect(h, u, t, key);
  }

  // ---------- When growth ends ----------

  /** `p` is `n` doubled some number of times. */
  predicate Doubling(n: nat, p: nat)
    requires n > 0
    decreases if p > n then p - n else 0
  {
    p == n || (p > n && Doubling(2 * n, p))
  }

  ghost predicate DistinctMod(h: Str -> nat, keys: set<Str>, p: nat)
    requires p > 0
  {
    forall a, b :: a in keys && b in keys && h(a) % p == h(b) % p ==> a == b
  }

  ghost predicate AtHome<V>(h: Str -> nat, slots: seq<Slot<V>>)
    requires |slots| > 0
  {
    forall j :: 0 <= j < |slots| && slots[j].Taken? ==> h(slots[j].key) % |slots| == j
  }

  /** With distinct homes and every key at home, a put goes straight to its home slot. */
  lemma HomeIsFree<V>(h: Str -> nat, t: Table<V>, key: Str, all: set<Str>)
    requires |t.slots| > 0 && AtHome(h, t.slots) && Unique(t.slots) && t.size < |t.slots| / 2
    requires Contents(t.slots).Keys <= all && key in all && DistinctMod(h, all, |t.slots|)
    ensures Index(h, t, key) == Some(h(key) % |t.slots|)
  {
    var j := h(key) % |t.slots|;
    assert Pos(|t.slots|, h(key), 0) == j;
    if t.slots[j].Taken? {
      ContentsAt(t.slots, j);
      assert t.slots[j].key == key;
    }
  }

  /** The table has room for `p`: it is still smaller, or it has that size and every key is at home. */
  ghost predicate Growing<V>(h: Str -> nat, t: Table<V>, p: nat) {
    |t.slots| > 0 && Doubling(|t.slots|, p) && (|t.slots| == p ==> AtHome(h, t.slots) && t.size < p / 2)
  }

  lemma {:induction false} PutFits<V>(h: Str -> nat, u: iset<Str>, limit: nat, t: Table<V>, key: Str, val: V,
                                         p: nat, all: set<Str>)
    requires Inv(h, u, t) && Distinct(u) && key in u && Lands(h, t, key)
    requires 0 < p <= limit && Growing(h, t, p) && DistinctMod(h, all, p)
    requires Contents(t.slots).Keys <= all && key in all
    ensures var r := Put(h, limit, t, key, val);
            r.ok && Doubling(|r.table.slots|, p) && (|r.table.slots| == p ==> AtHome(h, r.table.slots))
    decreases Room(limit, |t.slots|), 0, 0
  {
    hide Contents, Compact, Probe, Unique, Placed, Lands;
    if |t.slots| == p {
      HomeIsFree(h, t, key, all);
    } else if Index(h, t, key).None? {
      assert Doubling(2 * |t.slots|, p);
      DoublingBounds(2 * |t.slots|, p);
      var blank := Blank<V>(2 * |t.slots|);
      BlankCorrect<V>(h, u, 2 * |t.slots|);
      ReinsertFits(h, u, limit, t.slots, blank, p, all);
      ReinsertCorrect(h, u, limit, t.slots, blank);
      var grown := Reinsert(h, limit, t.slots, blank);
      assert map[] + Contents(t.slots) == Contents(t.slots);
      CompactLands(h, u, grown.table, key);
      PutFits(h, u, limit, grown.table, key, val, p, all);
    }
  }

  lemma {:induction false} ReinsertFits<V>(h: Str -> nat, u: iset<Str>, limit: nat, from: seq<Slot<V>>, t: Table<V>,
                                              p: nat, all: set<Str>)
    requires Inv(h, u, t) && Distinct(u) && Compact(h, t.slots)
    requires Unique(from) && KeysIn(u, from)
    requires forall k :: k in Contents(from) ==> k !in Contents(t.slots)
    requires 0 < p <= limit && Doubling(|t.slots|, p) && (|t.slots| == p ==> AtHome(h, t.slots))
    requires DistinctMod(h, all, p) && Contents(t.slots).Keys <= all && Contents(from).Keys <= all
    requires 4 * (t.size + |Contents(from)|) <= |t.slots|
    ensures var r := Reinsert(h, limit, from, t);
            && r.ok && Doubling(|r.table.slots|, p) && (|r.table.slots| == p ==> AtHome(h, r.table.slots))
            && 4 * r.table.size <= |r.table.slots|
    decreases Room(limit, |t.slots|), 1, |from|
  {
    if from == [] {
    } else {
      UniqueTail(u, from);
      if from[0].Free? {
        ReinsertFits(h, u, limit, from[1..], t, p, all);
      } else {
        var k, v := from[0].key, from[0].val;
        assert k in Contents(from);
        SizeOfUpdate(Contents(from[1..]), k, v);
        SizeOfUpdate(Contents(t.slots), k, v);
        PutFits(h, u, limit, t, k, v, p, all);
        PutCorrect(h, u, limit, t, k, v);
        ReinsertFits(h, u, limit, from[1..], Put(h, limit, t, k, v).table, p, all);
      }
    }
  }

  lemma SizeOfUpdate<V>(m: map<Str, V>, k: Str, v: V)
    requires k !in m
    ensures |m[k := v]| == |m| + 1
  {
    assert m[k := v].Keys == m.Keys + {k};
  }

  lemma {:induction false} DoublingBounds(n: nat, p: nat)
    requires n > 0 && Doubling(n, p)
    ensures n <= p
    decreases if p > n then p - n else 0
  {
    if p == n {
    } else {
      DoublingBounds(2 * n, p);
    }
  }

  /** While entries are reinserted into the doubled table, the half-full test never asks for more room: a
      nested growth can only come from an exhausted window. */
  lemma ReinsertNeverHalfFull<V>(h: Str -> nat, u: iset<Str>, limit: nat, t: Table<V>, i: nat)
    requires Inv(h, u, t) && Distinct(u) && i <= |t.slots|
    ensures var r := Reinsert(h, limit, t.slots[..i], Blank(2 * |t.slots|)); r.table.size < |r.table.slots| / 2
  {
    hide Contents, Compact, Placed, Reinsert;
    var part := t.slots[..i];
    BlankCorrect<V>(h, u, 2 * |t.slots|);
    ReinsertCorrect(h, u, limit, part, Blank(2 * |t.slots|));
    assert map[] + Contents(part) == Contents(part);
    forall k | k in Contents(part) ensures k in Contents(t.slots) {
      ContentsKey(part, k);
      ContentsKey(t.slots, k);
    }
    SubsetSize(Contents(Reinsert(h, limit, part, Blank(2 * |t.slots|)).table.slots).Keys, Contents(t.slots).Keys);
  }

  /** A put ends well when the allocator can supply some doubled size modulo which the hashes differ. */
  lemma PutSucceeds<V>(h: Str -> nat, u: iset<Str>, limit: nat, t: Table<V>, key: Str, val: V, p: nat)
    requires Inv(h, u, t) && Distinct(u) && key in u
    requires |t.slots| < p <= limit && Doubling(|t.slots|, p)
    requires DistinctMod(h, Contents(t.slots).Keys + {key}, p)
    ensures Put(h, limit, t, key, val).ok
  {
    if Lands(h, t, key) {
      PutFits(h, u, limit, t, key, val, p, Contents(t.slots).Keys + {key});
    }
  }

  // ---------- When growth cannot end ----------

  ghost function SameHash(h: Str -> nat, keys: set<Str>, x: nat): set<Str> {
    set k | k in keys && h(k) == x
  }

  /** The stored keys with hash `x` found at the first `d` slots of its window. */
  ghost predicate Within<V>(slots: seq<Slot<V>>, x: nat, d: nat, k: Str)
    requires |slots| > 0
  {
    exists e: nat :: e < d && slots[Pos(|slots|, x, e)].Taken? && slots[Pos(|slots|, x, e)].key == k
  }

  lemma {:induction false} WindowHolds<V>(slots: seq<Slot<V>>, x: nat, d: nat, keys: set<Str>)
    requires |slots| > 0 && forall k :: k in keys ==> Within(slots, x, d, k)
    ensures |keys| <= d
  {
    if d == 0 {
      assert keys == {};
    } else {
      var last := slots[Pos(|slots|, x, d - 1)];
      var fewer := if last.Taken? then keys - {last.key} else keys;
      WindowHolds(slots, x, d - 1, fewer);
    }
  }

  /** A window holds at most eight keys of one hash. */
  lemma AtMostEightPerHash<V>(h: Str -> nat, u: iset<Str>, t: Table<V>, x: nat)
    requires Inv(h, u, t)
    ensures |SameHash(h, Contents(t.slots).Keys, x)| <= WINDOW
  {
    var keys := SameHash(h, Contents(t.slots).Keys, x);
    forall k | k in keys ensures Within(t.slots, x, WINDOW, k) {
      ContentsKey(t.slots, k);
      var j :| 0 <= j < |t.slots| && t.slots[j].Taken? && t.slots[j].key == k;
      assert InWindow(|t.slots|, h(k), j);
    }
    WindowHolds(t.slots, x, WINDOW, keys);
  }

  /** A ninth key with the same hash is refused however large the table may grow. */
  lemma NinthCollisionFails<V>(h: Str -> nat, u: iset<Str>, limit: nat, t: Table<V>, key: Str, val: V)
    requires Inv(h, u, t) && Distinct(u) && key in u && key !in Contents(t.slots)
    requires |SameHash(h, Contents(t.slots).Keys, h(key))| == WINDOW
    ensures !Put(h, limit, t, key, val).ok
  {
    var r := Put(h, limit, t, key, val);
    PutCorrect(h, u, limit, t, key, val);
    if r.ok {
      assert SameHash(h, Contents(r.table.slots).Keys, h(key)) == SameHash(h, Contents(t.slots).Keys, h(key)) + {key};
      AtMostEightPerHash(h, u, r.table, h(key));
    }
  }

  // ---------- Runs ----------

  datatype Op<V> = DoPut(key: Str, val: V) | DoDel(key: Str)

  ghost function MapRun<V>(ops: seq<Op<V>>): map<Str, V> {
    if ops == [] then map[]
    else
      var m, op := MapRun(ops[..|ops| - 1]), ops[|ops| - 1];
      match op
      case DoPut(k, v) => m[k := v]
      case DoDel(k) => m - {k}
  }

  /** The table after a run, and whether every put found memory. The run goes on with what a failed put leaves. */
  ghost function Run<V>(h: Str -> nat, limit: nat, ops: seq<Op<V>>): (r: Outcome<V>)
    ensures |r.table.slots| > 0
  {
    if ops == [] then Outcome(true, Blank(INITIAL))
    else
      var r, op := Run(h, limit, ops[..|ops| - 1]), ops[|ops| - 1];
      match op
      case DoPut(k, v) =>
        var put := Put(h, limit, r.table, k, v);
        Outcome(r.ok && put.ok, put.table)
      case DoDel(k) => Outcome(r.ok, Del(h, r.table, k))
  }

  ghost predicate NoDeletes<V>(ops: seq<Op<V>>) {
    forall i :: 0 <= i < |ops| ==> ops[i].DoPut?
  }

  /** Puts name absent keys, unless nothing has been deleted before them. */
  ghost predicate Admissible<V>(ops: seq<Op<V>>) {
    forall i :: 0 <= i < |ops| && ops[i].DoPut? ==> ops[i].key !in MapRun(ops[..i]) || NoDeletes(ops[..i])
  }

  lemma AdmissibleSnoc<V>(ops: seq<Op<V>>)
    requires ops != [] && Admissible(ops[..|ops| - 1])
    requires ops[|ops| - 1].DoPut? ==> ops[|ops| - 1].key !in MapRun(ops[..|ops| - 1])
    ensures Admissible(ops)
  {
    var before := ops[..|ops| - 1];
    forall i | 0 <= i < |ops| && ops[i].DoPut? ensures ops[i].key !in MapRun(ops[..i]) || NoDeletes(ops[..i]) {
      if i < |before| {
        assert before[i] == ops[i] && before[..i] == ops[..i];
      }
    }
  }

  /** No put of the run falls into a gap in front of its own key. */
  ghost predicate AllLand<V>(h: Str -> nat, limit: nat, ops: seq<Op<V>>) {
    forall i :: 0 <= i < |ops| && ops[i].DoPut? ==> Lands(h, Run(h, limit, ops[..i]).table, ops[i].key)
  }

  lemma AllLandBefore<V>(h: Str -> nat, limit: nat, ops: seq<Op<V>>)
    requires ops != [] && AllLand(h, limit, ops)
    ensures AllLand(h, limit, ops[..|ops| - 1])
    ensures ops[|ops| - 1].DoPut? ==> Lands(h, Run(h, limit, ops[..|ops| - 1]).table, ops[|ops| - 1].key)
  {
    var before := ops[..|ops| - 1];
    assert forall i :: 0 <= i < |before| ==> before[i] == ops[i] && before[..i] == ops[..i];
  }

  /** When every put lands, the table equals a finite map, at most half full, for as long as no put fails; from then
      on it may lack entries but never gains one. */
  lemma {:induction false} RunRefinesMap<V>(h: Str -> nat, u: iset<Str>, limit: nat, ops: seq<Op<V>>)
    requires Distinct(u) && AllLand(h, limit, ops) && forall i :: 0 <= i < |ops| ==> ops[i].key in u
    ensures var r := Run(h, limit, ops);
            && Inv(h, u, r.table) && Contents(r.table.slots).Keys <= MapRun(ops).Keys
            && (r.ok ==> Contents(r.table.slots) == MapRun(ops))
            && (NoDeletes(ops) ==> Compact(h, r.table.slots))
  {
    if ops == [] {
      BlankCorrect<V>(h, u, INITIAL);
    } else {
      var before, op := ops[..|ops| - 1], ops[|ops| - 1];
      assert forall i :: 0 <= i < |before| ==> before[i] == ops[i];
      AllLandBefore(h, limit, ops);
      RunRefinesMap(h, u, limit, before);
      var t := Run(h, limit, before).table;
      match op {
        case DoPut(k, v) => PutCorrect(h, u, limit, t, k, v);
        case DoDel(k) => DelIsRemoval(h, u, t, k);
      }
    }
  }

  /** The condition is exact: the invariant holds all along the run if and only if every put lands. */
  lemma {:induction false} RunKeepsInvIff<V>(h: Str -> nat, u: iset<Str>, limit: nat, ops: seq<Op<V>>)
    requires Distinct(u) && forall i :: 0 <= i < |ops| ==> ops[i].key in u
    ensures AllLand(h, limit, ops) <==> forall i :: 0 <= i <= |ops| ==> Inv(h, u, Run(h, limit, ops[..i]).table)
  {
    if AllLand(h, limit, ops) {
      forall i | 0 <= i <= |ops| ensures Inv(h, u, Run(h, limit, ops[..i]).table) {
        var part := ops[..i];
        assert forall j :: 0 <= j < |part| ==> part[j] == ops[j] && part[..j] == ops[..j];
        RunRefinesMap(h, u, limit, part);
      }
    }
    if forall i :: 0 <= i <= |ops| ==> Inv(h, u, Run(h, limit, ops[..i]).table) {
      forall i | 0 <= i < |ops| && ops[i].DoPut? ensures Lands(h, Run(h, limit, ops[..i]).table, ops[i].key) {
        assert Inv(h, u, Run(h, limit, ops[..i]).table) && Inv(h, u, Run(h, limit, ops[..i + 1]).table);
        assert ops[..i + 1][..i] == ops[..i];
        PutKeepsInvIff(h, u, limit, Run(h, limit, ops[..i]).table, ops[i].key, ops[i].val);
      }
    }
  }

  lemma AllLandSnoc<V>(h: Str -> nat, limit: nat, ops: seq<Op<V>>)
    requires ops != [] && AllLand(h, limit, ops[..|ops| - 1])
    requires ops[|ops| - 1].DoPut? ==> Lands(h, Run(h, limit, ops[..|ops| - 1]).table, ops[|ops| - 1].key)
    ensures AllLand(h, limit, ops)
  {
    hide Lands, Run;
    var before := ops[..|ops| - 1];
    forall i | 0 <= i < |ops| && ops[i].DoPut? ensures Lands(h, Run(h, limit, ops[..i]).table, ops[i].key) {
      assert i < |before| ==> before[i] == ops[i] && before[..i] == ops[..i];
    }
  }

  lemma NoPutsLand<V>(h: Str -> nat, limit: nat)
    ensures AllLand<V>(h, limit, [])
  {
  }

  lemma AbsentLands<V>(h: Str -> nat, t: Table<V>, key: Str)
    requires |t.slots| > 0 && key !in Contents(t.slots)
    ensures Lands(h, t, key)
  {
  }

  /** Puts of absent keys land whatever was deleted, and so do all puts as long as nothing was. */
  lemma {:induction false} AdmissibleLands<V>(h: Str -> nat, u: iset<Str>, limit: nat, ops: seq<Op<V>>)
    requires Distinct(u) && Admissible(ops) && forall i :: 0 <= i < |ops| ==> ops[i].key in u
    ensures AllLand(h, limit, ops)
  {
    hide Lands, Inv, Compact, Run, AllLand;
    if ops == [] {
      NoPutsLand<V>(h, limit);
    } else {
      var before, op := ops[..|ops| - 1], ops[|ops| - 1];
      assert forall i :: 0 <= i < |before| ==> before[i] == ops[i] && before[..i] == ops[..i];
      AdmissibleLands(h, u, limit, before);
      RunRefinesMap(h, u, limit, before);
      var t := Run(h, limit, before).table;
      if op.DoPut? {
        assert op.key !in MapRun(before) || NoDeletes(before);
        if NoDeletes(before) { CompactLands(h, u, t, op.key); } else { AbsentLands(h, t, op.key); }
      }
      AllLandSnoc(h, limit, ops);
    }
  }

  lemma DelKeepsHome<V>(h: Str -> nat, t: Table<V>, key: Str)
    requires |t.slots| > 0 && AtHome(h, t.slots)
    ensures AtHome(h, Del(h, t, key).slots)
  {
  }

  /** At every put, the hashes of the keys then stored and of the new one differ modulo `p`, which leaves them room. */
  ghost predicate Roomy<V>(h: Str -> nat, ops: seq<Op<V>>, p: nat)
    requires p > 0
  {
    forall i :: 0 <= i < |ops| && ops[i].DoPut? ==>
      |MapRun(ops[..i])| < p / 2 && DistinctMod(h, MapRun(ops[..i]).Keys + {ops[i].key}, p)
  }

  /** No put of a run fails when the live keys always differ modulo a size that the allocator can supply, however
      many keys have come and gone. */
  lemma {:induction false} RunSucceeds<V>(h: Str -> nat, u: iset<Str>, limit: nat, ops: seq<Op<V>>, p: nat)
    requires Distinct(u) && AllLand(h, limit, ops) && forall i :: 0 <= i < |ops| ==> ops[i].key in u
    requires 0 < p <= limit && Doubling(INITIAL, p) && Roomy(h, ops, p)
    ensures var r := Run(h, limit, ops);
            r.ok && Doubling(|r.table.slots|, p) && (|r.table.slots| == p ==> AtHome(h, r.table.slots))
  {
    if ops == [] {
    } else {
      var before, op := ops[..|ops| - 1], ops[|ops| - 1];
      assert forall i :: 0 <= i < |before| ==> before[i] == ops[i] && before[..i] == ops[..i];
      AllLandBefore(h, limit, ops);
      RunSucceeds(h, u, limit, before, p);
      RunRefinesMap(h, u, limit, before);
      var t := Run(h, limit, before).table;
      match op {
        case DoPut(k, v) =>
          assert |MapRun(before)| < p / 2 && DistinctMod(h, MapRun(before).Keys + {k}, p);
          PutFits(h, u, limit, t, k, v, p, MapRun(before).Keys + {k});
        case DoDel(k) =>
          if |t.slots| == p { DelKeepsHome(h, t, k); }
      }
    }
  }

  lemma {:induction false} SubsetSize(a: set<Str>, b: set<Str>)
    requires a <= b
    ensures |a| <= |b|
  {
    if a == {} {
    } else {
      var x :| x in a;
      SubsetSize(a - {x}, b - {x});
    }
  }

  /** The gap left by a deletion: putting a key again in front of itself stores it twice. */
  lemma PutIntoGapDuplicates()
    ensures var h := (k: Str) => 0;
            var ops := [DoPut([97], 1), DoPut([98], 2), DoDel([97]), DoPut([98], 3)];
            var r := Run(h, INITIAL, ops);
            r.ok && r.table.size == 2 && |MapRun(ops)| == 1
  {
    var h := (k: Str) => 0;
    var a, b: Str := [97], [98];
    var o1, o2, o3, o4 := [DoPut(a, 1)], [DoPut(a, 1), DoPut(b, 2)], [DoPut(a, 1), DoPut(b, 2), DoDel(a)],
                          [DoPut(a, 1), DoPut(b, 2), DoDel(a), DoPut(b, 3)];
    assert o1[..0] == [] && o2[..1] == o1 && o3[..2] == o2 && o4[..3] == o3;
    GapTables(h, a, b);
    assert Run(h, INITIAL, o1) == Outcome(true, Table([Taken(a, 1), Free, Free, Free], 1));
    assert Run(h, INITIAL, o2) == Outcome(true, Table([Taken(a, 1), Taken(b, 2), Free, Free], 2));
    assert Run(h, INITIAL, o3) == Outcome(true, Table([Free, Taken(b, 2), Free, Free], 1));
    GapMap(a, b);
    assert |map[b := 3]| == 1;
  }

  lemma GapMap(a: Str, b: Str)
    requires a == [97] && b == [98]
    ensures MapRun([DoPut(a, 1), DoPut(b, 2), DoDel(a), DoPut(b, 3)]) == map[b := 3]
  {
    var o1, o2, o3, o4 := [DoPut(a, 1)], [DoPut(a, 1), DoPut(b, 2)], [DoPut(a, 1), DoPut(b, 2), DoDel(a)],
                          [DoPut(a, 1), DoPut(b, 2), DoDel(a), DoPut(b, 3)];
    assert o1[..0] == [] && o2[..1] == o1 && o3[..2] == o2 && o4[..3] == o3;
    assert MapRun(o1) == map[a := 1];
    assert a[0] != b[0];
    assert MapRun(o3) == map[b := 2];
  }

  lemma GapTables(h: Str -> nat, a: Str, b: Str)
    requires a == [97] && b == [98] && h(a) == h(b) == 0
    ensures Put(h, INITIAL, Blank<int>(INITIAL), a, 1) == Outcome(true, Table([Taken(a, 1), Free, Free, Free], 1))
    ensures Put(h, INITIAL, Table([Taken(a, 1), Free, Free, Free], 1), b, 2)
            == Outcome(true, Table([Taken(a, 1), Taken(b, 2), Free, Free], 2))
    ensures Del(h, Table([Taken(a, 1), Taken(b, 2), Free, Free], 2), a) == Table([Free, Taken(b, 2), Free, Free], 1)
    ensures Put(h, INITIAL, Table([Free, Taken(b, 2), Free, Free], 1), b, 3)
            == Outcome(true, Table([Taken(b, 3), Taken(b, 2), Free, Free], 2))
  {
    assert Lower(a[0]) != Lower(b[0]);
    assert !PrefixCI(a, b) && PrefixCI(a, a);
    assert Probe([Taken(a, 1), Free, Free, Free], 0, b, 1) == Some(1);
  }
}
