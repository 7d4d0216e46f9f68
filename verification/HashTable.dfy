/** The hashtable of hashtable.c: an array of slots that is probed, overwritten and, when full, replaced. */
module HashTables {
  import opened Bytes
  import HS = HashSpec

  class HashTable<V> {
    const h: Str -> nat
    const limit: nat
    var entries: array<HS.Slot<V>>
    var size: nat

    ghost function State(): HS.Table<V>
      reads this, entries
    {
      HS.Table(entries[..], size)
    }

    constructor (h: Str -> nat, limit: nat)
      ensures fresh(entries) && State() == HS.Blank(HS.INITIAL) && this.h == h && this.limit == limit
    {
      this.h, this.limit, size := h, limit, 0;
      entries := new HS.Slot<V>[HS.INITIAL](_ => HS.Free);
    }

    /** Linear probing for a put; -1 stands for a full table or an exhausted window. */
    method FindIndex(key: Str) returns (index: int)
      requires entries.Length > 0
      ensures index == -1 || 0 <= index < entries.Length
      ensures HS.Index(h, State(), key) == if index == -1 then None else Some(index)
    {
      if size >= entries.Length / 2 {
        return -1;
      }
      var hash := h(key);
      var curr := hash % entries.Length;
      for i := 0 to HS.WINDOW
        invariant curr == HS.Pos(entries.Length, hash, i)
        invariant HS.Probe(entries[..], hash, key, 0) == HS.Probe(entries[..], hash, key, i)
      {
        if entries[curr].Free? {
          return curr;
        }
        if PrefixCI(entries[curr].key, key) {
          return curr;
        }
        HS.NextWraps(entries.Length, curr);
        curr := (curr + 1) % entries.Length;
      }
      return -1;
    }

    /** Linear probing for a lookup; free slots are passed over. */
    method FindEntry(key: Str) returns (index: int)
      requires entries.Length > 0
      ensures index == -1 || 0 <= index < entries.Length
      ensures HS.Locate(entries[..], h(key), key, 0) == if index == -1 then None else Some(index)
    {
      var hash := h(key);
      var curr := hash % entries.Length;
      for i := 0 to HS.WINDOW
        invariant curr == HS.Pos(entries.Length, hash, i)
        invariant HS.Locate(entries[..], hash, key, 0) == HS.Locate(entries[..], hash, key, i)
      {
        if entries[curr].Taken? && PrefixCI(key, entries[curr].key) {
          return curr;
        }
        HS.NextWraps(entries.Length, curr);
        curr := (curr + 1) % entries.Length;
      }
      return -1;
    }

    method Get(key: Str) returns (r: Option<V>)
      requires entries.Length > 0
      ensures r == HS.Get(h, State(), key)
    {
      var index := FindEntry(key);
      r := if index == -1 then None else Some(entries[index].val);
    }

    method Del(key: Str) returns (ok: bool)
      requires entries.Length > 0
      modifies this`size, entries
      ensures State() == HS.Del(h, old(State()), key)
      ensures ok <==> HS.Get(h, old(State()), key).Some?
    {
      var index := FindEntry(key);
      ok := index != -1;
      if ok {
        entries[index] := HS.Free;
        size := if size > 0 then size - 1 else HS.SIZE_MAX;
      }
    }

    method Put(key: Str, val: V) returns (ok: bool)
      requires entries.Length > 0
      modifies this`entries, this`size, entries
      ensures HS.Outcome(ok, State()) == HS.Put(h, limit, old(State()), key, val)
      ensures entries == old(entries) || fresh(entries)
      decreases HS.Room(limit, entries.Length), 1
    {
      var index := FindIndex(key);
      while index == -1
        invariant entries.Length >= old(entries.Length) && (entries == old(entries) || fresh(entries))
        invariant index == -1 || 0 <= index < entries.Length
        invariant HS.Index(h, State(), key) == if index == -1 then None else Some(index)
        invariant HS.Put(h, limit, State(), key, val) == HS.Put(h, limit, old(State()), key, val)
        decreases HS.Room(limit, entries.Length), index == -1
      {
        var done := Rehash();
        if !done {
          return false;
        }
        index := FindIndex(key);
      }
      ghost var before := State();
      if entries[index].Free? {
        size := size + 1;
      }
      entries[index] := HS.Taken(key, val);
      assert State() == HS.Store(before, index, key, val);
      ok := true;
    }

    /** Double the table and put every entry again; without memory for it, leave the table alone. */
    method Rehash() returns (ok: bool)
      requires entries.Length > 0
      modifies this`entries, this`size, entries
      ensures 2 * old(entries.Length) > limit ==> !ok && entries == old(entries) && State() == old(State())
      ensures 2 * old(entries.Length) <= limit ==>
                && fresh(entries)
                && HS.Outcome(ok, State())
                   == HS.Reinsert(h, limit, old(State()).slots, HS.Blank(2 * old(entries.Length)))
      decreases HS.Room(limit, entries.Length), 0
    {
      if 2 * entries.Length > limit {
        return false;
      }
      var curr := entries;
      entries := new HS.Slot<V>[2 * curr.Length](_ => HS.Free);
      size := 0;
      assert State() == HS.Blank(2 * curr.Length);
      ghost var goal := HS.Reinsert(h, limit, curr[..], State());
      for i := 0 to curr.Length
        invariant fresh(entries) && entries != curr && entries.Length >= 2 * curr.Length
        invariant curr[..] == old(entries[..])
        invariant HS.Reinsert(h, limit, curr[i..], State()) == goal
      {
        assert curr[i..][1..] == curr[i + 1..];
        if curr[i].Free? {
          continue;
        }
        var put := Put(curr[i].key, curr[i].val);
        if !put {
          return false;
        }
      }
      ok := true;
    }
  }
}
