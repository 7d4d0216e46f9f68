/** The bookkeeping of connections in server.c: a closure per client in the hashtable, and two counters. */
module Connections {
  import opened Bytes
  import Codec
  import HS = HashSpec
  import Wire
  import opened HashTables

  /** A client is accepted, or dropped: by a second CONNECT, a DISCONNECT or a malformed packet. */
  datatype Event = Accepted(id: Str, fd: int) | Dropped(id: Str)

  function ToOp(e: Event): HS.Op<int> {
    match e
    case Accepted(id, fd) => HS.DoPut(id, fd)
    case Dropped(id) => HS.DoDel(id)
  }

  function Ops(events: seq<Event>): (r: seq<HS.Op<int>>)
    ensures |r| == |events|
  {
    seq(|events|, i requires 0 <= i < |events| => ToOp(events[i]))
  }

  /** The counter: one up for each accepted client, one down for each dropped one. */
  function Clients(events: seq<Event>): int {
    if events == [] then 0
    else Clients(events[..|events| - 1]) + if events[|events| - 1].Accepted? then 1 else -1
  }

  /** The connections since the start, as `nconnections` is documented. */
  function Total(events: seq<Event>): nat {
    if events == [] then 0
    else Total(events[..|events| - 1]) + if events[|events| - 1].Accepted? then 1 else 0
  }

  /** The counter is that total exactly as long as nobody has been dropped. */
  lemma {:induction false} TotalIff(events: seq<Event>)
    ensures Clients(events) <= Total(events)
    ensures Clients(events) == Total(events) <==> forall i :: 0 <= i < |events| ==> events[i].Accepted?
  {
    if events == [] {
    } else {
      var before := events[..|events| - 1];
      TotalIff(before);
      assert forall i :: 0 <= i < |before| ==> before[i] == events[i];
    }
  }

  /** Ids are fresh when accepted and live when dropped. */
  ghost predicate Proper(events: seq<Event>) {
    events == [] ||
    var before, e := events[..|events| - 1], events[|events| - 1];
    Proper(before) && (e.Accepted? <==> e.id !in HS.MapRun(Ops(before)))
  }

  lemma OpsSnoc(events: seq<Event>)
    requires events != []
    ensures Ops(events) == Ops(events[..|events| - 1]) + [ToOp(events[|events| - 1])]
    ensures Ops(events)[..|events| - 1] == Ops(events[..|events| - 1])
  {
  }

  lemma {:induction false} ProperAdmissible(events: seq<Event>)
    requires Proper(events)
    ensures HS.Admissible(Ops(events))
  {
    hide Ops, HS.MapRun;
    if events == [] {
    } else {
      ProperAdmissible(events[..|events| - 1]);
      OpsSnoc(events);
      HS.AdmissibleSnoc(Ops(events));
    }
  }

  lemma {:induction false} ClientsCountEntries(events: seq<Event>)
    requires Proper(events)
    ensures Clients(events) == |HS.MapRun(Ops(events))|
  {
    hide Ops;
    if events == [] {
    } else {
      var before, e := events[..|events| - 1], events[|events| - 1];
      ClientsCountEntries(before);
      OpsSnoc(events);
      OneMoreEvent(HS.MapRun(Ops(before)), e);
    }
  }

  lemma OneMoreEvent(m: map<Str, int>, e: Event)
    ensures e.Accepted? && e.id !in m ==> |m[e.id := e.fd]| == |m| + 1
    ensures e.Dropped? && e.id in m ==> |m - {e.id}| == |m| - 1
  {
    if e.Accepted? {
      assert m[e.id := e.fd].Keys == m.Keys + {e.id};
    } else {
      assert (m - {e.id}).Keys == m.Keys - {e.id};
    }
  }

  /** Over any proper run the table never holds more entries than the counter says, and as many exactly when
      every live client is stored. So it is as long as no put has failed. */
  lemma CounterMatchesTable(h: Str -> nat, u: iset<Str>, limit: nat, events: seq<Event>)
    requires HS.Distinct(u) && Proper(events) && forall i :: 0 <= i < |events| ==> events[i].id in u
    ensures var r := HS.Run(h, limit, Ops(events));
            && HS.Inv(h, u, r.table) && r.table.size <= Clients(events)
            && HS.Contents(r.table.slots).Keys <= HS.MapRun(Ops(events)).Keys
            && (r.table.size == Clients(events) <==> HS.Contents(r.table.slots).Keys == HS.MapRun(Ops(events)).Keys)
            && (r.ok ==> r.table.size == Clients(events) && HS.Contents(r.table.slots) == HS.MapRun(Ops(events)))
  {
    hide HS.Contents, HS.MapRun, HS.Run;
    ProperAdmissible(events);
    ClientsCountEntries(events);
    HS.AdmissibleLands(h, u, limit, Ops(events));
    HS.RunRefinesMap(h, u, limit, Ops(events));
    var stored, live := HS.Contents(HS.Run(h, limit, Ops(events)).table.slots).Keys, HS.MapRun(Ops(events)).Keys;
    HS.SubsetSize(stored, live);
    if |stored| == |live| { SameSizeSubset(stored, live); }
  }

  lemma SameSizeSubset(a: set<Str>, b: set<Str>)
    requires a <= b && |a| == |b|
    ensures a == b
  {
    if x :| x in b && x !in a {
      HS.SubsetSize(a, b - {x});
    }
  }

  /** No put fails, whatever the number of clients that have come and gone, while the hashes of the live ids differ
      modulo a size that the allocator can supply. */
  lemma NoClientLost(h: Str -> nat, u: iset<Str>, limit: nat, events: seq<Event>, p: nat)
    requires HS.Distinct(u) && Proper(events) && forall i :: 0 <= i < |events| ==> events[i].id in u
    requires 0 < p <= limit && HS.Doubling(HS.INITIAL, p) && HS.Roomy(h, Ops(events), p)
    ensures HS.Run(h, limit, Ops(events)).ok
    ensures HS.Run(h, limit, Ops(events)).table.size == Clients(events)
  {
    ProperAdmissible(events);
    HS.AdmissibleLands(h, u, limit, Ops(events));
    HS.RunSucceeds(h, u, limit, Ops(events), p);
    CounterMatchesTable(h, u, limit, events);
  }

  /** Accepting a client keeps the counter right if and only if the put, whose status is not looked at, succeeds. */
  lemma AcceptKeepsCountIff(h: Str -> nat, u: iset<Str>, limit: nat, events: seq<Event>, id: Str, fd: int)
    requires HS.Distinct(u) && Proper(events + [Accepted(id, fd)]) && id in u
    requires forall i :: 0 <= i < |events| ==> events[i].id in u
    requires HS.Run(h, limit, Ops(events)).table.size == Clients(events)
    ensures var r, r' := HS.Run(h, limit, Ops(events)), HS.Run(h, limit, Ops(events + [Accepted(id, fd)]));
            && (r'.table.size == Clients(events + [Accepted(id, fd)]) <==> HS.Put(h, limit, r.table, id, fd).ok)
            && (r.ok ==> (r'.table.size == Clients(events + [Accepted(id, fd)]) <==> r'.ok))
  {
    hide HS.Contents, HS.MapRun, HS.Put;
    var all := events + [Accepted(id, fd)];
    assert all[..|all| - 1] == events;
    OpsSnoc(all);
    CounterMatchesTable(h, u, limit, events);
    var t := HS.Run(h, limit, Ops(events)).table;
    var put := HS.Put(h, limit, t, id, fd);
    assert id !in HS.Contents(t.slots);
    HS.AbsentLands(h, t, id);
    HS.PutCorrect(h, u, limit, t, id, fd);
    if put.ok {
      HS.SizeOfUpdate(HS.Contents(t.slots), id, fd);
    } else {
      HS.SubsetSize(HS.Contents(put.table.slots).Keys, HS.Contents(t.slots).Keys);
    }
  }

  /** A run that miscounts: with memory for four slots the third client is counted but not stored. */
  lemma ThirdClientLost()
    ensures var h := (k: Str) => if k == [] then 0 else k[0];
            var events := [Accepted([97], 1), Accepted([98], 2), Accepted([99], 3)];
            var r := HS.Run(h, 4, Ops(events));
            Proper(events) && Clients(events) == 3 && !r.ok && r.table.size == 2
  {
    var h: Str -> nat := (k: Str) => if k == [] then 0 else k[0];
    var a, b, c: Str := [97], [98], [99];
    var events := [Accepted(a, 1), Accepted(b, 2), Accepted(c, 3)];
    ThreeAccepted(a, b, c);
    ThirdClientTables(h, a, b, c);
    RunThree(h, HS.DoPut(a, 1), HS.DoPut(b, 2), HS.DoPut(c, 3));
    assert Ops(events) == [HS.DoPut(a, 1), HS.DoPut(b, 2), HS.DoPut(c, 3)];
  }

  /** Three clients with ids of their own. */
  lemma ThreeAccepted(a: Str, b: Str, c: Str)
    requires a != b && b != c && a != c
    ensures var events := [Accepted(a, 1), Accepted(b, 2), Accepted(c, 3)]; Proper(events) && Clients(events) == 3
  {
    var e0: seq<Event> := [];
    var e1, e2, e3 := e0 + [Accepted(a, 1)], [Accepted(a, 1), Accepted(b, 2)],
                      [Accepted(a, 1), Accepted(b, 2), Accepted(c, 3)];
    assert e1[..0] == e0 && e2[..1] == e1 && e3[..2] == e2;
    OpsSnoc(e1);
    OpsSnoc(e2);
    assert HS.MapRun(Ops(e0)) == map[];
    assert HS.MapRun(Ops(e1)) == map[a := 1];
    assert HS.MapRun(Ops(e2)) == map[a := 1, b := 2];
    assert Proper(e0) && Proper(e1) && Proper(e2);
    assert Clients(e0) == 0 && Clients(e1) == 1 && Clients(e2) == 2;
  }

  /** A run of three puts, step by step. */
  lemma RunThree(h: Str -> nat, x: HS.Op<int>, y: HS.Op<int>, z: HS.Op<int>)
    requires x.DoPut? && y.DoPut? && z.DoPut?
    ensures var r1 := HS.Put(h, 4, HS.Blank(4), x.key, x.val);
            var r2 := HS.Put(h, 4, r1.table, y.key, y.val);
            var r3 := HS.Put(h, 4, r2.table, z.key, z.val);
            HS.Run(h, 4, [x, y, z]) == HS.Outcome(r1.ok && r2.ok && r3.ok, r3.table)
  {
    hide HS.Put;
    assert [x][..0] == [] && [x, y][..1] == [x] && [x, y, z][..2] == [x, y];
    assert HS.Run<int>(h, 4, []) == HS.Outcome(true, HS.Blank(4));
    assert HS.Run(h, 4, [x]) == HS.Put(h, 4, HS.Blank(4), x.key, x.val);
  }

  lemma ThirdClientTables(h: Str -> nat, a: Str, b: Str, c: Str)
    requires a == [97] && b == [98] && c == [99] && h(a) == 97 && h(b) == 98
    ensures HS.Put(h, 4, HS.Blank<int>(4), a, 1)
            == HS.Outcome(true, HS.Table([HS.Free, HS.Taken(a, 1), HS.Free, HS.Free], 1))
    ensures HS.Put(h, 4, HS.Table([HS.Free, HS.Taken(a, 1), HS.Free, HS.Free], 1), b, 2)
            == HS.Outcome(true, HS.Table([HS.Free, HS.Taken(a, 1), HS.Taken(b, 2), HS.Free], 2))
    ensures var full := HS.Table([HS.Free, HS.Taken(a, 1), HS.Taken(b, 2), HS.Free], 2);
            HS.Put(h, 4, full, c, 3) == HS.Outcome(false, full)
  {
  }

  class Server {
    const closures: HashTable<int>
    /** The connected clients by their own ids. */
    const clients: HashTable<int>
    var nclients: int
    var nconnections: int
    /** The reply staged for the client being served. */
    var staged: Option<Str>
    ghost var history: seq<Event>

    /** The counters and the table are those that the history calls for. */
    ghost predicate Valid()
      reads this, closures, closures.entries, clients, clients.entries
    {
      && nclients == nconnections == Clients(history)
      && closures != clients && closures.entries != clients.entries
      && closures.entries.Length > 0 && clients.entries.Length > 0
      && closures.State() == HS.Run(closures.h, closures.limit, Ops(history)).table
    }

    constructor (h: Str -> nat, limit: nat)
      ensures Valid() && history == []
      ensures fresh(closures) && fresh(closures.entries) && fresh(clients) && fresh(clients.entries)
      ensures closures.h == h && closures.limit == limit && clients.State() == HS.Blank(HS.INITIAL)
    {
      closures := new HashTable<int>(h, limit);
      clients := new HashTable<int>(h, limit);
      nclients, nconnections, staged, history := 0, 0, None, [];
      new;
      assert Ops([]) == [];
      assert HS.Run(h, limit, Ops([])) == HS.Outcome(true, HS.Blank(HS.INITIAL));
    }

    /** In every reachable state of a proper history the counter is the number of entries in the table, as long as
        no put has failed, and never less than that. */
    lemma CounterIsTableSize(u: iset<Str>)
      requires Valid() && HS.Distinct(u) && Proper(history)
      requires forall i :: 0 <= i < |history| ==> history[i].id in u
      ensures closures.size == |HS.Contents(closures.entries[..])| <= nclients
      ensures HS.Run(closures.h, closures.limit, Ops(history)).ok ==> closures.size == nclients
    {
      CounterMatchesTable(closures.h, u, closures.limit, history);
    }

    /** `nconnections` is the total number of connections if and only if nobody has been dropped, and else less. */
    lemma ConnectionsTotalIff()
      requires Valid()
      ensures nconnections <= Total(history)
      ensures nconnections == Total(history) <==> forall i :: 0 <= i < |history| ==> history[i].Accepted?
    {
      TotalIff(history);
    }

    /** The status of the put is not looked at: the counters go up in any case. */
    method OnAccept(id: Str, fd: int)
      requires Valid()
      modifies this, closures, closures.entries
      ensures Valid() && history == old(history) + [Accepted(id, fd)]
      ensures nclients == old(nclients) + 1
      ensures closures.entries == old(closures.entries) || fresh(closures.entries)
    {
      hide HS.Put, HS.Del, HS.Get, HS.MapRun;
      RunStep(history, Accepted(id, fd));
      var _ := closures.Put(id, fd);
      nclients, nconnections := nclients + 1, nconnections + 1;
      history := history + [Accepted(id, fd)];
    }

    /** A second CONNECT under a client id drops the connection; a first one stores the client and stages a CONNACK that
        accepts it. */
    method OnConnect(id: Str, fd: int, clientId: Str) returns (dropped: bool)
      requires Valid()
      modifies this, closures, closures.entries, clients, clients.entries
      ensures Valid() && closures.entries == old(closures.entries)
      ensures clients.entries == old(clients.entries) || fresh(clients.entries)
      ensures dropped <==> HS.Get(clients.h, old(clients.State()), clientId).Some?
      ensures history == if dropped then old(history) + [Dropped(id)] else old(history)
      ensures clients.State() == if dropped then HS.Del(clients.h, old(clients.State()), clientId)
                                 else HS.Put(clients.h, clients.limit, old(clients.State()), clientId, fd).table
      ensures staged == if dropped then old(staged) else Some(Wire.ConnackFrame(0, 0))
    {
      hide HS.Put, HS.Del, HS.Get, HS.Run;
      var known := clients.Get(clientId);
      dropped := known.Some?;
      if dropped {
        Drop(id, clientId);
      } else {
        var _ := clients.Put(clientId, fd);
        var packed := Codec.PackConnack(0, 0);
        staged := Some(packed[..]);
      }
    }

    /** DISCONNECT, and the same steps on the error path and after a second CONNECT. */
    method Drop(id: Str, clientId: Str)
      requires Valid()
      modifies this, closures, closures.entries, clients, clients.entries
      ensures Valid() && closures.entries == old(closures.entries) && clients.entries == old(clients.entries)
      ensures history == old(history) + [Dropped(id)] && nclients == old(nclients) - 1 && staged == old(staged)
      ensures clients.State() == HS.Del(clients.h, old(clients.State()), clientId)
    {
      hide HS.Put, HS.Del, HS.Get, HS.MapRun;
      RunStep(history, Dropped(id));
      var _ := clients.Del(clientId);
      var _ := closures.Del(id);
      nclients, nconnections := nclients - 1, nconnections - 1;
      history := history + [Dropped(id)];
    }
  }

  lemma RunStep(events: seq<Event>, e: Event)
    ensures Ops(events + [e])[..|events|] == Ops(events) && Ops(events + [e])[|events|] == ToOp(e)
    ensures (events + [e])[..|events|] == events
  {
  }
}
