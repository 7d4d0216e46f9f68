/** SUBSCRIBE packets with several filters: how the filters of one packet interfere. */
module Packets {
  import opened Bytes
  import opened BrokerSpec

  ghost predicate AnyWildcard(tuples: seq<(Str, byte)>) {
    exists i :: 0 <= i < |tuples| && IsWildcard(tuples[i].0)
  }

  /** The subscriptions of one SUBSCRIBE packet. The wildcard flag is never reset between filters. */
  ghost function PacketEvents(fd: int, tuples: seq<(Str, byte)>): (r: seq<Event>)
    ensures |r| == |tuples|
  {
    if tuples == [] then []
    else
      var (filter, qos) := tuples[|tuples| - 1];
      PacketEvents(fd, tuples[..|tuples| - 1]) + [Subscribed(filter, Subscriber(fd, qos), AnyWildcard(tuples))]
  }

  lemma {:induction false} PacketEventAt(fd: int, tuples: seq<(Str, byte)>, i: nat)
    requires i < |tuples|
    ensures PacketEvents(fd, tuples)[i]
         == Subscribed(tuples[i].0, Subscriber(fd, tuples[i].1), AnyWildcard(tuples[..i + 1]))
  {
    if i == |tuples| - 1 {
      assert tuples[..i + 1] == tuples;
    } else {
      PacketEventAt(fd, tuples[..|tuples| - 1], i);
      assert tuples[..|tuples| - 1][..i + 1] == tuples[..i + 1];
    }
  }

  /** The same filters, each in a packet of its own. */
  ghost function Alone(fd: int, tuples: seq<(Str, byte)>): (r: seq<Event>)
    ensures |r| == |tuples|
  {
    if tuples == [] then []
    else Alone(fd, tuples[..|tuples| - 1]) + PacketEvents(fd, [tuples[|tuples| - 1]])
  }

  lemma OwnPacket(fd: int, t: (Str, byte))
    ensures PacketEvents(fd, [t]) == [Subscribed(t.0, Subscriber(fd, t.1), IsWildcard(t.0))]
  {
    hide IsWildcard;
    assert [t][..0] == [] && [t][0] == t;
    assert AnyWildcard([t]) <==> IsWildcard(t.0);
  }

  lemma {:induction false} PacketsPossible(fd: int, tuples: seq<(Str, byte)>)
    requires forall i :: 0 <= i < |tuples| ==> tuples[i].0 != []
    ensures AllPossible(PacketEvents(fd, tuples)) && AllPossible(Alone(fd, tuples))
  {
    hide IsWildcard;
    if tuples == [] {
    } else {
      var last := |tuples| - 1;
      PacketsPossible(fd, tuples[..last]);
      OwnPacket(fd, tuples[last]);
      assert IsWildcard(tuples[last].0) ==> AnyWildcard(tuples);
    }
  }

  /** Filter `j` is plain, stands behind a wildcard, and names a topic that is stored when its turn comes. */
  ghost predicate Leaks(names: set<Str>, tuples: seq<(Str, byte)>, j: nat)
    requires j < |tuples| && forall i :: 0 <= i < |tuples| ==> tuples[i].0 != []
  {
    && !IsWildcard(tuples[j].0) && AnyWildcard(tuples[..j])
    && (SubscribeKey(tuples[j].0) in names ||
        exists i :: 0 <= i < j && SubscribeKey(tuples[i].0) == SubscribeKey(tuples[j].0))
  }

  /** The same topics, with lists at least as long; and longer somewhere. */
  ghost predicate Covered(a: Topics, b: Topics) {
    a.Keys == b.Keys && forall q :: q in a ==> |a[q]| >= |b[q]|
  }

  ghost predicate LongerSomewhere(a: Topics, b: Topics) {
    exists q :: q in a && q in b && |a[q]| > |b[q]|
  }

  lemma StepLength(topics: Topics, e: Event, q: Str)
    requires Possible(e) && e.Subscribed? && q in StepTopics(topics, e)
    ensures |StepTopics(topics, e)[q]| == |Added(topics.Keys, e, q)| + |Subscribers(topics, q)|
  {
    StepAdds(topics, e, q);
  }

  /** A step with the flag set adds no less than one without, and more exactly when the topic is stored. */
  lemma SpreadAddsMore(topics: Topics, e: Event)
    requires Possible(e) && e.Subscribed? && !e.spreads
    ensures var e' := e.(spreads := true);
            && (SubscribeKey(e.filter) !in topics ==> StepTopics(topics, e') == StepTopics(topics, e))
            && (SubscribeKey(e.filter) in topics ==> LongerSomewhere(StepTopics(topics, e'), StepTopics(topics, e)))
  {
    hide SubscribeKey;
    var own, e' := SubscribeKey(e.filter), e.(spreads := true);
    if own in topics {
      StepLength(topics, e, own);
      StepLength(topics, e', own);
      WildcardOnceIff(topics.Keys, own, own);
    }
  }

  /** Steps keep the order of lengths when the longer side spreads whenever the other does. */
  lemma StepCovered(a: Topics, b: Topics, e: Event, spreads: bool)
    requires Possible(e) && e.Subscribed? && Covered(a, b) && (e.spreads ==> spreads)
    ensures Covered(StepTopics(a, e.(spreads := spreads)), StepTopics(b, e))
    ensures LongerSomewhere(a, b) ==> LongerSomewhere(StepTopics(a, e.(spreads := spreads)), StepTopics(b, e))
  {
    hide SubscribeKey;
    var e' := e.(spreads := spreads);
    var a', b' := StepTopics(a, e'), StepTopics(b, e);
    assert a'.Keys == b'.Keys;
    forall q | q in a' ensures |a'[q]| - |Subscribers(a, q)| >= |b'[q]| - |Subscribers(b, q)| {
      StepLength(a, e', q);
      StepLength(b, e, q);
    }
    if LongerSomewhere(a, b) {
      var q :| q in a && q in b && |a[q]| > |b[q]|;
      assert q in a' && q in b';
    }
  }

  /** The filters of a packet act as in packets of their own if and only if no plain filter behind a wildcard names a
      topic that is stored when its turn comes; otherwise some list ends up longer, and none shorter. */
  lemma {:induction false} FiltersIndependentIff(topics: Topics, fd: int, tuples: seq<(Str, byte)>)
    requires forall i :: 0 <= i < |tuples| ==> tuples[i].0 != []
    ensures AllPossible(PacketEvents(fd, tuples)) && AllPossible(Alone(fd, tuples))
    ensures var together, alone := Run(topics, PacketEvents(fd, tuples)), Run(topics, Alone(fd, tuples));
            && (together == alone <==> forall j :: 0 <= j < |tuples| ==> !Leaks(topics.Keys, tuples, j))
            && Covered(together, alone) && (together != alone ==> LongerSomewhere(together, alone))
  {
    hide IsWildcard, SubscribeKey, StepTopics, PacketEvents, Alone, AnyWildcard, Run, Leaks, Covered, LongerSomewhere;
    PacketsPossible(fd, tuples);
    if tuples == [] {
      NoEvents(topics, fd);
    } else {
      var before := tuples[..|tuples| - 1];
      FiltersIndependentIff(topics, fd, before);
      LastFilter(topics, fd, tuples, before, Run(topics, PacketEvents(fd, before)), Run(topics, Alone(fd, before)));
      LeaksBefore(topics.Keys, tuples);
    }
  }

  /** One more filter: the flag is the old one or the filter's own. */
  lemma PacketStep(fd: int, tuples: seq<(Str, byte)>, i: nat)
    requires i < |tuples|
    ensures AnyWildcard(tuples[..i + 1]) <==> AnyWildcard(tuples[..i]) || IsWildcard(tuples[i].0)
    ensures PacketEvents(fd, tuples[..i + 1]) == PacketEvents(fd, tuples[..i])
         + [Subscribed(tuples[i].0, Subscriber(fd, tuples[i].1), AnyWildcard(tuples[..i + 1]))]
  {
    var now, before := tuples[..i + 1], tuples[..i];
    assert now[..i] == before && now[i] == tuples[i];
    if AnyWildcard(before) {
      var j :| 0 <= j < |before| && IsWildcard(before[j].0);
      assert now[j] == before[j];
    }
    if IsWildcard(tuples[i].0) { assert IsWildcard(now[i].0); }
    if AnyWildcard(now) && !IsWildcard(tuples[i].0) {
      var j :| 0 <= j < |now| && IsWildcard(now[j].0);
      assert before[j] == now[j];
    }
  }

  lemma NoEvents(topics: Topics, fd: int)
    ensures Run(topics, PacketEvents(fd, [])) == topics == Run(topics, Alone(fd, []))
    ensures Covered(topics, topics)
  {
  }

  lemma LeaksBefore(names: set<Str>, tuples: seq<(Str, byte)>)
    requires tuples != [] && forall i :: 0 <= i < |tuples| ==> tuples[i].0 != []
    ensures var before := tuples[..|tuples| - 1];
            (forall j :: 0 <= j < |tuples| ==> !Leaks(names, tuples, j)) <==>
              !Leaks(names, tuples, |tuples| - 1) && forall j :: 0 <= j < |before| ==> !Leaks(names, before, j)
  {
    hide IsWildcard, SubscribeKey, AnyWildcard;
    var before := tuples[..|tuples| - 1];
    forall j | 0 <= j < |before| ensures Leaks(names, before, j) <==> Leaks(names, tuples, j) {
      assert before[..j] == tuples[..j];
    }
  }

  /** The names stored when the turn of the last filter comes. */
  lemma {:induction false} PacketNames(names: set<Str>, fd: int, tuples: seq<(Str, byte)>, key: Str)
    requires AllPossible(PacketEvents(fd, tuples)) && forall i :: 0 <= i < |tuples| ==> tuples[i].0 != []
    ensures key in Names(names, PacketEvents(fd, tuples)) <==>
              key in names || exists i :: 0 <= i < |tuples| && SubscribeKey(tuples[i].0) == key
  {
    hide SubscribeKey, AnyWildcard, IsWildcard;
    if tuples == [] {
    } else {
      var before, events := tuples[..|tuples| - 1], PacketEvents(fd, tuples);
      assert events[..|events| - 1] == PacketEvents(fd, before);
      PacketsPossible(fd, before);
      PacketNames(names, fd, before, key);
      assert forall i :: 0 <= i < |before| ==> before[i] == tuples[i];
    }
  }

  /** The last filter leaks exactly when its flag differs from its own and its topic is stored. */
  lemma LastLeaksIff(topics: Topics, fd: int, tuples: seq<(Str, byte)>)
    requires tuples != [] && forall i :: 0 <= i < |tuples| ==> tuples[i].0 != []
    requires AllPossible(PacketEvents(fd, tuples[..|tuples| - 1]))
    ensures var (filter, before) := (tuples[|tuples| - 1].0, tuples[..|tuples| - 1]);
            Leaks(topics.Keys, tuples, |tuples| - 1) <==>
              && !IsWildcard(filter) && AnyWildcard(before)
              && SubscribeKey(filter) in Run(topics, PacketEvents(fd, before))
  {
    hide IsWildcard, SubscribeKey, PacketEvents, AnyWildcard, Run, Names;
    var before := tuples[..|tuples| - 1];
    RunStoresNames(topics, PacketEvents(fd, before));
    PacketNames(topics.Keys, fd, before, SubscribeKey(tuples[|tuples| - 1].0));
    assert forall i :: 0 <= i < |before| ==> before[i] == tuples[i];
  }

  lemma LongerDiffers(a: Topics, b: Topics)
    ensures LongerSomewhere(a, b) ==> a != b
    ensures a == b ==> Covered(a, b)
  {
  }

  lemma LastAlone(fd: int, tuples: seq<(Str, byte)>)
    requires tuples != []
    ensures Alone(fd, tuples) == Alone(fd, tuples[..|tuples| - 1]) + PacketEvents(fd, [tuples[|tuples| - 1]])
  {
  }

  /** What the last filter of a packet does, given what those before it did. */
  lemma {:induction false} LastFilter(topics: Topics, fd: int, tuples: seq<(Str, byte)>, before: seq<(Str, byte)>,
                                      a: Topics, b: Topics)
    requires tuples != [] && forall i :: 0 <= i < |tuples| ==> tuples[i].0 != []
    requires AllPossible(PacketEvents(fd, tuples)) && AllPossible(Alone(fd, tuples))
    requires before == tuples[..|tuples| - 1]
    requires AllPossible(PacketEvents(fd, before)) && AllPossible(Alone(fd, before))
    requires a == Run(topics, PacketEvents(fd, before)) && b == Run(topics, Alone(fd, before))
    requires Covered(a, b) && (a != b ==> LongerSomewhere(a, b))
    ensures var a', b' := Run(topics, PacketEvents(fd, tuples)), Run(topics, Alone(fd, tuples));
            && (a' == b' <==> a == b && !Leaks(topics.Keys, tuples, |tuples| - 1))
            && Covered(a', b') && (a' != b' ==> LongerSomewhere(a', b'))
  {
    hide IsWildcard, SubscribeKey, StepTopics, PacketEvents, Alone, AnyWildcard, Run, Covered, LongerSomewhere, Leaks;
    var last := |tuples| - 1;
    var t, flag := tuples[last], AnyWildcard(tuples);
    var e := Subscribed(t.0, Subscriber(fd, t.1), IsWildcard(t.0));
    assert tuples[..last + 1] == tuples;
    PacketStep(fd, tuples, last);
    OwnPacket(fd, t);
    LastAlone(fd, tuples);
    RunStep(topics, PacketEvents(fd, before), e.(spreads := flag));
    RunStep(topics, Alone(fd, before), e);
    LastLeaksIff(topics, fd, tuples);
    StepCovered(a, b, e, flag);
    if a == b && flag && !e.spreads {
      SpreadAddsMore(a, e);
    }
    LongerDiffers(StepTopics(a, e.(spreads := flag)), StepTopics(b, e));
  }

  /** With `a/`, `b/` and `b/c/` stored, the packet with `a/#` and `b` subscribes to `b/c/` too; two packets do not. */
  lemma PlainFilterLeaks()
    ensures var a, b, c: Str := [97, SLASH], [98, SLASH], [98, SLASH, 99, SLASH];
            var topics: Topics := map[a := [], b := [], c := []];
            var tuples: seq<(Str, byte)> := [([97, SLASH, HASH], 0), ([98], 0)];
            && AllPossible(PacketEvents(1, tuples)) && AllPossible(Alone(1, tuples))
            && Subscribers(Run(topics, PacketEvents(1, tuples)), c) == [Subscriber(1, 0)]
            && Subscribers(Run(topics, Alone(1, tuples)), c) == []
  {
    var a, b, c: Str := [97, SLASH], [98, SLASH], [98, SLASH, 99, SLASH];
    var topics: Topics := map[a := [], b := [], c := []];
    var wild, plain: (Str, byte) := ([97, SLASH, HASH], 0), ([98], 0);
    var tuples := [wild, plain];
    PacketsPossible(1, tuples);
    LeakKeys(a, b, wild.0, plain.0);
    var e1, e2 := Subscribed(wild.0, Subscriber(1, 0), true), Subscribed(plain.0, Subscriber(1, 0), true);
    LeakEvents(wild, plain);
    LeakRecorded(topics, a, b, c, e1, e2);
  }

  lemma LeakKeys(a: Str, b: Str, wild: Str, plain: Str)
    requires a == [97, SLASH] && b == [98, SLASH] && wild == a + [HASH] && plain == [98]
    ensures IsWildcard(wild) && !IsWildcard(plain) && SubscribeKey(wild) == a && SubscribeKey(plain) == b
  {
    WildcardName(a);
    assert PublishKey(a) == a && PublishKey(plain) == plain + [SLASH];
  }

  lemma LeakEvents(wild: (Str, byte), plain: (Str, byte))
    requires IsWildcard(wild.0) && !IsWildcard(plain.0)
    ensures var s1, s2 := Subscriber(1, wild.1), Subscriber(1, plain.1);
            && PacketEvents(1, [wild, plain]) == [Subscribed(wild.0, s1, true), Subscribed(plain.0, s2, true)]
            && Alone(1, [wild, plain]) == [Subscribed(wild.0, s1, true), Subscribed(plain.0, s2, false)]
  {
    hide IsWildcard;
    var both := [wild, plain];
    assert both[..1] == [wild] && [wild][..0] == [];
    assert AnyWildcard(both) by { assert IsWildcard(both[0].0); }
    OwnPacket(1, wild);
    OwnPacket(1, plain);
  }

  /** The list of `c` after a wildcard on `a` and a filter on `b`, spreading or not. */
  lemma LeakRecorded(topics: Topics, a: Str, b: Str, c: Str, e1: Event, e2: Event)
    requires a == [97, SLASH] && b == [98, SLASH] && c == [98, SLASH, 99, SLASH]
    requires topics == map[a := [], b := [], c := []]
    requires Possible(e1) && Possible(e2) && e1.Subscribed? && e2.Subscribed? && e1.spreads && !IsWildcard(e2.filter)
    requires SubscribeKey(e1.filter) == a && SubscribeKey(e2.filter) == b
    ensures Subscribers(Run(topics, [e1, e2.(spreads := true)]), c) == [e2.sub]
    ensures Subscribers(Run(topics, [e1, e2.(spreads := false)]), c) == []
  {
    hide SubscribeKey, IsWildcard, StepTopics;
    var names := {a, b, c};
    assert topics.Keys == names;
    assert a[0] != b[0] && c[..3] !in names by { assert |c[..3]| == 3; }
    assert !(a <= c) by { assert a[0] != c[0]; }
    WildcardOnceIff(names, b, c);
    assert Repeat(e2.sub, 1) == [e2.sub];
    LeakRun(topics, e1, e2.(spreads := true), c);
    LeakRun(topics, e1, e2.(spreads := false), c);
    assert Added(names, e1, c) == [];
    assert names + {a} == names;
  }

  lemma LeakRun(topics: Topics, e1: Event, e2: Event, key: Str)
    requires Possible(e1) && Possible(e2) && e1.Subscribed? && e2.Subscribed? && NoSubscribers(topics)
    ensures Subscribers(Run(topics, [e1, e2]), key)
         == Added(topics.Keys + {SubscribeKey(e1.filter)}, e2, key) + Added(topics.Keys, e1, key)
  {
    hide SubscribeKey, Added, StepTopics;
    RunRecordsSubscriptions(topics, [e1, e2], key);
    assert [e1, e2][..1] == [e1] && [e1][..0] == [];
    assert Recorded(topics.Keys, [e1], key) == Added(topics.Keys, e1, key) + [];
  }

  // ---------- Packets without wildcards ----------

  lemma PlainPacket(fd: int, tuples: seq<(Str, byte)>)
    requires forall i, n: Str :: 0 <= i < |tuples| ==> tuples[i].0 != n + [47, 35]
    ensures NoWildcards(PacketEvents(fd, tuples))
  {
    hide IsWildcard, PacketEvents;
    forall j | 0 <= j < |tuples| ensures !IsWildcard(tuples[j].0) { WildcardIff(tuples[j].0); }
    forall i | 0 <= i < |tuples|
      ensures PacketEvents(fd, tuples)[i].Subscribed? && !PacketEvents(fd, tuples)[i].spreads
    {
      PacketEventAt(fd, tuples, i);
    }
  }

  lemma EarlierStep(names: set<Str>, events: seq<Event>, key: Str)
    requires events != [] && AllPossible(events) && NoWildcards(events)
    ensures var e := events[|events| - 1];
            Earlier(events, key)
            == (if e.Subscribed? then Added(names, e, key) else []) + Earlier(events[..|events| - 1], key)
  {
    hide SubscribeKey, PublishKey, Repeat;
  }

  /** A run without wildcards puts the earlier subscriptions to a name in front of its list, and does nothing else. */
  lemma {:induction false} PlainRunAdds(topics: Topics, events: seq<Event>, key: Str)
    requires AllPossible(events) && NoWildcards(events)
    ensures Subscribers(Run(topics, events), key) == Earlier(events, key) + Subscribers(topics, key)
  {
    hide StepTopics, Added, Earlier, Subscribers;
    if events == [] {
      NothingEarlier(key);
    } else {
      var before, e := events[..|events| - 1], events[|events| - 1];
      PlainRunAdds(topics, before, key);
      StepAdds(Run(topics, before), e, key);
      EarlierStep(Run(topics, before).Keys, events, key);
      var added := if e.Subscribed? then Added(Run(topics, before).Keys, e, key) else [];
      assert added + (Earlier(before, key) + Subscribers(topics, key))
          == (added + Earlier(before, key)) + Subscribers(topics, key);
    }
  }

  lemma NothingEarlier(key: Str)
    ensures Earlier([], key) == []
  {
  }

  /** The subscribers of a packet to a name, newest first: those of the filters that are it, slash or no slash. */
  function Named(fd: int, tuples: seq<(Str, byte)>, key: Str): seq<Subscriber> {
    if tuples == [] then []
    else
      var (filter, qos) := tuples[|tuples| - 1];
      var slashed := filter != [] && filter[|filter| - 1] == 47;
      (if key == (if slashed then filter else filter + [47]) then [Subscriber(fd, qos)] else [])
      + Named(fd, tuples[..|tuples| - 1], key)
  }

  lemma {:induction false} NamedIsEarlier(fd: int, tuples: seq<(Str, byte)>, key: Str)
    requires forall i :: 0 <= i < |tuples| ==> tuples[i].0 != [] && 0 !in tuples[i].0
    requires forall i, n: Str :: 0 <= i < |tuples| ==> tuples[i].0 != n + [47, 35]
    ensures Earlier(PacketEvents(fd, tuples), key) == Named(fd, tuples, key)
  {
    hide SubscribeKey, IsWildcard, AnyWildcard;
    if tuples == [] {
    } else {
      var before, t := tuples[..|tuples| - 1], tuples[|tuples| - 1];
      assert forall i :: 0 <= i < |before| ==> before[i] == tuples[i];
      NamedIsEarlier(fd, before, key);
      assert forall n: Str :: t.0 != n + [47, 35];
      SubscribeKeyBytes(t.0);
      var events := PacketEvents(fd, tuples);
      assert events[..|events| - 1] == PacketEvents(fd, before);
    }
  }

  /** A packet in which no filter ends with slash and hash adds to the lists of its own names and to no others. */
  lemma PlainPacketAdds(topics: Topics, fd: int, tuples: seq<(Str, byte)>, key: Str)
    requires forall i :: 0 <= i < |tuples| ==> tuples[i].0 != [] && 0 !in tuples[i].0
    requires forall i, n: Str :: 0 <= i < |tuples| ==> tuples[i].0 != n + [47, 35]
    ensures AllPossible(PacketEvents(fd, tuples))
    ensures Subscribers(Run(topics, PacketEvents(fd, tuples)), key)
         == Named(fd, tuples, key) + Subscribers(topics, key)
  {
    hide PacketEvents, Named, Run;
    PacketsPossible(fd, tuples);
    PlainPacket(fd, tuples);
    PlainRunAdds(topics, PacketEvents(fd, tuples), key);
    NamedIsEarlier(fd, tuples, key);
  }
}
