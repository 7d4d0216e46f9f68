/** What subscribing and publishing mean: topic names, subscriber lists, and the frames a PUBLISH fans out. */
module BrokerSpec {
  import opened Bytes
  import opened Wire
  import Strings

  /** A subscriber: the socket of its client, and the QoS it asked for. */
  datatype Subscriber = Subscriber(fd: int, qos: byte)

  /** Topic name to subscriber list, newest first. */
  type Topics = map<Str, seq<Subscriber>>

  /** A packet due to a socket, and the bytes that went out to one. */
  datatype Delivery = Delivery(fd: int, packet: Publish)

  datatype Sent = Sent(fd: int, bytes: Str)

  // ---------- Topic names ----------

  predicate EndsWithSlash(s: Str) {
    s != [] && s[|s| - 1] == SLASH
  }

  /** Published names end with a slash, unless a NUL cuts the one that the packet ends with. */
  function PublishKey(topic: Str): (key: Str)
    requires topic != []
    ensures EndsWithSlash(key) <==> !EndsWithSlash(topic) || EndsWithSlash(CStr(topic))
    ensures ZeroFree(topic) ==> EndsWithSlash(key)
  {
    if topic[|topic| - 1] != SLASH then CStr(topic) + [SLASH] else CStr(topic)
  }

  predicate IsWildcard(filter: Str) {
    |filter| >= 2 && filter[|filter| - 1] == HASH && filter[|filter| - 2] == SLASH
  }

  /** The name a filter subscribes to: a final `/#` loses its hash, any other filter ends with a slash. */
  function SubscribeKey(filter: Str): Str
    requires filter != []
  {
    if IsWildcard(filter) then Strings.Without(CStr(filter), HASH) else PublishKey(filter)
  }

  /** The wildcards are the filters that end with the two bytes of slash and hash, and no others. */
  lemma WildcardIff(filter: Str)
    ensures IsWildcard(filter) <==> exists n: Str :: filter == n + [47, 35]
  {
    if IsWildcard(filter) {
      assert filter == filter[..|filter| - 2] + [47, 35];
    }
  }

  /** A name without zero bytes is looked up as it is, or with a slash behind it if it ends with another byte. */
  lemma PublishKeyBytes(topic: Str)
    requires topic != [] && forall i :: 0 <= i < |topic| ==> topic[i] != 0
    ensures PublishKey(topic) == if topic[|topic| - 1] == 47 then topic else topic + [47]
  {
  }

  /** So is a plain filter; a wildcard names what stands before its hash, without other hashes. */
  lemma SubscribeKeyBytes(filter: Str)
    requires filter != [] && forall i :: 0 <= i < |filter| ==> filter[i] != 0
    ensures (forall n: Str :: filter != n + [47, 35]) ==>
              SubscribeKey(filter) == if filter[|filter| - 1] == 47 then filter else filter + [47]
    ensures forall n: Str :: filter == n + [47, 35] && 35 !in n ==> SubscribeKey(filter) == n + [47]
    ensures forall n: Str :: filter == n + [47, 35] ==> 35 !in SubscribeKey(filter)
  {
    WildcardIff(filter);
    if n: Str :| filter == n + [47, 35] && 35 !in n {
      assert filter == (n + [47]) + [35];
      WithoutNothing(n + [47], [35]);
      assert forall m: Str :: filter == m + [47, 35] ==> m == filter[..|filter| - 2];
    }
  }

  /** Two names mean the same topic exactly when they are equal or differ by one final slash. */
  lemma SameTopicIff(a: Str, b: Str)
    requires a != [] && b != [] && ZeroFree(a) && ZeroFree(b)
    ensures PublishKey(a) == PublishKey(b) <==>
              a == b || (a == b + [SLASH] && b[|b| - 1] != SLASH) || (b == a + [SLASH] && a[|a| - 1] != SLASH)
  {
    assert (a + [SLASH])[..|a|] == a && (b + [SLASH])[..|b|] == b;
  }

  /** The wildcard below a name subscribes to the name itself. */
  lemma WildcardName(name: Str)
    requires name != [] && ZeroFree(name) && HASH !in name && name[|name| - 1] == SLASH
    ensures IsWildcard(name + [HASH]) && SubscribeKey(name + [HASH]) == PublishKey(name)
  {
    var filter := name + [HASH];
    assert ZeroFree(filter);
    WithoutNothing(name, [HASH]);
  }

  lemma {:induction false} WithoutNothing(s: Str, tail: Str)
    requires HASH !in s && Strings.Without(tail, HASH) == []
    ensures Strings.Without(s + tail, HASH) == s
  {
    if s == [] {
      assert s + tail == tail;
    } else {
      assert (s + tail)[1..] == s[1..] + tail;
      WithoutNothing(s[1..], tail);
    }
  }

  function Subscribers(topics: Topics, key: Str): seq<Subscriber> {
    if key in topics then topics[key] else []
  }

  // ---------- Steps ----------

  function Repeat(sub: Subscriber, n: nat): (r: seq<Subscriber>)
    ensures |r| == n
  {
    seq(n, _ => sub)
  }

  /** How often a wildcard under `base` reaches `q`: once for each topic in the unbroken run of stored
      topics, each one character longer than the last, that starts at or below `base` and ends at `q`. */
  function Copies(names: set<Str>, base: Str, q: Str): nat
    decreases |q|
  {
    if q !in names || !(base <= q) then 0
    else if q == base then 1
    else 1 + Copies(names, base, q[..|q| - 1])
  }

  function Wildcard(topics: Topics, base: Str, sub: Subscriber): Topics {
    map q | q in topics :: Repeat(sub, Copies(topics.Keys, base, q)) + topics[q]
  }

  /** One filter of a SUBSCRIBE. When it spreads it reaches the stored topics below its own, if that is stored. */
  function Subscribe(topics: Topics, filter: Str, sub: Subscriber, spreads: bool): Topics
    requires filter != []
  {
    var key := SubscribeKey(filter);
    var reached := if spreads && key in topics then Wildcard(topics, key, sub) else topics;
    reached[key := [sub] + Subscribers(reached, key)]
  }

  /** A wildcard leaves every topic outside the prefix alone. */
  lemma WildcardStaysInside(topics: Topics, base: Str, sub: Subscriber, q: Str)
    requires q in topics && !(base <= q)
    ensures Wildcard(topics, base, sub)[q] == topics[q]
  {
  }

  /** It reaches a stored topic below the prefix exactly once unless the topic one character shorter is stored. */
  lemma WildcardOnceIff(names: set<Str>, base: Str, q: Str)
    requires q in names && base <= q
    ensures Copies(names, base, q) >= 1
    ensures Copies(names, base, q) == 1 <==> q == base || q[..|q| - 1] !in names
  {
    if q != base && q[..|q| - 1] in names {
      assert base <= q[..|q| - 1];
    }
  }

  /** The topic a wildcard names, when it is stored already, gets the subscriber twice. */
  lemma WildcardSubscribesItsTopicTwice(topics: Topics, filter: Str, sub: Subscriber)
    requires filter != [] && SubscribeKey(filter) in topics
    ensures var key := SubscribeKey(filter); Subscribe(topics, filter, sub, true)[key] == [sub, sub] + topics[key]
  {
    var key := SubscribeKey(filter);
    assert Copies(topics.Keys, key, key) == 1 && Repeat(sub, 1) == [sub];
    assert [sub] + ([sub] + topics[key]) == [sub, sub] + topics[key];
  }

  /** A first PUBLISH to a name creates its topic. */
  function PublishTopics(topics: Topics, topic: Str): Topics
    requires topic != []
  {
    var key := PublishKey(topic);
    topics[key := Subscribers(topics, key)]
  }

  /** It adds nobody to any list, and afterwards the name is stored, with a slash behind it unless it ends with one. */
  lemma PublishStoresTopic(topics: Topics, topic: Str, key: Str)
    requires topic != [] && forall i :: 0 <= i < |topic| ==> topic[i] != 0
    ensures key in PublishTopics(topics, topic) <==>
              key in topics || key == (if topic[|topic| - 1] == 47 then topic else topic + [47])
    ensures Subscribers(PublishTopics(topics, topic), key) == Subscribers(topics, key)
  {
    PublishKeyBytes(topic);
  }

  /** The packet as sent to one subscriber: only the QoS bits of the header change. */
  function ForSubscriber(p: Publish, sub: Subscriber): Publish {
    p.(header := WithQoS(p.header, sub.qos))
  }

  function FanOut(p: Publish, subs: seq<Subscriber>): (r: seq<Delivery>)
    ensures |r| == |subs|
  {
    seq(|subs|, i requires 0 <= i < |subs| => Delivery(subs[i].fd, ForSubscriber(p, subs[i])))
  }

  /** The header that the fan-out loop leaves in the packet: the QoS is that of the last subscriber. */
  function LeftHeader(header: byte, subs: seq<Subscriber>): (r: byte)
    ensures QoS(r) == if subs == [] then QoS(header) else subs[|subs| - 1].qos % 4
  {
    if subs == [] then header else WithQoS(header, subs[|subs| - 1].qos)
  }

  /** Writing the QoS bits again forgets what was written before. */
  lemma QoSOverwritten(header: byte, a: nat, b: nat)
    ensures WithQoS(WithQoS(header, a), b) == WithQoS(header, b)
  {
    hide WithQoS;
    HeaderParts(WithQoS(WithQoS(header, a), b));
    HeaderParts(WithQoS(header, b));
  }

  /** The reply staged for the publisher. */
  function Reply(qos: nat, pktId: nat): Option<Str>
    requires pktId < U16
  {
    if qos == 1 then Some(AckFrame(PUBACK, pktId)) else if qos == 2 then Some(AckFrame(PUBREC, pktId)) else None
  }

  /** QoS 1 stages a PUBACK and QoS 2 a PUBREC, with the publisher's packet id; other levels stage nothing. */
  lemma ReplyDecodes(qos: nat, pktId: nat)
    requires pktId < U16
    ensures Reply(qos, pktId).Some? <==> qos in {1, 2}
    ensures qos in {1, 2} ==>
              var f := Reply(qos, pktId).value;
              && |f| == 4 && f[0] == (if qos == 1 then 0x40 else 0x50) && OnePacket(f)
              && DecodeLength(f[1..], 4) == Some((2, f[2..])) && BigEndian(f[2], f[3]) == pktId
    ensures qos in {1, 2} ==>
              var r := ParseAck(Reply(qos, pktId).value);
              r.Some? && PacketType(r.value.0) == (if qos == 1 then 4 else 5) && r.value.1 == pktId && r.value.2 == []
  {
    if qos in {1, 2} {
      var header := if qos == 1 then PUBACK else PUBREC;
      AckRoundTrip(header, pktId, []);
      AckBytes(header, pktId);
      assert AckFrame(header, pktId) + [] == AckFrame(header, pktId);
    }
  }

  /** Replying by the header that the loop leaves would be right only if there is no subscriber, the last one asked
      for the publisher's QoS, or neither level calls for a reply: the saved QoS is needed. */
  lemma SavedQoSNeededIff(header: byte, subs: seq<Subscriber>, pktId: nat)
    requires pktId < U16
    ensures var left := QoS(LeftHeader(header, subs));
            Reply(left, pktId) == Reply(QoS(header), pktId) <==>
              || subs == [] || subs[|subs| - 1].qos % 4 == QoS(header)
              || (subs[|subs| - 1].qos % 4 !in {1, 2} && QoS(header) !in {1, 2})
  {
    hide LeftHeader, QoS;
    assert AckFrame(PUBACK, pktId)[0] != AckFrame(PUBREC, pktId)[0];
  }

  /** Each frame decodes to the publisher's topic and payload with that subscriber's QoS. */
  lemma FrameDecodes(p: Publish, sub: Subscriber)
    requires ValidPublish(p)
    ensures var r := ParsePublish(PublishFrame(ForSubscriber(p, sub)));
            && r.Some? && r.value.1 == [] && r.value.0.topic == p.topic && r.value.0.payload == p.payload
            && QoS(r.value.0.header) == sub.qos % 4
            && Retain(r.value.0.header) == Retain(p.header) && Dup(r.value.0.header) == Dup(p.header)
            && PacketType(r.value.0.header) == PacketType(p.header)
            && (sub.qos % 4 > 0 ==> r.value.0.pktId == p.pktId)
  {
    var q := ForSubscriber(p, sub);
    PublishRoundTrip(q, []);
    assert PublishFrame(q) + [] == PublishFrame(q);
  }

  // ---------- The topics created at start ----------

  function Ascii(s: string): Str {
    seq(|s|, i requires 0 <= i < |s| => s[i] as int % 128)
  }

  const SYS_TOPICS: seq<string> := [
    "$SOL/", "$SOL/broker/", "$SOL/broker/clients/", "$SOL/broker/bytes/", "$SOL/broker/messages/",
    "$SOL/broker/uptime/", "$SOL/broker/uptime/sol", "$SOL/broker/clients/connected/",
    "$SOL/broker/clients/disconnected/", "$SOL/broker/bytes/sent/", "$SOL/broker/bytes/received/",
    "$SOL/broker/messages/sent/", "$SOL/broker/messages/received/", "$SOL/broker/memory/used"
  ]

  /** An ASCII string is the bytes of its character codes. */
  lemma AsciiBytes(s: string)
    requires forall i :: 0 <= i < |s| ==> s[i] as int < 128
    ensures |Ascii(s)| == |s| && forall i :: 0 <= i < |s| ==> Ascii(s)[i] == s[i] as int
  {
  }

  /** Exactly the given names exist at the start. */
  lemma {:induction false} InitialNames(names: seq<string>, key: Str)
    ensures key in Initial(names) <==> exists i :: 0 <= i < |names| && key == Ascii(names[i])
  {
    hide Ascii;
    if names == [] {
    } else {
      var before := names[..|names| - 1];
      InitialNames(before, key);
      assert forall i :: 0 <= i < |before| ==> before[i] == names[i];
    }
  }

  function Initial(names: seq<string>): (r: Topics)
    ensures forall k :: k in r ==> r[k] == []
  {
    if names == [] then map[] else Initial(names[..|names| - 1])[Ascii(names[|names| - 1]) := []]
  }

  // ---------- Runs ----------

  /** A filter was subscribed to, spreading or not, or a packet was published. */
  datatype Event = Subscribed(filter: Str, sub: Subscriber, spreads: bool) | Published(packet: Publish)

  /** Events the handlers can process: names and filters are not empty, and wildcards spread. */
  predicate Possible(e: Event) {
    match e
    case Subscribed(filter, _, spreads) => filter != [] && (IsWildcard(filter) ==> spreads)
    case Published(p) => p.topic != [] && ValidPublish(p)
  }

  predicate AllPossible(events: seq<Event>) {
    forall i :: 0 <= i < |events| ==> Possible(events[i])
  }

  predicate NoWildcards(events: seq<Event>) {
    forall i :: 0 <= i < |events| && events[i].Subscribed? ==> !events[i].spreads
  }

  /** The topics after an event. */
  function StepTopics(topics: Topics, e: Event): Topics
    requires Possible(e)
  {
    match e
    case Subscribed(filter, sub, spreads) => Subscribe(topics, filter, sub, spreads)
    case Published(p) => PublishTopics(topics, p.topic)
  }

  /** What an event sends to subscribers. */
  function StepSent(topics: Topics, e: Event): seq<Delivery>
    requires Possible(e)
  {
    match e
    case Subscribed(_, _, _) => []
    case Published(p) => FanOut(p, Subscribers(topics, PublishKey(p.topic)))
  }

  /** Every topic is there without subscribers. */
  ghost predicate NoSubscribers(topics: Topics) {
    forall k :: k in topics ==> topics[k] == []
  }

  function Run(start: Topics, events: seq<Event>): Topics
    requires AllPossible(events)
  {
    if events == [] then start
    else StepTopics(Run(start, events[..|events| - 1]), events[|events| - 1])
  }

  /** The name that an event stores a topic under. */
  function EventKey(e: Event): Str
    requires Possible(e)
  {
    match e
    case Subscribed(filter, _, _) => SubscribeKey(filter)
    case Published(p) => PublishKey(p.topic)
  }

  /** The names stored after a history: those at the start and those of its events. */
  function Names(start: set<Str>, events: seq<Event>): set<Str>
    requires AllPossible(events)
  {
    if events == [] then start else Names(start, events[..|events| - 1]) + {EventKey(events[|events| - 1])}
  }

  lemma {:induction false} RunStoresNames(start: Topics, events: seq<Event>)
    requires AllPossible(events)
    ensures Run(start, events).Keys == Names(start.Keys, events)
  {
    if events == [] {
    } else {
      RunStoresNames(start, events[..|events| - 1]);
    }
  }

  /** What a subscription adds to the list of `key`, given the names stored then: an entry if the name is its own, and
      one for each time it reaches the name when it spreads. */
  function Added(names: set<Str>, e: Event, key: Str): seq<Subscriber>
    requires Possible(e) && e.Subscribed?
  {
    var own := SubscribeKey(e.filter);
    (if own == key then [e.sub] else []) +
    if e.spreads && own in names then Repeat(e.sub, Copies(names, own, key)) else []
  }

  /** The subscriber list of a name as the history tells it, newest first. */
  function Recorded(start: set<Str>, events: seq<Event>, key: Str): seq<Subscriber>
    requires AllPossible(events)
  {
    if events == [] then []
    else
      var before, e := events[..|events| - 1], events[|events| - 1];
      (if e.Subscribed? then Added(Names(start, before), e, key) else []) + Recorded(start, before, key)
  }

  lemma StepAdds(topics: Topics, e: Event, key: Str)
    requires Possible(e)
    ensures Subscribers(StepTopics(topics, e), key)
         == (if e.Subscribed? then Added(topics.Keys, e, key) else []) + Subscribers(topics, key)
  {
    hide SubscribeKey, PublishKey, Repeat;
    if e.Subscribed? {
      var own := SubscribeKey(e.filter);
      var copies := if e.spreads && own in topics then Repeat(e.sub, Copies(topics.Keys, own, key)) else [];
      var pushed := if own == key then [e.sub] else [];
      assert pushed + (copies + Subscribers(topics, key)) == (pushed + copies) + Subscribers(topics, key);
    }
  }

  /** Over any run, wildcards included, the subscriber lists are those that the history tells. */
  lemma {:induction false} RunRecordsSubscriptions(start: Topics, events: seq<Event>, key: Str)
    requires AllPossible(events) && NoSubscribers(start)
    ensures Subscribers(Run(start, events), key) == Recorded(start.Keys, events, key)
  {
    hide StepTopics, Added;
    if events == [] {
    } else {
      var before, e := events[..|events| - 1], events[|events| - 1];
      RunRecordsSubscriptions(start, before, key);
      RunStoresNames(start, before);
      StepAdds(Run(start, before), e, key);
    }
  }

  /** The earlier subscriptions to a name, newest first. */
  function Earlier(events: seq<Event>, key: Str): seq<Subscriber> {
    if events == [] then []
    else
      var rest := Earlier(events[..|events| - 1], key);
      match events[|events| - 1]
      case Subscribed(filter, sub, _) => if filter != [] && SubscribeKey(filter) == key then [sub] + rest else rest
      case Published(_) => rest
  }

  /** Without wildcards a list holds exactly the earlier subscriptions to its name. */
  lemma {:induction false} RecordedWithoutWildcards(start: set<Str>, events: seq<Event>, key: Str)
    requires AllPossible(events) && NoWildcards(events)
    ensures Recorded(start, events, key) == Earlier(events, key)
  {
    hide SubscribeKey, Repeat;
    if events == [] {
    } else {
      RecordedWithoutWildcards(start, events[..|events| - 1], key);
    }
  }

  // ---------- Runs with wildcards ----------

  /** A subscription that can put its subscriber on the list of `key`. */
  predicate Covers(e: Event, key: Str)
    requires e.Subscribed? && e.filter != []
  {
    SubscribeKey(e.filter) == key || (e.spreads && SubscribeKey(e.filter) <= key)
  }

  ghost predicate AskedFor(events: seq<Event>, key: Str, sub: Subscriber)
    requires AllPossible(events)
  {
    exists i :: 0 <= i < |events| && events[i].Subscribed? && events[i].sub == sub && Covers(events[i], key)
  }

  lemma StepSound(topics: Topics, e: Event, key: Str, s: Subscriber)
    requires e.Subscribed? && e.filter != []
    requires s in Subscribers(Subscribe(topics, e.filter, e.sub, e.spreads), key)
    ensures s in Subscribers(topics, key) || (s == e.sub && Covers(e, key))
  {
    var k := SubscribeKey(e.filter);
    var reached := if e.spreads && k in topics then Wildcard(topics, k, e.sub) else topics;
    if key in topics && s in Subscribers(reached, key) && s !in topics[key] {
      assert s in Repeat(e.sub, Copies(topics.Keys, k, key));
    }
  }

  /** Whoever is on a list asked for it: over any run, wildcards included, no frame goes to a client that
      did not subscribe to the name or to a wildcard above it. */
  lemma {:induction false} OnlyAskedFor(start: Topics, events: seq<Event>, key: Str, s: Subscriber)
    requires AllPossible(events) && NoSubscribers(start)
    requires s in Subscribers(Run(start, events), key)
    ensures AskedFor(events, key, s)
  {
    hide Subscribe, PublishKey, SubscribeKey;
    if events == [] {
    } else {
      var before, e := events[..|events| - 1], events[|events| - 1];
      var topics := Run(start, before);
      if e.Subscribed? {
        StepSound(topics, e, key, s);
      }
      if s in Subscribers(topics, key) {
        OnlyAskedFor(start, before, key, s);
        var i :| 0 <= i < |before| && before[i].Subscribed? && before[i].sub == s && Covers(before[i], key);
        assert events[i] == before[i];
      } else {
        assert events[|events| - 1] == e;
      }
    }
  }

  lemma StepKeeps(topics: Topics, e: Event, key: Str, s: Subscriber)
    requires Possible(e) && key in topics
    ensures key in StepTopics(topics, e)
    ensures s in topics[key] ==> s in StepTopics(topics, e)[key]
  {
  }

  /** Subscribers are never lost. */
  lemma {:induction false} NobodyForgotten(start: Topics, events: seq<Event>, n: nat, key: Str, s: Subscriber)
    requires AllPossible(events) && n <= |events|
    requires key in Run(start, events[..n])
    ensures key in Run(start, events)
    ensures s in Run(start, events[..n])[key] ==> s in Run(start, events)[key]
  {
    hide StepTopics;
    if n < |events| {
      var before := events[..|events| - 1];
      assert before[..n] == events[..n];
      NobodyForgotten(start, before, n, key, s);
      StepKeeps(Run(start, before), events[|events| - 1], key, s);
    } else {
      assert events[..n] == events;
    }
  }

  lemma WildcardReaches(topics: Topics, filter: Str, sub: Subscriber, key: Str)
    requires filter != [] && SubscribeKey(filter) in topics
    requires key in topics && SubscribeKey(filter) <= key
    ensures key in Subscribe(topics, filter, sub, true) && sub in Subscribe(topics, filter, sub, true)[key]
  {
    var base := SubscribeKey(filter);
    WildcardOnceIff(topics.Keys, base, key);
    var copies := Repeat(sub, Copies(topics.Keys, base, key));
    assert copies[0] == sub && sub in copies;
    assert sub in copies + topics[key];
  }

  /** A wildcard whose topic is stored reaches, for good, every topic stored below it at that time. */
  lemma WildcardReachesForGood(start: Topics, events: seq<Event>, i: nat, key: Str)
    requires AllPossible(events) && i < |events| && events[i].Subscribed? && events[i].spreads
    requires SubscribeKey(events[i].filter) in Run(start, events[..i])
    requires key in Run(start, events[..i]) && SubscribeKey(events[i].filter) <= key
    ensures key in Run(start, events) && events[i].sub in Run(start, events)[key]
  {
    hide Subscribe, SubscribeKey;
    assert events[..i + 1][..i] == events[..i];
    WildcardReaches(Run(start, events[..i]), events[i].filter, events[i].sub, key);
    NobodyForgotten(start, events, i + 1, key, events[i].sub);
  }

  /** Everything sent during a run, in order. */
  function Trace(start: Topics, events: seq<Event>): seq<Delivery>
    requires AllPossible(events)
  {
    if events == [] then []
    else
      var before, e := events[..|events| - 1], events[|events| - 1];
      Trace(start, before) + StepSent(Run(start, before), e)
  }

  lemma RunStep(start: Topics, events: seq<Event>, e: Event)
    requires AllPossible(events) && Possible(e)
    ensures AllPossible(events + [e])
    ensures Run(start, events + [e]) == StepTopics(Run(start, events), e)
    ensures Trace(start, events + [e]) == Trace(start, events) + StepSent(Run(start, events), e)
  {
    hide StepTopics, StepSent;
    var all := events + [e];
    assert all[..|all| - 1] == events && all[|all| - 1] == e;
  }

  /** What a run should send, told from its history and the names stored at the start: for each PUBLISH, one packet per
      entry that the history records for its name. */
  function Due(start: set<Str>, events: seq<Event>): seq<Delivery>
    requires AllPossible(events)
  {
    if events == [] then []
    else
      var before, e := events[..|events| - 1], events[|events| - 1];
      Due(start, before) +
      match e
      case Subscribed(_, _, _) => []
      case Published(p) => FanOut(p, Recorded(start, before, PublishKey(p.topic)))
  }

  /** End to end: over any run, what is sent is what the history calls for. */
  lemma {:induction false} EndToEnd(start: Topics, events: seq<Event>)
    requires AllPossible(events) && NoSubscribers(start)
    ensures Trace(start, events) == Due(start.Keys, events)
  {
    hide PublishKey, FanOut, Recorded, Run;
    if events == [] {
    } else {
      var before, e := events[..|events| - 1], events[|events| - 1];
      EndToEnd(start, before);
      if e.Published? {
        RunRecordsSubscriptions(start, before, PublishKey(e.packet.topic));
      }
    }
  }

  /** Without wildcards: for each PUBLISH, one packet per earlier subscription to its name, newest first. */
  function Expected(events: seq<Event>): seq<Delivery>
    requires AllPossible(events)
  {
    if events == [] then []
    else
      var before, e := events[..|events| - 1], events[|events| - 1];
      Expected(before) +
      match e
      case Subscribed(_, _, _) => []
      case Published(p) => FanOut(p, Earlier(before, PublishKey(p.topic)))
  }

  lemma {:induction false} DueWithoutWildcards(start: set<Str>, events: seq<Event>)
    requires AllPossible(events) && NoWildcards(events)
    ensures Due(start, events) == Expected(events)
  {
    hide PublishKey, FanOut, Recorded, Earlier;
    if events == [] {
    } else {
      var before, e := events[..|events| - 1], events[|events| - 1];
      DueWithoutWildcards(start, before);
      if e.Published? {
        RecordedWithoutWildcards(start, before, PublishKey(e.packet.topic));
      }
    }
  }

  /** Frame by frame, a PUBLISH goes to the sockets of the subscribers in order and decodes to what was
      published, with each subscriber's QoS. */
  lemma FanOutDecodes(p: Publish, subs: seq<Subscriber>, i: nat)
    requires ValidPublish(p) && i < |subs|
    ensures var due := FanOut(p, subs)[i];
            var r := ParsePublish(PublishFrame(due.packet));
            && due.fd == subs[i].fd
            && r.Some? && r.value.1 == [] && r.value.0.topic == p.topic && r.value.0.payload == p.payload
            && r.value.0.header == 8 * (p.header / 8) + 2 * (subs[i].qos % 4) + p.header % 2
            && (subs[i].qos % 4 > 0 ==> r.value.0.pktId == p.pktId)
  {
    FrameDecodes(p, subs[i]);
    HeaderParts(FanOut(p, subs)[i].packet.header);
    HeaderParts(p.header);
  }
}
