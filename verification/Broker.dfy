/** The SUBSCRIBE and PUBLISH handlers of server.c, over the topic trie and the codec. */
module Brokers {
  import opened Bytes
  import opened Wire
  import opened BrokerSpec
  import opened Packets
  import opened Tries
  import Codec
  import Strings
  import Wildcards

  /** The name under which a PUBLISH looks up its topic. */
  method PublishName(topic: Str) returns (key: Str)
    requires topic != []
    ensures key == PublishKey(topic)
  {
    if topic[|topic| - 1] != SLASH {
      var buf := Strings.AppendString(topic, [SLASH]);
      key := CStr(buf[..]);
    } else {
      key := CStr(topic);
    }
  }

  /** The name a filter subscribes to, and whether it is a wildcard. */
  method FilterName(filter: Str) returns (key: Str, wildcard: bool)
    requires filter != []
    ensures key == SubscribeKey(filter) && wildcard == IsWildcard(filter)
  {
    wildcard := |filter| >= 2 && filter[|filter| - 1] == HASH && filter[|filter| - 2] == SLASH;
    if wildcard {
      var s := CStr(filter);
      var buf := new byte[|s| + 1](i requires 0 <= i <= |s| => if i < |s| then s[i] else 0);
      assert buf[..|s|] == s;
      Strings.RemoveOccur(buf, |s|, HASH);
      key := CStr(buf[..]);
    } else {
      key := PublishName(filter);
    }
  }

  /** What went out for a packet: a frame of the right length that begins with what the packer wrote. */
  ghost predicate FrameFor(q: Publish, bytes: Str) {
    ValidPublish(q) && |bytes| == |PublishFrame(q)| && Codec.WrittenFrame(q) <= bytes
  }

  /** Socket by socket, the bytes sent are frames for the packets due. */
  ghost predicate Carries(sent: seq<Sent>, due: seq<Delivery>) {
    |sent| == |due| && forall i :: 0 <= i < |sent| ==> sent[i].fd == due[i].fd && FrameFor(due[i].packet, sent[i].bytes)
  }

  /** Without zero bytes in topic and payload the frame is the only thing that can have gone out. */
  lemma FrameForZeroFree(q: Publish, bytes: Str)
    requires FrameFor(q, bytes) && ZeroFree(q.topic) && ZeroFree(q.payload)
    ensures bytes == PublishFrame(q)
  {
    Codec.FilledIffZeroFree(q);
  }

  lemma CarriesBoth(s1: seq<Sent>, s2: seq<Sent>, d1: seq<Delivery>, d2: seq<Delivery>)
    requires Carries(s1, d1) && Carries(s2, d2)
    ensures Carries(s1 + s2, d1 + d2)
  {
    hide FrameFor;
  }

  /** The packet being handled: the fan-out loop writes into its header. */
  class Incoming {
    var header: byte
    const pktId: nat
    const topic: Str
    const payload: Str

    function Packet(): Publish
      reads this
    {
      Publish(header, pktId, topic, payload)
    }

    constructor (p: Publish)
      ensures Packet() == p
    {
      header, pktId, topic, payload := p.header, p.pktId, p.topic, p.payload;
    }
  }

  /** The loop over the subscribers. It overwrites the QoS bits of the packet for each of them in turn. */
  method SendAll(pkt: Incoming, subs: seq<Subscriber>) returns (sent: seq<Sent>)
    requires ValidPublish(pkt.Packet())
    modifies pkt
    ensures Carries(sent, FanOut(old(pkt.Packet()), subs))
    ensures pkt.header == LeftHeader(old(pkt.header), subs)
  {
    hide PublishFrame, FrameFor, QoS, Codec.AllocatedLength, WithQoS;
    sent := [];
    ghost var p := pkt.Packet();
    for i := 0 to |subs|
      invariant pkt.header == LeftHeader(p.header, subs[..i])
      invariant |sent| == i
      invariant forall j :: 0 <= j < i ==>
                  sent[j].fd == subs[j].fd && FrameFor(ForSubscriber(p, subs[j]), sent[j].bytes)
    {
      HeaderOverwritten(p.header, subs, i);
      pkt.header := WithQoS(pkt.header, subs[i].qos);
      var bytes := SendOne(pkt);
      sent := sent + [Sent(subs[i].fd, bytes)];
    }
    assert subs[..|subs|] == subs;
  }

  lemma HeaderOverwritten(header: byte, subs: seq<Subscriber>, i: nat)
    requires i < |subs|
    ensures WithQoS(LeftHeader(header, subs[..i]), subs[i].qos) == WithQoS(header, subs[i].qos)
    ensures LeftHeader(header, subs[..i + 1]) == WithQoS(header, subs[i].qos)
  {
    hide WithQoS;
    if i > 0 { QoSOverwritten(header, subs[i - 1].qos, subs[i].qos); }
  }

  /** Pack the packet as its header now stands, and send the length computed beside the packer. */
  method SendOne(pkt: Incoming) returns (bytes: Str)
    requires ValidPublish(pkt.Packet())
    ensures FrameFor(pkt.Packet(), bytes)
  {
    hide Codec.WrittenFrame, QoS, Codec.AllocatedLength;
    var pubLen := Codec.AllocatedLength(|pkt.topic|, |pkt.payload|, QoS(pkt.header));
    var packed := Codec.PackPublish(pkt.Packet());
    assert pubLen == packed.Length;
    bytes := packed[..pubLen];
  }

  /** The statistics topics, without subscribers. */
  method CreateTopics(names: seq<string>) returns (t: Trie<seq<Subscriber>>)
    ensures fresh(t) && t.Valid() && t.data == Initial(names)
  {
    hide Ascii;
    t := new Trie<seq<Subscriber>>();
    for i := 0 to |names|
      invariant t.Valid() && fresh(t) && t.data == Initial(names[..i])
    {
      assert names[..i + 1][..i] == names[..i];
      t.Insert(Ascii(names[i]), []);
    }
    assert names[..|names|] == names;
  }

  class Broker {
    const topics: Trie<seq<Subscriber>>
    /** Everything sent so far, and the reply staged for the client being served. */
    var sent: seq<Sent>
    var staged: Option<Str>
    ghost const start: Topics
    ghost var history: seq<Event>

    /** The state is the one that the history of events calls for. */
    ghost predicate Valid()
      reads this, topics
    {
      && topics.Valid() && AllPossible(history)
      && topics.data == Run(start, history)
      && Carries(sent, Trace(start, history))
      && NoSubscribers(start)
    }

    constructor ()
      ensures Valid() && fresh(topics) && history == [] && sent == [] && staged == None && start == Initial(SYS_TOPICS)
    {
      var t := CreateTopics(SYS_TOPICS);
      topics, sent, staged, history, start := t, [], None, [], Initial(SYS_TOPICS);
    }

    /** In every reachable state what has been sent is told by the history and the names stored at the start; without
        wildcards by the earlier subscriptions alone. */
    lemma SentIsDue()
      requires Valid()
      ensures Carries(sent, Due(start.Keys, history))
      ensures NoWildcards(history) ==> Carries(sent, Expected(history))
    {
      hide Carries, Due, Expected, Trace;
      EndToEnd(start, history);
      if NoWildcards(history) {
        DueWithoutWildcards(start.Keys, history);
      }
    }

    /** Every frame sent without zero bytes is the frame of the packet due, and decodes to it. */
    lemma SentDecodes(i: nat)
      requires Valid() && i < |sent|
      ensures |Due(start.Keys, history)| == |sent|
      ensures var due := Due(start.Keys, history)[i];
              && sent[i].fd == due.fd && ValidPublish(due.packet)
              && (ZeroFree(due.packet.topic) && ZeroFree(due.packet.payload) ==>
                    && sent[i].bytes == PublishFrame(due.packet)
                    && ParsePublish(sent[i].bytes) == Some((Received(due.packet), [])))
    {
      hide Due, Trace, PublishFrame, ParsePublish;
      SentIsDue();
      var q := Due(start.Keys, history)[i].packet;
      if ZeroFree(q.topic) && ZeroFree(q.payload) {
        FrameForZeroFree(q, sent[i].bytes);
        PublishRoundTrip(q, []);
        assert PublishFrame(q) + [] == PublishFrame(q);
      }
    }

    /** A SUBSCRIBE: filter by filter, with a wildcard flag that is never reset, and one return code each. */
    method OnSubscribe(fd: int, pktId: nat, tuples: seq<(Str, byte)>)
      requires Valid() && pktId < U16 && |tuples| <= 125 && forall i :: 0 <= i < |tuples| ==> tuples[i].0 != []
      modifies this, topics
      ensures Valid() && history == old(history) + PacketEvents(fd, tuples) && sent == old(sent)
      ensures staged == Some(SubackFrame(0x90, pktId, seq(|tuples|, i requires 0 <= i < |tuples| => tuples[i].1)))
    {
      hide Run, Trace, Carries, PacketEvents, SubackFrame, NoSubscribers;
      var codes := AddFilters(fd, tuples);
      var packed := Codec.PackSuback(0x90, pktId, codes);
      staged := Some(packed[..]);
    }

    /** The loop over the filters, which collects the return codes. */
    method AddFilters(fd: int, tuples: seq<(Str, byte)>) returns (codes: Str)
      requires Valid() && forall i :: 0 <= i < |tuples| ==> tuples[i].0 != []
      modifies this`history, topics
      ensures Valid() && history == old(history) + PacketEvents(fd, tuples)
      ensures codes == seq(|tuples|, i requires 0 <= i < |tuples| => tuples[i].1)
    {
      hide Run, Trace, Carries, PacketEvents, AnyWildcard, NoSubscribers, IsWildcard;
      var wildcard := false;
      codes := [];
      NoFilters(fd);
      for i := 0 to |tuples|
        invariant Valid() && history == old(history) + PacketEvents(fd, tuples[..i])
        invariant wildcard == AnyWildcard(tuples[..i])
        invariant |codes| == i && forall j :: 0 <= j < i ==> codes[j] == tuples[j].1
      {
        PacketStep(fd, tuples, i);
        wildcard := AddFilter(fd, tuples[i].0, tuples[i].1, wildcard);
        codes := codes + [tuples[i].1];
      }
      assert tuples[..|tuples|] == tuples;
    }

    /** One filter of a packet, given the wildcard flag left by those before it. */
    method AddFilter(fd: int, filter: Str, qos: byte, wildcard: bool) returns (spreads: bool)
      requires Valid() && filter != []
      modifies this`history, topics
      ensures Valid() && spreads == (wildcard || IsWildcard(filter))
      ensures history == old(history) + [Subscribed(filter, Subscriber(fd, qos), spreads)]
    {
      hide Subscribe, Run, Trace, IsWildcard, Carries;
      var sub := Subscriber(fd, qos);
      spreads := AddSubscriber(filter, sub, wildcard);
      RunStep(start, history, Subscribed(filter, sub, spreads));
      assert Trace(start, history) + [] == Trace(start, history);
      history := history + [Subscribed(filter, sub, spreads)];
    }

    /** Create or find the topic of a filter, reach below it when the flag says so, then push. */
    method AddSubscriber(filter: Str, sub: Subscriber, wildcard: bool) returns (spreads: bool)
      requires topics.Valid() && filter != []
      modifies topics
      ensures spreads == (wildcard || IsWildcard(filter))
      ensures topics.Valid() && topics.data == Subscribe(old(topics.data), filter, sub, spreads)
    {
      var key, own := FilterName(filter);
      spreads := wildcard || own;
      Reach(key, spreads, sub);
      topics.SetData(key, [sub] + topics.data[key]);
    }

    /** Look the topic up, create it when missing, and otherwise let a wildcard reach below it. */
    method Reach(key: Str, wildcard: bool, sub: Subscriber)
      requires topics.Valid()
      modifies topics
      ensures topics.Valid() && key in topics.data && key in topics.children
      ensures topics.data == if key !in old(topics.data) then old(topics.data)[key := []]
                             else if wildcard then Wildcard(old(topics.data), key, sub) else old(topics.data)
    {
      var t := topics.Find(key);
      if t.None? {
        topics.Insert(key, []);
      } else if wildcard {
        Wildcards.SubscribeBelow(topics, key, sub);
      }
    }

    /** The reply for a level of QoS. */
    method StageReply(qos: nat, pktId: nat)
      requires pktId < U16
      modifies this`staged
      ensures staged == if Reply(qos, pktId).Some? then Reply(qos, pktId) else old(staged)
    {
      if qos == 1 {
        var packed := Codec.PackAck(PUBACK, pktId);
        staged := Some(packed[..]);
      } else if qos == 2 {
        var packed := Codec.PackAck(PUBREC, pktId);
        staged := Some(packed[..]);
      }
    }

    /** A PUBLISH: find or create its topic, send to every subscriber, and stage the reply. The loop leaves another
        QoS in the packet; the reply follows the one saved before. */
    method OnPublish(pkt: Incoming)
      requires Valid() && pkt.topic != [] && ValidPublish(pkt.Packet())
      modifies this, topics, pkt
      ensures Valid() && history == old(history) + [Published(old(pkt.Packet()))]
      ensures pkt.header == LeftHeader(old(pkt.header), Subscribers(old(topics.data), PublishKey(pkt.topic)))
      ensures var reply := Reply(QoS(old(pkt.header)), pkt.pktId); staged == if reply.Some? then reply else old(staged)
    {
      hide PublishKey, PublishTopics, FanOut, QoS, Run, Trace, Carries, LeftHeader;
      ghost var p := pkt.Packet();
      var qos := QoS(pkt.header);
      var frames := Deliver(pkt);
      StageReply(qos, pkt.pktId);
      RunStep(start, history, Published(p));
      CarriesBoth(sent, frames, Trace(start, history), StepSent(Run(start, history), Published(p)));
      sent := sent + frames;
      history := history + [Published(p)];
    }

    /** Find or create the topic, and send to its subscribers. */
    method Deliver(pkt: Incoming) returns (frames: seq<Sent>)
      requires topics.Valid() && pkt.topic != [] && ValidPublish(pkt.Packet())
      modifies topics, pkt
      ensures topics.Valid() && topics.data == PublishTopics(old(topics.data), pkt.topic)
      ensures Carries(frames, FanOut(old(pkt.Packet()), Subscribers(old(topics.data), PublishKey(pkt.topic))))
      ensures pkt.header == LeftHeader(old(pkt.header), Subscribers(old(topics.data), PublishKey(pkt.topic)))
    {
      hide PublishKey, FanOut, Carries, LeftHeader;
      var key := PublishName(pkt.topic);
      Reach(key, false, Subscriber(0, 0));
      assert topics.data == PublishTopics(old(topics.data), pkt.topic);
      frames := SendAll(pkt, topics.data[key]);
    }
  }

  lemma NoFilters(fd: int)
    ensures PacketEvents(fd, []) == [] && !AnyWildcard([])
  {
  }
}
