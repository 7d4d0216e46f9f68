/** Packets, names and sizes in their concrete bytes. */
module Examples {
  import opened Bytes
  import opened Wire
  import opened BrokerSpec
  import Codec
  import Config
  import Strings

  // ---------- PUBLISH ----------

  /** QoS 1, packet id 10, topic `a/b`, payload `hi`. */
  lemma PublishWithId()
    ensures var p := Publish(0x32, 10, [97, 47, 98], [104, 105]);
            && PublishFrame(p) == [0x32, 0x09, 0x00, 0x03, 97, 47, 98, 0x00, 0x0A, 104, 105]
            && ParsePublish([0x32, 0x09, 0x00, 0x03, 97, 47, 98, 0x00, 0x0A, 104, 105]) == Some((p, []))
  {
    var p := Publish(0x32, 10, [97, 47, 98], [104, 105]);
    var f: Str := [0x32, 0x09, 0x00, 0x03, 97, 47, 98, 0x00, 0x0A, 104, 105];
    assert PublishFrame(p) == f;
    PublishRoundTrip(p, []);
    assert f + [] == f;
  }

  /** QoS 0 carries no packet id. */
  lemma PublishWithoutId()
    ensures var p := Publish(0x30, 10, [97], [120]);
            && PublishFrame(p) == [0x30, 0x04, 0x00, 0x01, 97, 120]
            && ParsePublish([0x30, 0x04, 0x00, 0x01, 97, 120]) == Some((Publish(0x30, 0, [97], [120]), []))
  {
    var p := Publish(0x30, 10, [97], [120]);
    var f: Str := [0x30, 0x04, 0x00, 0x01, 97, 120];
    assert PublishFrame(p) == f;
    PublishRoundTrip(p, []);
    assert f + [] == f;
  }

  /** With a zero byte in the topic the packer stops copying it there, and leaves two bytes of its buffer unwritten. */
  lemma ZeroByteInTopic()
    ensures var p := Publish(0x30, 0, [97, 0, 98], [120]);
            && Codec.WrittenFrame(p) == [0x30, 0x06, 0x00, 0x03, 97, 120]
            && PublishFrame(p) == [0x30, 0x06, 0x00, 0x03, 97, 0, 98, 120]
  {
    var topic, payload: Str := [97, 0, 98], [120];
    assert topic[1..][0] == 0;
    assert CStr(topic[1..]) == [] && CStr(topic) == [97];
    assert CStr(payload[1..]) == [] && CStr(payload) == [120];
  }

  // ---------- Replies ----------

  /** The replies to QoS 1 and 2 for packet id 7, a SUBACK for id 7 with return code 1, and a CONNACK that accepts. */
  lemma Replies()
    ensures Reply(0, 7) == None
    ensures Reply(1, 7) == Some([0x40, 0x02, 0x00, 0x07])
    ensures Reply(2, 7) == Some([0x50, 0x02, 0x00, 0x07])
    ensures Reply(1, 0x1234) == Some([0x40, 0x02, 0x12, 0x34])
    ensures SubackFrame(0x90, 7, [1]) == [0x90, 0x03, 0x00, 0x07, 0x01]
    ensures ConnackFrame(0, 0) == [0x20, 0x02, 0x00, 0x00]
  {
    assert EncodeLength(3, 4) == [3];
    assert PutU16(7) == [0, 7] && PutU16(0x1234) == [0x12, 0x34];
    assert AckFrame(PUBACK, 7) == [0x40, 2, 0, 7] && AckFrame(PUBREC, 7) == [0x50, 2, 0, 7];
    assert AckFrame(PUBACK, 0x1234) == [0x40, 2, 0x12, 0x34];
  }

  // ---------- UNSUBSCRIBE and SUBSCRIBE ----------

  lemma UnsubscribeTwo()
    ensures UnsubscribeFrame(0xA2, 10, [[97], [98, 99]])
         == [0xA2, 0x09, 0x00, 0x0A, 0x00, 0x01, 97, 0x00, 0x02, 98, 99]
    ensures ParseUnsubscribe([0xA2, 0x09, 0x00, 0x0A, 0x00, 0x01, 97, 0x00, 0x02, 98, 99])
         == Some((Unsubscribe(0xA2, 10, 2, [[97], [98, 99]]), []))
  {
    var a, bc: Str := [97], [98, 99];
    var filters := [a, bc];
    assert filters[1..] == [bc] && [bc][1..] == [];
    assert PutFilters([bc]) == [0, 2, 98, 99];
    assert PutFilters(filters) == [0, 1, 97, 0, 2, 98, 99];
    assert EncodeLength(9, 4) == [9];
    var f: Str := [0xA2, 0x09, 0x00, 0x0A, 0x00, 0x01, 97, 0x00, 0x02, 98, 99];
    assert UnsubscribeFrame(0xA2, 10, filters) == f;
    UnsubscribeRoundTrip(0xA2, 10, filters, []);
    assert f + [] == f;
  }

  /** One filter `a` with QoS 2: the decoder runs past the end of its packet. */
  lemma SubscribeOne()
    ensures SubscribeFrame(0x82, 10, [([97], 2)]) == [0x82, 0x06, 0x00, 0x0A, 0x00, 0x01, 97, 0x02]
    ensures ParseSubscribe([0x82, 0x06, 0x00, 0x0A, 0x00, 0x01, 97, 0x02]) == None
  {
    var t: (Str, byte) := ([97], 2);
    assert [t][1..] == [];
    assert PutTuples([t]) == [0, 1, 97, 2];
    assert EncodeLength(6, 4) == [6];
    var f: Str := [0x82, 0x06, 0x00, 0x0A, 0x00, 0x01, 97, 0x02];
    assert SubscribeFrame(0x82, 10, [t]) == f;
    hide ParseSubscribe, SubscribeFrame;
    SubscribeFrameDecodesIff(0x82, 10, [t], []);
    assert f + [] == f;
  }

  /** With a counter that is one short, the loop reads the filter and its QoS and ends. */
  lemma SubscribeOneShort()
    ensures ReadTuples([0x00, 0x01, 97, 0x02], 3) == Some(([([97], 2)], []))
  {
    var a, two: Str := [97], [2];
    var payload: Str := [0x00, 0x01, 97, 0x02];
    assert payload == PutString(a) + two;
    StringRoundTrip(a, two);
    assert two[1..] == [];
    NoMoreTuples([]);
    hide ReadString;
    assert SizeT(0) == 0 && [(a, two[0])] + [] == [([97], 2)];
    assert ReadTuples(payload, 3) == Some(([(a, two[0])] + [], []));
  }

  /** A `size_t` wraps at 2^64. */
  lemma SizeWraps()
    ensures SizeT(-1) == 0xFFFF_FFFF_FFFF_FFFF && SizeT(0x1_0000_0000_0000_0000) == 0
  {
  }

  // ---------- CONNECT ----------

  /** Flags 0x82, keep-alive 60, client `a`, user name `b`: no password. */
  lemma ConnectUsernameOnly()
    ensures ParseConnect([0x10, 0x10, 0x00, 0x04, 0x4D, 0x51, 0x54, 0x54, 0x04, 0x82, 0x00, 0x3C,
                          0x00, 0x01, 97, 0x00, 0x01, 98])
         == Some((Connect(0x10, 0x82, 60, [97], None, Some([98]), None), []))
  {
    var c := Connect(0x10, 0x82, 60, [97], None, Some([98]), None);
    FlagBits(0x82);
    var s: Str := [0x10, 0x10, 0x00, 0x04, 0x4D, 0x51, 0x54, 0x54, 0x04, 0x82, 0x00, 0x3C,
                   0x00, 0x01, 97, 0x00, 0x01, 98];
    assert ConnectTail(c) == [0x00, 0x3C, 0x00, 0x01, 97, 0x00, 0x01, 98];
    assert s[9..] == [0x82] + ConnectTail(c) + [];
    assert DecodeLength(s[1..], 4).Some?;
    ConnectReads(s, c, []);
  }

  /** Flags 0xC6 and every field: client `c`, will topic `t`, will message `m`, user name `u`, password `p`. */
  lemma ConnectAllFields(c: Connect)
    requires c == Connect(0x10, 0xC6, 60, [99], Some(([116], [109])), Some([117]), Some([112]))
    ensures ValidConnect(c)
    ensures ConnectBody(c) == [0x00, 0x04, 0x4D, 0x51, 0x54, 0x54, 0x04, 0xC6, 0x00, 0x3C, 0x00, 0x01, 99,
                               0x00, 0x01, 116, 0x00, 0x01, 109, 0x00, 0x01, 117, 0x00, 0x01, 112]
    ensures ParseConnect([0x10, 0x19] + ConnectBody(c)) == Some((c, []))
  {
    FlagBits(c.flags);
    hide WillFlag, UsernameFlag, PasswordFlag, ConnectBody, ParseConnect;
    AllFieldsBody(c);
    ShortConnect(c);
  }

  lemma AllFieldsBody(c: Connect)
    requires ValidConnect(c)
    requires c == Connect(0x10, 0xC6, 60, [99], Some(([116], [109])), Some([117]), Some([112]))
    ensures ConnectBody(c) == [0x00, 0x04, 0x4D, 0x51, 0x54, 0x54, 0x04, 0xC6, 0x00, 0x3C, 0x00, 0x01, 99,
                               0x00, 0x01, 116, 0x00, 0x01, 109, 0x00, 0x01, 117, 0x00, 0x01, 112]
  {
    hide WillFlag, UsernameFlag, PasswordFlag;
    var id, t, m, u, p: Str := [99], [116], [109], [117], [112];
    assert PutWill(c.will) == [0x00, 0x01, 116, 0x00, 0x01, 109] by {
      assert PutWill(Some((t, m))) == PutString(t) + PutString(m);
    }
    assert PutOptional(c.username) == [0x00, 0x01, 117] && PutOptional(c.password) == [0x00, 0x01, 112];
    assert PutString(id) == [0x00, 0x01, 99] && PutU16(60) == [0x00, 0x3C];
    hide PutWill, PutOptional, PutString, PutU16;
    assert ConnectPayload(c) == [0x00, 0x01, 99, 0x00, 0x01, 116, 0x00, 0x01, 109, 0x00, 0x01, 117, 0x00, 0x01, 112];
  }

  // ---------- Topics ----------

  /** Client 1 subscribes to `a` with QoS 1, client 2 to `a/` with QoS 0; a PUBLISH to `a` goes to client 2 first. */
  lemma TwoSubscribers()
    ensures var events := [Subscribed([97], Subscriber(1, 1), false), Subscribed([97, 47], Subscriber(2, 0), false),
                           Published(Publish(0x32, 7, [97], [120]))];
            && AllPossible(events)
            && Due({}, events)
               == [Delivery(2, Publish(0x30, 7, [97], [120])), Delivery(1, Publish(0x32, 7, [97], [120]))]
  {
    var p := Publish(0x32, 7, [97], [120]);
    var e1, e2 := Subscribed([97], Subscriber(1, 1), false), Subscribed([97, 47], Subscriber(2, 0), false);
    PlainNames();
    hide PublishKey, SubscribeKey, IsWildcard, FanOut, Recorded, Due;
    ListOfTwo(e1, e2, [97, 47]);
    DueThen(e1, e2, p, [97, 47]);
    FanOutTwo(p);
  }

  lemma PlainNames()
    ensures !IsWildcard([97]) && !IsWildcard([97, 47])
    ensures SubscribeKey([97]) == SubscribeKey([97, 47]) == PublishKey([97]) == [97, 47]
  {
    PublishKeyBytes([97]);
    PublishKeyBytes([97, 47]);
  }

  lemma FanOutTwo(p: Publish)
    requires p == Publish(0x32, 7, [97], [120])
    ensures FanOut(p, [Subscriber(2, 0), Subscriber(1, 1)]) == [Delivery(2, p.(header := 0x30)), Delivery(1, p)]
  {
    hide WithQoS, QoS, PacketType, Dup, Retain;
    var a, b := Subscriber(2, 0), Subscriber(1, 1);
    OverwrittenQoS(p.header, 0);
    OverwrittenQoS(p.header, 1);
    assert ForSubscriber(p, a) == p.(header := 0x30) && ForSubscriber(p, b) == p;
    hide ForSubscriber;
    assert FanOut(p, [a, b]) == [Delivery(2, ForSubscriber(p, a)), Delivery(1, ForSubscriber(p, b))];
  }

  /** QoS 0 and 1 written into the header 0x32. */
  lemma OverwrittenQoS(header: byte, qos: nat)
    requires header == 0x32 && qos < 2
    ensures WithQoS(header, qos) == 0x30 + 2 * qos
  {
    hide WithQoS;
    HeaderParts(WithQoS(header, qos));
    HeaderParts(header);
  }

  /** Two plain subscriptions to one name: the list holds the later one first. */
  lemma ListOfTwo(e1: Event, e2: Event, key: Str)
    requires Possible(e1) && Possible(e2) && e1.Subscribed? && e2.Subscribed? && !e1.spreads && !e2.spreads
    requires SubscribeKey(e1.filter) == key == SubscribeKey(e2.filter)
    ensures Recorded({}, [e1, e2], key) == [e2.sub, e1.sub]
  {
    hide SubscribeKey;
    assert [e1, e2][..1] == [e1] && [e1][..0] == [];
    assert Earlier([e1], key) == [e1.sub];
    RecordedWithoutWildcards({}, [e1, e2], key);
  }

  lemma DueThen(e1: Event, e2: Event, p: Publish, key: Str)
    requires Possible(e1) && Possible(e2) && e1.Subscribed? && e2.Subscribed? && Possible(Published(p))
    requires PublishKey(p.topic) == key
    ensures Due({}, [e1, e2, Published(p)]) == FanOut(p, Recorded({}, [e1, e2], key))
  {
    hide PublishKey, FanOut, Recorded;
    assert [e1, e2, Published(p)][..2] == [e1, e2] && [e1, e2][..1] == [e1] && [e1][..0] == [];
    assert Due({}, [e1]) == [] && Due({}, [e1, e2]) == [];
  }

  /** `$SOL/` is one of the names at start, in these bytes. */
  lemma SolTopic()
    ensures Ascii("$SOL/") == [36, 83, 79, 76, 47] && Ascii("$SOL/") in Initial(SYS_TOPICS) && |SYS_TOPICS| == 14
  {
    InitialNames(SYS_TOPICS, Ascii("$SOL/"));
    assert SYS_TOPICS[0] == "$SOL/";
  }

  /** The name `a/` of the filter `a/#`, and `ac/` of `a#c/#`: every hash goes. */
  lemma HashesGo()
    ensures SubscribeKey([97, 47, 35]) == [97, 47] && SubscribeKey([97, 35, 99, 47, 35]) == [97, 99, 47]
  {
    var n, f: Str := [97, 47, 35], [97, 35, 99, 47, 35];
    assert ZeroFree(n) && ZeroFree(f) && IsWildcard(n) && IsWildcard(f);
    HashesOf(n, f);
  }

  lemma HashesOf(n: Str, f: Str)
    requires n == [97, 47, 35] && f == [97, 35, 99, 47, 35]
    ensures Strings.Without(n, 35) == [97, 47] && Strings.Without(f, 35) == [97, 99, 47]
  {
    var slash, hash, tail: Str := [47, 35], [35], [99, 47, 35];
    assert hash[1..] == [] && slash[1..] == hash && n[1..] == slash;
    assert tail[1..] == slash && f[1..] == hash + tail && (hash + tail)[1..] == tail;
    assert Strings.Without(hash, 35) == [];
    assert Strings.Without(slash, 35) == [47];
    assert Strings.Without(tail, 35) == [99, 47];
    assert Strings.Without(hash + tail, 35) == [99, 47];
  }

  // ---------- Sizes ----------

  /** Printed sizes: `0`, `512b`, `1Kb`, `5Mb`, `3Gb`. */
  lemma PrintedSizes()
    ensures Config.Printed(0) == [48] && Config.Printed(512) == [53, 49, 50, 98]
    ensures Config.Printed(1536) == [49, 75, 98]
    ensures Config.Printed(5242880) == [53, 77, 98] && Config.Printed(3221225472) == [51, 71, 98]
  {
    SomeDigits();
    hide Config.Digits;
  }

  lemma SomeDigits()
    ensures Config.Digits(512) == [53, 49, 50] && Config.Digits(5) == [53]
    ensures Config.Digits(0) == [48] && Config.Digits(1) == [49] && Config.Digits(3) == [51]
  {
    assert Config.Digits(51) == [53, 49];
  }
}
