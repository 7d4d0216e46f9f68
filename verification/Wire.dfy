/** The MQTT 3.1.1 wire format: what frames look like, and what a reader gets back from them. */
module Wire {
  import opened Bytes

  const MAX_LENGTH_BYTES: nat := 4
  const U16: nat := 0x1_0000
  const LENGTH_BOUND: nat := 0x1000_0000
  const SIZE_T: nat := 0x1_0000_0000_0000_0000

  // ---------- Remaining Length, section 2.2.3 of MQTT Version 3.1.1 ----------

  function EncodeLength(len: nat, budget: nat): (r: Str)
    ensures |r| <= budget
  {
    if budget == 0 then []
    else if len < 128 then [len]
    else [128 + len % 128] + EncodeLength(len / 128, budget - 1)
  }

  /** The value and the rest of the buffer, or none when the field does not end within its budget. */
  function DecodeLength(s: Str, budget: nat): Option<(nat, Str)> {
    if budget == 0 || s == [] then None
    else if s[0] < 128 then Some((s[0], s[1..]))
    else
      var r := DecodeLength(s[1..], budget - 1);
      if r.Some? then Some((s[0] - 128 + 128 * r.value.0, r.value.1)) else None
  }

  function Pow128(n: nat): nat {
    if n == 0 then 1 else 128 * Pow128(n - 1)
  }

  /** Decoding inverts encoding exactly for the lengths that fit the budget. */
  lemma {:induction false} LengthRoundTrip(len: nat, budget: nat, rest: Str)
    requires budget > 0
    ensures DecodeLength(EncodeLength(len, budget) + rest, budget) == Some((len, rest)) <==> len < Pow128(budget)
    ensures len >= Pow128(budget) ==> DecodeLength(EncodeLength(len, budget) + rest, budget) == None
  {
    var s := EncodeLength(len, budget) + rest;
    if len < 128 {
      assert s[1..] == rest;
      PowerAtLeast(budget);
    } else {
      assert s[1..] == EncodeLength(len / 128, budget - 1) + rest;
      assert len == 128 * (len / 128) + len % 128;
      if budget > 1 { LengthRoundTrip(len / 128, budget - 1, rest); }
    }
  }

  lemma {:induction false} PowerAtLeast(n: nat)
    requires n > 0
    ensures Pow128(n) >= 128
  {
    if n == 1 {
    } else {
      PowerAtLeast(n - 1);
    }
  }

  lemma LengthField(len: nat, body: Str)
    requires len < LENGTH_BOUND
    ensures DecodeLength(EncodeLength(len, MAX_LENGTH_BYTES) + body, MAX_LENGTH_BYTES) == Some((len, body))
  {
    assert Pow128(4) == LENGTH_BOUND;
    LengthRoundTrip(len, MAX_LENGTH_BYTES, body);
  }

  /** The number of bytes follows the thresholds 0x80, 0x4000 and 0x200000. */
  lemma LengthSize(len: nat)
    ensures |EncodeLength(len, MAX_LENGTH_BYTES)| ==
              if len >= 0x20_0000 then 4 else if len >= 0x4000 then 3 else if len >= 0x80 then 2 else 1
  {
    var a, b, c := len / 128, len / 128 / 128, len / 128 / 128 / 128;
    assert |EncodeLength(len, 4)| == if len < 128 then 1 else 1 + |EncodeLength(a, 3)|;
    assert |EncodeLength(a, 3)| == if a < 128 then 1 else 1 + |EncodeLength(b, 2)|;
    assert |EncodeLength(b, 2)| == if b < 128 then 1 else 1 + |EncodeLength(c, 1)|;
    assert |EncodeLength(c, 1)| == 1;
  }

  /** No other encoding of a value is shorter, and one of the same length is the same. */
  lemma {:induction false} LengthMinimal(s: Str, budget: nat)
    requires DecodeLength(s, budget).Some?
    ensures var (v, rest) := DecodeLength(s, budget).value;
            var used := |s| - |rest|;
            && 0 < used <= budget && s == s[..used] + rest && v < Pow128(used)
            && |EncodeLength(v, budget)| <= used
            && (|EncodeLength(v, budget)| == used ==> EncodeLength(v, budget) == s[..used])
  {
    if s[0] < 128 {
    } else {
      LengthMinimal(s[1..], budget - 1);
      var (v, rest) := DecodeLength(s[1..], budget - 1).value;
      var used := |s[1..]| - |rest|;
      var w := s[0] - 128 + 128 * v;
      assert s[..used + 1] == [s[0]] + s[1..][..used];
      assert w / 128 == v && w % 128 == s[0] - 128;
    }
  }

  /** Two lengths never have encodings of which one begins the other. */
  lemma LengthPrefixFree(a: nat, b: nat)
    requires a < LENGTH_BOUND && b < LENGTH_BOUND
    requires EncodeLength(a, MAX_LENGTH_BYTES) <= EncodeLength(b, MAX_LENGTH_BYTES)
    ensures a == b
  {
    var x, y := EncodeLength(a, MAX_LENGTH_BYTES), EncodeLength(b, MAX_LENGTH_BYTES);
    var rest := y[|x|..];
    assert y == x + rest && y == y + [];
    assert Pow128(4) == LENGTH_BOUND;
    LengthRoundTrip(a, MAX_LENGTH_BYTES, rest);
    LengthRoundTrip(b, MAX_LENGTH_BYTES, []);
  }

  /** The value of a field: seven bits of each byte, least significant first, up to the first byte below 128. */
  lemma LengthDigits(a: byte, b: byte, c: byte, d: byte, rest: Str)
    ensures a < 128 ==> DecodeLength([a] + rest, 4) == Some((a, rest))
    ensures b < 128 <= a ==> DecodeLength([a, b] + rest, 4) == Some((a - 128 + 128 * (b as int), rest))
    ensures c < 128 <= a && b >= 128 ==>
              DecodeLength([a, b, c] + rest, 4) == Some((a - 128 + 128 * (b - 128) + 16384 * (c as int), rest))
    ensures d < 128 <= a && b >= 128 && c >= 128 ==>
              DecodeLength([a, b, c, d] + rest, 4)
              == Some((a - 128 + 128 * (b - 128) + 16384 * (c - 128) + 2097152 * (d as int), rest))
    ensures a >= 128 && b >= 128 && c >= 128 && d >= 128 ==> DecodeLength([a, b, c, d] + rest, 4) == None
  {
    hide DecodeLength;
    DecodeStep(a, rest, 4);
    DecodeStep(a, [b] + rest, 4);
    DecodeStep(a, [b] + ([c] + rest), 4);
    DecodeStep(a, [b] + ([c] + ([d] + rest)), 4);
    DecodeStep(b, rest, 3);
    DecodeStep(b, [c] + rest, 3);
    DecodeStep(b, [c] + ([d] + rest), 3);
    DecodeStep(c, rest, 2);
    DecodeStep(c, [d] + rest, 2);
    DecodeStep(d, rest, 1);
    assert [a, b] + rest == [a] + ([b] + rest);
    assert [a, b, c] + rest == [a] + ([b] + ([c] + rest));
    assert [a, b, c, d] + rest == [a] + ([b] + ([c] + ([d] + rest)));
  }

  lemma DecodeStep(a: byte, tail: Str, budget: nat)
    requires budget > 0
    ensures a < 128 ==> DecodeLength([a] + tail, budget) == Some((a, tail))
    ensures a >= 128 ==>
              var r := DecodeLength(tail, budget - 1);
              DecodeLength([a] + tail, budget)
              == if r.None? then None else Some((a - 128 + 128 * r.value.0, r.value.1))
    ensures DecodeLength(tail, 0) == None
  {
    assert ([a] + tail)[1..] == tail;
  }

  /** The bounds of each size in table 2.4 of section 2.2.3. */
  lemma LengthTable()
    ensures EncodeLength(0, 4) == [0x00] && EncodeLength(127, 4) == [0x7F]
    ensures EncodeLength(128, 4) == [0x80, 0x01] && EncodeLength(16383, 4) == [0xFF, 0x7F]
    ensures EncodeLength(16384, 4) == [0x80, 0x80, 0x01] && EncodeLength(2097151, 4) == [0xFF, 0xFF, 0x7F]
    ensures EncodeLength(2097152, 4) == [0x80, 0x80, 0x80, 0x01]
    ensures EncodeLength(268435455, 4) == [0xFF, 0xFF, 0xFF, 0x7F]
  {
    hide EncodeLength;
    EncodeStep(0, 4);
    EncodeStep(127, 4);
    EncodeStep(128, 4);
    EncodeStep(1, 3);
    EncodeStep(16383, 4);
    EncodeStep(127, 3);
    EncodeStep(16384, 4);
    EncodeStep(128, 3);
    EncodeStep(1, 2);
    EncodeStep(2097151, 4);
    EncodeStep(16383, 3);
    EncodeStep(127, 2);
    EncodeStep(2097152, 4);
    EncodeStep(16384, 3);
    EncodeStep(128, 2);
    EncodeStep(1, 1);
    EncodeStep(268435455, 4);
    EncodeStep(2097151, 3);
    EncodeStep(16383, 2);
    EncodeStep(127, 1);
  }

  lemma EncodeStep(len: nat, budget: nat)
    requires budget > 0
    ensures len < 128 ==> EncodeLength(len, budget) == [len]
    ensures len >= 128 ==> EncodeLength(len, budget) == [128 + len % 128] + EncodeLength(len / 128, budget - 1)
  {
  }

  /** A packet by its own account: the Remaining Length counts the bytes behind it. */
  ghost predicate OnePacket(f: Str) {
    f != [] && exists n: nat, body: Str :: DecodeLength(f[1..], 4) == Some((n, body)) && |body| == n
  }

  lemma Framed(header: byte, body: Str)
    requires |body| < 0x1000_0000
    ensures DecodeLength(([header] + (EncodeLength(|body|, 4) + body))[1..], 4) == Some((|body|, body))
    ensures OnePacket([header] + (EncodeLength(|body|, 4) + body))
  {
    var f := [header] + (EncodeLength(|body|, 4) + body);
    LengthField(|body|, body);
    assert f[1..] == EncodeLength(|body|, 4) + body;
  }

  // ---------- Fields ----------

  function PutU16(v: nat): (r: Str)
    requires v < U16
    ensures |r| == 2
  {
    [v / 256, v % 256]
  }

  function ReadU16(s: Str): Option<(nat, Str)> {
    if |s| < 2 then None
    else
      var v: nat := 256 * (s[0] as int) + s[1] as int;
      Some((v, s[2..]))
  }

  function ReadBytes(s: Str, n: nat): Option<(Str, Str)> {
    if |s| < n then None else Some((s[..n], s[n..]))
  }

  function PutString(b: Str): (r: Str)
    requires |b| < U16
    ensures |r| == 2 + |b|
  {
    PutU16(|b|) + b
  }

  function ReadString(s: Str): Option<(Str, Str)> {
    var n := ReadU16(s);
    if n.None? then None else ReadBytes(n.value.1, n.value.0)
  }

  /** The number in two bytes, the high one first. */
  function BigEndian(high: int, low: int): int {
    256 * high + low
  }

  lemma U16Bytes(v: nat)
    requires v < 65536
    ensures BigEndian(PutU16(v)[0], PutU16(v)[1]) == v
  {
  }

  /** Two bytes of length, then the string. */
  lemma StringBytes(b: Str)
    requires |b| < 65536
    ensures BigEndian(PutString(b)[0], PutString(b)[1]) == |b| && PutString(b)[2..] == b
  {
  }

  lemma U16RoundTrip(v: nat, rest: Str)
    requires v < U16
    ensures ReadU16(PutU16(v) + rest) == Some((v, rest))
  {
    var s := PutU16(v) + rest;
    assert s[2..] == rest;
  }

  lemma BytesRoundTrip(b: Str, rest: Str)
    ensures ReadBytes(b + rest, |b|) == Some((b, rest))
  {
    assert (b + rest)[..|b|] == b && (b + rest)[|b|..] == rest;
  }

  lemma StringRoundTrip(b: Str, rest: Str)
    requires |b| < U16
    ensures ReadString(PutString(b) + rest) == Some((b, rest))
  {
    assert PutString(b) + rest == PutU16(|b|) + (b + rest);
    U16RoundTrip(|b|, b + rest);
    BytesRoundTrip(b, rest);
  }

  /** A string that was read stands in front of what is left. */
  lemma StringRead(s: Str)
    ensures ReadString(s).Some? ==>
              var (b, rest) := ReadString(s).value;
              |b| < U16 && s == PutString(b) + rest
  {
    if ReadString(s).Some? {
      var (b, rest) := ReadString(s).value;
      assert s == [s[0], s[1]] + (b + rest);
    }
  }

  // ---------- Fixed header ----------

  const CONNACK: byte := 0x20
  const PUBACK: byte := 0x40
  const PUBREC: byte := 0x50

  function PacketType(header: byte): nat { header / 16 }
  function Dup(header: byte): nat { header / 8 % 2 }
  function QoS(header: byte): nat { header / 2 % 4 }
  function Retain(header: byte): nat { header % 2 }

  /** Assignment to the two-bit QoS field of a header. */
  function WithQoS(header: byte, qos: nat): (r: byte)
    ensures QoS(r) == qos % 4
    ensures PacketType(r) == PacketType(header) && Dup(r) == Dup(header) && Retain(r) == Retain(header)
  {
    var r := header / 8 * 8 + qos % 4 * 2 + header % 2;
    assert r / 8 == header / 8 && r / 2 == header / 8 * 4 + qos % 4;
    assert r / 16 == r / 8 / 2 && header / 16 == header / 8 / 2;
    r
  }

  /** The fixed header of section 2.2: type in the upper four bits, then DUP, two bits of QoS, and RETAIN. */
  lemma HeaderParts(header: byte)
    ensures header == 16 * PacketType(header) + 8 * Dup(header) + 2 * QoS(header) + Retain(header)
    ensures PacketType(header) < 16 && Dup(header) < 2 && QoS(header) < 4 && Retain(header) < 2
  {
    assert header / 16 == header / 8 / 2 && header / 8 == header / 2 / 4;
  }

  // ---------- PUBLISH, section 3.3 ----------

  datatype Publish = Publish(header: byte, pktId: nat, topic: Str, payload: Str)

  predicate ValidPublish(p: Publish) {
    |p.topic| < U16 && |p.payload| < U16 && p.pktId < U16
  }

  function PublishLength(p: Publish): nat {
    2 + |p.topic| + |p.payload| + if QoS(p.header) > 0 then 2 else 0
  }

  function PublishBody(p: Publish): (r: Str)
    requires ValidPublish(p)
    ensures |r| == PublishLength(p)
  {
    PutString(p.topic) + ((if QoS(p.header) > 0 then PutU16(p.pktId) else []) + p.payload)
  }

  function PublishFrame(p: Publish): (r: Str)
    requires ValidPublish(p)
    ensures |r| == 1 + |EncodeLength(PublishLength(p), MAX_LENGTH_BYTES)| + PublishLength(p)
  {
    [p.header] + (EncodeLength(PublishLength(p), MAX_LENGTH_BYTES) + PublishBody(p))
  }

  /** Subtraction in an unsigned 16-bit variable. */
  function Sub16(a: nat, b: nat): nat {
    (a - b) % U16
  }

  function ParsePublish(s: Str): Option<(Publish, Str)> {
    if s == [] then None
    else
      var len := DecodeLength(s[1..], MAX_LENGTH_BYTES);
      if len.None? then None else ReadPublish(s[0], len.value.0, len.value.1)
  }

  /** Topic, packet id and payload; the payload length is computed in a 16-bit variable. */
  function ReadPublish(header: byte, len: nat, s: Str): Option<(Publish, Str)> {
    var topic := ReadString(s);
    if topic.None? then None
    else
      var id := if QoS(header) > 0 then ReadU16(topic.value.1) else Some((0, topic.value.1));
      if id.None? then None
      else
        var payload := ReadBytes(id.value.1, MessageLength(header, len, |topic.value.0|));
        if payload.None? then None
        else Some((Publish(header, id.value.0, topic.value.0, payload.value.0), payload.value.1))
  }

  function MessageLength(header: byte, len: nat, topicLen: nat): nat {
    var m0 := len % U16;
    var m1 := if QoS(header) > 0 then Sub16(m0, 2) else m0;
    Sub16(m1, 2 + topicLen)
  }

  /** What a reader can recover: a QoS 0 frame carries no packet id. */
  function Received(p: Publish): Publish {
    if QoS(p.header) > 0 then p else p.(pktId := 0)
  }

  /** The 16-bit message length comes out right although the Remaining Length may not fit it. */
  lemma MessageLengthWraps(p: Publish)
    requires ValidPublish(p)
    ensures MessageLength(p.header, PublishLength(p), |p.topic|) == |p.payload|
  {
  }

  lemma PublishBodyRoundTrip(p: Publish, rest: Str)
    requires ValidPublish(p)
    ensures ReadPublish(p.header, PublishLength(p), PublishBody(p) + rest) == Some((Received(p), rest))
  {
    var id := if QoS(p.header) > 0 then PutU16(p.pktId) else [];
    var tail := p.payload + rest;
    assert PublishBody(p) + rest == PutString(p.topic) + (id + tail);
    StringRoundTrip(p.topic, id + tail);
    if QoS(p.header) > 0 {
      U16RoundTrip(p.pktId, tail);
    } else {
      assert id + tail == tail;
    }
    MessageLengthWraps(p);
    BytesRoundTrip(p.payload, rest);
  }

  /** Unpacking a packed PUBLISH recovers it and stops exactly at the end of the frame. */
  lemma PublishRoundTrip(p: Publish, rest: Str)
    requires ValidPublish(p)
    ensures ParsePublish(PublishFrame(p) + rest) == Some((Received(p), rest))
  {
    var s, len := PublishFrame(p) + rest, PublishLength(p);
    assert s[1..] == EncodeLength(len, MAX_LENGTH_BYTES) + (PublishBody(p) + rest);
    LengthField(len, PublishBody(p) + rest);
    PublishBodyRoundTrip(p, rest);
  }

  /** The layout of section 3.3: topic with its length, packet id if there is a QoS, payload. */
  lemma PublishBodyLayout(p: Publish)
    requires ValidPublish(p)
    ensures var body, id := PublishBody(p), if p.header / 2 % 4 > 0 then 2 else 0;
            && |body| == 2 + |p.topic| + id + |p.payload|
            && BigEndian(body[0], body[1]) == |p.topic| && body[2..2 + |p.topic|] == p.topic
            && (id == 2 ==> BigEndian(body[2 + |p.topic|], body[3 + |p.topic|]) == p.pktId)
            && body[2 + |p.topic| + id..] == p.payload
  {
    var id := if QoS(p.header) > 0 then PutU16(p.pktId) else [];
    var front := PutString(p.topic);
    U16Bytes(p.pktId);
    StringBytes(p.topic);
    assert PublishBody(p) == (front + id) + p.payload;
    assert PublishBody(p)[..|front|] == front;
  }

  /** The frame: the header, then the body behind its length. */
  lemma PublishLayout(p: Publish)
    requires ValidPublish(p)
    ensures var f, body := PublishFrame(p), PublishBody(p);
            f[0] == p.header && DecodeLength(f[1..], 4) == Some((|body|, body)) && OnePacket(f)
  {
    hide EncodeLength, DecodeLength;
    Framed(p.header, PublishBody(p));
  }

  // ---------- Acknowledgements, sections 3.2 and 3.4 to 3.11 ----------

  function AckFrame(header: byte, pktId: nat): Str
    requires pktId < U16
  {
    [header, 2] + PutU16(pktId)
  }

  function ParseAck(s: Str): Option<(byte, nat, Str)> {
    if s == [] then None
    else
      var len := DecodeLength(s[1..], MAX_LENGTH_BYTES);
      if len.None? then None
      else
        var id := ReadU16(len.value.1);
        if id.None? then None else Some((s[0], id.value.0, id.value.1))
  }

  lemma AckRoundTrip(header: byte, pktId: nat, rest: Str)
    requires pktId < U16
    ensures ParseAck(AckFrame(header, pktId) + rest) == Some((header, pktId, rest))
  {
    var s := AckFrame(header, pktId) + rest;
    assert s[1..][1..] == PutU16(pktId) + rest;
    U16RoundTrip(pktId, rest);
  }

  /** The bytes of an acknowledgement: one packet with two bytes of packet id. */
  lemma AckBytes(header: byte, pktId: nat)
    requires pktId < 65536
    ensures var f := AckFrame(header, pktId);
            && |f| == 4 && f[0] == header && DecodeLength(f[1..], 4) == Some((2, f[2..])) && OnePacket(f)
            && BigEndian(f[2], f[3]) == pktId
  {
    U16Bytes(pktId);
    assert AckFrame(header, pktId)[1..][1..] == AckFrame(header, pktId)[2..];
  }

  /** The bytes of a CONNACK: type 2 with no flags, and two bytes behind the length. */
  lemma ConnackBytes(flags: byte, code: byte)
    ensures var f := ConnackFrame(flags, code);
            f == [0x20, 0x02, flags, code] && DecodeLength(f[1..], 4) == Some((2, f[2..])) && OnePacket(f)
  {
    assert ConnackFrame(flags, code)[1..][1..] == ConnackFrame(flags, code)[2..];
  }

  /** The reply to a CONNECT: session flags and return code. */
  function ConnackFrame(flags: byte, code: byte): Str {
    [CONNACK, 2, flags, code]
  }

  function SubackFrame(header: byte, pktId: nat, codes: Str): Str
    requires pktId < U16
  {
    [header] + EncodeLength(2 + |codes|, MAX_LENGTH_BYTES) + PutU16(pktId) + codes
  }

  /** A SUBACK is one packet; its packet id comes back first, and then its return codes. */
  lemma SubackRoundTrip(header: byte, pktId: nat, codes: Str)
    requires pktId < 65536 && 2 + |codes| < 0x1000_0000
    ensures var f := SubackFrame(header, pktId, codes);
            && OnePacket(f) && f[0] == header
            && DecodeLength(f[1..], 4).Some? && DecodeLength(f[1..], 4).value.0 == 2 + |codes|
            && ReadU16(DecodeLength(f[1..], 4).value.1) == Some((pktId, codes))
  {
    hide EncodeLength, DecodeLength, PutU16;
    var body := PutU16(pktId) + codes;
    assert SubackFrame(header, pktId, codes) == [header] + (EncodeLength(|body|, 4) + body);
    Framed(header, body);
    U16RoundTrip(pktId, codes);
  }

  /** The buffer of a SUBACK is sized for a one-byte length: up to 125 return codes. */
  lemma SubackFitsIff(header: byte, pktId: nat, codes: Str)
    requires pktId < U16
    ensures |SubackFrame(header, pktId, codes)| == 4 + |codes| <==> |codes| <= 125
  {
    LengthSize(2 + |codes|);
  }

  // ---------- UNSUBSCRIBE, section 3.10, and SUBSCRIBE, section 3.8 ----------

  function PutFilters(filters: seq<Str>): Str
    requires forall i :: 0 <= i < |filters| ==> |filters[i]| < U16
  {
    if filters == [] then [] else PutString(filters[0]) + PutFilters(filters[1..])
  }

  /** The payload loop: it ends when the counter reaches zero; a field that overruns the counter is malformed. */
  function ReadFilters(s: Str, remaining: nat): Option<(seq<Str>, Str)>
    decreases remaining
  {
    if remaining == 0 then Some(([], s))
    else
      var f := ReadString(s);
      if f.None? || remaining < 2 + |f.value.0| then None
      else
        var tail := ReadFilters(f.value.1, remaining - 2 - |f.value.0|);
        if tail.None? then None else Some(([f.value.0] + tail.value.0, tail.value.1))
  }

  lemma {:induction false} FiltersRoundTrip(filters: seq<Str>, rest: Str)
    requires forall i :: 0 <= i < |filters| ==> |filters[i]| < U16
    ensures ReadFilters(PutFilters(filters) + rest, |PutFilters(filters)|) == Some((filters, rest))
  {
    hide ReadString, PutString;
    if filters == [] {
      assert PutFilters(filters) + rest == rest;
    } else {
      FiltersRoundTrip(filters[1..], rest);
      var tail := PutFilters(filters[1..]) + rest;
      assert PutFilters(filters) + rest == PutString(filters[0]) + tail;
      StringRoundTrip(filters[0], tail);
      assert filters == [filters[0]] + filters[1..];
    }
  }

  datatype Unsubscribe = Unsubscribe(header: byte, pktId: nat, tuplesLen: nat, filters: seq<Str>)

  function UnsubscribeFrame(header: byte, pktId: nat, filters: seq<Str>): Str
    requires pktId < U16 && forall i :: 0 <= i < |filters| ==> |filters[i]| < U16
  {
    [header] + (EncodeLength(2 + |PutFilters(filters)|, MAX_LENGTH_BYTES) + (PutU16(pktId) + PutFilters(filters)))
  }

  function ParseUnsubscribe(s: Str): Option<(Unsubscribe, Str)> {
    if s == [] then None
    else
      var len := DecodeLength(s[1..], MAX_LENGTH_BYTES);
      if len.None? then None
      else
        var id := ReadU16(len.value.1);
        if id.None? || len.value.0 < 2 then None
        else
          var filters := ReadFilters(id.value.1, len.value.0 - 2);
          if filters.None? then None
          else
            var fs := filters.value.0;
            Some((Unsubscribe(s[0], id.value.0, |fs| % U16, fs), filters.value.1))
  }

  /** Every filter comes back in order, with the packet id; the count does for fewer than 65536 filters. */
  lemma UnsubscribeRoundTrip(header: byte, pktId: nat, filters: seq<Str>, rest: Str)
    requires pktId < U16 && forall i :: 0 <= i < |filters| ==> |filters[i]| < U16
    requires 2 + |PutFilters(filters)| < LENGTH_BOUND
    ensures var r := ParseUnsubscribe(UnsubscribeFrame(header, pktId, filters) + rest);
            && r == Some((Unsubscribe(header, pktId, |filters| % U16, filters), rest))
            && (r.value.0.tuplesLen == |filters| <==> |filters| < U16)
  {
    hide ReadFilters, PutFilters, ReadU16, PutU16, EncodeLength, DecodeLength;
    var s := UnsubscribeFrame(header, pktId, filters) + rest;
    var body := PutFilters(filters);
    assert s[1..] == EncodeLength(2 + |body|, MAX_LENGTH_BYTES) + (PutU16(pktId) + (body + rest));
    LengthField(2 + |body|, PutU16(pktId) + (body + rest));
    U16RoundTrip(pktId, body + rest);
    FiltersRoundTrip(filters, rest);
  }

  function PutTuples(tuples: seq<(Str, byte)>): Str
    requires forall i :: 0 <= i < |tuples| ==> |tuples[i].0| < U16
  {
    if tuples == [] then [] else PutString(tuples[0].0) + ([tuples[0].1] + PutTuples(tuples[1..]))
  }

  /** A number in a variable of type `size_t`. */
  function SizeT(x: int): (r: nat)
    ensures 0 <= x < SIZE_T ==> r == x
  {
    x % SIZE_T
  }

  /** The SUBSCRIBE loop. It runs while the unsigned counter is positive, and charges it for the filter but not
      for the QoS byte. None stands for a loop that runs past the end of the buffer. */
  function ReadTuples(s: Str, remaining: nat): (r: Option<(seq<(Str, byte)>, Str)>)
    ensures r.Some? && remaining > 0 ==> r.value.0 != []
    decreases |s|
  {
    if remaining == 0 then Some(([], s))
    else
      var f := ReadString(s);
      if f.None? || f.value.1 == [] then None
      else
        var tail := ReadTuples(f.value.1[1..], SizeT(remaining - 2 - |f.value.0|));
        if tail.None? then None else Some(([(f.value.0, f.value.1[0])] + tail.value.0, tail.value.1))
  }

  /** After the tuples of a payload the counter stands at their number, and the loop goes on behind them. */
  lemma {:induction false} SubscribeCounterLeftOver(tuples: seq<(Str, byte)>, rest: Str, spare: nat)
    requires forall i :: 0 <= i < |tuples| ==> |tuples[i].0| < U16
    requires |PutTuples(tuples)| + spare < SIZE_T
    ensures var r, more := ReadTuples(PutTuples(tuples) + rest, |PutTuples(tuples)| + spare),
                           ReadTuples(rest, |tuples| + spare);
            r == if more.None? then None else Some((tuples + more.value.0, more.value.1))
  {
    hide PutString, ReadTuples;
    if tuples == [] {
      var more := ReadTuples(rest, |tuples| + spare);
      assert PutTuples(tuples) + rest == rest;
      assert more.Some? ==> [] + more.value.0 == more.value.0;
    } else {
      SubscribeCounterLeftOver(tuples[1..], rest, spare + 1);
      OneTuple(tuples[0], PutTuples(tuples[1..]) + rest, |PutTuples(tuples)| + spare);
      assert PutTuples(tuples) + rest == PutString(tuples[0].0) + ([tuples[0].1] + (PutTuples(tuples[1..]) + rest));
      var more := ReadTuples(rest, |tuples| + spare);
      if more.Some? {
        assert [tuples[0]] + (tuples[1..] + more.value.0) == tuples + more.value.0;
      }
    }
  }

  /** One round of the loop. */
  lemma OneTuple(t: (Str, byte), tail: Str, remaining: nat)
    requires |t.0| < U16 && 3 + |t.0| <= remaining < SIZE_T
    ensures var r, more := ReadTuples(PutString(t.0) + ([t.1] + tail), remaining),
                           ReadTuples(tail, remaining - 2 - |t.0|);
            r == if more.None? then None else Some(([t] + more.value.0, more.value.1))
  {
    hide ReadString, PutString, SizeT;
    StringRoundTrip(t.0, [t.1] + tail);
    assert ([t.1] + tail)[1..] == tail;
  }

  /** So a SUBSCRIBE payload is decoded, to its end and no further, exactly when it holds no filter at all; one that
      ends the buffer is overrun. */
  lemma SubscribeDecodesIff(tuples: seq<(Str, byte)>, rest: Str)
    requires forall i :: 0 <= i < |tuples| ==> |tuples[i].0| < U16
    requires |PutTuples(tuples)| < SIZE_T
    ensures var r := ReadTuples(PutTuples(tuples) + rest, |PutTuples(tuples)|);
            && (r == Some((tuples, rest)) <==> tuples == [])
            && (rest == [] && tuples != [] ==> r == None)
  {
    hide PutTuples, ReadTuples;
    SubscribeCounterLeftOver(tuples, rest, 0);
    NoMoreTuples(rest);
    var more := ReadTuples(rest, |tuples|);
    if more.Some? && tuples + more.value.0 == tuples {
      assert |more.value.0| == 0;
    }
  }

  lemma NoMoreTuples(rest: Str)
    ensures ReadTuples(rest, 0) == Some(([], rest))
    ensures forall n: nat :: n > 0 ==> ReadTuples([], n) == None
  {
  }

  datatype SubscribeRequest = SubscribeRequest(header: byte, pktId: nat, tuplesLen: nat, tuples: seq<(Str, byte)>)

  function SubscribeFrame(header: byte, pktId: nat, tuples: seq<(Str, byte)>): Str
    requires pktId < U16 && forall i :: 0 <= i < |tuples| ==> |tuples[i].0| < U16
  {
    [header] + (EncodeLength(2 + |PutTuples(tuples)|, MAX_LENGTH_BYTES) + (PutU16(pktId) + PutTuples(tuples)))
  }

  function ParseSubscribe(s: Str): Option<(SubscribeRequest, Str)> {
    if s == [] then None
    else
      var len := DecodeLength(s[1..], MAX_LENGTH_BYTES);
      if len.None? then None
      else
        var id := ReadU16(len.value.1);
        if id.None? then None
        else
          var tuples := ReadTuples(id.value.1, SizeT(len.value.0 - 2));
          if tuples.None? then None
          else
            var ts := tuples.value.0;
            Some((SubscribeRequest(s[0], id.value.0, |ts| % U16, ts), tuples.value.1))
  }

  /** The same for the whole packet: a SUBSCRIBE is decoded if and only if it holds no filter. */
  lemma SubscribeFrameDecodesIff(header: byte, pktId: nat, tuples: seq<(Str, byte)>, rest: Str)
    requires pktId < U16 && forall i :: 0 <= i < |tuples| ==> |tuples[i].0| < U16
    requires 2 + |PutTuples(tuples)| < LENGTH_BOUND
    ensures var r := ParseSubscribe(SubscribeFrame(header, pktId, tuples) + rest);
            && (r == Some((SubscribeRequest(header, pktId, |tuples| % U16, tuples), rest)) <==> tuples == [])
            && (rest == [] && tuples != [] ==> r == None)
  {
    hide ReadTuples, PutTuples, ReadU16, PutU16, EncodeLength, DecodeLength;
    var s := SubscribeFrame(header, pktId, tuples) + rest;
    var body := PutTuples(tuples);
    assert s[1..] == EncodeLength(2 + |body|, MAX_LENGTH_BYTES) + (PutU16(pktId) + (body + rest));
    LengthField(2 + |body|, PutU16(pktId) + (body + rest));
    U16RoundTrip(pktId, body + rest);
    SubscribeDecodesIff(tuples, rest);
  }

  // ---------- CONNECT, section 3.1 ----------

  datatype Connect = Connect(header: byte, flags: byte, keepalive: nat, clientId: Str,
                             will: Option<(Str, Str)>, username: Option<Str>, password: Option<Str>)

  predicate WillFlag(flags: byte) { flags / 4 % 2 == 1 }
  predicate PasswordFlag(flags: byte) { flags / 64 % 2 == 1 }
  predicate UsernameFlag(flags: byte) { flags / 128 == 1 }

  /** The flags of section 3.1.2.3: user name in bit 7, password in bit 6, will in bit 2. */
  lemma FlagBits(flags: byte)
    ensures UsernameFlag(flags) <==> flags >= 128
    ensures PasswordFlag(flags) <==> flags % 128 >= 64
    ensures WillFlag(flags) <==> flags % 8 >= 4
  {
  }

  predicate ValidConnect(c: Connect) {
    && c.keepalive < U16 && |c.clientId| < U16
    && c.will.Some? == WillFlag(c.flags)
    && c.username.Some? == UsernameFlag(c.flags)
    && c.password.Some? == PasswordFlag(c.flags)
    && (c.will.Some? ==> |c.will.value.0| < U16 && |c.will.value.1| < U16)
    && (c.username.Some? ==> |c.username.value| < U16)
    && (c.password.Some? ==> |c.password.value| < U16)
  }

  function PutOptional(b: Option<Str>): Str
    requires b.Some? ==> |b.value| < U16
  {
    if b.Some? then PutString(b.value) else []
  }

  function ReadOptional(s: Str, present: bool): Option<(Option<Str>, Str)> {
    if !present then Some((None, s))
    else
      var b := ReadString(s);
      if b.None? then None else Some((Some(b.value.0), b.value.1))
  }

  lemma OptionalRoundTrip(b: Option<Str>, rest: Str)
    requires b.Some? ==> |b.value| < U16
    ensures ReadOptional(PutOptional(b) + rest, b.Some?) == Some((b, rest))
  {
    if b.Some? {
      StringRoundTrip(b.value, rest);
    } else {
      assert PutOptional(b) + rest == rest;
    }
  }

  function PutWill(w: Option<(Str, Str)>): Str
    requires w.Some? ==> |w.value.0| < U16 && |w.value.1| < U16
  {
    if w.Some? then PutString(w.value.0) + PutString(w.value.1) else []
  }

  function ReadWill(s: Str, present: bool): Option<(Option<(Str, Str)>, Str)> {
    if !present then Some((None, s))
    else
      var topic := ReadString(s);
      if topic.None? then None
      else
        var message := ReadString(topic.value.1);
        if message.None? then None else Some((Some((topic.value.0, message.value.0)), message.value.1))
  }

  lemma WillRoundTrip(w: Option<(Str, Str)>, rest: Str)
    requires w.Some? ==> |w.value.0| < U16 && |w.value.1| < U16
    ensures ReadWill(PutWill(w) + rest, w.Some?) == Some((w, rest))
  {
    if w.Some? {
      assert PutWill(w) + rest == PutString(w.value.0) + (PutString(w.value.1) + rest);
      StringRoundTrip(w.value.0, PutString(w.value.1) + rest);
      StringRoundTrip(w.value.1, rest);
    } else {
      assert PutWill(w) + rest == rest;
    }
  }

  /** Protocol name and level: the string MQTT, level 4. */
  const PROTOCOL: Str := [0, 4, 77, 81, 84, 84, 4]

  function ConnectPayload(c: Connect): Str
    requires ValidConnect(c)
  {
    PutString(c.clientId) + (PutWill(c.will) + (PutOptional(c.username) + PutOptional(c.password)))
  }

  function ConnectBody(c: Connect): Str
    requires ValidConnect(c)
  {
    PROTOCOL + ([c.flags] + (PutU16(c.keepalive) + ConnectPayload(c)))
  }

  function ConnectFrame(c: Connect): Str
    requires ValidConnect(c)
  {
    [c.header] + (EncodeLength(|ConnectBody(c)|, MAX_LENGTH_BYTES) + ConnectBody(c))
  }

  function ReadConnectPayload(header: byte, flags: byte, keepalive: nat, s: Str): Option<(Connect, Str)> {
    var id := ReadString(s);
    if id.None? then None
    else
      var will := ReadWill(id.value.1, WillFlag(flags));
      if will.None? then None
      else
        var username := ReadOptional(will.value.1, UsernameFlag(flags));
        if username.None? then None
        else
          var password := ReadOptional(username.value.1, PasswordFlag(flags));
          if password.None? then None
          else Some((Connect(header, flags, keepalive, id.value.0, will.value.0, username.value.0, password.value.0),
                     password.value.1))
  }

  /** The decoder skips a fixed eight bytes after the header, whatever the length field took. */
  function ParseConnect(s: Str): Option<(Connect, Str)> {
    if |s| < 10 || DecodeLength(s[1..], MAX_LENGTH_BYTES).None? then None
    else
      var flags := s[9];
      var keepalive := ReadU16(s[10..]);
      if keepalive.None? then None
      else ReadConnectPayload(s[0], flags, keepalive.value.0, keepalive.value.1)
  }

  lemma ConnectPayloadRoundTrip(c: Connect, rest: Str)
    requires ValidConnect(c)
    ensures ReadConnectPayload(c.header, c.flags, c.keepalive, ConnectPayload(c) + rest) == Some((c, rest))
  {
    hide ReadString, PutString, ReadOptional, PutOptional, ReadWill, PutWill;
    var p := PutOptional(c.password) + rest;
    var up := PutOptional(c.username) + p;
    var wup := PutWill(c.will) + up;
    assert ConnectPayload(c) + rest == PutString(c.clientId) + wup;
    StringRoundTrip(c.clientId, wup);
    WillRoundTrip(c.will, up);
    OptionalRoundTrip(c.username, p);
    OptionalRoundTrip(c.password, rest);
  }

  /** With a one-byte Remaining Length, decoding recovers every combination of optional fields. */
  lemma ConnectRoundTrip(c: Connect, rest: Str)
    requires ValidConnect(c) && |ConnectBody(c)| < 128
    ensures ParseConnect(ConnectFrame(c) + rest) == Some((c, rest))
  {
    hide ReadConnectPayload, ConnectPayload, ReadU16, PutU16;
    var s := ConnectFrame(c) + rest;
    var body := ConnectBody(c);
    var tail := PutU16(c.keepalive) + (ConnectPayload(c) + rest);
    assert s == [c.header, |body|] + PROTOCOL + [c.flags] + tail;
    assert s[9] == c.flags && s[10..] == tail;
    U16RoundTrip(c.keepalive, ConnectPayload(c) + rest);
    ConnectPayloadRoundTrip(c, rest);
  }

  /** Such a packet is its header, one byte of length, and the body. */
  lemma ShortConnect(c: Connect)
    requires ValidConnect(c) && |ConnectBody(c)| < 128
    ensures ConnectFrame(c) == [c.header, |ConnectBody(c)|] + ConnectBody(c)
    ensures ParseConnect([c.header, |ConnectBody(c)|] + ConnectBody(c)) == Some((c, []))
  {
    hide ConnectBody, ParseConnect;
    ConnectRoundTrip(c, []);
    assert ConnectFrame(c) + [] == [c.header, |ConnectBody(c)|] + ConnectBody(c);
  }

  lemma OptionalRead(s: Str, present: bool)
    ensures ReadOptional(s, present).Some? ==>
              var (b, rest) := ReadOptional(s, present).value;
              b.Some? == present && (b.Some? ==> |b.value| < U16) && s == PutOptional(b) + rest
  {
    hide ReadString, PutString;
    if present {
      StringRead(s);
    } else {
      assert s == [] + s;
    }
  }

  lemma WillRead(s: Str, present: bool)
    ensures ReadWill(s, present).Some? ==>
              var (w, rest) := ReadWill(s, present).value;
              && w.Some? == present && (w.Some? ==> |w.value.0| < U16 && |w.value.1| < U16)
              && s == PutWill(w) + rest
  {
    hide ReadString, PutString;
    if !present {
      assert s == [] + s;
    } else if ReadWill(s, present).Some? {
      StringRead(s);
      var (topic, tail) := ReadString(s).value;
      StringRead(tail);
      var (message, rest) := ReadString(tail).value;
      assert PutString(topic) + (PutString(message) + rest) == PutString(topic) + PutString(message) + rest;
    }
  }

  /** The decoder is faithful to the bytes it reads: its result, written out, is what it has read. */
  lemma ConnectPayloadRead(header: byte, flags: byte, keepalive: nat, s: Str)
    requires keepalive < U16
    ensures ReadConnectPayload(header, flags, keepalive, s).Some? ==>
              var (c, rest) := ReadConnectPayload(header, flags, keepalive, s).value;
              ValidConnect(c) && s == ConnectPayload(c) + rest
  {
    hide ReadString, PutString, ReadOptional, PutOptional, ReadWill, PutWill;
    if ReadConnectPayload(header, flags, keepalive, s).Some? {
      StringRead(s);
      var (id, s1) := ReadString(s).value;
      WillRead(s1, WillFlag(flags));
      var (w, s2) := ReadWill(s1, WillFlag(flags)).value;
      OptionalRead(s2, UsernameFlag(flags));
      var (u, s3) := ReadOptional(s2, UsernameFlag(flags)).value;
      OptionalRead(s3, PasswordFlag(flags));
      var (p, rest) := ReadOptional(s3, PasswordFlag(flags)).value;
      assert PutString(id) + (PutWill(w) + (PutOptional(u) + (PutOptional(p) + rest)))
          == PutString(id) + (PutWill(w) + (PutOptional(u) + PutOptional(p))) + rest;
    }
  }

  /** What follows the flags, as the decoder expects it. */
  function ConnectTail(c: Connect): (r: Str)
    requires ValidConnect(c)
    ensures |ConnectBody(c)| == 8 + |r|
  {
    PutU16(c.keepalive) + ConnectPayload(c)
  }

  /** The decoder returns `c` exactly when the bytes from the tenth on are the flags and the tail of `c`. */
  lemma ConnectReads(s: Str, c: Connect, rest: Str)
    requires ValidConnect(c) && s != [] && s[0] == c.header && DecodeLength(s[1..], MAX_LENGTH_BYTES).Some?
    ensures ParseConnect(s) == Some((c, rest)) <==> |s| >= 10 && s[9..] == [c.flags] + ConnectTail(c) + rest
  {
    hide ReadConnectPayload, ConnectPayload, ReadU16, PutU16, DecodeLength;
    if ParseConnect(s) == Some((c, rest)) {
      var (k, tail) := ReadU16(s[10..]).value;
      U16Read(s[10..]);
      ConnectPayloadRead(s[0], s[9], k, tail);
      ConnectFields(s[0], s[9], k, tail);
      assert s[9..] == [s[9]] + s[10..];
      assert PutU16(k) + (ConnectPayload(c) + rest) == ConnectTail(c) + rest;
      assert [c.flags] + (ConnectTail(c) + rest) == [c.flags] + ConnectTail(c) + rest;
    }
    if |s| >= 10 && s[9..] == [c.flags] + ConnectTail(c) + rest {
      assert s[9] == s[9..][0] && s[10..] == s[9..][1..];
      assert s[10..] == PutU16(c.keepalive) + (ConnectPayload(c) + rest);
      U16RoundTrip(c.keepalive, ConnectPayload(c) + rest);
      ConnectPayloadRoundTrip(c, rest);
    }
  }

  lemma U16Read(s: Str)
    ensures ReadU16(s).Some? ==> var (v, rest) := ReadU16(s).value; v < U16 && s == PutU16(v) + rest
  {
    if |s| >= 2 {
      assert s == [s[0], s[1]] + s[2..];
    }
  }

  lemma ConnectFields(header: byte, flags: byte, keepalive: nat, s: Str)
    ensures ReadConnectPayload(header, flags, keepalive, s).Some? ==>
              var c := ReadConnectPayload(header, flags, keepalive, s).value.0;
              c.header == header && c.flags == flags && c.keepalive == keepalive
  {
  }

  /** The frame decodes to its packet, with the cursor at its end, exactly when the Remaining Length takes one byte.
      Otherwise the flags are read from the protocol prefix, and the packet comes back, with bytes left over,
      only if its bytes repeat those that stand where the decoder starts to read. */
  lemma ConnectDecodesIff(c: Connect, rest: Str)
    requires ValidConnect(c)
    ensures var s := ConnectFrame(c) + rest;
            var n := |EncodeLength(|ConnectBody(c)|, MAX_LENGTH_BYTES)|;
            && (ParseConnect(s) == Some((c, rest)) <==> |ConnectBody(c)| < 128)
            && (|ConnectBody(c)| >= 128 ==> 2 <= n <= 4 && s[9] == PROTOCOL[8 - n])
            && ((exists left :: ParseConnect(s) == Some((c, left))) <==> [c.flags] + ConnectTail(c) <= s[9..])
  {
    hide ParseConnect, EncodeLength, DecodeLength, ConnectTail, ConnectFrame, ConnectBody;
    var s, tail := ConnectFrame(c) + rest, [c.flags] + ConnectTail(c);
    LengthSize(|ConnectBody(c)|);
    ConnectFrameBytes(c, rest);
    ConnectReads(s, c, rest);
    if left :| ParseConnect(s) == Some((c, left)) {
      ConnectReads(s, c, left);
    }
    if tail <= s[9..] {
      ConnectReads(s, c, s[9..][|tail|..]);
    }
  }

  /** The bytes of a frame from the tenth on, where the decoder looks for the flags. */
  lemma ConnectFrameBytes(c: Connect, rest: Str)
    requires ValidConnect(c)
    ensures var s, n := ConnectFrame(c) + rest, |EncodeLength(|ConnectBody(c)|, MAX_LENGTH_BYTES)|;
            && s != [] && s[0] == c.header && DecodeLength(s[1..], MAX_LENGTH_BYTES).Some?
            && |s| == 1 + n + 8 + |ConnectTail(c)| + |rest| && 1 <= n <= 4
            && (n == 1 ==> s[9..] == [c.flags] + ConnectTail(c) + rest)
            && (n > 1 ==> s[9] == PROTOCOL[8 - n])
  {
    hide EncodeLength, DecodeLength, ConnectTail, ConnectBody;
    var s, body := ConnectFrame(c) + rest, ConnectBody(c);
    var enc := EncodeLength(|body|, MAX_LENGTH_BYTES);
    ConnectBodyShort(c);
    LengthSize(|body|);
    LengthField(|body|, body + rest);
    BodyOf(c);
    var tail := [c.flags] + ConnectTail(c);
    assert s[1..] == enc + (body + rest);
    if |enc| == 1 {
      assert s == [c.header] + enc + PROTOCOL + (tail + rest);
      assert s[9..] == tail + rest;
    } else {
      assert s[1 + |enc|..][..7] == PROTOCOL;
      assert s[9] == s[1 + |enc|..][..7][8 - |enc|];
    }
  }

  lemma BodyOf(c: Connect)
    requires ValidConnect(c)
    ensures ConnectBody(c) == PROTOCOL + ([c.flags] + ConnectTail(c))
  {
  }

  lemma ConnectBodyShort(c: Connect)
    requires ValidConnect(c)
    ensures |ConnectBody(c)| < LENGTH_BOUND && |ConnectBody(c)| >= 12
  {
  }

  /** A CONNECT that fails: 118 bytes of client id make the length field two bytes long, the level of the protocol
      is taken for the flags, and a will is looked for behind the end of the packet. */
  lemma LongConnectFails()
    ensures var c := Connect(0x10, 0, 0, seq(118, _ => 97), None, None, None);
            ValidConnect(c) && |ConnectBody(c)| == 130 && ParseConnect(ConnectFrame(c)) == None
  {
    var c := Connect(0x10, 0, 0, seq(118, _ => 97), None, None, None);
    hide ConnectTail, EncodeLength;
    LongConnectBytes(c);
    var s := ConnectFrame(c);
    assert s[9] == 4 && s[10..][..4] == [0, 0, 0, 0] && s[14] == 118 && s[15] == 97;
    assert ReadU16(s[10..]) == Some((0, s[12..]));
    assert ReadString(s[12..]) == Some(([], s[14..]));
    assert ReadString(s[14..]) == None;
  }

  lemma LongConnectBytes(c: Connect)
    requires ValidConnect(c) && c == Connect(0x10, 0, 0, c.clientId, None, None, None) && |c.clientId| == 118
    ensures |ConnectBody(c)| == 130
    ensures ConnectFrame(c) == [0x10, 130, 1] + PROTOCOL + [0, 0, 0, 0, 118] + c.clientId
  {
    assert EncodeLength(130, 4) == [130] + EncodeLength(1, 3);
    assert PutString(c.clientId) == [0, 118] + c.clientId;
  }

  // ---------- Any packet ----------

  datatype Packet =
    | ConnectPacket(connect: Connect)
    | PublishPacket(publish: Publish)
    | AckPacket(header: byte, pktId: nat)
    | SubscribePacket(subscribe: SubscribeRequest)
    | UnsubscribePacket(unsubscribe: Unsubscribe)
    | HeaderPacket(header: byte)

  /** Dispatch on the packet type in the first byte. Types without an unpack handler give no packet. */
  function ParsePacket(s: Str): Option<Packet> {
    if s == [] then None
    else
      var kind := PacketType(s[0]);
      if kind in {12, 13, 14} then Some(HeaderPacket(s[0]))
      else if kind == 1 then
        var c := ParseConnect(s);
        if c.None? then None else Some(ConnectPacket(c.value.0))
      else if kind == 3 then
        var p := ParsePublish(s);
        if p.None? then None else Some(PublishPacket(p.value.0))
      else if 4 <= kind <= 7 then
        var a := ParseAck(s);
        if a.None? then None else Some(AckPacket(a.value.0, a.value.1))
      else if kind == 8 then
        var q := ParseSubscribe(s);
        if q.None? then None else Some(SubscribePacket(q.value.0))
      else if kind == 10 then
        var u := ParseUnsubscribe(s);
        if u.None? then None else Some(UnsubscribePacket(u.value.0))
      else None
  }

  /** Dispatch by the first byte, whose lower four bits play no part. */
  lemma DispatchByFirstByte(s: Str)
    requires s != []
    ensures ParsePacket(s).Some? && ParsePacket(s).value.ConnectPacket? <==>
              0x10 <= s[0] < 0x20 && ParseConnect(s).Some?
    ensures ParsePacket(s).Some? && ParsePacket(s).value.PublishPacket? <==>
              0x30 <= s[0] < 0x40 && ParsePublish(s).Some?
    ensures ParsePacket(s).Some? && ParsePacket(s).value.AckPacket? <==> 0x40 <= s[0] < 0x80 && ParseAck(s).Some?
    ensures ParsePacket(s).Some? && ParsePacket(s).value.SubscribePacket? <==>
              0x80 <= s[0] < 0x90 && ParseSubscribe(s).Some?
    ensures ParsePacket(s).Some? && ParsePacket(s).value.UnsubscribePacket? <==>
              0xA0 <= s[0] < 0xB0 && ParseUnsubscribe(s).Some?
    ensures ParsePacket(s).Some? && ParsePacket(s).value.HeaderPacket? <==> 0xC0 <= s[0] < 0xF0
  {
    hide ParseConnect, ParsePublish, ParseAck, ParseSubscribe, ParseUnsubscribe;
  }

  /** A packet whose header names its own type, within the limits of the codec: of SUBSCRIBE, only the packet without
      filters (`SubscribeFrameDecodesIff`), of CONNECT, those with a one-byte length (`ConnectDecodesIff`). */
  predicate ValidPacket(p: Packet) {
    match p
    case ConnectPacket(c) => PacketType(c.header) == 1 && ValidConnect(c) && |ConnectBody(c)| < 128
    case PublishPacket(q) => PacketType(q.header) == 3 && ValidPublish(q)
    case AckPacket(header, pktId) => 4 <= PacketType(header) <= 7 && pktId < U16
    case SubscribePacket(q) => PacketType(q.header) == 8 && q.pktId < U16 && q.tuplesLen == 0 && q.tuples == []
    case UnsubscribePacket(u) =>
      && PacketType(u.header) == 10 && u.pktId < U16 && u.tuplesLen == |u.filters| < U16
      && (forall i :: 0 <= i < |u.filters| ==> |u.filters[i]| < U16)
      && 2 + |PutFilters(u.filters)| < LENGTH_BOUND
    case HeaderPacket(header) => PacketType(header) in {12, 13, 14}
  }

  function Frame(p: Packet): Str
    requires ValidPacket(p)
  {
    match p
    case ConnectPacket(c) => ConnectFrame(c)
    case PublishPacket(q) => PublishFrame(q)
    case AckPacket(header, pktId) => AckFrame(header, pktId)
    case SubscribePacket(q) => SubscribeFrame(q.header, q.pktId, q.tuples)
    case UnsubscribePacket(u) => UnsubscribeFrame(u.header, u.pktId, u.filters)
    case HeaderPacket(header) => [header, 0]
  }

  /** Every valid packet survives the wire; only the unused id of a QoS 0 PUBLISH is lost. */
  lemma PacketRoundTrip(p: Packet, rest: Str)
    requires ValidPacket(p)
    ensures ParsePacket(Frame(p) + rest) == Some(if p.PublishPacket? then PublishPacket(Received(p.publish)) else p)
  {
    hide ParseConnect, ParsePublish, ParseAck, ParseSubscribe, ParseUnsubscribe, PutFilters;
    match p {
      case ConnectPacket(c) => ConnectRoundTrip(c, rest);
      case PublishPacket(q) => PublishRoundTrip(q, rest);
      case AckPacket(header, pktId) => AckRoundTrip(header, pktId, rest);
      case SubscribePacket(q) => SubscribeFrameDecodesIff(q.header, q.pktId, q.tuples, rest);
      case UnsubscribePacket(u) => UnsubscribeRoundTrip(u.header, u.pktId, u.filters, rest);
      case HeaderPacket(header) =>
    }
  }
}
