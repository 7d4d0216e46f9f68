/** The packers and unpackers of pack.c and mqtt.c: cursors that move over byte buffers. */
module Codec {
  import opened Bytes
  import opened Wire

  // ---------- Reading ----------

  /** A buffer with a read cursor, as the unpack functions advance it. */
  class Reader {
    const buf: Str
    var pos: nat

    ghost predicate Valid()
      reads this
    {
      pos <= |buf|
    }

    ghost function Rest(): Str
      requires Valid()
      reads this
    {
      buf[pos..]
    }

    constructor (buf: Str)
      ensures Valid() && Rest() == buf && this.buf == buf
    {
      this.buf, pos := buf, 0;
    }

    method U8() returns (v: byte)
      requires Valid() && Rest() != []
      modifies this
      ensures Valid() && v == old(Rest())[0] && Rest() == old(Rest())[1..]
    {
      v := buf[pos];
      pos := pos + 1;
    }

    method TakeU16() returns (v: nat)
      requires Valid() && ReadU16(Rest()).Some?
      modifies this
      ensures Valid() && ReadU16(old(Rest())) == Some((v, Rest())) && v < U16
    {
      v := 256 * (buf[pos] as int) + buf[pos + 1] as int;
      pos := pos + 2;
      assert Rest() == old(Rest())[2..];
    }

    method TakeBytes(n: nat) returns (b: Str)
      requires Valid() && ReadBytes(Rest(), n).Some?
      modifies this
      ensures Valid() && ReadBytes(old(Rest()), n) == Some((b, Rest()))
    {
      b := buf[pos..pos + n];
      pos := pos + n;
      assert Rest() == old(Rest())[n..] && b == old(Rest())[..n];
    }

    method TakeString() returns (b: Str)
      requires Valid() && ReadString(Rest()).Some?
      modifies this
      ensures Valid() && ReadString(old(Rest())) == Some((b, Rest()))
    {
      var n := TakeU16();
      b := TakeBytes(n);
    }

    /** The Remaining Length, accumulated with a multiplier that stays inside a 32-bit int. */
    method TakeLength() returns (value: nat)
      requires Valid() && DecodeLength(Rest(), MAX_LENGTH_BYTES).Some?
      modifies this
      ensures Valid() && DecodeLength(old(Rest()), MAX_LENGTH_BYTES) == Some((value, Rest()))
      ensures value < LENGTH_BOUND
    {
      LengthMinimal(Rest(), MAX_LENGTH_BYTES);
      value := 0;
      var multiplier := 1;
      ghost var i := 0;
      ghost var goal := DecodeLength(Rest(), MAX_LENGTH_BYTES).value;
      while true
        invariant Valid() && i < MAX_LENGTH_BYTES && multiplier == Pow128(i) && value < multiplier
        invariant DecodeLength(Rest(), MAX_LENGTH_BYTES - i).Some?
        invariant var (v, rest) := DecodeLength(Rest(), MAX_LENGTH_BYTES - i).value;
                  goal == (value + multiplier * v, rest)
        decreases MAX_LENGTH_BYTES - i
      {
        Accumulate(i, value, multiplier, Rest()[0]);
        var c := U8();
        value := value + c % 128 * multiplier;
        multiplier := multiplier * 128;
        if c < 128 {
          return;
        }
        i := i + 1;
      }
    }
  }

  /** One digit in base 128: the products stay below 2^31 and carry the rest of the field. */
  lemma Accumulate(i: nat, value: nat, m: nat, c: byte)
    requires i < MAX_LENGTH_BYTES && m == Pow128(i) && value < m
    ensures c % 128 * m < 0x8000_0000 && m * 128 < 0x8000_0000
    ensures value + c % 128 * m < m * 128 == Pow128(i + 1) <= LENGTH_BOUND
    ensures c < 128 ==> m * c == c % 128 * m
    ensures c >= 128 ==> forall v: nat {:trigger m * (c - 128 + 128 * v)} ::
                           m * (c - 128 + 128 * v) == c % 128 * m + (m * 128) * v
  {
    var d := c % 128;
    if i == 0 {
      assert m == 1;
    } else if i == 1 {
      assert m == 128;
    } else if i == 2 {
      assert Pow128(1) == 128 && m == 0x4000;
    } else {
      assert Pow128(1) == 128 && Pow128(2) == 0x4000 && m == 0x20_0000;
    }
  }

  lemma {:induction false} PowersGrow(n: nat)
    requires n >= 5
    ensures Pow128(n) >= 0x8_0000_0000
  {
    if n == 5 {
      assert Pow128(1) == 128 && Pow128(2) == 0x4000 && Pow128(3) == 0x20_0000 && Pow128(4) == 0x1000_0000;
    } else {
      PowersGrow(n - 1);
    }
  }

  /** After `n` bytes the multiplier still fits a 32-bit int exactly when there were at most four. */
  lemma MultiplierFitsIff(n: nat)
    ensures Pow128(n) < 0x8000_0000 <==> n <= MAX_LENGTH_BYTES
  {
    if n >= 5 {
      PowersGrow(n);
    } else {
      assert Pow128(1) == 128 && Pow128(2) == 0x4000 && Pow128(3) == 0x20_0000 && Pow128(4) == 0x1000_0000;
    }
  }

  // ---------- Unpacking ----------

  method UnpackPublish(r: Reader) returns (p: Publish)
    requires r.Valid() && ParsePublish(r.Rest()).Some?
    modifies r
    ensures r.Valid() && ParsePublish(old(r.Rest())) == Some((p, r.Rest()))
  {
    hide DecodeLength, ReadString, ReadU16, ReadBytes;
    var header := r.U8();
    var len := r.TakeLength();
    var topic := r.TakeString();
    var messageLen := len % U16;
    var pktId := 0;
    if QoS(header) > 0 {
      pktId := r.TakeU16();
      messageLen := Sub16(messageLen, 2);
    }
    messageLen := Sub16(messageLen, 2 + |topic|);
    var payload := r.TakeBytes(messageLen);
    p := Publish(header, pktId, topic, payload);
  }

  method UnpackAck(r: Reader) returns (header: byte, pktId: nat)
    requires r.Valid() && ParseAck(r.Rest()).Some?
    modifies r
    ensures r.Valid() && ParseAck(old(r.Rest())) == Some((header, pktId, r.Rest()))
  {
    hide DecodeLength, ReadU16;
    header := r.U8();
    var _ := r.TakeLength();
    pktId := r.TakeU16();
  }

  method UnpackUnsubscribe(r: Reader) returns (u: Unsubscribe)
    requires r.Valid() && ParseUnsubscribe(r.Rest()).Some?
    modifies r
    ensures r.Valid() && ParseUnsubscribe(old(r.Rest())) == Some((u, r.Rest()))
  {
    hide DecodeLength, ReadString, ReadU16, ReadFilters;
    var header := r.U8();
    var len := r.TakeLength();
    var pktId := r.TakeU16();
    var filters, i := UnpackFilters(r, len - 2);
    u := Unsubscribe(header, pktId, i % U16, filters);
  }

  /** The payload loop of UNSUBSCRIBE; `i` counts the filters. */
  method UnpackFilters(r: Reader, len: nat) returns (filters: seq<Str>, i: nat)
    requires r.Valid() && ReadFilters(r.Rest(), len).Some?
    modifies r
    ensures r.Valid() && ReadFilters(old(r.Rest()), len) == Some((filters, r.Rest())) && i == |filters|
  {
    hide ReadString;
    filters, i := [], 0;
    var remaining: nat := len;
    ghost var goal := ReadFilters(r.Rest(), len).value;
    assert goal.0 == [] + goal.0;
    while remaining > 0
      invariant r.Valid() && i == |filters|
      invariant ReadFilters(r.Rest(), remaining).Some?
      invariant goal == (filters + ReadFilters(r.Rest(), remaining).value.0, ReadFilters(r.Rest(), remaining).value.1)
    {
      ghost var done, before := filters, ReadFilters(r.Rest(), remaining).value.0;
      remaining := remaining - 2;
      var topic := r.TakeString();
      filters := filters + [topic];
      remaining := remaining - |topic|;
      i := i + 1;
      ghost var after := ReadFilters(r.Rest(), remaining).value.0;
      assert done + ([topic] + after) == filters + after;
    }
    assert filters + [] == filters;
  }

  method UnpackSubscribe(r: Reader) returns (q: SubscribeRequest)
    requires r.Valid() && ParseSubscribe(r.Rest()).Some?
    modifies r
    ensures r.Valid() && ParseSubscribe(old(r.Rest())) == Some((q, r.Rest()))
  {
    hide DecodeLength, ReadString, ReadU16, ReadTuples;
    var header := r.U8();
    var len := r.TakeLength();
    var pktId := r.TakeU16();
    var tuples, i := UnpackTuples(r, SizeT(len as int - 2));
    q := SubscribeRequest(header, pktId, i % U16, tuples);
  }

  /** The payload loop of SUBSCRIBE. */
  method UnpackTuples(r: Reader, len: nat) returns (tuples: seq<(Str, byte)>, i: nat)
    requires r.Valid() && ReadTuples(r.Rest(), len).Some?
    modifies r
    ensures r.Valid() && ReadTuples(old(r.Rest()), len) == Some((tuples, r.Rest())) && i == |tuples|
  {
    hide ReadTuples;
    tuples, i := [], 0;
    var remaining: nat := len;
    ghost var goal := ReadTuples(r.Rest(), len).value;
    assert goal.0 == [] + goal.0;
    while remaining > 0
      invariant r.Valid() && i == |tuples|
      invariant ReadTuples(r.Rest(), remaining).Some?
      invariant goal == (tuples + ReadTuples(r.Rest(), remaining).value.0, ReadTuples(r.Rest(), remaining).value.1)
      decreases |r.Rest()|
    {
      ghost var done := tuples;
      var t, left := UnpackTuple(r, remaining);
      tuples, remaining, i := tuples + [t], left, i + 1;
      ghost var after := ReadTuples(r.Rest(), remaining).value.0;
      assert done + ([t] + after) == tuples + after;
    }
    NoMoreTuples(r.Rest());
    assert tuples + [] == tuples;
  }

  /** One round of it: the counter is charged for the filter but not for the QoS byte. */
  method UnpackTuple(r: Reader, remaining: nat) returns (t: (Str, byte), left: nat)
    requires r.Valid() && remaining > 0 && ReadTuples(r.Rest(), remaining).Some?
    modifies r
    ensures r.Valid() && |r.Rest()| < |old(r.Rest())|
    ensures var was, now := ReadTuples(old(r.Rest()), remaining), ReadTuples(r.Rest(), left);
            now.Some? && was == Some(([t] + now.value.0, now.value.1))
  {
    hide ReadString, SizeT;
    StringRead(r.Rest());
    left := SizeT(remaining as int - 2);
    var topic := r.TakeString();
    SizeTTwice(remaining, |topic|);
    left := SizeT(left as int - |topic|);
    var qos := r.U8();
    t := (topic, qos);
  }

  /** Two subtractions in a `size_t` are one. */
  lemma SizeTTwice(a: int, n: int)
    ensures SizeT(SizeT(a - 2) as int - n) == SizeT(a - 2 - n)
  {
    var b, c := a - 2, a - 2 - n;
    var k := c / SIZE_T - b / SIZE_T;
    assert b % SIZE_T - n == SIZE_T * k + c % SIZE_T;
  }

  method UnpackConnect(r: Reader) returns (c: Connect)
    requires r.Valid() && ParseConnect(r.Rest()).Some?
    modifies r
    ensures r.Valid() && ParseConnect(old(r.Rest())) == Some((c, r.Rest()))
  {
    hide DecodeLength, ReadString, ReadU16, ReadConnectPayload;
    var header := r.U8();
    var init := r.pos;
    var _ := r.TakeLength();
    r.pos := init + 8;
    var flags := r.U8();
    assert r.Rest() == old(r.Rest())[10..];
    var keepalive := r.TakeU16();
    c := UnpackConnectPayload(r, header, flags, keepalive);
  }

  method UnpackConnectPayload(r: Reader, header: byte, flags: byte, keepalive: nat) returns (c: Connect)
    requires r.Valid() && ReadConnectPayload(header, flags, keepalive, r.Rest()).Some?
    modifies r
    ensures r.Valid() && ReadConnectPayload(header, flags, keepalive, old(r.Rest())) == Some((c, r.Rest()))
  {
    hide ReadString;
    var clientId := r.TakeString();
    var will: Option<(Str, Str)>, username: Option<Str>, password: Option<Str> := None, None, None;
    if WillFlag(flags) {
      var topic := r.TakeString();
      var message := r.TakeString();
      will := Some((topic, message));
    }
    if UsernameFlag(flags) {
      var b := r.TakeString();
      username := Some(b);
    }
    if PasswordFlag(flags) {
      var b := r.TakeString();
      password := Some(b);
    }
    c := Connect(header, flags, keepalive, clientId, will, username, password);
  }

  /** What each packet type asks of its reader. */
  lemma PacketOfKind(buf: Str)
    requires ParsePacket(buf).Some?
    ensures buf != []
    ensures var kind, p := PacketType(buf[0]), ParsePacket(buf).value;
            && (kind in {12, 13, 14} ==> p == HeaderPacket(buf[0]))
            && (kind == 1 ==> ParseConnect(buf).Some? && p == ConnectPacket(ParseConnect(buf).value.0))
            && (kind == 3 ==> ParsePublish(buf).Some? && p == PublishPacket(ParsePublish(buf).value.0))
            && (kind == 8 ==> ParseSubscribe(buf).Some? && p == SubscribePacket(ParseSubscribe(buf).value.0))
            && (kind == 10 ==> ParseUnsubscribe(buf).Some? && p == UnsubscribePacket(ParseUnsubscribe(buf).value.0))
            && (kind !in {12, 13, 14, 1, 3, 8, 10} ==>
                  ParseAck(buf).Some? && p == AckPacket(ParseAck(buf).value.0, ParseAck(buf).value.1))
  {
    hide ParseConnect, ParsePublish, ParseSubscribe, ParseUnsubscribe, ParseAck;
  }

  /** Unpack the packet at the front of a buffer, by its type. */
  method UnpackPacket(buf: Str) returns (p: Packet)
    requires ParsePacket(buf).Some?
    ensures ParsePacket(buf) == Some(p)
  {
    hide ParsePacket, ParseConnect, ParsePublish, ParseSubscribe, ParseUnsubscribe, ParseAck;
    PacketOfKind(buf);
    var r := new Reader(buf);
    var kind := PacketType(buf[0]);
    if kind == 12 || kind == 13 || kind == 14 {
      p := HeaderPacket(buf[0]);
    } else if kind == 1 {
      var c := UnpackConnect(r);
      p := ConnectPacket(c);
    } else if kind == 3 {
      var q := UnpackPublish(r);
      p := PublishPacket(q);
    } else if kind == 8 {
      var q := UnpackSubscribe(r);
      p := SubscribePacket(q);
    } else if kind == 10 {
      var u := UnpackUnsubscribe(r);
      p := UnsubscribePacket(u);
    } else {
      var header, pktId := UnpackAck(r);
      p := AckPacket(header, pktId);
    }
  }

  // ---------- Writing ----------

  /** A buffer with a write cursor, as the pack functions advance it. */
  class Writer {
    const buf: array<byte>
    var pos: nat

    ghost predicate Valid()
      reads this
    {
      pos <= buf.Length
    }

    ghost function Written(): Str
      requires Valid()
      reads this, buf
    {
      buf[..pos]
    }

    constructor (n: nat)
      ensures Valid() && fresh(buf) && buf.Length == n && Written() == []
    {
      buf, pos := new byte[n], 0;
    }

    method PackU8(v: byte)
      requires Valid() && pos < buf.Length
      modifies this, buf
      ensures Valid() && Written() == old(Written()) + [v]
    {
      buf[pos] := v;
      pos := pos + 1;
    }

    method PackU16(v: nat)
      requires Valid() && v < U16 && pos + 2 <= buf.Length
      modifies this, buf
      ensures Valid() && Written() == old(Written()) + PutU16(v)
    {
      buf[pos], buf[pos + 1] := v / 256, v % 256;
      pos := pos + 2;
    }

    /** Copies a string up to its terminating NUL. */
    method PackBytes(s: Str)
      requires Valid() && pos + |CStr(s)| <= buf.Length
      modifies this, buf
      ensures Valid() && Written() == old(Written()) + CStr(s)
    {
      var b := CStr(s);
      forall i | 0 <= i < |b| {
        buf[pos + i] := b[i];
      }
      pos := pos + |b|;
    }

    /** Writes a Remaining Length of at most four bytes and steps over it. */
    method PackLength(len: nat)
      requires Valid() && pos + |EncodeLength(len, MAX_LENGTH_BYTES)| <= buf.Length
      modifies this, buf
      ensures Valid() && Written() == old(Written()) + EncodeLength(len, MAX_LENGTH_BYTES)
    {
      var bytes, left := 0, len;
      ghost var goal := Written() + EncodeLength(len, MAX_LENGTH_BYTES);
      while true
        invariant Valid() && bytes <= MAX_LENGTH_BYTES
        invariant pos + |EncodeLength(left, MAX_LENGTH_BYTES - bytes)| <= buf.Length
        invariant Written() + EncodeLength(left, MAX_LENGTH_BYTES - bytes) == goal
        decreases MAX_LENGTH_BYTES - bytes
      {
        if bytes + 1 > MAX_LENGTH_BYTES {
          return;
        }
        ghost var before := Written();
        var d := left % 128;
        left := left / 128;
        if left > 0 {
          d := d + 128;
        }
        PackU8(d);
        bytes := bytes + 1;
        if left == 0 {
          return;
        }
        assert Written() + EncodeLength(left, MAX_LENGTH_BYTES - bytes)
            == before + ([d] + EncodeLength(left, MAX_LENGTH_BYTES - bytes));
      }
    }
  }

  /** The fixed header: type and flags, then the Remaining Length. */
  method PackHeader(w: Writer, header: byte, len: nat)
    requires w.Valid() && w.pos + 1 + |EncodeLength(len, MAX_LENGTH_BYTES)| <= w.buf.Length
    modifies w, w.buf
    ensures w.Valid() && w.Written() == old(w.Written()) + ([header] + EncodeLength(len, MAX_LENGTH_BYTES))
  {
    hide EncodeLength;
    w.PackU8(header);
    w.PackLength(len);
  }

  /** A string: its stored length, then a copy that stops at a zero byte. */
  method PackString(w: Writer, s: Str)
    requires w.Valid() && |s| < U16 && w.pos + 2 + |CStr(s)| <= w.buf.Length
    modifies w, w.buf
    ensures w.Valid() && w.Written() == old(w.Written()) + (PutU16(|s|) + CStr(s))
  {
    hide PutU16, CStr;
    w.PackU16(|s|);
    w.PackBytes(s);
  }

  // ---------- Packing ----------

  /** The size computed by the packer and by the fan-out loop: header, length field and body. */
  function AllocatedLength(topicLen: nat, payloadLen: nat, qos: nat): (n: nat)
    ensures var len := 2 + topicLen + payloadLen + if qos > 0 then 2 else 0;
            len < LENGTH_BOUND ==> n == 1 + |EncodeLength(len, MAX_LENGTH_BYTES)| + len
  {
    var pktLen := 2 + 2 + topicLen + payloadLen + if qos > 0 then 2 else 0;
    LengthSize(pktLen - 2);
    pktLen + if pktLen - 1 > 0x20_0000 then 3 else if pktLen - 1 > 0x4000 then 2 else if pktLen - 1 > 0x80 then 1 else 0
  }

  /** What the packer writes: string copies stop at a zero byte. */
  function WrittenFrame(p: Publish): Str
    requires ValidPublish(p)
  {
    ([p.header] + EncodeLength(PublishLength(p), MAX_LENGTH_BYTES)) + (PutU16(|p.topic|) + CStr(p.topic))
    + ((if QoS(p.header) > 0 then PutU16(p.pktId) else []) + CStr(p.payload))
  }

  /** The buffer is filled exactly, and with the frame, when neither string holds a zero byte; else it is not. */
  lemma FilledIffZeroFree(p: Publish)
    requires ValidPublish(p)
    ensures |WrittenFrame(p)| <= |PublishFrame(p)|
    ensures |WrittenFrame(p)| == |PublishFrame(p)| <==> ZeroFree(p.topic) && ZeroFree(p.payload)
    ensures ZeroFree(p.topic) && ZeroFree(p.payload) ==> WrittenFrame(p) == PublishFrame(p)
  {
    hide EncodeLength, PutU16, CStr;
  }

  method PackIdAndPayload(w: Writer, p: Publish)
    requires w.Valid() && p.pktId < U16
    requires w.pos + (if QoS(p.header) > 0 then 2 else 0) + |CStr(p.payload)| <= w.buf.Length
    modifies w, w.buf
    ensures w.Valid()
    ensures w.Written() == old(w.Written()) + ((if QoS(p.header) > 0 then PutU16(p.pktId) else []) + CStr(p.payload))
  {
    hide PutU16, CStr, QoS;
    if QoS(p.header) > 0 {
      w.PackU16(p.pktId);
    }
    w.PackBytes(p.payload);
  }

  method PackPublish(p: Publish) returns (packed: array<byte>)
    requires ValidPublish(p)
    ensures fresh(packed) && packed.Length == |PublishFrame(p)|
    ensures |WrittenFrame(p)| <= packed.Length && packed[..|WrittenFrame(p)|] == WrittenFrame(p)
    ensures ZeroFree(p.topic) && ZeroFree(p.payload) ==> packed[..] == PublishFrame(p)
  {
    hide EncodeLength, PutU16, CStr, PublishFrame, AllocatedLength, QoS;
    FilledIffZeroFree(p);
    var w := new Writer(AllocatedLength(|p.topic|, |p.payload|, QoS(p.header)));
    PackHeader(w, p.header, PublishLength(p));
    PackString(w, p.topic);
    PackIdAndPayload(w, p);
    packed := w.buf;
    assert w.Written() == WrittenFrame(p);
    assert |WrittenFrame(p)| == packed.Length ==> packed[..] == w.Written();
  }

  method PackAck(header: byte, pktId: nat) returns (packed: array<byte>)
    requires pktId < U16
    ensures fresh(packed) && packed[..] == AckFrame(header, pktId)
  {
    var w := new Writer(4);
    PackHeader(w, header, 2);
    w.PackU16(pktId);
    packed := w.buf;
    assert w.Written() == AckFrame(header, pktId);
  }

  method PackConnack(flags: byte, code: byte) returns (packed: array<byte>)
    ensures fresh(packed) && packed[..] == ConnackFrame(flags, code)
  {
    var w := new Writer(4);
    PackHeader(w, CONNACK, 2);
    w.PackU8(flags);
    w.PackU8(code);
    packed := w.buf;
    assert w.Written() == ConnackFrame(flags, code);
  }

  /** One return code per filter; the buffer has room for a one-byte Remaining Length. */
  method PackSuback(header: byte, pktId: nat, codes: Str) returns (packed: array<byte>)
    requires pktId < U16 && |codes| <= 125
    ensures fresh(packed) && packed[..] == SubackFrame(header, pktId, codes)
  {
    SubackFitsIff(header, pktId, codes);
    hide PutU16, EncodeLength;
    var w := new Writer(2 + 2 + |codes|);
    PackHeader(w, header, 2 + |codes|);
    w.PackU16(pktId);
    ghost var front := w.Written();
    for i := 0 to |codes|
      invariant w.Valid() && w.Written() == front + codes[..i] && fresh(w) && fresh(w.buf)
    {
      w.PackU8(codes[i]);
      assert codes[..i + 1] == codes[..i] + [codes[i]];
    }
    packed := w.buf;
    assert codes[..|codes|] == codes;
    assert w.Written() == SubackFrame(header, pktId, codes);
  }
}
