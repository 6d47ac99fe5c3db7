// The CONNECT packet builder of src/mqtt_protocol.c, and the reader that
// section 3.1 of MQTT Version 3.1.1 describes.
module MqttConnect {
  import opened Bytes
  import opened Common
  import opened Mqtt
  import opened Widths
  import Utf8

  datatype Will = Will(topic: seq<Byte>, message: seq<Byte>, qos: Byte, retain: bool)

  datatype Config = Config(clean: bool, keepalive: nat, clientId: seq<Byte>, will: Option<Will>,
                           username: Option<seq<Byte>>, password: Option<seq<Byte>>)

  // ---------- fields ----------

  // A string behind its length, of which two bytes are kept.
  function Str(s: seq<Byte>): (r: seq<Byte>)
    ensures |r| == 2 + |s|
  {
    Big(|s| % 0x1_0000, 2) + s
  }

  function Optional(s: Option<seq<Byte>>): seq<Byte> {
    if s.Some? then Str(s.value) else []
  }

  // The string at position i and the position after it.
  function TakeStr(s: seq<Byte>, i: nat): (r: Option<(seq<Byte>, nat)>)
    ensures r.Some? ==> i <= r.value.1 <= |s|
  {
    if |s| < i + 2 then None else
      var n := Value(s[i..i + 2]);
      if |s| < i + 2 + n then None else Some((s[i + 2..i + 2 + n], i + 2 + n))
  }

  lemma TwoByteValue(n: nat)
    requires n < 0x1_0000
    ensures Value(Big(n, 2)) == n
  {
    Powers();
    ValueBig(n, 2);
  }

  lemma StrAt(a: seq<Byte>, s: seq<Byte>, b: seq<Byte>)
    ensures var t := a + Str(s) + b;
      && |t| == |a| + 2 + |s| + |b| && t[|a|..|a| + 2] == Big(|s| % 0x1_0000, 2) && t[|a| + 2..|a| + 2 + |s|] == s
  {
    hide Big;
    var two := Big(|s| % 0x1_0000, 2);
    var t := a + Str(s) + b;
    assert t == a + two + s + b;
  }

  // A string is read back exactly when its length fits two bytes.
  lemma StrRoundTrip(a: seq<Byte>, s: seq<Byte>, b: seq<Byte>)
    ensures var r := TakeStr(a + Str(s) + b, |a|); r.Some? && r.value.0 == s <==> |s| < 0x1_0000
    ensures |s| < 0x1_0000 ==> TakeStr(a + Str(s) + b, |a|).value.1 == |a| + 2 + |s|
  {
    var t := a + Str(s) + b;
    var n := |s| % 0x1_0000;
    TwoByteValue(n);
    StrAt(a, s, b);
    hide Str, Big, Value;
  }

  // ---------- flags ----------

  function Flags(c: Config): Byte {
    (if c.clean then 0x02 else 0) | (if c.username.Some? then 0x80 else 0) | (if c.password.Some? then 0x40 else 0)
    | (if c.will.Some? then 0x04 | ((c.will.value.qos & 0x03) << 3) | (if c.will.value.retain then 0x20 else 0) else 0)
  }

  lemma FlagsRead(c: Config)
    ensures var f := Flags(c);
      && (f & 0x02 != 0 <==> c.clean) && (f & 0x80 != 0 <==> c.username.Some?) && (f & 0x40 != 0 <==> c.password.Some?)
      && (f & 0x04 != 0 <==> c.will.Some?) && f & 0x01 == 0
      && (c.will.Some? ==> (f >> 3) & 0x03 == c.will.value.qos & 0x03 && (f & 0x20 != 0 <==> c.will.value.retain))
  {
  }

  // ---------- the packet ----------

  function WillBody(w: Option<Will>): seq<Byte> {
    if w.Some? then Str(w.value.topic) + Str(w.value.message) else []
  }

  const NAME: seq<Byte> := [0, 4, 0x4D, 0x51, 0x54, 0x54, 4]   // "MQTT", level 4

  function Body(c: Config): (b: seq<Byte>)
    requires c.keepalive < 0x1_0000
    ensures |b| >= 12
  {
    NAME + [Flags(c)] + Big(c.keepalive, 2) + Str(c.clientId) + WillBody(c.will) + Optional(c.username) + Optional(c.password)
  }

  // What the builder leaves: the length, cut to 32 bits, in front of the
  // body.  The gap has room for four bytes; a fifth takes the place of the
  // first byte of the body.
  function Prefixed(body: seq<Byte>): seq<Byte>
    requires body != []
  {
    var v := VarInt(|body| % W32);
    [0x10] + v + if |v| <= 4 then body else [v[|v| - 1]] + body[1..]
  }

  function Packet(c: Config): seq<Byte>
    requires c.keepalive < 0x1_0000
  {
    Prefixed(Body(c))
  }

  const CLIENT := Config(true, 10, [0x41], None, None, None)
  const CLIENT_BODY: seq<Byte> := [0, 4, 0x4D, 0x51, 0x54, 0x54, 4, 0x02, 0, 10, 0, 1, 0x41]

  lemma SmallBig(n: nat)
    requires n < 256
    ensures Big(n, 2) == [0, ToByte(n)]
  {
    hide ToByte;
    assert Big(n, 2) == Big(0, 1) + [ToByte(n)];
    assert Big(0, 1) == Big(0, 0) + [ToByte(0)];
    ZeroByte();
  }

  lemma ZeroByte()
    ensures ToByte(0) == 0
  {
  }

  lemma ProtocolName()
    ensures NAME == Str([0x4D, 0x51, 0x54, 0x54]) + [4]
  {
    SmallBig(4);
    hide Big;
  }

  lemma ClientBody()
    ensures Body(CLIENT) == CLIENT_BODY
  {
    SmallBig(10);
    SmallBig(1);
    hide Big;
    assert Flags(CLIENT) == 0x02;
    assert Str([0x41]) == [0, 1, 0x41];
  }

  // The packet of a client called "A" with a keepalive of 10 seconds and a
  // clean session.
  lemma SmallPacket()
    ensures Packet(CLIENT) == [0x10, 13, 0, 4, 0x4D, 0x51, 0x54, 0x54, 4, 0x02, 0, 10, 0, 1, 0x41]
  {
    ClientBody();
    hide Body;
    assert VarInt(13) == [13];
  }

  // One with everything: identifier "C", will "m" on topic "t" with QoS 1 and
  // retained, user "u", password "p".
  const FULL := Config(true, 60, [0x43], Some(Will([0x74], [0x6D], 1, true)), Some([0x75]), Some([0x70]))
  const FULL_BODY: seq<Byte> := [0, 4, 0x4D, 0x51, 0x54, 0x54, 4, 0xEE, 0, 60, 0, 1, 0x43, 0, 1, 0x74, 0, 1, 0x6D,
                                 0, 1, 0x75, 0, 1, 0x70]

  lemma FullBody()
    ensures Body(FULL) == FULL_BODY
  {
    hide Big, Flags, Str;
    FullFlags();
    SmallBig(60);
    OneLetter(0x43);
    OneLetter(0x74);
    OneLetter(0x6D);
    OneLetter(0x75);
    OneLetter(0x70);
  }

  lemma FullFlags()
    ensures Flags(FULL) == 0xEE
  {
  }

  lemma OneLetter(b: Byte)
    ensures Str([b]) == [0, 1, b]
  {
    SmallBig(1);
    hide Big;
  }

  lemma FullPacket()
    ensures Packet(FULL) == [0x10, 25] + FULL_BODY
  {
    FullBody();
    hide Body;
    assert VarInt(25) == [25];
  }

  // ---------- the reader of section 3.1 ----------

  ghost function ReadOptional(b: seq<Byte>, i: nat, present: bool): (r: Option<(Option<seq<Byte>>, nat)>)
    requires i <= |b|
    ensures r.Some? ==> r.value.1 <= |b|
  {
    if !present then Some((None, i)) else
      var t := TakeStr(b, i);
      if t.None? then None else Some((Some(t.value.0), t.value.1))
  }

  ghost function ReadWill(b: seq<Byte>, i: nat, f: Byte): (r: Option<(Option<Will>, nat)>)
    requires i <= |b|
    ensures r.Some? ==> r.value.1 <= |b|
  {
    if f & 0x04 == 0 then Some((None, i)) else
      var t := TakeStr(b, i);
      if t.None? then None else
        var m := TakeStr(b, t.value.1);
        if m.None? then None else
          Some((Some(Will(t.value.0, m.value.0, (f >> 3) & 0x03, f & 0x20 != 0)), m.value.1))
  }

  // The rules on the flags alone: the lowest bit is reserved
  // [MQTT-3.1.2-3], without a will its QoS and retain bits are clear
  // [MQTT-3.1.2-13, 3.1.2-15], the QoS is not 3 [MQTT-3.1.2-14], and there is
  // no password without a user name [MQTT-3.1.2-22].
  ghost predicate FlagRules(f: Byte) {
    && f & 0x01 == 0 && (f & 0x04 == 0 ==> f & 0x38 == 0) && f & 0x18 != 0x18
    && (f & 0x80 == 0 ==> f & 0x40 == 0)
  }

  // The rules on the strings: identifier, topic and user name are UTF-8
  // [MQTT-3.1.3-4, 3.1.3-10, 3.1.3-11], and a client without an identifier
  // asks for a clean session [MQTT-3.1.3-7].
  ghost predicate StringRules(c: Config) {
    && Utf8.Utf8String(c.clientId) && (c.clientId == [] ==> c.clean)
    && (c.will.Some? ==> Utf8.Utf8String(c.will.value.topic))
    && (c.username.Some? ==> Utf8.Utf8String(c.username.value))
  }

  ghost function ReadBody(b: seq<Byte>): Option<Config> {
    if |b| < 8 || !FlagRules(b[7]) then None else
      var c := ReadFields(b);
      if c.Some? && StringRules(c.value) then c else None
  }

  ghost function ReadFields(b: seq<Byte>): Option<Config> {
    if |b| < 12 || b[..7] != NAME then None else
      var f := b[7];
      var id := TakeStr(b, 10);
      if id.None? then None else
        var w := ReadWill(b, id.value.1, f);
        if w.None? then None else
          var u := ReadOptional(b, w.value.1, f & 0x80 != 0);
          if u.None? then None else
            var p := ReadOptional(b, u.value.1, f & 0x40 != 0);
            if p.None? || p.value.1 != |b| then None else
              Some(Config(f & 0x02 != 0, Value(b[8..10]), id.value.0, w.value.0, u.value.0, p.value.0))
  }

  // The length field must count exactly the bytes that follow it.
  ghost function ReadConnect(s: seq<Byte>): Option<Config> {
    if |s| < 2 || s[0] != 0x10 then None else
      var k := VarLen(s[1..]);
      if k > 4 || k >= |s| || |s| != 1 + k + Digits(s[1..1 + k]) then None else ReadBody(s[1 + k..])
  }

  // Every string has a length that fits its field.
  ghost predicate Fits(c: Config) {
    && |c.clientId| < 0x1_0000
    && (c.will.Some? ==> |c.will.value.topic| < 0x1_0000 && |c.will.value.message| < 0x1_0000)
    && (c.username.Some? ==> |c.username.value| < 0x1_0000)
    && (c.password.Some? ==> |c.password.value| < 0x1_0000)
  }

  // Section 3.1 allows the packet the configuration asks for.
  ghost predicate Conforms(c: Config) {
    && (c.will.Some? ==> c.will.value.qos & 0x03 != 3)
    && (c.password.Some? ==> c.username.Some?)
    && StringRules(c)
  }

  lemma FlagRulesRead(c: Config)
    ensures FlagRules(Flags(c)) <==>
            (c.will.Some? ==> c.will.value.qos & 0x03 != 3) && (c.password.Some? ==> c.username.Some?)
  {
  }

  // What the two QoS bits keep.
  function TwoBitQos(c: Config): Config {
    if c.will.Some? then c.(will := Some(c.will.value.(qos := c.will.value.qos & 0x03))) else c
  }

  lemma TakeStrFits(b: seq<Byte>, i: nat)
    ensures TakeStr(b, i).Some? ==> |TakeStr(b, i).value.0| < 0x1_0000
  {
    if |b| >= i + 2 {
      ValueBound(b[i..i + 2]);
      Powers();
      hide Value;
    }
  }

  // The reader never returns a string that does not fit.
  lemma ReadFits(b: seq<Byte>)
    ensures ReadBody(b).Some? ==> Fits(ReadBody(b).value)
  {
    forall i: nat
      ensures TakeStr(b, i).Some? ==> |TakeStr(b, i).value.0| < 0x1_0000
    {
      TakeStrFits(b, i);
    }
    hide TakeStr;
  }

  lemma ReadOptionalStr(a: seq<Byte>, s: Option<seq<Byte>>, b: seq<Byte>)
    requires s.Some? ==> |s.value| < 0x1_0000
    ensures var r := ReadOptional(a + Optional(s) + b, |a|, s.Some?);
      r.Some? && r.value.0 == s && r.value.1 == |a| + |Optional(s)|
  {
    if s.Some? {
      StrRoundTrip(a, s.value, b);
    }
  }

  lemma ReadWillBody(a: seq<Byte>, w: Option<Will>, f: Byte, b: seq<Byte>)
    requires w.Some? ==> |w.value.topic| < 0x1_0000 && |w.value.message| < 0x1_0000
    requires f & 0x04 != 0 <==> w.Some?
    requires w.Some? ==> (f >> 3) & 0x03 == w.value.qos & 0x03 && (f & 0x20 != 0 <==> w.value.retain)
    ensures var r := ReadWill(a + WillBody(w) + b, |a|, f);
      && r.Some? && r.value.1 == |a| + |WillBody(w)|
      && r.value.0 == if w.Some? then Some(w.value.(qos := w.value.qos & 0x03)) else None
  {
    if w.Some? {
      var s := a + WillBody(w) + b;
      var t, m := Str(w.value.topic), Str(w.value.message);
      assert s == a + t + (m + b);
      StrRoundTrip(a, w.value.topic, m + b);
      assert s == (a + t) + m + b;
      StrRoundTrip(a + t, w.value.message, b);
      hide TakeStr, Str;
    }
  }

  // The fixed ten bytes.
  function Opening(c: Config): (a: seq<Byte>)
    requires c.keepalive < 0x1_0000
    ensures |a| == 10
  {
    NAME + [Flags(c)] + Big(c.keepalive, 2)
  }

  lemma BodyOpening(c: Config)
    requires c.keepalive < 0x1_0000
    ensures Body(c)[..7] == NAME && Body(c)[7] == Flags(c) && Body(c)[8..10] == Big(c.keepalive, 2)
  {
    hide Flags, Big, Str, WillBody, Optional;
  }

  // The body cut before each field.
  lemma CutId(c: Config)
    requires c.keepalive < 0x1_0000
    ensures Body(c) == Opening(c) + Str(c.clientId) + (WillBody(c.will) + Optional(c.username) + Optional(c.password))
  {
    hide Flags, Big, Str, WillBody, Optional;
  }

  lemma CutWill(c: Config)
    requires c.keepalive < 0x1_0000
    ensures Body(c) == (Opening(c) + Str(c.clientId)) + WillBody(c.will) + (Optional(c.username) + Optional(c.password))
  {
    hide Flags, Big, Str, WillBody, Optional;
  }

  lemma CutUser(c: Config)
    requires c.keepalive < 0x1_0000
    ensures Body(c) == (Opening(c) + Str(c.clientId) + WillBody(c.will)) + Optional(c.username) + Optional(c.password)
  {
    hide Flags, Big, Str, WillBody, Optional;
  }

  lemma CutPass(c: Config)
    requires c.keepalive < 0x1_0000
    ensures Body(c) == (Opening(c) + Str(c.clientId) + WillBody(c.will) + Optional(c.username)) + Optional(c.password) + []
  {
    hide Flags, Big, Str, WillBody, Optional;
  }

  // Where the fields after the client identifier begin.
  function WillAt(c: Config): nat { 12 + |c.clientId| }
  function UserAt(c: Config): nat { WillAt(c) + |WillBody(c.will)| }
  function PassAt(c: Config): nat { UserAt(c) + |Optional(c.username)| }

  lemma ReadId(c: Config)
    requires c.keepalive < 0x1_0000 && Fits(c)
    ensures var r := TakeStr(Body(c), 10); r.Some? && r.value.0 == c.clientId && r.value.1 == WillAt(c)
  {
    CutId(c);
    hide Body;
    StrRoundTrip(Opening(c), c.clientId, WillBody(c.will) + Optional(c.username) + Optional(c.password));
  }

  lemma ReadTheWill(c: Config)
    requires c.keepalive < 0x1_0000 && Fits(c)
    ensures WillAt(c) <= |Body(c)|
    ensures var r := ReadWill(Body(c), WillAt(c), Flags(c)); r.Some? && r.value.0 == TwoBitQos(c).will && r.value.1 == UserAt(c)
  {
    CutWill(c);
    FlagsRead(c);
    hide Body, ReadWill, Flags;
    ReadWillBody(Opening(c) + Str(c.clientId), c.will, Flags(c), Optional(c.username) + Optional(c.password));
  }

  lemma ReadUser(c: Config)
    requires c.keepalive < 0x1_0000 && Fits(c)
    ensures UserAt(c) <= |Body(c)|
    ensures var r := ReadOptional(Body(c), UserAt(c), c.username.Some?); r.Some? && r.value.0 == c.username && r.value.1 == PassAt(c)
  {
    CutUser(c);
    hide Body, ReadOptional, Opening, WillBody, Optional;
    ReadOptionalStr(Opening(c) + Str(c.clientId) + WillBody(c.will), c.username, Optional(c.password));
  }

  lemma ReadPass(c: Config)
    requires c.keepalive < 0x1_0000 && Fits(c)
    ensures PassAt(c) <= |Body(c)|
    ensures var r := ReadOptional(Body(c), PassAt(c), c.password.Some?); r.Some? && r.value.0 == c.password && r.value.1 == |Body(c)|
  {
    CutPass(c);
    hide Body, ReadOptional, Opening, WillBody, Optional;
    ReadOptionalStr(Opening(c) + Str(c.clientId) + WillBody(c.will) + Optional(c.username), c.password, []);
  }

  lemma ReadFieldsBack(c: Config)
    requires c.keepalive < 0x1_0000 && Fits(c)
    ensures ReadFields(Body(c)) == Some(TwoBitQos(c))
  {
    FlagsRead(c);
    TwoByteValue(c.keepalive);
    BodyOpening(c);
    ReadId(c);
    ReadTheWill(c);
    ReadUser(c);
    ReadPass(c);
    hide Body, Flags, Big, Value, Optional, TakeStr, ReadWill, ReadOptional, WillBody, WillAt, UserAt, PassAt;
  }

  lemma ReadBodyBack(c: Config)
    requires c.keepalive < 0x1_0000 && Fits(c)
    ensures ReadBody(Body(c)) == if Conforms(c) then Some(TwoBitQos(c)) else None
  {
    ReadFieldsBack(c);
    BodyOpening(c);
    FlagRulesRead(c);
    hide Body, ReadFields, Flags, FlagRules;
  }

  lemma BodySize(c: Config)
    requires c.keepalive < 0x1_0000 && Fits(c)
    ensures |Body(c)| < LIMIT
  {
    hide Flags, Big;
  }

  // A body short enough is found behind its length.
  lemma ReadPrefixed(b: seq<Byte>)
    requires b != [] && |b| < LIMIT
    ensures ReadConnect(Prefixed(b)) == ReadBody(b)
  {
    var v := VarInt(|b|);
    var k := |v|;
    var s := Prefixed(b);
    VarIntSize(|b|);
    assert s[1..] == v + b;
    LengthRoundTrip(|b|, b);
    assert s[1 + k..] == b;
    assert s[1..1 + k] == s[1..][..k];
    hide ReadBody, VarInt;
  }

  // Reading the packet built gives back flags, keepalive and every field
  // (the QoS to two bits) exactly when every string fits its length field
  // and the configuration keeps the rules of section 3.1; and when it breaks
  // one of these, the packet is refused.
  lemma ConnectRoundTrip(c: Config)
    requires c.keepalive < 0x1_0000
    ensures ReadConnect(Packet(c)) == Some(TwoBitQos(c)) <==> Fits(c) && Conforms(c)
    ensures Fits(c) && !Conforms(c) ==> ReadConnect(Packet(c)) == None
  {
    if Fits(c) {
      BodySize(c);
      ReadPrefixed(Body(c));
      ReadBodyBack(c);
    }
    ReadConnectFits(Packet(c));
    hide Body, ReadConnect, Utf8.Utf8String;
  }

  lemma ReadConnectFits(s: seq<Byte>)
    ensures ReadConnect(s).Some? ==> Fits(ReadConnect(s).value)
  {
    forall b: seq<Byte>
      ensures ReadBody(b).Some? ==> Fits(ReadBody(b).value)
    {
      ReadFits(b);
    }
    hide ReadBody, VarLen, Digits;
  }

  // Four configurations the builder takes and section 3.1 does not: a QoS of
  // 3, a password without a user name, no identifier without a clean
  // session, and an identifier that is not UTF-8.
  lemma Refused()
    ensures var c := Config(true, 60, [], None, None, None);
      var w := Will([], [], 3, false);
      && ReadConnect(Packet(c)) == Some(c)
      && ReadConnect(Packet(c.(will := Some(w)))) == None
      && ReadConnect(Packet(c.(password := Some([])))) == None
      && ReadConnect(Packet(c.(clean := false))) == None
      && ReadConnect(Packet(c.(clientId := [0xFF]))) == None
  {
    var c := Config(true, 60, [], None, None, None);
    ConnectRoundTrip(c);
    ConnectRoundTrip(c.(will := Some(Will([], [], 3, false))));
    ConnectRoundTrip(c.(password := Some([])));
    ConnectRoundTrip(c.(clean := false));
    ConnectRoundTrip(c.(clientId := [0xFF]));
    hide Packet, ReadConnect;
  }

  // ---------- the builder ----------

  lemma HighByte(n: nat)
    ensures n % 0x1_0000 % 256 == n % 256 && n % 0x1_0000 / 256 == n / 256 % 256
  {
    var q, m := n / 0x1_0000, n % 0x1_0000;
    assert n == 256 * (256 * q) + m;
    assert n / 256 == 256 * q + m / 256;
    assert 0 <= m / 256 < 256;
  }

  lemma BigOne(h: nat)
    requires h < 256
    ensures Big(h, 1) == [ToByte(h)]
  {
    assert Big(h, 1) == Big(h / 256, 0) + [ToByte(h % 256)];
  }

  lemma BigTwo(m: nat)
    requires m < 0x1_0000
    ensures Big(m, 2) == [ToByte(m / 256), ToByte(m % 256)]
  {
    BigOne(m / 256);
    assert Big(m, 2) == Big(m / 256, 1) + [ToByte(m % 256)];
  }

  // The two length bytes the source writes, n >> 8 cut to a byte and n & 0xFF.
  lemma TwoBytes(n: nat)
    ensures Big(n % 0x1_0000, 2) == [ToByte(n / 256 % 256), ToByte(n % 256)]
  {
    HighByte(n);
    hide *;
    BigTwo(n % 0x1_0000);
  }

  // After the header gap, buf holds done.
  ghost predicate Holds(buf: array<Byte>, len: nat, done: seq<Byte>)
    reads buf
  {
    5 <= len <= buf.Length && buf[0] == 0x10 && buf[5..len] == done
  }

  method Append(buf: array<Byte>, len: nat, src: seq<Byte>, ghost done: seq<Byte>) returns (len': nat)
    requires Holds(buf, len, done) && len + |src| <= buf.Length
    modifies buf
    ensures len' == len + |src| && Holds(buf, len', done + src)
  {
    ghost var was := buf[..];
    Copy(buf, len, src);
    OverAt(was, len, src);
    hide Over;
    len' := len + |src|;
    assert buf[..len] == was[..len];
    assert buf[5..len'] == buf[5..len] + buf[len..len'];
  }

  method AppendStr(buf: array<Byte>, len: nat, src: seq<Byte>, ghost done: seq<Byte>) returns (len': nat)
    requires Holds(buf, len, done) && len + 2 + |src| <= buf.Length
    modifies buf
    ensures len' == len + |Str(src)| && Holds(buf, len', done + Str(src))
  {
    TwoBytes(|src|);
    var two := [ToByte(|src| / 256 % 256), ToByte(|src| % 256)];
    len' := Append(buf, len, two, done);
    len' := Append(buf, len', src, done + two);
    assert done + two + src == done + Str(src);
  }

  method AppendOptional(buf: array<Byte>, len: nat, src: Option<seq<Byte>>, ghost done: seq<Byte>) returns (len': nat)
    requires Holds(buf, len, done) && len + |Optional(src)| <= buf.Length
    modifies buf
    ensures len' == len + |Optional(src)| && Holds(buf, len', done + Optional(src))
  {
    len' := len;
    if src.Some? {
      len' := AppendStr(buf, len, src.value, done);
    } else {
      assert done + [] == done;
    }
  }

  method AppendWill(buf: array<Byte>, len: nat, w: Option<Will>, ghost done: seq<Byte>) returns (len': nat)
    requires Holds(buf, len, done) && len + |WillBody(w)| <= buf.Length
    modifies buf
    ensures len' == len + |WillBody(w)| && Holds(buf, len', done + WillBody(w))
  {
    hide Str, Holds;
    len' := len;
    if w.Some? {
      len' := AppendStr(buf, len, w.value.topic, done);
      len' := AppendStr(buf, len', w.value.message, done + Str(w.value.topic));
      assert done + Str(w.value.topic) + Str(w.value.message) == done + WillBody(w);
    } else {
      assert done + [] == done;
    }
  }

  // mqtt_create_connect_packet: the body goes behind a gap of four bytes and
  // is moved back once its length is known.  The size comes back as a 32-bit
  // integer.
  method CreateConnect(buf: array<Byte>, c: Config) returns (r: int)
    requires c.keepalive < 0x1_0000 && buf.Length >= 5 + |Body(c)| && buf.Length >= |Packet(c)|
    modifies buf
    ensures buf[..|Packet(c)|] == Packet(c) && r == ToInt32(|Packet(c)|)
  {
    buf[0] := 0x10;
    var len := WriteBody(buf, c);
    len := CloseGap(buf, len, Body(c));
    r := ToInt32(len);
  }

  // The encoded length, and the memmove that closes the gap behind it.
  method CloseGap(buf: array<Byte>, len: nat, ghost body: seq<Byte>) returns (r: nat)
    requires Holds(buf, len, body) && body != [] && |Prefixed(body)| <= buf.Length
    modifies buf
    ensures r == |Prefixed(body)| && buf[..r] == Prefixed(body)
  {
    hide VarInt, Over;
    ghost var was, v := buf[..], VarInt(|body| % W32);
    VarIntSize(|body| % W32);
    var k := EncodeLength(buf, 1, (len - 5) % W32);
    ghost var now := buf[..];
    ghost var rest := if k <= 4 then body else [v[k - 1]] + body[1..];
    BehindLength(was, v, len, body);
    Copy(buf, 1 + k, buf[5..len]);
    ClosedUp(now, v, rest);
    r := len - 4 + k;
  }

  // What the gap's end holds once the length v is written.
  lemma BehindLength(was: seq<Byte>, v: seq<Byte>, len: nat, body: seq<Byte>)
    requires 5 < len <= |was| && was[5..len] == body && 1 <= |v| <= 5 && was[0] == 0x10
    ensures var now := Over(was, 1, v);
      && now[5..len] == (if |v| <= 4 then body else [v[|v| - 1]] + body[1..])
      && now[0] == 0x10 && now[1..1 + |v|] == v
  {
    var now := Over(was, 1, v);
    OverAt(was, 1, v);
    hide Over;
    assert forall j | 5 <= j < len :: was[j] == body[j - 5];
    assert |v| == 5 ==> now[5] == v[4];
  }

  lemma ClosedUp(now: seq<Byte>, v: seq<Byte>, rest: seq<Byte>)
    requires 1 + |v| + |rest| <= |now| && now[0] == 0x10 && now[1..1 + |v|] == v
    ensures Over(now, 1 + |v|, rest)[..1 + |v| + |rest|] == [0x10] + v + rest
  {
    assert now[..1 + |v|] == [0x10] + v;
  }

  method WriteBody(buf: array<Byte>, c: Config) returns (len: nat)
    requires c.keepalive < 0x1_0000 && buf.Length >= 5 + |Body(c)| && buf[0] == 0x10
    modifies buf
    ensures len == 5 + |Body(c)| && Holds(buf, len, Body(c))
  {
    ghost var a := Opening(c);
    CutUser(c);
    TwoBytes(c.keepalive);
    hide Flags;
    len := Append(buf, 5, NAME, []);
    len := Append(buf, len, [Flags(c)], [] + NAME);
    len := Append(buf, len, [ToByte(c.keepalive / 256 % 256), ToByte(c.keepalive % 256)], [] + NAME + [Flags(c)]);
    assert [] + NAME + [Flags(c)] + Big(c.keepalive, 2) == a;
    hide Body, Opening;
    len := AppendStr(buf, len, c.clientId, a);
    len := AppendWill(buf, len, c.will, a + Str(c.clientId));
    len := AppendOptional(buf, len, c.username, a + Str(c.clientId) + WillBody(c.will));
    len := AppendOptional(buf, len, c.password, a + Str(c.clientId) + WillBody(c.will) + Optional(c.username));
  }
}
