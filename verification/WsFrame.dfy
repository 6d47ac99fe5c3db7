// WebSocket frames (src/frame.c) and the frame loop of the server
// (src/server.c).  Section numbers are those of RFC 6455.
module WsFrame {
  import opened Common
  import opened Bytes
  import opened Widths

  datatype Header = Header(fin: Byte, rsv: Byte, opcode: Byte, masked: bool, len7: Byte, length: nat, key: seq<Byte>)

  datatype Message = Message(opcode: Byte, payload: seq<Byte>)

  // ---------- masking, section 5.3 ----------

  function Mask(s: seq<Byte>, key: seq<Byte>): (t: seq<Byte>)
    requires |key| == 4
    ensures |t| == |s|
  {
    seq(|s|, i requires 0 <= i < |s| => s[i] ^ key[i % 4])
  }

  lemma XorTwice(a: Byte, m: Byte)
    ensures (a ^ m) ^ m == a
  {
  }

  lemma MaskTwice(s: seq<Byte>, key: seq<Byte>)
    requires |key| == 4
    ensures Mask(Mask(s, key), key) == s
  {
    forall i | 0 <= i < |s|
      ensures Mask(Mask(s, key), key)[i] == s[i]
    {
      XorTwice(s[i], key[i % 4]);
    }
  }

  // ws_mask_payload on the n bytes of a from `at` on: octet i of the payload
  // meets octet i mod 4 of the key, and nothing else changes.
  method MaskPayload(a: array<Byte>, at: nat, n: nat, key: seq<Byte>)
    requires at + n <= a.Length && |key| == 4
    modifies a
    ensures forall j | 0 <= j < a.Length ::
              a[j] == if at <= j < at + n then old(a[j]) ^ key[(j - at) % 4] else old(a[j])
    ensures a[..] == Over(old(a[..]), at, Mask(old(a[at..at + n]), key))
  {
    var i := 0;
    while i < n
      invariant 0 <= i <= n
      invariant forall j | 0 <= j < a.Length :: a[j] == if at <= j < at + i then old(a[j]) ^ key[(j - at) % 4] else old(a[j])
    {
      a[at + i] := a[at + i] ^ key[i % 4];
      i := i + 1;
    }
  }

  // ---------- the header, section 5.2 ----------

  // Bytes of extended length for a 7-bit length field.
  function Extra(len7: Byte): (k: nat)
    ensures k == 0 || k == 2 || k == 8
  {
    if len7 == 126 then 2 else if len7 == 127 then 8 else 0
  }

  // Size of the header that s begins with.
  function Needs(s: seq<Byte>): (n: nat)
    requires |s| >= 2
    ensures 2 <= n <= 14
  {
    2 + Extra(s[1] & 0x7F) + if s[1] >> 7 == 1 then 4 else 0
  }

  ghost predicate Whole(s: seq<Byte>) {
    |s| >= 2 && |s| >= Needs(s)
  }

  ghost function Fields(s: seq<Byte>): Header
    requires Whole(s)
  {
    var len7, masked := s[1] & 0x7F, s[1] >> 7 == 1;
    var k := Extra(len7);
    Header(s[0] >> 7, (s[0] >> 4) & 7, s[0] & 0x0F, masked, len7,
           if k == 0 then len7 as nat else Value(s[2..2 + k]),
           if masked then s[2 + k..6 + k] else [])
  }

  // The two octets every frame starts with, bit by bit: FIN, three reserved
  // bits and the opcode; the mask bit and the 7-bit length.
  lemma FirstTwo(s: seq<Byte>)
    requires Whole(s)
    ensures var h := Fields(s);
            && h.fin <= 1 && h.rsv <= 7 && h.opcode <= 15 && h.len7 <= 127
            && s[0] == 128 * h.fin + 16 * h.rsv + h.opcode && s[1] == h.len7 + if h.masked then 128 else 0
  {
    hide Value;
    TwoHalves(s[0]);
    TopAndRest(s[1]);
  }

  lemma TwoHalves(b: Byte)
    ensures b >> 7 <= 1 && (b >> 4) & 7 <= 7 && b & 0x0F <= 15
    ensures b == 128 * (b >> 7) + 16 * ((b >> 4) & 7) + (b & 0x0F)
  {
  }

  lemma TopAndRest(b: Byte)
    ensures b & 0x7F <= 127 && b == (b & 0x7F) + if b >> 7 == 1 then 128 else 0
  {
  }

  method ParseFrameHeader(data: seq<Byte>) returns (size: int, header: Header)
    ensures size == if Whole(data) then Needs(data) else -1
    ensures Whole(data) ==> header == Fields(data)
  {
    header := Header(0, 0, 0, false, 0, 0, []);
    if |data| < 2 {
      return -1, header;
    }
    header := header.(fin := data[0] >> 7, rsv := (data[0] >> 4) & 7, opcode := data[0] & 0x0F);
    header := header.(masked := data[1] >> 7 == 1, len7 := data[1] & 0x7F);
    var headerSize := 2;
    if header.len7 == 126 {
      if |data| < 4 {
        return -1, header;
      }
      header := header.(length := Value(data[2..4]));
      headerSize := headerSize + 2;
    } else if header.len7 == 127 {
      if |data| < 10 {
        return -1, header;
      }
      header := header.(length := Value(data[2..10]));
      headerSize := headerSize + 8;
    } else {
      header := header.(length := header.len7 as nat);
    }
    if header.masked {
      if |data| < headerSize + 4 {
        return -1, header;
      }
      header := header.(key := data[headerSize..headerSize + 4]);
      headerSize := headerSize + 4;
    }
    size := headerSize;
  }

  // ---------- building ----------

  function Len7(n: nat): Byte {
    if n <= 125 then ToByte(n) else if n <= 0xFFFF then 126 else 127
  }

  lemma Len7Is(n: nat)
    ensures Len7(n) & 0x80 == 0 && Len7(n) & 0x7F == Len7(n)
    ensures n <= 125 ==> Len7(n) as nat == n && Len7(n) <= 125
    ensures Extra(Len7(n)) == if n <= 125 then 0 else if n <= 0xFFFF then 2 else 8
  {
    if n <= 125 {
      ByteValue(n);
      SmallByte(n);
    }
  }

  lemma SmallByte(n: nat)
    requires n <= 125
    ensures ToByte(n) <= 125
  {
  }

  lemma SetTop(b: Byte)
    requires b & 0x80 == 0
    ensures (b | 0x80) >> 7 == 1 && (b | 0x80) & 0x7F == b && b >> 7 == 0 && b & 0x7F == b
  {
  }

  lemma FirstByte(opcode: Byte)
    ensures var b := 0x80 | (opcode & 0x0F); b >> 7 == 1 && (b >> 4) & 7 == 0 && b & 0x0F == opcode & 0x0F
  {
  }

  // Whole frames on the wire.
  function Head(opcode: Byte, n: nat, masked: bool, key: seq<Byte>): (h: seq<Byte>)
    requires |key| == 4
    ensures |h| == 2 + (if n <= 125 then 0 else if n <= 0xFFFF then 2 else 8) + if masked then 4 else 0
  {
    var len7 := Len7(n);
    [0x80 | (opcode & 0x0F), if masked then 0x80 | len7 else len7]
    + (if n <= 125 then [] else if n <= 0xFFFF then Big(n, 2) else Big(n, 8))
    + if masked then key else []
  }

  function Frame(opcode: Byte, data: seq<Byte>, masked: bool, key: seq<Byte>): seq<Byte>
    requires |key| == 4
  {
    Head(opcode, |data|, masked, key) + if masked then Mask(data, key) else data
  }

  lemma HeadAt(opcode: Byte, n: nat, masked: bool, key: seq<Byte>, rest: seq<Byte>)
    requires |key| == 4
    ensures var s, k := Head(opcode, n, masked, key) + rest, if n <= 125 then 0 else if n <= 0xFFFF then 2 else 8;
      && |s| >= 2 + k + (if masked then 4 else 0)
      && s[0] == 0x80 | (opcode & 0x0F) && s[1] == (if masked then 0x80 | Len7(n) else Len7(n))
      && (k > 0 ==> s[2..2 + k] == Big(n, k)) && (masked ==> s[2 + k..6 + k] == key)
  {
    hide Len7, Big;
    var two := [0x80 | (opcode & 0x0F), if masked then 0x80 | Len7(n) else Len7(n)];
    var ext := if n <= 125 then [] else if n <= 0xFFFF then Big(n, 2) else Big(n, 8);
    var tail := (if masked then key else []) + rest;
    assert Head(opcode, n, masked, key) + rest == two + ext + tail;
    assert masked ==> tail[..4] == key;
  }

  lemma SecondByte(n: nat, masked: bool)
    ensures var b := if masked then 0x80 | Len7(n) else Len7(n); b & 0x7F == Len7(n) && (b >> 7 == 1 <==> masked)
  {
    Len7Is(n);
    hide Len7;
    SetTop(Len7(n));
    assert 0x80 | Len7(n) == Len7(n) | 0x80;
  }

  // ws_build_frame: -1 when the frame does not fit, and then nothing is
  // written; otherwise the frame and nothing beyond it.  The size comes back
  // as a 32-bit integer, which holds it if and only if it is below 2^31.
  method BuildFrame(buffer: array<Byte>, opcode: Byte, data: seq<Byte>, masked: bool, key: seq<Byte>) returns (r: int)
    requires |key| == 4
    modifies buffer
    ensures var size := |Frame(opcode, data, masked, key)|;
            if size > buffer.Length then r == -1 && buffer[..] == old(buffer[..])
            else
              && buffer[..] == Over(old(buffer[..]), 0, Frame(opcode, data, masked, key))
              && r == ToInt32(size) && (r == size <==> size <= MAX_INT)
  {
    hide Over, Mask, Head, ToInt32, Big, Len7;
    var n := |data|;
    var headerSize := 2;
    if n <= 125 {
      if buffer.Length < 2 {
        return -1;
      }
    } else if n <= 0xFFFF {
      if buffer.Length < 4 {
        return -1;
      }
      headerSize := headerSize + 2;
    } else {
      if buffer.Length < 10 {
        return -1;
      }
      headerSize := headerSize + 8;
    }
    if masked {
      headerSize := headerSize + 4;
    }
    if buffer.Length < headerSize + n {
      return -1;
    }
    WriteHead(buffer, opcode, n, masked, key);
    ghost var head, was := Head(opcode, n, masked, key), old(buffer[..]);
    if masked {
      Copy(buffer, headerSize, data);
      OverOver(was, 0, head, data);
      Laid(was, head, data);
      MaskPayload(buffer, headerSize, n, key);
      OverTwice(was, head, data, Mask(data, key));
    } else {
      Copy(buffer, headerSize, data);
      OverOver(was, 0, head, data);
    }
    r := ToInt32(headerSize + n);
  }

  lemma Laid(s: seq<Byte>, a: seq<Byte>, b: seq<Byte>)
    requires |a| + |b| <= |s|
    ensures Over(s, 0, a + b)[|a|..|a| + |b|] == b
  {
  }

  lemma OverTwice(s: seq<Byte>, a: seq<Byte>, b: seq<Byte>, c: seq<Byte>)
    requires |a| + |b| <= |s| && |b| == |c|
    ensures Over(Over(s, 0, a + b), |a|, c) == Over(s, 0, a + c)
  {
    var t, u := Over(Over(s, 0, a + b), |a|, c), Over(s, 0, a + c);
    assert forall k | 0 <= k < |s| :: t[k] == u[k];
  }

  // The header part of ws_build_frame.
  method WriteHead(buffer: array<Byte>, opcode: Byte, n: nat, masked: bool, key: seq<Byte>)
    requires |key| == 4 && |Head(opcode, n, masked, key)| <= buffer.Length
    modifies buffer
    ensures buffer[..] == Over(old(buffer[..]), 0, Head(opcode, n, masked, key))
  {
    ghost var was := buffer[..];
    WriteFirstTwo(buffer, opcode, n, masked);
    ghost var two := [0x80 | (opcode & 0x0F), if masked then 0x80 | Len7(n) else Len7(n)];
    hide Over;
    var headerSize := 2;
    ghost var ext := [];
    if n > 125 {
      var big := if n <= 0xFFFF then Big(n, 2) else Big(n, 8);
      Copy(buffer, 2, big);
      OverOver(was, 0, two, big);
      ext := big;
      headerSize := headerSize + |big|;
    }
    assert two + ext + [] == two + ext && two + [] == two;
    if masked {
      Copy(buffer, headerSize, key);
      OverOver(was, 0, two + ext, key);
    }
  }

  method WriteFirstTwo(buffer: array<Byte>, opcode: Byte, n: nat, masked: bool)
    requires 2 <= buffer.Length
    modifies buffer
    ensures buffer[..] == Over(old(buffer[..]), 0, [0x80 | (opcode & 0x0F), if masked then 0x80 | Len7(n) else Len7(n)])
  {
    TopBits();
    buffer[0] := 0x80 | (opcode & 0x0F);
    if n <= 125 {
      buffer[1] := if masked then 0x80 | ToByte(n) else ToByte(n);
    } else if n <= 0xFFFF {
      buffer[1] := if masked then 0xFE else 0x7E;
    } else {
      buffer[1] := if masked then 0xFF else 0x7F;
    }
    assert buffer[1] == if masked then 0x80 | Len7(n) else Len7(n);
  }

  lemma TopBits()
    ensures 0x80 | (126 as Byte) == 0xFE && 0x80 | (127 as Byte) == 0xFF
  {
  }

  // Parsing any built frame, whatever follows it, finds FIN, no reserved bit
  // and the opcode, mask bit, key and length it was built with, in all three
  // length classes.
  lemma ParseBuilt(opcode: Byte, n: nat, masked: bool, key: seq<Byte>, rest: seq<Byte>)
    requires |key| == 4 && n < W64
    ensures var s := Head(opcode, n, masked, key) + rest;
      && Whole(s) && Needs(s) == |Head(opcode, n, masked, key)|
      && Fields(s) == Header(1, 0, opcode & 0x0F, masked, Len7(n), n, if masked then key else [])
  {
    Len7Is(n);
    SecondByte(n, masked);
    FirstByte(opcode);
    HeadAt(opcode, n, masked, key, rest);
    var k := Extra(Len7(n));
    if k > 0 {
      Powers();
      ValueBig(n, k);
    }
    hide Head, Len7, Extra, Value, Big, Power;
  }

  // ---------- the server loop ----------

  // A frame head or payload is cut off.
  ghost predicate Cut(s: seq<Byte>) {
    Whole(s) ==> Needs(s) + Fields(s).length > |s|
  }

  ghost function Payload(s: seq<Byte>): seq<Byte>
    requires !Cut(s)
  {
    var h, n := Fields(s), Needs(s);
    var payload := s[n..n + h.length];
    if h.masked then Mask(payload, h.key) else payload
  }

  // The messages the loop delivers from s.
  ghost function Split(s: seq<Byte>): (ms: seq<Message>)
    decreases |s|
  {
    if Cut(s) then [] else
      [Message(Fields(s).opcode, Payload(s))] + Split(s[Needs(s) + Fields(s).length..])
  }

  // What a whole frame at the front delivers, in the octets received: a masked
  // one has its key in the last four octets of the header, and octet i of the
  // payload is exclusive-ored with octet i mod 4 of the key.
  lemma FirstMessage(s: seq<Byte>)
    requires !Cut(s)
    ensures var n, m := Needs(s), Split(s)[0];
            && n + |m.payload| <= |s| && m.opcode == s[0] & 0x0F && |m.payload| == Fields(s).length
            && forall i | 0 <= i < |m.payload| ::
                 m.payload[i] == if s[1] >> 7 == 1 then s[n + i] ^ s[n - 4 + i % 4] else s[n + i]
  {
    hide Split, Fields, Needs, Mask;
    SplitTurn(s);
    KeyPlace(s);
    var h, n := Fields(s), Needs(s);
    forall i | 0 <= i < h.length
      ensures Payload(s)[i] == if s[1] >> 7 == 1 then s[n + i] ^ s[n - 4 + i % 4] else s[n + i]
    {
      if h.masked {
        MaskAt(s[n..n + h.length], h.key, i);
        assert h.key[i % 4] == s[n - 4 + i % 4];
      }
    }
  }

  // The key is the last four octets of the header.
  lemma KeyPlace(s: seq<Byte>)
    requires Whole(s)
    ensures Fields(s).opcode == s[0] & 0x0F && (Fields(s).masked <==> s[1] >> 7 == 1)
    ensures Fields(s).masked ==> Needs(s) >= 6 && Fields(s).key == s[Needs(s) - 4..Needs(s)]
  {
    hide Value;
  }

  lemma MaskAt(s: seq<Byte>, key: seq<Byte>, i: nat)
    requires |key| == 4 && i < |s|
    ensures Mask(s, key)[i] == s[i] ^ key[i % 4]
  {
  }

  datatype Outgoing = Outgoing(opcode: Byte, data: seq<Byte>, masked: bool, key: seq<Byte>)

  ghost predicate Sendable(f: Outgoing) {
    |f.key| == 4 && |f.data| < W64
  }

  ghost function Wire(fs: seq<Outgoing>): seq<Byte>
    requires forall i | 0 <= i < |fs| :: Sendable(fs[i])
  {
    if fs == [] then [] else
      assert Sendable(fs[0]);
      Frame(fs[0].opcode, fs[0].data, fs[0].masked, fs[0].key) + Wire(fs[1..])
  }

  ghost function Messages(fs: seq<Outgoing>): seq<Message> {
    seq(|fs|, i requires 0 <= i < |fs| => Message(fs[i].opcode & 0x0F, fs[i].data))
  }

  // One turn of the loop on what is left.
  lemma SplitTurn(s: seq<Byte>)
    ensures Cut(s) ==> Split(s) == []
    ensures !Cut(s) ==> Whole(s) && Needs(s) + Fields(s).length <= |s| && |Fields(s).key| == (if Fields(s).masked then 4 else 0)
    ensures !Cut(s) ==> Split(s) == [Message(Fields(s).opcode, Payload(s))] + Split(s[Needs(s) + Fields(s).length..])
  {
  }

  lemma FrameParts(f: Outgoing, rest: seq<Byte>)
    requires Sendable(f)
    ensures var s, head := Frame(f.opcode, f.data, f.masked, f.key) + rest, Head(f.opcode, |f.data|, f.masked, f.key);
      var body := if f.masked then Mask(f.data, f.key) else f.data;
      && |s| >= |head| + |body| && s == head + (body + rest)
      && s[|head|..|head| + |body|] == body && s[|head| + |body|..] == rest
  {
    hide Head, Mask;
  }

  lemma SplitOne(f: Outgoing, rest: seq<Byte>)
    requires Sendable(f)
    ensures Split(Frame(f.opcode, f.data, f.masked, f.key) + rest) == [Message(f.opcode & 0x0F, f.data)] + Split(rest)
  {
    var body := if f.masked then Mask(f.data, f.key) else f.data;
    var s := Frame(f.opcode, f.data, f.masked, f.key) + rest;
    FrameParts(f, rest);
    ParseBuilt(f.opcode, |f.data|, f.masked, f.key, body + rest);
    MaskTwice(f.data, f.key);
    SplitTurn(s);
    hide Head, Fields, Needs, Mask, Split, Frame;
  }

  lemma WireCons(fs: seq<Outgoing>, tail: seq<Byte>)
    requires (forall i | 0 <= i < |fs| :: Sendable(fs[i])) && fs != []
    ensures Sendable(fs[0])
    ensures Wire(fs) + tail == Frame(fs[0].opcode, fs[0].data, fs[0].masked, fs[0].key) + (Wire(fs[1..]) + tail)
  {
    hide Frame;
  }

  lemma MessagesCons(fs: seq<Outgoing>)
    requires fs != []
    ensures Messages(fs) == [Message(fs[0].opcode & 0x0F, fs[0].data)] + Messages(fs[1..])
  {
  }

  // Whole frames, in any number and any mix of classes, come out as the
  // messages that went in, in order, and a frame that is cut off at the end
  // adds nothing.
  lemma {:induction false} SplitWire(fs: seq<Outgoing>, tail: seq<Byte>)
    requires (forall i | 0 <= i < |fs| :: Sendable(fs[i])) && Cut(tail)
    ensures Split(Wire(fs) + tail) == Messages(fs)
  {
    if fs == [] {
      assert Wire(fs) + tail == tail;
    } else {
      hide Split, Frame, Wire, Messages, Cut;
      WireCons(fs, tail);
      MessagesCons(fs);
      SplitOne(fs[0], Wire(fs[1..]) + tail);
      SplitWire(fs[1..], tail);
    }
  }

  // The payload, unmasked in place if need be; the rest of the buffer stays.
  method TakePayload(buffer: array<Byte>, pos: nat, header: Header) returns (payload: seq<Byte>)
    requires pos + header.length <= buffer.Length && (header.masked ==> |header.key| == 4)
    modifies buffer
    ensures payload == var p := old(buffer[pos..pos + header.length]); if header.masked then Mask(p, header.key) else p
    ensures buffer[..] == if header.masked then Over(old(buffer[..]), pos, payload) else old(buffer[..])
  {
    hide Mask, Over;
    if header.masked {
      ghost var b := buffer[..];
      MaskPayload(buffer, pos, header.length, header.key);
      OverAt(b, pos, Mask(old(buffer[pos..pos + header.length]), header.key));
    }
    payload := buffer[pos..pos + header.length];
  }

  // ---------- the loop, turn by turn ----------

  // What handle_client_message is called with: a payload that lies in the
  // buffer, or one that starts at position `at` and reaches past its end.
  datatype Delivery = Inside(message: Message) | Beyond(opcode: Byte, at: nat, length: nat)

  // Overrun: ws_mask_payload writes past the buffer, and what follows is not
  // said.
  datatype Status = Running | Ended | Overrun

  datatype Loop = Loop(buffer: seq<Byte>, pos: nat, out: seq<Delivery>, status: Status)

  lemma LengthFits(s: seq<Byte>)
    requires Whole(s)
    ensures Fields(s).length < W64
  {
    var k := Extra(s[1] & 0x7F);
    Powers();
    if k > 0 {
      ValueBound(s[2..2 + k]);
    }
  }

  // One turn of the loop: position plus length is taken modulo 2^64.
  ghost function Turn(l: Loop): (r: Loop)
    requires l.pos <= |l.buffer|
    ensures r.pos <= |r.buffer| == |l.buffer|
  {
    if l.status != Running then l
    else if !Whole(l.buffer[l.pos..]) then l.(status := Ended)
    else
      var s := l.buffer[l.pos..];
      var h, p := Fields(s), l.pos + Needs(s);
      if (p + h.length) % W64 > |l.buffer| then l.(pos := p, status := Ended)
      else if p + h.length <= |l.buffer| then
        var payload := Payload(s);
        Loop(if h.masked then Over(l.buffer, p, payload) else l.buffer, p + h.length,
             l.out + [Inside(Message(h.opcode, payload))], Running)
      else if h.masked then l.(pos := p, status := Overrun)
      else Loop(l.buffer, (p + h.length) % W64, l.out + [Beyond(h.opcode, p, h.length)], Running)
  }

  ghost function Run(l: Loop, turns: nat): (r: Loop)
    requires l.pos <= |l.buffer|
    ensures r.pos <= |r.buffer| == |l.buffer|
    decreases turns
  {
    if turns == 0 then l else Run(Turn(l), turns - 1)
  }

  ghost function Received(s: seq<Byte>): Loop {
    Loop(s, 0, [], Running)
  }

  lemma {:induction false} RunSum(l: Loop, a: nat, b: nat)
    requires l.pos <= |l.buffer|
    ensures Run(l, a + b) == Run(Run(l, a), b)
    decreases a
  {
    if a > 0 {
      RunSum(Turn(l), a - 1, b);
    }
  }

  lemma {:induction false} RunStays(l: Loop, turns: nat)
    requires l.pos <= |l.buffer| && l.status != Running
    ensures Run(l, turns) == l
    decreases turns
  {
    if turns > 0 {
      RunStays(l, turns - 1);
    }
  }

  lemma {:induction false} RunGrows(l: Loop, turns: nat)
    requires l.pos <= |l.buffer|
    ensures |l.out| <= |Run(l, turns).out|
    decreases turns
  {
    if turns > 0 {
      RunGrows(Turn(l), turns - 1);
    }
  }

  // From position pos on, s is left: a header is reached whose position plus
  // length is 2^64 or more.
  ghost predicate Wraps(s: seq<Byte>, pos: nat)
    decreases |s|
  {
    Whole(s) &&
    var end := Needs(s) + Fields(s).length;
    if end <= |s| then Wraps(s[end..], pos + end) else pos + end >= W64
  }

  ghost function Delivered(ms: seq<Message>): (ds: seq<Delivery>)
    ensures |ds| == |ms|
  {
    seq(|ms|, i requires 0 <= i < |ms| => Inside(ms[i]))
  }

  // A turn on a whole frame.
  lemma TurnFrame(l: Loop)
    requires l.pos <= |l.buffer| < W64 && l.status == Running && !Cut(l.buffer[l.pos..])
    ensures var s, r := l.buffer[l.pos..], Turn(l);
            && r.status == Running && r.buffer[r.pos..] == s[Needs(s) + Fields(s).length..]
            && r.pos == l.pos + Needs(s) + Fields(s).length
            && r.out == l.out + [Inside(Message(Fields(s).opcode, Payload(s)))]
  {
  }

  // A turn on a header whose payload is not all there: the test on position
  // plus length stops the loop unless the sum wraps, and then it always
  // passes.
  lemma TurnCut(l: Loop)
    requires l.pos <= |l.buffer| < W64 && l.status == Running && Cut(l.buffer[l.pos..])
    ensures var s, r := l.buffer[l.pos..], Turn(l);
            if !Wraps(s, l.pos) then r.status == Ended && r.out == l.out
            else if Fields(s).masked then r.status == Overrun
            else r.status == Running && r.out == l.out + [Beyond(Fields(s).opcode, l.pos + Needs(s), Fields(s).length)]
  {
    var s := l.buffer[l.pos..];
    if Whole(s) {
      LengthFits(s);
    }
  }

  lemma DeliveredCons(m: Message, ms: seq<Message>)
    ensures Delivered([m] + ms) == [Inside(m)] + Delivered(ms)
  {
  }

  // Without such a header the loop ends and has delivered the frames.
  lemma {:induction false} EndsWithSplit(l: Loop) returns (turns: nat)
    requires l.pos <= |l.buffer| < W64 && l.status == Running && !Wraps(l.buffer[l.pos..], l.pos)
    ensures Run(l, turns).status == Ended && Run(l, turns).out == l.out + Delivered(Split(l.buffer[l.pos..]))
    decreases |l.buffer| - l.pos
  {
    hide Turn, Fields, Needs, Payload;
    var s, r := l.buffer[l.pos..], Turn(l);
    SplitTurn(s);
    if Cut(s) {
      TurnCut(l);
      assert Run(l, 1) == Run(r, 0);
      turns := 1;
    } else {
      TurnFrame(l);
      var k := EndsWithSplit(r);
      DeliveredCons(Message(Fields(s).opcode, Payload(s)), Split(r.buffer[r.pos..]));
      assert Run(l, k + 1) == Run(r, k);
      turns := k + 1;
    }
  }

  // With one, if the loop ends at all, it has delivered more.
  lemma {:induction false} NeverJustSplit(l: Loop, turns: nat)
    requires l.pos <= |l.buffer| < W64 && l.status == Running && Wraps(l.buffer[l.pos..], l.pos)
    requires Run(l, turns).status == Ended
    ensures |Run(l, turns).out| > |l.out| + |Split(l.buffer[l.pos..])|
    decreases turns
  {
    hide Turn, Fields, Needs, Payload;
    var s, r := l.buffer[l.pos..], Turn(l);
    SplitTurn(s);
    if turns > 0 {
      if Cut(s) {
        TurnCut(l);
        RunGrows(r, turns - 1);
        if r.status == Overrun {
          RunStays(r, turns - 1);
        }
      } else {
        TurnFrame(l);
        NeverJustSplit(r, turns - 1);
      }
    }
  }

  // The loop on s ends, having delivered exactly the messages.
  ghost predicate Delivers(s: seq<Byte>, ms: seq<Message>) {
    exists turns :: Run(Received(s), turns).status == Ended && Run(Received(s), turns).out == Delivered(ms)
  }

  // On any bytes received the loop ends with their frames delivered if and
  // only if it reaches no header whose position plus length wraps.
  lemma DeliversSplit(s: seq<Byte>)
    requires |s| < W64
    ensures Delivers(s, Split(s)) <==> !Wraps(s, 0)
  {
    var l := Received(s);
    assert l.buffer[l.pos..] == s;
    if Wraps(s, 0) {
      forall turns | Run(l, turns).status == Ended
        ensures Run(l, turns).out != Delivered(Split(s))
      {
        NeverJustSplit(l, turns);
      }
    } else {
      var turns := EndsWithSplit(l);
      assert [] + Delivered(Split(s)) == Delivered(Split(s));
    }
  }

  // Where the tail of a wire begins, its header may still wrap.
  lemma {:induction false} WrapsWire(fs: seq<Outgoing>, tail: seq<Byte>, pos: nat)
    requires (forall i | 0 <= i < |fs| :: Sendable(fs[i])) && Cut(tail)
    ensures Wraps(Wire(fs) + tail, pos) <==> Wraps(tail, pos + |Wire(fs)|)
  {
    hide Frame, Cut, Wraps;
    if fs == [] {
      assert Wire(fs) + tail == tail;
    } else {
      hide Wire;
      WireCons(fs, tail);
      WireCons(fs, []);
      WrapsOne(fs[0], Wire(fs[1..]) + tail, pos);
      WrapsWire(fs[1..], tail, pos + |Frame(fs[0].opcode, fs[0].data, fs[0].masked, fs[0].key)|);
    }
  }

  lemma WrapsOne(f: Outgoing, rest: seq<Byte>, pos: nat)
    requires Sendable(f)
    ensures var frame := Frame(f.opcode, f.data, f.masked, f.key);
      Wraps(frame + rest, pos) <==> Wraps(rest, pos + |frame|)
  {
    var body := if f.masked then Mask(f.data, f.key) else f.data;
    FrameParts(f, rest);
    ParseBuilt(f.opcode, |f.data|, f.masked, f.key, body + rest);
    hide Head, Fields, Needs, Mask;
  }

  // Whole frames followed by a cut off one: the messages sent arrive, and
  // nothing else, if and only if the header of the last one does not wrap.
  lemma DeliversWire(fs: seq<Outgoing>, tail: seq<Byte>)
    requires (forall i | 0 <= i < |fs| :: Sendable(fs[i])) && Cut(tail) && |Wire(fs) + tail| < W64
    ensures Delivers(Wire(fs) + tail, Messages(fs)) <==> !Wraps(tail, |Wire(fs)|)
  {
    hide Wire, Split, Frame, Cut, Wraps, Messages, Delivers;
    SplitWire(fs, tail);
    WrapsWire(fs, tail, 0);
    DeliversSplit(Wire(fs) + tail);
  }

  // The example of section 5.7: a masked "Hello".
  const HELLO: seq<Byte> := [0x48, 0x65, 0x6C, 0x6C, 0x6F]
  const HELLO_KEY: seq<Byte> := [0x37, 0xFA, 0x21, 0x3D]
  const HELLO_FRAME: seq<Byte> := [0x81, 0x85, 0x37, 0xFA, 0x21, 0x3D, 0x7F, 0x9F, 0x4D, 0x51, 0x58]

  lemma HelloBuilt()
    ensures Frame(1, HELLO, true, HELLO_KEY) == HELLO_FRAME
  {
    var f := Frame(1, HELLO, true, HELLO_KEY);
    assert 0x80 | (1 & 0x0F as Byte) == 0x81 && 0x80 | (5 as Byte) == 0x85;
    assert 0x48 ^ (0x37 as Byte) == 0x7F && 0x65 ^ (0xFA as Byte) == 0x9F && 0x6C ^ (0x21 as Byte) == 0x4D;
    assert 0x6C ^ (0x3D as Byte) == 0x51 && 0x6F ^ (0x37 as Byte) == 0x58;
    assert f == HELLO_FRAME;
  }

  lemma HelloReceived()
    ensures Delivers(HELLO_FRAME, [Message(1, HELLO)])
  {
    var f := Outgoing(1, HELLO, true, HELLO_KEY);
    HelloBuilt();
    assert Wire([f][1..]) == [] && Wire([f]) == HELLO_FRAME + [] == HELLO_FRAME + Wire([f][1..]);
    assert Messages([f]) == [Message(1, HELLO)];
    hide Frame, Delivers, Wire, Messages;
    DeliversWire([f], []);
    assert HELLO_FRAME + [] == HELLO_FRAME;
  }

  // The heads of the two long examples there: 256 bytes, and 64 kilobytes, of
  // unmasked binary data.
  lemma LongHeads()
    ensures Head(2, 256, false, HELLO_KEY) == [0x82, 0x7E, 0x01, 0x00]
    ensures Head(2, 0x1_0000, false, HELLO_KEY) == [0x82, 0x7F, 0, 0, 0, 0, 0, 1, 0, 0]
  {
    assert 0x80 | (2 & 0x0F as Byte) == 0x82;
    BigZero(0);
    BigZero(5);
    assert Big(1, 1) == Big(0, 0) + [1] && Big(256, 2) == Big(1, 1) + [0];
    assert Big(1, 6) == Big(0, 5) + [1] && Big(256, 7) == Big(1, 6) + [0] && Big(0x1_0000, 8) == Big(256, 7) + [0];
  }

  lemma {:induction false} BigZero(k: nat)
    ensures Big(0, k) == seq(k, _ => 0)
  {
    if k > 0 {
      BigZero(k - 1);
    }
  }

  // An unmasked PONG of length 2^64 - 10.
  const ENDLESS: seq<Byte> := [0x8A, 0x7F, 0xFF, 0xFF, 0xFF, 0xFF, 0xFF, 0xFF, 0xFF, 0xF6]

  lemma EndlessHeader()
    ensures Whole(ENDLESS) && Needs(ENDLESS) == 10 && Fields(ENDLESS).length == W64 - 10 && !Fields(ENDLESS).masked
    ensures Fields(ENDLESS).opcode == 0x0A
  {
    ByteValue(0xFF);
    ByteValue(0xF6);
    assert ENDLESS[1] & 0x7F == 127 && ENDLESS[1] >> 7 == 0 && ENDLESS[0] & 0x0F == 0x0A;
    var b: seq<Byte> := [];
    assert Value(b) == 0;
    for i := 0 to 7
      invariant b == ENDLESS[2..2 + i] && Value(b) == Power(256, i) - 1
    {
      assert (b + [0xFF])[..i] == b;
      b := b + [0xFF];
    }
    assert (b + [0xF6])[..7] == b && ENDLESS[2..10] == b + [0xF6];
    Powers();
    assert Power(256, 8) == 256 * Power(256, 7);
  }

  lemma EndlessTurn(out: seq<Delivery>)
    ensures Turn(Loop(ENDLESS, 0, out, Running)) == Loop(ENDLESS, 0, out + [Beyond(0x0A, 10, W64 - 10)], Running)
  {
    EndlessHeader();
    hide Whole, Needs, Fields;
    assert ENDLESS[0..] == ENDLESS;
  }

  // Received once, it is handed out again and again, for ever.
  lemma {:induction false} Endless(turns: nat)
    ensures Run(Received(ENDLESS), turns) == Loop(ENDLESS, 0, seq(turns, i => Beyond(0x0A, 10, W64 - 10)), Running)
  {
    hide Turn;
    if turns > 0 {
      Endless(turns - 1);
      RunSum(Received(ENDLESS), turns - 1, 1);
      var l := Run(Received(ENDLESS), turns - 1);
      assert Run(l, 1) == Run(Turn(l), 0);
      EndlessTurn(l.out);
    }
  }

  lemma SliceOfSlice(b: seq<Byte>, p: nat, n: nat, i: nat, len: nat)
    requires p + i + len <= n <= |b|
    ensures b[p..n][i..i + len] == b[p + i..p + i + len]
  {
    var x, y := b[p..n][i..i + len], b[p + i..p + i + len];
    assert |x| == |y| && forall k | 0 <= k < len :: x[k] == b[p + (i + k)] == y[k];
  }

  // A whole frame at p, seen in the first n bytes of a larger buffer b.
  lemma WithinBuffer(b: seq<Byte>, n: nat, p: nat)
    requires p <= n <= |b| && !Cut(b[p..n])
    ensures var s := b[p..n];
      var at, h := p + Needs(s), Fields(s);
      && at + h.length <= n && (h.masked ==> |h.key| == 4)
      && Payload(s) == (if h.masked then Mask(b[at..at + h.length], h.key) else b[at..at + h.length])
      && Over(b, at, Payload(s))[..n] == Over(b[..n], at, Payload(s))
      && Over(b, at, Payload(s))[n..] == b[n..]
  {
    hide Mask, Over, Needs, Fields, Split, Whole;
    var s := b[p..n];
    SplitTurn(s);
    SliceOfSlice(b, p, n, Needs(s), Fields(s).length);
    OverWithin(b, n, p + Needs(s), Payload(s));
  }

  // The body of that loop, and the test that leads to it.
  method ClientTurn(buffer: array<Byte>, n: nat, p: nat, sent: seq<Delivery>)
    returns (pos: nat, out: seq<Delivery>, status: Status)
    requires p <= n <= buffer.Length && n < W64
    modifies buffer
    ensures Loop(buffer[..n], pos, out, status) == Turn(old(Loop(buffer[..n], p, sent, Running)))
    ensures buffer[n..] == old(buffer[n..])
  {
    hide Fields, Needs, Mask, Over, Payload;
    pos, out := p, sent;
    ghost var b := buffer[..];
    ghost var s := b[p..n];
    assert buffer[..n][p..] == s == buffer[p..n];
    if pos >= n {
      return pos, out, Ended;
    }
    var headerSize, header := ParseFrameHeader(buffer[pos..n]);
    if headerSize < 0 {
      return pos, out, Ended;
    }
    pos := pos + headerSize;
    if (pos + header.length) % W64 > n {
      return pos, out, Ended;
    }
    LengthFits(s);
    status := Running;
    if pos + header.length <= n {
      WithinBuffer(b, n, p);
      var payload := TakePayload(buffer, pos, header);
      out := out + [Inside(Message(header.opcode, payload))];
    } else if header.masked {
      return pos, out, Overrun;
    } else {
      out := out + [Beyond(header.opcode, pos, header.length)];
    }
    pos := (pos + header.length) % W64;
  }

  // The inner loop of client_thread on the first n bytes of the buffer, for
  // as many turns as are given.
  method ClientLoop(buffer: array<Byte>, n: nat, turns: nat)
    returns (pos: nat, out: seq<Delivery>, status: Status)
    requires n <= buffer.Length && n < W64
    modifies buffer
    ensures Loop(buffer[..n], pos, out, status) == Run(Received(old(buffer[..n])), turns)
    ensures buffer[n..] == old(buffer[n..])
  {
    hide Turn;
    pos, out, status := 0, [], Running;
    ghost var start := Received(buffer[..n]);
    var done := 0;
    while done < turns && status == Running
      invariant done <= turns && pos <= n
      invariant Loop(buffer[..n], pos, out, status) == Run(start, done)
      invariant buffer[n..] == old(buffer[n..])
      decreases turns - done
    {
      ghost var l := Run(start, done);
      RunSum(start, done, 1);
      assert Run(l, 1) == Run(Turn(l), 0);
      pos, out, status := ClientTurn(buffer, n, pos, out);
      done := done + 1;
    }
    RunSum(start, done, turns - done);
    if done < turns {
      RunStays(Run(start, done), turns - done);
    }
  }
}
