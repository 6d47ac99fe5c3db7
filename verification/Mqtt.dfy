// MQTT remaining-length encoding and the CONNECT packet
// (src/mqtt_protocol.c).  Section numbers are those of MQTT Version 3.1.1.
module Mqtt {
  import opened Widths
  import opened Common
  import opened Bytes

  const ERR_PROTOCOL := -2
  const LIMIT := 0x1000_0000      // 128^4

  // ---------- remaining length, section 2.2.3 ----------

  // Seven bits a byte, least significant first, top bit set while more follow.
  function VarInt(n: nat): (s: seq<Byte>)
    ensures |s| >= 1
  {
    if n < 128 then [ToByte(n)] else [ToByte(n % 128) | 0x80] + VarInt(n / 128)
  }

  lemma {:induction false} VarIntBound(n: nat, k: nat)
    requires k >= 1
    ensures |VarInt(n)| <= k <==> n < Power(128, k)
  {
    assert Power(128, k) == 128 * Power(128, k - 1);
    if n >= 128 {
      if k == 1 {
        assert Power(128, 0) == 1;
      } else {
        VarIntBound(n / 128, k - 1);
      }
    }
  }

  lemma VarIntSize(n: nat)
    requires n < W32
    ensures |VarInt(n)| <= 5 && (|VarInt(n)| <= 4 <==> n < LIMIT)
  {
    VarIntBound(n, 4);
    VarIntBound(n, 5);
    hide VarInt;
    assert Power(128, 2) == 128 * Power(128, 1) && Power(128, 1) == 128 * Power(128, 0);
    assert Power(128, 5) == 128 * Power(128, 4) && Power(128, 4) == 128 * Power(128, 3) && Power(128, 3) == 128 * Power(128, 2);
  }

  // mqtt_encode_remaining_length at position `at` of buf.
  method EncodeLength(buf: array<Byte>, at: nat, n: nat) returns (encoded: nat)
    requires at + |VarInt(n)| <= buf.Length
    modifies buf
    ensures encoded == |VarInt(n)| && buf[..] == Over(old(buf[..]), at, VarInt(n))
  {
    encoded := 0;
    var length := n;
    ghost var was, done := buf[..], [];
    hide Over, ToByte, VarInt;
    OverNothing(was, at);
    while true
      invariant encoded == |done| && done + VarInt(length) == VarInt(n)
      invariant buf[..] == Over(was, at, done)
      decreases length
    {
      VarIntNext(length);
      ghost var rest := VarInt(length);
      var digit := ToByte(length % 128);
      length := length / 128;
      if length > 0 {
        digit := digit | 0x80;
      }
      PutByte(buf, at + encoded, digit);
      OverOver(was, at, done, [digit]);
      HeadFirst(done, rest);
      done := done + [digit];
      encoded := encoded + 1;
      if length == 0 {
        assert done + [] == done;
        break;
      }
    }
  }

  lemma HeadFirst(a: seq<Byte>, b: seq<Byte>)
    requires b != []
    ensures a + b == a + [b[0]] + b[1..]
  {
  }

  lemma VarIntNext(n: nat)
    ensures VarInt(n)[0] == if n / 128 > 0 then ToByte(n % 128) | 0x80 else ToByte(n % 128)
    ensures VarInt(n)[1..] == if n / 128 > 0 then VarInt(n / 128) else []
  {
  }

  method PutByte(buf: array<Byte>, at: nat, b: Byte)
    requires at < buf.Length
    modifies buf
    ensures buf[..] == Over(old(buf[..]), at, [b])
  {
    buf[at] := b;
  }

  // Bytes up to and including the first whose top bit is clear; more than
  // |s| if there is none.
  ghost function VarLen(s: seq<Byte>): (k: nat)
    ensures 1 <= k <= |s| + 1
    ensures forall i | 0 <= i < k - 1 :: s[i] & 0x80 != 0
    ensures k <= |s| ==> s[k - 1] & 0x80 == 0
  {
    if s == [] || s[0] & 0x80 == 0 then 1 else 1 + VarLen(s[1..])
  }

  function Seven(b: Byte): (d: nat)
    ensures d < 128
  {
    SevenBits(b);
    (b & 0x7F) as nat
  }

  lemma SevenBits(b: Byte)
    ensures (b & 0x7F) as nat < 128
  {
  }

  ghost function Digits(s: seq<Byte>): nat {
    if s == [] then 0 else Seven(s[0]) + 128 * Digits(s[1..])
  }

  lemma {:induction false} DigitsAppend(s: seq<Byte>, b: Byte)
    ensures Digits(s + [b]) == Digits(s) + Seven(b) * Power(128, |s|)
  {
    if s != [] {
      assert (s + [b])[1..] == s[1..] + [b];
      DigitsAppend(s[1..], b);
      Distribute(Digits(s[1..]), Power(128, |s| - 1), Seven(b));
    }
  }

  lemma Distribute(a: nat, p: nat, d: nat)
    ensures 128 * (a + d * p) == 128 * a + d * (128 * p)
  {
  }

  lemma DigitsNext(s: seq<Byte>, k: nat)
    requires k < |s|
    ensures Digits(s[..k + 1]) == Digits(s[..k]) + Seven(s[k]) * Power(128, k)
  {
    hide *;
    DigitsAppend(s[..k], s[k]);
    assert s[..k + 1] == s[..k] + [s[k]];
  }

  lemma VarLenNext(s: seq<Byte>, k: nat)
    requires k < |s| && k < VarLen(s)
    ensures if s[k] & 128 == 0 then VarLen(s) == k + 1 else VarLen(s) > k + 1
  {
    var n := VarLen(s);
    hide VarLen;
    assert k < n - 1 ==> s[k] & 0x80 != 0;
  }

  lemma PowerNext(b: nat, k: nat)
    ensures Power(b, k + 1) == Power(b, k) * b
  {
  }

  // mqtt_decode_remaining_length; the caller has four bytes or a last one.
  method DecodeLength(buf: seq<Byte>) returns (decoded: int, value: nat)
    requires |buf| >= 4 || VarLen(buf) <= |buf|
    ensures decoded == if VarLen(buf) <= 4 then VarLen(buf) else ERR_PROTOCOL
    ensures VarLen(buf) <= 4 ==> value == Digits(buf[..VarLen(buf)])
  {
    decoded := 0;
    var multiplier := 1;
    value := 0;
    assert Power(128, 0) == 1;
    hide Digits, Power, VarLen, Seven;
    while true
      invariant 0 <= decoded <= 4 && decoded < VarLen(buf) && decoded <= |buf|
      invariant multiplier == Power(128, decoded) && value == Digits(buf[..decoded])
      decreases 4 - decoded
    {
      if decoded >= 4 {
        return ERR_PROTOCOL, 0;
      }
      var digit := buf[decoded];
      DigitsNext(buf, decoded);
      VarLenNext(buf, decoded);
      PowerNext(128, decoded);
      decoded := decoded + 1;
      value := value + Seven(digit) * multiplier;
      multiplier := multiplier * 128;
      if digit & 128 == 0 {
        return;
      }
    }
  }

  lemma DigitByte(d: nat)
    requires d < 128
    ensures ToByte(d) & 0x80 == 0 && Seven(ToByte(d)) == d
    ensures (ToByte(d) | 0x80) & 0x80 != 0 && Seven(ToByte(d) | 0x80) == d
  {
    SmallByte(d);
    ByteValue(d);
    TopBit(ToByte(d));
  }

  lemma SmallByte(d: nat)
    requires d < 128
    ensures ToByte(d) & 0x80 == 0
  {
  }

  lemma TopBit(b: Byte)
    requires b & 0x80 == 0
    ensures b & 0x7F == b && (b | 0x80) & 0x80 != 0 && (b | 0x80) & 0x7F == b
  {
  }

  lemma VarLenCons(b: Byte, s: seq<Byte>)
    ensures VarLen([b] + s) == if b & 0x80 == 0 then 1 else 1 + VarLen(s)
    ensures Digits([b] + s) == Seven(b) + 128 * Digits(s)
  {
    assert ([b] + s)[1..] == s;
  }

  // Decoding an encoding finds the number and its size, whatever follows.
  lemma {:induction false} VarIntDecodes(n: nat, rest: seq<Byte>)
    ensures VarLen(VarInt(n) + rest) == |VarInt(n)| && Digits(VarInt(n)) == n
    ensures (VarInt(n) + rest)[..|VarInt(n)|] == VarInt(n)
  {
    var s := VarInt(n);
    VarIntNext(n);
    DigitByte(n % 128);
    hide VarInt, ToByte, Seven, VarLen, Digits;
    var more := s[1..];
    assert s == [s[0]] + more && s + rest == [s[0]] + (more + rest);
    VarLenCons(s[0], more + rest);
    VarLenCons(s[0], more);
    if n >= 128 {
      VarIntDecodes(n / 128, rest);
    } else {
      NoDigits();
    }
    assert (s + rest)[..|s|] == s;
  }

  lemma NoDigits()
    ensures Digits([]) == 0
  {
  }

  // So below 128^4 the two undo each other, and above it the encoding is
  // refused.
  lemma LengthRoundTrip(n: nat, rest: seq<Byte>)
    requires n < W32
    ensures var s := VarInt(n) + rest;
      && (n < LIMIT <==> VarLen(s) <= 4)
      && (n < LIMIT ==> VarLen(s) == |VarInt(n)| && Digits(s[..VarLen(s)]) == n)
  {
    VarIntSize(n);
    VarIntDecodes(n, rest);
  }

  // No encoding of a number is shorter than the one produced.
  lemma {:induction false} VarIntShortest(s: seq<Byte>)
    requires s != []
    ensures |VarInt(Digits(s))| <= |s|
  {
    var n := Digits(s);
    if n >= 128 {
      assert n / 128 == Digits(s[1..]);
      VarIntShortest(s[1..]);
    }
  }
}
