// The UTF-8 writer inside parse_string (src/cjson.c), against section 3 of
// RFC 3629, and the surrogate pairs of section 7 of RFC 8259.
module Utf8 {
  import opened Bytes

  type Code = bv32

  ghost predicate Surrogate(uc: Code) {
    0xD800 <= uc <= 0xDFFF
  }

  // Code points that have a UTF-8 form.
  ghost predicate Scalar(uc: Code) {
    uc <= 0x10FFFF && !Surrogate(uc)
  }

  function Size(uc: Code): (n: nat)
    ensures 1 <= n <= 4
  {
    if uc < 0x80 then 1 else if uc < 0x800 then 2 else if uc < 0x10000 then 3 else 4
  }

  // firstByteMark
  function Mark(n: nat): Code
    requires 1 <= n <= 4
  {
    if n == 1 then 0 else if n == 2 then 0xC0 else if n == 3 then 0xE0 else 0xF0
  }

  function Low(uc: Code): Byte {
    (uc & 0xFF) as Byte
  }

  function Continuation(uc: Code): Byte {
    Low((uc | 0x80) & 0xBF)
  }

  // The bytes the source stores, last one first.
  function Encode(uc: Code): (s: seq<Byte>)
    ensures |s| == Size(uc)
  {
    var n := Size(uc);
    if n == 1 then [Low(uc | Mark(1))]
    else if n == 2 then [Low((uc >> 6) | Mark(2)), Continuation(uc)]
    else if n == 3 then [Low((uc >> 12) | Mark(3)), Continuation(uc >> 6), Continuation(uc)]
    else [Low((uc >> 18) | Mark(4)), Continuation(uc >> 12), Continuation(uc >> 6), Continuation(uc)]
  }

  // ---------- the table of section 3 ----------

  function Wide(b: Byte): Code {
    b as Code
  }

  ghost predicate Tail(b: Byte) {
    b & 0xC0 == 0x80
  }

  // Six more bits from a continuation byte.
  function Join(uc: Code, b: Byte): Code {
    (uc << 6) | Wide(b & 0x3F)
  }

  // The code point a UTF-8 sequence stands for, if it is one: the leading
  // byte gives the length, and no longer form than needed is allowed.
  ghost predicate Denotes(s: seq<Byte>, uc: Code) {
    && Scalar(uc)
    && (|s| == 1 ==> s[0] & 0x80 == 0 && uc == Wide(s[0]))
    && (|s| == 2 ==> s[0] & 0xE0 == 0xC0 && Tail(s[1]) && 0x80 <= uc && uc == Join(Wide(s[0] & 0x1F), s[1]))
    && (|s| == 3 ==>
      (s[0] & 0xF0 == 0xE0 && Tail(s[1]) && Tail(s[2]) && 0x800 <= uc && uc == Join(Join(Wide(s[0] & 0x0F), s[1]), s[2])))
    && (|s| == 4 ==>
      (s[0] & 0xF8 == 0xF0 && Tail(s[1]) && Tail(s[2]) && Tail(s[3]) && 0x10000 <= uc
       && uc == Join(Join(Join(Wide(s[0] & 0x07), s[1]), s[2]), s[3])))
    && 1 <= |s| <= 4
  }

  // A whole string in UTF-8, without the character U+0000.
  ghost predicate Utf8String(s: seq<Byte>)
    decreases |s|
  {
    s == [] || exists n: nat, uc: Code :: 1 <= n <= |s| && uc != 0 && Denotes(s[..n], uc) && Utf8String(s[n..])
  }

  lemma ContinuationBits(uc: Code)
    ensures Tail(Continuation(uc)) && Wide(Continuation(uc) & 0x3F) == uc & 0x3F
  {
  }

  lemma LeadBits(x: Code)
    ensures x < 0x80 ==> Low(x) & 0x80 == 0 && Wide(Low(x)) == x
    ensures x < 0x20 ==> Low(x | 0xC0) & 0xE0 == 0xC0 && Wide(Low(x | 0xC0) & 0x1F) == x
    ensures x < 0x10 ==> Low(x | 0xE0) & 0xF0 == 0xE0 && Wide(Low(x | 0xE0) & 0x0F) == x
    ensures x < 0x08 ==> Low(x | 0xF0) & 0xF8 == 0xF0 && Wide(Low(x | 0xF0) & 0x07) == x
  {
  }

  lemma Shifts(uc: Code)
    ensures ((uc >> 6) << 6) | (uc & 0x3F) == uc
    ensures (uc >> 6) >> 6 == uc >> 12 && (uc >> 12) >> 6 == uc >> 18
    ensures uc < 0x800 ==> uc >> 6 < 0x20
    ensures uc < 0x10000 ==> uc >> 12 < 0x10
    ensures uc <= 0x10FFFF ==> uc >> 18 < 0x08
  {
  }

  // Putting back six bits undoes the shift.
  lemma JoinShift(uc: Code)
    ensures Join(uc >> 6, Continuation(uc)) == uc && Tail(Continuation(uc))
  {
    ContinuationBits(uc);
    Shifts(uc);
    hide Continuation;
  }

  lemma EncodeCorrect(uc: Code)
    requires Scalar(uc)
    ensures Denotes(Encode(uc), uc)
  {
    Shifts(uc);
    LeadBits(uc);
    LeadBits(uc >> 6);
    LeadBits(uc >> 12);
    LeadBits(uc >> 18);
    JoinShift(uc);
    JoinShift(uc >> 6);
    JoinShift(uc >> 12);
    OrZero(uc);
    hide Low, Continuation, Join, Tail, Wide;
  }

  lemma OrZero(uc: Code)
    ensures uc | 0 == uc
  {
  }

  // ---------- surrogate pairs ----------

  function Combine(hi: Code, lo: Code): Code {
    0x10000 + (((hi & 0x3FF) << 10) | (lo & 0x3FF))
  }

  function HighHalf(uc: Code): Code {
    0xD800 + ((uc - 0x10000) >> 10)
  }

  function LowHalf(uc: Code): Code {
    0xDC00 + ((uc - 0x10000) & 0x3FF)
  }

  lemma TenBits(x: Code)
    ensures x <= 0xFFFFF ==> x >> 10 <= 0x3FF && ((x >> 10) << 10) | (x & 0x3FF) == x
    ensures x & 0x3FF <= 0x3FF
  {
  }

  lemma HalfBits(y: Code)
    requires y <= 0x3FF
    ensures (0xD800 + y) & 0x3FF == y && 0xD800 <= 0xD800 + y <= 0xDBFF
    ensures (0xDC00 + y) & 0x3FF == y && 0xDC00 <= 0xDC00 + y <= 0xDFFF
  {
  }

  lemma Above(uc: Code)
    requires 0x10000 <= uc <= 0x10FFFF
    ensures uc - 0x10000 <= 0xFFFFF && 0x10000 + (uc - 0x10000) == uc
  {
  }

  // The two halves of a code point above 0xFFFF give it back.
  lemma PairRoundTrip(uc: Code)
    requires 0x10000 <= uc <= 0x10FFFF
    ensures 0xD800 <= HighHalf(uc) <= 0xDBFF && 0xDC00 <= LowHalf(uc) <= 0xDFFF
    ensures Combine(HighHalf(uc), LowHalf(uc)) == uc
  {
    var x := uc - 0x10000;
    Above(uc);
    TenBits(x);
    HalfBits(x >> 10);
    HalfBits(x & 0x3FF);
  }
}
