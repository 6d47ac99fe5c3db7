// JSON strings: print_string (src/cjson_print.c) and parse_string
// (src/cjson.c), each in two passes.  Section 7 of RFC 8259.
module CJson {
  import opened Common
  import opened Widths
  import opened Bytes
  import opened Utf8

  const QUOTE: Byte := 0x22
  const BACK: Byte := 0x5C
  const U: Byte := 0x75

  // ---------- printing ----------

  // The letter of a short escape, 0 if there is none.
  function Letter(b: Byte): Byte {
    if b == QUOTE then QUOTE else if b == BACK then BACK
    else if b == 0x08 then 0x62 else if b == 0x0C then 0x66 else if b == 0x0A then 0x6E
    else if b == 0x0D then 0x72 else if b == 0x09 then 0x74 else 0
  }

  // A lower-case hexadecimal digit.
  function Digit(v: Byte): Byte {
    if v < 10 then 0x30 + v else 0x57 + v
  }

  function Escape(b: Byte): (s: seq<Byte>)
    ensures 1 <= |s| <= 6
  {
    if Letter(b) != 0 then [BACK, Letter(b)]
    else if b < 32 then [BACK, U, 0x30, 0x30, Digit(b >> 4), Digit(b & 0x0F)]
    else [b]
  }

  // The seven short escapes, and what other bytes are printed as.
  lemma EscapeTable(b: Byte)
    ensures Escape(0x22) == [0x5C, 0x22] && Escape(0x5C) == [0x5C, 0x5C] && Escape(0x08) == [0x5C, 0x62]
    ensures Escape(0x0C) == [0x5C, 0x66] && Escape(0x0A) == [0x5C, 0x6E] && Escape(0x0D) == [0x5C, 0x72]
    ensures Escape(0x09) == [0x5C, 0x74] && Escape(0x1F) == [0x5C, 0x75, 0x30, 0x30, 0x31, 0x66]
    ensures b >= 32 && b != 0x22 && b != 0x5C ==> Escape(b) == [b]
    ensures b < 32 && b != 8 && b != 9 && b != 10 && b != 12 && b != 13 ==>
              && |Escape(b)| == 6 && Escape(b)[..4] == [0x5C, 0x75, 0x30, 0x30]
              && Escape(b)[4] == (if b < 16 then 0x30 else 0x31)
              && Escape(b)[5] == if b & 15 < 10 then 0x30 + (b & 15) else 0x61 + (b & 15) - 10
  {
    ControlNibbles(b);
    assert Digit(0x1F >> 4) == 0x31 && Digit(0x1F & 0x0F) == 0x66;
  }

  lemma ControlNibbles(b: Byte)
    ensures b < 32 ==> b >> 4 == if b < 16 then 0 else 1
    ensures b & 0x0F < 16
  {
  }

  function EscapeAll(s: seq<Byte>): seq<Byte> {
    if s == [] then [] else Escape(s[0]) + EscapeAll(s[1..])
  }

  lemma {:induction false} EscapeAllSplit(s: seq<Byte>, i: nat)
    requires i < |s|
    ensures EscapeAll(s[i..]) == Escape(s[i]) + EscapeAll(s[i + 1..])
  {
    assert s[i..][0] == s[i] && s[i..][1..] == s[i + 1..];
  }

  // ---------- parsing ----------

  function HexValue(b: Byte): Code {
    if 0x30 <= b <= 0x39 then Wide(b - 0x30)
    else if 0x61 <= b <= 0x66 then Wide(b - 0x57)
    else if 0x41 <= b <= 0x46 then Wide(b - 0x37)
    else 0
  }

  predicate IsHex(b: Byte) {
    0x30 <= b <= 0x39 || 0x61 <= b <= 0x66 || 0x41 <= b <= 0x46
  }

  predicate FourHex(s: seq<Byte>) {
    |s| >= 4 && IsHex(s[0]) && IsHex(s[1]) && IsHex(s[2]) && IsHex(s[3])
  }

  function Joined(a: Code, b: Code, c: Code, d: Code): Code {
    (a << 12) | (b << 8) | (c << 4) | d
  }

  function Hex4(s: seq<Byte>): Code
    requires |s| >= 4
  {
    Joined(HexValue(s[0]), HexValue(s[1]), HexValue(s[2]), HexValue(s[3]))
  }

  // b is the hexadecimal digit of value d, in either case.
  predicate IsDigit(b: Byte, d: Code) {
    if d < 10 then Wide(b) == 0x30 + d else d < 16 && (Wide(b) == 0x41 + (d - 10) || Wide(b) == 0x61 + (d - 10))
  }

  // s begins with the four hexadecimal digits of n, highest first.
  ghost predicate Spells(s: seq<Byte>, n: Code) {
    && |s| >= 4 && n < 0x10000
    && IsDigit(s[0], n >> 12) && IsDigit(s[1], (n >> 8) & 15) && IsDigit(s[2], (n >> 4) & 15) && IsDigit(s[3], n & 15)
  }

  lemma DigitValue(b: Byte, d: Code)
    requires d < 16
    ensures IsDigit(b, d) <==> IsHex(b) && HexValue(b) == d
  {
  }

  lemma HexBelow(b: Byte)
    ensures HexValue(b) < 16
  {
  }

  lemma SmallNibbles(n: Code)
    requires n < 0x10000
    ensures n >> 12 < 16 && (n >> 8) & 15 < 16 && (n >> 4) & 15 < 16 && n & 15 < 16
  {
  }

  lemma JoinedNibbles(n: Code)
    requires n < 0x10000
    ensures Joined(n >> 12, (n >> 8) & 15, (n >> 4) & 15, n & 15) == n
  {
  }

  lemma NibblesJoined(a: Code, b: Code, c: Code, d: Code)
    requires a < 16 && b < 16 && c < 16 && d < 16
    ensures var n := Joined(a, b, c, d);
            n < 0x10000 && n >> 12 == a && (n >> 8) & 15 == b && (n >> 4) & 15 == c && n & 15 == d
  {
  }

  function ByPlace(a: Code, b: Code, c: Code, d: Code): Code {
    4096 * a + 256 * b + 16 * c + d
  }

  lemma PlaceSum(a: Code, b: Code, c: Code, d: Code)
    requires a < 16 && b < 16 && c < 16 && d < 16
    ensures Joined(a, b, c, d) == ByPlace(a, b, c, d)
  {
  }

  // The value of four digits, by place.
  lemma Hex4Value(s: seq<Byte>)
    requires |s| >= 4
    ensures Hex4(s) == ByPlace(HexValue(s[0]), HexValue(s[1]), HexValue(s[2]), HexValue(s[3]))
  {
    hide HexValue, Joined, ByPlace;
    HexBelow(s[0]);
    HexBelow(s[1]);
    HexBelow(s[2]);
    HexBelow(s[3]);
    PlaceSum(HexValue(s[0]), HexValue(s[1]), HexValue(s[2]), HexValue(s[3]));
  }

  lemma JoinedIff(a: Code, b: Code, c: Code, d: Code, n: Code)
    requires a < 16 && b < 16 && c < 16 && d < 16
    ensures Joined(a, b, c, d) == n
            <==> n < 0x10000 && a == n >> 12 && b == (n >> 8) & 15 && c == (n >> 4) & 15 && d == n & 15
  {
    hide Joined;
    NibblesJoined(a, b, c, d);
    if n < 0x10000 && a == n >> 12 && b == (n >> 8) & 15 && c == (n >> 4) & 15 && d == n & 15 {
      JoinedNibbles(n);
    }
  }

  // Four digits have the value n if and only if they are n's.
  lemma Hex4Is(s: seq<Byte>, n: Code)
    requires |s| >= 4
    ensures Spells(s, n) <==> FourHex(s) && Hex4(s) == n
  {
    hide IsDigit, IsHex, HexValue, Joined;
    HexBelow(s[0]);
    HexBelow(s[1]);
    HexBelow(s[2]);
    HexBelow(s[3]);
    JoinedIff(HexValue(s[0]), HexValue(s[1]), HexValue(s[2]), HexValue(s[3]), n);
    if n < 0x10000 {
      SmallNibbles(n);
      DigitValue(s[0], n >> 12);
      DigitValue(s[1], (n >> 8) & 15);
      DigitValue(s[2], (n >> 4) & 15);
      DigitValue(s[3], n & 15);
    }
  }

  predicate IsHigh(uc: Code) { 0xD800 <= uc <= 0xDBFF }
  predicate IsLow(uc: Code) { 0xDC00 <= uc <= 0xDFFF }

  // s does not end inside the escape it begins with: a \u has its digits,
  // and so has one right behind the first half of a pair.
  ghost predicate Complete(s: seq<Byte>) {
    && |s| >= 1
    && (s[0] == BACK ==> |s| >= 2 && (s[1] == U ==> FourHex(s[2..]) && PairComplete(s)))
  }

  ghost predicate PairComplete(s: seq<Byte>)
    requires |s| >= 6
  {
    IsHigh(Hex4(s[2..])) && |s| >= 8 && s[6] == BACK && s[7] == U ==> FourHex(s[8..])
  }

  datatype Token = Token(used: nat, out: seq<Byte>)

  // One turn of the second pass: bytes taken from s and bytes written.
  function Next(s: seq<Byte>): (t: Token)
    requires Complete(s)
    ensures 1 <= t.used <= |s|
  {
    if s[0] != BACK then Token(1, [s[0]])
    else if s[1] != U then Token(2, [Plain(s[1])])
    else
      var uc := Hex4(s[2..]);
      if IsLow(uc) || uc == 0 then Token(6, [])
      else if !IsHigh(uc) then Token(6, Encode(uc))
      else if |s| < 8 || s[6] != BACK || s[7] != U then Token(6, [])
      else
        var uc2 := Hex4(s[8..]);
        if !IsLow(uc2) then Token(12, []) else Token(12, Encode(Combine(uc, uc2)))
  }

  // What a backslash makes of the letter behind it.
  function Plain(c: Byte): Byte {
    if c == 0x62 then 0x08 else if c == 0x66 then 0x0C else if c == 0x6E then 0x0A
    else if c == 0x72 then 0x0D else if c == 0x74 then 0x09 else c
  }

  ghost predicate Stops(s: seq<Byte>) {
    s == [] || s[0] == QUOTE
  }

  // The text up to its closing quote, or its end, has only complete escapes.
  ghost predicate WellFormed(s: seq<Byte>)
    decreases |s|
  {
    Stops(s) || (Complete(s) && WellFormed(s[Next(s).used..]))
  }

  // What parse_string makes of the text behind the opening quote.
  ghost function Unescape(s: seq<Byte>): seq<Byte>
    requires WellFormed(s)
    decreases |s|
  {
    if Stops(s) then [] else Next(s).out + Unescape(s[Next(s).used..])
  }

  // How much of it precedes the closing quote.
  ghost function Span(s: seq<Byte>): (n: nat)
    requires WellFormed(s)
    ensures n <= |s| && Stops(s[n..])
    decreases |s|
  {
    if Stops(s) then 0 else Next(s).used + Span(s[Next(s).used..])
  }

  // What the first pass counts.
  ghost function Count(s: seq<Byte>): nat
    decreases |s|
  {
    if Stops(s) then 0 else if s[0] == BACK then 1 + Count(if |s| >= 2 then s[2..] else []) else 1 + Count(s[1..])
  }

  // ---------- the first pass counts enough ----------

  lemma {:induction false} CountPlain(s: seq<Byte>, k: nat)
    requires k <= |s| && forall i | 0 <= i < k :: s[i] != BACK && s[i] != QUOTE
    ensures Count(s) == k + Count(s[k..])
  {
    if k > 0 {
      assert s[1..][k - 1..] == s[k..];
      CountPlain(s[1..], k - 1);
    } else {
      assert s[0..] == s;
    }
  }

  lemma HexPlain(s: seq<Byte>)
    requires FourHex(s)
    ensures Count(s) == 4 + Count(s[4..])
  {
    CountPlain(s, 4);
  }

  // A token is counted at least as often as it writes bytes.
  lemma CountNext(s: seq<Byte>)
    requires Complete(s) && !Stops(s)
    ensures Count(s) >= |Next(s).out| + Count(s[Next(s).used..])
  {
    if s[0] == BACK && s[1] == U {
      HexPlain(s[2..]);
      assert s[2..][4..] == s[6..];
      assert Count(s) == 5 + Count(s[6..]);
      if Next(s).used == 12 {
        assert s[6..][2..] == s[8..] && s[8..][4..] == s[12..];
        HexPlain(s[8..]);
        assert Count(s[6..]) == 5 + Count(s[12..]);
      }
      hide Hex4, Encode, Count, Combine;
    }
  }

  lemma {:induction false} CountEnough(s: seq<Byte>)
    requires WellFormed(s)
    ensures |Unescape(s)| <= Count(s)
    decreases |s|
  {
    if !Stops(s) {
      CountNext(s);
      CountEnough(s[Next(s).used..]);
    }
  }

  // ---------- what a \u escape means ----------

  // The escape at the head of s names code point uc: its four digits do, or
  // it is the pair of halves of a code point above 0xFFFF.
  ghost predicate Names(s: seq<Byte>, uc: Code) {
    && Complete(s) && !Stops(s) && s[0] == BACK && s[1] == U
    && if uc < 0x10000 then Scalar(uc) && Spells(s[2..], uc)
       else
         && uc <= 0x10FFFF && |s| >= 12 && Spells(s[2..], HighHalf(uc))
         && s[6] == BACK && s[7] == U && Spells(s[8..], LowHalf(uc))
  }

  // It comes out as the UTF-8 of that code point, except that \u0000 is dropped.
  lemma EscapeMeaning(s: seq<Byte>, uc: Code)
    requires Names(s, uc)
    ensures Next(s).used == if uc < 0x10000 then 6 else 12
    ensures if uc == 0 then Next(s).out == [] else Denotes(Next(s).out, uc)
  {
    hide Hex4, Encode, Denotes, HighHalf, LowHalf, Combine, IsHex, IsDigit;
    EncodeCorrect(uc);
    if uc < 0x10000 {
      Hex4Is(s[2..], uc);
    } else {
      PairRoundTrip(uc);
      Hex4Is(s[2..], HighHalf(uc));
      Hex4Is(s[8..], LowHalf(uc));
    }
  }

  // The euro sign, and a face from beyond U+FFFF, in mixed case.
  const EURO: seq<Byte> := [BACK, U, 0x32, 0x30, 0x41, 0x63]
  const GRIN: seq<Byte> := [BACK, U, 0x64, 0x38, 0x33, 0x44, BACK, U, 0x44, 0x45, 0x30, 0x30]

  lemma Examples()
    ensures Complete(EURO) && Next(EURO) == Token(6, [0xE2, 0x82, 0xAC])
    ensures Complete(GRIN) && Next(GRIN) == Token(12, [0xF0, 0x9F, 0x98, 0x80])
  {
    assert EURO[2..] == [0x32, 0x30, 0x41, 0x63];
    assert GRIN[2..6] == [0x64, 0x38, 0x33, 0x44] && GRIN[8..] == [0x44, 0x45, 0x30, 0x30];
    Hex4Is(EURO[2..], 0x20AC);
    Hex4Is(GRIN[2..], 0xD83D);
    Hex4Is(GRIN[8..], 0xDE00);
    assert Combine(0xD83D, 0xDE00) == 0x1F600;
    assert Encode(0x20AC) == [0xE2, 0x82, 0xAC] && Encode(0x1F600) == [0xF0, 0x9F, 0x98, 0x80];
  }

  ghost predicate Dropped(s: seq<Byte>)
    requires |s| >= 6
  {
    var uc := Hex4(s[2..]);
    || uc == 0 || IsLow(uc)
    || (IsHigh(uc) && !(|s| >= 12 && s[6] == BACK && s[7] == U && IsLow(Hex4(s[8..]))))
  }

  // Only \u0000 and halves without their other half write nothing.
  lemma DroppedIff(s: seq<Byte>)
    requires Complete(s) && !Stops(s)
    ensures s[0] != BACK || s[1] != U ==> Next(s).out != []
    ensures s[0] == BACK && s[1] == U ==> (Next(s).out == [] <==> Dropped(s))
  {
    hide Hex4, Combine;
  }

  // ---------- any text ----------

  // sscanf("%4x"): what it makes of a text and of the value its variable
  // had.  Of four hexadecimal digits it makes their value; what it makes of
  // anything else is left open.
  type Scan = (seq<Byte>, Code) -> Code

  ghost predicate ReadsHex(scan: Scan) {
    forall s, old' | FourHex(s) :: scan(s, old') == Hex4(s)
  }

  // The variables uc and uc2, which outlive a turn.
  datatype Regs = Regs(uc: Code, uc2: Code)

  datatype Turned = Turned(used: nat, out: seq<Byte>, regs: Regs)

  // What the stores leave of a code point.
  function Shifted(uc: Code): Code {
    if Size(uc) == 1 then uc else if Size(uc) == 2 then uc >> 6 else if Size(uc) == 3 then uc >> 12 else uc >> 18
  }

  // One turn of the second pass on any text: more bytes used than there are
  // say that it reads past the end.
  function Turn(s: seq<Byte>, scan: Scan, r: Regs): (t: Turned)
    requires s != []
    ensures t.used >= 1
  {
    if s[0] != BACK then Turned(1, [s[0]], r)
    else if |s| < 2 then Turned(2, [0], r)
    else if s[1] != U then Turned(2, [Plain(s[1])], r)
    else
      var uc := scan(s[2..], r.uc);
      var r' := r.(uc := uc);
      if IsLow(uc) || uc == 0 then Turned(6, [], r')
      else if !IsHigh(uc) then Turned(6, Encode(uc), r'.(uc := Shifted(uc)))
      else if |s| < 8 || s[6] != BACK || s[7] != U then Turned(6, [], r')
      else
        var uc2 := scan(s[8..], r.uc2);
        if !IsLow(uc2) then Turned(12, [], Regs(uc, uc2))
        else Turned(12, Encode(Combine(uc, uc2)), Regs(Shifted(Combine(uc, uc2)), uc2))
  }

  // The whole second pass: whether it stays inside the text, what it has
  // written when it stops or leaves, and how far it got.
  datatype Walked = Walked(inside: bool, out: seq<Byte>, used: nat)

  ghost function Walk(s: seq<Byte>, scan: Scan, r: Regs): Walked
    decreases |s|
  {
    if Stops(s) then Walked(true, [], 0)
    else
      var t := Turn(s, scan, r);
      if t.used > |s| then Walked(false, t.out, t.used)
      else
        var w := Walk(s[t.used..], scan, t.regs);
        Walked(w.inside, t.out + w.out, t.used + w.used)
  }

  // No escape is cut off: a backslash has a letter, a \u four more bytes,
  // and so has one behind the first half of a pair.
  ghost predicate LongEnough(s: seq<Byte>, scan: Scan, r: Regs)
    requires s != []
  {
    s[0] == BACK ==>
      && |s| >= 2
      && (s[1] == U ==> |s| >= 6 && (IsHigh(scan(s[2..], r.uc)) && |s| >= 8 && s[6] == BACK && s[7] == U ==> |s| >= 12))
  }

  ghost predicate AllLongEnough(s: seq<Byte>, scan: Scan, r: Regs)
    decreases |s|
  {
    Stops(s) ||
    (LongEnough(s, scan, r) && var t := Turn(s, scan, r); t.used <= |s| && AllLongEnough(s[t.used..], scan, t.regs))
  }

  lemma TurnInside(s: seq<Byte>, scan: Scan, r: Regs)
    requires s != []
    ensures Turn(s, scan, r).used <= |s| <==> LongEnough(s, scan, r)
  {
    hide Encode, Combine, IsHigh, IsLow, Plain, Shifted;
    var uc := if |s| >= 2 then scan(s[2..], r.uc) else 0;
    HighNotLow(uc);
  }

  lemma HighNotLow(uc: Code)
    ensures IsHigh(uc) ==> !IsLow(uc) && uc != 0
  {
  }

  // The second pass stays inside the text if and only if no escape it meets
  // is cut off.
  lemma {:induction false} WalkInside(s: seq<Byte>, scan: Scan, r: Regs)
    ensures Walk(s, scan, r).inside <==> AllLongEnough(s, scan, r)
    decreases |s|
  {
    if !Stops(s) {
      TurnInside(s, scan, r);
      var t := Turn(s, scan, r);
      hide Turn, LongEnough;
      if t.used <= |s| {
        WalkInside(s[t.used..], scan, t.regs);
      }
    }
  }

  lemma TurnIsNext(s: seq<Byte>, scan: Scan, r: Regs)
    requires ReadsHex(scan) && Complete(s)
    ensures var t := Turn(s, scan, r); t.used == Next(s).used && t.out == Next(s).out
  {
    hide Hex4, Encode, Combine, IsHex;
  }

  // Complete escapes are long enough, and mean what Unescape says.
  lemma {:induction false} WalkWellFormed(s: seq<Byte>, scan: Scan, r: Regs)
    requires ReadsHex(scan) && WellFormed(s)
    ensures Walk(s, scan, r) == Walked(true, Unescape(s), Span(s))
    decreases |s|
  {
    if !Stops(s) {
      TurnIsNext(s, scan, r);
      var t := Turn(s, scan, r);
      hide Turn, Next, ReadsHex, Complete;
      WalkWellFormed(s[t.used..], scan, t.regs);
    }
  }

  // ---------- parsing what was printed ----------

  lemma HexDigit(v: Byte)
    requires v < 16
    ensures IsHex(Digit(v)) && HexValue(Digit(v)) == Wide(v)
  {
  }

  lemma ControlDigits(b: Byte)
    requires b < 32
    ensures b >> 4 < 16 && b & 0x0F < 16 && (Wide(b >> 4) << 4) | Wide(b & 0x0F) == Wide(b)
    ensures Wide(b) < 0x80 && Low(Wide(b) | 0) == b && (b != 0 ==> Wide(b) != 0)
  {
  }

  lemma Zeros(x: Code, y: Code)
    ensures Joined(0, 0, x, y) == (x << 4) | y
  {
  }

  lemma ControlEscape(b: Byte, s: seq<Byte>)
    requires 0 < b < 32 && |s| >= 4 && s[..4] == [0x30, 0x30, Digit(b >> 4), Digit(b & 0x0F)]
    ensures FourHex(s) && Hex4(s) == Wide(b) && Encode(Wide(b)) == [b] && 0 != Wide(b) < 0x80
  {
    ControlDigits(b);
    HexDigit(b >> 4);
    HexDigit(b & 0x0F);
    HexDigit(0);
    assert s[0] == s[..4][0] && s[1] == s[..4][1] && s[2] == s[..4][2] && s[3] == s[..4][3];
    Zeros(Wide(b >> 4), Wide(b & 0x0F));
    hide IsHex, Wide, Low;
  }

  lemma LetterPlain(b: Byte)
    ensures Letter(b) != 0 ==> Plain(Letter(b)) == b && Letter(b) != U
    ensures b == QUOTE || b == BACK ==> Letter(b) != 0
  {
  }

  // Behind a backslash every byte is itself but the letters b, f, n, r and t.
  lemma PlainIff(c: Byte)
    ensures Plain(c) == c <==> c != 0x62 && c != 0x66 && c != 0x6E && c != 0x72 && c != 0x74
    ensures Plain(0x62) == 8 && Plain(0x66) == 12 && Plain(0x6E) == 10 && Plain(0x72) == 13 && Plain(0x74) == 9
  {
  }

  // An escaped byte is read back as that byte and nothing more.
  lemma EscapeNext(b: Byte, rest: seq<Byte>)
    requires b != 0
    ensures Complete(Escape(b) + rest) && !Stops(Escape(b) + rest)
    ensures Next(Escape(b) + rest) == Token(|Escape(b)|, [b])
  {
    var s := Escape(b) + rest;
    LetterPlain(b);
    hide Letter, Plain;
    if Letter(b) == 0 && b < 32 {
      assert s[2..][..4] == [0x30, 0x30, Digit(b >> 4), Digit(b & 0x0F)];
      ControlEscape(b, s[2..]);
      SmallCode(Wide(b));
      hide FourHex, Hex4, Encode, Wide;
    }
  }

  lemma SmallCode(uc: Code)
    requires uc < 0x80
    ensures !IsHigh(uc) && !IsLow(uc)
  {
  }

  lemma EscapeTurn(b: Byte, rest: seq<Byte>)
    requires b != 0 && WellFormed(rest)
    ensures WellFormed(Escape(b) + rest)
    ensures Unescape(Escape(b) + rest) == [b] + Unescape(rest)
    ensures Span(Escape(b) + rest) == |Escape(b)| + Span(rest)
  {
    var s := Escape(b) + rest;
    EscapeNext(b, rest);
    assert s[|Escape(b)|..] == rest;
    hide Complete, Escape, Next, Stops;
  }

  // Parsing a printed string gives the string, and stops at its closing quote.
  lemma {:induction false} PrintParse(s: seq<Byte>, rest: seq<Byte>)
    requires 0 !in s
    ensures WellFormed(EscapeAll(s) + [QUOTE] + rest)
    ensures Unescape(EscapeAll(s) + [QUOTE] + rest) == s
    ensures Span(EscapeAll(s) + [QUOTE] + rest) == |EscapeAll(s)|
  {
    if s == [] {
      assert EscapeAll(s) + [QUOTE] + rest == [QUOTE] + rest;
    } else {
      var tail := EscapeAll(s[1..]) + [QUOTE] + rest;
      var e := Escape(s[0]);
      assert EscapeAll(s) + [QUOTE] + rest == e + tail;
      assert s == [s[0]] + s[1..];
      hide WellFormed, Unescape, Span, Escape;
      PrintParse(s[1..], rest);
      EscapeTurn(s[0], tail);
    }
  }

  // ---------- print_string ----------

  // The sprintf of "u%04x", with the NUL it adds.
  method WriteHex(str: array<Byte>, at: nat, b: Byte)
    requires b < 32 && at + 5 < str.Length
    modifies str
    ensures str[..at + 5] == old(str[..at]) + [U, 0x30, 0x30, Digit(b >> 4), Digit(b & 0x0F)]
  {
    hide Digit;
    str[at], str[at + 1], str[at + 2] := U, 0x30, 0x30;
    str[at + 3], str[at + 4] := Digit(b >> 4), Digit(b & 0x0F);
    str[at + 5] := 0;
  }

  // One turn of the writing pass.
  method WriteEscape(str: array<Byte>, at: nat, b: Byte) returns (at': nat)
    requires at + |Escape(b)| < str.Length
    modifies str
    ensures at' == at + |Escape(b)| && str[..at'] == old(str[..at]) + Escape(b)
  {
    LetterPlain(b);
    hide Letter, Digit, Plain;
    at' := at;
    if b > 31 && b != QUOTE && b != BACK {
      HighNoLetter(b);
      str[at'] := b;
      at' := at' + 1;
    } else {
      str[at'] := BACK;
      at' := at' + 1;
      if Letter(b) != 0 {
        str[at'] := Letter(b);
        at' := at' + 1;
      } else {
        WriteHex(str, at', b);
        at' := at' + 5;
      }
    }
  }

  lemma HighNoLetter(b: Byte)
    requires b > 31 && b != QUOTE && b != BACK
    ensures Letter(b) == 0
  {
  }

  // Adding to the largest int is undefined in C, and the model of both
  // functions stops there.

  // The buffer is exactly as long as the first pass counted, and the second
  // pass fills it: quote, escapes, quote, NUL.  Null says that the length
  // does not fit an int.
  method PrintString(value: seq<Byte>) returns (str: array?<Byte>)
    requires 0 !in value
    ensures str == null <==> |EscapeAll(value)| + 3 > MAX_INT
    ensures str != null ==> fresh(str) && str[..] == [QUOTE] + EscapeAll(value) + [QUOTE, 0]
  {
    var len := PrintLength(value);
    if len + 3 > MAX_INT {
      return null;
    }
    var buf := new Byte[len + 3](_ => 0);
    PrintFill(value, buf);
    str := buf;
  }

  // The counting pass.
  method PrintLength(value: seq<Byte>) returns (len: nat)
    ensures len == |EscapeAll(value)|
  {
    len := 0;
    var i := 0;
    assert value[0..] == value;
    while i < |value|
      invariant 0 <= i <= |value| && len + |EscapeAll(value[i..])| == |EscapeAll(value)|
    {
      EscapeAllSplit(value, i);
      var token := value[i];
      len := len + 1;
      if Letter(token) != 0 {
        len := len + 1;
      } else if token < 32 {
        len := len + 5;
      }
      i := i + 1;
    }
  }

  // The writing pass.
  method PrintFill(value: seq<Byte>, str: array<Byte>)
    requires str.Length == |EscapeAll(value)| + 3
    modifies str
    ensures str[..] == [QUOTE] + EscapeAll(value) + [QUOTE, 0]
  {
    str[0] := QUOTE;
    var at := 1;
    var i := 0;
    assert value[0..] == value;
    while i < |value|
      invariant 0 <= i <= |value| && 1 <= at && at + |EscapeAll(value[i..])| == |EscapeAll(value)| + 1
      invariant str[..at] + EscapeAll(value[i..]) == [QUOTE] + EscapeAll(value)
    {
      EscapeAllSplit(value, i);
      ghost var was := str[..at];
      var at' := WriteEscape(str, at, value[i]);
      Associate(was, Escape(value[i]), EscapeAll(value[i + 1..]));
      at := at';
      i := i + 1;
    }
    str[at], str[at + 1] := QUOTE, 0;
  }  // ---------- parse_string ----------

  // Reading the C string, with its NUL.
  function At(text: seq<Byte>, i: nat): Byte
    requires i <= |text|
  {
    if i < |text| then text[i] else 0
  }

  // *--ptr2 = b, in front of the tail already stored.
  method PutBefore(out: array<Byte>, at: nat, b: Byte, ghost was: seq<Byte>, ghost tail: seq<Byte>) returns (at': nat)
    requires |was| == out.Length && 1 <= at && at + |tail| <= |was| && out[..] == Over(was, at, tail)
    modifies out
    ensures at' == at - 1 && out[..] == Over(was, at', [b] + tail)
  {
    at' := at - 1;
    out[at'] := b;
  }

  // The bytes of a code point, stored from the last one back to the first.
  method PutUtf8(out: array<Byte>, at: nat, code: Code) returns (at': nat)
    requires at + Size(code) <= out.Length
    modifies out
    ensures at' == at + Size(code) && out[..] == Over(old(out[..]), at, Encode(code))
  {
    ghost var was := out[..];
    hide Over, Encode;
    OverNothing(was, at + Size(code));
    if Size(code) == 1 {
      at' := PutOne(out, at + 1, code, was);
      return at' + 1;
    }
    if Size(code) == 2 {
      at' := PutTwo(out, at + 2, code, was);
      return at' + 2;
    }
    at' := PutLong(out, at + Size(code), code, was);
    return at' + Size(code);
  }

  method PutOne(out: array<Byte>, at: nat, code: Code, ghost was: seq<Byte>) returns (at': nat)
    requires |was| == out.Length && Size(code) == 1 <= at <= |was| && out[..] == Over(was, at, [])
    modifies out
    ensures at' == at - 1 && out[..] == Over(was, at', Encode(code))
  {
    hide Over, Low;
    at' := PutBefore(out, at, Low(code | Mark(1)), was, []);
    assert [Low(code | Mark(1))] + [] == Encode(code);
  }

  method PutTwo(out: array<Byte>, at: nat, code: Code, ghost was: seq<Byte>) returns (at': nat)
    requires |was| == out.Length && Size(code) == 2 <= at <= |was| && out[..] == Over(was, at, [])
    modifies out
    ensures at' == at - 2 && out[..] == Over(was, at', Encode(code))
  {
    hide Over, Low, Continuation;
    at' := PutBefore(out, at, Continuation(code), was, []);
    assert [Continuation(code)] + [] == [Continuation(code)];
    at' := PutBefore(out, at', Low((code >> 6) | Mark(2)), was, [Continuation(code)]);
    assert [Low((code >> 6) | Mark(2))] + [Continuation(code)] == Encode(code);
  }

  method PutLong(out: array<Byte>, at: nat, code: Code, ghost was: seq<Byte>) returns (at': nat)
    requires |was| == out.Length && 3 <= Size(code) <= at <= |was| && out[..] == Over(was, at, [])
    modifies out
    ensures at' == at - Size(code) && out[..] == Over(was, at', Encode(code))
  {
    EncodeRest(code);
    hide Over, Low, Continuation, Rest, Encode, Mark;
    at' := PutBefore(out, at, Continuation(code), was, []);
    assert [Continuation(code)] + [] == [Continuation(code)];
    var uc;
    at', uc := PutMore(out, at', code, was);
    at' := PutBefore(out, at', Low(uc | Mark(Size(code))), was, Rest(code));
  }

  // A form longer than two behind its leading byte.
  function Rest(code: Code): seq<Byte> {
    var two := [Continuation(code >> 6)] + [Continuation(code)];
    if Size(code) == 3 then two else [Continuation(code >> 12)] + two
  }

  lemma EncodeRest(code: Code)
    requires Size(code) > 2
    ensures |Rest(code)| == Size(code) - 1
    ensures Encode(code) == [Low((if Size(code) == 3 then code >> 12 else code >> 18) | Mark(Size(code)))] + Rest(code)
  {
    hide Low, Continuation, Mark;
  }

  method PutMore(out: array<Byte>, at: nat, code: Code, ghost was: seq<Byte>) returns (at': nat, uc: Code)
    requires |was| == out.Length && Size(code) - 1 <= at < |was| && Size(code) > 2 && out[..] == Over(was, at, [Continuation(code)])
    modifies out
    ensures at' + Size(code) == at + 2 && uc == if Size(code) == 3 then code >> 12 else code >> 18
    ensures |Rest(code)| == Size(code) - 1 && out[..] == Over(was, at', Rest(code))
  {
    Shifts(code);
    EncodeRest(code);
    hide Continuation, Over;
    at' := PutBefore(out, at, Continuation(code >> 6), was, [Continuation(code)]);
    uc := code >> 12;
    if Size(code) == 4 {
      at' := PutBefore(out, at', Continuation(code >> 12), was, [Continuation(code >> 6)] + [Continuation(code)]);
      uc := code >> 18;
    }
  }

  // Putting b into out at position at, if it leaves room for the NUL.
  method PutCode(out: array<Byte>, at: nat, code: Code) returns (at': nat, fits: bool)
    modifies out
    ensures fits <==> at + Size(code) < out.Length
    ensures fits ==> at' == at + Size(code) && out[..] == Over(old(out[..]), at, Encode(code))
  {
    fits := at + Size(code) < out.Length;
    at' := at;
    if fits {
      at' := PutUtf8(out, at, code);
    }
  }

  // The case 'u' of the switch; ptr is at the u, and comes back at the last
  // byte of the escape.  Where the source looks at ptr[1] past the end, the
  // model stops with ptr there.
  method PutEscape(text: seq<Byte>, start: nat, scan: Scan, r: Regs, out: array<Byte>, at: nat)
    returns (ptr: nat, at': nat, r': Regs, fits: bool)
    requires start + 2 <= |text| && text[start] == BACK && text[start + 1] == U && 0 !in text && at < out.Length
    modifies out
    ensures var t := Turn(text[start..], scan, r);
            && (fits <==> at + |t.out| < out.Length)
            && (fits ==> ptr + 1 == start + t.used && at' == at + |t.out| && r' == t.regs
                         && out[..] == Over(old(out[..]), at, t.out))
  {
    hide Over, Encode, IsHigh, IsLow, Shifted;
    ghost var s := text[start..];
    ptr, at', fits := start + 1, at, true;
    assert s[2..] == text[ptr + 1..];
    var uc := scan(text[ptr + 1..], r.uc);
    r' := r.(uc := uc);
    ptr := ptr + 4;
    OverNothing(out[..], at);
    HighNotLow(uc);
    if IsLow(uc) || uc == 0 {
      return;
    }
    if IsHigh(uc) {
      if ptr + 1 > |text| || At(text, ptr + 1) != BACK || At(text, ptr + 2) != U {
        return;
      }
      assert s[8..] == text[ptr + 3..];
      var uc2 := scan(text[ptr + 3..], r.uc2);
      r' := r'.(uc2 := uc2);
      ptr := ptr + 6;
      if !IsLow(uc2) {
        return;
      }
      uc := Combine(uc, uc2);
    }
    at', fits := PutCode(out, at, uc);
    r' := r'.(uc := Shifted(uc));
  }

  // One turn of the second pass.
  method ParseTurn(text: seq<Byte>, start: nat, scan: Scan, r: Regs, out: array<Byte>, at: nat)
    returns (ptr: nat, at': nat, r': Regs, fits: bool)
    requires start < |text| && 0 !in text && at < out.Length
    modifies out
    ensures var t := Turn(text[start..], scan, r);
            && (fits <==> at + |t.out| < out.Length)
            && (fits ==> ptr == start + t.used && at' == at + |t.out| && r' == t.regs
                         && out[..] == Over(old(out[..]), at, t.out))
  {
    ptr, at', r', fits := start, at, r, true;
    ghost var s := text[start..];
    assert s[0] == text[start];
    if text[ptr] != BACK {
      fits := at + 1 < out.Length;
      if fits {
        out[at'] := text[ptr];
      }
      return ptr + 1, at' + 1, r', fits;
    }
    if At(text, ptr + 1) == U {
      assert s[1] == text[start + 1];
      ptr, at', r', fits := PutEscape(text, ptr, scan, r, out, at');
    } else {
      assert start + 1 < |text| ==> s[1] == text[start + 1];
      ptr := ptr + 1;
      fits := at + 1 < out.Length;
      if fits {
        out[at'] := Plain(At(text, ptr));
      }
      at' := at' + 1;
    }
    ptr := ptr + 1;
  }

  // Every backslash before the closing quote is followed by something.
  ghost predicate Paired(s: seq<Byte>)
    decreases |s|
  {
    Stops(s) || (if s[0] == BACK then |s| >= 2 && Paired(s[2..]) else Paired(s[1..]))
  }

  lemma {:induction false} PairedPlain(s: seq<Byte>, k: nat)
    requires k <= |s| && (forall i | 0 <= i < k :: s[i] != BACK && s[i] != QUOTE) && Paired(s[k..])
    ensures Paired(s)
  {
    if k > 0 {
      assert s[1..][k - 1..] == s[k..];
      PairedPlain(s[1..], k - 1);
    } else {
      assert s[0..] == s;
    }
  }

  lemma PairedNext(s: seq<Byte>)
    requires Complete(s) && !Stops(s) && Paired(s[Next(s).used..])
    ensures Paired(s)
  {
    if s[0] == BACK && s[1] == U {
      if Next(s).used == 12 {
        assert s[6..][2..] == s[8..] && s[8..][4..] == s[12..];
        PairedPlain(s[8..], 4);
        assert Paired(s[6..]);
      }
      assert s[2..][4..] == s[6..];
      PairedPlain(s[2..], 4);
      hide Hex4, Encode, Combine;
    }
  }

  lemma {:induction false} WellFormedPaired(s: seq<Byte>)
    requires WellFormed(s)
    ensures Paired(s)
    decreases |s|
  {
    if !Stops(s) {
      WellFormedPaired(s[Next(s).used..]);
      PairedNext(s);
    }
  }

  // The counting pass stays inside the text if and only if every backslash
  // before the closing quote is followed by something.
  method CountPass(text: seq<Byte>) returns (len: nat, inside: bool)
    requires |text| > 0 && 0 !in text
    ensures inside <==> Paired(text[1..])
    ensures inside ==> len == Count(text[1..])
  {
    var ptr := 1;
    len, inside := 0, true;
    while At(text, ptr) != QUOTE && At(text, ptr) != 0
      invariant 1 <= ptr <= |text| && len + Count(text[ptr..]) == Count(text[1..])
      invariant inside && (Paired(text[ptr..]) <==> Paired(text[1..]))
      decreases |text| - ptr
    {
      len := len + 1;
      ghost var s := text[ptr..];
      assert s[0] == text[ptr] && s[1..] == text[ptr + 1..];
      if text[ptr] == BACK {
        ptr := ptr + 1;
        if ptr == |text| {
          return len, false;
        }
        assert s[2..] == text[ptr + 1..];
      }
      ptr := ptr + 1;
    }
  }

  // How parse_string ends: text that does not begin with a quote is refused;
  // a pass leaves the text; more bytes come out than were counted; more are
  // counted than an int holds.
  datatype Outcome = Done | NoString | ReadsPast | WritesPast | TooLong

  // What becomes of the text s behind the opening quote.
  ghost function Fate(s: seq<Byte>, scan: Scan, r: Regs): Outcome {
    if !Paired(s) then ReadsPast
    else if Count(s) + 1 > MAX_INT then TooLong
    else
      var w := Walk(s, scan, r);
      if |w.out| > Count(s) then WritesPast else if w.inside then Done else ReadsPast
  }

  // parse_string, on any text and whatever the variables hold at first.
  method ParseString(text: seq<Byte>, scan: Scan, r: Regs) returns (out: array?<Byte>, end: nat, outcome: Outcome)
    requires 0 !in text
    ensures outcome == if text == [] || text[0] != QUOTE then NoString else Fate(text[1..], scan, r)
    ensures outcome == Done ==>
              var w := Walk(text[1..], scan, r);
              && out != null && fresh(out) && out.Length == Count(text[1..]) + 1
              && |w.out| < out.Length && out[..|w.out| + 1] == w.out + [0]
              && end == if 1 + w.used < |text| then w.used + 2 else w.used + 1
  {
    out, end := null, 0;
    if At(text, 0) != QUOTE {
      return out, end, NoString;
    }
    var len, inside := CountPass(text);
    if !inside {
      return out, end, ReadsPast;
    }
    if len + 1 > MAX_INT {
      return out, end, TooLong;
    }
    var buf := new Byte[len + 1](_ => 0);
    var ptr, at;
    ptr, at, outcome := Fill(text, scan, r, buf);
    if outcome != Done {
      return;
    }
    buf[at] := 0;
    out, end := buf, ptr;
    if At(text, ptr) == QUOTE {
      end := end + 1;
    }
  }

  // The writing pass.
  method Fill(text: seq<Byte>, scan: Scan, r: Regs, buf: array<Byte>) returns (ptr: nat, at: nat, outcome: Outcome)
    requires 0 !in text && |text| > 0 && buf.Length > 0
    modifies buf
    ensures var w := Walk(text[1..], scan, r);
            && outcome == (if |w.out| >= buf.Length then WritesPast else if w.inside then Done else ReadsPast)
            && (outcome == Done ==> ptr == 1 + w.used && ptr <= |text| && at == |w.out| && buf[..at] == w.out
                                    && (At(text, ptr) == QUOTE <==> ptr < |text|))
  {
    hide Turn, Over;
    ptr, at := 1, 0;
    var regs := r;
    ghost var w0 := Walk(text[1..], scan, r);
    while At(text, ptr) != QUOTE && At(text, ptr) != 0
      invariant 1 <= ptr <= |text| && at < buf.Length
      invariant var w := Walk(text[ptr..], scan, regs);
                w0.inside == w.inside && w0.out == buf[..at] + w.out && w0.used == ptr - 1 + w.used
      decreases |text| - ptr
    {
      ghost var s, was, before := text[ptr..], buf[..], at;
      assert s[0] == text[ptr];
      ghost var t := Turn(s, scan, regs);
      var start, fits := ptr, true;
      ptr, at, regs, fits := ParseTurn(text, ptr, scan, regs, buf, at);
      if !fits {
        return ptr, at, WritesPast;
      }
      OverTake(was, before, t.out);
      if ptr > |text| {
        return ptr, at, ReadsPast;
      }
      assert s[t.used..] == text[ptr..];
      Associate(was[..before], t.out, Walk(text[ptr..], scan, regs).out);
    }
    outcome := Done;
  }

  // On a well-formed literal that an int can measure parse_string is done,
  // never writes more than it counted, and gives what Unescape says.
  lemma WellFormedDone(s: seq<Byte>, scan: Scan, r: Regs)
    requires ReadsHex(scan) && WellFormed(s) && Count(s) < MAX_INT
    ensures Fate(s, scan, r) == Done && Walk(s, scan, r) == Walked(true, Unescape(s), Span(s))
  {
    WellFormedPaired(s);
    CountEnough(s);
    WalkWellFormed(s, scan, r);
  }

  lemma {:induction false} CountAtMost(s: seq<Byte>)
    ensures Count(s) <= |s|
    decreases |s|
  {
    if !Stops(s) {
      CountAtMost(if s[0] == BACK then if |s| >= 2 then s[2..] else [] else s[1..]);
    }
  }

  // What print_string writes, parse_string reads back.
  lemma PrintedIsParsed(s: seq<Byte>, scan: Scan, r: Regs)
    requires ReadsHex(scan) && 0 !in s && |EscapeAll(s)| + 3 <= MAX_INT
    ensures var text := EscapeAll(s) + [QUOTE];
            Fate(text, scan, r) == Done && Walk(text, scan, r) == Walked(true, s, |EscapeAll(s)|)
  {
    var text := EscapeAll(s) + [QUOTE];
    assert text + [] == text;
    PrintParse(s, []);
    CountAtMost(text);
    WellFormedDone(text, scan, r);
  }

  // A lone backslash leaves the text in the first pass, a \u with three
  // bytes behind it in the second; \u12zz stays inside whatever sscanf makes
  // of it.
  lemma CutOff(scan: Scan, r: Regs)
    ensures Fate([BACK], scan, r) == ReadsPast
    ensures var s := [BACK, U, 0x31, 0x32, 0x33]; Paired(s) && !Walk(s, scan, r).inside
    ensures var s := [BACK, U, 0x31, 0x32, 0x7A, 0x7A, QUOTE];
            Paired(s) && AllLongEnough(s, scan, r) && !WellFormed(s)
  {
    hide Encode, Hex4, Combine, Shifted;
    PairedEscape([0x31, 0x32, 0x33], []);
    assert [BACK, U] + [0x31, 0x32, 0x33] + [] == [BACK, U, 0x31, 0x32, 0x33];
    TurnInside([BACK, U, 0x31, 0x32, 0x33], scan, r);
    PairedEscape([0x31, 0x32, 0x7A, 0x7A], [QUOTE]);
    var s := [BACK, U, 0x31, 0x32, 0x7A, 0x7A, QUOTE];
    assert [BACK, U] + [0x31, 0x32, 0x7A, 0x7A] + [QUOTE] == s;
    TurnInside(s, scan, r);
    assert Turn(s, scan, r).used == 6 && s[6..] == [QUOTE];
    assert s[2..][2] == 0x7A && !FourHex(s[2..]);
  }

  lemma PairedEscape(digits: seq<Byte>, rest: seq<Byte>)
    requires (forall i | 0 <= i < |digits| :: digits[i] != BACK && digits[i] != QUOTE) && Stops(rest)
    ensures Paired([BACK, U] + digits + rest)
  {
    var s := [BACK, U] + digits + rest;
    assert s[2..] == digits + rest && (digits + rest)[|digits|..] == rest;
    PairedPlain(digits + rest, |digits|);
  }
}
