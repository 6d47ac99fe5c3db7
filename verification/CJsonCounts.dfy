// When the second pass of parse_string (src/cjson.c:92-146) writes more than
// the first pass counted.  The first pass takes every byte behind a
// backslash for escaped and stops at the first quote that is not; the second
// takes four bytes behind a \u for digits, whatever they are.
module CJsonCounts {
  import opened Bytes
  import opened Utf8
  import opened Widths
  import opened CJson

  // ---------- the first pass over a few bytes ----------

  // It gets through d and goes on right behind it.
  ghost predicate Through(d: seq<Byte>)
    decreases |d|
  {
    d == [] || (d[0] != QUOTE && if d[0] == BACK then |d| >= 2 && Through(d[2..]) else Through(d[1..]))
  }

  // It stops at a quote in d.
  ghost predicate StopsIn(d: seq<Byte>)
    decreases |d|
  {
    d != [] && (d[0] == QUOTE || if d[0] == BACK then |d| >= 2 && StopsIn(d[2..]) else StopsIn(d[1..]))
  }

  // The last byte of d is a backslash that takes the byte behind d along.
  ghost predicate TakesOn(d: seq<Byte>)
    decreases |d|
  {
    d != [] && d[0] != QUOTE && if d[0] == BACK then |d| == 1 || TakesOn(d[2..]) else TakesOn(d[1..])
  }

  lemma {:induction false} OneOfThree(d: seq<Byte>)
    ensures Through(d) || StopsIn(d) || TakesOn(d)
    decreases |d|
  {
    if d != [] && d[0] != QUOTE {
      if d[0] != BACK {
        OneOfThree(d[1..]);
      } else if |d| >= 2 {
        OneOfThree(d[2..]);
      }
    }
  }

  lemma {:induction false} CountThrough(d: seq<Byte>, rest: seq<Byte>)
    requires Through(d)
    ensures Count(d + rest) == Count(d) + Count(rest) && (Paired(d + rest) <==> Paired(rest))
    decreases |d|
  {
    if d == [] {
      assert d + rest == rest;
    } else if d[0] == BACK {
      assert (d + rest)[2..] == d[2..] + rest;
      CountThrough(d[2..], rest);
    } else {
      assert (d + rest)[1..] == d[1..] + rest;
      CountThrough(d[1..], rest);
    }
  }

  lemma {:induction false} CountStops(d: seq<Byte>, rest: seq<Byte>)
    requires StopsIn(d)
    ensures Count(d + rest) == Count(d) && Paired(d + rest)
    decreases |d|
  {
    if d[0] == QUOTE {
    } else if d[0] == BACK {
      assert (d + rest)[2..] == d[2..] + rest;
      CountStops(d[2..], rest);
    } else {
      assert (d + rest)[1..] == d[1..] + rest;
      CountStops(d[1..], rest);
    }
  }

  lemma {:induction false} CountTakesOn(d: seq<Byte>, z: Byte, rest: seq<Byte>)
    requires TakesOn(d)
    ensures Count(d + ([z] + rest)) == Count(d) + Count(rest) && (Paired(d + ([z] + rest)) <==> Paired(rest))
    decreases |d|
  {
    var s := d + ([z] + rest);
    if d[0] == BACK && |d| == 1 {
      assert s[2..] == rest;
    } else if d[0] == BACK {
      assert s[2..] == d[2..] + ([z] + rest);
      CountTakesOn(d[2..], z, rest);
    } else {
      assert s[1..] == d[1..] + ([z] + rest);
      CountTakesOn(d[1..], z, rest);
    }
  }

  // ---------- digits that do no harm ----------

  // Four bytes in the place of digits that the first pass gets through,
  // counting three at least.
  ghost predicate Harmless(d: seq<Byte>) {
    |d| == 4 && Through(d) && Count(d) >= 3
  }

  // Any four bytes without a quote or a backslash are.
  lemma PlainHarmless(d: seq<Byte>)
    requires |d| == 4 && QUOTE !in d && BACK !in d
    ensures Harmless(d)
  {
    CountPlain(d, 4);
    assert d[1..][1..] == d[2..] && d[2..][1..] == d[3..] && d[3..][1..] == [];
    assert Through(d[3..]) && Through(d[2..]) && Through(d[1..]);
  }

  // So is the escape at the head of s, with its second half if the second
  // pass takes one.
  ghost predicate HarmlessTurn(s: seq<Byte>, scan: Scan, r: Regs)
    requires s != []
  {
    s[0] == BACK ==>
      && |s| >= 2
      && (s[1] == U ==>
            && |s| >= 6 && Harmless(s[2..6])
            && (Turn(s, scan, r).used == 12 ==> |s| >= 12 && Harmless(s[8..12])))
  }

  ghost predicate AllHarmless(s: seq<Byte>, scan: Scan, r: Regs)
    decreases |s|
  {
    Stops(s) ||
    (HarmlessTurn(s, scan, r) && var t := Turn(s, scan, r); t.used <= |s| && AllHarmless(s[t.used..], scan, t.regs))
  }

  lemma HarmlessDigits(s: seq<Byte>)
    requires |s| >= 4 && Harmless(s[..4])
    ensures Count(s) >= 3 + Count(s[4..]) && (Paired(s[4..]) ==> Paired(s))
  {
    assert s == s[..4] + s[4..];
    CountThrough(s[..4], s[4..]);
    hide Count, Paired, Through;
  }

  // A turn on harmless bytes writes no more than they are counted as.
  lemma HarmlessTurnCounts(s: seq<Byte>, scan: Scan, r: Regs)
    requires !Stops(s) && HarmlessTurn(s, scan, r) && Turn(s, scan, r).used <= |s|
    ensures var t := Turn(s, scan, r);
            Count(s) >= |t.out| + Count(s[t.used..]) && (Paired(s[t.used..]) ==> Paired(s))
  {
    var t := Turn(s, scan, r);
    if s[0] == BACK && s[1] == U {
      EscapeTurnSize(s, scan, r);
      assert s[2..][..4] == s[2..6] && s[2..][4..] == s[6..];
      HarmlessDigits(s[2..]);
      assert Count(s) >= 4 + Count(s[6..]) && (Paired(s[6..]) ==> Paired(s));
      if t.used == 12 {
        assert s[6..][2..] == s[8..] && s[8..][..4] == s[8..12] && s[8..][4..] == s[12..];
        HarmlessDigits(s[8..]);
      }
    }
  }

  lemma EscapeTurnSize(s: seq<Byte>, scan: Scan, r: Regs)
    requires |s| >= 2 && s[0] == BACK && s[1] == U
    ensures var t := Turn(s, scan, r);
            |t.out| <= 4 && (t.used == 6 || (t.used == 12 && |s| >= 8 && s[6] == BACK && s[7] == U))
  {
    hide Encode, Combine, IsHigh, IsLow, Shifted;
  }

  // On a text whose escapes all have harmless digits both passes stay
  // inside it and the second writes no more than was counted.
  lemma {:induction false} HarmlessFits(s: seq<Byte>, scan: Scan, r: Regs)
    requires AllHarmless(s, scan, r)
    ensures Paired(s) && Walk(s, scan, r).inside && |Walk(s, scan, r).out| <= Count(s)
    decreases |s|
  {
    if !Stops(s) {
      HarmlessTurnCounts(s, scan, r);
      var t := Turn(s, scan, r);
      hide Turn, HarmlessTurn, Count;
      HarmlessFits(s[t.used..], scan, t.regs);
    }
  }

  lemma HarmlessDone(s: seq<Byte>, scan: Scan, r: Regs)
    requires AllHarmless(s, scan, r)
    ensures Fate(s, scan, r) == if Count(s) < MAX_INT then Done else TooLong
  {
    HarmlessFits(s, scan, r);
  }

  // parse_string is done with a text if and only if no backslash before the
  // closing quote is its last byte, no escape the second pass meets is cut
  // off, and its counts hold; where all digits are harmless, if and only if
  // an int can hold the count.
  lemma DoneIff(s: seq<Byte>, scan: Scan, r: Regs)
    ensures AllHarmless(s, scan, r) ==> (Fate(s, scan, r) == Done <==> Count(s) < MAX_INT)
    ensures Fate(s, scan, r) == Done <==>
            Paired(s) && AllLongEnough(s, scan, r) && |Walk(s, scan, r).out| <= Count(s) < MAX_INT
    ensures Fate(s, scan, r) == ReadsPast ==> !Paired(s) || !AllLongEnough(s, scan, r)
  {
    WalkInside(s, scan, r);
    if AllHarmless(s, scan, r) {
      HarmlessDone(s, scan, r);
    }
  }

  // ---------- and digits that do ----------

  // Whole bytes, short escapes and \u escapes with their digits.
  ghost predicate Whole(p: seq<Byte>) {
    WellFormed(p) && Span(p) == |p|
  }

  lemma WholeNext(p: seq<Byte>)
    requires Whole(p) && p != []
    ensures !Stops(p) && Complete(p) && Whole(p[Next(p).used..])
  {
  }

  lemma {:induction false} ThroughPlain(s: seq<Byte>, k: nat)
    requires k <= |s| && (forall i | 0 <= i < k :: s[i] != BACK && s[i] != QUOTE) && Through(s[k..])
    ensures Through(s)
  {
    if k > 0 {
      assert s[1..][k - 1..] == s[k..];
      ThroughPlain(s[1..], k - 1);
    } else {
      assert s[0..] == s;
    }
  }

  lemma ThroughNext(s: seq<Byte>)
    requires Complete(s) && !Stops(s) && Through(s[Next(s).used..])
    ensures Through(s)
  {
    if s[0] == BACK && s[1] == U {
      if Next(s).used == 12 {
        assert s[6..][2..] == s[8..] && s[8..][4..] == s[12..];
        ThroughPlain(s[8..], 4);
        assert Through(s[6..]);
      }
      assert s[2..][4..] == s[6..];
      ThroughPlain(s[2..], 4);
      hide Hex4, Encode, Combine;
    }
  }

  lemma {:induction false} WholeThrough(p: seq<Byte>)
    requires Whole(p)
    ensures Through(p)
    decreases |p|
  {
    if p != [] {
      WholeNext(p);
      WholeThrough(p[Next(p).used..]);
      ThroughNext(p);
    }
  }

  // p, a \u with d in the place of digits, and what follows.
  ghost function Text(p: seq<Byte>, d: seq<Byte>, tail: seq<Byte>): seq<Byte> {
    p + ([BACK, U] + (d + tail))
  }

  ghost predicate NoEscape(tail: seq<Byte>) {
    |tail| >= 2 && tail[0] == BACK ==> tail[1] != U
  }

  // The turn at the head of such a text: the token of p that is there, unless
  // that is the first half of a pair and d comes where the second should.
  lemma HeadTurn(p: seq<Byte>, d: seq<Byte>, tail: seq<Byte>, scan: Scan, r: Regs)
    requires Whole(p) && p != [] && |d| == 4 && ReadsHex(scan)
    ensures var used := Turn(Text(p, d, tail), scan, r).used;
            used == Next(p).used || (used == 12 && |p| == 6)
  {
    hide Hex4, FourHex, Encode, Combine, Plain, Shifted, Whole, WellFormed, IsHigh, IsLow;
    var s := Text(p, d, tail);
    WholeNext(p);
    assert forall i | 0 <= i < |p| :: s[i] == p[i];
    if p[0] == BACK && p[1] == U {
      SameFour(s, p, 2);
      SameHex(s[2..], p[2..]);
      if |p| == 7 {
        LastByte(p[Next(p).used..]);
      }
    }
  }

  lemma SameFour(s: seq<Byte>, p: seq<Byte>, i: nat)
    requires |s| >= |p| >= i + 4 && forall j | 0 <= j < |p| :: s[j] == p[j]
    ensures s[i..][..4] == p[i..][..4] == s[i..i + 4]
  {
    assert forall k | 0 <= k < 4 :: s[i..][..4][k] == s[i + k] == p[i + k] == p[i..][..4][k];
  }

  lemma SameHex(s: seq<Byte>, t: seq<Byte>)
    requires FourHex(t) && |s| >= 4 && s[..4] == t[..4]
    ensures FourHex(s) && Hex4(s) == Hex4(t)
  {
    hide IsHex, HexValue;
    assert forall i | 0 <= i < 4 :: s[i] == s[..4][i] == t[..4][i] == t[i];
  }

  lemma LastByte(p: seq<Byte>)
    requires Whole(p) && |p| == 1
    ensures p[0] != BACK
  {
  }

  lemma WalkTurn(s: seq<Byte>, scan: Scan, r: Regs)
    requires !Stops(s) && Turn(s, scan, r).used <= |s|
    ensures var t := Turn(s, scan, r); Walk(s, scan, r).out == t.out + Walk(s[t.used..], scan, t.regs).out
  {
  }

  lemma NoSecond(s: seq<Byte>)
    requires |s| >= 6 && NoEscape(s[6..])
    ensures !(|s| >= 8 && s[6] == BACK && s[7] == U)
  {
    if |s| >= 8 {
      assert s[6..][0] == s[6] && s[6..][1] == s[7];
    }
  }

  // The second pass comes out of it right behind d, having written something.
  lemma {:induction false} WalkBehind(p: seq<Byte>, d: seq<Byte>, tail: seq<Byte>, scan: Scan, r: Regs)
    returns (x: seq<Byte>, r': Regs)
    requires Whole(p) && |d| == 4 && (p != [] ==> ReadsHex(scan)) && NoEscape(tail)
    ensures Walk(Text(p, d, tail), scan, r).out == x + Walk(tail, scan, r').out
    decreases |p|
  {
    hide Turn, Next, Walk, Whole, Complete, WellFormed, ReadsHex;
    var s := Text(p, d, tail);
    var t := Turn(s, scan, r);
    x, r' := t.out, t.regs;
    if p == [] {
      assert s[6..] == tail;
      EscapeTurnSize(s, scan, r);
      NoSecond(s);
      WalkTurn(s, scan, r);
      return;
    }
    HeadTurn(p, d, tail, scan, r);
    WholeNext(p);
    assert s[0] == p[0];
    WalkTurn(s, scan, r);
    if t.used == Next(p).used {
      assert s[t.used..] == Text(p[t.used..], d, tail);
      var y, q := WalkBehind(p[t.used..], d, tail, scan, t.regs);
      x, r' := t.out + y, q;
    } else {
      assert s[12..] == tail;
    }
  }

  // n letters a.
  ghost function Letters(n: nat): (s: seq<Byte>)
    ensures |s| == n
  {
    seq(n, _ => 0x61)
  }

  lemma {:induction false} WalkLetters(n: nat, scan: Scan, r: Regs)
    ensures |Walk(Letters(n), scan, r).out| == n
    decreases n
  {
    if n > 0 {
      assert Letters(n)[1..] == Letters(n - 1);
      WalkLetters(n - 1, scan, r);
    }
  }

  lemma CountText(p: seq<Byte>, d: seq<Byte>, tail: seq<Byte>)
    requires Whole(p)
    ensures Count(Text(p, d, tail)) == Count(p) + 1 + Count(d + tail)
    ensures Paired(Text(p, d, tail)) <==> Paired(d + tail)
  {
    WholeThrough(p);
    CountThrough(p, [BACK, U] + (d + tail));
    assert ([BACK, U] + (d + tail))[2..] == d + tail;
  }

  // A quote among the digits, at which the first pass stops: whatever
  // well-formed text comes before and whatever sscanf makes of the digits,
  // enough letters behind overflow the count.
  lemma SwallowedQuote(p: seq<Byte>, d: seq<Byte>, n: nat, scan: Scan, r: Regs)
    requires Whole(p) && |d| == 4 && StopsIn(d) && (p != [] ==> ReadsHex(scan))
    requires Count(p) + 1 + Count(d) < MAX_INT && n > Count(p) + 1 + Count(d)
    ensures Fate(Text(p, d, Letters(n)), scan, r) == WritesPast
  {
    CountText(p, d, Letters(n));
    CountStops(d, Letters(n));
    var x, q := WalkBehind(p, d, Letters(n), scan, r);
    WalkLetters(n, scan, q);
    hide Walk, Count, Paired;
  }

  lemma QuoteStops(rest: seq<Byte>)
    ensures Count([QUOTE] + rest) == 0 && Paired([QUOTE] + rest)
  {
  }

  // A backslash as the last digit, paired by the first pass with a backslash
  // behind: the first pass stops at the quote that follows, which the second
  // takes for escaped.
  lemma TakenOn(p: seq<Byte>, d: seq<Byte>, n: nat, scan: Scan, r: Regs)
    requires Whole(p) && |d| == 4 && TakesOn(d) && (p != [] ==> ReadsHex(scan))
    requires Count(p) + 1 + Count(d) < MAX_INT && n > Count(p) + Count(d)
    ensures Fate(Text(p, d, [BACK, QUOTE] + Letters(n)), scan, r) == WritesPast
  {
    QuoteStops(Letters(n));
    var tail := [BACK, QUOTE] + Letters(n);
    CountText(p, d, tail);
    assert tail == [BACK] + ([QUOTE] + Letters(n));
    CountTakesOn(d, BACK, [QUOTE] + Letters(n));
    var x, q := WalkBehind(p, d, tail, scan, r);
    assert tail[2..] == Letters(n);
    assert Turn(tail, scan, q) == Turned(2, [QUOTE], q);
    hide Count, Turn, Walk, Paired;
    WalkTurn(tail, scan, q);
    WalkLetters(n, scan, q);
  }

  // Two pairs of a backslash and a byte: a \u counted as three that may
  // come out as four bytes.
  lemma CountedTwo(d: seq<Byte>, scan: Scan, r: Regs)
    requires |d| == 4 && Through(d) && Count(d) <= 2 && scan(d, r.uc) == 0x10000
    ensures Fate(Text([], d, []), scan, r) == WritesPast
  {
    var s := Text([], d, []);
    CountText([], d, []);
    assert d + [] == d && s[2..] == d;
    CountThrough(d, []);
    assert Turn(s, scan, r).used == 6 && |Turn(s, scan, r).out| == 4;
    hide Count, Turn;
  }

  // ---------- exactly which digits ----------

  lemma HexHarmless(s: seq<Byte>)
    requires FourHex(s)
    ensures Harmless(s[..4])
  {
    PlainHarmless(s[..4]);
  }

  // Behind an escape well-formed text is well-formed, paired or not.
  lemma {:induction false} WellFormedBehind(s: seq<Byte>)
    requires WellFormed(s) && |s| >= 2 && s[0] == BACK && s[1] == U
    ensures FourHex(s[2..]) && WellFormed(s[6..])
    decreases |s|
  {
    if Next(s).used == 12 {
      var t := s[6..];
      assert t[2..] == s[8..] && t[6..] == s[12..];
      if |t| >= 8 && t[6] == BACK && t[7] == U {
        assert s[12..][2..] == t[8..] && s[12..][6..] == t[12..];
        WellFormedBehind(s[12..]);
      }
    }
  }

  lemma {:induction false} WellFormedHarmless(s: seq<Byte>, scan: Scan, r: Regs)
    requires WellFormed(s) && ReadsHex(scan)
    ensures AllHarmless(s, scan, r)
    decreases |s|
  {
    if !Stops(s) {
      TurnIsNext(s, scan, r);
      if s[0] == BACK && s[1] == U {
        HexHarmless(s[2..]);
        assert s[2..][..4] == s[2..6];
        if Next(s).used == 12 {
          HexHarmless(s[8..]);
          assert s[8..][..4] == s[8..12];
        }
      }
      var t := Turn(s, scan, r);
      hide Turn, Next, ReadsHex, Harmless;
      WellFormedHarmless(s[t.used..], scan, t.regs);
    }
  }

  // A text with harmless digits in it, alone among well-formed bytes.
  lemma {:induction false} HarmlessText(p: seq<Byte>, d: seq<Byte>, tail: seq<Byte>, scan: Scan, r: Regs)
    requires Whole(p) && Harmless(d) && WellFormed(tail) && ReadsHex(scan)
    ensures AllHarmless(Text(p, d, tail), scan, r)
    decreases |p|
  {
    hide Turn, Next, Harmless, ReadsHex, WellFormed, Hex4;
    var s := Text(p, d, tail);
    var t := Turn(s, scan, r);
    HarmlessFour(d);
    if p == [] {
      HeadHarmless(d, tail, scan, r);
      WellFormedHarmless(s[t.used..], scan, t.regs);
    } else {
      HeadTurn(p, d, tail, scan, r);
      WholeNext(p);
      assert s[0] == p[0];
      TokenHarmless(p, d, tail, scan, r);
      if t.used == Next(p).used {
        assert s[t.used..] == Text(p[t.used..], d, tail);
        HarmlessText(p[t.used..], d, tail, scan, t.regs);
      } else {
        assert s[12..] == tail;
        WellFormedHarmless(tail, scan, t.regs);
      }
    }
  }

  lemma HarmlessFour(d: seq<Byte>)
    requires Harmless(d)
    ensures |d| == 4
  {
  }

  lemma HeadHarmless(d: seq<Byte>, tail: seq<Byte>, scan: Scan, r: Regs)
    requires Harmless(d) && WellFormed(tail)
    ensures var s := Text([], d, tail); var used := Turn(s, scan, r).used;
            HarmlessTurn(s, scan, r) && used <= |s| && WellFormed(s[used..])
  {
    var s := Text([], d, tail);
    EscapeTurnSize(s, scan, r);
    assert s[2..6] == d && s[6..] == tail;
    if Turn(s, scan, r).used == 12 {
      assert tail[0] == s[6] && tail[1] == s[7];
      WellFormedBehind(tail);
      HexHarmless(tail[2..]);
      assert s[8..12] == tail[2..][..4] && s[12..] == tail[6..];
    }
    hide Turn, Harmless;
  }

  lemma TokenHarmless(p: seq<Byte>, d: seq<Byte>, tail: seq<Byte>, scan: Scan, r: Regs)
    requires Whole(p) && p != [] && Harmless(d) && ReadsHex(scan)
    ensures HarmlessTurn(Text(p, d, tail), scan, r)
  {
    hide Turn, Harmless, ReadsHex, WellFormed, Hex4, IsHigh, Whole;
    HarmlessFour(d);
    var s := Text(p, d, tail);
    WholeNext(p);
    HeadTurn(p, d, tail, scan, r);
    assert forall i | 0 <= i < |p| :: s[i] == p[i];
    if p[0] == BACK && p[1] == U {
      HexHarmless(p[2..]);
      SameFour(s, p, 2);
      if Next(p).used == 12 {
        HexHarmless(p[8..]);
        SameFour(s, p, 8);
      } else if |p| == 6 {
        assert s[8..12] == d;
      }
    }
  }

  // Harmless digits are exactly those with which, alone among well-formed
  // bytes, no text overflows the count, whatever sscanf makes of them.
  lemma HarmlessIff(d: seq<Byte>)
    requires |d| == 4
    ensures Harmless(d) <==>
            forall p, tail, scan, r | Whole(p) && WellFormed(tail) && ReadsHex(scan) ::
              Fate(Text(p, d, tail), scan, r) != WritesPast
  {
    if Harmless(d) {
      forall p, tail, scan, r | Whole(p) && WellFormed(tail) && ReadsHex(scan)
        ensures Fate(Text(p, d, tail), scan, r) != WritesPast
      {
        HarmlessText(p, d, tail, scan, r);
        HarmlessDone(Text(p, d, tail), scan, r);
      }
    } else {
      var p, tail, scan, r := Overflows(d);
    }
  }

  // What sscanf may do: read four digits, and else leave what it likes.
  const LARGE: Scan := (s: seq<Byte>, old': Code) => if FourHex(s) then Hex4(s) else 0x10000

  lemma Overflows(d: seq<Byte>) returns (p: seq<Byte>, tail: seq<Byte>, scan: Scan, r: Regs)
    requires |d| == 4 && !Harmless(d)
    ensures Whole(p) && WellFormed(tail) && ReadsHex(scan) && Fate(Text(p, d, tail), scan, r) == WritesPast
  {
    p, tail, scan, r := [], [], LARGE, Regs(0, 0);
    OneOfThree(d);
    CountAtMost(d);
    if StopsIn(d) {
      tail := Letters(6);
      LettersWellFormed(6);
      SwallowedQuote(p, d, 6, scan, r);
    } else if TakesOn(d) {
      tail := [BACK, QUOTE] + Letters(6);
      LettersWellFormed(6);
      assert tail[2..] == Letters(6);
      TakenOn(p, d, 6, scan, r);
    } else {
      NotHex(d);
      CountedTwo(d, scan, r);
    }
  }

  lemma NotHex(d: seq<Byte>)
    requires |d| == 4 && Count(d) <= 2
    ensures !FourHex(d)
  {
    if FourHex(d) {
      HexPlain(d);
    }
  }

  lemma {:induction false} LettersWellFormed(n: nat)
    ensures WellFormed(Letters(n))
  {
    if n > 0 {
      assert Letters(n)[1..] == Letters(n - 1);
      LettersWellFormed(n - 1);
    }
  }

  // The second pass takes \u1"23 for an escape; the first has counted two
  // bytes and stopped at the quote, and four more come out.
  lemma QuoteInDigits(scan: Scan, r: Regs)
    ensures Fate([BACK, U, 0x31, QUOTE, 0x32, 0x33, 0x61, 0x61, 0x61, 0x61], scan, r) == WritesPast
  {
    var d := [0x31, QUOTE, 0x32, 0x33];
    assert d[1..][0] == QUOTE;
    assert Count(d) == 1;
    SwallowedQuote([], d, 4, scan, r);
    assert Text([], d, Letters(4)) == [BACK, U, 0x31, QUOTE, 0x32, 0x33, 0x61, 0x61, 0x61, 0x61];
  }
}
