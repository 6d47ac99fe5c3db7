// On-disk layout (include/fs.h): 32-bit little-endian words, the superblock,
// bitmap bits, and where an inode lies.
module FsLayout {
  import opened Widths
  import opened Common
  import opened BlockCache

  type word = x: int | 0 <= x < W32

  // ---------- words ----------

  function WordAt(b: seq<byte>, at: nat): word
    requires at + 4 <= |b|
  {
    var b0: int, b1: int, b2: int, b3: int := b[at], b[at + 1], b[at + 2], b[at + 3];
    b0 + 0x100 * b1 + 0x1_0000 * b2 + 0x100_0000 * b3
  }

  function ByteOf(w: word, k: nat): byte
    requires k < 4
  {
    if k == 0 then w % 0x100
    else if k == 1 then w / 0x100 % 0x100
    else if k == 2 then w / 0x100 / 0x100 % 0x100
    else w / 0x100 / 0x100 / 0x100
  }

  function Bytes(ws: seq<word>): (b: seq<byte>)
    ensures |b| == 4 * |ws|
  {
    seq(4 * |ws|, i requires 0 <= i < 4 * |ws| => ByteOf(ws[i / 4], i % 4))
  }

  function Words(b: seq<byte>): (ws: seq<word>)
    requires |b| % 4 == 0
    ensures |ws| == |b| / 4
  {
    seq(|b| / 4, i requires 0 <= i < |b| / 4 => WordAt(b, 4 * i))
  }

  lemma WordOfBytes(w: word)
    ensures var b0: int, b1: int, b2: int, b3: int := ByteOf(w, 0), ByteOf(w, 1), ByteOf(w, 2), ByteOf(w, 3);
            b0 + 0x100 * b1 + 0x1_0000 * b2 + 0x100_0000 * b3 == w
  {
  }

  lemma ByteAt(ws: seq<word>, i: nat, k: nat)
    requires i < |ws| && k < 4
    ensures Bytes(ws)[4 * i + k] == ByteOf(ws[i], k)
  {
    assert (4 * i + k) / 4 == i && (4 * i + k) % 4 == k;
  }

  lemma WordAtBytes(ws: seq<word>, i: nat)
    requires i < |ws|
    ensures WordAt(Bytes(ws), 4 * i) == ws[i]
  {
    hide Bytes, ByteOf;
    ByteAt(ws, i, 0);
    ByteAt(ws, i, 1);
    ByteAt(ws, i, 2);
    ByteAt(ws, i, 3);
    WordOfBytes(ws[i]);
  }

  lemma WordsOfBytes(ws: seq<word>)
    ensures Words(Bytes(ws)) == ws
  {
    forall i | 0 <= i < |ws|
      ensures Words(Bytes(ws))[i] == ws[i]
    {
      WordAtBytes(ws, i);
    }
  }

  // ---------- bits ----------

  function Mask(k: nat): (m: nat)
    requires k < 8
    ensures 1 <= m <= 128
  {
    if k == 0 then 1 else if k == 1 then 2 else if k == 2 then 4 else if k == 3 then 8
    else if k == 4 then 16 else if k == 5 then 32 else if k == 6 then 64 else 128
  }

  // (b & (1 << k)) != 0
  predicate TestBit(b: byte, k: nat)
    requires k < 8
  {
    b / Mask(k) % 2 == 1
  }

  function Digit(bit: bool): (d: nat)
    ensures d <= 1
  {
    if bit then 1 else 0
  }

  function FromBits(s: seq<bool>): byte
    requires |s| == 8
  {
    Digit(s[0]) + 2 * Digit(s[1]) + 4 * Digit(s[2]) + 8 * Digit(s[3])
    + 16 * Digit(s[4]) + 32 * Digit(s[5]) + 64 * Digit(s[6]) + 128 * Digit(s[7])
  }

  function ToBits(b: byte): (s: seq<bool>)
    ensures |s| == 8
  {
    seq(8, k requires 0 <= k < 8 => TestBit(b, k))
  }

  // b | (1 << k)
  function SetBit(b: byte, k: nat): byte
    requires k < 8
  {
    FromBits(ToBits(b)[k := true])
  }

  // b & ~(1 << k)
  function ClearBit(b: byte, k: nat): byte
    requires k < 8
  {
    FromBits(ToBits(b)[k := false])
  }

  lemma {:induction false} MultipleFar(d: int, m: int)
    requires m > 0 && d != 0
    ensures d * m >= m || d * m <= -m
    decreases if d > 0 then d else -d
  {
    if d > 1 {
      MultipleFar(d - 1, m);
      assert d * m == (d - 1) * m + m;
    } else if d < -1 {
      MultipleFar(d + 1, m);
      assert d * m == (d + 1) * m - m;
    }
  }

  // Division is what it should be.
  lemma DivMod(x: int, m: int, q: int, r: int)
    requires m > 0 && 0 <= r < m && x == q * m + r
    ensures x / m == q && x % m == r
  {
    var d := q - x / m;
    assert x == x / m * m + x % m;
    assert d * m == x % m - r;
    if d != 0 {
      MultipleFar(d, m);
    }
  }

  lemma Parity(q: int, t: int, h: int)
    requires 0 <= t <= 1 && q == t + 2 * h
    ensures q % 2 == t
  {
  }

  // bit k sits between the lower bits r and the higher bits h.
  lemma BitBetween(x: byte, k: nat, bit: bool, r: nat, h: nat)
    requires k < 8 && r < Mask(k) && x == (Digit(bit) + 2 * h) * Mask(k) + r
    ensures TestBit(x, k) <==> bit
  {
    DivMod(x, Mask(k), Digit(bit) + 2 * h, r);
    Parity(Digit(bit) + 2 * h, Digit(bit), h);
  }

  lemma BitOfFromBits(s: seq<bool>, k: nat)
    requires |s| == 8 && k < 8
    ensures TestBit(FromBits(s), k) <==> s[k]
  {
    var x := FromBits(s);
    var d0, d1, d2, d3 := Digit(s[0]), Digit(s[1]), Digit(s[2]), Digit(s[3]);
    var d4, d5, d6, d7 := Digit(s[4]), Digit(s[5]), Digit(s[6]), Digit(s[7]);
    hide Digit, FromBits, TestBit;
    if k == 0 { BitBetween(x, 0, s[0], 0, d1 + 2 * d2 + 4 * d3 + 8 * d4 + 16 * d5 + 32 * d6 + 64 * d7); }
    if k == 1 { BitBetween(x, 1, s[1], d0, d2 + 2 * d3 + 4 * d4 + 8 * d5 + 16 * d6 + 32 * d7); }
    if k == 2 { BitBetween(x, 2, s[2], d0 + 2 * d1, d3 + 2 * d4 + 4 * d5 + 8 * d6 + 16 * d7); }
    if k == 3 { BitBetween(x, 3, s[3], d0 + 2 * d1 + 4 * d2, d4 + 2 * d5 + 4 * d6 + 8 * d7); }
    if k == 4 { BitBetween(x, 4, s[4], d0 + 2 * d1 + 4 * d2 + 8 * d3, d5 + 2 * d6 + 4 * d7); }
    if k == 5 { BitBetween(x, 5, s[5], d0 + 2 * d1 + 4 * d2 + 8 * d3 + 16 * d4, d6 + 2 * d7); }
    if k == 6 { BitBetween(x, 6, s[6], d0 + 2 * d1 + 4 * d2 + 8 * d3 + 16 * d4 + 32 * d5, d7); }
    if k == 7 { BitBetween(x, 7, s[7], d0 + 2 * d1 + 4 * d2 + 8 * d3 + 16 * d4 + 32 * d5 + 64 * d6, 0); }
  }

  lemma BitsIndependent(b: byte, k: nat, j: nat)
    requires k < 8 && j < 8
    ensures TestBit(SetBit(b, k), j) <==> j == k || TestBit(b, j)
    ensures TestBit(ClearBit(b, k), j) <==> j != k && TestBit(b, j)
  {
    BitOfFromBits(ToBits(b)[k := true], j);
    BitOfFromBits(ToBits(b)[k := false], j);
  }
}
