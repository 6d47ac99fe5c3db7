// Bytes and big-endian numbers, shared by the wire codecs.
module Bytes {
  import Casts

  type Byte = Casts.Byte

  function ToByte(n: nat): Byte
    requires n < 256
  {
    n as bv8
  }

  lemma ByteValue(n: nat)
    requires n < 256
    ensures ToByte(n) as nat == n
  {
    Casts.CastValue(n);
  }

  function Power(b: nat, k: nat): (p: nat)
    ensures b > 0 ==> p > 0
  {
    if k == 0 then 1 else b * Power(b, k - 1)
  }

  // n in k bytes, most significant first.
  function Big(n: nat, k: nat): (s: seq<Byte>)
    ensures |s| == k
  {
    if k == 0 then [] else Big(n / 256, k - 1) + [ToByte(n % 256)]
  }

  function Value(s: seq<Byte>): nat {
    if s == [] then 0 else Value(s[..|s| - 1]) * 256 + s[|s| - 1] as nat
  }

  lemma {:induction false} ValueBig(n: nat, k: nat)
    requires n < Power(256, k)
    ensures Value(Big(n, k)) == n
  {
    if k > 0 {
      var s := Big(n, k);
      assert s[..k - 1] == Big(n / 256, k - 1);
      assert n / 256 < Power(256, k - 1);
      ValueBig(n / 256, k - 1);
      ByteValue(n % 256);
      hide ToByte;
    }
  }

  lemma {:induction false} ValueBound(s: seq<Byte>)
    ensures Value(s) < Power(256, |s|)
  {
    if s != [] {
      ValueBound(s[..|s| - 1]);
      assert Power(256, |s|) == 256 * Power(256, |s| - 1);
    }
  }

  lemma Powers()
    ensures Power(256, 2) == 0x1_0000 && Power(256, 8) == 0x1_0000_0000_0000_0000
  {
    assert Power(256, 2) == 256 * Power(256, 1) && Power(256, 1) == 256 * Power(256, 0);
    assert Power(256, 8) == 256 * Power(256, 7) && Power(256, 7) == 256 * Power(256, 6);
    assert Power(256, 6) == 256 * Power(256, 5) && Power(256, 5) == 256 * Power(256, 4);
    assert Power(256, 4) == 256 * Power(256, 3) && Power(256, 3) == 256 * Power(256, 2);
  }
}
