// Shared by all modules.
module Common {

  datatype Option<+T> = None | Some(value: T)

  type byte = x: int | 0 <= x < 256

  ghost predicate Distinct<T>(q: seq<T>) {
    forall i, j | 0 <= i < j < |q| :: q[i] != q[j]
  }

  lemma DropFirst<T>(q: seq<T>)
    requires Distinct(q) && q != []
    ensures Distinct(q[1..]) && q[0] !in q[1..] && q == [q[0]] + q[1..]
  {
    assert forall i | 0 <= i < |q[1..]| :: q[1..][i] == q[i + 1];
  }

  // s with src written over it at position i.
  function Over<T>(s: seq<T>, i: nat, src: seq<T>): (t: seq<T>)
    requires i + |src| <= |s|
    ensures |t| == |s|
  {
    s[..i] + src + s[i + |src|..]
  }

  lemma OverAt<T>(s: seq<T>, i: nat, src: seq<T>)
    requires i + |src| <= |s|
    ensures forall j | 0 <= j < |s| :: Over(s, i, src)[j] == if i <= j < i + |src| then src[j - i] else s[j]
    ensures Over(s, i, src)[i..i + |src|] == src
  {
  }

  // memcpy into a.
  method Copy<T>(a: array<T>, at: nat, src: seq<T>)
    requires at + |src| <= a.Length
    modifies a
    ensures a[..] == Over(old(a[..]), at, src)
  {
    var i := 0;
    while i < |src|
      invariant 0 <= i <= |src|
      invariant forall j | 0 <= j < a.Length :: a[j] == if at <= j < at + i then src[j - at] else old(a[j])
    {
      a[at + i] := src[i];
      i := i + 1;
    }
  }

  // Writing b right behind a is writing a + b.
  lemma OverOver<T>(s: seq<T>, i: nat, a: seq<T>, b: seq<T>)
    requires i + |a| + |b| <= |s|
    ensures Over(Over(s, i, a), i + |a|, b) == Over(s, i, a + b)
  {
    var t, u := Over(Over(s, i, a), i + |a|, b), Over(s, i, a + b);
    assert forall k | 0 <= k < |s| :: t[k] == u[k];
  }

  lemma OverNothing<T>(s: seq<T>, i: nat)
    requires i <= |s|
    ensures Over(s, i, []) == s
  {
  }

  lemma OverTake<T>(s: seq<T>, i: nat, src: seq<T>)
    requires i + |src| <= |s|
    ensures Over(s, i, src)[..i + |src|] == s[..i] + src
  {
  }

  lemma OverWithin<T>(s: seq<T>, n: nat, i: nat, src: seq<T>)
    requires i + |src| <= n <= |s|
    ensures Over(s, i, src)[..n] == Over(s[..n], i, src) && Over(s, i, src)[n..] == s[n..]
  {
  }

  lemma Associate<T>(a: seq<T>, b: seq<T>, c: seq<T>)
    ensures a + (b + c) == (a + b) + c
  {
  }
}
