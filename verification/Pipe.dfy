// The byte pipe (src/pipe.c): a ring written and read in chunks that may be
// split at the end of the buffer.  A region is what a caller does between
// taking the lock and waiting or leaving.
module Pipe {
  import opened Common
  import opened Ring

  datatype Outcome = Done | Waits | Closed

  function Min(a: nat, b: nat): nat {
    if a <= b then a else b
  }

  // The n bytes from position p of a ring, once around at most.
  ghost function Around(s: seq<byte>, p: nat, n: nat): (r: seq<byte>)
    requires p < |s| && n <= |s|
    ensures |r| == n
  {
    if p + n <= |s| then s[p..p + n] else s[p..] + s[..p + n - |s|]
  }

  lemma AroundAt(s: seq<byte>, p: nat, n: nat, i: nat)
    requires p < |s| && i < n <= |s|
    ensures Around(s, p, n)[i] == s[Slot(p, i, |s|)]
  {
  }

  // bytes written behind the content extend it.
  lemma AroundWrite(s: seq<byte>, t: seq<byte>, p: nat, n: nat, src: seq<byte>)
    requires |s| == |t| && p < |s| && n + |src| <= |s|
    requires forall i | 0 <= i < |s| :: t[Slot(p, i, |s|)] == if n <= i < n + |src| then src[i - n] else s[Slot(p, i, |s|)]
    ensures Around(t, p, n + |src|) == Around(s, p, n) + src
  {
    var a, b := Around(t, p, n + |src|), Around(s, p, n) + src;
    forall i | 0 <= i < n + |src|
      ensures a[i] == b[i]
    {
      AroundAt(t, p, n + |src|, i);
      if i < n {
        AroundAt(s, p, n, i);
      }
    }
  }

  // Reading splits the content.
  lemma AroundSplit(s: seq<byte>, p: nat, k: nat, n: nat)
    requires p < |s| && k <= n <= |s|
    ensures Around(s, p, n) == Around(s, p, k) + Around(s, Slot(p, k, |s|), n - k)
  {
    var q := Slot(p, k, |s|);
    var a, b := Around(s, p, n), Around(s, p, k) + Around(s, q, n - k);
    forall i | 0 <= i < n
      ensures a[i] == b[i]
    {
      AroundAt(s, p, n, i);
      if i < k {
        AroundAt(s, p, k, i);
      } else {
        AroundAt(s, q, n - k, i - k);
      }
    }
  }

  // What a write leaves, in one piece or two.
  ghost function Patched(s: seq<byte>, w: nat, src: seq<byte>): (t: seq<byte>)
    requires w < |s| && |src| <= |s|
    ensures |t| == |s|
  {
    if w + |src| <= |s| then s[..w] + src + s[w + |src|..]
    else src[|s| - w..] + s[w + |src| - |s|..w] + src[..|s| - w]
  }

  lemma CopiedTwice(s: seq<byte>, w: nat, src: seq<byte>)
    requires w < |s| && |src| <= |s|
    ensures if w + |src| <= |s| then Over(s, w, src) == Patched(s, w, src)
            else Over(Over(s, w, src[..|s| - w]), 0, src[|s| - w..]) == Patched(s, w, src)
  {
    if w + |src| > |s| {
      var a, b := src[..|s| - w], src[|s| - w..];
      assert Over(s, w, a) == s[..w] + a;
      assert (s[..w] + a)[|b|..] == s[|b|..w] + a;
    }
  }

  lemma PatchedExtends(s: seq<byte>, p: nat, n: nat, src: seq<byte>)
    requires p < |s| && n + |src| <= |s| && src != []
    ensures Around(Patched(s, Slot(p, n, |s|), src), p, n + |src|) == Around(s, p, n) + src
  {
    var w := Slot(p, n, |s|);
    var t := Patched(s, w, src);
    forall i | 0 <= i < |s|
      ensures t[Slot(p, i, |s|)] == if n <= i < n + |src| then src[i - n] else s[Slot(p, i, |s|)]
    {
    }
    AroundWrite(s, t, p, n, src);
  }

  lemma Slices(c: seq<byte>, src: seq<byte>, a: nat, b: nat, d: nat)
    requires a <= b <= d <= |src|
    ensures c + src[a..a] == c
    ensures c + src[a..b] + src[b..d] == c + src[a..d]
  {
    assert src[a..b] + src[b..d] == src[a..d];
  }

  class Pipe {
    const buffer: array<byte>
    const size: nat
    var readPos: nat
    var writePos: nat
    var count: nat
    var writerClosed: bool
    var readerClosed: bool

    ghost predicate Valid()
      reads this
    {
      0 < size == buffer.Length && readPos < size && count <= size && writePos == Slot(readPos, count, size)
    }

    ghost function Contents(): (s: seq<byte>)
      requires Valid()
      reads this, buffer
      ensures |s| == count
    {
      Around(buffer[..], readPos, count)
    }

    constructor (size: nat)
      requires size > 0
      ensures Valid() && Contents() == [] && this.size == size && !readerClosed && !writerClosed && fresh(buffer)
    {
      buffer := new byte[size];
      this.size := size;
      readPos, writePos, count := 0, 0, 0;
      writerClosed, readerClosed := false, false;
    }

    method Put(chunk: seq<byte>)
      requires Valid() && 0 < |chunk| <= size - count
      modifies `writePos, `count, buffer
      ensures Valid() && Contents() == old(Contents()) + chunk
    {
      hide Over, Patched, Around;
      ghost var s := buffer[..];
      PatchedExtends(s, readPos, count, chunk);
      var firstPart := size - writePos;
      if |chunk| <= firstPart {
        Copy(buffer, writePos, chunk);
        writePos := writePos + |chunk|;
        if writePos == size {
          writePos := 0;
        }
      } else {
        Copy(buffer, writePos, chunk[..firstPart]);
        Copy(buffer, 0, chunk[firstPart..]);
        writePos := |chunk| - firstPart;
      }
      CopiedTwice(s, old(writePos), chunk);
      count := count + |chunk|;
    }

    method Take(n: nat) returns (chunk: seq<byte>)
      requires Valid() && 0 < n <= count
      modifies `readPos, `count
      ensures Valid() && |chunk| == n && old(Contents()) == chunk + Contents()
    {
      AroundSplit(buffer[..], readPos, n, count);
      var firstPart := size - readPos;
      if n <= firstPart {
        chunk := buffer[readPos..readPos + n];
        readPos := readPos + n;
        if readPos == size {
          readPos := 0;
        }
      } else {
        chunk := buffer[readPos..] + buffer[..n - firstPart];
        readPos := n - firstPart;
      }
      count := count - n;
    }

    // A region of pipe_write with `written` bytes behind it: it moves what
    // fits, and stops when done, when it has to wait, or when it is full and
    // nobody can read.  It calls condition_signal for every chunk, which is
    // once if it moves anything.
    method Write(src: seq<byte>, written: nat) returns (written': nat, outcome: Outcome, signals: nat)
      requires Valid() && written <= |src|
      modifies `writePos, `count, buffer
      ensures Valid() && written' == Min(|src|, written + size - old(count))
      ensures Contents() == old(Contents()) + src[written..written']
      ensures outcome == if written' == |src| then Done else if readerClosed then Closed else Waits
      ensures signals == if written' > written then 1 else 0
    {
      hide Around, Slot;
      Slices(Contents(), src, written, written, written);
      written', signals := written, 0;
      while written' < |src|
        invariant Valid() && written <= written' <= |src|
        invariant Contents() == old(Contents()) + src[written..written'] && count == old(count) + written' - written
        invariant signals == if written' > written then 1 else 0
        invariant written' == written || written' == |src| || count == size
      {
        if count == size {
          return written', if readerClosed then Closed else Waits, signals;
        }
        var space := size - count;
        var toWrite := |src| - written';
        if toWrite > space {
          toWrite := space;
        }
        Put(src[written'..written' + toWrite]);
        Slices(old(Contents()), src, written, written', written' + toWrite);
        written' := written' + toWrite;
        signals := signals + 1;
      }
      outcome := Done;
    }

    // A region of pipe_read that still wants n bytes.
    method Read(n: nat) returns (got: seq<byte>, outcome: Outcome, signals: nat)
      requires Valid()
      modifies `readPos, `count
      ensures Valid() && |got| == Min(n, old(count)) && old(Contents()) == got + Contents()
      ensures outcome == if |got| == n then Done else if writerClosed then Closed else Waits
      ensures signals == if got != [] then 1 else 0
    {
      got, signals := [], 0;
      while |got| < n
        invariant Valid() && |got| <= n && old(Contents()) == got + Contents() && count == old(count) - |got|
        invariant signals == (if got != [] then 1 else 0) && (got == [] || |got| == n || count == 0)
      {
        if count == 0 {
          return got, if writerClosed then Closed else Waits, signals;
        }
        var toRead := n - |got|;
        if toRead > count {
          toRead := count;
        }
        ghost var c := Contents();
        var chunk := Take(toRead);
        assert got + c == got + chunk + Contents();
        got := got + chunk;
        signals := signals + 1;
      }
      outcome := Done;
    }
  }
}
