/** The pipe buffer (kernel/src/fs/pipe.rs): a circular array that keeps one slot free.
    Reads and writes hold the buffer's lock, so a run is a sequence of calls.
  */
module Pipe {
  import opened Basics
  import opened Bits

  type Byte = nat

  /** `x % size` for an index that has wrapped at most once. */
  lemma WrapOnce(x: nat, size: nat)
    requires 0 < size && x < 2 * size
    ensures x % size == if x < size then x else x - size
  {
    if x < size {
      ModUnique(x, size, 0, x);
    } else {
      ModUnique(x, size, 1, x - size);
    }
  }

  method Wrap(x: nat, size: nat) returns (r: nat)
    requires 0 < size && x < 2 * size
    ensures r == if x < size then x else x - size
  {
    WrapOnce(x, size);
    r := x % size;
  }

  /** The bytes from `r` up to `w`, around the end of the array if need be. */
  ghost function Segment(d: seq<Byte>, r: nat, w: nat): seq<Byte>
    requires r < |d| && w < |d|
  {
    if r <= w then d[r..w] else d[r..] + d[..w]
  }

  /** Number of bytes between the positions. */
  function Used(size: nat, r: nat, w: nat): nat
    requires r < size && w < size
  {
    if w >= r then w - r else size - r + w
  }

  /** Storing behind the segment extends it. */
  lemma SegmentExtend(d: seq<Byte>, d': seq<Byte>, r: nat, w: nat, src: seq<Byte>)
    requires r < |d| && w < |d| && |d'| == |d| && Used(|d|, r, w) + |src| < |d|
    requires forall i | 0 <= i < |src| :: d'[if w + i < |d| then w + i else w + i - |d|] == src[i]
    requires forall x | 0 <= x < |d| && !InRange(|d|, w, |src|, x) :: d'[x] == d[x]
    ensures var w' := if w + |src| < |d| then w + |src| else w + |src| - |d|;
            Segment(d', r, w') == Segment(d, r, w) + src
  {
    var w' := if w + |src| < |d| then w + |src| else w + |src| - |d|;
    var s, s' := Segment(d, r, w), Segment(d', r, w');
    assert |s'| == |s| + |src|;
    forall i | 0 <= i < |s'|
      ensures s'[i] == (s + src)[i]
    {
      var x := if r + i < |d| then r + i else r + i - |d|;
      assert s'[i] == d'[x];
      if i < |s| {
        assert s[i] == d[x] && !InRange(|d|, w, |src|, x);
      } else {
        assert x == if w + (i - |s|) < |d| then w + (i - |s|) else w + (i - |s|) - |d|;
      }
    }
  }

  /** Taking from the front, up to the end of the array, leaves the rest. */
  lemma SegmentShrink(d: seq<Byte>, r: nat, w: nat, n: nat)
    requires r < |d| && w < |d| && r != w && n <= if w > r then w - r else |d| - r
    ensures n <= |Segment(d, r, w)| && d[r..r + n] == Segment(d, r, w)[..n]
    ensures Segment(d, if r + n < |d| then r + n else 0, w) == Segment(d, r, w)[n..]
  {
  }

  /** What a read leaves: the rest of the content, behind all that was delivered. */
  lemma Taken(d: seq<Byte>, r: nat, w: nat, n: nat, accepted: seq<Byte>, delivered: seq<Byte>, c: seq<Byte>)
    requires r < |d| && w < |d| && r != w && n <= if w > r then w - r else |d| - r
    requires c == Segment(d, r, w) && accepted == delivered + c
    ensures n <= |c| && d[r..r + n] == c[..n]
    ensures Segment(d, if r + n < |d| then r + n else 0, w) == c[n..]
    ensures accepted == delivered + d[r..r + n] + c[n..]
  {
    SegmentShrink(d, r, w, n);
    assert c == c[..n] + c[n..];
  }

  /** What a write leaves: the content with the new bytes behind it. */
  lemma Put(d: seq<Byte>, d': seq<Byte>, r: nat, w: nat, src: seq<Byte>,
            accepted: seq<Byte>, delivered: seq<Byte>, c: seq<Byte>)
    requires r < |d| && w < |d| && |d'| == |d| && Used(|d|, r, w) + |src| < |d|
    requires forall i | 0 <= i < |src| :: d'[if w + i < |d| then w + i else w + i - |d|] == src[i]
    requires forall x | 0 <= x < |d| && !InRange(|d|, w, |src|, x) :: d'[x] == d[x]
    requires c == Segment(d, r, w) && accepted == delivered + c
    ensures Segment(d', r, if w + |src| < |d| then w + |src| else w + |src| - |d|) == c + src
    ensures accepted + src == delivered + (c + src)
  {
    SegmentExtend(d, d', r, w, src);
  }

  lemma NextPiece(base: seq<Byte>, src: seq<Byte>, n: nat, m: nat)
    requires n + m <= |src|
    ensures base + src[..n] + src[n..][..m] == base + src[..n + m]
  {
    assert src[..n] + src[n..][..m] == src[..n + m];
    assert base + src[..n] + src[n..][..m] == base + (src[..n] + src[n..][..m]);
  }

  /** `x` is one of the `n` positions from `w` on. */
  predicate InRange(size: nat, w: nat, n: nat, x: nat) {
    w <= x < w + n || w <= x + size < w + n
  }

  class PipeBuffer {
    const data: array<Byte>
    var readPos: nat
    var writePos: nat

    /** All bytes ever accepted, and all ever delivered. */
    ghost var accepted: seq<Byte>
    ghost var delivered: seq<Byte>

    /** The bytes delivered, followed by those in the buffer, are the bytes accepted. */
    ghost predicate Valid()
      reads this, data
    {
      && readPos < data.Length && writePos < data.Length
      && accepted == delivered + Contents()
    }

    ghost function Contents(): seq<Byte>
      requires readPos < data.Length && writePos < data.Length
      reads this, data
    {
      Segment(data[..], readPos, writePos)
    }

    constructor (size: nat)
      requires size > 0
      ensures Valid() && Contents() == [] && accepted == [] && data.Length == size && fresh(data)
    {
      data := new Byte[size](_ => 0);
      readPos, writePos, accepted, delivered := 0, 0, [], [];
    }

    /** `available_read`. */
    method AvailableRead() returns (n: nat)
      requires Valid()
      ensures n == |Contents()| <= data.Length - 1
    {
      n := if writePos >= readPos then writePos - readPos else data.Length - readPos + writePos;
    }

    /** `available_write`. */
    method AvailableWrite() returns (n: nat)
      requires Valid()
      ensures n + |Contents()| == data.Length - 1
    {
      n := if writePos >= readPos then data.Length - (writePos - readPos) - 1 else readPos - writePos - 1;
    }

    /** `read`: takes bytes off the front. It stops at the end of the array, but a non-empty
        pipe always gives a non-empty buffer something. */
    method Read(buf: array<Byte>) returns (n: nat)
      requires Valid() && buf != data
      modifies this`readPos, this`delivered, buf
      ensures Valid() && accepted == old(accepted)
      ensures n <= buf.Length && n <= |old(Contents())|
      ensures n == 0 <==> old(Contents()) == [] || buf.Length == 0
      ensures n < buf.Length ==> n == |old(Contents())| || readPos == 0
      ensures buf[..n] == old(Contents())[..n] && buf[n..] == old(buf[n..])
      ensures Contents() == old(Contents())[n..]
      ensures delivered == old(delivered) + buf[..n]
    {
      var r, w, size := readPos, writePos, data.Length;
      if r == w {
        n := 0;
        return;
      }
      var available := if w > r then w - r else size - r;
      n := Min(available, buf.Length);
      ghost var d, c := data[..], Contents();
      CopyOut(r, n, buf);
      readPos := Wrap(r + n, size);
      delivered := delivered + buf[..n];
      assert buf[..n] == d[r..r + n];
      Taken(d, r, w, n, accepted, old(delivered), c);
    }

    /** The copy loop of `read`. */
    method CopyOut(r: nat, n: nat, buf: array<Byte>)
      requires n <= buf.Length && r + n <= data.Length && buf != data
      modifies buf
      ensures buf[..n] == data[r..r + n] && buf[n..] == old(buf[n..])
    {
      for i := 0 to n
        invariant forall j | 0 <= j < i :: buf[j] == data[r + j]
        invariant forall j | i <= j < buf.Length :: buf[j] == old(buf[j])
      {
        var x := Wrap(r + i, data.Length);
        buf[i] := data[x];
      }
    }

    /** `write`: appends as much as there is room for. */
    method Write(src: seq<Byte>) returns (n: nat)
      requires Valid()
      modifies this`writePos, this`accepted, data
      ensures Valid() && delivered == old(delivered)
      ensures n == Min(|src|, data.Length - 1 - |old(Contents())|)
      ensures Contents() == old(Contents()) + src[..n]
      ensures accepted == old(accepted) + src[..n]
    {
      var r, w, size := readPos, writePos, data.Length;
      var available := if w >= r then size - (w - r) - 1 else r - w - 1;
      n := Min(available, |src|);
      ghost var d, c := data[..], Contents();
      assert available == size - 1 - |c| && Used(size, r, w) == |c|;
      ghost var stored, accepted0 := src[..n], accepted;
      CopyIn(w, src[..n]);
      writePos := Wrap(w + n, size);
      accepted := accepted + stored;
      Put(d, data[..], r, w, stored, accepted0, delivered, c);
    }

    /** The copy loop of `write`. */
    method CopyIn(w: nat, src: seq<Byte>)
      requires w < data.Length && |src| < data.Length
      modifies data
      ensures forall j | 0 <= j < |src| :: data[if w + j < data.Length then w + j else w + j - data.Length] == src[j]
      ensures forall x | 0 <= x < data.Length && !InRange(data.Length, w, |src|, x) :: data[x] == old(data[x])
    {
      for i := 0 to |src|
        invariant forall j | 0 <= j < i :: data[if w + j < data.Length then w + j else w + j - data.Length] == src[j]
        invariant forall x | 0 <= x < data.Length && !InRange(data.Length, w, i, x) :: data[x] == old(data[x])
      {
        var x := Wrap(w + i, data.Length);
        data[x] := src[i];
      }
    }

    /** The write loop of `pipe_file_write` in non-blocking mode: error codes when the read end
        is closed (-9) or nothing could be written (-11), else the number of bytes written. */
    method WriteNonblocking(src: seq<Byte>, readClosed: bool) returns (r: int)
      requires Valid()
      modifies this`writePos, this`accepted, data
      ensures Valid() && delivered == old(delivered)
      ensures var n := if readClosed then 0 else Min(|src|, data.Length - 1 - |old(Contents())|);
              && accepted == old(accepted) + src[..n] && Contents() == old(Contents()) + src[..n]
              && r == if readClosed then -9 else if n == 0 && src != [] then -11 else n
    {
      if readClosed {
        return -9;
      }
      var total := 0;
      while total < |src|
        invariant total <= |src| && Valid() && delivered == old(delivered)
        invariant total <= data.Length - 1 - |old(Contents())|
        invariant accepted == old(accepted) + src[..total] && Contents() == old(Contents()) + src[..total]
        decreases |src| - total
      {
        var count := Write(src[total..]);
        NextPiece(old(accepted), src, total, count);
        NextPiece(old(Contents()), src, total, count);
        if count == 0 {
          return if total > 0 then total else -11;
        }
        total := total + count;
      }
      return total;
    }

    /** The write loop in blocking mode. Whenever the pipe is full the writer sleeps, and readers with
        room for `readers[k]` bytes come in between; when none is left, there is no current task to
        put to sleep and the loop gives up. */
    method WriteBlocking(src: seq<Byte>, readClosed: bool, readers: seq<nat>) returns (r: int)
      requires Valid()
      modifies this, data
      ensures Valid() && old(delivered) <= delivered
      ensures readClosed ==> r == -9 && accepted == old(accepted) && delivered == old(delivered)
      ensures !readClosed ==> 0 <= r <= |src| && accepted == old(accepted) + src[..r]
      ensures !readClosed && r < |src| ==> |Contents()| == data.Length - 1
      ensures data.Length > 1 && |src| <= |readers| && (forall i | 0 <= i < |readers| :: readers[i] > 0) ==>
                readClosed || r == |src|
    {
      if readClosed {
        return -9;
      }
      var total, k := 0, 0;
      while total < |src|
        invariant 0 <= total <= |src| && 0 <= k <= |readers| && Valid() && old(delivered) <= delivered
        invariant accepted == old(accepted) + src[..total]
        invariant data.Length > 1 && (forall i | 0 <= i < |readers| :: readers[i] > 0) ==>
                    k <= total || (k == total + 1 && |Contents()| < data.Length - 1)
        decreases |readers| - k, |src| - total
      {
        var count := Write(src[total..]);
        NextPiece(old(accepted), src, total, count);
        total := total + count;
        if count == 0 {
          if k == |readers| {
            return total;
          }
          var buf := new Byte[readers[k]](_ => 0);
          var _ := Read(buf);
          k := k + 1;
        }
      }
      return total;
    }
  }
}
