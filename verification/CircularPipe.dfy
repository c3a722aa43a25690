/** CircularPipe.hh: a byte queue in a circular buffer, filled and drained by system
    calls that may transfer less than asked. */
module CircularPipe {

  type byte = bv8

  // ----- the index arithmetic of push and pull

  function Data(size: nat, r: nat, w: nat): int {
    if r <= w then w - r else size - r + w
  }

  function Room(size: nat, r: nat, w: nat): int {
    if r <= w then size - w + r - 1 else r - w - 1
  }

  function PushCount(size: nat, r: nat, w: nat): int {
    if r <= w then (if r == 0 then size - w - 1 else size - w) else r - w - 1
  }

  function PullCount(size: nat, r: nat, w: nat): int {
    if r <= w then w - r else size - r
  }

  /** A transfer never overruns, and is empty only when nothing could be moved. */
  lemma Counts(size: nat, r: nat, w: nat)
    requires r < size && w < size
    ensures Data(size, r, w) + Room(size, r, w) == size - 1
    ensures 0 <= PushCount(size, r, w) <= Room(size, r, w)
    ensures 0 <= PullCount(size, r, w) <= Data(size, r, w)
    ensures PushCount(size, r, w) > 0 <==> Room(size, r, w) > 0
    ensures PullCount(size, r, w) > 0 <==> Data(size, r, w) > 0
  {}

  /** Every index stays at most one lap ahead. */
  lemma Wrap(x: nat, size: nat)
    requires x <= size && size >= 1
    ensures x % size == if x == size then 0 else x
  {}

  /** Two pulls that write all they ask for take all the data. */
  lemma TwoPullsDrain(size: nat, r: nat, w: nat)
    requires r < size && w < size
    ensures
      var r1 := (r + PullCount(size, r, w)) % size;
      var r2 := (r1 + PullCount(size, r1, w)) % size;
      && PullCount(size, r, w) + PullCount(size, r1, w) == Data(size, r, w)
      && Data(size, r2, w) == 0
  {
    Wrap(r + PullCount(size, r, w), size);
    var r1 := if r <= w then w else 0;
    assert r1 == (r + PullCount(size, r, w)) % size;
    Wrap(r1 + PullCount(size, r1, w), size);
  }

  /** Two pushes that read all they ask for take all the room. */
  lemma TwoPushesFill(size: nat, r: nat, w: nat)
    requires r < size && w < size
    ensures
      var w1 := (w + PushCount(size, r, w)) % size;
      var w2 := (w1 + PushCount(size, r, w1)) % size;
      && PushCount(size, r, w) + PushCount(size, r, w1) == Room(size, r, w)
      && Room(size, r, w2) == 0
  {
    Wrap(w + PushCount(size, r, w), size);
    var w1 := if r == 0 then size - 1 else if r <= w then 0 else r - 1;
    assert w1 == (w + PushCount(size, r, w)) % size;
    Wrap(w1 + PushCount(size, r, w1), size);
  }

  lemma PushesTakeRoom(size: nat, r: nat, w: nat)
    requires r < size && w < size
    ensures 0 <= PushCount(size, r, w) <= Room(size, r, w)
    ensures PushCount(size, r, (w + PushCount(size, r, w)) % size) == Room(size, r, w) - PushCount(size, r, w)
  {
    TwoPushesFill(size, r, w);
    Counts(size, r, w);
  }

  lemma AppendSplit(s: seq<byte>, t: seq<byte>, i: nat, n: nat)
    requires i <= n <= |t|
    ensures s + t[..n] == s + t[..i] + t[i..n]
  {
    assert t[..n] == t[..i] + t[i..n];
  }

  // ----- the bytes between the two positions

  function Ring(b: seq<byte>, r: nat, w: nat): seq<byte>
    requires r < |b| && w < |b|
  {
    if r <= w then b[r..w] else b[r..] + b[..w]
  }

  /** A run of elements overwritten, and the rest as before. */
  function Splice(b: seq<byte>, w: nat, chunk: seq<byte>): seq<byte>
    requires w + |chunk| <= |b|
  {
    b[..w] + chunk + b[w + |chunk|..]
  }

  /** What read(2) does to the buffer. */
  method Store(buf: array<byte>, w: nat, chunk: seq<byte>)
    requires w + |chunk| <= buf.Length
    modifies buf
    ensures buf[..] == Splice(old(buf[..]), w, chunk)
  {
    forall k | 0 <= k < |chunk| {
      buf[w + k] := chunk[k];
    }
    ghost var s := Splice(old(buf[..]), w, chunk);
    forall k | 0 <= k < buf.Length
      ensures buf[k] == s[k]
    {
      if w <= k < w + |chunk| { assert buf[w + (k - w)] == chunk[k - w]; }
    }
  }

  lemma RingPush(b: seq<byte>, b': seq<byte>, r: nat, w: nat, chunk: seq<byte>)
    requires r < |b| && w < |b| && |chunk| <= PushCount(|b|, r, w)
    requires b' == Splice(b, w, chunk)
    ensures Ring(b', r, (w + |chunk|) % |b|) == Ring(b, r, w) + chunk
  {
    Wrap(w + |chunk|, |b|);
    if r <= w {
      assert b'[r..w + |chunk|] == b[r..w] + chunk;
    } else {
      assert b'[r..] == b[r..];
      assert b'[..w + |chunk|] == b[..w] + chunk;
    }
  }

  lemma RingPull(b: seq<byte>, r: nat, w: nat, len: nat)
    requires r < |b| && w < |b| && len <= PullCount(|b|, r, w)
    ensures Ring(b, r, w) == b[r..r + len] + Ring(b, (r + len) % |b|, w)
  {
    Wrap(r + len, |b|);
  }

  class Pipe {
    const size: nat
    const buf: array<byte>
    var posRead: nat
    var posWrite: nat
    ghost var pushed: seq<byte>  // every byte that ever entered
    ghost var pulled: seq<byte>  // every byte that ever left

    /** What went in is what came out followed by what is inside, in order. */
    ghost predicate Valid()
      reads this, buf
    {
      && buf.Length == size && posRead < size && posWrite < size
      && pushed == pulled + Contents()
    }

    ghost function Contents(): seq<byte>
      requires buf.Length == size && posRead < size && posWrite < size
      reads this, buf
    {
      Ring(buf[..], posRead, posWrite)
    }

    /** A pipe of size 0 can be made but is of no use. */
    constructor (isize: nat)
      ensures fresh(buf) && size == isize && (Valid() <==> isize >= 1)
      ensures pushed == [] && pulled == []
    {
      size := isize;
      buf := new byte[isize];
      posRead, posWrite := 0, 0;
      pushed, pulled := [], [];
    }

    method Occupied() returns (n: int)
      requires Valid()
      ensures n == |Contents()|
    {
      n := Data(size, posRead, posWrite);
    }

    method Vacant() returns (n: int)
      requires Valid()
      ensures n == size - 1 - |Contents()|
    {
      n := Room(size, posRead, posWrite);
    }

    method HaveData() returns (b: bool)
      requires Valid()
      ensures b <==> Contents() != []
    {
      b := Data(size, posRead, posWrite) > 0;
    }

    method HaveRoom() returns (b: bool)
      requires Valid()
      ensures b <==> |Contents()| < size - 1
    {
      b := Room(size, posRead, posWrite) > 0;
    }

    /** read(2) delivered `chunk`, at most the number of bytes asked for. The result
        says that nothing was read, whether for want of input or of room. */
    method Push(chunk: seq<byte>) returns (nothing: bool)
      requires Valid() && |chunk| <= PushCount(size, posRead, posWrite)
      modifies this, buf
      ensures Valid() && pulled == old(pulled) && pushed == old(pushed) + chunk
      ensures Contents() == old(Contents()) + chunk
      ensures posRead == old(posRead) && posWrite == (old(posWrite) + |chunk|) % size
      ensures nothing <==> chunk == []
    {
      RingPush(buf[..], Splice(buf[..], posWrite, chunk), posRead, posWrite, chunk);
      Store(buf, posWrite, chunk);
      var len := |chunk|;
      posWrite := posWrite + len;
      posWrite := posWrite % size;
      nothing := len == 0;
      pushed := pushed + chunk;
    }

    /** write(2) accepted the first `len` of the bytes offered. */
    method Pull(len: nat) returns (chunk: seq<byte>)
      requires Valid() && len <= PullCount(size, posRead, posWrite)
      modifies this
      ensures Valid() && pushed == old(pushed) && pulled == old(pulled) + chunk
      ensures |chunk| == len && old(Contents()) == chunk + Contents()
      ensures posWrite == old(posWrite) && posRead == (old(posRead) + len) % size
    {
      RingPull(buf[..], posRead, posWrite, len);
      chunk := buf[posRead..posRead + len];
      posRead := posRead + len;
      posRead := posRead % size;
      pulled := pulled + chunk;
    }

    /** Two pulls that write all they are offered empty the pipe. */
    method PullTwice() returns (chunk: seq<byte>)
      requires Valid()
      modifies this
      ensures Valid() && Contents() == [] && chunk == old(Contents())
      ensures pushed == old(pushed) && pulled == old(pulled) + chunk
    {
      TwoPullsDrain(size, posRead, posWrite);
      chunk := Pull(PullCount(size, posRead, posWrite));
      var more := Pull(PullCount(size, posRead, posWrite));
      chunk := chunk + more;
    }

    /** Two pushes that read all they ask for, from an input that does not run dry, fill
        the pipe with the head of that input. */
    method PushTwice(input: seq<byte>) returns (taken: nat)
      requires Valid() && |input| >= Room(size, posRead, posWrite)
      modifies this, buf
      ensures Valid() && |Contents()| == size - 1
      ensures taken <= |input| && Contents() == old(Contents()) + input[..taken]
      ensures pulled == old(pulled) && pushed == old(pushed) + input[..taken]
    {
      var room := Vacant();
      var first := PushCount(size, posRead, posWrite);
      PushesTakeRoom(size, posRead, posWrite);
      var _ := Push(input[..first]);
      var second := PushCount(size, posRead, posWrite);
      var _ := Push(input[first..first + second]);
      taken := room;
      AppendSplit(old(Contents()), input, first, room);
      AppendSplit(old(pushed), input, first, room);
    }
  }
}
