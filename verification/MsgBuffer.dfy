/** cooper/util/MsgBuffer: a growable array with a read index and a write index. Every
    operation acts on the readable bytes as on a plain sequence. */
module MsgBuffers {
  import opened Options
  import opened Bytes
  import opened Powers

  const BUFFER_OFFSET: nat := 8
  const EXT_BUFFER: nat := 8192

  /** memcpy */
  method CopyInto(a: array<byte>, at: nat, bytes: seq<byte>)
    requires at + |bytes| <= a.Length
    modifies a
    ensures a[at..at + |bytes|] == bytes
    ensures a[..at] == old(a[..at]) && a[at + |bytes|..] == old(a[at + |bytes|..])
  {
    forall i | 0 <= i < |bytes| {
      a[at + i] := bytes[i];
    }
  }

  /** std::copy within one array, safe when the ranges overlap */
  method MoveWithin(a: array<byte>, from: nat, to: nat, len: nat)
    requires from + len <= a.Length && to + len <= a.Length
    modifies a
    ensures a[to..to + len] == old(a[from..from + len])
  {
    forall i | 0 <= i < len {
      a[to + i] := a[from + i];
    }
  }

  /** What is kept when only cells outside [lo, hi) change. */
  lemma SliceKept(s: seq<byte>, s': seq<byte>, lo: nat, hi: nat, cut: nat)
    requires |s| == |s'| && lo <= hi <= |s| && cut <= |s|
    requires (hi <= cut && s[..cut] == s'[..cut]) || (cut <= lo && s[cut..] == s'[cut..])
    ensures s[lo..hi] == s'[lo..hi]
  {
    forall i | lo <= i < hi ensures s[i] == s'[i] {
      if hi <= cut && s[..cut] == s'[..cut] {
        assert s[..cut][i] == s'[..cut][i];
      } else {
        assert s[cut..][i - cut] == s'[cut..][i - cut];
      }
    }
  }

  lemma Adjacent(s: seq<byte>, lo: nat, mid: nat, hi: nat)
    requires lo <= mid <= hi <= |s|
    ensures s[lo..hi] == s[lo..mid] + s[mid..hi]
  {}

  class MsgBuffer {
    var head: nat
    var initCap: nat
    var buffer: array<byte>
    var tail: nat

    ghost predicate Valid()
      reads this
    {
      head <= tail <= buffer.Length && buffer.Length == initCap + BUFFER_OFFSET
    }

    /** The readable bytes. */
    ghost function Contents(): seq<byte>
      requires Valid()
      reads this, buffer
    {
      buffer[head..tail]
    }

    function ReadableBytes(): nat
      requires head <= tail
      reads this
    {
      tail - head
    }

    function WritableBytes(): nat
      requires tail <= buffer.Length
      reads this
    {
      buffer.Length - tail
    }

    constructor (len: nat)
      ensures Valid() && fresh(buffer) && Contents() == []
      ensures head == tail == 8 && initCap == len && buffer.Length == len + 8
    {
      head, tail, initCap := BUFFER_OFFSET, BUFFER_OFFSET, len;
      buffer := new byte[len + BUFFER_OFFSET](_ => 0);
    }

    /** Room for `len` more bytes. Bytes are moved down only when that frees space in front
        of them; the array is replaced only when live bytes, new bytes and the reserved
        prefix do not fit, and it then stays below twice that need. */
    method EnsureWritableBytes(len: nat)
      requires Valid()
      modifies this, buffer
      ensures Valid() && Contents() == old(Contents()) && WritableBytes() >= len
      ensures buffer == old(buffer) || fresh(buffer)
      ensures initCap >= old(initCap)
      ensures old(WritableBytes()) >= len ==> buffer == old(buffer) && head == old(head) && tail == old(tail)
      ensures buffer == old(buffer) && head != old(head) ==> old(head) > BUFFER_OFFSET && head == BUFFER_OFFSET
      ensures var need := |old(Contents())| + len + BUFFER_OFFSET;
              && (buffer != old(buffer) ==> need > old(buffer).Length && buffer.Length < 2 * need + BUFFER_OFFSET)
              && (need > old(buffer).Length && old(WritableBytes()) < len ==> buffer != old(buffer))
      // a new array is at least twice as long as the old one
      ensures buffer != old(buffer) ==> buffer.Length >= 2 * old(buffer).Length
      decreases if WritableBytes() >= len then 0 else 1, 0
    {
      if WritableBytes() >= len {
        return;
      }
      if head + WritableBytes() >= len + BUFFER_OFFSET {
        // move readable bytes
        MoveWithin(buffer, head, BUFFER_OFFSET, tail - head);
        tail := BUFFER_OFFSET + (tail - head);
        head := BUFFER_OFFSET;
        return;
      }
      // create new buffer
      var need := BUFFER_OFFSET + ReadableBytes() + len;
      var newLen := if buffer.Length * 2 > need then buffer.Length * 2 else need;
      var newbuffer := new MsgBuffer(newLen);
      newbuffer.Append(buffer[head..tail]);
      head, tail, initCap, buffer := newbuffer.head, newbuffer.tail, newbuffer.initCap, newbuffer.buffer;
    }

    method Append(bytes: seq<byte>)
      requires Valid()
      modifies this, buffer
      ensures Valid() && Contents() == old(Contents()) + bytes
      ensures buffer == old(buffer) || fresh(buffer)
      ensures initCap >= old(initCap)
      ensures old(WritableBytes()) >= |bytes| ==>
                buffer == old(buffer) && head == old(head) && tail == old(tail) + |bytes|
      decreases if WritableBytes() >= |bytes| then 0 else 1, 1
    {
      EnsureWritableBytes(|bytes|);
      CopyToTail(bytes);
    }

    /** Puts bytes before the readable ones: in the gap in front of them, by moving them up,
        or in a new array. */
    method AddInFront(bytes: seq<byte>)
      requires Valid()
      modifies this, buffer
      ensures Valid() && Contents() == bytes + old(Contents())
      ensures buffer == old(buffer) || fresh(buffer)
      ensures initCap >= old(initCap)
      ensures buffer == old(buffer) <==> |bytes| <= old(head) || |bytes| <= old(WritableBytes())
      ensures buffer != old(buffer) ==> initCap == if |Contents()| < old(initCap) then old(initCap) else |Contents()|
    {
      var len := |bytes|;
      if head >= len {
        FillGap(bytes);
        return;
      }
      if len <= WritableBytes() {
        MakeGap(bytes);
        return;
      }
      var newLen := if len + ReadableBytes() < initCap then initCap else len + ReadableBytes();
      var newBuf := new MsgBuffer(newLen);
      newBuf.Append(bytes);
      newBuf.Append(buffer[head..tail]);
      head, tail, initCap, buffer := newBuf.head, newBuf.tail, newBuf.initCap, newBuf.buffer;
    }

    method FillGap(bytes: seq<byte>)
      requires Valid() && |bytes| <= head
      modifies this`head, buffer
      ensures Valid() && Contents() == bytes + old(Contents())
    {
      ghost var was := buffer[..];
      CopyInto(buffer, head - |bytes|, bytes);
      SliceKept(was, buffer[..], head, tail, head);
      assert buffer[head - |bytes|..tail] == buffer[head - |bytes|..head] + buffer[head..tail];
      head := head - |bytes|;
    }

    method MakeGap(bytes: seq<byte>)
      requires Valid() && |bytes| <= WritableBytes()
      modifies this`tail, buffer
      ensures Valid() && Contents() == bytes + old(Contents())
    {
      var start, end := head + |bytes|, tail + |bytes|;
      MoveWithin(buffer, head, start, tail - head);
      InsertBefore(bytes, start, end);
      tail := end;
    }

    /** Writes `bytes` in the gap in front of what has been moved to [start, end). */
    method InsertBefore(bytes: seq<byte>, start: nat, end: nat)
      requires head + |bytes| == start <= end <= buffer.Length
      modifies buffer
      ensures buffer[head..end] == bytes + old(buffer[start..end])
    {
      ghost var was := buffer[..];
      CopyInto(buffer, head, bytes);
      assert buffer[start..end] == was[start..end] by { SliceKept(was, buffer[..], start, end, start); }
      Adjacent(buffer[..], head, start, end);
    }

    /** Empties the buffer. The shrink is taken exactly when the buffer was made with fewer
        than 8 bytes, and it then leaves the indices beyond the end of the array. */
    method RetrieveAll()
      requires Valid()
      modifies this
      ensures initCap == old(initCap)
      ensures Valid() <==> initCap >= BUFFER_OFFSET
      ensures initCap >= BUFFER_OFFSET ==> buffer == old(buffer) && Contents() == []
    {
      if buffer.Length > initCap * 2 {
        var shrunk := new byte[initCap](i requires 0 <= i < buffer.Length reads this, buffer => buffer[i]);
        buffer := shrunk;
      }
      tail, head := BUFFER_OFFSET, BUFFER_OFFSET;
    }

    /** The buffer stays well formed unless it was made for fewer than 8 bytes and is emptied. */
    method Retrieve(len: nat)
      requires Valid()
      modifies this
      ensures initCap == old(initCap)
      ensures Valid() <==> initCap >= BUFFER_OFFSET || len < |old(Contents())|
      ensures Valid() ==> buffer == old(buffer)
      ensures Valid() ==> Contents() == if len <= |old(Contents())| then old(Contents())[len..] else []
    {
      if len >= ReadableBytes() {
        RetrieveAll();
        return;
      }
      head := head + len;
    }

    method Read(len: nat) returns (bytes: seq<byte>)
      requires Valid()
      modifies this
      ensures initCap == old(initCap)
      ensures Valid() <==> initCap >= BUFFER_OFFSET || len < |old(Contents())|
      ensures Valid() ==> buffer == old(buffer) && bytes + Contents() == old(Contents())
      ensures bytes == old(Contents())[..if len <= |old(Contents())| then len else |old(Contents())|]
    {
      var n := if len > ReadableBytes() then ReadableBytes() else len;
      bytes := buffer[head..head + n];
      assert bytes == Contents()[..n];
      Retrieve(n);
    }

    method Unwrite(offset: nat)
      requires Valid() && |Contents()| >= offset
      modifies this`tail
      ensures Valid() && Contents() == old(Contents())[..|old(Contents())| - offset]
    {
      tail := tail - offset;
    }

    method HasWritten(len: nat)
      requires Valid() && len <= WritableBytes()
      modifies this`tail
      ensures Valid() && Contents() == old(Contents()) + buffer[old(tail)..old(tail) + len]
    {
      tail := tail + len;
    }

    method Find(str: seq<byte>) returns (r: Option<nat>)
      requires Valid()
      ensures r.Some? ==> IsFirst(Contents(), str, r.value)
      ensures r.None? ==> (str == [] && Contents() == []) || forall q :: !OccursAt(Contents(), str, q)
      ensures str == [] && Contents() == [] ==> r.None?
    {
      r := Search(buffer[head..tail], str);
      if r == Some(tail - head) {
        // the result is beginWrite()
        r := None;
      }
    }

    /** readv into the free space and an 8192-byte buffer on the stack, which is offered only
        when the free space is smaller; what spills is appended. `chunk` is what the kernel
        delivers, None an error. */
    method ReadFd(chunk: Option<seq<byte>>) returns (n: int)
      requires Valid()
      requires chunk.Some? ==>
                 |chunk.value| <= WritableBytes() + if WritableBytes() < EXT_BUFFER then EXT_BUFFER else 0
      modifies this, buffer
      ensures Valid() && initCap >= old(initCap)
      ensures buffer == old(buffer) || fresh(buffer)
      ensures Contents() == old(Contents()) + if chunk.Some? then chunk.value else []
      ensures n == if chunk.Some? then |chunk.value| else -1
      ensures |old(Contents())| + n <= old(buffer).Length - old(head) ==> buffer == old(buffer)
    {
      if chunk.None? {
        return -1;
      }
      var writable := WritableBytes();
      var bytes := chunk.value;
      n := |bytes|;
      var direct := bytes[..if n <= writable then n else writable];
      CopyToTail(direct);
      if n > writable {
        assert bytes == direct + bytes[writable..];
        Append(bytes[writable..]);
      }
    }

    /** Bytes copied into the free space become readable. */
    method CopyToTail(bytes: seq<byte>)
      requires Valid() && |bytes| <= WritableBytes()
      modifies this`tail, buffer
      ensures Valid() && Contents() == old(Contents()) + bytes && tail == old(tail) + |bytes|
    {
      ghost var was := buffer[..];
      CopyInto(buffer, tail, bytes);
      SliceKept(was, buffer[..], head, tail, tail);
      assert buffer[head..tail + |bytes|] == buffer[head..tail] + buffer[tail..tail + |bytes|];
      tail := tail + |bytes|;
    }

    // appendInt16, appendInt32 and appendInt64 (n == 2, 4, 8), and their relatives.

    method AppendInt(v: nat, n: nat)
      requires Valid() && v < Pow(256, n)
      modifies this, buffer
      ensures Valid() && initCap >= old(initCap)
      ensures buffer == old(buffer) || fresh(buffer)
      ensures Contents() == old(Contents()) + NetworkBytes(v, n)
    {
      Append(NetworkBytes(v, n));
    }

    method AddInFrontInt(v: nat, n: nat)
      requires Valid() && v < Pow(256, n)
      modifies this, buffer
      ensures Valid() && initCap >= old(initCap)
      ensures buffer == old(buffer) || fresh(buffer)
      ensures Contents() == NetworkBytes(v, n) + old(Contents())
    {
      AddInFront(NetworkBytes(v, n));
    }

    method PeekInt(n: nat) returns (v: nat)
      requires Valid() && |Contents()| >= n
      ensures NetworkBytes(v, n) == Contents()[..n] && v == NetworkValue(Contents()[..n]) && v < Pow(256, n)
    {
      var bytes := buffer[head..head + n];
      assert bytes == Contents()[..n];
      v := NetworkValue(bytes);
      NetworkBytesOfValue(bytes);
    }

    method ReadInt(n: nat) returns (v: nat)
      requires Valid() && |Contents()| >= n
      modifies this
      ensures initCap == old(initCap)
      ensures Valid() <==> initCap >= BUFFER_OFFSET || n < |old(Contents())|
      ensures Valid() ==> buffer == old(buffer) && old(Contents()) == NetworkBytes(v, n) + Contents()
      ensures v == NetworkValue(old(Contents())[..n]) && v < Pow(256, n)
    {
      v := PeekInt(n);
      assert Contents() == Contents()[..n] + Contents()[n..];
      Retrieve(n);
    }
  }

  // Runs of operations, seen as operations on a plain sequence.

  datatype Op =
    | Put(bytes: seq<byte>)
    | PutFront(bytes: seq<byte>)
    | Drop(n: nat)
    | Take(n: nat)
    | TakeBack(n: nat)
    | Receive(available: seq<byte>)

  /** What an operation makes of the contents; `got` is what it has handed out or received.
      Callers take back no more than there is. */
  function After(s: seq<byte>, op: Op, got: seq<byte>): seq<byte> {
    match op
    case Put(bytes) => s + bytes
    case PutFront(bytes) => bytes + s
    case Drop(n) => if n <= |s| then s[n..] else []
    case Take(n) => if n <= |s| then s[n..] else []
    case TakeBack(n) => if n <= |s| then s[..|s| - n] else s
    case Receive(_) => s + got
  }

  /** One read of the socket takes all that is available, or at least 8192 bytes of it. */
  predicate Gets(s: seq<byte>, op: Op, got: seq<byte>) {
    match op
    case Take(n) => got == if n <= |s| then s[..n] else s
    case Receive(available) => got <= available && (got == available || |got| >= 8192)
    case _ => got == []
  }

  function AfterAll(s: seq<byte>, ops: seq<Op>, gots: seq<seq<byte>>): seq<byte>
    requires |gots| == |ops|
  {
    if ops == [] then s
    else After(AfterAll(s, ops[..|ops| - 1], gots[..|ops| - 1]), ops[|ops| - 1], gots[|ops| - 1])
  }

  ghost predicate GetsAll(s: seq<byte>, ops: seq<Op>, gots: seq<seq<byte>>)
    requires |gots| == |ops|
  {
    ops != [] ==>
      var n := |ops| - 1;
      GetsAll(s, ops[..n], gots[..n]) && Gets(AfterAll(s, ops[..n], gots[..n]), ops[n], gots[n])
  }

  lemma AfterAllStep(s: seq<byte>, ops: seq<Op>, gots: seq<seq<byte>>, n: nat, got: seq<byte>)
    requires n < |ops| && |gots| == n
    ensures AfterAll(s, ops[..n + 1], gots + [got]) == After(AfterAll(s, ops[..n], gots), ops[n], got)
    ensures GetsAll(s, ops[..n + 1], gots + [got])
            <==> GetsAll(s, ops[..n], gots) && Gets(AfterAll(s, ops[..n], gots), ops[n], got)
  {
    assert ops[..n + 1][..n] == ops[..n] && (gots + [got])[..n] == gots;
  }

  /** Over every run the buffer acts on its readable bytes as on a plain sequence, across
      compaction, reallocation and spill, and its indices stay in order. */
  method RunBuffer(b: MsgBuffer, ops: seq<Op>) returns (gots: seq<seq<byte>>)
    requires b.Valid() && b.initCap >= BUFFER_OFFSET
    modifies b, b.buffer
    ensures b.Valid() && |gots| == |ops|
    ensures GetsAll(old(b.Contents()), ops, gots)
    ensures b.Contents() == AfterAll(old(b.Contents()), ops, gots)
  {
    gots := [];
    ghost var start := b.Contents();
    for n := 0 to |ops|
      invariant b.Valid() && b.initCap >= BUFFER_OFFSET && |gots| == n
      invariant b.buffer == old(b.buffer) || fresh(b.buffer)
      invariant GetsAll(start, ops[..n], gots) && b.Contents() == AfterAll(start, ops[..n], gots)
    {
      var got := DoOp(b, ops[n]);
      AfterAllStep(start, ops, gots, n, got);
      gots := gots + [got];
    }
    assert ops[..|ops|] == ops;
  }

  method DoOp(b: MsgBuffer, op: Op) returns (got: seq<byte>)
    requires b.Valid() && b.initCap >= BUFFER_OFFSET
    modifies b, b.buffer
    ensures b.Valid() && b.initCap >= old(b.initCap)
    ensures b.buffer == old(b.buffer) || fresh(b.buffer)
    ensures Gets(old(b.Contents()), op, got) && b.Contents() == After(old(b.Contents()), op, got)
  {
    got := [];
    match op {
      case Put(bytes) => b.Append(bytes);
      case PutFront(bytes) => b.AddInFront(bytes);
      case Drop(n) => b.Retrieve(n);
      case Take(n) => got := b.Read(n);
      case TakeBack(n) =>
        if n <= b.ReadableBytes() {
          b.Unwrite(n);
        }
      case Receive(available) =>
        var room := b.WritableBytes() + if b.WritableBytes() < EXT_BUFFER then EXT_BUFFER else 0;
        got := if |available| <= room then available else available[..room];
        var _ := b.ReadFd(Some(got));
    }
  }
}
