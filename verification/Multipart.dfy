/** cooper/net/Http: the streaming scan of one part's content in MultipartFormDataParser,
    states 3 (content) and 4 (after the delimiter). The delimiter is the line break, two
    hyphens and the boundary of section 5.1.1 of RFC 2046. */
module Multipart {
  import opened Options
  import opened Bytes
  import opened Sequences

  const CRLF: seq<byte> := [13, 10]
  const DASH: seq<byte> := [45, 45]

  /** What the parser decides about the part: it needs more bytes, another part follows
      (state 1), the form is complete, or the delimiter line is not well formed. */
  datatype Verdict = More | NextPart | Complete | Malformed

  // The whole-stream meaning: `s` is everything received since the content began.

  function Content(s: seq<byte>, d: seq<byte>): seq<byte> {
    match Find(s, d)
    case Some(p) => s[..p]
    case None => if |s| < |d| then [] else s[..|s| - |d|]
  }

  function Rest(s: seq<byte>, d: seq<byte>): seq<byte> {
    match Find(s, d)
    case Some(p) => s[p + |d|..]
    case None => if |s| < |d| then s else s[|s| - |d|..]
  }

  function Decide(s: seq<byte>, d: seq<byte>): Verdict {
    if Find(s, d).None? || |Rest(s, d)| < 2 then More
    else if Rest(s, d)[..2] == CRLF then NextPart
    else if Rest(s, d)[..2] == DASH then Complete
    else Malformed
  }

  lemma DropPrefix(s: seq<byte>, t: seq<byte>, n: nat)
    requires n <= |s|
    ensures (s + t)[n..] == s[n..] + t && (s + t)[..n] == s[..n]
  {}

  /** Once the delimiter is found, more input only adds to the bytes after it. */
  lemma FoundIsStable(s: seq<byte>, t: seq<byte>, d: seq<byte>)
    requires Find(s, d).Some?
    ensures Find(s + t, d) == Find(s, d)
    ensures Content(s + t, d) == Content(s, d) && Rest(s + t, d) == Rest(s, d) + t
  {
    var p := Find(s, d).value;
    FindInLonger(s, t, d);
    DropPrefix(s, t, p);
    DropPrefix(s, t, p + |d|);
  }

  /** Before that, the bytes held back cover any delimiter that has begun. */
  lemma UnfoundIsPrefix(s: seq<byte>, t: seq<byte>, d: seq<byte>)
    requires |d| > 0 && Find(s, d).None?
    ensures Content(s, d) <= Content(s + t, d)
  {
    if |s| >= |d| {
      var n := |s| - |d|;
      if Find(s + t, d).Some? {
        var p := Find(s + t, d).value;
        if p <= n { OccursInLonger(s, t, d, p); }
      }
      assert forall i :: 0 <= i < n ==> (s + t)[i] == s[i];
    }
  }

  /** Nothing is lost, and while the delimiter is not there only as many bytes are held back as
      could begin it. */
  lemma HeldBack(s: seq<byte>, d: seq<byte>)
    requires forall p :: !OccursAt(s, d, p)
    ensures Content(s, d) + Rest(s, d) == s && |Rest(s, d)| == if |s| < |d| then |s| else |d|
  {
    assert Find(s, d).None?;
  }

  lemma LineOrHyphens(b: seq<byte>)
    requires |b| >= 2
    ensures OccursAt(b, CRLF, 0) <==> b[0] == 13 && b[1] == 10
    ensures OccursAt(b, DASH, 0) <==> b[0] == 45 && b[1] == 45
  {
    var two := b[0..2];
    assert two == CRLF <==> two[0] == 13 && two[1] == 10;
    assert two == DASH <==> two[0] == 45 && two[1] == 45;
  }

  /** The two bytes after the delimiter decide: a line break announces another part, two
      hyphens end the form, anything else is malformed. */
  lemma DecidedByTwoBytes(s: seq<byte>, d: seq<byte>, p: nat)
    requires IsFirst(s, d, p) && |s| >= p + |d| + 2
    ensures var x, y := s[p + |d|], s[p + |d| + 1];
            && (Decide(s, d).NextPart? <==> x == 13 && y == 10)
            && (Decide(s, d).Complete? <==> x == 45 && y == 45)
            && (Decide(s, d).Malformed? <==> !(x == 13 && y == 10) && !(x == 45 && y == 45))
  {
    FindUnique(s, d, p);
    LineOrHyphens(Rest(s, d));
    assert Rest(s, d)[..2] == Rest(s, d)[0..2];
  }

  /** Until then, and only until then, the parser asks for more. */
  lemma UndecidedIff(s: seq<byte>, d: seq<byte>)
    ensures Decide(s, d).More? <==>
            || (forall p :: !OccursAt(s, d, p))
            || exists p :: IsFirst(s, d, p) && |s| < p + |d| + 2
  {
    match Find(s, d) {
      case Some(p) =>
        assert IsFirst(s, d, p);
        assert forall q :: IsFirst(s, d, q) ==> q == p;
      case None =>
    }
  }

  /** Reading on never takes back an emitted byte, and a decided part stays decided. */
  lemma ScanIsStable(s: seq<byte>, t: seq<byte>, d: seq<byte>)
    requires |d| > 0
    ensures Content(s, d) <= Content(s + t, d)
    ensures !Decide(s, d).More? ==> Decide(s + t, d) == Decide(s, d) && Content(s + t, d) == Content(s, d)
  {
    if Find(s, d).Some? {
      FoundIsStable(s, t, d);
      if |Rest(s, d)| >= 2 { DropPrefix(Rest(s, d), t, 2); }
    } else {
      UnfoundIsPrefix(s, t, d);
    }
  }

  /** Two runs over the same bytes, cut into chunks in any two ways, agree: if one stops
      after a prefix with a verdict, any run that has read at least as much has the same
      verdict and has emitted the same content. */
  lemma ChunksDoNotMatter(s: seq<byte>, s': seq<byte>, d: seq<byte>)
    requires |d| > 0 && s <= s' && !Decide(s, d).More?
    ensures Decide(s', d) == Decide(s, d) && Content(s', d) == Content(s, d)
  {
    ScanIsStable(s, s'[|s|..], d);
    assert s' == s + s'[|s|..];
  }

  /** No byte of the delimiter, nor any after it, is content; every byte before it is. */
  lemma ContentEndsAtDelimiter(s: seq<byte>, d: seq<byte>, p: nat)
    requires |d| > 0 && IsFirst(s, d, p)
    ensures Content(s, d) == s[..p] && Rest(s, d) == s[p + |d|..]
    ensures forall n :: 0 <= n <= |s| ==> Content(s[..n], d) <= s[..p]
  {
    FindUnique(s, d, p);
    forall n | 0 <= n <= |s| ensures Content(s[..n], d) <= s[..p] {
      ScanIsStable(s[..n], s[n..], d);
      assert s[..n] + s[n..] == s;
    }
  }

  function Concat(chunks: seq<seq<byte>>): seq<byte> {
    if chunks == [] then [] else Concat(chunks[..|chunks| - 1]) + chunks[|chunks| - 1]
  }

  /** The chunks one after the other. */
  lemma {:induction false} ConcatAppend(xs: seq<seq<byte>>, ys: seq<seq<byte>>)
    ensures Concat(xs + ys) == Concat(xs) + Concat(ys)
    ensures forall chunk: seq<byte> :: Concat([chunk]) == chunk
    decreases |ys|
  {
    forall chunk: seq<byte> ensures Concat([chunk]) == chunk { assert [chunk][..0] == []; }
    if ys == [] {
      assert xs + ys == xs;
    } else {
      var n := |ys| - 1;
      ConcatAppend(xs, ys[..n]);
      assert (xs + ys)[..|xs| + n] == xs + ys[..n];
      Associative(Concat(xs), Concat(ys[..n]), ys[n]);
    }
  }

  lemma ConcatStep(start: seq<byte>, chunks: seq<seq<byte>>, n: nat)
    requires n < |chunks|
    ensures start + Concat(chunks[..n + 1]) == (start + Concat(chunks[..n])) + chunks[n]
  {
    assert chunks[..n + 1][..n] == chunks[..n];
  }

  /** None of the first n prefixes of the chunks decides the part. */
  ghost predicate Undecided(start: seq<byte>, chunks: seq<seq<byte>>, n: nat, d: seq<byte>)
    requires n <= |chunks|
  {
    forall k :: 0 <= k < n ==> Decide(start + Concat(chunks[..k]), d).More?
  }

  lemma UndecidedStep(start: seq<byte>, chunks: seq<seq<byte>>, n: nat, d: seq<byte>)
    requires n < |chunks| && Undecided(start, chunks, n, d) && Decide(start + Concat(chunks[..n]), d).More?
    ensures Undecided(start, chunks, n + 1, d)
  {}

  class MultipartFormDataParser {
    var crlfDashBoundary: seq<byte>
    var state: nat
    var buffer: seq<byte>
    ghost var received: seq<byte>  // since the content began
    ghost var emitted: seq<byte>   // handed to the write callback with FLAG_CONTENT

    constructor (boundary: seq<byte>, buffered: seq<byte>)
      ensures crlfDashBoundary == [13, 10, 45, 45] + boundary
      ensures state == 3 && buffer == buffered == received && emitted == [] && Scanning()
    {
      crlfDashBoundary := CRLF + DASH + boundary;
      state, buffer, received, emitted := 3, buffered, buffered, [];
    }

    /** Between two reads: what has been emitted and what is buffered make up the stream, and
        the delimiter does not begin in what has been emitted. */
    ghost predicate Scanning()
      reads this
    {
      && |crlfDashBoundary| >= 4
      && match state
         case 3 => && emitted + buffer == received
                   && (emitted != [] ==> |buffer| >= |crlfDashBoundary|)
                   && forall q :: 0 <= q < |emitted| ==> !OccursAt(received, crlfDashBoundary, q)
         case 4 => Find(received, crlfDashBoundary).Some? && emitted == Content(received, crlfDashBoundary)
                   && buffer == Rest(received, crlfDashBoundary)
         case _ => false
    }

    /** All that can be emitted has been, and it takes more input to go on. */
    ghost predicate Waiting()
      reads this
    {
      && emitted == Content(received, crlfDashBoundary) && buffer == Rest(received, crlfDashBoundary)
      && Decide(received, crlfDashBoundary).More?
    }

    /** Parses until the part is decided or the input runs out. Whatever the chunks, the
        content emitted, the verdict and the bytes left are functions of the stream, and no
        chunk is read once the part is decided. */
    method Parse(chunks: seq<seq<byte>>) returns (verdict: Verdict, used: nat)
      requires Scanning()
      modifies this
      ensures used <= |chunks| && crlfDashBoundary == old(crlfDashBoundary)
      ensures received == old(received) + Concat(chunks[..used])
      ensures verdict == Decide(received, crlfDashBoundary)
      ensures emitted == Content(received, crlfDashBoundary)
      ensures verdict.More? ==> Scanning() && used == |chunks| && buffer == Rest(received, crlfDashBoundary)
      ensures verdict.NextPart? ==> state == 1 && buffer == Rest(received, crlfDashBoundary)[2..]
      ensures verdict.Complete? ==> buffer == []
      ensures verdict.Malformed? ==> buffer == Rest(received, crlfDashBoundary)
      ensures Undecided(old(received), chunks, used, crlfDashBoundary)
    {
      var needToReadMore := false;
      used := 0;
      while true
        invariant used <= |chunks| && crlfDashBoundary == old(crlfDashBoundary) && Scanning()
        invariant received == old(received) + Concat(chunks[..used])
        invariant needToReadMore ==> Waiting()
        invariant Undecided(old(received), chunks, used, crlfDashBoundary)
        decreases |chunks| - used, if needToReadMore then 0 else 1, if state == 3 then 1 else 0
      {
        if needToReadMore {
          if used == |chunks| {
            return More, used;
          }
          ReadNext(chunks, used, old(received));
          used := used + 1;
          needToReadMore := false;
        }
        verdict, needToReadMore := Turn();
        if !verdict.More? {
          return;
        }
      }
    }

    /** Takes in one more chunk. */
    method ReadNext(chunks: seq<seq<byte>>, n: nat, ghost start: seq<byte>)
      requires Scanning() && Waiting() && n < |chunks|
      requires received == start + Concat(chunks[..n]) && Undecided(start, chunks, n, crlfDashBoundary)
      modifies this`buffer, this`received
      ensures Scanning()
      ensures received == start + Concat(chunks[..n + 1]) && Undecided(start, chunks, n + 1, crlfDashBoundary)
    {
      ReadMore(chunks[n]);
      ConcatStep(start, chunks, n);
      UndecidedStep(start, chunks, n, crlfDashBoundary);
    }

    /** One turn of the switch. */
    method Turn() returns (verdict: Verdict, needToReadMore: bool)
      requires Scanning()
      modifies this`buffer, this`emitted, this`state
      ensures emitted == Content(received, crlfDashBoundary)
      ensures needToReadMore || !verdict.More? ==> verdict == Decide(received, crlfDashBoundary)
      ensures verdict.More? ==> Scanning() && buffer == Rest(received, crlfDashBoundary)
      ensures verdict.More? && !needToReadMore ==> old(state) == 3 && state == 4
      ensures verdict.NextPart? ==> state == 1 && buffer == Rest(received, crlfDashBoundary)[2..]
      ensures verdict.Complete? ==> buffer == []
      ensures verdict.Malformed? ==> buffer == Rest(received, crlfDashBoundary)
    {
      verdict := More;
      if state == 3 {
        needToReadMore := ScanContent();
      } else {
        verdict := AfterDelimiter();
        needToReadMore := true;
      }
    }

    /** buffer_->readFd */
    method ReadMore(chunk: seq<byte>)
      requires Scanning()
      modifies this`buffer, this`received
      ensures Scanning() && received == old(received) + chunk
    {
      ghost var d := crlfDashBoundary;
      if state == 3 {
        forall q | 0 <= q < |emitted| ensures !OccursAt(received + chunk, d, q) {
          OccursInLonger(received, chunk, d, q);
        }
        assert (emitted + buffer) + chunk == emitted + (buffer + chunk);
      } else {
        FindInLonger(received, chunk, d);
        assert Rest(received + chunk, d) == Rest(received, d) + chunk;
      }
      buffer := buffer + chunk;
      received := received + chunk;
    }

    /** State 3. */
    method ScanContent() returns (needToReadMore: bool)
      requires Scanning() && state == 3
      modifies this`buffer, this`emitted, this`state
      ensures Scanning() && needToReadMore == (state == 3)
      ensures emitted == Content(received, crlfDashBoundary) && buffer == Rest(received, crlfDashBoundary)
      ensures state == 3 ==> Find(received, crlfDashBoundary).None? && |buffer| <= |crlfDashBoundary|
    {
      var d := crlfDashBoundary;
      FindAfter(emitted, buffer, d);
      if |buffer| < |d| {
        return true;
      }
      var found := Search(buffer, d);
      if found.Some? {
        emitted := emitted + buffer[..found.value];
        buffer := buffer[found.value + |d|..];
        state := 4;
        return false;
      }
      var len := |buffer| - |d|;
      if len > 0 {
        assert (emitted + buffer[..len]) + buffer[len..] == received;
        emitted := emitted + buffer[..len];
        buffer := buffer[len..];
      }
      return true;
    }

    /** State 4. */
    method AfterDelimiter() returns (verdict: Verdict)
      requires Scanning() && state == 4
      modifies this`buffer, this`state
      ensures verdict == Decide(received, crlfDashBoundary)
      ensures verdict.NextPart? <==> |old(buffer)| >= 2 && old(buffer[0]) == 13 && old(buffer[1]) == 10
      ensures verdict.Complete? <==> |old(buffer)| >= 2 && old(buffer[0]) == 45 && old(buffer[1]) == 45
      ensures verdict.More? <==> |old(buffer)| < 2
      ensures verdict.Malformed? ==> state == 4 && buffer == old(buffer)
      ensures verdict.More? ==> Scanning() && state == 4 && buffer == old(buffer)
      ensures verdict.NextPart? ==> state == 1 && buffer == old(buffer)[2..]
      ensures verdict.Complete? ==> buffer == []
    {
      if |buffer| < |CRLF| {
        return More;
      }
      LineOrHyphens(buffer);
      var line := Search(buffer, CRLF);
      if line == Some(0) {
        buffer := buffer[|CRLF|..];
        state := 1;
        return NextPart;
      }
      if |buffer| < |DASH| {
        return More;
      }
      var hyphens := Search(buffer, DASH);
      if hyphens == Some(0) {
        buffer := [];
        return Complete;
      }
      return Malformed;
    }
  }
}
