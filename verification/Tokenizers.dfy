/** The string scanners of cooper/util: splitString, split with trim, and isValidPath. */
module Tokenizers {
  import opened Bytes
  import opened Options
  import opened Sequences

  type Text = seq<byte>

  /** The pieces of `s` between the occurrences of `d`, found from the left. */
  function Pieces(s: Text, d: Text): (ps: seq<Text>)
    requires d != []
    ensures ps != []
    decreases |s|
  {
    match Find(s, d)
    case None => [s]
    case Some(p) => [s[..p]] + Pieces(s[p + |d|..], d)
  }

  function Join(ps: seq<Text>, d: Text): Text {
    if ps == [] then [] else if |ps| == 1 then ps[0] else ps[0] + d + Join(ps[1..], d)
  }

  /** Splitting and joining again gives the text back. */
  lemma {:induction false} JoinOfPieces(s: Text, d: Text)
    requires d != []
    ensures Join(Pieces(s, d), d) == s
    decreases |s|
  {
    match Find(s, d) {
      case None =>
      case Some(p) =>
        var rest := s[p + |d|..];
        JoinOfPieces(rest, d);
        assert Pieces(s, d)[1..] == Pieces(rest, d);
        assert s == s[..p] + s[p..p + |d|] + rest;
    }
  }

  lemma NotBeforeFirst(s: Text, d: Text, p: nat)
    requires d != [] && Find(s, d) == Some(p)
    ensures Find(s[..p], d).None?
  {
    assert s[..p] + s[p..] == s;
    if Find(s[..p], d).Some? { FindInLonger(s[..p], s[p..], d); }
  }

  lemma DelimitedAfter(p: Text, ps: seq<Text>, d: Text)
    requires Find(p, d).None? && forall k :: 0 <= k < |ps| ==> Find(ps[k], d).None?
    ensures forall k :: 0 <= k < |ps| + 1 ==> Find(([p] + ps)[k], d).None?
  {}

  /** No piece contains the delimiter. */
  lemma {:induction false} PiecesAreDelimited(s: Text, d: Text)
    requires d != []
    ensures forall k :: 0 <= k < |Pieces(s, d)| ==> Find(Pieces(s, d)[k], d).None?
    decreases |s|
  {
    match Find(s, d) {
      case None =>
      case Some(p) =>
        var rest := s[p + |d|..];
        NotBeforeFirst(s, d, p);
        PiecesAreDelimited(rest, d);
        DelimitedAfter(s[..p], Pieces(rest, d), d);
    }
  }

  /** The first occurrence of `d` in `p + d` is the one at the end. */
  ghost predicate EndsWhereItShould(p: Text, d: Text) {
    Find(p + d, d) == Some(|p|)
  }

  ghost predicate Splittable(ps: seq<Text>, d: Text) {
    && ps != []
    && (forall k :: 0 <= k < |ps| - 1 ==> EndsWhereItShould(ps[k], d))
    && Find(ps[|ps| - 1], d).None?
  }

  lemma FirstInJoin(p: Text, d: Text, rest: Text)
    requires d != []
    ensures Find(p + d + rest, d) == Some(|p|) <==> EndsWhereItShould(p, d)
  {
    assert (p + d)[|p|..|p| + |d|] == d;
    assert OccursAt(p + d, d, |p|);
    FindInLonger(p + d, rest, d);
  }

  /** Joining and splitting again gives the pieces back exactly when every piece ends at the
      first delimiter after it. */
  lemma {:induction false} PiecesOfJoin(ps: seq<Text>, d: Text)
    requires d != [] && ps != []
    ensures Pieces(Join(ps, d), d) == ps <==> Splittable(ps, d)
  {
    var s := Join(ps, d);
    if |ps| > 1 {
      var rest := Join(ps[1..], d);
      FirstInJoin(ps[0], d, rest);
      PiecesOfJoin(ps[1..], d);
      assert s == ps[0] + d + rest;
      if Find(s, d) == Some(|ps[0]|) {
        assert s[..|ps[0]|] == ps[0] && s[|ps[0]| + |d|..] == rest;
        assert Pieces(s, d) == [ps[0]] + Pieces(rest, d);
        assert ps == [ps[0]] + ps[1..];
        assert Splittable(ps, d) <==> Splittable(ps[1..], d) by { SplittableTail(ps, d); }
      } else {
        assert !EndsWhereItShould(ps[0], d);
      }
    }
  }

  lemma SplittableTail(ps: seq<Text>, d: Text)
    requires |ps| > 1 && EndsWhereItShould(ps[0], d)
    ensures Splittable(ps, d) <==> Splittable(ps[1..], d)
  {
    forall k | 0 < k < |ps| - 1 ensures ps[1..][k - 1] == ps[k] {}
  }

  function NonEmpty(ps: seq<Text>): seq<Text> {
    if ps == [] then [] else (if ps[0] == [] then [] else [ps[0]]) + NonEmpty(ps[1..])
  }

  function Kept(ps: seq<Text>, acceptEmpty: bool): seq<Text> {
    if acceptEmpty then ps else NonEmpty(ps)
  }

  lemma KeptStep(p: Text, ps: seq<Text>, acceptEmpty: bool)
    ensures Kept([p] + ps, acceptEmpty) == (if p != [] || acceptEmpty then [p] else []) + Kept(ps, acceptEmpty)
  {
    assert ([p] + ps)[0] == p && ([p] + ps)[1..] == ps;
  }

  lemma {:induction false} NonEmptyAppend(ps: seq<Text>, qs: seq<Text>)
    ensures NonEmpty(ps + qs) == NonEmpty(ps) + NonEmpty(qs)
  {
    if ps == [] {
      assert ps + qs == qs;
    } else {
      var tail := ps[1..];
      assert ps + qs == [ps[0]] + (tail + qs) && ps == [ps[0]] + tail;
      KeptStep(ps[0], tail + qs, false);
      KeptStep(ps[0], tail, false);
      NonEmptyAppend(tail, qs);
      Associative(if ps[0] != [] then [ps[0]] else [], NonEmpty(tail), NonEmpty(qs));
    }
  }

  /** The non-empty pieces, and no others, in order. */
  lemma {:induction false} NonEmptyFilters(ps: seq<Text>, qs: seq<Text>)
    ensures NonEmpty(ps + qs) == NonEmpty(ps) + NonEmpty(qs)
    ensures forall p: Text :: NonEmpty([p]) == if p == [] then [] else [p]
    ensures forall p :: p in NonEmpty(ps) <==> p in ps && p != []
  {
    NonEmptyAppend(ps, qs);
    if ps != [] {
      KeptStep(ps[0], ps[1..], false);
      assert ps == [ps[0]] + ps[1..];
      NonEmptyFilters(ps[1..], []);
    }
  }

  lemma FindInSuffix(s: Text, d: Text, p: nat)
    requires p <= |s|
    ensures FindFrom(s, d, p) == match Find(s[p..], d) case Some(q) => Some(p + q) case None => None
  {
    var t := s[p..];
    forall q: nat ensures OccursAt(t, d, q) <==> OccursAt(s, d, p + q) {
      if q + |d| <= |t| { SliceOfSuffix(s, p, q, q + |d|); }
    }
    match FindFrom(s, d, p) {
      case Some(n) => FindUnique(t, d, n - p);
      case None =>
    }
  }

  lemma SliceOfSuffix(s: Text, p: nat, i: nat, j: nat)
    requires i <= j && p + j <= |s|
    ensures s[p..][i..j] == s[p + i..p + j]
  {}

  lemma FirstPiece(p: Text, d: Text, rest: Text, acceptEmpty: bool)
    requires d != [] && Find(p + d + rest, d) == Some(|p|)
    ensures Kept(Pieces(p + d + rest, d), acceptEmpty)
            == (if p != [] || acceptEmpty then [p] else []) + Kept(Pieces(rest, d), acceptEmpty)
  {
    var t := p + d + rest;
    assert t[..|p|] == p && t[|p| + |d|..] == rest;
    KeptStep(p, Pieces(rest, d), acceptEmpty);
  }

  /** One turn of the loop of splitString. */
  lemma NextPiece(s: Text, d: Text, last: nat, n: nat, acceptEmpty: bool)
    requires last <= |s| && d != [] && FindFrom(s, d, last) == Some(n)
    ensures last <= n && n + |d| <= |s|
    ensures Kept(Pieces(s[last..], d), acceptEmpty)
            == (if last < n || acceptEmpty then [s[last..n]] else []) + Kept(Pieces(s[n + |d|..], d), acceptEmpty)
  {
    var p, rest := s[last..n], s[n + |d|..];
    FindInSuffix(s, d, last);
    assert s[last..] == p + d + rest by { assert s[last..] == p + s[n..n + |d|] + rest; }
    FirstPiece(p, d, rest, acceptEmpty);
  }

  lemma LastPiece(s: Text, d: Text, last: nat, acceptEmpty: bool)
    requires last <= |s| && d != [] && FindFrom(s, d, last).None?
    ensures Kept(Pieces(s[last..], d), acceptEmpty) == if last < |s| || acceptEmpty then [s[last..]] else []
  {
    FindInSuffix(s, d, last);
    KeptStep(s[last..], [], acceptEmpty);
    assert [s[last..]] + [] == [s[last..]];
  }

  /** What splitting the text from `last` on yields. */
  ghost function Ahead(s: Text, d: Text, last: nat, acceptEmpty: bool): seq<Text>
    requires last <= |s| && d != []
  {
    Kept(Pieces(s[last..], d), acceptEmpty)
  }

  lemma AheadOfAll(s: Text, d: Text, acceptEmpty: bool)
    requires d != []
    ensures Ahead(s, d, 0, acceptEmpty) == if acceptEmpty then Pieces(s, d) else NonEmpty(Pieces(s, d))
  {
    assert s[0..] == s;
  }

  lemma PieceTaken(v: seq<Text>, s: Text, d: Text, last: nat, n: nat, acceptEmpty: bool)
    requires last <= |s| && d != [] && FindFrom(s, d, last) == Some(n)
    ensures last <= n && n + |d| <= |s|
    ensures v + Ahead(s, d, last, acceptEmpty)
            == (if last < n || acceptEmpty then v + [s[last..n]] else v) + Ahead(s, d, n + |d|, acceptEmpty)
  {
    NextPiece(s, d, last, n, acceptEmpty);
    Associative(v, if last < n || acceptEmpty then [s[last..n]] else [], Ahead(s, d, n + |d|, acceptEmpty));
    assert v + [] == v;
  }

  method SplitString(s: Text, delimiter: Text, acceptEmptyString: bool) returns (v: seq<Text>)
    ensures delimiter == [] ==> v == []
    ensures delimiter != [] ==> v == if acceptEmptyString then Pieces(s, delimiter) else NonEmpty(Pieces(s, delimiter))
  {
    v := [];
    if delimiter == [] { return; }
    AheadOfAll(s, delimiter, acceptEmptyString);
    ghost var all := Ahead(s, delimiter, 0, acceptEmptyString);
    var last := 0;
    var next := FindFrom(s, delimiter, last);
    while next.Some?
      invariant last <= |s| && next == FindFrom(s, delimiter, last)
      invariant all == v + Ahead(s, delimiter, last, acceptEmptyString)
      decreases |s| - last
    {
      ghost var before := v;
      PieceTaken(before, s, delimiter, last, next.value, acceptEmptyString);
      if next.value > last || acceptEmptyString {
        v := v + [s[last..next.value]];
      }
      assert v == if last < next.value || acceptEmptyString then before + [s[last..next.value]] else before;
      last := next.value + |delimiter|;
      next := FindFrom(s, delimiter, last);
    }
    LastPiece(s, delimiter, last, acceptEmptyString);
    if |s| > last || acceptEmptyString {
      v := v + [s[last..]];
    }
  }

  predicate IsSpaceOrTab(c: byte) { c == 32 || c == 9 }

  predicate Blank(s: Text, i: nat, j: nat)
    requires j <= |s|
  {
    forall k :: i <= k < j ==> IsSpaceOrTab(s[k])
  }

  function TrimLeft(s: Text): Text {
    if s != [] && IsSpaceOrTab(s[0]) then TrimLeft(s[1..]) else s
  }

  function TrimRight(s: Text): Text {
    if s != [] && IsSpaceOrTab(s[|s| - 1]) then TrimRight(s[..|s| - 1]) else s
  }

  /** What `split` hands on for one segment. Without an end pointer the left end of a
      segment is never trimmed. */
  function Trimmed(segment: Text, bounded: bool): Text {
    TrimRight(if bounded then TrimLeft(segment) else segment)
  }

  lemma {:induction false} TrimLeftAt(s: Text, k: nat)
    requires k <= |s| && Blank(s, 0, k) && (k == |s| || !IsSpaceOrTab(s[k]))
    ensures TrimLeft(s) == s[k..]
  {
    if k > 0 {
      TrimLeftAt(s[1..], k - 1);
      assert s[1..][k - 1..] == s[k..];
    }
  }

  lemma {:induction false} TrimRightAt(s: Text, k: nat)
    requires k <= |s| && Blank(s, k, |s|) && (k == 0 || !IsSpaceOrTab(s[k - 1]))
    ensures TrimRight(s) == s[..k]
  {
    if k < |s| {
      TrimRightAt(s[..|s| - 1], k);
      assert s[..|s| - 1][..k] == s[..k];
    }
  }

  /** The scans of `trim` start at the ends of a segment but may run past its other end. */
  method Trim(s: Text, bounded: bool, left: nat, right: nat) returns (l: nat, r: nat)
    requires left <= right <= |s|
    ensures left <= l <= |s| && Blank(s, left, l)
    ensures if bounded then l == |s| || !IsSpaceOrTab(s[l]) else l == left
    ensures r <= right && Blank(s, r, right) && (r == 0 || !IsSpaceOrTab(s[r - 1]))
  {
    l, r := left, right;
    while bounded && l < |s| && IsSpaceOrTab(s[l])
      invariant left <= l <= |s| && Blank(s, left, l)
      invariant !bounded ==> l == left
    {
      l := l + 1;
    }
    while r > 0 && IsSpaceOrTab(s[r - 1])
      invariant r <= right && Blank(s, r, right)
    {
      r := r - 1;
    }
  }

  lemma TrimLeftIsLocal(s: Text, left: nat, right: nat, l: nat)
    requires left <= right <= |s| && left <= l <= |s|
    requires Blank(s, left, l) && (l == |s| || !IsSpaceOrTab(s[l]))
    ensures TrimLeft(s[left..right]) == if l < right then s[l..right] else []
  {
    var k := if l < right then l - left else right - left;
    TrimLeftAt(s[left..right], k);
    assert s[left..right][k..] == s[left + k..right];
  }

  lemma TrimRightIsLocal(s: Text, left: nat, right: nat, r: nat)
    requires left <= right <= |s| && r <= right
    requires Blank(s, r, right) && (r == 0 || !IsSpaceOrTab(s[r - 1]))
    ensures TrimRight(s[left..right]) == if left < r then s[left..r] else []
  {
    var k := if left < r then r - left else 0;
    TrimRightAt(s[left..right], k);
    assert s[left..right][..k] == s[left..left + k];
  }

  /** Even so, what `split` keeps is exactly the trimmed segment, and it keeps it exactly
      when that is not empty. */
  lemma TrimIsLocal(s: Text, bounded: bool, left: nat, right: nat, l: nat, r: nat)
    requires left <= right <= |s| && left <= l <= |s| && Blank(s, left, l)
    requires if bounded then l == |s| || !IsSpaceOrTab(s[l]) else l == left
    requires r <= right && Blank(s, r, right) && (r == 0 || !IsSpaceOrTab(s[r - 1]))
    ensures Trimmed(s[left..right], bounded) == if l < r then s[l..r] else []
  {
    if bounded {
      TrimLeftIsLocal(s, left, right, l);
    }
    if l <= right {
      TrimRightIsLocal(s, l, right, r);
    }
  }

  function Fields(segments: seq<Text>, bounded: bool): seq<Text> {
    if segments == [] then []
    else (if Trimmed(segments[0], bounded) == [] then [] else [Trimmed(segments[0], bounded)]) + Fields(segments[1..], bounded)
  }

  lemma {:induction false} FieldsAppend(xs: seq<Text>, ys: seq<Text>, bounded: bool)
    ensures Fields(xs + ys, bounded) == Fields(xs, bounded) + Fields(ys, bounded)
  {
    if xs == [] {
      assert xs + ys == ys;
    } else {
      var tail := xs[1..];
      assert xs + ys == [xs[0]] + (tail + ys) && xs == [xs[0]] + tail;
      FieldsStep(xs[0], tail + ys, bounded);
      FieldsStep(xs[0], tail, bounded);
      FieldsAppend(tail, ys, bounded);
      Associative(if Trimmed(xs[0], bounded) == [] then [] else [Trimmed(xs[0], bounded)],
                  Fields(tail, bounded), Fields(ys, bounded));
    }
  }

  /** Trimming takes spaces and tabs (the bytes 32 and 9) off the right end, and off the left
      end if the end of the text was given, and nothing else; one that holds only blanks
      yields no field, any other yields what is left. */
  lemma TrimMeaning(segment: Text, bounded: bool) returns (l: nat, r: nat)
    ensures l <= r <= |segment| && Trimmed(segment, bounded) == segment[l..r]
    ensures forall k :: 0 <= k < l || r <= k < |segment| ==> segment[k] == 32 || segment[k] == 9
    ensures l < r ==> segment[r - 1] != 32 && segment[r - 1] != 9
    ensures if bounded then l < r ==> segment[l] != 32 && segment[l] != 9 else l == 0
    ensures Fields([segment], bounded) == if l < r then [segment[l..r]] else []
    ensures l == r <==> forall k :: 0 <= k < |segment| ==> segment[k] == 32 || segment[k] == 9
  {
    l := 0;
    if bounded { l := LeftEnd(segment); }
    r := RightEnd(segment);
    assert segment[0..|segment|] == segment;
    TrimIsLocal(segment, bounded, 0, |segment|, l, r);
    if r <= l { l, r := r, r; }
    FieldsStep(segment, [], bounded);
  }

  lemma LeftEnd(s: Text) returns (l: nat)
    ensures l <= |s| && Blank(s, 0, l) && (l == |s| || !IsSpaceOrTab(s[l]))
  {
    l := 0;
    while l < |s| && IsSpaceOrTab(s[l])
      invariant l <= |s| && Blank(s, 0, l)
    {
      l := l + 1;
    }
  }

  lemma RightEnd(s: Text) returns (r: nat)
    ensures r <= |s| && Blank(s, r, |s|) && (r == 0 || !IsSpaceOrTab(s[r - 1]))
  {
    r := |s|;
    while r > 0 && IsSpaceOrTab(s[r - 1])
      invariant r <= |s| && Blank(s, r, |s|)
    {
      r := r - 1;
    }
  }

  lemma FieldsStep(segment: Text, rest: seq<Text>, bounded: bool)
    ensures Fields([segment] + rest, bounded)
            == (if Trimmed(segment, bounded) == [] then [] else [Trimmed(segment, bounded)]) + Fields(rest, bounded)
  {
    assert ([segment] + rest)[0] == segment && ([segment] + rest)[1..] == rest;
  }

  lemma OccursByOne(t: Text, d: byte, q: nat)
    requires q < |t|
    ensures OccursAt(t, [d], q) <==> t[q] == d
  {
    assert t[q..q + 1] == [t[q]];
  }

  /** A segment that ends at a delimiter, and one that ends with the text. */
  lemma SegmentAt(s: Text, d: byte, begin: nat, i: nat)
    requires begin <= i <= |s| && d !in s[begin..i]
    ensures i == |s| ==> Pieces(s[begin..], [d]) == [s[begin..]]
    ensures i < |s| && s[i] == d ==> Pieces(s[begin..], [d]) == [s[begin..i]] + Pieces(s[i + 1..], [d])
  {
    var t := s[begin..];
    forall q | 0 <= q < i - begin ensures !OccursAt(t, [d], q) {
      assert s[begin..i][q] == t[q] != d;
      OccursByOne(t, d, q);
    }
    if i < |s| && s[i] == d {
      OccursByOne(t, d, i - begin);
      FindUnique(t, [d], i - begin);
      Slices(s, begin, i, i + 1);
    }
  }

  lemma Slices(s: Text, i: nat, j: nat, k: nat)
    requires i <= j <= k <= |s|
    ensures s[i..][..j - i] == s[i..j] && s[i..][k - i..] == s[k..]
  {}

  /** split: the non-empty trimmed segments, in order. `bounded` says whether the end of the
      text was given; otherwise `s` is what comes before the NUL. */
  method Split(s: Text, bounded: bool, d: byte) returns (fields: seq<Text>)
    ensures fields == Fields(Pieces(s, [d]), bounded)
  {
    fields := [];
    ghost var all := Fields(Pieces(s, [d]), bounded);
    var i, begin := 0, 0;
    assert s[0..] == s;
    while i < |s|
      invariant begin <= i <= |s| && Absent(s, d, begin, i)
      invariant all == fields + Todo(s, d, bounded, begin)
    {
      if s[i] == d {
        fields := EmitSegment(s, bounded, d, begin, i, fields);
        begin := i + 1;
      }
      i := i + 1;
    }
    TodoLast(s, d, bounded, begin);
    if i != 0 {
      fields := Emit(s, bounded, begin, i, fields, []);
    }
  }

  /** The segment that ends at the delimiter at `i`. */
  method EmitSegment(s: Text, bounded: bool, d: byte, begin: nat, i: nat, fields: seq<Text>) returns (fields': seq<Text>)
    requires begin <= i < |s| && Absent(s, d, begin, i) && s[i] == d
    ensures fields + Todo(s, d, bounded, begin) == fields' + Todo(s, d, bounded, i + 1)
  {
    TodoStep(s, d, bounded, begin, i);
    fields' := Emit(s, bounded, begin, i, fields, Pieces(s[i + 1..], [d]));
  }

  ghost predicate Absent(s: Text, d: byte, begin: nat, i: nat)
    requires i <= |s|
  {
    forall k :: begin <= k < i ==> s[k] != d
  }

  ghost function Todo(s: Text, d: byte, bounded: bool, begin: nat): seq<Text>
    requires begin <= |s|
  {
    Fields(Pieces(s[begin..], [d]), bounded)
  }

  lemma TodoStep(s: Text, d: byte, bounded: bool, begin: nat, i: nat)
    requires begin <= i < |s| && Absent(s, d, begin, i) && s[i] == d
    ensures Todo(s, d, bounded, begin) == Fields([s[begin..i]] + Pieces(s[i + 1..], [d]), bounded)
  {
    SegmentAt(s, d, begin, i);
  }

  lemma TodoLast(s: Text, d: byte, bounded: bool, begin: nat)
    requires begin <= |s| && Absent(s, d, begin, |s|)
    ensures Todo(s, d, bounded, begin) == Fields([s[begin..|s|]] + [], bounded)
    ensures s == [] ==> Todo(s, d, bounded, begin) == []
  {
    SegmentAt(s, d, begin, |s|);
    assert s[begin..] == s[begin..|s|];
    assert [s[begin..]] + [] == [s[begin..]];
  }

  /** trim, and the callback if something is left. */
  method Emit(s: Text, bounded: bool, begin: nat, i: nat, fields: seq<Text>, ghost rest: seq<Text>) returns (fields': seq<Text>)
    requires begin <= i <= |s|
    ensures fields + Fields([s[begin..i]] + rest, bounded) == fields' + Fields(rest, bounded)
  {
    var l, r := Trim(s, bounded, begin, i);
    TrimIsLocal(s, bounded, begin, i, l, r);
    FieldsStep(s[begin..i], rest, bounded);
    fields' := fields;
    if l < r {
      fields' := fields + [s[l..r]];
      Associative(fields, [s[l..r]], Fields(rest, bounded));
    }
  }

  /** With a delimiter of one byte, splitting undoes joining exactly when no piece contains
      the delimiter. */
  lemma {:induction false} SplittableByOne(ps: seq<Text>, c: byte)
    requires ps != []
    ensures Splittable(ps, [c]) <==> forall k :: 0 <= k < |ps| ==> c !in ps[k]
  {
    forall k | 0 <= k < |ps| ensures EndsWhereItShould(ps[k], [c]) <==> c !in ps[k] {
      EndsAtFirst(ps[k], c);
    }
    NoneIffAbsent(ps[|ps| - 1], c);
  }

  lemma NoneIffAbsent(p: Text, c: byte)
    ensures Find(p, [c]).None? <==> c !in p
  {
    forall q | 0 <= q < |p| ensures OccursAt(p, [c], q) <==> p[q] == c {
      assert p[q..q + 1] == [p[q]];
    }
    if c in p {
      var q :| 0 <= q < |p| && p[q] == c;
      assert OccursAt(p, [c], q);
    }
  }

  lemma EndsAtFirst(p: Text, c: byte)
    ensures EndsWhereItShould(p, [c]) <==> c !in p
  {
    forall q | 0 <= q <= |p| ensures OccursAt(p + [c], [c], q) <==> (p + [c])[q] == c {
      assert (p + [c])[q..q + 1] == [(p + [c])[q]];
    }
    if c in p {
      var q :| 0 <= q < |p| && p[q] == c;
      assert OccursAt(p + [c], [c], q);
    } else {
      FindUnique(p + [c], [c], |p|);
    }
  }

  const SLASH: byte := 47
  const DOT: Text := [46]
  const DOTDOT: Text := [46, 46]

  /** The components of a path: what lies between slashes, if anything does. */
  function Components(path: Text): seq<Text> {
    NonEmpty(Pieces(path, [SLASH]))
  }

  /** How deep below the start `..` and names lead. */
  function Depth(components: seq<Text>): int {
    if components == [] then 0
    else
      var last := components[|components| - 1];
      Depth(components[..|components| - 1]) + if last == DOT then 0 else if last == DOTDOT then -1 else 1
  }

  /** Every component but `.` leads down one level, and `..` leads up one instead. */
  lemma {:induction false} DepthCounts(components: seq<Text>)
    ensures Depth(components) == |components| - multiset(components)[[46]] - 2 * multiset(components)[[46, 46]]
  {
    if components != [] {
      var prefix, last := components[..|components| - 1], components[|components| - 1];
      DepthCounts(prefix);
      assert components == prefix + [last];
      assert DOT != DOTDOT by { assert |DOT| == 1 && |DOTDOT| == 2; }
    }
  }

  /** Components are what slashes (the byte 47) separate: joining some with slashes and
      splitting again gives them back exactly when none is empty or holds a slash. */
  lemma ComponentsOfJoin(components: seq<Text>)
    requires components != []
    ensures Components(Join(components, [47])) == components
            <==> forall k :: 0 <= k < |components| ==> components[k] != [] && 47 !in components[k]
  {
    if forall k :: 0 <= k < |components| ==> components[k] != [] && 47 !in components[k] {
      SplittableByOne(components, 47);
      PiecesOfJoin(components, [47]);
      AllNonEmpty(components);
    }
    if Components(Join(components, [47])) == components {
      ComponentsAreProper(Join(components, [47]));
      forall k | 0 <= k < |components| ensures components[k] != [] && 47 !in components[k] {
        assert components[k] in components;
      }
    }
  }

  lemma {:induction false} AllNonEmpty(ps: seq<Text>)
    requires forall k :: 0 <= k < |ps| ==> ps[k] != []
    ensures NonEmpty(ps) == ps
  {
    if ps != [] { AllNonEmpty(ps[1..]); }
  }

  lemma ComponentsAreProper(path: Text)
    ensures forall c :: c in Components(path) ==> c != [] && 47 !in c
  {
    PiecesAreDelimited(path, [47]);
    NonEmptyFilters(Pieces(path, [47]), []);
    forall c | c in Components(path) ensures c != [] && 47 !in c {
      var k :| 0 <= k < |Pieces(path, [47])| && Pieces(path, [47])[k] == c;
      NoneIffAbsent(c, 47);
    }
  }

  /** No prefix of the path leads above the start. */
  ghost predicate StaysBelow(components: seq<Text>) {
    forall k :: 0 <= k <= |components| ==> Below(components, k)
  }

  predicate Below(components: seq<Text>, k: nat)
    requires k <= |components|
  {
    Depth(components[..k]) >= 0
  }

  /** Up to the k-th component the path has not led above the start. */
  lemma BelowIff(components: seq<Text>, k: nat)
    requires k <= |components|
    ensures var prefix := components[..k];
            Below(components, k) <==> multiset(prefix)[[46]] + 2 * multiset(prefix)[[46, 46]] <= k
  {
    DepthCounts(components[..k]);
  }

  lemma BelowInPrefix(components: seq<Text>, n: nat, k: nat)
    requires k <= n <= |components|
    ensures Below(components[..n], k) <==> Below(components, k)
  {
    assert components[..n][..k] == components[..k];
  }

  lemma NoComponents()
    ensures Components([]) == []
  {
    var empty: Text := [];
    assert [empty] + [] == [empty];
    KeptStep(empty, [], false);
  }

  lemma SlashFirst(path: Text)
    requires path != [] && path[0] == SLASH
    ensures Components(path) == Components(path[1..])
  {
    SegmentAt(path, SLASH, 0, 0);
    assert path[0..] == path && path[0..0] == [];
    KeptStep([], Pieces(path[1..], [SLASH]), false);
  }

  /** The first component, up to the next slash or the end. */
  lemma ComponentFirst(path: Text, n: nat)
    requires 0 < n <= |path| && SLASH !in path[..n] && (n == |path| || path[n] == SLASH)
    ensures Components(path) == [path[..n]] + Components(path[n..])
  {
    assert path[0..] == path && path[0..n] == path[..n];
    SegmentAt(path, SLASH, 0, n);
    if n < |path| {
      assert path[n..][1..] == path[n + 1..];
      SlashFirst(path[n..]);
      KeptStep(path[..n], Pieces(path[n + 1..], [SLASH]), false);
    } else {
      assert path[..n] == path && path[n..] == [];
      KeptStep(path, [], false);
      assert [path] + [] == [path];
      NoComponents();
    }
  }

  method SkipSlashes(path: Text, i: nat) returns (j: nat)
    requires i <= |path|
    ensures i <= j <= |path| && (j < |path| ==> path[j] != SLASH)
    ensures Components(path[j..]) == Components(path[i..])
  {
    j := i;
    while j < |path| && path[j] == SLASH
      invariant i <= j <= |path| && Components(path[j..]) == Components(path[i..])
    {
      SlashFirst(path[j..]);
      assert path[j..][1..] == path[j + 1..];
      j := j + 1;
    }
  }

  method IsValidPath(path: Text) returns (valid: bool)
    ensures valid <==> forall k :: 0 <= k <= |Components(path)| ==> Below(Components(path), k)
  {
    ghost var done: seq<Text> := [];
    var level := 0;
    assert path[0..] == path;
    var i := SkipSlashes(path, 0);
    while i < |path|
      invariant i <= |path| && (i < |path| ==> path[i] != SLASH)
      invariant Components(path) == done + Components(path[i..])
      invariant level == Depth(done) && StaysBelow(done)
    {
      var begin := i;
      i := ReadComponent(path, i);
      var component := path[begin..i];
      ghost var rest := Components(path[i..]);
      assert done + ([component] + rest) == done + [component] + rest;
      done := done + [component];
      StaysBelowStep(done, rest);
      if component == DOT {
      } else if component == DOTDOT {
        if level == 0 {
          return false;
        }
        level := level - 1;
      } else {
        level := level + 1;
      }
      i := SkipSlashes(path, i);
    }
    NoComponents();
    assert path[i..] == [] && done + [] == done;
    return true;
  }

  method ReadComponent(path: Text, begin: nat) returns (i: nat)
    requires begin < |path| && path[begin] != SLASH
    ensures begin < i <= |path|
    ensures Components(path[begin..]) == [path[begin..i]] + Components(path[i..])
  {
    i := begin;
    while i < |path| && path[i] != SLASH
      invariant begin <= i <= |path| && SLASH !in path[begin..i]
      invariant i == begin ==> path[i] != SLASH
    {
      i := i + 1;
    }
    var rest := path[begin..];
    assert rest[..i - begin] == path[begin..i] && rest[i - begin..] == path[i..];
    ComponentFirst(rest, i - begin);
  }

  /** Whether the last component leads above the start. */
  lemma StaysBelowStep(done: seq<Text>, rest: seq<Text>)
    requires done != [] && StaysBelow(done[..|done| - 1])
    ensures StaysBelow(done) <==> Depth(done) >= 0
    ensures Depth(done) < 0 ==> !StaysBelow(done + rest)
  {
    BelowAtEnd(done);
    BelowAtEnd((done + rest)[..|done|]);
    BelowInPrefix(done + rest, |done|, |done|);
    assert (done + rest)[..|done|] == done;
    if Depth(done) >= 0 {
      forall k | 0 <= k <= |done| ensures Below(done, k) {
        if k < |done| { BelowInPrefix(done, |done| - 1, k); }
      }
    }
  }

  lemma BelowAtEnd(components: seq<Text>)
    ensures Below(components, |components|) <==> Depth(components) >= 0
  {
    assert components[..|components|] == components;
  }
}
