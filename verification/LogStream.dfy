/** cooper/util/LogStream: text goes to a fixed buffer of 4000 bytes and, once something does
    not fit there, to a growing string that takes the buffer's place. */
module LogStreams {
  import opened Sequences
  import opened Numerals

  const SMALL_BUFFER := 4000

  /** std::reverse on buf[lo..hi] */
  method ReverseRange(buf: array<char>, lo: nat, hi: nat)
    requires lo <= hi <= buf.Length
    modifies buf
    ensures buf[..] == old(buf[..lo]) + Reversed(old(buf[lo..hi])) + old(buf[hi..])
  {
    var first, last := lo, hi;
    while first + 1 < last
      invariant lo <= first <= last <= hi && first + last == lo + hi
      invariant forall k :: 0 <= k < lo || hi <= k < buf.Length ==> buf[k] == old(buf[k])
      invariant forall k :: first <= k < last ==> buf[k] == old(buf[k])
      invariant forall k :: lo <= k < first || last <= k < hi ==> buf[k] == old(buf[lo + hi - 1 - k])
    {
      last := last - 1;
      buf[first], buf[last] := buf[last], buf[first];
      first := first + 1;
    }
    assert forall k :: lo <= k < hi ==> buf[k] == old(buf[lo..hi])[hi - 1 - k];
  }

  /** Writes `s` at `start`, leaving the rest of the buffer alone. */
  ghost predicate Written(before: seq<char>, after: seq<char>, start: nat, s: string) {
    start + |s| <= |before| && after == before[..start] + s + before[start + |s|..]
  }

  lemma WrittenContents(before: seq<char>, after: seq<char>, start: nat, s: string)
    requires Written(before, after, start, s + ['\0'])
    ensures |after| == |before| && after[..start + |s|] == before[..start] + s
  {}

  /** *p = c, with `start` the beginning of what is being written. */
  method Put(buf: array<char>, start: nat, p: nat, c: char)
    requires start <= p < buf.Length
    modifies buf
    ensures Reversed(buf[start..p + 1]) == [c] + Reversed(old(buf[start..p]))
    ensures forall k :: 0 <= k < start || p < k < buf.Length ==> buf[k] == old(buf[k])
  {
    ReversedLast(buf[start..p], c);
    buf[p] := c;
    assert buf[start..p + 1] == old(buf[start..p]) + [c];
  }

  /** The digits of `n` still to be written while the loop goes on. */
  function Rest(base: Base, more: bool, n: nat): string {
    if more then Numeral(base, n) else ""
  }

  /** One turn of the digit loop. */
  lemma DigitWritten(base: Base, n: nat, done: string)
    ensures Numeral(base, n) + done
            == Rest(base, base.High(n) != 0, base.High(n)) + ([DigitChar(base.Low(n))] + done)
    ensures base.High(n) == 0 || base.High(n) < n
  {
    NumeralStep(base, n);
    Associative(Rest(base, base.High(n) != 0, base.High(n)), [DigitChar(base.Low(n))], done);
  }

  /** zero[i % 10] and i / 10: the table is symmetric, so the sign does not matter. */
  method LeastDigit(i: int) returns (digit: char, rest: int)
    ensures digit == DigitChar(Abs(i) % 10) && Abs(rest) == Abs(i) / 10
    ensures i >= 0 ==> rest >= 0
    ensures i <= 0 ==> rest <= 0
  {
    TruncatedDigit(i);
    digit, rest := DIGITS[9 + TruncMod(i, 10)], TruncDiv(i, 10);
  }

  /** The digit loop of convert: least significant digit first. */
  method WriteDigits(buf: array<char>, start: nat, value: int) returns (p: nat)
    requires start + |Numeral(Ten, Abs(value))| < buf.Length
    modifies buf
    ensures start <= p <= buf.Length && Reversed(buf[start..p]) == Numeral(Ten, Abs(value))
    ensures forall k :: 0 <= k < start || p <= k < buf.Length ==> buf[k] == old(buf[k])
  {
    ghost var text := Numeral(Ten, Abs(value));
    var i, more := value, true;
    p := start;
    while more
      invariant start <= p <= buf.Length
      invariant forall k :: 0 <= k < start || p <= k < buf.Length ==> buf[k] == old(buf[k])
      invariant !more ==> i == 0
      invariant text == Rest(Ten, more, Abs(i)) + Reversed(buf[start..p])
      decreases more, Abs(i)
    {
      DigitWritten(Ten, Abs(i), Reversed(buf[start..p]));
      var digit;
      digit, i := LeastDigit(i);
      Put(buf, start, p, digit);
      p := p + 1;
      more := i != 0;
    }
  }

  /** The digit loop of convertHex. */
  method WriteHexDigits(buf: array<char>, start: nat, value: nat) returns (p: nat)
    requires start + |Numeral(Sixteen, value)| < buf.Length
    modifies buf
    ensures start <= p <= buf.Length && Reversed(buf[start..p]) == Numeral(Sixteen, value)
    ensures forall k :: 0 <= k < start || p <= k < buf.Length ==> buf[k] == old(buf[k])
  {
    ghost var text := Numeral(Sixteen, value);
    var i, more := value, true;
    p := start;
    while more
      invariant start <= p <= buf.Length
      invariant forall k :: 0 <= k < start || p <= k < buf.Length ==> buf[k] == old(buf[k])
      invariant !more ==> i == 0
      invariant text == Rest(Sixteen, more, i) + Reversed(buf[start..p])
      decreases more, i
    {
      DigitWritten(Sixteen, i, Reversed(buf[start..p]));
      HexDigit(i % 16);
      var lsd := i % 16;
      i := i / 16;
      Put(buf, start, p, DIGITS_HEX[lsd]);
      p := p + 1;
      more := i != 0;
    }
  }

  /** The digits and the sign, still in reverse. */
  method WriteSigned(buf: array<char>, start: nat, value: int) returns (p: nat)
    requires start + |Decimal(value)| < buf.Length
    modifies buf
    ensures start <= p <= buf.Length && Reversed(buf[start..p]) == Decimal(value)
    ensures forall k :: 0 <= k < start || p <= k < buf.Length ==> buf[k] == old(buf[k])
  {
    p := WriteDigits(buf, start, value);
    if value < 0 {
      p := PutSign(buf, start, p, Numeral(Ten, Abs(value)));
    }
  }

  method PutSign(buf: array<char>, start: nat, p: nat, ghost digits: string) returns (p': nat)
    requires start <= p <= buf.Length && Reversed(buf[start..p]) == digits && start + |digits| < buf.Length
    modifies buf
    ensures p' == p + 1 <= buf.Length && Reversed(buf[start..p']) == ['-'] + digits
    ensures forall k :: 0 <= k < start || p' <= k < buf.Length ==> buf[k] == old(buf[k])
  {
    Put(buf, start, p, '-');
    p' := p + 1;
  }

  /** convert, which leaves what comes before `start` as it was. */
  method Convert(buf: array<char>, start: nat, value: int) returns (len: nat)
    requires start + |Decimal(value)| < buf.Length
    modifies buf
    ensures len == |Decimal(value)| && Written(old(buf[..]), buf[..], start, Decimal(value) + ['\0'])
    ensures buf[..start + len] == old(buf[..start]) + Decimal(value)
  {
    ghost var was := buf[..];
    var p := WriteSigned(buf, start, value);
    Finish(buf, start, p, was, Decimal(value));
    len := p - start;
    WrittenContents(was, buf[..], start, Decimal(value));
    assert buf[..start + len] == buf[..][..start + len] && old(buf[..start]) == was[..start];
  }

  /** convertHex */
  method ConvertHex(buf: array<char>, start: nat, value: nat) returns (len: nat)
    requires start + |Numeral(Sixteen, value)| < buf.Length
    modifies buf
    ensures len == |Numeral(Sixteen, value)|
    ensures Written(old(buf[..]), buf[..], start, Numeral(Sixteen, value) + ['\0'])
    ensures buf[..start + len] == old(buf[..start]) + Numeral(Sixteen, value)
  {
    ghost var was := buf[..];
    var p := WriteHexDigits(buf, start, value);
    Finish(buf, start, p, was, Numeral(Sixteen, value));
    len := p - start;
    WrittenContents(was, buf[..], start, Numeral(Sixteen, value));
    assert buf[..start + len] == buf[..][..start + len] && old(buf[..start]) == was[..start];
  }

  /** *p = '\0', and std::reverse of what has been written. */
  method Finish(buf: array<char>, start: nat, p: nat, ghost was: seq<char>, ghost text: string)
    requires start <= p < buf.Length == |was| && Reversed(buf[start..p]) == text
    requires forall k :: 0 <= k < start || p <= k < buf.Length ==> buf[k] == was[k]
    modifies buf
    ensures |text| == p - start && Written(was, buf[..], start, text + ['\0'])
  {
    buf[p] := '\0';
    ghost var mid := buf[..];
    assert mid[start..p] == old(buf[start..p]);
    ReverseRange(buf, start, p);
    Joined(was, mid, buf[..], start, p, text);
  }

  lemma Joined(was: seq<char>, mid: seq<char>, after: seq<char>, start: nat, p: nat, text: string)
    requires start <= p < |was| == |mid| && |text| == p - start && mid[p] == '\0'
    requires forall k :: 0 <= k < start || p < k < |was| ==> mid[k] == was[k]
    requires after == mid[..start] + text + mid[p..]
    ensures Written(was, after, start, text + ['\0'])
  {
    assert mid[..start] == was[..start] && mid[p..] == ['\0'] + was[p + 1..];
    assert was[..start] + text + (['\0'] + was[p + 1..]) == was[..start] + (text + ['\0']) + was[p + 1..];
  }

  class FixedBuffer {
    const data: array<char>
    var cur: nat

    ghost predicate Valid()
      reads this
    {
      cur <= data.Length
    }

    ghost function Contents(): string
      requires Valid()
      reads this, data
    {
      data[..cur]
    }

    constructor (size: nat)
      ensures Valid() && Contents() == "" && fresh(data) && data.Length == size
    {
      data, cur := new char[size], 0;
    }

    function Avail(): nat
      requires Valid()
      reads this
    {
      data.Length - cur
    }

    /** All or nothing, and one byte always stays free. */
    method Append(s: string) returns (ok: bool)
      requires Valid()
      modifies this`cur, data
      ensures Valid() && (ok <==> |s| < old(Avail()))
      ensures Contents() == if ok then old(Contents()) + s else old(Contents())
    {
      ok := Avail() > |s|;
      if ok {
        forall k | 0 <= k < |s| {
          data[cur + k] := s[k];
        }
        cur := cur + |s|;
      }
    }

    /** Takes in what has been written at current(). */
    method Add(len: nat)
      requires Valid() && cur + len <= data.Length
      modifies this`cur
      ensures Valid() && Contents() == data[..old(cur) + len]
    {
      cur := cur + len;
    }

    method Reset()
      modifies this`cur
      ensures Valid() && Contents() == ""
    {
      cur := 0;
    }
  }

  /** What callers put into the stream. */
  datatype Item = Text(s: string) | Integer(width: Width, v: int) | Pointer(address: nat)

  predicate Printable(item: Item) {
    match item
    case Text(_) => true
    case Integer(width, v) => InRange(width, v)
    case Pointer(address) => address < 0x1_0000_0000_0000_0000
  }

  function Rendering(item: Item): string {
    match item
    case Text(s) => s
    case Integer(_, v) => Decimal(v)
    case Pointer(address) => ['0', 'x'] + Numeral(Sixteen, address)
  }

  function Renderings(items: seq<Item>): string {
    if items == [] then "" else Renderings(items[..|items| - 1]) + Rendering(items[|items| - 1])
  }

  class LogStream {
    const buffer: FixedBuffer
    var exBuffer: string

    ghost predicate Valid()
      reads this, buffer
    {
      buffer.Valid() && buffer.data.Length == SMALL_BUFFER
    }

    /** bufferData() and bufferLength() */
    ghost function Visible(): string
      requires Valid()
      reads this, buffer, buffer.data
    {
      if exBuffer != "" then exBuffer else buffer.Contents()
    }

    constructor ()
      ensures Valid() && Visible() == "" && fresh(buffer) && fresh(buffer.data)
    {
      buffer := new FixedBuffer(SMALL_BUFFER);
      exBuffer := "";
    }

    method Append(s: string)
      requires Valid()
      modifies this`exBuffer, buffer`cur, buffer.data
      ensures Valid() && Visible() == old(Visible()) + s
      ensures exBuffer == "" <==> old(exBuffer) == "" && old(buffer.cur) + |s| < 4000
    {
      if exBuffer == "" {
        var ok := buffer.Append(s);
        if !ok {
          exBuffer := exBuffer + buffer.data[..buffer.cur];
          exBuffer := exBuffer + s;
        }
      } else {
        exBuffer := exBuffer + s;
      }
    }

    method FormatInteger(width: Width, v: int)
      requires Valid() && InRange(width, v)
      modifies this`exBuffer, buffer`cur, buffer.data
      ensures Valid() && Visible() == old(Visible()) + Decimal(v)
      ensures exBuffer == "" <==> old(exBuffer) == "" && old(buffer.cur) + Digits10(width) + 4 <= 4000
    {
      DecimalFits(width, v);
      FormatWithin(Digits10(width) + 4, v);
    }

    method FormatWithin(maxNumericSize: nat, v: int)
      requires Valid() && |Decimal(v)| < maxNumericSize < SMALL_BUFFER
      modifies this`exBuffer, buffer`cur, buffer.data
      ensures Valid() && Visible() == old(Visible()) + Decimal(v)
      ensures exBuffer == "" <==> old(exBuffer) == "" && old(buffer.cur) + maxNumericSize <= SMALL_BUFFER
    {
      if exBuffer == "" {
        if buffer.Avail() >= maxNumericSize {
          var len := Convert(buffer.data, buffer.cur, v);
          buffer.Add(len);
          return;
        }
        Spill();
      }
      var room := new char[maxNumericSize];
      var len := Convert(room, 0, v);
      Extend(room, len, Decimal(v));
    }

    /** operator<<(const void*) */
    method FormatPointer(address: nat)
      requires Valid() && address < 0x1_0000_0000_0000_0000
      modifies this`exBuffer, buffer`cur, buffer.data
      ensures Valid() && Visible() == old(Visible()) + "0x" + Numeral(Sixteen, address)
      ensures exBuffer == "" <==> old(exBuffer) == "" && old(buffer.cur) + 20 <= 4000
    {
      assert Rendering(Pointer(address)) == "0x" + Numeral(Sixteen, address);
      Associative(Visible(), "0x", Numeral(Sixteen, address));
      PointerFits(address);
      var maxNumericSize := 64 / 4 + 4;
      if exBuffer == "" {
        if buffer.Avail() >= maxNumericSize {
          var len := WritePointer(buffer.data, buffer.cur, address);
          buffer.Add(len + 2);
          return;
        }
        Spill();
      }
      var room := new char[maxNumericSize];
      var len := WritePointer(room, 0, address);
      Extend(room, len + 2, Rendering(Pointer(address)));
    }

    /** The string takes the place of the buffer. */
    method Spill()
      requires Valid() && exBuffer == "" && buffer.cur > 0
      modifies this`exBuffer
      ensures exBuffer == old(Visible()) && exBuffer != ""
    {
      exBuffer := exBuffer + buffer.data[..buffer.cur];
    }

    /** The number has been written in the room made at the end of the string. */
    method Extend(room: array<char>, len: nat, ghost text: string)
      requires exBuffer != "" && len <= room.Length && room[..len] == text
      modifies this`exBuffer
      ensures exBuffer == old(exBuffer) + text && exBuffer != ""
    {
      exBuffer := exBuffer + room[..len];
    }

    method ResetBuffer()
      requires Valid()
      modifies this`exBuffer, buffer`cur
      ensures Valid() && Visible() == ""
    {
      buffer.Reset();
      exBuffer := "";
    }

    method Write(item: Item)
      requires Valid() && Printable(item)
      modifies this`exBuffer, buffer`cur, buffer.data
      ensures Valid() && Visible() == old(Visible()) + Rendering(item)
    {
      match item {
        case Text(s) => Append(s);
        case Integer(width, v) => FormatInteger(width, v);
        case Pointer(address) =>
          Associative(Visible(), "0x", Numeral(Sixteen, address));
          FormatPointer(address);
      }
    }

    /** Any run of insertions: the visible text is the concatenation of all renderings,
        wherever the buffer overflows on the way. */
    method WriteAll(items: seq<Item>)
      requires Valid() && forall i :: 0 <= i < |items| ==> Printable(items[i])
      modifies this`exBuffer, buffer`cur, buffer.data
      ensures Valid() && Visible() == old(Visible()) + Renderings(items)
    {
      ghost var start := Visible();
      for n := 0 to |items|
        invariant Valid() && Visible() == start + Renderings(items[..n])
      {
        RenderingsStep(start, items, n);
        Write(items[n]);
      }
      assert items[..|items|] == items;
    }
  }

  lemma RenderingsStep(start: string, items: seq<Item>, n: nat)
    requires n < |items|
    ensures start + Renderings(items[..n]) + Rendering(items[n]) == start + Renderings(items[..n + 1])
  {
    assert items[..n + 1][..n] == items[..n];
    Associative(start, Renderings(items[..n]), Rendering(items[n]));
  }

  /** "0x" and convertHex. */
  method WritePointer(buf: array<char>, start: nat, address: nat) returns (len: nat)
    requires start + 2 + |Numeral(Sixteen, address)| < buf.Length
    modifies buf
    ensures len == |Numeral(Sixteen, address)|
    ensures buf[..start + len + 2] == old(buf[..start]) + Rendering(Pointer(address))
  {
    ghost var before := buf[..start];
    PutPrefix(buf, start);
    len := ConvertHex(buf, start + 2, address);
    Associative(before, ['0', 'x'], Numeral(Sixteen, address));
  }

  method PutPrefix(buf: array<char>, start: nat)
    requires start + 2 <= buf.Length
    modifies buf
    ensures buf[..start + 2] == old(buf[..start]) + ['0', 'x']
  {
    buf[start] := '0';
    buf[start + 1] := 'x';
  }
}
