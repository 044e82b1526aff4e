/** Bytes, searching in them, and integers in network order. */
module Bytes {
  import opened Options
  import opened Powers
  import opened Sequences

  type byte = b: int | 0 <= b < 256

  predicate OccursAt(s: seq<byte>, d: seq<byte>, p: int) {
    0 <= p && p + |d| <= |s| && s[p..p + |d|] == d
  }

  ghost predicate IsFirst(s: seq<byte>, d: seq<byte>, p: int) {
    OccursAt(s, d, p) && forall q :: 0 <= q < p ==> !OccursAt(s, d, q)
  }

  /** The position of the first occurrence of `d` at or after `p`. */
  function FindFrom(s: seq<byte>, d: seq<byte>, p: nat): (r: Option<nat>)
    ensures r.Some? ==> OccursAt(s, d, r.value) && p <= r.value
    ensures forall q :: p <= q < (if r.Some? then r.value else |s| + 1) ==> !OccursAt(s, d, q)
    decreases |s| - p
  {
    if p + |d| > |s| then None
    else if s[p..p + |d|] == d then Some(p)
    else FindFrom(s, d, p + 1)
  }

  function Find(s: seq<byte>, d: seq<byte>): Option<nat> {
    FindFrom(s, d, 0)
  }

  lemma FindUnique(s: seq<byte>, d: seq<byte>, p: nat)
    requires IsFirst(s, d, p)
    ensures Find(s, d) == Some(p)
  {}

  lemma OccursInLonger(s: seq<byte>, t: seq<byte>, d: seq<byte>, p: int)
    requires p + |d| <= |s|
    ensures OccursAt(s + t, d, p) <==> OccursAt(s, d, p)
  {
    if 0 <= p { assert (s + t)[p..p + |d|] == s[p..p + |d|]; }
  }

  lemma OccursInSuffix(s: seq<byte>, t: seq<byte>, d: seq<byte>, p: int)
    requires 0 <= p
    ensures OccursAt(s + t, d, |s| + p) <==> OccursAt(t, d, p)
  {
    if p + |d| <= |t| { assert (s + t)[|s| + p..|s| + p + |d|] == t[p..p + |d|]; }
  }

  /** More input does not move the first occurrence. */
  lemma FindInLonger(s: seq<byte>, t: seq<byte>, d: seq<byte>)
    requires Find(s, d).Some?
    ensures Find(s + t, d) == Find(s, d)
  {
    var p := Find(s, d).value;
    forall q | 0 <= q <= p ensures OccursAt(s + t, d, q) <==> OccursAt(s, d, q) {
      OccursInLonger(s, t, d, q);
    }
    FindUnique(s + t, d, p);
  }

  /** When no occurrence begins in `s`, the first one in `s + t` is the first one in `t`. */
  lemma FindAfter(s: seq<byte>, t: seq<byte>, d: seq<byte>)
    requires forall q :: 0 <= q < |s| ==> !OccursAt(s + t, d, q)
    ensures Find(s + t, d) == match Find(t, d) case Some(p) => Some(|s| + p) case None => None
  {
    forall q | |s| <= q ensures OccursAt(s + t, d, q) <==> OccursAt(t, d, q - |s|) {
      OccursInSuffix(s, t, d, q - |s|);
    }
    match Find(t, d) {
      case Some(p) => FindUnique(s + t, d, |s| + p);
      case None =>
    }
  }

  /** std::search */
  method Search(s: seq<byte>, d: seq<byte>) returns (r: Option<nat>)
    ensures r == Find(s, d)
    ensures r.Some? ==> IsFirst(s, d, r.value)
    ensures r.None? ==> forall q :: !OccursAt(s, d, q)
  {
    var p := 0;
    while p + |d| <= |s|
      invariant Find(s, d) == FindFrom(s, d, p)
    {
      if s[p..p + |d|] == d {
        return Some(p);
      }
      p := p + 1;
    }
    return None;
  }

  /** An n-byte unsigned integer as a little-endian host keeps it in memory. */
  function HostBytes(v: nat, n: nat): (s: seq<byte>)
    ensures |s| == n
  {
    if n == 0 then [] else [v % 256] + HostBytes(v / 256, n - 1)
  }

  function HostValue(s: seq<byte>): nat {
    if s == [] then 0 else s[0] + 256 * HostValue(s[1..])
  }

  /** htons, htonl and hton64 reverse the bytes of the host's representation. */
  function NetworkBytes(v: nat, n: nat): (s: seq<byte>)
    ensures |s| == n
  {
    Reversed(HostBytes(v, n))
  }

  function NetworkValue(s: seq<byte>): nat {
    HostValue(Reversed(s))
  }

  lemma {:induction false} HostRoundTrip(v: nat, n: nat)
    requires v < Pow(256, n)
    ensures HostValue(HostBytes(v, n)) == v
  {
    if n > 0 {
      HostRoundTrip(v / 256, n - 1);
      assert HostBytes(v, n)[1..] == HostBytes(v / 256, n - 1);
    }
  }

  lemma FirstByte(b: byte, v: nat)
    ensures (b + 256 * v) % 256 == b && (b + 256 * v) / 256 == v
  {}

  lemma {:induction false} HostBytesOfValue(s: seq<byte>)
    ensures HostValue(s) < Pow(256, |s|) && HostBytes(HostValue(s), |s|) == s
  {
    if s != [] {
      HostBytesOfValue(s[1..]);
      FirstByte(s[0], HostValue(s[1..]));
    }
  }

  /** An n-byte integer reads back as it was written. */
  lemma NetworkRoundTrip(v: nat, n: nat)
    requires v < Pow(256, n)
    ensures NetworkValue(NetworkBytes(v, n)) == v
  {
    ReversedTwice(HostBytes(v, n));
    HostRoundTrip(v, n);
  }

  /** And every n bytes are written by exactly the integer that they read as. */
  lemma NetworkBytesOfValue(s: seq<byte>)
    ensures NetworkValue(s) < Pow(256, |s|) && NetworkBytes(NetworkValue(s), |s|) == s
  {
    HostBytesOfValue(Reversed(s));
    ReversedTwice(s);
  }

  /** Network order is most significant byte first. */
  lemma {:induction false} NetworkOrder(v: nat, n: nat)
    requires n > 0 && v < Pow(256, n)
    ensures NetworkBytes(v, n)[0] == v / Pow(256, n - 1)
    ensures NetworkBytes(v, n)[1..] == NetworkBytes(v % Pow(256, n - 1), n - 1)
  {
    HostBytesSplit(v, n);
    ReversedLast(HostBytes(v % Pow(256, n - 1), n - 1), v / Pow(256, n - 1));
  }

  lemma {:induction false} HostBytesSplit(v: nat, n: nat)
    requires n > 0 && v < Pow(256, n)
    ensures v / Pow(256, n - 1) < 256
    ensures HostBytes(v, n) == HostBytes(v % Pow(256, n - 1), n - 1) + [v / Pow(256, n - 1)]
  {
    if n > 1 {
      var p := Pow(256, n - 2);
      LowBytes(v, p);
      HostBytesSplit(v / 256, n - 1);
      assert HostBytes(v % (256 * p), n - 1) == [v % 256] + HostBytes((v / 256) % p, n - 2);
    }
  }

  lemma LowBytes(v: nat, p: nat)
    requires p > 0
    ensures v / (256 * p) == (v / 256) / p
    ensures v % (256 * p) % 256 == v % 256 && v % (256 * p) / 256 == (v / 256) % p
  {
    DivDiv(v, 256, p);
    assert p * 256 == 256 * p;
    var low, high := v % 256, (v / 256) % p;
    assert (high * 256 + low) % 256 == low && (high * 256 + low) / 256 == high;
  }
}
