/**
 What the compressors of lz4.cc find, as functions of the input: a greedy search that remembers every position it
 has stored, takes the last one with the hash of the next four bytes, and extends a hit byte by byte both ways.
 Distances and limits are those of the format: a match starts at least 12 bytes before the end, leaves the last 5
 alone, and is at most 65535 bytes back.
 */
module Lz4Greedy {
  import opened Bytes
  import opened Lz4Format

  /** LZ4_compressCtx (32-bit table entries) and LZ4_compress64kCtx (16-bit entries, larger table). */
  datatype Variant = Ctx | Ctx64k

  function TableSize(v: Variant): nat { if v.Ctx? then 4096 else 8192 }

  /** The multiplicative hash of the four bytes at p, in 32-bit arithmetic. */
  function HashValue(v: Variant, s: seq<byte>, p: nat): (h: nat)
    requires p + 4 <= |s|
    ensures h < TableSize(v)
  {
    var product := Word32(s, p) * 2654435761 % 0x1_0000_0000;
    if v.Ctx? then product / 0x10_0000 else product / 0x8_0000
  }

  /** The hash is the top 12 or 13 of the low 32 bits of the product with the little-endian word. */
  lemma HashIsTopBits(v: Variant, s: seq<byte>, p: nat) returns (high: nat, low: nat)
    requires p + 4 <= |s|
    ensures var unit: nat := if v.Ctx? then 0x1_0000_0000 / 4096 else 0x1_0000_0000 / 8192;
            var word := s[p] as int + 256 * s[p + 1] as int + 65536 * s[p + 2] as int + 16777216 * s[p + 3] as int;
            low < unit && HashValue(v, s, p) * unit + low < 0x1_0000_0000
            && word * 2654435761 == high * 0x1_0000_0000 + HashValue(v, s, p) * unit + low
  {
    var product := Word32(s, p) * 2654435761;
    var bits := product % 0x1_0000_0000;
    high := product / 0x1_0000_0000;
    low := if v.Ctx? then bits % 0x10_0000 else bits % 0x8_0000;
  }

  // ---- Searching ----

  predicate Hashable(src: seq<byte>, stored: seq<nat>) {
    forall i | 0 <= i < |stored| :: stored[i] + 4 <= |src|
  }

  /** The last stored position whose four bytes have the hash h; if there is none, position 0. */
  function Latest(v: Variant, src: seq<byte>, stored: seq<nat>, h: nat): nat
    requires Hashable(src, stored)
  {
    if |stored| == 0 then 0
    else if HashValue(v, src, stored[|stored| - 1]) == h then stored[|stored| - 1]
    else Latest(v, src, stored[..|stored| - 1], h)
  }

  lemma LatestOfSnoc(v: Variant, src: seq<byte>, stored: seq<nat>, p: nat, h: nat)
    requires Hashable(src, stored) && p + 4 <= |src|
    ensures Hashable(src, stored + [p])
    ensures Latest(v, src, stored + [p], h) == if HashValue(v, src, p) == h then p else Latest(v, src, stored, h)
  {
    hide HashValue;
    assert (stored + [p])[..|stored|] == stored;
  }

  /** An earlier position with the same four bytes, near enough for the wide table. */
  predicate Hit(v: Variant, src: seq<byte>, ref: nat, ip: nat) {
    && ref < ip && ip + 4 <= |src| && src[ref..ref + 4] == src[ip..ip + 4]
    && (v.Ctx? ==> ip - ref <= 65535)
  }

  datatype Found = NoMatch | Match(ip: nat, ref: nat, stored: seq<nat>)

  /** The first hit from p on. After k attempts the step is (67 + k) / 64; the next position must leave 12 bytes. */
  function Search(v: Variant, src: seq<byte>, stored: seq<nat>, p: nat, k: nat): (r: Found)
    requires Hashable(src, stored)
    ensures r.Match? ==> p <= r.ip && r.ip + 12 < |src| && r.ref < r.ip && Hashable(src, r.stored)
    decreases |src| - p
  {
    var next := p + (67 + k) / 64;
    if next + 12 > |src| then NoMatch
    else
      var ref := Latest(v, src, stored, HashValue(v, src, p));
      if Hit(v, src, ref, p) then Match(p, ref, stored + [p]) else Search(v, src, stored + [p], next, k + 1)
  }

  /** The positions tried from p on. */
  function Tried(p: nat, k: nat): nat {
    if k == 0 then p else Tried(p, k - 1) + (66 + k) / 64
  }

  function TriedBefore(p: nat, k: nat): seq<nat> {
    if k == 0 then [] else TriedBefore(p, k - 1) + [Tried(p, k - 1)]
  }

  /** The k-th position tried, and there is room for a next one. */
  predicate InReach(src: seq<byte>, p: nat, k: nat) {
    Tried(p, k + 1) + 12 <= |src|
  }

  /** At the k-th position tried, the last position stored with its hash is a hit. */
  predicate HitAt(v: Variant, src: seq<byte>, stored: seq<nat>, p: nat, k: nat) {
    && InReach(src, p, k) && Hashable(src, stored + TriedBefore(p, k))
    && Hit(v, src, Latest(v, src, stored + TriedBefore(p, k), HashValue(v, src, Tried(p, k))), Tried(p, k))
  }

  /** The search ends at the first position tried that has a hit, or out of reach: then none of them has. */
  lemma SearchIsFirst(v: Variant, src: seq<byte>, stored: seq<nat>, p: nat) returns (n: nat)
    requires Hashable(src, stored)
    ensures forall j | 0 <= j < n :: InReach(src, p, j) && !HitAt(v, src, stored, p, j)
    ensures match Search(v, src, stored, p, 0)
            case Match(ip, ref, after) =>
              ip == Tried(p, n) && HitAt(v, src, stored, p, n) && after == stored + TriedBefore(p, n + 1)
            case NoMatch => !InReach(src, p, n)
  {
    assert stored + [] == stored;
    n := SearchIsFirstFrom(v, src, stored, p, 0);
  }

  lemma {:induction false} SearchIsFirstFrom(v: Variant, src: seq<byte>, stored: seq<nat>, p: nat, k: nat) returns (n: nat)
    requires Hashable(src, stored + TriedBefore(p, k))
    ensures k <= n && forall j | k <= j < n :: InReach(src, p, j) && !HitAt(v, src, stored, p, j)
    ensures match Search(v, src, stored + TriedBefore(p, k), Tried(p, k), k)
            case Match(ip, ref, after) =>
              ip == Tried(p, n) && HitAt(v, src, stored, p, n) && after == stored + TriedBefore(p, n + 1)
            case NoMatch => !InReach(src, p, n)
    decreases |src| - Tried(p, k)
  {
    hide Hit, HashValue, Latest;
    n := k;
    assert (stored + TriedBefore(p, k)) + [Tried(p, k)] == stored + TriedBefore(p, k + 1);
    if InReach(src, p, k) && !HitAt(v, src, stored, p, k) {
      n := SearchIsFirstFrom(v, src, stored, p, k + 1);
    }
  }

  // ---- Extending ----

  /** Where a match found at ip starts: as far back as the bytes agree, but not before the anchor. */
  function StartOf(src: seq<byte>, anchor: nat, ip: nat, d: nat): (start: nat)
    requires anchor <= ip <= |src| && 1 <= d <= ip
    ensures anchor <= start <= ip && d <= start
  {
    if ip > anchor && ip > d && src[ip - 1] == src[ip - 1 - d] then StartOf(src, anchor, ip - 1, d) else ip
  }

  /** Where it ends: as far on as the bytes agree, but 5 bytes before the end at the latest. */
  function EndOf(src: seq<byte>, ip: nat, d: nat): (e: nat)
    requires 1 <= d <= ip && ip + 5 <= |src|
    ensures ip <= e && e + 5 <= |src|
    decreases |src| - ip
  {
    if ip + 5 < |src| && src[ip] == src[ip - d] then EndOf(src, ip + 1, d) else ip
  }

  // ---- All sequences ----

  datatype Pass =
    | Last(ss: seq<Sequence>, anchor: nat)
    | Resume(ss: seq<Sequence>, anchor: nat, stored: seq<nat>)

  function Prepend(front: seq<Sequence>, pass: Pass): Pass {
    pass.(ss := front + pass.ss)
  }

  /** A match with the literals in front of it, and the matches that follow without literals between. */
  function Chain(v: Variant, src: seq<byte>, stored: seq<nat>, anchor: nat, start: nat, hit: nat, d: nat): (r: Pass)
    requires Hashable(src, stored) && anchor <= start <= hit && 1 <= d <= start && hit + 12 <= |src|
    ensures hit < r.anchor <= |src|
    ensures r.Resume? ==> r.anchor + 12 <= |src| && Hashable(src, r.stored)
    decreases |src| - hit
  {
    var e := EndOf(src, hit + 4, d);
    var s := Sequence(src[anchor..start], d, e - start);
    if e + 12 > |src| then Last([s], e)
    else
      var behind := stored + [e - 2];
      var ref := Latest(v, src, behind, HashValue(v, src, e));
      if Hit(v, src, ref, e) then Prepend([s], Chain(v, src, behind + [e], e, e, e, e - ref))
      else Resume([s], e, behind + [e])
  }

  /** The sequences found from p on, literals beginning at the anchor; and where the last literals begin. */
  function Greedy(v: Variant, src: seq<byte>, stored: seq<nat>, anchor: nat, p: nat): (r: (seq<Sequence>, nat))
    requires Hashable(src, stored) && anchor <= p && anchor <= |src|
    ensures r.1 <= |src|
    decreases |src| - p
  {
    match Search(v, src, stored, p, 0)
    case NoMatch => ([], anchor)
    case Match(hit, ref, after) =>
      var d := hit - ref;
      match Chain(v, src, after, anchor, StartOf(src, anchor, hit, d), hit, d)
      case Last(ss, end) => (ss, end)
      case Resume(ss, next, further) =>
        var (more, end) := Greedy(v, src, further, next, next + 1);
        (ss + more, end)
  }

  function GreedyBlock(v: Variant, src: seq<byte>): Block {
    if |src| < 13 then Block([], src)
    else
      var (ss, end) := Greedy(v, src, [], 0, 1);
      Block(ss, src[end..])
  }

  // ---- What it finds in equal bytes ----

  lemma {:induction false} EndOfEqual(src: seq<byte>, ip: nat, c: byte)
    requires (forall i | 0 <= i < |src| :: src[i] == c) && 1 <= ip && ip + 5 <= |src|
    ensures EndOf(src, ip, 1) == |src| - 5
    decreases |src| - ip
  {
    if ip + 5 < |src| { EndOfEqual(src, ip + 1, c); }
  }

  /** One literal, and one match for all the others but the last five. */
  lemma EqualBytes(v: Variant, src: seq<byte>, c: byte)
    requires |src| >= 14 && forall i | 0 <= i < |src| :: src[i] == c
    ensures GreedyBlock(v, src) == Block([Sequence([c], 1, |src| - 6)], [c, c, c, c, c])
  {
    hide HashValue;
    assert Latest(v, src, [], HashValue(v, src, 1)) == 0;
    assert src[0..4] == src[1..5];
    assert Search(v, src, [], 1, 0) == Match(1, 0, [1]);
    assert StartOf(src, 0, 1, 1) == 1;
    EndOfEqual(src, 5, c);
    assert src[0..1] == [c];
    assert Chain(v, src, [1], 0, 1, 1, 1) == Last([Sequence([c], 1, |src| - 6)], |src| - 5);
    assert src[|src| - 5..] == [c, c, c, c, c];
  }

  function EqualTail(m: nat): seq<byte> {
    if m < 15 then [] else seq((m - 15) / 255, _ => 255) + [(m - 15) % 255]
  }

  /** A token for one literal and a long match, the literal, offset 1 low byte first, the length, five literals. */
  function EqualForm(c: byte, n: nat): seq<byte>
    requires n >= 14
  {
    var m := n - 10;
    [if m < 15 then 0x10 + m else 0x1F, c, 1, 0]
    + EqualTail(m) + [0x50, c, c, c, c, c]
  }

  lemma {:induction false} ExtensionIs(n: nat)
    ensures Extension(n) == seq(n / 255, _ => 255) + [n % 255]
  {
    if n >= 255 {
      ExtensionIs(n - 255);
      assert seq(n / 255, _ => 255) == [255] + seq((n - 255) / 255, _ => 255);
    } else {
      assert seq(n / 255, _ => 255) == [];
    }
  }

  lemma EqualParts(c: byte, m: nat)
    ensures EncodeRun([c], Nibble(m)) == [if m < 15 then 0x10 + m else 0x1F, c]
    ensures EncodeRun([c, c, c, c, c], 0) == [0x50, c, c, c, c, c]
    ensures EncodeMatch(1, m) == [1, 0] + EqualTail(m)
  {
    if m >= 15 { ExtensionIs(m - 15); }
  }

  lemma OneSequence(s: Sequence, last: seq<byte>)
    requires ValidSequence(s, 0)
    ensures ValidSequences([s])
    ensures Encode(Block([s], last))
         == (EncodeRun(s.literals, Nibble(s.matchLength - MIN_MATCH)) + EncodeMatch(s.offset, s.matchLength - MIN_MATCH))
            + EncodeRun(last, 0)
  {
    hide EncodeRun, EncodeMatch, Nibble;
    assert [s][..0] == [];
    assert EncodeSequences([s]) == [] + EncodeSequence(s);
  }

  lemma EqualJoin(head: seq<byte>, tail: seq<byte>, last: seq<byte>)
    requires |head| == 2
    ensures (head + ([1, 0] + tail)) + last == [head[0], head[1], 1, 0] + tail + last
  {
  }

  /** These bytes are what the block of equal bytes is written as. */
  lemma EqualBytesWritten(c: byte, n: nat)
    requires n >= 14
    ensures ValidSequences([Sequence([c], 1, n - 6)])
    ensures Encode(Block([Sequence([c], 1, n - 6)], [c, c, c, c, c])) == EqualForm(c, n)
  {
    hide EncodeRun, EncodeMatch, EqualTail, Encode, Nibble;
    OneSequence(Sequence([c], 1, n - 6), [c, c, c, c, c]);
    EqualParts(c, n - 10);
    EqualJoin([if n < 25 then 0x10 + (n - 10) else 0x1F, c], EqualTail(n - 10), [0x50, c, c, c, c, c]);
  }

  /** With fewer bytes there is nothing but literals. */
  lemma NoRoom(v: Variant, src: seq<byte>)
    requires |src| < 14
    ensures GreedyBlock(v, src) == Block([], src)
  {
    if |src| == 13 {
      assert Search(v, src, [], 1, 0) == NoMatch;
      assert src[0..] == src;
    }
  }

  // ---- The extent of a match is determined ----

  /** A start to which the bytes agree, and before which they do not, is the start. */
  lemma {:induction false} StartIs(src: seq<byte>, anchor: nat, ip: nat, d: nat, start: nat)
    requires anchor <= start <= ip <= |src| && 1 <= d <= start
    requires forall k | start <= k < ip :: src[k] == src[k - d]
    requires start == anchor || start == d || src[start - 1] != src[start - 1 - d]
    ensures StartOf(src, anchor, ip, d) == start
    decreases ip
  {
    if start < ip { StartIs(src, anchor, ip - 1, d, start); }
  }

  lemma {:induction false} EndIs(src: seq<byte>, ip: nat, d: nat, e: nat)
    requires 1 <= d <= ip <= e && e + 5 <= |src|
    requires forall k | ip <= k < e :: src[k] == src[k - d]
    requires e + 5 == |src| || src[e] != src[e - d]
    ensures EndOf(src, ip, d) == e
    decreases e - ip
  {
    if ip < e { EndIs(src, ip + 1, d, e); }
  }
}
