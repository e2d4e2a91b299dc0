/** The compressors of lz4.cc: LZ4_compressCtx and LZ4_compress64kCtx. */
module Lz4Compress {
  import opened Bytes
  import opened Lz4Format
  import opened Lz4Greedy
  import Lz4Decompress

  const LIMIT_64K := 65536 + MF_LIMIT - 1

  /** A position as a table entry holds it. */
  function Entry(v: Variant, position: nat): (e: nat)
    ensures e <= position
  {
    if v.Ctx? then position else position % 0x1_0000
  }

  function CompressBound(isize: nat): nat { isize + isize / 255 + 16 }

  // ---- The size of what is written ----

  /** A sequence takes at most 256 bytes of output for 255 bytes of input. */
  lemma SequenceCost(s: Sequence)
    requires s.offset <= MAX_DISTANCE && MIN_MATCH <= s.matchLength
    ensures 255 * |EncodeSequence(s)| <= 256 * (|s.literals| + s.matchLength)
  {
    TailCost(|s.literals|);
    TailCost(s.matchLength - MIN_MATCH);
  }

  lemma TailCost(n: nat)
    ensures n < RUN_MASK ==> |LengthTail(n)| == 0
    ensures n >= RUN_MASK ==> 255 * |LengthTail(n)| <= n + 240
  {
    if n >= RUN_MASK { ExtensionLength(n - RUN_MASK); }
  }

  /** Output within the 256/255 budget of its input is within the bound. */
  lemma WithinBound(op: nat, anchor: nat, n: nat)
    requires 255 * op <= 256 * anchor && anchor <= n
    ensures op + 16 <= CompressBound(n)
  {}

  /** The packets of a literal copy, overshoot included, stay within the bound. */
  lemma RunFits(op: nat, anchor: nat, length: nat, n: nat)
    requires 255 * op <= 256 * anchor && anchor + length + MF_LIMIT <= n
    ensures op + 1 + |LengthTail(length)| + Packets(length) + 2 <= CompressBound(n)
  {
    TailCost(length);
  }

  lemma LastFits(op: nat, anchor: nat, n: nat)
    requires 255 * op <= 256 * anchor && anchor <= n
    ensures op + 1 + |LengthTail(n - anchor)| + (n - anchor) <= CompressBound(n)
  {
    TailCost(n - anchor);
  }

  // ---- Writing lengths and literals ----

  /** The length code, one and two bytes at a time. */
  lemma ExtensionSteps(n: nat)
    ensures n < 255 ==> Extension(n) == [n]
    ensures n >= 255 ==> Extension(n) == [255] + Extension(n - 255)
    ensures n >= 510 ==> Extension(n) == [255, 255] + Extension(n - 510)
  {}

  method EmitExtension(dest: array<byte>, op0: nat, n: nat) returns (op: nat)
    requires op0 + |Extension(n)| <= dest.Length
    modifies dest
    ensures op == op0 + |Extension(n)|
    ensures dest[..op] == old(dest[..op0]) + Extension(n)
  {
    hide Extension;
    var len: nat := n;
    op := op0;
    while len > 254
      invariant len <= n && op + |Extension(len)| == op0 + |Extension(n)|
      invariant dest[..op] + Extension(len) == old(dest[..op0]) + Extension(n)
    {
      ExtensionSteps(len);
      dest[op] := 255;
      op, len := op + 1, len - 255;
    }
    ExtensionSteps(len);
    dest[op] := len;
    op := op + 1;
  }

  /** The same bytes, written two at a time. */
  method EmitExtensionByPairs(dest: array<byte>, op0: nat, n: nat) returns (op: nat)
    requires op0 + |Extension(n)| <= dest.Length
    modifies dest
    ensures op == op0 + |Extension(n)|
    ensures dest[..op] == old(dest[..op0]) + Extension(n)
  {
    hide Extension;
    var len: nat := n;
    op := op0;
    while len > 509
      invariant len <= n && op + |Extension(len)| == op0 + |Extension(n)|
      invariant dest[..op] + Extension(len) == old(dest[..op0]) + Extension(n)
    {
      ExtensionSteps(len);
      dest[op] := 255;
      dest[op + 1] := 255;
      op, len := op + 2, len - 510;
    }
    ExtensionSteps(len);
    if len > 254 {
      dest[op] := 255;
      op, len := op + 1, len - 255;
      ExtensionSteps(len);
    }
    dest[op] := len;
    op := op + 1;
  }

  /** The first half of a sequence: a token with its match half still 0, and the literals. */
  method EmitLiterals(src: seq<byte>, anchor: nat, length: nat, dest: array<byte>, op0: nat) returns (op: nat)
    requires anchor + Packets(length) <= |src|
    requires op0 + 1 + |LengthTail(length)| + Packets(length) <= dest.Length
    modifies dest
    ensures op == op0 + |EncodeRun(src[anchor..anchor + length], 0)|
    ensures dest[..op] == old(dest[..op0]) + EncodeRun(src[anchor..anchor + length], 0)
  {
    hide Extension, Packets;
    op := op0 + 1;
    if length >= RUN_MASK {
      dest[op0] := 240;
      op := EmitExtension(dest, op, length - RUN_MASK);
    } else {
      dest[op0] := 16 * length;
    }
    Lz4Decompress.WildCopyIn(src, anchor, dest, op, length);
    op := op + length;
  }

  /** The last literals of the block. */
  method EmitLast(src: seq<byte>, anchor: nat, dest: array<byte>, op0: nat) returns (op: nat)
    requires anchor <= |src|
    requires op0 + 1 + |LengthTail(|src| - anchor)| + (|src| - anchor) <= dest.Length
    modifies dest
    ensures op == op0 + |EncodeRun(src[anchor..], 0)|
    ensures dest[..op] == old(dest[..op0]) + EncodeRun(src[anchor..], 0)
  {
    hide Extension;
    var lastRun := |src| - anchor;
    op := op0 + 1;
    if lastRun >= RUN_MASK {
      dest[op0] := 240;
      op := EmitExtension(dest, op, lastRun - RUN_MASK);
    } else {
      dest[op0] := 16 * lastRun;
    }
    assert src[anchor..anchor + lastRun] == src[anchor..];
    Lz4Decompress.CopyIn(src, anchor, dest, op, lastRun);
    op := op + lastRun;
  }

  // ---- Comparing eight bytes at a time ----

  /** The exclusive or of two numbers below top, bit by bit. */
  function Xor(a: nat, b: nat, top: nat): (x: nat)
    requires a < top && b < top && top in {1, 2, 4, 8, 16, 32, 64, 128, 256}
    ensures x < top && (x == 0 <==> a == b)
  {
    if top == 1 then 0 else (if a % 2 == b % 2 then 0 else 1) + 2 * Xor(a / 2, b / 2, top / 2)
  }

  /** The exclusive or of the n-byte little-endian words at i and j. */
  function XorWord(s: seq<byte>, i: nat, j: nat, n: nat): nat
    requires i + n <= |s| && j + n <= |s|
    decreases n
  {
    if n == 0 then 0 else Xor(s[i], s[j], 256) + 256 * XorWord(s, i + 1, j + 1, n - 1)
  }

  /** The number of low bytes that are 0: the trailing zero bits of the word, divided by 8. */
  function NbCommonBytes(val: nat): nat
    requires val > 0
  {
    if val % 256 != 0 then 0 else 1 + NbCommonBytes(val / 256)
  }

  lemma CommonBytesOfSum(low: nat, rest: nat)
    requires low < 256 && low + 256 * rest > 0
    ensures NbCommonBytes(low + 256 * rest) == if low != 0 then 0 else 1 + NbCommonBytes(rest)
  {
    assert (low + 256 * rest) % 256 == low && (low + 256 * rest) / 256 == rest;
  }

  /** The first differing byte of two words, read off their exclusive or. */
  lemma {:induction false} FirstDifference(s: seq<byte>, i: nat, j: nat, n: nat)
    requires i + n <= |s| && j + n <= |s|
    ensures XorWord(s, i, j, n) == 0 ==> SameBytes(s, i, j, n)
    ensures XorWord(s, i, j, n) != 0 ==>
      var c := NbCommonBytes(XorWord(s, i, j, n));
      c < n && SameBytes(s, i, j, c) && s[i + c] != s[j + c]
    decreases n
  {
    if n > 0 {
      FirstDifference(s, i + 1, j + 1, n - 1);
      if XorWord(s, i, j, n) > 0 {
        CommonBytesOfSum(Xor(s[i], s[j], 256), XorWord(s, i + 1, j + 1, n - 1));
      }
    }
  }

  predicate SameBytes(s: seq<byte>, i: nat, j: nat, n: nat)
    requires i + n <= |s| && j + n <= |s|
    decreases n
  {
    n == 0 || (s[i] == s[j] && SameBytes(s, i + 1, j + 1, n - 1))
  }

  // ---- Finding and extending matches ----

  /** The bytes from `from` to `to` repeat those d places before them. */
  predicate Repeats(s: seq<byte>, from: nat, to: nat, d: nat) {
    1 <= d <= from && to <= |s| && forall k | from <= k < to :: s[k] == s[k - d]
  }

  lemma {:induction false} SameRepeats(s: seq<byte>, from: nat, d: nat, n: nat)
    requires 1 <= d <= from && from + n <= |s| && SameBytes(s, from - d, from, n)
    ensures Repeats(s, from, from + n, d)
    decreases n
  {
    if n > 0 {
      SameRepeats(s, from + 1, d, n - 1);
    }
  }

  lemma WordRepeats(s: seq<byte>, from: nat, d: nat)
    requires 1 <= d <= from && from + 4 <= |s|
    ensures Word32(s, from - d) == Word32(s, from) <==>
      && s[from - d] == s[from] && s[from - d + 1] == s[from + 1]
      && s[from - d + 2] == s[from + 2] && s[from - d + 3] == s[from + 3]
  {
    var ref := from - d;
    Word16Equal(s[ref], s[ref + 1], s[from], s[from + 1]);
    Word16Equal(s[ref + 2], s[ref + 3], s[from + 2], s[from + 3]);
    Word32Halves(s, ref, from);
  }

  /** The table holds, for every hash, the last position stored with it. */
  ghost predicate TableOf(v: Variant, src: seq<byte>, table: seq<nat>, stored: seq<nat>) {
    |table| == TableSize(v) && Hashable(src, stored)
    && forall h | 0 <= h < |table| :: table[h] == Latest(v, src, stored, h)
  }

  lemma EmptyTable(v: Variant, src: seq<byte>, table: seq<nat>)
    requires |table| == TableSize(v) && forall h | 0 <= h < |table| :: table[h] == 0
    ensures TableOf(v, src, table, [])
  {
  }

  lemma TableStores(v: Variant, src: seq<byte>, table: seq<nat>, stored: seq<nat>, p: nat)
    requires TableOf(v, src, table, stored) && p + MF_LIMIT <= |src| && (v.Ctx64k? ==> |src| < LIMIT_64K)
    ensures TableOf(v, src, table[HashValue(v, src, p) := Entry(v, p)], stored + [p])
  {
    hide HashValue, Latest;
    assert Entry(v, p) == p;
    forall h | 0 <= h < |table| ensures Latest(v, src, stored + [p], h) == table[HashValue(v, src, p) := p][h] {
      LatestOfSnoc(v, src, stored, p, h);
    }
    LatestOfSnoc(v, src, stored, p, 0);
  }

  /** Every table entry is a position before p. */
  predicate EntriesBefore(table: seq<nat>, p: nat) {
    forall h | 0 <= h < |table| :: table[h] < p
  }

  /** Is there a match at ip with `ref`: near enough (LZ4_compressCtx only), and equal in four bytes? */
  predicate Candidate(v: Variant, src: seq<byte>, ref: nat, ip: nat)
    requires ip + 4 <= |src| && ref + 4 <= |src|
  {
    (v.Ctx? ==> ip - ref <= MAX_DISTANCE) && Word32(src, ref) == Word32(src, ip)
  }

  lemma CandidateRepeats(v: Variant, src: seq<byte>, ref: nat, ip: nat)
    requires ref < ip && ip + MF_LIMIT <= |src| && (v.Ctx64k? ==> |src| < LIMIT_64K)
    requires Candidate(v, src, ref, ip)
    ensures Repeats(src, ip, ip + 4, ip - ref) && ip - ref <= MAX_DISTANCE
  {
    WordRepeats(src, ip, ip - ref);
  }

  lemma CandidateIsHit(v: Variant, src: seq<byte>, ref: nat, ip: nat)
    requires ref < ip && ip + 4 <= |src|
    ensures Candidate(v, src, ref, ip) <==> Hit(v, src, ref, ip)
  {
    hide Word32;
    WordRepeats(src, ip, ip - ref);
    var x, y := src[ref..ref + 4], src[ip..ip + 4];
    assert x[0] == src[ref] && x[1] == src[ref + 1] && x[2] == src[ref + 2] && x[3] == src[ref + 3];
    assert y[0] == src[ip] && y[1] == src[ip + 1] && y[2] == src[ip + 2] && y[3] == src[ip + 3];
  }

  /** The search loop: steps grow by one every 64 attempts. */
  method FindMatch(v: Variant, src: seq<byte>, table: array<nat>, ip0: nat, forwardH0: nat, ghost stored0: seq<nat>)
      returns (found: bool, ip: nat, ref: nat, ghost stored: seq<nat>)
    requires MF_LIMIT < |src| && ip0 + MF_LIMIT <= |src| + 1
    requires v.Ctx64k? ==> |src| < LIMIT_64K
    requires TableOf(v, src, table[..], stored0) && EntriesBefore(table[..], ip0)
    requires forwardH0 == HashValue(v, src, ip0)
    modifies table
    ensures Search(v, src, stored0, ip0, 0) == if found then Match(ip, ref, stored) else NoMatch
    ensures found ==> TableOf(v, src, table[..], stored)
    ensures found ==> ip0 <= ip && ip + MF_LIMIT < |src| && ref < ip <= ref + MAX_DISTANCE
    ensures found ==> Repeats(src, ip, ip + 4, ip - ref) && EntriesBefore(table[..], ip + 1)
  {
    hide HashValue, Candidate, Hit, Entry, Repeats;
    var attempts := 64 + 3;
    var forwardIp, forwardH := ip0, forwardH0;
    stored := stored0;
    while true
      invariant 67 <= attempts && ip0 <= forwardIp && forwardIp + MF_LIMIT <= |src| + 1
      invariant TableOf(v, src, table[..], stored) && EntriesBefore(table[..], forwardIp)
      invariant forwardH == HashValue(v, src, forwardIp)
      invariant Search(v, src, stored0, ip0, 0) == Search(v, src, stored, forwardIp, attempts - 67)
      decreases |src| - forwardIp
    {
      var h, step := forwardH, attempts / 64;
      attempts := attempts + 1;
      ip := forwardIp;
      forwardIp := ip + step;
      if forwardIp > |src| - MF_LIMIT { return false, ip, 0, stored; }
      forwardH := HashValue(v, src, forwardIp);
      ref := table[h];
      CandidateIsHit(v, src, ref, ip);
      EntryAtMost(v, ip);
      TableStores(v, src, table[..], stored, ip);
      table[h] := Entry(v, ip);
      stored := stored + [ip];
      if Candidate(v, src, ref, ip) {
        CandidateRepeats(v, src, ref, ip);
        return true, ip, ref, stored;
      }
    }
  }

  /** Extend a match backwards, as far as the bytes agree. */
  method CatchUp(src: seq<byte>, anchor: nat, ip0: nat, ref0: nat, ghost end: nat) returns (ip: nat, ref: nat)
    requires anchor <= ip0 && ref0 < ip0 && Repeats(src, ip0, end, ip0 - ref0)
    requires ip0 <= end
    ensures anchor <= ip <= ip0 && ip - ref == ip0 - ref0
    ensures Repeats(src, ip, end, ip0 - ref0)
    ensures ip == anchor || ref == 0 || src[ip - 1] != src[ref - 1]
    ensures ip0 <= |src| && ip == StartOf(src, anchor, ip0, ip0 - ref0)
  {
    ip, ref := ip0, ref0;
    while ip > anchor && ref > 0 && src[ip - 1] == src[ref - 1]
      invariant anchor <= ip <= ip0 && ip - ref == ip0 - ref0
      invariant Repeats(src, ip, end, ip0 - ref0)
    {
      ip, ref := ip - 1, ref - 1;
    }
    StartIs(src, anchor, ip0, ip0 - ref0, ip);
  }

  /** Where the match that starts d back stops agreeing, or where matches must stop. */
  predicate MatchEnd(src: seq<byte>, e: nat, d: nat) {
    d <= e && e + LAST_LITERALS <= |src| && (e + LAST_LITERALS < |src| ==> src[e] != src[e - d])
  }

  lemma RepeatsConcat(s: seq<byte>, a: nat, b: nat, c: nat, d: nat)
    requires Repeats(s, a, b, d) && a <= b && Repeats(s, b, c, d)
    ensures Repeats(s, a, c, d)
  {}

  /** The end of the match from ip0, at most 3 bytes on or known to differ within 4: two and one bytes. */
  method CountShort(src: seq<byte>, ip0: nat, d: nat) returns (ip: nat)
    requires 1 <= d <= ip0 && ip0 + LAST_LITERALS <= |src|
    requires ip0 + LAST_LITERALS + 4 <= |src| ==> Word32(src, ip0 - d) != Word32(src, ip0)
    ensures ip0 <= ip && Repeats(src, ip0, ip, d) && MatchEnd(src, ip, d)
  {
    ip := ip0;
    var limit := |src| - LAST_LITERALS;
    if ip0 + 4 <= limit { WordRepeats(src, ip0, d); }
    if ip < limit - 1 && Word16(src[ip - d], src[ip - d + 1]) == Word16(src[ip], src[ip + 1]) {
      Word16Equal(src[ip - d], src[ip - d + 1], src[ip], src[ip + 1]);
      ip := ip + 2;
    }
    if ip < limit && src[ip - d] == src[ip] { ip := ip + 1; }
  }

  /** The end of the match from ip0, at most 7 bytes on: four bytes first. */
  method CountTail(src: seq<byte>, ip0: nat, d: nat) returns (ip: nat)
    requires 1 <= d <= ip0
    requires ip0 + LAST_LITERALS <= |src| < ip0 + LAST_LITERALS + 8
    ensures ip0 <= ip && Repeats(src, ip0, ip, d) && MatchEnd(src, ip, d)
  {
    ip := ip0;
    if ip < |src| - LAST_LITERALS - 3 && Word32(src, ip - d) == Word32(src, ip) {
      WordRepeats(src, ip, d);
      ip := ip + 4;
    }
    ip := CountShort(src, ip, d);
  }

  /** The end of the match from ip0: eight bytes at a time, then the tail. */
  method CountMatch(src: seq<byte>, ip0: nat, d: nat) returns (ip: nat)
    requires 1 <= d <= ip0 && ip0 + LAST_LITERALS <= |src|
    ensures ip0 <= ip && Repeats(src, ip0, ip, d) && MatchEnd(src, ip, d)
  {
    hide XorWord, NbCommonBytes, SameBytes;
    ip := ip0;
    while ip < |src| - LAST_LITERALS - 7
      invariant ip0 <= ip && ip + LAST_LITERALS <= |src|
      invariant Repeats(src, ip0, ip, d)
      decreases |src| - ip
    {
      var diff := XorWord(src, ip - d, ip, 8);
      FirstDifference(src, ip - d, ip, 8);
      if diff != 0 {
        var c := NbCommonBytes(diff);
        SameRepeats(src, ip, d, c);
        RepeatsConcat(src, ip0, ip, ip + c, d);
        ip := ip + c;
        return;
      }
      SameRepeats(src, ip, d, 8);
      RepeatsConcat(src, ip0, ip, ip + 8, d);
      ip := ip + 8;
    }
    ghost var mid := ip;
    ip := CountTail(src, ip, d);
    RepeatsConcat(src, ip0, mid, ip, d);
  }

  // ---- What has been written, and what it means ----

  /** The match that starts at `start` with offset d cannot start earlier, as literals begin at `anchor`. */
  predicate MatchStart(src: seq<byte>, anchor: nat, start: nat, d: nat) {
    start <= anchor || start <= d || |src| < start || src[start - 1] != src[start - 1 - d]
  }

  /** No match could have been longer: not to the front, and not to the end. */
  predicate Maximal(src: seq<byte>, ss: seq<Sequence>) {
    |ss| == 0 ||
    (var front, s := ss[..|ss| - 1], ss[|ss| - 1];
     var start := OutputLength(front) + |s.literals|;
     Maximal(src, front) && MatchStart(src, OutputLength(front), start, s.offset)
     && MatchEnd(src, start + s.matchLength, s.offset))
  }

  /**
   After some sequences: they are what the output holds, they mean the input up to `anchor`, they stay within the
   size budget, and the last one keeps the distances from the end that the format demands.
   */
  predicate Built(src: seq<byte>, ss: seq<Sequence>, anchor: nat, out: seq<byte>) {
    && anchor <= |src|
    && ValidSequences(ss)
    && Meaning(ss) == src[..anchor]
    && out == EncodeSequences(ss)
    && 255 * |out| <= 256 * anchor
    && EndConditions(Block(ss, src[anchor..]))
  }

  predicate Progress(src: seq<byte>, ss: seq<Sequence>, anchor: nat, out: seq<byte>) {
    Built(src, ss, anchor, out) && Maximal(src, ss)
  }

  lemma ProgressFits(src: seq<byte>, ss: seq<Sequence>, anchor: nat, out: seq<byte>)
    requires Progress(src, ss, anchor, out)
    ensures anchor <= |src| && |out| + 16 <= CompressBound(|src|)
  {
    WithinBound(|out|, anchor, |src|);
  }

  lemma ProgressBudget(src: seq<byte>, ss: seq<Sequence>, anchor: nat, out: seq<byte>)
    requires Progress(src, ss, anchor, out)
    ensures 255 * |out| <= 256 * anchor
  {}

  lemma MatchMeaning(src: seq<byte>, ip: nat, e: nat, d: nat)
    requires ip <= e && Repeats(src, ip, e, d)
    ensures CopyMatch(src[..ip], d, e - ip) == src[..e]
  {
    CopyMatchUnique(src[..ip], d, e - ip, src[..e]);
  }

  lemma AddMeaning(src: seq<byte>, ss: seq<Sequence>, anchor: nat, ip: nat, e: nat, d: nat)
    requires anchor <= ip && ip + MIN_MATCH <= e && Repeats(src, ip, e, d) && d <= MAX_DISTANCE
    requires ValidSequences(ss) && Meaning(ss) == src[..anchor]
    ensures var ss' := ss + [Sequence(src[anchor..ip], d, e - ip)];
            ValidSequences(ss') && Meaning(ss') == src[..e]
  {
    hide CopyMatch;
    var ss' := ss + [Sequence(src[anchor..ip], d, e - ip)];
    assert ss'[..|ss'| - 1] == ss;
    assert src[..anchor] + src[anchor..ip] == src[..ip];
    MatchMeaning(src, ip, e, d);
  }

  /** One more sequence, whose match repeats the input, makes progress to the end of the match. */
  lemma AddSequence(src: seq<byte>, ss: seq<Sequence>, anchor: nat, out: seq<byte>, ip: nat, e: nat, d: nat)
    requires Progress(src, ss, anchor, out)
    requires anchor <= ip && ip + MIN_MATCH <= e && Repeats(src, ip, e, d) && d <= MAX_DISTANCE
    requires ip + MF_LIMIT <= |src| && MatchEnd(src, e, d) && MatchStart(src, anchor, ip, d)
    ensures var s := Sequence(src[anchor..ip], d, e - ip);
            Progress(src, ss + [s], e, out + EncodeSequence(s))
  {
    assert e + LAST_LITERALS <= |src|;
    hide Built, Maximal, Repeats, MatchStart, MatchEnd, Meaning, ValidSequences, OutputLength, EncodeSequence;
    BuiltMeans(src, ss, anchor, out);
    AddMaximal(src, ss, Sequence(src[anchor..ip], d, e - ip), anchor, ip, e);
    BuildSequence(src, ss, anchor, out, ip, e, d);
  }

  lemma BuiltMeans(src: seq<byte>, ss: seq<Sequence>, anchor: nat, out: seq<byte>)
    requires Built(src, ss, anchor, out)
    ensures anchor <= |src| && ValidSequences(ss) && |Meaning(ss)| == anchor
  {
  }

  lemma BuildSequence(src: seq<byte>, ss: seq<Sequence>, anchor: nat, out: seq<byte>, ip: nat, e: nat, d: nat)
    requires Built(src, ss, anchor, out)
    requires anchor <= ip && ip + MIN_MATCH <= e && Repeats(src, ip, e, d) && d <= MAX_DISTANCE
    requires ip + MF_LIMIT <= |src| && e + LAST_LITERALS <= |src|
    ensures var s := Sequence(src[anchor..ip], d, e - ip);
            Built(src, ss + [s], e, out + EncodeSequence(s))
  {
    var s := Sequence(src[anchor..ip], d, e - ip);
    assert s.offset <= MAX_DISTANCE && MIN_MATCH <= s.matchLength;
    hide Meaning, EncodeSequence, Repeats, ValidSequences;
    AddMeaning(src, ss, anchor, ip, e, d);
    AddEncoding(ss, s, out);
    SequenceCost(s);
    AddEnd(ss, s, src[e..]);
  }

  lemma AddMaximal(src: seq<byte>, ss: seq<Sequence>, s: Sequence, anchor: nat, start: nat, e: nat)
    requires ValidSequences(ss) && |Meaning(ss)| == anchor && Maximal(src, ss)
    requires start == anchor + |s.literals| && e == start + s.matchLength
    requires MatchStart(src, anchor, start, s.offset) && MatchEnd(src, e, s.offset)
    ensures Maximal(src, ss + [s])
  {
    hide MatchStart, MatchEnd;
    assert (ss + [s])[..|ss|] == ss;
  }

  lemma AddEncoding(ss: seq<Sequence>, s: Sequence, out: seq<byte>)
    requires ValidSequences(ss) && ValidSequences(ss + [s]) && out == EncodeSequences(ss)
    requires s.offset <= MAX_DISTANCE && MIN_MATCH <= s.matchLength
    ensures out + EncodeSequence(s) == EncodeSequences(ss + [s])
  {
    assert (ss + [s])[..|ss|] == ss;
  }

  lemma AddEnd(ss: seq<Sequence>, s: Sequence, rest: seq<byte>)
    requires LAST_LITERALS <= |rest| && MF_LIMIT <= s.matchLength + |rest|
    ensures EndConditions(Block(ss + [s], rest))
  {}

  /** Setting the match half of a token. */
  lemma TokenUpdate(literals: seq<byte>, low: nat)
    requires low <= RUN_MASK
    ensures var run := EncodeRun(literals, 0);
            run[0] + low < 256 && run[0 := run[0] + low] == EncodeRun(literals, low)
  {}

  method EmitOffset(dest: array<byte>, op: nat, d: nat)
    requires d <= MAX_DISTANCE && op + 2 <= dest.Length
    modifies dest
    ensures dest[..op + 2] == old(dest[..op]) + [d % 256, d / 256]
  {
    dest[op] := d % 256;
    dest[op + 1] := d / 256;
  }

  /** Add the match length to the token, and append what the token cannot hold. */
  method EmitMatchLength(dest: array<byte>, token: nat, op0: nat, m: nat) returns (op: nat)
    requires token < op0 && op0 + |LengthTail(m)| <= dest.Length
    requires dest[token] + Nibble(m) < 256
    modifies dest
    ensures op == op0 + |LengthTail(m)|
    ensures dest[..op] == old(dest[..op0][token := dest[token] + Nibble(m)]) + LengthTail(m)
  {
    op := op0;
    if m >= RUN_MASK {
      dest[token] := dest[token] + RUN_MASK;
      op := EmitExtensionByPairs(dest, op, m - RUN_MASK);
    } else {
      dest[token] := dest[token] + m;
    }
  }

  lemma SequenceFromParts(pre: seq<byte>, s: Sequence)
    requires s.offset <= MAX_DISTANCE && MIN_MATCH <= s.matchLength
    ensures var m := s.matchLength - MIN_MATCH;
            var before := pre + EncodeRun(s.literals, 0) + [s.offset % 256, s.offset / 256];
            && before[|pre|] + Nibble(m) < 256
            && before[|pre| := before[|pre|] + Nibble(m)] + LengthTail(m) == pre + EncodeSequence(s)
  {
    hide LengthTail, EncodeRun;
    var m := s.matchLength - MIN_MATCH;
    var run := EncodeRun(s.literals, 0);
    var before := pre + run + [s.offset % 256, s.offset / 256];
    TokenUpdate(s.literals, Nibble(m));
    assert before[|pre| := before[|pre|] + Nibble(m)]
        == pre + EncodeRun(s.literals, Nibble(m)) + [s.offset % 256, s.offset / 256];
    assert EncodeSequence(s) == EncodeRun(s.literals, Nibble(m)) + ([s.offset % 256, s.offset / 256] + LengthTail(m));
  }

  /** The end of a sequence whose literals and offset are written: its token and its match length. */
  method EmitRest(dest: array<byte>, token: nat, op0: nat, ghost pre: seq<byte>, ghost s: Sequence, m: nat)
      returns (op: nat)
    requires s.offset <= MAX_DISTANCE && s.matchLength == m + MIN_MATCH
    requires op0 <= dest.Length && |pre| == token && token + |EncodeSequence(s)| <= dest.Length
    requires dest[..op0] == pre + EncodeRun(s.literals, 0) + [s.offset % 256, s.offset / 256]
    modifies dest
    ensures op == token + |EncodeSequence(s)|
    ensures dest[..op] == pre + EncodeSequence(s)
  {
    hide EncodeRun, LengthTail;
    SequenceFromParts(pre, s);
    assert dest[token] == dest[..op0][token];
    op := EmitMatchLength(dest, token, op0, m);
  }

  /** A match known to hold up to some point does not end before it. */
  lemma EndsLater(src: seq<byte>, ip: nat, known: nat, e: nat, d: nat)
    requires Repeats(src, ip, known, d) && MatchEnd(src, e, d) && ip <= e
    requires known + LAST_LITERALS <= |src|
    ensures known <= e
  {}

  lemma MatchExtent(src: seq<byte>, start: nat, known: nat, e: nat, d: nat)
    requires Repeats(src, start, e, d) && MatchEnd(src, e, d) && start <= known <= e
    ensures EndOf(src, known, d) == e
  {
    EndIs(src, known, d, e);
  }

  /** From the label _next_match to the end of the match length: offset, count, length. */
  method OneMatch(src: seq<byte>, dest: array<byte>, token: nat, op0: nat, anchor: nat, ip0: nat, d: nat,
                  ghost ss: seq<Sequence>, ghost known: nat)
      returns (op: nat, ip: nat, ghost s: Sequence)
    requires dest.Length >= CompressBound(|src|) && token < op0 && op0 + 2 <= dest.Length
    requires Progress(src, ss, anchor, dest[..token])
    requires anchor <= ip0 && ip0 + MF_LIMIT <= |src| && d <= MAX_DISTANCE && MatchStart(src, anchor, ip0, d)
    requires dest[..op0] == dest[..token] + EncodeRun(src[anchor..ip0], 0)
    requires ip0 + 4 <= known && known + LAST_LITERALS <= |src| && Repeats(src, ip0, known, d)
    modifies dest
    ensures known <= ip && op <= dest.Length && ip == EndOf(src, known, d)
    ensures Progress(src, ss + [s], ip, dest[..op]) && s == Sequence(src[anchor..ip0], d, ip - ip0)
  {
    ghost var pre := dest[..token];
    RepeatsOffset(src, ip0, known, d);
    hide Progress, Repeats, MatchEnd, MatchStart, EncodeRun, EncodeSequence, CompressBound, EndOf;
    EmitOffset(dest, op0, d);
    var start := ip0 + MIN_MATCH;
    ip := CountMatch(src, start, d);
    EndsLater(src, ip0, known, ip, d);
    RepeatsConcat(src, ip0, start, ip, d);
    MatchExtent(src, ip0, known, ip, d);
    s := Sequence(src[anchor..ip0], d, ip - ip0);
    AddSequence(src, ss, anchor, pre, ip0, ip, d);
    WithinBound(|pre + EncodeSequence(s)|, ip, |src|);
    op := EmitRest(dest, token, op0 + 2, pre, s, ip - start);
  }

  /** Fill the table behind a match, and look whether another one starts right there. */
  method TestNext(v: Variant, src: seq<byte>, table: array<nat>, ip: nat, ghost known: nat, ghost stored: seq<nat>)
      returns (found: bool, ref: nat)
    requires 2 <= ip && ip + MF_LIMIT <= |src| && known <= ip && (v.Ctx64k? ==> |src| < LIMIT_64K)
    requires TableOf(v, src, table[..], stored) && EntriesBefore(table[..], known)
    modifies table
    ensures TableOf(v, src, table[..], stored + [ip - 2] + [ip])
    ensures Hashable(src, stored + [ip - 2]) && ref == Latest(v, src, stored + [ip - 2], HashValue(v, src, ip))
    ensures found == Hit(v, src, ref, ip)
    ensures EntriesBefore(table[..], ip + 1) && EntriesBefore(table[..], ip + 4)
    ensures found ==> ref < ip <= ref + MAX_DISTANCE && Repeats(src, ip, ip + 4, ip - ref)
  {
    hide HashValue, Candidate, Hit, Latest, Repeats, Entry;
    EntryAtMost(v, ip);
    EntryAtMost(v, ip - 2);
    TableStores(v, src, table[..], stored, ip - 2);
    table[HashValue(v, src, ip - 2)] := Entry(v, ip - 2);
    TableStores(v, src, table[..], stored + [ip - 2], ip);
    var h := HashValue(v, src, ip);
    ref := table[h];
    CandidateIsHit(v, src, ref, ip);
    table[h] := Entry(v, ip);
    found := Candidate(v, src, ref, ip);
    if found { CandidateRepeats(v, src, ref, ip); }
  }

  /** A token for a sequence without literals. */
  method EmptyRun(src: seq<byte>, ip: nat, dest: array<byte>, token: nat) returns (op: nat)
    requires token < dest.Length && ip <= |src|
    modifies dest
    ensures op == token + 1
    ensures dest[..token] == old(dest[..token])
    ensures dest[..op] == dest[..token] + EncodeRun(src[ip..ip], 0)
  {
    dest[token] := 0;
    op := token + 1;
  }

  lemma EntryAtMost(v: Variant, p: nat)
    ensures Entry(v, p) <= p
  {
  }

  lemma RepeatsOffset(src: seq<byte>, from: nat, to: nat, d: nat)
    requires Repeats(src, from, to, d)
    ensures 1 <= d <= from && to <= |src|
  {
  }

  lemma TableIsHashable(v: Variant, src: seq<byte>, table: seq<nat>, stored: seq<nat>)
    requires TableOf(v, src, table, stored)
    ensures Hashable(src, stored) && |table| == TableSize(v)
  {
  }

  /** The chain is as far as this: these sequences are done, and the next one has its literals and its offset. */
  ghost predicate Along(v: Variant, src: seq<byte>, whole: Pass, ss: seq<Sequence>, stored: seq<nat>,
                        anchor: nat, start: nat, known: nat, d: nat) {
    && Hashable(src, stored) && anchor <= start && start + 4 <= known && 1 <= d <= start && known + 8 <= |src|
    && whole == Prepend(ss, Chain(v, src, stored, anchor, start, known - 4, d))
  }

  lemma AlongStep(v: Variant, src: seq<byte>, whole: Pass, ss: seq<Sequence>, stored: seq<nat>,
                  anchor: nat, start: nat, known: nat, d: nat, e: nat)
    requires Along(v, src, whole, ss, stored, anchor, start, known, d) && e == EndOf(src, known, d)
    ensures
      var more := ss + [Sequence(src[anchor..start], d, e - start)];
      if e + 12 > |src| then whole == Last(more, e)
      else
        && Hashable(src, stored + [e - 2])
        && var ref := Latest(v, src, stored + [e - 2], HashValue(v, src, e));
           if Hit(v, src, ref, e)
           then Along(v, src, whole, more, stored + [e - 2] + [e], e, e, e + 4, e - ref)
           else whole == Resume(more, e, stored + [e - 2] + [e])
  {
    hide Latest, HashValue;
    var s := Sequence(src[anchor..start], d, e - start);
    if e + 12 <= |src| {
      var ref := Latest(v, src, stored + [e - 2], HashValue(v, src, e));
      if Hit(v, src, ref, e) {
        hide Hit;
        assert Hashable(src, stored + [e - 2] + [e]);
        PrependTwice(ss, s, Chain(v, src, stored + [e - 2] + [e], e, e, e, e - ref));
      }
    }
  }

  lemma PrependTwice(ss: seq<Sequence>, s: Sequence, r: Pass)
    ensures Prepend(ss, Prepend([s], r)) == Prepend(ss + [s], r)
  {
    assert ss + ([s] + r.ss) == (ss + [s]) + r.ss;
  }

  /** At the label _next_match: the output holds a token and literals, and a match with offset d is known up to `known`. */
  ghost predicate AtMatch(v: Variant, src: seq<byte>, whole: Pass, table: seq<nat>, stored: seq<nat>, out: seq<byte>,
                          token: nat, ss: seq<Sequence>, anchor: nat, ip: nat, known: nat, d: nat) {
    && TableOf(v, src, table, stored) && EntriesBefore(table, known)
    && Along(v, src, whole, ss, stored, anchor, ip, known, d)
    && token < |out| && Progress(src, ss, anchor, out[..token]) && out == out[..token] + EncodeRun(src[anchor..ip], 0)
    && d <= MAX_DISTANCE && MatchStart(src, anchor, ip, d) && Repeats(src, ip, known, d)
  }

  /** Behind the last match of the chain. */
  ghost predicate AtEnd(v: Variant, src: seq<byte>, whole: Pass, table: seq<nat>, stored: seq<nat>, out: seq<byte>,
                        more: bool, ss: seq<Sequence>, ip: nat) {
    && Progress(src, ss, ip, out)
    && whole == (if more then Resume(ss, ip, stored) else Last(ss, ip))
    && (more ==> ip + MF_LIMIT <= |src| && TableOf(v, src, table, stored) && EntriesBefore(table, ip + 1))
  }

  lemma AlongBounds(v: Variant, src: seq<byte>, whole: Pass, ss: seq<Sequence>, stored: seq<nat>,
                    anchor: nat, start: nat, known: nat, d: nat)
    requires Along(v, src, whole, ss, stored, anchor, start, known, d)
    ensures anchor <= start && start + 4 <= known && known + 8 <= |src| && start + MF_LIMIT <= |src|
  {
  }

  /** From the label _next_match to where the loop goes back to it, if another match starts right behind. */
  method NextMatch(v: Variant, src: seq<byte>, table: array<nat>, dest: array<byte>, token0: nat, op0: nat,
                   anchor: nat, ip0: nat, d0: nat, ghost whole: Pass, ghost ss0: seq<Sequence>, ghost known: nat,
                   ghost stored0: seq<nat>)
      returns (next: bool, more: bool, token: nat, op: nat, ip: nat, d: nat, ghost ss: seq<Sequence>,
               ghost stored: seq<nat>)
    requires v.Ctx64k? ==> |src| < LIMIT_64K
    requires dest.Length >= CompressBound(|src|) && op0 + 2 <= dest.Length
    requires AtMatch(v, src, whole, table[..], stored0, dest[..op0], token0, ss0, anchor, ip0, known, d0)
    modifies dest, table
    ensures known <= ip <= |src| && op <= dest.Length
    ensures if next
            then op + 2 <= dest.Length
                 && AtMatch(v, src, whole, table[..], stored, dest[..op], token, ss, ip, ip, ip + 4, d)
            else AtEnd(v, src, whole, table[..], stored, dest[..op], more, ss, ip)
  {
    hide Progress, Repeats, CompressBound, EncodeRun, EntriesBefore, TableOf, Along, Latest, Hit, HashValue, MatchStart;
    hide EndOf, Hashable, TableSize;
    AlongBounds(v, src, whole, ss0, stored0, anchor, ip0, known, d0);
    assert dest[..op0][..token0] == dest[..token0];
    ghost var s;
    token, d, stored, more := token0, d0, stored0, false;
    op, ip, s := OneMatch(src, dest, token0, op0, anchor, ip0, d0, ss0, known);
    ss := ss0 + [s];
    ProgressFits(src, ss, ip, dest[..op]);
    AlongStep(v, src, whole, ss0, stored0, anchor, ip0, known, d0, ip);
    if ip > |src| - MF_LIMIT { return false, false, token, op, ip, d, ss, stored; }
    var ref;
    next, ref := TestNext(v, src, table, ip, known, stored0);
    stored := stored0 + [ip - 2] + [ip];
    if !next { return false, true, token, op, ip, d, ss, stored; }
    token, d := op, ip - ref;
    StartsAtAnchor(src, ip, d);
    op := EmptyRun(src, ip, dest, token);
    assert dest[..op][..token] == dest[..token];
  }

  lemma StartsAtAnchor(src: seq<byte>, ip: nat, d: nat)
    ensures MatchStart(src, ip, ip, d)
  {
  }

  /** The first match after a search, and the matches that follow it with no literals between. */
  method MatchChain(v: Variant, src: seq<byte>, table: array<nat>, dest: array<byte>, token0: nat, op0: nat,
                    anchor0: nat, ip0: nat, d0: nat, ghost whole: Pass, ghost ss0: seq<Sequence>, ghost known0: nat,
                    ghost stored0: seq<nat>)
      returns (more: bool, op: nat, anchor: nat, ghost ss: seq<Sequence>, ghost stored: seq<nat>)
    requires v.Ctx64k? ==> |src| < LIMIT_64K
    requires dest.Length >= CompressBound(|src|) && op0 + 2 <= dest.Length && ip0 < known0
    requires AtMatch(v, src, whole, table[..], stored0, dest[..op0], token0, ss0, anchor0, ip0, known0, d0)
    modifies dest, table
    ensures known0 <= anchor && op <= dest.Length
    ensures AtEnd(v, src, whole, table[..], stored, dest[..op], more, ss, anchor)
  {
    hide AtMatch, AtEnd, CompressBound;
    var next, token: nat, d: nat, ip := true, token0, d0, ip0;
    ghost var known: nat := known0;
    op, anchor, ss, stored, more := op0, anchor0, ss0, stored0, false;
    while next
      invariant known0 <= known && op <= dest.Length
      invariant next ==>
        op + 2 <= dest.Length && ip < known
        && AtMatch(v, src, whole, table[..], stored, dest[..op], token, ss, anchor, ip, known, d)
      invariant !next ==> known0 <= anchor && AtEnd(v, src, whole, table[..], stored, dest[..op], more, ss, anchor)
      decreases next, |src| - ip
    {
      next, more, token, op, ip, d, ss, stored :=
        NextMatch(v, src, table, dest, token, op, anchor, ip, d, whole, ss, known, stored);
      anchor, known := ip, ip + 4;
    }
  }

  function After(ss: seq<Sequence>, r: (seq<Sequence>, nat)): (seq<Sequence>, nat) {
    (ss + r.0, r.1)
  }

  lemma GreedyEnd(v: Variant, src: seq<byte>, stored: seq<nat>, anchor: nat, p: nat, ss: seq<Sequence>)
    requires Hashable(src, stored) && anchor <= p && anchor <= |src| && Search(v, src, stored, p, 0) == NoMatch
    ensures After(ss, Greedy(v, src, stored, anchor, p)) == (ss, anchor)
  {
    hide Search;
    assert ss + [] == ss;
  }

  /** After a hit: the whole chain, and what is found from where it leaves off. */
  lemma GreedyStep(v: Variant, src: seq<byte>, stored: seq<nat>, anchor: nat, p: nat, ss: seq<Sequence>,
                   hit: nat, ref: nat, behind: seq<nat>)
    requires Hashable(src, stored) && anchor <= p && anchor <= |src|
    requires Search(v, src, stored, p, 0) == Match(hit, ref, behind)
    ensures var whole := Prepend(ss, Chain(v, src, behind, anchor, StartOf(src, anchor, hit, hit - ref), hit, hit - ref));
            whole.anchor <= |src| && (whole.Resume? ==> Hashable(src, whole.stored))
            && After(ss, Greedy(v, src, stored, anchor, p))
            == if whole.Last? then (whole.ss, whole.anchor)
               else After(whole.ss, Greedy(v, src, whole.stored, whole.anchor, whole.anchor + 1))
  {
    hide Search, Chain, StartOf;
    match Chain(v, src, behind, anchor, StartOf(src, anchor, hit, hit - ref), hit, hit - ref)
    case Last(more, end) =>
    case Resume(more, next, further) =>
      var rest := Greedy(v, src, further, next, next + 1).0;
      assert ss + (more + rest) == (ss + more) + rest;
  }

  /** With the literals out, the first match of a chain. */
  lemma FirstMatch(v: Variant, src: seq<byte>, table: seq<nat>, stored: seq<nat>, out: seq<byte>, token: nat,
                   ss: seq<Sequence>, anchor: nat, ip: nat, hit: nat, d: nat)
    requires TableOf(v, src, table, stored) && EntriesBefore(table, hit + 1)
    requires anchor <= ip <= hit && hit + MF_LIMIT <= |src| && 1 <= d <= ip && d <= MAX_DISTANCE
    requires token < |out| && Progress(src, ss, anchor, out[..token]) && out == out[..token] + EncodeRun(src[anchor..ip], 0)
    requires MatchStart(src, anchor, ip, d) && Repeats(src, ip, hit + 4, d)
    ensures Hashable(src, stored)
    ensures AtMatch(v, src, Prepend(ss, Chain(v, src, stored, anchor, ip, hit, d)), table, stored, out, token, ss,
                    anchor, ip, hit + 4, d)
  {
    hide Progress, Repeats, EncodeRun, Chain, MatchStart, Latest;
  }

  /** Search, catch up, emit the literals, then the matches: one pass of the main loop. */
  method MainPass(v: Variant, src: seq<byte>, table: array<nat>, dest: array<byte>, op0: nat, anchor0: nat,
                  ip0: nat, forwardH: nat, ghost ss0: seq<Sequence>, ghost stored0: seq<nat>)
      returns (more: bool, op: nat, anchor: nat, ghost ss: seq<Sequence>, ghost stored: seq<nat>)
    requires v.Ctx64k? ==> |src| < LIMIT_64K
    requires TableOf(v, src, table[..], stored0) && EntriesBefore(table[..], ip0)
    requires MF_LIMIT < |src| && anchor0 < ip0 && ip0 + MF_LIMIT <= |src| + 1
    requires forwardH == HashValue(v, src, ip0)
    requires dest.Length >= CompressBound(|src|) && op0 <= dest.Length
    requires Progress(src, ss0, anchor0, dest[..op0])
    modifies dest, table
    ensures Hashable(src, stored0) && anchor <= |src| && (more ==> TableOf(v, src, table[..], stored))
    ensures After(ss0, Greedy(v, src, stored0, anchor0, ip0))
         == if more then After(ss, Greedy(v, src, stored, anchor, anchor + 1)) else (ss, anchor)
    ensures op <= dest.Length && Progress(src, ss, anchor, dest[..op])
    ensures more ==> ip0 <= anchor && anchor + MF_LIMIT <= |src| && EntriesBefore(table[..], anchor + 1)
  {
    hide Progress, HashValue, Repeats, CompressBound, EncodeRun, LengthTail, TableOf, Search, Chain, StartOf, Greedy;
    TableIsHashable(v, src, table[..], stored0);
    stored := stored0;
    ProgressBudget(src, ss0, anchor0, dest[..op0]);
    var found, hit, ref;
    found, hit, ref, stored := FindMatch(v, src, table, ip0, forwardH, stored0);
    if !found {
      GreedyEnd(v, src, stored0, anchor0, ip0, ss0);
      return false, op0, anchor0, ss0, stored;
    }
    GreedyStep(v, src, stored0, anchor0, ip0, ss0, hit, ref, stored);
    var ip;
    ip, ref := CatchUp(src, anchor0, hit, ref, hit + 4);
    RunFits(op0, anchor0, ip - anchor0, |src|);
    op := EmitLiterals(src, anchor0, ip - anchor0, dest, op0);
    assert dest[..op][..op0] == dest[..op0];
    FirstMatch(v, src, table[..], stored, dest[..op], op0, ss0, anchor0, ip, hit, ip - ref);
    ghost var whole := Prepend(ss0, Chain(v, src, stored, anchor0, ip, hit, ip - ref));
    hide AtMatch, After, EntriesBefore, MatchStart, Prepend;
    more, op, anchor, ss, stored :=
      MatchChain(v, src, table, dest, op0, op, anchor0, ip, ip - ref, whole, ss0, hit + 4, stored);
  }

  /**
   The output is an encoding of the input as a valid block, and fits the bound: `dest` may be exactly that
   long, so no store, not even the overshoot of a packet copy, lies beyond it. Both decoders give the
   input back.
   */
  method Compress(v: Variant, src: seq<byte>, dest: array<byte>) returns (n: nat, ghost b: Block)
    requires v.Ctx64k? ==> |src| < LIMIT_64K
    requires dest.Length >= |src| + |src| / 255 + 16
    modifies dest
    ensures n <= |src| + |src| / 255 + 16
    ensures ValidBlock(b) && BlockMeaning(b) == src && dest[..n] == Encode(b) && Maximal(src, b.sequences)
    ensures forall cap: nat | cap >= |src| :: Decode(dest[..n], cap) == Decoded(src)
    ensures KnownDecode(dest[..n], |src|) == Finished(n, src)
    ensures b == GreedyBlock(v, src)
    ensures |src| >= 14 && (forall i | 0 <= i < |src| :: src[i] == src[0]) ==> dest[..n] == EqualForm(src[0], |src|)
  {
    hide Progress, HashValue, Greedy, Decode, KnownDecode, EqualForm;
    WrittenWhenEqual(v, src);
    var op: nat, anchor: nat := 0, 0;
    ghost var ss := [];
    NoProgress(src);
    assert dest[..0] == [] && src[0..] == src;
    if MF_LIMIT < |src| {
      op, anchor, ss := MainLoop(v, src, dest);
    }
    n, b := Finish(src, dest, op, anchor, ss);
  }

  lemma WrittenWhenEqual(v: Variant, src: seq<byte>)
    ensures |src| >= 14 && (forall i | 0 <= i < |src| :: src[i] == src[0]) ==>
      ValidSequences(GreedyBlock(v, src).sequences) && Encode(GreedyBlock(v, src)) == EqualForm(src[0], |src|)
  {
    hide EqualForm, GreedyBlock;
    if |src| >= 14 && forall i | 0 <= i < |src| :: src[i] == src[0] {
      EqualBytes(v, src, src[0]);
      EqualBytesWritten(src[0], |src|);
    }
  }

  lemma NoProgress(src: seq<byte>)
    ensures Progress(src, [], 0, [])
  {}

  /** Everything up to the label _last_literals, for an input long enough to hold a match. */
  method MainLoop(v: Variant, src: seq<byte>, dest: array<byte>) returns (op: nat, anchor: nat, ghost ss: seq<Sequence>)
    requires v.Ctx64k? ==> |src| < LIMIT_64K
    requires MF_LIMIT < |src| && dest.Length >= CompressBound(|src|)
    modifies dest
    ensures op <= dest.Length && Progress(src, ss, anchor, dest[..op])
    ensures (ss, anchor) == Greedy(v, src, [], 0, 1)
  {
    hide Progress, HashValue, CompressBound, TableOf, Greedy;
    var table := new nat[TableSize(v)](_ => 0);
    if v.Ctx? { table[HashValue(v, src, 0)] := 0; }
    assert EntriesBefore(table[..], 1);
    hide EntriesBefore;
    EmptyTable(v, src, table[..]);
    ghost var stored: seq<nat> := [];
    op, anchor, ss := 0, 0, [];
    assert [] + Greedy(v, src, [], 0, 1).0 == Greedy(v, src, [], 0, 1).0;
    NoProgress(src);
    assert dest[..0] == [];
    var ip: nat, forwardH := 1, HashValue(v, src, 1);
    var more := true;
    while more
      invariant fresh(table) && table.Length == TableSize(v)
      invariant op <= dest.Length && Progress(src, ss, anchor, dest[..op])
      invariant more ==> anchor < ip && ip + MF_LIMIT <= |src| + 1 && EntriesBefore(table[..], ip)
      invariant more ==> TableOf(v, src, table[..], stored) && Hashable(src, stored)
      invariant Greedy(v, src, [], 0, 1)
             == if more then After(ss, Greedy(v, src, stored, anchor, ip)) else (ss, anchor)
      invariant more ==> forwardH == HashValue(v, src, ip)
      decreases more, |src| - ip
    {
      more, op, anchor, ss, stored := MainPass(v, src, table, dest, op, anchor, ip, forwardH, ss, stored);
      if more {
        TableIsHashable(v, src, table[..], stored);
        ip := anchor + 1;
        forwardH := HashValue(v, src, ip);
      }
    }
  }

  /** From the label _last_literals on: the block is complete. */
  method Finish(src: seq<byte>, dest: array<byte>, op: nat, anchor: nat, ghost ss: seq<Sequence>)
      returns (n: nat, ghost b: Block)
    requires op <= dest.Length && dest.Length >= CompressBound(|src|)
    requires Progress(src, ss, anchor, dest[..op])
    modifies dest
    ensures anchor <= |src| && b == Block(ss, src[anchor..])
    ensures n <= CompressBound(|src|)
    ensures ValidBlock(b) && BlockMeaning(b) == src && dest[..n] == Encode(b) && Maximal(src, b.sequences)
    ensures forall cap: nat | cap >= |src| :: Decode(dest[..n], cap) == Decoded(src)
    ensures KnownDecode(dest[..n], |src|) == Finished(n, src)
  {
    hide EncodeRun, LengthTail, Extension, Decode, KnownDecode, CopyMatch;
    LastFits(op, anchor, |src|);
    n := EmitLast(src, anchor, dest, op);
    b := Block(ss, src[anchor..]);
    assert src[..anchor] + src[anchor..] == src;
    RoundTrip(b, src);
  }

  lemma RoundTrip(b: Block, src: seq<byte>)
    requires ValidBlock(b) && BlockMeaning(b) == src
    ensures forall cap: nat | cap >= |src| :: Decode(Encode(b), cap) == Decoded(src)
    ensures KnownDecode(Encode(b), |src|) == Finished(|Encode(b)|, src)
  {
    forall cap: nat | cap >= |src| ensures Decode(Encode(b), cap) == Decoded(src) {
      DecodeEncode(b, cap);
    }
    KnownDecodeEncode(b);
  }

  /** LZ4_compress: the narrow table below its limit, the wide one otherwise. */
  method CompressAny(src: seq<byte>, dest: array<byte>) returns (n: nat, ghost b: Block)
    requires dest.Length >= |src| + |src| / 255 + 16
    modifies dest
    ensures n <= |src| + |src| / 255 + 16
    ensures ValidBlock(b) && BlockMeaning(b) == src && dest[..n] == Encode(b) && Maximal(src, b.sequences)
    ensures forall cap: nat | cap >= |src| :: Decode(dest[..n], cap) == Decoded(src)
    ensures KnownDecode(dest[..n], |src|) == Finished(n, src)
    ensures b == GreedyBlock(if |src| < 65547 then Ctx64k else Ctx, src)
  {
    hide Decode, KnownDecode, GreedyBlock;
    n, b := Compress(if |src| < LIMIT_64K then Ctx64k else Ctx, src, dest);
  }
}
