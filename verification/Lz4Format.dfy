/**
 The LZ4 block format: what a block is, how it is written as bytes, what it means, and a decoder that
 works one byte at a time. This decoder takes the same branches and reports the same errors as the
 fast decoders of lz4.cc; it is the meaning they are proved against.
 */
module Lz4Format {
  import opened Bytes

  const MIN_MATCH := 4
  const COPY_LENGTH := 8
  const LAST_LITERALS := 5
  const MF_LIMIT := COPY_LENGTH + MIN_MATCH
  const RUN_MASK := 15
  const MAX_DISTANCE := 65535

  /** Literals, then a copy of `matchLength` bytes from `offset` bytes back. */
  datatype Sequence = Sequence(literals: seq<byte>, offset: nat, matchLength: nat)

  /** A block: sequences, then a last run of literals. */
  datatype Block = Block(sequences: seq<Sequence>, last: seq<byte>)

  // ---- What a block means ----

  /** Append n bytes, each equal to the byte `offset` places before it (the copy may overlap itself). */
  function CopyMatch(out: seq<byte>, offset: nat, n: nat): (r: seq<byte>)
    requires 1 <= offset <= |out|
    ensures |r| == |out| + n && out <= r
  {
    if n == 0 then out
    else
      var r := CopyMatch(out, offset, n - 1);
      r + [r[|r| - offset]]
  }

  /** Each byte of the copy is the one `offset` before it. */
  lemma {:induction false} CopyMatchRepeats(out: seq<byte>, offset: nat, n: nat, k: nat)
    requires 1 <= offset <= |out| <= k < |out| + n
    ensures var r := CopyMatch(out, offset, n);
            r[k] == r[k - offset]
  {
    if k < |out| + n - 1 { CopyMatchRepeats(out, offset, n - 1, k); }
  }

  /** The copy is the only extension with period `offset`. */
  lemma {:induction false} CopyMatchUnique(out: seq<byte>, offset: nat, n: nat, s: seq<byte>)
    requires 1 <= offset <= |out|
    requires |s| == |out| + n && out <= s
    requires forall k | |out| <= k < |s| :: s[k] == s[k - offset]
    ensures s == CopyMatch(out, offset, n)
  {
    if n > 0 {
      var t := s[..|s| - 1];
      CopyMatchUnique(out, offset, n - 1, t);
      assert s == t + [t[|t| - offset]];
    } else {
      assert s == out;
    }
  }

  predicate ValidSequence(s: Sequence, before: nat) {
    1 <= s.offset <= MAX_DISTANCE && s.offset <= before + |s.literals| && MIN_MATCH <= s.matchLength
  }

  function OutputLength(ss: seq<Sequence>): nat {
    if |ss| == 0 then 0
    else OutputLength(ss[..|ss| - 1]) + |ss[|ss| - 1].literals| + ss[|ss| - 1].matchLength
  }

  predicate ValidSequences(ss: seq<Sequence>) {
    |ss| == 0 ||
    (ValidSequences(ss[..|ss| - 1]) && ValidSequence(ss[|ss| - 1], OutputLength(ss[..|ss| - 1])))
  }

  function Meaning(ss: seq<Sequence>): (out: seq<byte>)
    requires ValidSequences(ss)
    ensures |out| == OutputLength(ss)
  {
    if |ss| == 0 then []
    else
      var s := ss[|ss| - 1];
      CopyMatch(Meaning(ss[..|ss| - 1]) + s.literals, s.offset, s.matchLength)
  }

  /**
   The end-of-block conditions of the LZ4 block format: the block ends with at least 5 literals, and
   the last match starts at least 12 bytes before the end of the block.
   */
  predicate EndConditions(b: Block) {
    |b.sequences| > 0 ==>
      && LAST_LITERALS <= |b.last|
      && MF_LIMIT <= b.sequences[|b.sequences| - 1].matchLength + |b.last|
  }

  predicate ValidBlock(b: Block) {
    ValidSequences(b.sequences) && EndConditions(b)
  }

  function BlockMeaning(b: Block): seq<byte>
    requires ValidSequences(b.sequences)
  {
    Meaning(b.sequences) + b.last
  }

  // ---- How a block is written ----

  /** The bytes that carry the part of a length above 15. */
  function Extension(n: nat): seq<byte> {
    if n < 255 then [n] else [255] + Extension(n - 255)
  }

  lemma {:induction false} ExtensionLength(n: nat)
    ensures |Extension(n)| == n / 255 + 1
  {
    if n >= 255 {
      ExtensionLength(n - 255);
    }
  }

  function Nibble(n: nat): (x: nat)
    ensures x <= RUN_MASK
  {
    if n < RUN_MASK then n else RUN_MASK
  }

  function LengthTail(n: nat): seq<byte> {
    if n < RUN_MASK then [] else Extension(n - RUN_MASK)
  }

  /** A token with its literals; `low` is the match half of the token. */
  function EncodeRun(literals: seq<byte>, low: nat): (e: seq<byte>)
    requires low <= RUN_MASK
    ensures |e| == 1 + |LengthTail(|literals|)| + |literals|
  {
    [16 * Nibble(|literals|) + low] + LengthTail(|literals|) + literals
  }

  /** The offset, low byte first, and what the token cannot hold of the match length. */
  function EncodeMatch(offset: nat, m: nat): (e: seq<byte>)
    requires offset <= MAX_DISTANCE
    ensures |e| == 2 + |LengthTail(m)|
  {
    [offset % 256, offset / 256] + LengthTail(m)
  }

  function EncodeSequence(s: Sequence): (e: seq<byte>)
    requires s.offset <= MAX_DISTANCE && MIN_MATCH <= s.matchLength
    ensures |e| == |EncodeRun(s.literals, 0)| + 2 + |LengthTail(s.matchLength - MIN_MATCH)|
  {
    EncodeRun(s.literals, Nibble(s.matchLength - MIN_MATCH))
    + EncodeMatch(s.offset, s.matchLength - MIN_MATCH)
  }

  function EncodeSequences(ss: seq<Sequence>): seq<byte>
    requires ValidSequences(ss)
  {
    if |ss| == 0 then []
    else EncodeSequences(ss[..|ss| - 1]) + EncodeSequence(ss[|ss| - 1])
  }

  function Encode(b: Block): seq<byte>
    requires ValidSequences(b.sequences)
  {
    EncodeSequences(b.sequences) + EncodeRun(b.last, 0)
  }

  // ---- The byte-at-a-time decoder ----

  /** Read length bytes up to the first that is not 255, or to the end of the input. */
  function ReadExtension(inp: seq<byte>, ip: nat, acc: nat): (r: (nat, nat))
    requires ip <= |inp|
    ensures ip <= r.1 <= |inp| && acc <= r.0
    decreases |inp| - ip
  {
    if ip == |inp| then (acc, ip)
    else if inp[ip] == 255 then ReadExtension(inp, ip + 1, acc + 255)
    else (acc + inp[ip], ip + 1)
  }

  function ReadLength(inp: seq<byte>, ip: nat, nibble: nat): (r: (nat, nat))
    requires ip <= |inp|
    ensures ip <= r.1 <= |inp|
  {
    if nibble == RUN_MASK then ReadExtension(inp, ip, RUN_MASK) else (nibble, ip)
  }

  /** `ZeroOffset`: a match with offset 0, which no valid stream has; its copy has no meaning. */
  datatype Outcome = Decoded(out: seq<byte>) | Failed(at: nat) | ZeroOffset

  datatype Step = Stop(outcome: Outcome) | Continue(ip: nat, out: seq<byte>)

  /** Decode one sequence: the input stops at |inp|, the output may hold `cap` bytes. */
  function DecodeStep(inp: seq<byte>, ip: nat, out: seq<byte>, cap: nat): (r: Step)
    requires ip < |inp|
    ensures r.Continue? ==> ip < r.ip <= |inp| && |r.out| < cap
  {
    var token := inp[ip];
    var (run, p) := ReadLength(inp, ip + 1, token / 16);
    if |out| + run > cap - COPY_LENGTH || p + run > |inp| - COPY_LENGTH then
      if |out| + run > cap || p + run > |inp| then Stop(Failed(p))
      else if p + run < |inp| then Stop(Failed(p + run))
      else Stop(Decoded(out + inp[p..p + run]))
    else
      DecodeMatch(inp, p + run, token % 16, out + inp[p..p + run], cap)
  }

  /** The second half of a sequence: its offset at q, and its match. */
  function DecodeMatch(inp: seq<byte>, q: nat, nibble: nat, out: seq<byte>, cap: nat): (r: Step)
    requires q + 2 <= |inp|
    ensures r.Continue? ==> q < r.ip <= |inp| && |r.out| < cap
  {
    var offset := Word16(inp[q], inp[q + 1]);
    if offset > |out| then Stop(Failed(q + 2))
    else
      var (m, q') := ReadLength(inp, q + 2, nibble);
      if |out| + m + MIN_MATCH > cap then Stop(Failed(q'))
      else if offset == 0 then Stop(ZeroOffset)
      else
        var out' := CopyMatch(out, offset, m + MIN_MATCH);
        if |out'| == cap then Stop(Decoded(out')) else Continue(q', out')
  }

  function DecodeFrom(inp: seq<byte>, ip: nat, out: seq<byte>, cap: nat): Outcome
    requires ip <= |inp|
    decreases |inp| - ip
  {
    if ip == |inp| then Decoded(out)
    else
      match DecodeStep(inp, ip, out, cap)
      case Stop(o) => o
      case Continue(ip', out') => DecodeFrom(inp, ip', out', cap)
  }

  function Decode(inp: seq<byte>, cap: nat): Outcome {
    DecodeFrom(inp, 0, [], cap)
  }

  // ---- The same for a decoder that knows the output size but not the input size ----

  /** What an 8-byte-packet copy of n bytes touches: whole packets, and at least one. */
  function Packets(n: nat): (p: nat)
    ensures p >= n && COPY_LENGTH <= p <= n + COPY_LENGTH
  {
    if n == 0 then COPY_LENGTH else (n + 7) / 8 * 8
  }

  /** The length bytes end before the input does. */
  predicate Terminated(inp: seq<byte>, ip: nat, nibble: nat)
    decreases |inp| - ip
  {
    if nibble != RUN_MASK then ip <= |inp|
    else ip < |inp| && (inp[ip] == 255 ==> Terminated(inp, ip + 1, nibble))
  }

  /** `ReadsPast`: the decoder would read beyond the input, which its caller must rule out. */
  datatype KnownOutcome = Finished(read: nat, out: seq<byte>) | Broken(at: nat) | UndefinedMatch | ReadsPast

  datatype KnownStep = KnownStop(outcome: KnownOutcome) | KnownContinue(ip: nat, out: seq<byte>)

  function KnownDecodeStep(inp: seq<byte>, ip: nat, out: seq<byte>, osize: nat): (r: KnownStep)
    ensures r.KnownContinue? ==> ip < r.ip <= |inp| && |r.out| < osize
  {
    if ip >= |inp| || !Terminated(inp, ip + 1, inp[ip] / 16) then KnownStop(ReadsPast)
    else
      var (run, p) := ReadLength(inp, ip + 1, inp[ip] / 16);
      if |out| + run > osize - COPY_LENGTH then
        if |out| + run > osize then KnownStop(Broken(p))
        else if p + run > |inp| then KnownStop(ReadsPast)
        else KnownStop(Finished(p + run, out + inp[p..p + run]))
      else if p + Packets(run) > |inp| then KnownStop(ReadsPast)
      else KnownMatch(inp, p + run, inp[ip] % 16, out + inp[p..p + run], osize)
  }

  function KnownMatch(inp: seq<byte>, q: nat, nibble: nat, out: seq<byte>, osize: nat): (r: KnownStep)
    ensures r.KnownContinue? ==> q < r.ip <= |inp| && |r.out| < osize
  {
    if q + 2 > |inp| then KnownStop(ReadsPast)
    else
      var offset := Word16(inp[q], inp[q + 1]);
      if offset > |out| then KnownStop(Broken(q + 2))
      else if !Terminated(inp, q + 2, nibble) then KnownStop(ReadsPast)
      else
        var (m, q') := ReadLength(inp, q + 2, nibble);
        if |out| + m + MIN_MATCH > osize then KnownStop(Broken(q'))
        else if offset == 0 then KnownStop(UndefinedMatch)
        else
          var out' := CopyMatch(out, offset, m + MIN_MATCH);
          if |out'| == osize then KnownStop(Finished(q', out')) else KnownContinue(q', out')
  }

  function KnownDecodeFrom(inp: seq<byte>, ip: nat, out: seq<byte>, osize: nat): KnownOutcome
    requires ip <= |inp|
    decreases |inp| - ip
  {
    match KnownDecodeStep(inp, ip, out, osize)
    case KnownStop(o) => o
    case KnownContinue(ip', out') => KnownDecodeFrom(inp, ip', out', osize)
  }

  function KnownDecode(inp: seq<byte>, osize: nat): KnownOutcome {
    KnownDecodeFrom(inp, 0, [], osize)
  }

  // ---- The decoder undoes the encoding ----

  lemma {:induction false} ReadExtensionOfEncoding(inp: seq<byte>, ip: nat, n: nat, acc: nat)
    requires At(inp, ip, Extension(n))
    ensures ReadExtension(inp, ip, acc) == (acc + n, ip + |Extension(n)|)
    decreases n
  {
    assert inp[ip] == inp[ip..ip + |Extension(n)|][0];
    if n >= 255 {
      AtConcat(inp, ip, [255], Extension(n - 255));
      ReadExtensionOfEncoding(inp, ip + 1, n - 255, acc + 255);
    }
  }

  lemma ReadLengthOfEncoding(inp: seq<byte>, ip: nat, n: nat)
    requires At(inp, ip, LengthTail(n))
    ensures ReadLength(inp, ip, Nibble(n)) == (n, ip + |LengthTail(n)|)
  {
    if n >= RUN_MASK {
      ReadExtensionOfEncoding(inp, ip, n - RUN_MASK, RUN_MASK);
    }
  }

  /** Reading back an encoded run: its token, its length and its literals. */
  lemma ReadRun(inp: seq<byte>, ip: nat, literals: seq<byte>, low: nat)
    requires low <= RUN_MASK && At(inp, ip, EncodeRun(literals, low))
    ensures inp[ip] / 16 == Nibble(|literals|) && inp[ip] % 16 == low
    ensures ReadLength(inp, ip + 1, inp[ip] / 16) == (|literals|, ip + 1 + |LengthTail(|literals|)|)
    ensures At(inp, ip + 1 + |LengthTail(|literals|)|, literals)
    ensures ip + 1 + |LengthTail(|literals|)| + |literals| == ip + |EncodeRun(literals, low)|
  {
    var t := LengthTail(|literals|);
    var token: byte := 16 * Nibble(|literals|) + low;
    AtConcat(inp, ip, [token] + t, literals);
    AtConcat(inp, ip, [token], t);
    assert inp[ip] == inp[ip..ip + 1][0] == token;
    ReadLengthOfEncoding(inp, ip + 1, |literals|);
  }

  /** Reading back the offset and the length of an encoded match. */
  lemma ReadMatch(inp: seq<byte>, q: nat, offset: nat, m: nat)
    requires offset <= MAX_DISTANCE
    requires At(inp, q, EncodeMatch(offset, m))
    ensures q + 2 <= |inp| && Word16(inp[q], inp[q + 1]) == offset
    ensures ReadLength(inp, q + 2, Nibble(m)) == (m, q + |EncodeMatch(offset, m)|)
  {
    AtConcat(inp, q, [offset % 256, offset / 256], LengthTail(m));
    assert inp[q] == inp[q..q + 2][0] && inp[q + 1] == inp[q..q + 2][1];
    ReadLengthOfEncoding(inp, q + 2, m);
  }

  lemma DecodeMatchOfEncoding(inp: seq<byte>, q: nat, offset: nat, m: nat, out: seq<byte>, cap: nat)
    requires 1 <= offset <= MAX_DISTANCE && offset <= |out|
    requires At(inp, q, EncodeMatch(offset, m))
    requires |out| + m + MIN_MATCH < cap
    ensures q + 2 <= |inp|
    ensures DecodeMatch(inp, q, Nibble(m), out, cap)
         == Continue(q + |EncodeMatch(offset, m)|, CopyMatch(out, offset, m + MIN_MATCH))
  {
    hide CopyMatch, EncodeMatch, ReadLength, At;
    ReadMatch(inp, q, offset, m);
  }

  lemma DecodeRunOfEncoding(inp: seq<byte>, ip: nat, literals: seq<byte>, low: nat, out: seq<byte>, cap: nat)
    requires low <= RUN_MASK && At(inp, ip, EncodeRun(literals, low))
    requires ip + |EncodeRun(literals, low)| + COPY_LENGTH <= |inp|
    requires |out| + |literals| + COPY_LENGTH <= cap
    ensures DecodeStep(inp, ip, out, cap)
         == DecodeMatch(inp, ip + |EncodeRun(literals, low)|, low, out + literals, cap)
  {
    ReadRun(inp, ip, literals, low);
  }

  /** One step of the decoder over one encoded sequence that is far enough from both ends. */
  lemma DecodeStepOfSequence(inp: seq<byte>, ip: nat, out: seq<byte>, cap: nat, s: Sequence)
    requires ValidSequence(s, |out|)
    requires At(inp, ip, EncodeSequence(s))
    requires ip + |EncodeSequence(s)| + 6 <= |inp|
    requires |out| + |s.literals| + MF_LIMIT <= cap
    requires |out| + |s.literals| + s.matchLength < cap
    ensures DecodeStep(inp, ip, out, cap)
         == Continue(ip + |EncodeSequence(s)|, CopyMatch(out + s.literals, s.offset, s.matchLength))
  {
    hide DecodeStep, DecodeMatch, CopyMatch, EncodeRun, EncodeMatch, LengthTail, At;
    DecodeRunAndMatch(inp, ip, s.literals, s.offset, s.matchLength - MIN_MATCH, out, cap);
  }

  lemma DecodeRunAndMatch(inp: seq<byte>, ip: nat, literals: seq<byte>, offset: nat, m: nat, out: seq<byte>, cap: nat)
    requires 1 <= offset <= MAX_DISTANCE && offset <= |out| + |literals|
    requires At(inp, ip, EncodeRun(literals, Nibble(m)) + EncodeMatch(offset, m))
    requires ip + |EncodeRun(literals, Nibble(m))| + COPY_LENGTH <= |inp|
    requires |out| + |literals| + COPY_LENGTH <= cap && |out| + |literals| + m + MIN_MATCH < cap
    ensures var e := EncodeRun(literals, Nibble(m)) + EncodeMatch(offset, m);
            DecodeStep(inp, ip, out, cap) == Continue(ip + |e|, CopyMatch(out + literals, offset, m + MIN_MATCH))
  {
    hide DecodeStep, DecodeMatch, CopyMatch, EncodeRun, EncodeMatch, Nibble, At;
    var run := EncodeRun(literals, Nibble(m));
    AtConcat(inp, ip, run, EncodeMatch(offset, m));
    DecodeRunOfEncoding(inp, ip, literals, Nibble(m), out, cap);
    DecodeMatchOfEncoding(inp, ip + |run|, offset, m, out + literals, cap);
  }

  lemma DecodeStepOfLast(inp: seq<byte>, ip: nat, out: seq<byte>, cap: nat, last: seq<byte>)
    requires At(inp, ip, EncodeRun(last, 0)) && ip + |EncodeRun(last, 0)| == |inp|
    requires |out| + |last| <= cap
    ensures DecodeStep(inp, ip, out, cap) == Stop(Decoded(out + last))
  {
    ReadRun(inp, ip, last, 0);
  }

  /** The part of a valid list of sequences before one of them, and that one. */
  lemma {:induction false} Prefix(ss: seq<Sequence>, i: nat)
    requires i <= |ss| && ValidSequences(ss)
    ensures ValidSequences(ss[..i])
    ensures |EncodeSequences(ss[..i])| <= |EncodeSequences(ss)|
    ensures OutputLength(ss[..i]) <= OutputLength(ss)
    decreases |ss|
  {
    if i == |ss| {
      assert ss[..i] == ss;
    } else {
      assert ss[..i] == ss[..|ss| - 1][..i];
      Prefix(ss[..|ss| - 1], i);
    }
  }

  /** How one more sequence extends what is written and what it means. */
  lemma OneMore(ss: seq<Sequence>, i: nat)
    requires i < |ss| && ValidSequences(ss[..i + 1])
    ensures ValidSequences(ss[..i]) && ValidSequence(ss[i], OutputLength(ss[..i]))
    ensures EncodeSequences(ss[..i + 1]) == EncodeSequences(ss[..i]) + EncodeSequence(ss[i])
    ensures Meaning(ss[..i + 1]) == CopyMatch(Meaning(ss[..i]) + ss[i].literals, ss[i].offset, ss[i].matchLength)
    ensures OutputLength(ss[..i + 1]) == OutputLength(ss[..i]) + |ss[i].literals| + ss[i].matchLength
  {
    assert ss[..i + 1][..i] == ss[..i];
    assert ss[..i + 1][i] == ss[i];
  }

  lemma {:induction false} EncodedAt(ss: seq<Sequence>, i: nat)
    requires i < |ss| && ValidSequences(ss) && ValidSequences(ss[..i]) && ValidSequence(ss[i], OutputLength(ss[..i]))
    ensures At(EncodeSequences(ss), |EncodeSequences(ss[..i])|, EncodeSequence(ss[i]))
    decreases |ss|
  {
    var e := EncodeSequences(ss);
    if i + 1 == |ss| {
      assert At(e, 0, e);
      AtConcat(e, 0, EncodeSequences(ss[..i]), EncodeSequence(ss[i]));
    } else {
      var front := ss[..|ss| - 1];
      assert ss[..i] == front[..i];
      EncodedAt(front, i);
      AtExtend(EncodeSequences(front), EncodeSequence(ss[|ss| - 1]), |EncodeSequences(ss[..i])|, EncodeSequence(ss[i]));
    }
  }

  lemma AtExtend(s: seq<byte>, t: seq<byte>, i: nat, e: seq<byte>)
    requires At(s, i, e)
    ensures At(s + t, i, e)
  {
    assert (s + t)[i..i + |e|] == s[i..i + |e|];
  }

  /** The end conditions leave room behind every sequence, in the stream and in the output. */
  lemma RoomBehind(b: Block, i: nat)
    requires ValidBlock(b) && i < |b.sequences|
    requires ValidSequences(b.sequences[..i]) && ValidSequences(b.sequences[..i + 1])
    ensures |EncodeSequences(b.sequences[..i + 1])| + 6 <= |Encode(b)|
    ensures OutputLength(b.sequences[..i + 1]) + LAST_LITERALS <= |BlockMeaning(b)|
    ensures OutputLength(b.sequences[..i + 1]) - b.sequences[i].matchLength + MF_LIMIT <= |BlockMeaning(b)|
  {
    var ss := b.sequences;
    Prefix(ss, i + 1);
    OneMore(ss, i);
    if i + 1 < |ss| {
      Prefix(ss, i + 2);
      OneMore(ss, i + 1);
    } else {
      assert ss[..i + 1] == ss;
    }
  }

  /** The decoder, having read the first i sequences, reads the next one. */
  lemma DecodeOne(b: Block, i: nat, cap: nat)
    requires ValidBlock(b) && i < |b.sequences| && |BlockMeaning(b)| <= cap
    requires ValidSequences(b.sequences[..i]) && ValidSequences(b.sequences[..i + 1])
    ensures |EncodeSequences(b.sequences[..i])| < |Encode(b)|
    ensures DecodeStep(Encode(b), |EncodeSequences(b.sequences[..i])|, Meaning(b.sequences[..i]), cap)
         == Continue(|EncodeSequences(b.sequences[..i + 1])|, Meaning(b.sequences[..i + 1]))
  {
    hide DecodeStep, CopyMatch, EncodeSequence, ValidSequences, EncodeRun, At;
    var ss := b.sequences;
    var ip, out := |EncodeSequences(ss[..i])|, Meaning(ss[..i]);
    OneMore(ss, i);
    EncodedAt(ss, i);
    AtExtend(EncodeSequences(ss), EncodeRun(b.last, 0), ip, EncodeSequence(ss[i]));
    RoomBehind(b, i);
    DecodeStepOfSequence(Encode(b), ip, out, cap, ss[i]);
  }

  /** The decoder, having read every sequence, reads the last literals. */
  lemma DecodeLast(b: Block, cap: nat)
    requires ValidBlock(b) && |BlockMeaning(b)| <= cap
    ensures |EncodeSequences(b.sequences)| < |Encode(b)|
    ensures DecodeStep(Encode(b), |EncodeSequences(b.sequences)|, Meaning(b.sequences), cap)
         == Stop(Decoded(BlockMeaning(b)))
  {
    assert At(Encode(b), 0, Encode(b));
    AtConcat(Encode(b), 0, EncodeSequences(b.sequences), EncodeRun(b.last, 0));
    DecodeStepOfLast(Encode(b), |EncodeSequences(b.sequences)|, Meaning(b.sequences), cap, b.last);
  }

  lemma {:induction false} DecodeFromPrefix(b: Block, i: nat, cap: nat)
    requires ValidBlock(b) && i <= |b.sequences| && |BlockMeaning(b)| <= cap
    requires ValidSequences(b.sequences[..i])
    ensures |EncodeSequences(b.sequences[..i])| <= |Encode(b)|
    ensures DecodeFrom(Encode(b), |EncodeSequences(b.sequences[..i])|, Meaning(b.sequences[..i]), cap)
         == Decoded(BlockMeaning(b))
    decreases |b.sequences| - i
  {
    if i == |b.sequences| {
      assert b.sequences[..i] == b.sequences;
      DecodeLast(b, cap);
    } else {
      Prefix(b.sequences, i + 1);
      DecodeOne(b, i, cap);
      DecodeFromPrefix(b, i + 1, cap);
    }
  }

  /** Decoding an encoded block gives its meaning, whatever the capacity, if the meaning fits. */
  lemma DecodeEncode(b: Block, cap: nat)
    requires ValidBlock(b) && |BlockMeaning(b)| <= cap
    ensures Decode(Encode(b), cap) == Decoded(BlockMeaning(b))
  {
    assert b.sequences[..0] == [];
    DecodeFromPrefix(b, 0, cap);
  }

  // ---- The decoder that knows the output size ----

  lemma {:induction false} StoppedBeforeEnd(inp: seq<byte>, ip: nat, acc: nat)
    requires ip <= |inp| && ReadExtension(inp, ip, acc).1 < |inp|
    ensures Terminated(inp, ip, RUN_MASK)
    decreases |inp| - ip
  {
    if ip < |inp| && inp[ip] == 255 {
      StoppedBeforeEnd(inp, ip + 1, acc + 255);
    }
  }

  /** Where one decoder goes on, short of the end of the input, the other does the same. */
  lemma StepsAgree(inp: seq<byte>, ip: nat, out: seq<byte>, cap: nat)
    requires ip < |inp| && DecodeStep(inp, ip, out, cap).Continue?
    requires DecodeStep(inp, ip, out, cap).ip < |inp|
    ensures var step := DecodeStep(inp, ip, out, cap);
            KnownDecodeStep(inp, ip, out, cap) == KnownContinue(step.ip, step.out)
  {
    hide CopyMatch, ReadExtension;
    var (run, p) := ReadLength(inp, ip + 1, inp[ip] / 16);
    if inp[ip] / 16 == RUN_MASK { StoppedBeforeEnd(inp, ip + 1, RUN_MASK); }
    if inp[ip] % 16 == RUN_MASK { StoppedBeforeEnd(inp, p + run + 2, RUN_MASK); }
  }

  lemma {:induction false} EncodingTerminated(inp: seq<byte>, ip: nat, n: nat)
    requires At(inp, ip, Extension(n))
    ensures Terminated(inp, ip, RUN_MASK)
    decreases n
  {
    assert inp[ip] == inp[ip..ip + |Extension(n)|][0];
    if n >= 255 {
      AtConcat(inp, ip, [255], Extension(n - 255));
      EncodingTerminated(inp, ip + 1, n - 255);
    }
  }

  lemma RunTerminated(inp: seq<byte>, ip: nat, literals: seq<byte>)
    requires At(inp, ip, EncodeRun(literals, 0))
    ensures Terminated(inp, ip + 1, inp[ip] / 16)
  {
    var n := |literals|;
    var token: byte := 16 * Nibble(n);
    ReadRun(inp, ip, literals, 0);
    AtConcat(inp, ip, [token] + LengthTail(n), literals);
    AtConcat(inp, ip, [token], LengthTail(n));
    if n >= RUN_MASK { EncodingTerminated(inp, ip + 1, n - RUN_MASK); }
  }

  lemma KnownStepOfLast(inp: seq<byte>, ip: nat, out: seq<byte>, last: seq<byte>)
    requires At(inp, ip, EncodeRun(last, 0)) && ip + |EncodeRun(last, 0)| == |inp|
    ensures KnownDecodeStep(inp, ip, out, |out| + |last|) == KnownStop(Finished(|inp|, out + last))
  {
    RunTerminated(inp, ip, last);
    ReadRun(inp, ip, last, 0);
  }

  lemma KnownDecodeLast(b: Block)
    requires ValidBlock(b)
    ensures KnownDecodeStep(Encode(b), |EncodeSequences(b.sequences)|, Meaning(b.sequences), |BlockMeaning(b)|)
         == KnownStop(Finished(|Encode(b)|, BlockMeaning(b)))
  {
    hide KnownDecodeStep;
    assert At(Encode(b), 0, Encode(b));
    AtConcat(Encode(b), 0, EncodeSequences(b.sequences), EncodeRun(b.last, 0));
    KnownStepOfLast(Encode(b), |EncodeSequences(b.sequences)|, Meaning(b.sequences), b.last);
  }

  lemma {:induction false} KnownDecodeFromPrefix(b: Block, i: nat)
    requires ValidBlock(b) && i <= |b.sequences|
    requires ValidSequences(b.sequences[..i])
    ensures |EncodeSequences(b.sequences[..i])| <= |Encode(b)|
    ensures KnownDecodeFrom(Encode(b), |EncodeSequences(b.sequences[..i])|, Meaning(b.sequences[..i]), |BlockMeaning(b)|)
         == Finished(|Encode(b)|, BlockMeaning(b))
    decreases |b.sequences| - i
  {
    hide DecodeStep, KnownDecodeStep;
    if i == |b.sequences| {
      assert b.sequences[..i] == b.sequences;
      KnownDecodeLast(b);
    } else {
      Prefix(b.sequences, i + 1);
      DecodeOne(b, i, |BlockMeaning(b)|);
      RoomBehind(b, i);
      StepsAgree(Encode(b), |EncodeSequences(b.sequences[..i])|, Meaning(b.sequences[..i]), |BlockMeaning(b)|);
      KnownDecodeFromPrefix(b, i + 1);
    }
  }

  /** Decoding an encoded block with its exact output size gives its meaning and reads the whole block. */
  lemma KnownDecodeEncode(b: Block)
    requires ValidBlock(b)
    ensures KnownDecode(Encode(b), |BlockMeaning(b)|) == Finished(|Encode(b)|, BlockMeaning(b))
  {
    assert b.sequences[..0] == [];
    KnownDecodeFromPrefix(b, 0);
  }
}
