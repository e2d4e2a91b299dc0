/**
 What the decoder accepts: only the blocks of the format, whatever bytes it is given. The other direction, that it
 accepts every valid block for every sufficient capacity, is Lz4Format.DecodeEncode.
 */
module Lz4Accepted {
  import opened Bytes
  import opened Lz4Format

  // ---- Lengths ----

  /** A length that is read was written, unless the input ends within its bytes; then these are all 255. */
  lemma {:induction false} ExtensionOf(inp: seq<byte>, ip: nat, acc: nat)
    requires ip <= |inp|
    ensures var (n, q) := ReadExtension(inp, ip, acc);
            if Terminated(inp, ip, RUN_MASK) then At(inp, ip, Extension(n - acc)) && q == ip + |Extension(n - acc)|
            else q == |inp| && n == acc + 255 * (|inp| - ip) && At(inp, ip, seq(|inp| - ip, _ => 255))
    decreases |inp| - ip
  {
    if ip < |inp| && inp[ip] == 255 {
      ExtensionOf(inp, ip + 1, acc + 255);
      assert inp[ip..ip + 1] == [255];
      var (n, q) := ReadExtension(inp, ip, acc);
      if Terminated(inp, ip, RUN_MASK) {
        AtConcat(inp, ip, [255], Extension(n - acc - 255));
      } else {
        AtConcat(inp, ip, [255], seq(|inp| - ip - 1, _ => 255));
        assert [255] + seq(|inp| - ip - 1, _ => 255) == seq(|inp| - ip, _ => 255);
      }
    } else if ip < |inp| {
      assert inp[ip..ip + 1] == [inp[ip]];
    }
  }

  lemma LengthOf(inp: seq<byte>, ip: nat, nibble: nat)
    requires ip <= |inp| && nibble <= RUN_MASK && Terminated(inp, ip, nibble)
    ensures var (n, q) := ReadLength(inp, ip, nibble);
            Nibble(n) == nibble && At(inp, ip, LengthTail(n)) && q == ip + |LengthTail(n)|
  {
    if nibble == RUN_MASK { ExtensionOf(inp, ip, RUN_MASK); }
  }

  lemma Token(t: byte)
    ensures t / 16 <= RUN_MASK && t % 16 <= RUN_MASK && t == 16 * (t / 16) + t % 16
  {
  }

  /** A run that is read within the input was written: its token, its length and its literals. */
  lemma RunOf(inp: seq<byte>, ip: nat, hi: nat, low: nat, run: nat, p: nat)
    requires ip < |inp| && inp[ip] == 16 * hi + low && hi <= RUN_MASK && low <= RUN_MASK
    requires Terminated(inp, ip + 1, hi) && ReadLength(inp, ip + 1, hi) == (run, p) && p + run <= |inp|
    ensures At(inp, ip, EncodeRun(inp[p..p + run], low)) && p + run == ip + |EncodeRun(inp[p..p + run], low)|
  {
    hide *;
    LengthOf(inp, ip + 1, hi);
    RunAt(inp, ip, inp[p..p + run], low, p);
  }

  lemma RunAt(inp: seq<byte>, ip: nat, literals: seq<byte>, low: nat, p: nat)
    requires low <= RUN_MASK && p + |literals| <= |inp| && inp[p..p + |literals|] == literals
    requires ip < |inp| && inp[ip] == 16 * Nibble(|literals|) + low
    requires At(inp, ip + 1, LengthTail(|literals|)) && p == ip + 1 + |LengthTail(|literals|)|
    ensures At(inp, ip, EncodeRun(literals, low)) && p + |literals| == ip + |EncodeRun(literals, low)|
  {
    hide LengthTail, Nibble, At;
    var tail := LengthTail(|literals|);
    SliceAt(inp, ip, ip + 1);
    SliceAt(inp, p, p + |literals|);
    assert inp[ip..ip + 1] == [inp[ip]];
    AtConcat(inp, ip, [inp[ip]], tail);
    AtConcat(inp, ip, [inp[ip]] + tail, literals);
  }

  lemma SliceAt(inp: seq<byte>, i: nat, j: nat)
    requires i <= j <= |inp|
    ensures At(inp, i, inp[i..j])
  {
  }

  /** A length that does not end with the input. */
  lemma {:induction false} EndedLength(inp: seq<byte>, ip: nat, nibble: nat)
    requires ip <= |inp| && nibble <= RUN_MASK && ReadLength(inp, ip, nibble).1 < |inp|
    ensures Terminated(inp, ip, nibble)
  {
    if nibble == RUN_MASK { ExtensionOf(inp, ip, RUN_MASK); }
  }

  // ---- One step ----

  /** The match was cut short by the end of the input: of its length, only bytes of 255 are there. */
  ghost predicate CutShort(inp: seq<byte>, q: nat, offset: nat, m: nat) {
    exists k: nat :: CutAt(inp, q, offset, m, k)
  }

  predicate CutAt(inp: seq<byte>, q: nat, offset: nat, m: nat, k: nat) {
    offset <= MAX_DISTANCE && m == RUN_MASK + 255 * k && q + 2 + k == |inp|
    && At(inp, q, [offset % 256, offset / 256] + seq(k, _ => 255))
  }

  /** The sequence s is written at ip, up to `end`, or cut short there by the end of the input. */
  ghost predicate Reads(inp: seq<byte>, ip: nat, s: Sequence, end: nat)
    requires s.offset <= MAX_DISTANCE && s.matchLength >= MIN_MATCH
  {
    (At(inp, ip, EncodeSequence(s)) && end == ip + |EncodeSequence(s)|)
    || (end == |inp| && At(inp, ip, EncodeRun(s.literals, RUN_MASK))
        && CutShort(inp, ip + |EncodeRun(s.literals, RUN_MASK)|, s.offset, s.matchLength - MIN_MATCH))
  }

  lemma WordBytes(a: byte, b: byte)
    ensures Word16(a, b) % 256 == a && Word16(a, b) / 256 == b
  {
  }

  lemma OffsetAt(inp: seq<byte>, q: nat)
    requires q + 2 <= |inp|
    ensures var offset := Word16(inp[q], inp[q + 1]);
            offset <= MAX_DISTANCE && At(inp, q, [offset % 256, offset / 256])
  {
    WordBytes(inp[q], inp[q + 1]);
    assert inp[q..q + 2] == [inp[q], inp[q + 1]];
  }

  /** The bytes of the match: all of them, or cut short. */
  lemma MatchOf(inp: seq<byte>, q: nat, nibble: nat)
    requires q + 2 <= |inp| && nibble <= RUN_MASK
    ensures var offset := Word16(inp[q], inp[q + 1]);
            var (m, q') := ReadLength(inp, q + 2, nibble);
            offset <= MAX_DISTANCE
            && if Terminated(inp, q + 2, nibble)
               then Nibble(m) == nibble && At(inp, q, EncodeMatch(offset, m)) && q' == q + |EncodeMatch(offset, m)|
               else nibble == RUN_MASK && CutShort(inp, q, offset, m) && q' == |inp|
  {
    hide ReadLength, Terminated, LengthTail, Nibble, At, CutShort, Word16;
    OffsetAt(inp, q);
    var offset := Word16(inp[q], inp[q + 1]);
    var (m, q') := ReadLength(inp, q + 2, nibble);
    if Terminated(inp, q + 2, nibble) {
      LengthOf(inp, q + 2, nibble);
      AtConcat(inp, q, [offset % 256, offset / 256], LengthTail(m));
    } else {
      CutOf(inp, q, nibble, offset);
    }
  }

  lemma CutOf(inp: seq<byte>, q: nat, nibble: nat, offset: nat)
    requires q + 2 <= |inp| && nibble <= RUN_MASK && !Terminated(inp, q + 2, nibble)
    requires offset <= MAX_DISTANCE && At(inp, q, [offset % 256, offset / 256])
    ensures var (m, q') := ReadLength(inp, q + 2, nibble);
            nibble == RUN_MASK && CutShort(inp, q, offset, m) && q' == |inp|
  {
    ExtensionOf(inp, q + 2, RUN_MASK);
    hide At;
    var k: nat := |inp| - (q + 2);
    AtConcat(inp, q, [offset % 256, offset / 256], seq(k, _ => 255));
    assert CutAt(inp, q, offset, ReadLength(inp, q + 2, nibble).0, k);
  }

  lemma SequenceOf(inp: seq<byte>, ip: nat, hi: nat, low: nat, run: nat, p: nat, m: nat, end: nat) returns (s: Sequence)
    requires ip < |inp| && inp[ip] == 16 * hi + low && hi <= RUN_MASK && low <= RUN_MASK
    requires ReadLength(inp, ip + 1, hi) == (run, p) && p + run <= |inp| - COPY_LENGTH
    requires ReadLength(inp, p + run + 2, low) == (m, end)
    ensures s == Sequence(inp[p..p + run], Word16(inp[p + run], inp[p + run + 1]), m + MIN_MATCH)
    ensures s.offset <= MAX_DISTANCE && Reads(inp, ip, s, end)
  {
    hide ReadLength, Terminated, At, EncodeRun, EncodeMatch, CutShort, Reads, Word16, Nibble;
    EndedLength(inp, ip + 1, hi);
    RunOf(inp, ip, hi, low, run, p);
    var q := p + run;
    MatchOf(inp, q, low);
    s := Sequence(inp[p..q], Word16(inp[q], inp[q + 1]), m + MIN_MATCH);
    if Terminated(inp, q + 2, low) {
      WholeSequence(inp, ip, s, low);
    } else {
      CutSequence(inp, ip, s, end);
    }
  }

  lemma WholeSequence(inp: seq<byte>, ip: nat, s: Sequence, low: nat)
    requires s.offset <= MAX_DISTANCE && s.matchLength >= MIN_MATCH && low == Nibble(s.matchLength - MIN_MATCH)
    requires At(inp, ip, EncodeRun(s.literals, low))
    requires At(inp, ip + |EncodeRun(s.literals, low)|, EncodeMatch(s.offset, s.matchLength - MIN_MATCH))
    ensures Reads(inp, ip, s, ip + |EncodeRun(s.literals, low)| + |EncodeMatch(s.offset, s.matchLength - MIN_MATCH)|)
  {
    hide EncodeRun, EncodeMatch, At, Nibble;
    AtConcat(inp, ip, EncodeRun(s.literals, low), EncodeMatch(s.offset, s.matchLength - MIN_MATCH));
  }

  lemma CutSequence(inp: seq<byte>, ip: nat, s: Sequence, end: nat)
    requires s.offset <= MAX_DISTANCE && s.matchLength >= MIN_MATCH && end == |inp|
    requires At(inp, ip, EncodeRun(s.literals, RUN_MASK))
    requires CutShort(inp, ip + |EncodeRun(s.literals, RUN_MASK)|, s.offset, s.matchLength - MIN_MATCH)
    ensures Reads(inp, ip, s, end)
  {
  }

  /** One step: it goes on behind a sequence, or ends there with the output full, or ends with a last run. */
  lemma StepOf(inp: seq<byte>, ip: nat, out: seq<byte>, cap: nat) returns (s: Sequence, end: nat)
    requires ip < |inp|
    ensures match DecodeStep(inp, ip, out, cap)
            case Continue(ip', out') => Takes(inp, ip, out, s, ip', out')
            case Stop(Decoded(out')) =>
              (Takes(inp, ip, out, s, end, out') && |out'| == cap)
              || (out' == out + s.literals && exists low: nat :: EndsWith(inp, ip, s.literals, low))
            case _ => true
  {
    hide ReadLength, CopyMatch, Reads, Word16, EndsWith;
    var token := inp[ip];
    var (run, p) := ReadLength(inp, ip + 1, token / 16);
    s, end := Sequence([], 0, 0), ip;
    if |out| + run > cap - COPY_LENGTH || p + run > |inp| - COPY_LENGTH {
      if p + run == |inp| {
        LastRunOf(inp, ip);
        s := Sequence(inp[p..p + run], 0, 0);
      }
    } else if Word16(inp[p + run], inp[p + run + 1]) > 0 {
      var (m, q) := ReadLength(inp, p + run + 2, token % 16);
      Token(token);
      s := SequenceOf(inp, ip, token / 16, token % 16, run, p, m, q);
      end := q;
    }
  }

  /** The input from ip on is a run of these literals. */
  predicate EndsWith(inp: seq<byte>, ip: nat, literals: seq<byte>, low: nat) {
    low <= RUN_MASK && ip <= |inp| && inp[ip..] == EncodeRun(literals, low)
  }

  ghost predicate Takes(inp: seq<byte>, ip: nat, out: seq<byte>, s: Sequence, end: nat, out': seq<byte>) {
    && ValidSequence(s, |out|) && Reads(inp, ip, s, end)
    && out' == CopyMatch(out + s.literals, s.offset, s.matchLength)
  }

  lemma LastRunOf(inp: seq<byte>, ip: nat)
    requires ip < |inp|
    requires var (run, p) := ReadLength(inp, ip + 1, inp[ip] / 16);
             p + run == |inp|
    ensures var (run, p) := ReadLength(inp, ip + 1, inp[ip] / 16);
            EndsWith(inp, ip, inp[p..p + run], inp[ip] % 16)
  {
    hide EncodeRun, LengthTail;
    LongRunEnds(inp, ip + 1, inp[ip] / 16);
    var (run, p) := ReadLength(inp, ip + 1, inp[ip] / 16);
    Token(inp[ip]);
    RunOf(inp, ip, inp[ip] / 16, inp[ip] % 16, run, p);
    assert inp[ip..] == inp[ip..ip + |EncodeRun(inp[p..p + run], inp[ip] % 16)|];
  }

  lemma LongRunEnds(inp: seq<byte>, ip: nat, nibble: nat)
    requires ip <= |inp| && nibble <= RUN_MASK
    requires var (run, p) := ReadLength(inp, ip, nibble); p + run <= |inp|
    ensures Terminated(inp, ip, nibble)
  {
    if nibble == RUN_MASK { ExtensionOf(inp, ip, RUN_MASK); }
  }

  // ---- All of the input ----

  /** How the input ends behind the sequences ss: with a run, behind the last match, or within that match's length. */
  ghost predicate IsWritten(inp: seq<byte>, ss: seq<Sequence>, last: seq<byte>, full: bool)
    requires ValidSequences(ss)
  {
    var n := |EncodeSequences(ss)|;
    || (n <= |inp| && inp[..n] == EncodeSequences(ss) && exists low: nat :: EndsWith(inp, n, last, low))
    || (last == [] && n <= |inp| && inp[..n] == EncodeSequences(ss) && (n == |inp| || full))
    || (last == [] && CutWithin(inp, ss))
  }

  ghost predicate CutWithin(inp: seq<byte>, ss: seq<Sequence>)
    requires ValidSequences(ss)
  {
    |ss| > 0 && var front, s := ss[..|ss| - 1], ss[|ss| - 1];
    var n := |EncodeSequences(front)|;
    n <= |inp| && inp[..n] == EncodeSequences(front) && At(inp, n, EncodeRun(s.literals, RUN_MASK))
    && CutShort(inp, n + |EncodeRun(s.literals, RUN_MASK)|, s.offset, s.matchLength - MIN_MATCH)
  }

  lemma OneMoreSequence(ss: seq<Sequence>, s: Sequence)
    requires ValidSequences(ss) && ValidSequence(s, OutputLength(ss))
    ensures ValidSequences(ss + [s]) && (ss + [s])[..|ss|] == ss
    ensures Meaning(ss + [s]) == CopyMatch(Meaning(ss) + s.literals, s.offset, s.matchLength)
    ensures EncodeSequences(ss + [s]) == EncodeSequences(ss) + EncodeSequence(s)
  {
    hide EncodeSequence, CopyMatch;
    assert (ss + [s])[..|ss|] == ss;
  }

  /** A sequence behind the others, with the input used up to `end`. */
  lemma TakesOneMore(inp: seq<byte>, ss: seq<Sequence>, s: Sequence, end: nat, out': seq<byte>, full: bool)
    requires ValidSequences(ss) && |EncodeSequences(ss)| <= |inp| && inp[..|EncodeSequences(ss)|] == EncodeSequences(ss)
    requires Takes(inp, |EncodeSequences(ss)|, Meaning(ss), s, end, out')
    ensures ValidSequences(ss + [s]) && Meaning(ss + [s]) == out'
    ensures (end == |EncodeSequences(ss + [s])| && end <= |inp| && inp[..end] == EncodeSequences(ss + [s]))
         || (end == |inp| && CutWithin(inp, ss + [s]))
    ensures end == |inp| || full ==> IsWritten(inp, ss + [s], [], full)
  {
    hide EncodeSequence, CopyMatch, EncodeSequences, Meaning, CutShort, EncodeRun;
    OneMoreSequence(ss, s);
    var n := |EncodeSequences(ss)|;
    if At(inp, n, EncodeSequence(s)) && end == n + |EncodeSequence(s)| {
      assert inp[..end] == inp[..n] + inp[n..end];
    }
  }

  lemma {:induction false} AcceptedFrom(inp: seq<byte>, cap: nat, ss: seq<Sequence>)
      returns (all: seq<Sequence>, last: seq<byte>)
    requires ValidSequences(ss) && |EncodeSequences(ss)| <= |inp| && inp[..|EncodeSequences(ss)|] == EncodeSequences(ss)
    requires DecodeFrom(inp, |EncodeSequences(ss)|, Meaning(ss), cap).Decoded?
    ensures ValidSequences(all)
    ensures var r := DecodeFrom(inp, |EncodeSequences(ss)|, Meaning(ss), cap).out;
            r == Meaning(all) + last && IsWritten(inp, all, last, |r| == cap)
    decreases |inp| - |EncodeSequences(ss)|
  {
    hide EncodeSequences, Meaning, EncodeRun, Takes, CutWithin, DecodeStep;
    var ip, out := |EncodeSequences(ss)|, Meaning(ss);
    all, last := ss, [];
    if ip == |inp| {
      assert out + [] == out;
    } else {
      var s, end := StepOf(inp, ip, out, cap);
      match DecodeStep(inp, ip, out, cap) {
        case Continue(ip', out') =>
          TakesOneMore(inp, ss, s, ip', out', false);
          if ip' == |inp| {
            all := ss + [s];
            assert out' + [] == out';
          } else {
            all, last := AcceptedFrom(inp, cap, ss + [s]);
          }
        case Stop(Decoded(out')) =>
          if Takes(inp, ip, out, s, end, out') && |out'| == cap {
            TakesOneMore(inp, ss, s, end, out', true);
            all := ss + [s];
            assert out' + [] == out';
          } else {
            last := s.literals;
          }
        case _ =>
      }
    }
  }

  /** Whatever the decoder accepts stands in the input as sequences and a last run, and it gives what these mean. */
  lemma DecodedIsBlock(inp: seq<byte>, cap: nat) returns (ss: seq<Sequence>, last: seq<byte>)
    requires Decode(inp, cap).Decoded?
    ensures ValidSequences(ss) && Decode(inp, cap).out == Meaning(ss) + last && |Decode(inp, cap).out| <= cap
    ensures IsWritten(inp, ss, last, |Decode(inp, cap).out| == cap)
  {
    assert inp[..0] == [];
    ss, last := AcceptedFrom(inp, cap, []);
    DecodedFits(inp, 0, [], cap);
  }

  lemma {:induction false} DecodedFits(inp: seq<byte>, ip: nat, out: seq<byte>, cap: nat)
    requires ip <= |inp| && |out| <= cap && DecodeFrom(inp, ip, out, cap).Decoded?
    ensures |DecodeFrom(inp, ip, out, cap).out| <= cap
    decreases |inp| - ip
  {
    if ip < |inp| && DecodeStep(inp, ip, out, cap).Continue? {
      DecodedFits(inp, DecodeStep(inp, ip, out, cap).ip, DecodeStep(inp, ip, out, cap).out, cap);
    }
  }
}
