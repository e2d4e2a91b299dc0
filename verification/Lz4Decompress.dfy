/** The copy macros of lz4.cc and its two decoders, on a memory of bytes. */
module Lz4Decompress {
  import opened Bytes
  import opened Lz4Format

  /** Copy n bytes of the input to `op`, 8 at a time: exact on the first n, free on the rest of the last packet. */
  method WildCopyIn(inp: seq<byte>, ip: nat, dest: array<byte>, op: nat, n: nat)
    requires ip + Packets(n) <= |inp| && op + Packets(n) <= dest.Length
    modifies dest
    ensures dest[..op + n] == old(dest[..op]) + inp[ip..ip + n]
    ensures forall k | op + Packets(n) <= k < dest.Length :: dest[k] == old(dest[k])
  {
    var done := 0;
    while true
      invariant done % 8 == 0 && done + 8 <= Packets(n)
      invariant forall k | 0 <= k < op :: dest[k] == old(dest[k])
      invariant forall k | op <= k < op + done :: dest[k] == inp[ip + k - op]
      invariant forall k | op + Packets(n) <= k < dest.Length :: dest[k] == old(dest[k])
      decreases Packets(n) - done
    {
      forall i | 0 <= i < 8 { dest[op + done + i] := inp[ip + done + i]; }
      done := done + 8;
      if done >= n { break; }
    }
  }

  /** s repeats with the given period from `start` to its end. */
  predicate Periodic(s: seq<byte>, start: nat, period: nat) {
    period <= start <= |s| && forall k | start <= k < |s| :: s[k] == s[k - period]
  }

  lemma {:induction false} PeriodicSteps(s: seq<byte>, start: nat, period: nat, k: nat, m: nat)
    requires 1 <= period && Periodic(s, start, period)
    requires k < |s| && start + m * period <= k + period
    ensures 0 <= k - m * period
    ensures s[k] == s[k - m * period]
  {
    if m > 0 {
      assert m * period == (m - 1) * period + period;
      PeriodicSteps(s, start, period, k, m - 1);
    } else {
      assert m * period == 0;
    }
  }

  /**
   One word copy, from a distance that is a multiple of the period and at least the word's width: it
   extends the periodic run, as a byte-by-byte copy from `period` back would.
   */
  lemma WordCopyKeepsPeriod(s: seq<byte>, t: seq<byte>, start: nat, period: nat, distance: nat, m: nat, width: nat)
    requires 1 <= period && Periodic(s, start, period)
    requires distance == m * period && 1 <= m && width <= distance
    requires start + distance <= |s| + period
    requires |t| == |s| + width && s <= t
    requires forall k | |s| <= k < |t| :: t[k] == s[k - distance]
    ensures Periodic(t, start, period)
  {
    forall k | start <= k < |t| ensures t[k] == t[k - period] {
      if k < |s| {
        assert t[k] == s[k] == s[k - period];
      } else {
        assert t[k] == s[k - distance];
        assert (m - 1) * period == distance - period;
        if k - period < |s| {
          PeriodicSteps(s, start, period, k - period, m - 1);
        } else {
          assert t[k - period] == s[k - period - distance];
        }
      }
    }
  }

  /** A word store through pointers: the whole word is read before any of it is written. */
  method CopyWord(dest: array<byte>, from: nat, to: nat, width: nat)
    requires from + width <= dest.Length && to + width <= dest.Length
    modifies dest
    ensures forall k | to <= k < to + width :: dest[k] == old(dest[k - to + from])
    ensures forall k | 0 <= k < dest.Length && !(to <= k < to + width) :: dest[k] == old(dest[k])
  {
    forall k | to <= k < to + width { dest[k] := dest[k - to + from]; }
  }

  /** A word copy inside a periodic run, stated on the run. */
  method ExtendRun(dest: array<byte>, from: nat, to: nat, width: nat, ghost start: nat, ghost period: nat, ghost m: nat)
    requires from + width <= dest.Length && to + width <= dest.Length
    requires period >= 1 ==>
      && Periodic(dest[..to], start, period)
      && to - from == m * period && 1 <= m && from + width <= to && start <= from + period
    modifies dest
    ensures dest[..to] == old(dest[..to])
    ensures period >= 1 ==> Periodic(dest[..to + width], start, period)
    ensures forall k | to + width <= k < dest.Length :: dest[k] == old(dest[k])
  {
    ghost var s := dest[..to];
    CopyWord(dest, from, to, width);
    if period >= 1 {
      WordCopyKeepsPeriod(s, dest[..to + width], start, period, to - from, m, width);
    }
  }

  const DEC: seq<nat> := [0, 3, 2, 3, 0, 0, 0, 0]
  const DEC2: seq<int> := [0, 0, 0, -1, 0, 1, 2, 3]

  /** How many periods back the source pointer ends up after the adjustments for a short offset. */
  function Stride(offset: nat): nat {
    if offset == 1 then 8 else if offset == 2 then 4 else if offset == 3 then 3
    else if offset < 8 then 2 else 1
  }

  /**
   The first eight bytes of a match. For an offset below 8 the source pointer is moved back by the two
   tables, so that afterwards it lies a multiple of the offset, and at least 8, behind the output.
   */
  method CopyFirst(dest: array<byte>, op: nat, offset: nat) returns (ref: nat)
    requires offset <= op && op + 8 <= dest.Length
    modifies dest
    ensures dest[..op] == old(dest[..op])
    ensures forall k | op + 8 <= k < dest.Length :: dest[k] == old(dest[k])
    ensures ref <= op + 8
    ensures offset >= 1 ==> Periodic(dest[..op + 8], op, offset)
    ensures offset >= 1 ==> op + 8 - ref == Stride(offset) * offset && 8 <= op + 8 - ref && op <= ref + offset
  {
    assert offset >= 1 ==> Periodic(dest[..op], op, offset);
    hide Periodic;
    var o, r := op, op - offset;
    if o - r < 8 {
      var dec2 := DEC2[o - r];
      for i := 0 to 4
        invariant o == op + i && r == o - offset
        invariant dest[..op] == old(dest[..op])
        invariant offset >= 1 ==> Periodic(dest[..o], op, offset)
        invariant forall k | op + 8 <= k < dest.Length :: dest[k] == old(dest[k])
      {
        ExtendRun(dest, r, o, 1, op, offset, 1);
        o, r := o + 1, r + 1;
      }
      r := r - DEC[o - r];
      ExtendRun(dest, r, o, 4, op, offset, if offset == 1 then 4 else if offset <= 3 then 2 else 1);
      o := o + 4;
      ref := r - dec2;
    } else {
      ExtendRun(dest, r, o, 8, op, offset, 1);
      ref := r + 8;
    }
  }

  /** The packets after the first eight bytes, while the output pointer is below e. */
  method CopyPackets(dest: array<byte>, from: nat, to: nat, e: int, ghost start: nat, ghost period: nat, ghost m: nat)
      returns (r: nat, o: nat)
    requires from <= to && to <= dest.Length && e + 8 <= dest.Length
    requires start <= to
    requires period >= 1 ==>
      && Periodic(dest[..to], start, period)
      && to - from == m * period && 1 <= m && from + 8 <= to && start <= from + period
    modifies dest
    ensures dest[..start] == old(dest[..start])
    ensures o >= to && o >= e && o - r == to - from && o <= dest.Length
    ensures o <= to || o < e + 8
    ensures period >= 1 ==> Periodic(dest[..o], start, period)
    ensures forall k | o <= k < dest.Length :: dest[k] == old(dest[k])
  {
    r, o := from, to;
    if o < e {
      while true
        invariant to <= o < e && o - r == to - from
        invariant dest[..start] == old(dest[..start])
        invariant period >= 1 ==> Periodic(dest[..o], start, period)
        invariant forall k | o <= k < dest.Length :: dest[k] == old(dest[k])
        decreases e - o
      {
        ExtendRun(dest, r, o, 8, start, period, m);
        assert dest[..start] == dest[..o][..start];
        r, o := r + 8, o + 8;
        if o >= e { break; }
      }
    }
  }

  /** The bytes after the last packet, one at a time, up to e. */
  method CopyBytes(dest: array<byte>, from: nat, to: nat, e: nat, ghost start: nat, ghost period: nat, ghost m: nat)
      returns (o: nat)
    requires from <= to && start <= to <= dest.Length && e <= dest.Length
    requires period >= 1 ==>
      && Periodic(dest[..to], start, period)
      && to - from == m * period && 1 <= m && from + 8 <= to && start <= from + period
    modifies dest
    ensures dest[..start] == old(dest[..start])
    ensures o == if to < e then e else to
    ensures period >= 1 ==> Periodic(dest[..o], start, period)
    ensures forall k | o <= k < dest.Length :: dest[k] == old(dest[k])
  {
    var r := from;
    o := to;
    while o < e
      invariant r <= o && to <= o <= dest.Length && o - r == to - from
      invariant o <= e || o == to
      invariant dest[..start] == old(dest[..start])
      invariant period >= 1 ==> Periodic(dest[..o], start, period)
      invariant forall k | o <= k < dest.Length :: dest[k] == old(dest[k])
    {
      ExtendRun(dest, r, o, 1, start, period, m);
      assert dest[..start] == dest[..o][..start];
      o, r := o + 1, r + 1;
    }
  }

  /** A run with the period of a match is the match. */
  lemma RunIsMatch(before: seq<byte>, run: seq<byte>, offset: nat, n: nat)
    requires 1 <= offset && Periodic(run, |before|, offset)
    requires |before| + n <= |run| && before == run[..|before|]
    ensures run[..|before| + n] == CopyMatch(before, offset, n)
  {
    CopyMatchUnique(before, offset, n, run[..|before| + n]);
  }

  /**
   Copy a match of `length` + 4 bytes. Packets may run past the end of the match, but never to `oend`;
   close to `oend` the copy finishes byte by byte.
   */
  method CopyMatchFast(dest: array<byte>, op0: nat, offset: nat, length: nat, oend: nat) returns (ok: bool, op: nat)
    requires offset <= op0 && op0 + COPY_LENGTH <= oend <= dest.Length
    modifies dest
    ensures ok <==> op0 + length + MIN_MATCH <= oend
    ensures ok ==> op == op0 + length + MIN_MATCH
    ensures ok && offset >= 1 ==> dest[..op] == CopyMatch(old(dest[..op0]), offset, length + MIN_MATCH)
    ensures forall k | oend <= k < dest.Length :: dest[k] == old(dest[k])
  {
    var ref := CopyFirst(dest, op0, offset);
    op := op0 + 8;
    var cpy := op + length - 4;
    ok := cpy <= oend;
    if ok {
      if cpy > oend - COPY_LENGTH {
        ref, op := CopyPackets(dest, ref, op, oend - COPY_LENGTH, op0, offset, Stride(offset));
        op := CopyBytes(dest, ref, op, cpy, op0, offset, Stride(offset));
      } else {
        ref, op := CopyPackets(dest, ref, op, cpy, op0, offset, Stride(offset));
      }
      if offset >= 1 {
        FastIsMatch(dest, old(dest[..op0]), op, offset, length + MIN_MATCH);
      }
      op := cpy;
    }
  }

  lemma FastIsMatch(dest: array<byte>, before: seq<byte>, op: nat, offset: nat, n: nat)
    requires 1 <= offset && |before| + n <= op <= dest.Length && before == dest[..|before|]
    requires Periodic(dest[..op], |before|, offset)
    ensures dest[..|before| + n] == CopyMatch(before, offset, n)
  {
    RunIsMatch(before, dest[..op], offset, n);
    assert dest[..|before| + n] == dest[..op][..|before| + n];
  }

  // ---- LZ4_uncompress_unknownOutputSize ----

  /** The length loops: a nibble of 15 is followed by length bytes. */
  method ReadLengthBytes(inp: seq<byte>, ip0: nat, nibble: nat) returns (length: nat, ip: nat)
    requires ip0 <= |inp|
    ensures (length, ip) == ReadLength(inp, ip0, nibble)
  {
    length, ip := nibble, ip0;
    if length == RUN_MASK {
      var s: byte := 255;
      while ip < |inp| && s == 255
        invariant ip <= |inp|
        invariant s == 255 ==> ReadExtension(inp, ip, length) == ReadLength(inp, ip0, nibble)
        invariant s != 255 ==> (length, ip) == ReadLength(inp, ip0, nibble)
      {
        s := inp[ip];
        ip, length := ip + 1, length + s;
      }
    }
  }

  /** An exact copy of n bytes of the input. */
  method CopyIn(inp: seq<byte>, ip: nat, dest: array<byte>, op: nat, n: nat)
    requires ip + n <= |inp| && op + n <= dest.Length
    modifies dest
    ensures dest[..op + n] == old(dest[..op]) + inp[ip..ip + n]
    ensures forall k | op + n <= k < dest.Length :: dest[k] == old(dest[k])
  {
    forall k | op <= k < op + n { dest[k] := inp[ip + k - op]; }
  }

  /** How far one pass of a decoder's main loop got. */
  datatype Pass = Returned(r: int) | Next(ip: nat, op: nat)

  /** What a pass owes to the reference step. */
  predicate AgreesUnknown(pass: Pass, memory: seq<byte>, step: Step) {
    match step
    case Stop(Decoded(out)) => pass == Returned(|out|) && out <= memory
    case Stop(Failed(at)) => pass == Returned(-(at as int))
    case Stop(ZeroOffset) => true
    case Continue(ip, out) => pass == Next(ip, |out|) && out <= memory
  }

  /** The second half of a pass: offset and match. */
  method MatchPass(inp: seq<byte>, q: nat, nibble: nat, dest: array<byte>, op: nat, cap: nat) returns (pass: Pass)
    requires q + 2 <= |inp| && op + COPY_LENGTH <= cap <= dest.Length
    modifies dest
    ensures AgreesUnknown(pass, dest[..], DecodeMatch(inp, q, nibble, old(dest[..op]), cap))
    ensures pass.Next? ==> q < pass.ip <= |inp| && pass.op <= cap
    ensures pass.Returned? ==> -|inp| <= pass.r <= cap
    ensures forall k | cap <= k < dest.Length :: dest[k] == old(dest[k])
  {
    var offset := Word16(inp[q], inp[q + 1]);
    if offset > op { return Returned(-(q + 2)); }
    var length, ip := ReadLengthBytes(inp, q + 2, nibble);
    var ok, op' := CopyMatchFast(dest, op, offset, length, cap);
    if !ok { return Returned(-(ip as int)); }
    pass := if op' == cap then Returned(op') else Next(ip, op');
    assert dest[..op'] <= dest[..];
  }

  /** One pass of the main loop. */
  method UnknownPass(inp: seq<byte>, ip0: nat, dest: array<byte>, op: nat, cap: nat) returns (pass: Pass)
    requires ip0 < |inp| && op <= cap <= dest.Length
    modifies dest
    ensures AgreesUnknown(pass, dest[..], DecodeStep(inp, ip0, old(dest[..op]), cap))
    ensures pass.Next? ==> ip0 < pass.ip <= |inp| && pass.op <= cap
    ensures pass.Returned? ==> -|inp| <= pass.r <= cap
    ensures forall k | cap <= k < dest.Length :: dest[k] == old(dest[k])
  {
    hide ReadLength, DecodeMatch;
    var token := inp[ip0];
    var length, ip := ReadLengthBytes(inp, ip0 + 1, token / 16);
    var cpy := op + length;
    if cpy > cap - COPY_LENGTH || ip + length > |inp| - COPY_LENGTH {
      if cpy > cap { return Returned(-(ip as int)); }
      if ip + length > |inp| { return Returned(-(ip as int)); }
      CopyIn(inp, ip, dest, op, length);
      if ip + length < |inp| { return Returned(-(ip + length)); }
      assert dest[..cpy] <= dest[..];
      return Returned(cpy);
    }
    WildCopyIn(inp, ip, dest, op, length);
    pass := MatchPass(inp, ip + length, token % 16, dest, cpy, cap);
  }

  /**
   For every input whatever: no byte outside the input is read, no byte at or after `cap` is written, and
   unless a match has offset 0 the result and the bytes written are those of the byte-at-a-time decoder.
   */
  method UncompressUnknownOutputSize(inp: seq<byte>, dest: array<byte>, cap: nat) returns (r: int)
    requires cap <= dest.Length
    modifies dest
    ensures -|inp| <= r <= cap
    ensures match Decode(inp, cap)
            case Decoded(out) => r == |out| && dest[..r] == out
            case Failed(at) => r == -(at as int)
            case ZeroOffset => true
    ensures forall k | cap <= k < dest.Length :: dest[k] == old(dest[k])
  {
    hide DecodeStep;
    var ip, op := 0, 0;
    ghost var defined := true;
    while ip < |inp|
      invariant ip <= |inp| && op <= cap
      invariant defined ==> DecodeFrom(inp, ip, dest[..op], cap) == Decode(inp, cap)
      invariant !defined ==> Decode(inp, cap) == ZeroOffset
      invariant forall k | cap <= k < dest.Length :: dest[k] == old(dest[k])
      decreases |inp| - ip
    {
      ghost var step := DecodeStep(inp, ip, dest[..op], cap);
      var pass := UnknownPass(inp, ip, dest, op, cap);
      defined := defined && step != Stop(ZeroOffset);
      match pass {
        case Returned(n) => return n;
        case Next(ip', op') =>
          assert defined ==> dest[..op'] == step.out;
          ip, op := ip', op';
      }
    }
    r := op;
  }

  // ---- LZ4_uncompress ----

  method ReadLengthUnchecked(inp: seq<byte>, ip0: nat, nibble: nat) returns (length: nat, ip: nat)
    requires Terminated(inp, ip0, nibble)
    ensures (length, ip) == ReadLength(inp, ip0, nibble)
  {
    length, ip := nibble, ip0;
    if length == RUN_MASK {
      while inp[ip] == 255
        invariant Terminated(inp, ip, RUN_MASK)
        invariant ReadExtension(inp, ip, length) == ReadLength(inp, ip0, nibble)
        decreases |inp| - ip
      {
        ip, length := ip + 1, length + 255;
      }
      ip, length := ip + 1, length + inp[ip];
    }
  }

  predicate AgreesKnown(pass: Pass, memory: seq<byte>, step: KnownStep) {
    match step
    case KnownStop(Finished(read, out)) => pass == Returned(read) && out <= memory
    case KnownStop(Broken(at)) => pass == Returned(-(at as int))
    case KnownStop(_) => true
    case KnownContinue(ip, out) => pass == Next(ip, |out|) && out <= memory
  }

  method KnownMatchPass(inp: seq<byte>, q: nat, nibble: nat, dest: array<byte>, op: nat, osize: nat) returns (pass: Pass)
    requires op + COPY_LENGTH <= osize <= dest.Length
    requires KnownMatch(inp, q, nibble, dest[..op], osize) != KnownStop(ReadsPast)
    modifies dest
    ensures AgreesKnown(pass, dest[..], KnownMatch(inp, q, nibble, old(dest[..op]), osize))
    ensures pass.Next? ==> q < pass.ip <= |inp| && pass.op <= osize
    ensures forall k | osize <= k < dest.Length :: dest[k] == old(dest[k])
  {
    var offset := Word16(inp[q], inp[q + 1]);
    if offset > op { return Returned(-(q as int + 2)); }
    var length, ip := ReadLengthUnchecked(inp, q + 2, nibble);
    var ok, op' := CopyMatchFast(dest, op, offset, length, osize);
    if !ok { return Returned(-(ip as int)); }
    pass := if op' == osize then Returned(ip) else Next(ip, op');
    assert dest[..op'] <= dest[..];
  }

  method KnownPass(inp: seq<byte>, ip0: nat, dest: array<byte>, op: nat, osize: nat) returns (pass: Pass)
    requires op <= osize <= dest.Length
    requires KnownDecodeStep(inp, ip0, dest[..op], osize) != KnownStop(ReadsPast)
    modifies dest
    ensures AgreesKnown(pass, dest[..], KnownDecodeStep(inp, ip0, old(dest[..op]), osize))
    ensures pass.Next? ==> ip0 < pass.ip <= |inp| && pass.op <= osize
    ensures forall k | osize <= k < dest.Length :: dest[k] == old(dest[k])
  {
    hide ReadLength, KnownMatch;
    var token := inp[ip0];
    var length, ip := ReadLengthUnchecked(inp, ip0 + 1, token / 16);
    var cpy := op + length;
    if cpy > osize - COPY_LENGTH {
      if cpy > osize { return Returned(-(ip as int)); }
      CopyIn(inp, ip, dest, op, length);
      assert dest[..cpy] <= dest[..];
      return Returned(ip + length);
    }
    WildCopyIn(inp, ip, dest, op, length);
    pass := KnownMatchPass(inp, ip + length, token % 16, dest, cpy, osize);
  }

  /**
   For every input on which the decoder stays inside the input and meets no offset 0: the result and the
   bytes written are those of the byte-at-a-time decoder, and nothing is written at or after `osize`.
   */
  method Uncompress(inp: seq<byte>, dest: array<byte>, osize: nat) returns (r: int)
    requires osize <= dest.Length
    requires KnownDecode(inp, osize).Finished? || KnownDecode(inp, osize).Broken?
    modifies dest
    ensures match KnownDecode(inp, osize)
            case Finished(read, out) => r == read && out <= dest[..]
            case Broken(at) => r == -(at as int)
    ensures forall k | osize <= k < dest.Length :: dest[k] == old(dest[k])
  {
    hide KnownDecodeStep;
    var ip, op := 0, 0;
    while true
      invariant ip <= |inp| && op <= osize
      invariant KnownDecodeFrom(inp, ip, dest[..op], osize) == KnownDecode(inp, osize)
      invariant forall k | osize <= k < dest.Length :: dest[k] == old(dest[k])
      decreases |inp| - ip
    {
      ghost var step := KnownDecodeStep(inp, ip, dest[..op], osize);
      var pass := KnownPass(inp, ip, dest, op, osize);
      match pass {
        case Returned(n) => return n;
        case Next(ip', op') =>
          assert dest[..op'] == step.out;
          ip, op := ip', op';
      }
    }
  }
}
