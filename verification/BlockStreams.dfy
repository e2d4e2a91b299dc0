/**
 The LZ4 block streams of block_wrappers.cc. The writer collects 64 KiB blocks and writes each one, compressed,
 behind its length; the reader takes them apart again. Both hand out pieces of a buffer with Next and take
 unused bytes back with BackUp.
 */
module BlockStreams {
  import opened Bytes
  import opened Lz4Format
  import Lz4Compress
  import Lz4Decompress

  const BLOCK_SIZE := 64 * 1024

  // ---- Lengths as base-128 varints ----

  function EncodeVarint(n: nat): seq<byte> {
    if n < 128 then [n] else [128 + n % 128] + EncodeVarint(n / 128)
  }

  datatype Varint = Truncated | Varint(value: nat, next: nat)

  /** The number in at most k bytes. */
  function ReadVarint(s: seq<byte>, i: nat, k: nat): (r: Varint)
    requires i <= |s|
    ensures r.Varint? ==> i < r.next <= |s|
    decreases k
  {
    if k == 0 || i == |s| then Truncated
    else if s[i] < 128 then Varint(s[i], i + 1)
    else match ReadVarint(s, i + 1, k - 1)
         case Truncated => Truncated
         case Varint(v, next) => Varint(s[i] as int - 128 + 128 * v, next)
  }

  /** ReadVarint32: of ten bytes at most, the low 32 bits. */
  function ReadVarint32(s: seq<byte>, i: nat): (r: Varint)
    requires i <= |s|
    ensures r.Varint? ==> i < r.next <= |s|
  {
    match ReadVarint(s, i, 10)
    case Truncated => Truncated
    case Varint(v, next) => Varint(v % 0x1_0000_0000, next)
  }

  lemma {:induction false} ReadVarintBytes(s: seq<byte>, i: nat, n: nat, k: nat)
    requires At(s, i, EncodeVarint(n)) && |EncodeVarint(n)| <= k
    ensures ReadVarint(s, i, k) == Varint(n, i + |EncodeVarint(n)|)
    decreases n
  {
    assert s[i] == s[i..i + |EncodeVarint(n)|][0];
    if n >= 128 {
      AtConcat(s, i, [128 + n % 128], EncodeVarint(n / 128));
      ReadVarintBytes(s, i + 1, n / 128, k - 1);
    }
  }

  lemma VarintLength(n: nat)
    requires n < 0x1_0000_0000
    ensures |EncodeVarint(n)| <= 5
  {
    var a := n / 128;
    var b := a / 128;
    var c := b / 128;
    assert |EncodeVarint(c)| <= 2 by { assert c / 128 < 128; }
    assert |EncodeVarint(b)| <= 3;
    assert |EncodeVarint(a)| <= 4;
  }

  lemma VarintFirst(n: nat, low: nat, high: nat)
    requires n == low + 0x80 * high && low < 0x80
    ensures EncodeVarint(n) == if high == 0 then [low] else [0x80 + low] + EncodeVarint(high)
  {
  }

  /** Seven bits in a byte, the low ones first, and the top bit on all but the last: 300 is AC 02. */
  lemma VarintBytes(a: nat, b: nat, c: nat)
    requires a < 0x80 && b < 0x80 && c < 0x80
    ensures EncodeVarint(a) == [a]
    ensures b > 0 ==> EncodeVarint(a + 0x80 * b) == [0x80 + a, b]
    ensures c > 0 ==> EncodeVarint(a + 0x80 * (b + 0x80 * c)) == [0x80 + a, 0x80 + b, c]
    ensures EncodeVarint(300) == [0xAC, 0x02]
  {
    hide EncodeVarint;
    VarintFirst(a, a, 0);
    VarintFirst(b, b, 0);
    VarintFirst(c, c, 0);
    VarintFirst(a + 0x80 * b, a, b);
    VarintFirst(b + 0x80 * c, b, c);
    VarintFirst(a + 0x80 * (b + 0x80 * c), a, b + 0x80 * c);
    VarintFirst(2, 2, 0);
    VarintFirst(300, 0x2C, 2);
  }

  lemma ReadEncodedVarint(s: seq<byte>, i: nat, n: nat)
    requires At(s, i, EncodeVarint(n)) && n < 0x1_0000_0000
    ensures ReadVarint32(s, i) == Varint(n, i + |EncodeVarint(n)|)
  {
    VarintLength(n);
    ReadVarintBytes(s, i, n, 10);
  }

  // ---- Compressed blocks in a row ----

  /** The bytes a compressed block stands for; it must stand for some, and fit the reader's buffers. */
  predicate Sound(c: seq<byte>) {
    |c| <= 2 * BLOCK_SIZE && Decode(c, BLOCK_SIZE).Decoded? && |Decode(c, BLOCK_SIZE).out| <= BLOCK_SIZE
  }

  predicate AllSound(blocks: seq<seq<byte>>) {
    forall i | 0 <= i < |blocks| :: Sound(blocks[i])
  }

  function Frame(c: seq<byte>): seq<byte> {
    EncodeVarint(|c|) + c
  }

  function Frames(blocks: seq<seq<byte>>): seq<byte> {
    if |blocks| == 0 then [] else Frames(blocks[..|blocks| - 1]) + Frame(blocks[|blocks| - 1])
  }

  /** What a block stands for; a corrupt one stands for nothing. */
  function Meaning(c: seq<byte>): seq<byte> {
    match Decode(c, BLOCK_SIZE)
    case Decoded(out) => out
    case Failed(_) => []
    case ZeroOffset => []
  }

  /** What the compressed blocks stand for, one after the other. */
  function Content(blocks: seq<seq<byte>>): seq<byte> {
    if |blocks| == 0 then [] else Content(blocks[..|blocks| - 1]) + Meaning(blocks[|blocks| - 1])
  }

  lemma FramesStep(blocks: seq<seq<byte>>, k: nat)
    requires k < |blocks|
    ensures Frames(blocks[..k + 1]) == Frames(blocks[..k]) + Frame(blocks[k])
    ensures Content(blocks[..k + 1]) == Content(blocks[..k]) + Meaning(blocks[k])
  {
    assert blocks[..k + 1][..k] == blocks[..k];
  }

  lemma {:induction false} FrameAt(blocks: seq<seq<byte>>, k: nat)
    requires k < |blocks|
    ensures At(Frames(blocks), |Frames(blocks[..k])|, Frame(blocks[k]))
    decreases |blocks|
  {
    var n := |blocks| - 1;
    if k == n {
      assert At(Frames(blocks), 0, Frames(blocks));
      AtConcat(Frames(blocks), 0, Frames(blocks[..n]), Frame(blocks[n]));
    } else {
      assert blocks[..n][..k] == blocks[..k];
      FrameAt(blocks[..n], k);
      AtExtend(Frames(blocks[..n]), Frame(blocks[n]), |Frames(blocks[..k])|, Frame(blocks[k]));
    }
  }

  lemma {:induction false} ContentPrefix(blocks: seq<seq<byte>>, k: nat)
    requires k <= |blocks|
    ensures Content(blocks[..k]) <= Content(blocks)
    decreases |blocks|
  {
    if k == |blocks| {
      assert blocks[..k] == blocks;
    } else {
      assert blocks[..|blocks| - 1][..k] == blocks[..k];
      ContentPrefix(blocks[..|blocks| - 1], k);
    }
  }

  lemma AddBlock(blocks: seq<seq<byte>>, c: seq<byte>)
    requires AllSound(blocks) && Sound(c)
    ensures AllSound(blocks + [c])
    ensures Frames(blocks + [c]) == Frames(blocks) + Frame(c)
    ensures Content(blocks + [c]) == Content(blocks) + Meaning(c)
  {
    assert (blocks + [c])[..|blocks|] == blocks;
  }

  // ---- Any stream, taken apart ----

  datatype Chunk = End | Chunk(c: seq<byte>, next: nat)

  /** The next block: a length that is not too large, and as many bytes. */
  function NextChunk(sub: seq<byte>, pos: nat): (r: Chunk)
    requires pos <= |sub|
    ensures r.Chunk? ==> pos < r.next <= |sub|
  {
    match ReadVarint32(sub, pos)
    case Truncated => End
    case Varint(n, start) =>
      if n > 2 * BLOCK_SIZE || start + n > |sub| then End else Chunk(sub[start..start + n], start + n)
  }

  function Chunks(sub: seq<byte>, pos: nat): seq<seq<byte>>
    requires pos <= |sub|
    decreases |sub| - pos
  {
    match NextChunk(sub, pos)
    case End => []
    case Chunk(c, next) => [c] + Chunks(sub, next)
  }

  /** The decoder's output is determined: no block has a match of offset 0. */
  ghost predicate Determined(blocks: seq<seq<byte>>) {
    forall i | 0 <= i < |blocks| :: Decode(blocks[i], BLOCK_SIZE) != ZeroOffset
  }

  lemma ChunkAt(blocks: seq<seq<byte>>, k: nat)
    requires k < |blocks| && AllSound(blocks)
    ensures |Frames(blocks[..k])| <= |Frames(blocks)|
    ensures NextChunk(Frames(blocks), |Frames(blocks[..k])|) == Chunk(blocks[k], |Frames(blocks[..k + 1])|)
  {
    hide Content, Decode, ReadVarint32, EncodeVarint;
    var c, pos := blocks[k], |Frames(blocks[..k])|;
    assert Sound(c);
    FrameAt(blocks, k);
    AtConcat(Frames(blocks), pos, EncodeVarint(|c|), c);
    ReadEncodedVarint(Frames(blocks), pos, |c|);
    FramesStep(blocks, k);
  }

  lemma {:induction false} ChunksFrom(blocks: seq<seq<byte>>, k: nat)
    requires k <= |blocks| && AllSound(blocks)
    ensures |Frames(blocks[..k])| <= |Frames(blocks)|
    ensures Chunks(Frames(blocks), |Frames(blocks[..k])|) == blocks[k..]
    decreases |blocks| - k
  {
    hide Content, Sound, Frames, ReadVarint;
    if k == |blocks| {
      assert blocks[..k] == blocks;
    } else {
      ChunkAt(blocks, k);
      ChunksFrom(blocks, k + 1);
    }
  }

  /** A stream of frames is taken apart into its blocks. */
  lemma ChunksOfFrames(blocks: seq<seq<byte>>)
    requires AllSound(blocks)
    ensures Chunks(Frames(blocks), 0) == blocks && Determined(blocks)
  {
    ChunksFrom(blocks, 0);
    assert blocks[..0] == [] && blocks[0..] == blocks;
    assert forall i | 0 <= i < |blocks| :: Sound(blocks[i]);
  }

  // ---- Writing ----

  /** MaxCompressedLength and RawCompress: the block always passes the size check of the caller. */
  method CompressBlock(plain: seq<byte>) returns (c: seq<byte>)
    requires |plain| <= BLOCK_SIZE
    ensures Sound(c) && Decode(c, BLOCK_SIZE) == Decoded(plain)
  {
    hide Decode, ValidBlock, BlockMeaning, Encode, KnownDecode, Lz4Compress.Maximal;
    var compressedData := new byte[Lz4Compress.CompressBound(|plain|)];
    var n, b := Lz4Compress.CompressAny(plain, compressedData);
    c := compressedData[..n];
    assert Decode(c, BLOCK_SIZE) == Decoded(plain);
  }

  class OutputStream {
    var inputBuffer: array?<byte>
    var backedUp: nat
    var byteCount: int
    var sub: seq<byte>
    ghost var blocks: seq<seq<byte>>

    ghost predicate Valid()
      reads this, inputBuffer
    {
      && (inputBuffer != null ==> inputBuffer.Length == BLOCK_SIZE)
      && (inputBuffer == null ==> backedUp == 0)
      && backedUp <= BLOCK_SIZE
      && AllSound(blocks) && sub == Frames(blocks)
      && byteCount == |Written()|
    }

    /** The bytes of the current block that count as written. */
    ghost function Pending(): seq<byte>
      reads this, inputBuffer
      requires inputBuffer != null ==> inputBuffer.Length == BLOCK_SIZE && backedUp <= BLOCK_SIZE
    {
      if inputBuffer == null then [] else inputBuffer[..BLOCK_SIZE - backedUp]
    }

    /** All bytes written so far, in the blocks that left and in the current one. */
    ghost function Written(): seq<byte>
      reads this, inputBuffer
      requires inputBuffer != null ==> inputBuffer.Length == BLOCK_SIZE && backedUp <= BLOCK_SIZE
    {
      Content(blocks) + Pending()
    }

    constructor ()
      ensures Valid() && Written() == [] && inputBuffer == null && sub == []
    {
      inputBuffer, backedUp, byteCount, sub, blocks := null, 0, 0, [], [];
    }

    /** Take back the last `count` bytes. */
    method BackUp(count: int)
      requires Valid()
      requires count > 0 ==> inputBuffer != null && count <= BLOCK_SIZE - backedUp
      modifies this`backedUp, this`byteCount
      ensures Valid()
      ensures Written() == old(Written())[..|old(Written())| - (if count > 0 then count else 0)]
    {
      if count <= 0 { return; }
      backedUp := backedUp + count;
      byteCount := byteCount - count;
    }

    /**
     Send the current block off. Nothing changes in what is written. The buffer is released unless every byte
     of it was backed up: then it stays, and the stream's destructor would not accept it.
     */
    method Flush()
      requires Valid()
      modifies this
      ensures Valid() && Written() == old(Written())
      ensures inputBuffer == null <==> old(inputBuffer == null || backedUp < BLOCK_SIZE)
      ensures inputBuffer != null ==> inputBuffer == old(inputBuffer)
      ensures old(Pending()) == [] ==> sub == old(sub)
      ensures Content(blocks) == Written()
      ensures old(sub) <= sub
    {
      var size := BLOCK_SIZE - backedUp;
      if inputBuffer == null || size == 0 { return; }
      hide Decode, Sound, Content, Frames, EncodeVarint;
      var c := CompressBlock(inputBuffer[..size]);
      AddBlock(blocks, c);
      sub := sub + (EncodeVarint(|c|) + c);
      blocks := blocks + [c];
      backedUp, inputBuffer := 0, null;
    }

    /** Hand out the rest of the current block, or a new block; the caller fills data[offset..offset + size]. */
    method Next() returns (data: array<byte>, offset: nat, size: nat)
      requires Valid()
      modifies this
      ensures Valid()
      ensures data == inputBuffer && offset + size == BLOCK_SIZE && size > 0 && backedUp == 0
      ensures Written()[..|Written()| - size] == old(Written())
      ensures |Written()| == |old(Written())| + size
      ensures data[offset..] == Written()[|Written()| - size..]
      ensures inputBuffer == old(inputBuffer) || fresh(inputBuffer)
      ensures old(sub) <= sub
    {
      hide Content, Frames, AllSound;
      if backedUp > 0 {
        offset, size := BLOCK_SIZE - backedUp, backedUp;
        data := inputBuffer;
        backedUp := 0;
        byteCount := byteCount + size;
        return;
      }
      if inputBuffer != null { Flush(); }
      NewBuffer();
      data, offset, size := inputBuffer, 0, BLOCK_SIZE;
    }

    /** A new block, all of it handed out. */
    method NewBuffer()
      requires Valid() && inputBuffer == null
      modifies this`inputBuffer, this`byteCount
      ensures Valid() && fresh(inputBuffer) && Written() == old(Written()) + inputBuffer[..]
    {
      hide Content, Frames, AllSound;
      inputBuffer := new byte[BLOCK_SIZE];
      byteCount := byteCount + BLOCK_SIZE;
      assert inputBuffer[..BLOCK_SIZE] == inputBuffer[..];
    }
  }

  // ---- Reading ----

  lemma GiveBack(all: seq<byte>, before: nat, count: nat)
    requires before + count <= |all|
    ensures all[..|all| - before][..|all| - before - count] == all[..|all| - (before + count)]
  {
  }

  lemma TakenSoFar(blocks: seq<seq<byte>>, taken: nat, out: seq<byte>, given: seq<byte>)
    requires taken < |blocks|
    requires Determined(blocks) ==> out == Content(blocks[..taken])
    requires Decode(blocks[taken], BLOCK_SIZE) != ZeroOffset ==> given == Meaning(blocks[taken])
    ensures Determined(blocks) ==> out + given == Content(blocks[..taken + 1])
    ensures blocks[taken..] == [blocks[taken]] + blocks[taken + 1..]
  {
    hide Content, Meaning, Decode;
    FramesStep(blocks, taken);
  }

  class InputStream {
    const sub: seq<byte>
    var pos: nat
    var outputBuffer: array?<byte>
    var outputSize: int
    var backedUp: nat
    var byteCount: int
    ghost const blocks: seq<seq<byte>>
    ghost var taken: nat
    ghost var out: seq<byte>  // all bytes of the blocks taken
    ghost var errors: nat     // the sum of the error positions handed out as sizes

    ghost predicate Valid()
      reads this, outputBuffer
    {
      && InPlace()
      && (outputBuffer != null ==> outputBuffer.Length == BLOCK_SIZE)
      && outputSize <= BLOCK_SIZE && (backedUp == 0 || backedUp <= outputSize)
      && (outputSize > 0 ==> outputBuffer != null && outputSize <= |out|
                             && outputBuffer[..outputSize] == out[|out| - outputSize..])
    }

    /** Where the reader is in the stream, and what that means for the bytes. */
    ghost predicate InPlace()
      reads this`pos, this`taken, this`out, this`errors, this`byteCount, this`backedUp
    {
      && pos <= |sub| && taken <= |blocks| && Chunks(sub, pos) == blocks[taken..]
      && (Determined(blocks) ==> out == Content(blocks[..taken]))
      && byteCount == |out| - backedUp - errors
    }

    /** What the caller has taken and not given back. */
    ghost function Delivered(): seq<byte>
      reads this
    {
      if backedUp <= |out| then out[..|out| - backedUp] else []
    }

    constructor (stream: seq<byte>)
      ensures Valid() && sub == stream && blocks == Chunks(stream, 0)
      ensures Delivered() == [] && outputBuffer == null && backedUp == 0 && taken == 0
    {
      sub, blocks := stream, Chunks(stream, 0);
      pos, outputBuffer, outputSize, backedUp, byteCount, taken, out, errors := 0, null, 0, 0, 0, 0, [], 0;
      new;
      assert blocks[..0] == [] && blocks[0..] == blocks;
    }

    lemma DeliveredIsPrefix()
      requires Valid() && Determined(blocks)
      ensures Delivered() <= Content(blocks)
    {
      ContentPrefix(blocks, taken);
    }

    method BackUp(count: int)
      requires Valid()
      requires count > 0 ==> count <= outputSize - backedUp
      modifies this`backedUp, this`byteCount
      ensures Valid() && backedUp == old(backedUp) + (if count > 0 then count else 0)
      ensures Delivered() == old(Delivered())[..|old(Delivered())| - (if count > 0 then count else 0)]
    {
      if count <= 0 { return; }
      hide Content, Chunks, Determined;
      GiveBack(out, backedUp, count);
      backedUp := backedUp + count;
      byteCount := byteCount - count;
    }

    /**
     The next bytes, in outputBuffer[offset..offset + size], until no further block can be read. A corrupt block is
     not reported as an end: it gives a negative size, and no bytes.
     */
    method Next() returns (ok: bool, offset: nat, size: int)
      requires Valid()
      modifies this, outputBuffer
      ensures Valid() && backedUp == (if ok then 0 else old(backedUp))
      ensures outputBuffer == old(outputBuffer) || fresh(outputBuffer)
      ensures ok ==> outputSize == offset + size
      ensures ok && size > 0 ==> outputBuffer != null && offset + size <= outputBuffer.Length
      ensures ok ==> Delivered() == old(Delivered()) + (if size > 0 then outputBuffer[offset..offset + size] else [])
      ensures old(backedUp) > 0 ==> ok && size == old(backedUp) && taken == old(taken)
      ensures ok && old(backedUp) == 0 ==>
        && taken == old(taken) + 1
        && offset == 0
        && match Decode(blocks[taken - 1], BLOCK_SIZE)
           case Decoded(o) => size == |o| && Delivered() == old(Delivered()) + o
           case Failed(at) => size == -(at as int) && Delivered() == old(Delivered())
           case ZeroOffset => size <= BLOCK_SIZE
      ensures !ok ==> taken == old(taken) == |blocks| && Delivered() == old(Delivered()) && byteCount == old(byteCount)
      ensures ok ==> byteCount == old(byteCount) + size
    {
      hide Decode, InPlace;
      if backedUp > 0 {
        ok, offset, size := true, outputSize - backedUp, backedUp;
        Again();
        return;
      }
      AllDelivered();
      ok := NextBlock();
      AllDelivered();
      OutputFits();
      hide Valid, Delivered;
      assert ok && outputSize > 0 ==> outputBuffer[0..0 + outputSize] == outputBuffer[..outputSize];
      offset, size := 0, outputSize;
    }

    lemma AllDelivered()
      requires backedUp == 0
      ensures Delivered() == out
    {
    }

    lemma OutputFits()
      requires Valid()
      ensures outputSize <= BLOCK_SIZE && (outputBuffer != null ==> outputBuffer.Length == BLOCK_SIZE)
    {
    }

    /** What was given back is delivered again. */
    method Again()
      requires Valid() && backedUp > 0
      modifies this`backedUp, this`byteCount
      ensures Valid() && backedUp == 0 && byteCount == old(byteCount) + old(backedUp)
      ensures Delivered() == old(Delivered()) + outputBuffer[outputSize - old(backedUp)..outputSize]
    {
      hide Content, Chunks, Determined;
      ghost var rest := |out| - backedUp;
      assert out[..rest] + out[rest..] == out;
      assert outputBuffer[outputSize - backedUp..outputSize] == outputBuffer[..outputSize][outputSize - backedUp..];
      assert out[|out| - outputSize..][outputSize - backedUp..] == out[rest..];
      byteCount := byteCount + backedUp;
      backedUp := 0;
    }

    /** Read and decompress the next block. */
    method NextBlock() returns (ok: bool)
      requires Valid() && backedUp == 0
      modifies this, outputBuffer
      ensures Valid() && backedUp == 0
      ensures outputBuffer == old(outputBuffer) || fresh(outputBuffer)
      ensures ok ==> outputBuffer != null && taken == old(taken) + 1 && byteCount == old(byteCount) + outputSize
      ensures ok ==> out == old(out) + (if outputSize > 0 then outputBuffer[..outputSize] else [])
      ensures ok ==> match Decode(blocks[taken - 1], BLOCK_SIZE)
                     case Decoded(o) => outputSize == |o| && out == old(out) + o
                     case Failed(at) => outputSize == -(at as int) && out == old(out)
                     case ZeroOffset => true
      ensures !ok ==> taken == old(taken) == |blocks| && out == old(out) && byteCount == old(byteCount)
    {
      hide Content, Decode, Determined, ReadVarint32;
      var length := ReadVarint32(sub, pos);
      if length.Truncated? || length.value > 2 * BLOCK_SIZE { return false; }
      if length.next + length.value > |sub| { return false; }
      var temp := sub[length.next..length.next + length.value];
      RawUncompress(temp);
      TakeBlock(temp, length.next + length.value);
      ok := true;
    }

    /** The block just decompressed is behind the reader now. */
    method TakeBlock(c: seq<byte>, next: nat)
      requires InPlace() && backedUp == 0 && NextChunk(sub, pos) == Chunk(c, next)
      requires outputBuffer != null && outputBuffer.Length == BLOCK_SIZE && outputSize <= BLOCK_SIZE
      requires match Decode(c, BLOCK_SIZE)
               case Decoded(o) => outputSize == |o| && outputBuffer[..outputSize] == o
               case Failed(at) => outputSize == -(at as int)
               case ZeroOffset => true
      modifies this`pos, this`taken, this`out, this`errors, this`byteCount
      ensures Valid() && taken == old(taken) + 1 && blocks[taken - 1] == c && byteCount == old(byteCount) + outputSize
      ensures out == old(out) + (if outputSize > 0 then outputBuffer[..outputSize] else [])
    {
      hide Content, Decode, Determined, ReadVarint32;
      ghost var given := if outputSize > 0 then outputBuffer[..outputSize] else [];
      TakenSoFar(blocks, taken, out, given);
      assert Chunks(sub, next) == Chunks(sub, pos)[1..];
      assert outputSize > 0 ==> (out + given)[|out + given| - outputSize..] == given;
      pos, byteCount := next, byteCount + outputSize;
      taken, out, errors := taken + 1, out + given, errors + (if outputSize > 0 then 0 else -outputSize);
    }

    method RawUncompress(c: seq<byte>)
      requires outputBuffer != null ==> outputBuffer.Length == BLOCK_SIZE
      modifies this`outputBuffer, this`outputSize, outputBuffer
      ensures outputBuffer != null && outputBuffer.Length == BLOCK_SIZE
      ensures outputBuffer == old(outputBuffer) || fresh(outputBuffer)
      ensures outputSize <= BLOCK_SIZE
      ensures match Decode(c, BLOCK_SIZE)
              case Decoded(o) => outputSize == |o| && outputBuffer[..outputSize] == o
              case Failed(at) => outputSize == -(at as int)
              case ZeroOffset => true
    {
      hide Decode;
      if outputBuffer == null { outputBuffer := new byte[BLOCK_SIZE]; }
      var n := Lz4Decompress.UncompressUnknownOutputSize(c, outputBuffer, BLOCK_SIZE);
      outputSize := n;
    }
  }

  // ---- Both together ----

  /** What a user of the output stream does with the bytes it was handed. */
  method Fill(o: OutputStream, offset: nat, d: seq<byte>)
    requires o.Valid() && o.inputBuffer != null && o.backedUp == 0 && offset + |d| <= BLOCK_SIZE
    modifies o.inputBuffer
    ensures o.Valid() && |o.Written()| == old(|o.Written()|)
    ensures
      var start := |o.Written()| - (BLOCK_SIZE - offset);
      0 <= start && o.Written()[..start] == old(o.Written()[..start]) && o.Written()[start..start + |d|] == d
  {
    hide Content, Frames, AllSound;
    ghost var all, before := Content(o.blocks), o.inputBuffer[..];
    assert o.Written() == all + before by { assert before == o.inputBuffer[..BLOCK_SIZE]; }
    CopyInto(o.inputBuffer, offset, d);
    assert o.Written() == all + o.inputBuffer[..] by { assert o.inputBuffer[..] == o.inputBuffer[..BLOCK_SIZE]; }
    Replaced(all, before, offset, d);
  }

  method CopyInto(buffer: array<byte>, offset: nat, d: seq<byte>)
    requires offset + |d| <= buffer.Length
    modifies buffer
    ensures buffer[..] == old(buffer[..offset]) + d + old(buffer[offset + |d|..])
  {
    forall i | 0 <= i < |d| { buffer[offset + i] := d[i]; }
  }

  lemma Replaced(all: seq<byte>, before: seq<byte>, offset: nat, d: seq<byte>)
    requires offset + |d| <= |before|
    ensures var after := before[..offset] + d + before[offset + |d|..];
            var start := |all| + offset;
            |after| == |before| && (all + after)[..start] == (all + before)[..start]
            && (all + after)[start..start + |d|] == d
  {
  }

  /** Write as much of d as the region handed out takes, and give the rest of the region back. */
  method WriteSome(o: OutputStream, d: seq<byte>) returns (n: nat)
    requires o.Valid()
    modifies o, o.inputBuffer
    ensures o.Valid() && o.inputBuffer != null && (o.inputBuffer == old(o.inputBuffer) || fresh(o.inputBuffer))
    ensures n <= |d| && (|d| > 0 ==> n > 0) && o.Written() == old(o.Written()) + d[..n]
  {
    hide Content, Frames, AllSound, OutputStream.Written;
    ghost var before := o.Written();
    var buffer, offset, size := o.Next();
    n := if |d| < size then |d| else size;
    ghost var handed := o.Written();
    Fill(o, offset, d[..n]);
    ghost var filled := o.Written();
    o.BackUp(size - n);
    Joined(before, d[..n], handed, filled, o.Written());
  }

  lemma Joined(before: seq<byte>, d: seq<byte>, handed: seq<byte>, filled: seq<byte>, kept: seq<byte>)
    requires |before| + |d| <= |handed| == |filled|
    requires before == handed[..|before|] == filled[..|before|] && filled[|before|..|before| + |d|] == d
    requires kept == filled[..|before| + |d|]
    ensures kept == before + d
  {
    assert kept == filled[..|before|] + filled[|before|..|before| + |d|];
  }

  /** Write bytes of any number and flush. */
  method WriteAll(data: seq<byte>) returns (stream: seq<byte>, ghost blocks: seq<seq<byte>>)
    ensures AllSound(blocks) && stream == Frames(blocks) && Content(blocks) == data
  {
    hide Content, Frames, AllSound, OutputStream.Written;
    var o := new OutputStream();
    var i := 0;
    while i < |data|
      invariant 0 <= i <= |data| && fresh(o) && (o.inputBuffer != null ==> fresh(o.inputBuffer))
      invariant o.Valid() && o.Written() == data[..i]
    {
      var n := WriteSome(o, data[i..]);
      assert data[..i + n] == data[..i] + data[i..][..n];
      i := i + n;
    }
    assert data[..i] == data;
    o.Flush();
    stream, blocks := o.sub, o.blocks;
  }

  /** What the next call delivers, if it delivers anything. */
  method ReadSome(s: InputStream) returns (ok: bool, d: seq<byte>)
    requires s.Valid()
    modifies s, s.outputBuffer
    ensures s.Valid() && s.Delivered() == old(s.Delivered()) + d
    ensures s.outputBuffer == old(s.outputBuffer) || fresh(s.outputBuffer)
    ensures ok ==> s.backedUp == 0 && s.taken == old(s.taken) + (if old(s.backedUp) > 0 then 0 else 1)
    ensures !ok ==> s.taken == |s.blocks| && s.backedUp == 0
  {
    hide InputStream.Valid, InputStream.Delivered, Decode;
    var offset, size;
    ok, offset, size := s.Next();
    d := if ok && size > 0 then s.outputBuffer[offset..offset + size] else [];
  }

  /** Read to the end, from wherever the stream is. */
  method ReadAll(s: InputStream) returns (data: seq<byte>)
    requires s.Valid() && Determined(s.blocks)
    modifies s, s.outputBuffer
    ensures s.Valid() && old(s.Delivered()) + data == Content(s.blocks)
  {
    hide Content, Chunks, Determined;
    data := [];
    ghost var before := s.Delivered();
    assert before + [] == before;
    while true
      invariant s.Valid() && (s.outputBuffer == old(s.outputBuffer) || fresh(s.outputBuffer))
      invariant before + data == s.Delivered()
      decreases |s.blocks| - s.taken, s.backedUp
    {
      var ok, d := ReadSome(s);
      assert before + (data + d) == (before + data) + d;
      data := data + d;
      if !ok { break; }
    }
    assert s.blocks[..s.taken] == s.blocks;
  }

  /** What goes into the compressing stream comes out of the decompressing one. */
  method Through(data: seq<byte>) returns (r: seq<byte>)
    ensures r == data
  {
    var stream;
    ghost var blocks;
    stream, blocks := WriteAll(data);
    ChunksOfFrames(blocks);
    var s := new InputStream(stream);
    r := ReadAll(s);
  }

  /** A block backed up completely is still there after Flush: the destructor would not accept the stream. */
  method FlushCanLeaveTheBuffer() returns (o: OutputStream)
    ensures fresh(o) && o.Valid() && o.Written() == [] && o.inputBuffer != null
  {
    o := new OutputStream();
    var data, offset, size := o.Next();
    o.BackUp(size);
    o.Flush();
  }

  /** A token that announces one literal, and nothing behind it. */
  lemma CorruptBlock()
    ensures Decode([16], BLOCK_SIZE) == Failed(1) && Chunks([1, 16], 0) == [[16]]
  {
    var c: seq<byte>, sub: seq<byte> := [16], [1, 16];
    assert DecodeStep(c, 0, [], BLOCK_SIZE) == Stop(Failed(1));
    assert ReadVarint(sub, 0, 10) == Varint(1, 1);
    assert NextChunk(sub, 0) == Chunk(c, 2) && NextChunk(sub, 2) == End;
  }

  /** It is read with success, and a negative size. */
  method CorruptBlockIsNoEnd() returns (ok: bool, size: int)
    ensures ok && size == -1
  {
    hide Decode, Chunks, InputStream.Valid, InputStream.Delivered;
    CorruptBlock();
    var s := new InputStream([1, 16]);
    var offset;
    ok, offset, size := s.Next();
  }

  // ---- Any use of the streams ----

  datatype Use = Put(d: seq<byte>) | Back(n: nat) | Push
  datatype ReadUse = Take | Give(n: nat)

  /** What became of one use: bytes moved, bytes taken back. */
  datatype Event = Moved(d: seq<byte>) | TookBack(n: nat) | Other

  function After(before: seq<byte>, e: Event): seq<byte> {
    match e
    case Moved(d) => before + d
    case TookBack(n) => if n <= |before| then before[..|before| - n] else []
    case Other => before
  }

  /** The bytes that count in the end. */
  function Effect(trace: seq<Event>): seq<byte> {
    if |trace| == 0 then [] else After(Effect(trace[..|trace| - 1]), trace[|trace| - 1])
  }

  predicate Did(u: Use, e: Event) {
    match u
    case Put(d) => e.Moved? && e.d <= d && (d != [] ==> e.d != [])
    case Back(n) => e.TookBack? && e.n <= n
    case Push => e == Other
  }

  predicate DidRead(u: ReadUse, e: Event) {
    match u
    case Take => e.Moved?
    case Give(n) => e.TookBack? && e.n <= n
  }

  method Perform(o: OutputStream, u: Use) returns (e: Event)
    requires o.Valid()
    modifies o, o.inputBuffer
    ensures o.Valid() && (o.inputBuffer != null ==> o.inputBuffer == old(o.inputBuffer) || fresh(o.inputBuffer))
    ensures Did(u, e) && o.Written() == After(old(o.Written()), e)
  {
    hide Content, Frames, AllSound, OutputStream.Written;
    match u {
      case Put(d) =>
        var n := WriteSome(o, d);
        e := Moved(d[..n]);
      case Back(n) =>
        var room := if o.inputBuffer == null then 0 else BLOCK_SIZE - o.backedUp;
        var m := if n <= room then n else room;
        RoomIsWritten(o);
        o.BackUp(m);
        e := TookBack(m);
      case Push =>
        o.Flush();
        e := Other;
    }
  }

  lemma RoomIsWritten(o: OutputStream)
    requires o.Valid()
    ensures o.inputBuffer != null ==> BLOCK_SIZE - o.backedUp <= |o.Written()|
  {
  }

  method WriteUses(uses: seq<Use>) returns (stream: seq<byte>, ghost blocks: seq<seq<byte>>, trace: seq<Event>)
    ensures |trace| == |uses| && forall k | 0 <= k < |uses| :: Did(uses[k], trace[k])
    ensures AllSound(blocks) && stream == Frames(blocks) && Content(blocks) == Effect(trace)
  {
    hide Content, Frames, AllSound, OutputStream.Written, Did, After;
    var o := new OutputStream();
    trace := [];
    for i := 0 to |uses|
      invariant |trace| == i && (forall k | 0 <= k < i :: Did(uses[k], trace[k]))
      invariant fresh(o) && (o.inputBuffer != null ==> fresh(o.inputBuffer))
      invariant o.Valid() && o.Written() == Effect(trace)
    {
      var e := Perform(o, uses[i]);
      assert (trace + [e])[..i] == trace;
      trace := trace + [e];
    }
    o.Flush();
    stream, blocks := o.sub, o.blocks;
  }

  method PerformRead(s: InputStream, u: ReadUse) returns (e: Event)
    requires s.Valid()
    modifies s, s.outputBuffer
    ensures s.Valid() && (s.outputBuffer == old(s.outputBuffer) || fresh(s.outputBuffer))
    ensures DidRead(u, e) && s.Delivered() == After(old(s.Delivered()), e)
  {
    match u {
      case Take =>
        var _, d := ReadSome(s);
        e := Moved(d);
      case Give(n) =>
        var m := if n <= s.outputSize - s.backedUp then n else if s.outputSize > 0 then s.outputSize - s.backedUp else 0;
        s.BackUp(m);
        e := TookBack(m);
    }
  }

  method ReadUses(s: InputStream, uses: seq<ReadUse>) returns (trace: seq<Event>)
    requires s.Valid() && s.Delivered() == []
    modifies s, s.outputBuffer
    ensures |trace| == |uses| && forall k | 0 <= k < |uses| :: DidRead(uses[k], trace[k])
    ensures s.Valid() && s.Delivered() == Effect(trace)
    ensures s.outputBuffer == old(s.outputBuffer) || fresh(s.outputBuffer)
  {
    hide InputStream.Valid, InputStream.Delivered, DidRead, After;
    trace := [];
    for i := 0 to |uses|
      invariant |trace| == i && (forall k | 0 <= k < i :: DidRead(uses[k], trace[k]))
      invariant s.outputBuffer == old(s.outputBuffer) || fresh(s.outputBuffer)
      invariant s.Valid() && s.Delivered() == Effect(trace)
    {
      var e := PerformRead(s, uses[i]);
      assert (trace + [e])[..i] == trace;
      trace := trace + [e];
    }
  }

  /** However both streams are used: what was read, and what is read from there to the end, is what was written. */
  method AnyUse(uses: seq<Use>, readUses: seq<ReadUse>) returns (writes: seq<Event>, taken: seq<Event>, rest: seq<byte>)
    ensures |writes| == |uses| && forall k | 0 <= k < |uses| :: Did(uses[k], writes[k])
    ensures |taken| == |readUses| && forall k | 0 <= k < |readUses| :: DidRead(readUses[k], taken[k])
    ensures Effect(taken) + rest == Effect(writes)
  {
    hide Content, Frames, AllSound, Determined, Chunks, Effect, Did, DidRead;
    var stream;
    ghost var blocks;
    stream, blocks, writes := WriteUses(uses);
    ChunksOfFrames(blocks);
    var s := new InputStream(stream);
    taken := ReadUses(s, readUses);
    rest := ReadAll(s);
  }
}
