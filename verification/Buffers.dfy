/**
 The two buffers of buffer.cc. Both are a row of handles on blocks of shared memory; seen from outside, a WriteBuffer
 is one growing byte sequence and a ReadBuffer one sequence with a cursor. Blocks count the handles that own them.
 */
module Buffers {
  import opened Bytes

  class Block {
    var data: seq<byte>
    var refs: nat

    /** TranBufPool::malloc */
    constructor (capacity: nat)
      ensures |data| == capacity && refs == 1
    {
      data, refs := seq(capacity, _ => 0), 1;
    }
  }

  /** A part of a block. For a WriteBuffer the offset is 0, and the capacity is that of the block. */
  datatype Handle = Handle(block: Block, size: nat, offset: nat)

  predicate Inside(h: Handle)
    reads h.block`data
  {
    h.offset + h.size <= |h.block.data|
  }

  function Chunk(h: Handle): (c: seq<byte>)
    requires Inside(h)
    reads h.block`data
    ensures |c| == h.size
  {
    h.block.data[h.offset..h.offset + h.size]
  }

  function Blocks(bufs: seq<Handle>): set<Block> {
    set i | 0 <= i < |bufs| :: bufs[i].block
  }

  ghost predicate AllInside(bufs: seq<Handle>)
    reads Blocks(bufs)`data
  {
    forall i | 0 <= i < |bufs| :: Inside(bufs[i])
  }

  ghost function Chunks(bufs: seq<Handle>): (chunks: seq<seq<byte>>)
    requires AllInside(bufs)
    reads Blocks(bufs)`data
    ensures |chunks| == |bufs| && forall i | 0 <= i < |bufs| :: chunks[i] == Chunk(bufs[i])
  {
    if |bufs| == 0 then []
    else
      var last := |bufs| - 1;
      assert Blocks(bufs[..last]) <= Blocks(bufs);
      Chunks(bufs[..last]) + [Chunk(bufs[last])]
  }

  lemma ChunksChange(x: seq<Handle>, y: seq<Handle>, h: Handle)
    requires AllInside(x) && AllInside(y)
    ensures y == x + [h] ==> Chunks(y) == Chunks(x) + [Chunk(y[|x|])]
    ensures |x| > 0 && y == x[|x| - 1 := h] ==> Chunks(y) == Chunks(x)[|x| - 1 := Chunk(y[|x| - 1])]
    ensures |x| > 0 && y == x[1..] ==> Chunks(y) == Chunks(x)[1..]
  {
    hide Chunks, Chunk;
  }

  /** How many handles a block has in a row. */
  function Count(bufs: seq<Handle>, b: Block): nat {
    if |bufs| == 0 then 0 else (if bufs[0].block == b then 1 else 0) + Count(bufs[1..], b)
  }

  lemma {:induction false} CountConcat(x: seq<Handle>, y: seq<Handle>, b: Block)
    ensures Count(x + y, b) == Count(x, b) + Count(y, b)
  {
    if |x| == 0 {
      assert x + y == y;
    } else {
      assert (x + y)[1..] == x[1..] + y;
      CountConcat(x[1..], y, b);
    }
  }

  /** A block counts at least the handles of this row. */
  ghost predicate Counted(bufs: seq<Handle>)
    reads Blocks(bufs)`refs
  {
    forall b | b in Blocks(bufs) :: b.refs >= Count(bufs, b)
  }

  lemma CountSnoc(bufs: seq<Handle>, h: Handle)
    ensures forall b: Block :: Count(bufs + [h], b) == Count(bufs, b) + (if b == h.block then 1 else 0)
    ensures forall b: Block :: b in Blocks(bufs + [h]) <==> b in Blocks(bufs) || b == h.block
    ensures forall b: Block :: b !in Blocks(bufs) ==> Count(bufs, b) == 0
  {
    forall b: Block ensures Count(bufs + [h], b) == Count(bufs, b) + (if b == h.block then 1 else 0) {
      CountConcat(bufs, [h], b);
    }
    forall b: Block | b !in Blocks(bufs) ensures Count(bufs, b) == 0 { CountNothing(bufs, b); }
    var more := bufs + [h];
    assert forall i | 0 <= i < |bufs| :: more[i] == bufs[i];
    assert more[|bufs|] == h;
  }

  lemma {:induction false} CountNothing(bufs: seq<Handle>, b: Block)
    requires b !in Blocks(bufs)
    ensures Count(bufs, b) == 0
  {
    if |bufs| > 0 {
      assert forall i | 0 <= i < |bufs| - 1 :: bufs[1..][i] == bufs[i + 1];
      CountNothing(bufs[1..], b);
    }
  }

  // ---- Byte sequences in pieces ----

  lemma {:induction false} ConcatSplit(x: seq<seq<byte>>, y: seq<seq<byte>>)
    ensures Flatten(x + y) == Flatten(x) + Flatten(y)
  {
    if |x| == 0 {
      assert x + y == y;
    } else {
      assert (x + y)[1..] == x[1..] + y;
      ConcatSplit(x[1..], y);
    }
  }

  lemma ConcatOne(c: seq<byte>)
    ensures Flatten([c]) == c
  {
    assert c + [] == c;
  }

  /** What is before piece i, the piece, and what is behind it. */
  lemma ConcatAt(chunks: seq<seq<byte>>, i: nat)
    requires i < |chunks|
    ensures Flatten(chunks) == Flatten(chunks[..i]) + chunks[i] + Flatten(chunks[i + 1..])
    ensures Flatten(chunks[..i + 1]) == Flatten(chunks[..i]) + chunks[i]
  {
    hide Flatten;
    var x, c, y := chunks[..i], chunks[i], chunks[i + 1..];
    ConcatThree(x, c, y);
    Apart(chunks, i);
  }

  lemma Apart<T>(s: seq<T>, i: nat)
    requires i < |s|
    ensures s == s[..i] + ([s[i]] + s[i + 1..])
    ensures s[..i + 1] == s[..i] + [s[i]]
  {
    assert s[i..] == [s[i]] + s[i + 1..];
  }

  lemma ConcatThree(x: seq<seq<byte>>, c: seq<byte>, y: seq<seq<byte>>)
    ensures Flatten(x + ([c] + y)) == Flatten(x) + c + Flatten(y)
    ensures Flatten(x + [c]) == Flatten(x) + c
  {
    hide Flatten;
    ConcatSplit(x, [c] + y);
    ConcatSplit([c], y);
    ConcatSplit(x, [c]);
    ConcatOne(c);
    Associative(Flatten(x), c, Flatten(y));
  }

  /** Where piece i begins. */
  function Start(chunks: seq<seq<byte>>, i: nat): nat
    requires i <= |chunks|
  {
    |Flatten(chunks[..i])|
  }

  lemma StartEnds(chunks: seq<seq<byte>>)
    ensures Start(chunks, 0) == 0 && Start(chunks, |chunks|) == |Flatten(chunks)|
  {
    assert chunks[..|chunks|] == chunks;
  }

  /** The rest of piece i, in the whole. */
  lemma PieceAt(chunks: seq<seq<byte>>, i: nat, off: nat)
    requires i < |chunks| && off <= |chunks[i]|
    ensures Start(chunks, i + 1) == Start(chunks, i) + |chunks[i]| <= |Flatten(chunks)|
    ensures Flatten(chunks)[Start(chunks, i) + off..Start(chunks, i + 1)] == chunks[i][off..]
  {
    hide Flatten;
    ConcatAt(chunks, i);
    var x, c, y := Flatten(chunks[..i]), chunks[i], Flatten(chunks[i + 1..]);
    assert (x + c + y)[|x| + off..|x| + |c|] == c[off..];
  }

  function Overwrite(s: seq<byte>, p: nat, d: seq<byte>): (r: seq<byte>)
    requires p + |d| <= |s|
    ensures |r| == |s|
  {
    s[..p] + d + s[p + |d|..]
  }

  lemma OverwriteInside(s: seq<byte>, n: nat, p: nat, d: seq<byte>)
    requires p + |d| <= n <= |s|
    ensures Overwrite(s, p, d)[..n] == Overwrite(s[..n], p, d)
  {
  }

  lemma OverwriteTwice(s: seq<byte>, p: nat, a: seq<byte>, b: seq<byte>)
    requires p + |a| + |b| <= |s|
    ensures Overwrite(Overwrite(s, p, a), p + |a|, b) == Overwrite(s, p, a + b)
  {
  }

  /** To overwrite inside one piece is to overwrite the whole. */
  lemma OverwritePiece(chunks: seq<seq<byte>>, i: nat, off: nat, d: seq<byte>)
    requires i < |chunks| && off + |d| <= |chunks[i]|
    ensures Start(chunks, i) + off + |d| <= |Flatten(chunks)|
    ensures Flatten(chunks[i := Overwrite(chunks[i], off, d)])
         == Overwrite(Flatten(chunks), Start(chunks, i) + off, d)
  {
    hide Flatten, Overwrite;
    var changed := chunks[i := Overwrite(chunks[i], off, d)];
    ConcatAt(chunks, i);
    ConcatAt(changed, i);
    assert changed[..i] == chunks[..i] && changed[i + 1..] == chunks[i + 1..];
    OverwriteMiddle(Flatten(chunks[..i]), chunks[i], Flatten(chunks[i + 1..]), off, d);
  }

  lemma OverwriteMiddle(x: seq<byte>, c: seq<byte>, y: seq<byte>, off: nat, d: seq<byte>)
    requires off + |d| <= |c|
    ensures Overwrite(x + c + y, |x| + off, d) == x + Overwrite(c, off, d) + y
  {
  }

  // ---- Reading ----

  lemma ChunkAppended(bufs: seq<Handle>, h: Handle)
    requires AllInside(bufs) && Inside(h)
    ensures AllInside(bufs + [h]) && Flatten(Chunks(bufs + [h])) == Flatten(Chunks(bufs)) + Chunk(h)
  {
    hide Flatten, Chunk, Chunks;
    ChunksChange(bufs, bufs + [h], h);
    ConcatSplit(Chunks(bufs), [Chunk(h)]);
    ConcatOne(Chunk(h));
  }

  class ReadBuffer {
    var bufs: seq<Handle>
    var totalBytes: nat
    var cur: nat          // _cur_it
    var curPos: nat
    var lastBytes: nat
    var readBytes: nat

    /** Everything in the buffer. */
    ghost function Flat(): seq<byte>
      requires AllInside(bufs)
      reads `bufs, Blocks(bufs)`data
    {
      Flatten(Chunks(bufs))
    }

    ghost predicate Valid()
      reads this, Blocks(bufs)`data, Blocks(bufs)`refs
    {
      AllInside(bufs) && Readable() && Counted(bufs)
    }

    ghost predicate Readable()
      requires AllInside(bufs)
      reads this, Blocks(bufs)`data
    {
      && (forall i | 0 <= i < |bufs| :: bufs[i].size > 0)
      && totalBytes == |Flat()|
      && cur <= |bufs| && (if cur < |bufs| then curPos < bufs[cur].size else curPos == 0)
      && readBytes == Start(Chunks(bufs), cur) + curPos
      && (lastBytes > 0 ==> cur > 0 && curPos == 0 && lastBytes <= bufs[cur - 1].size)
    }

    constructor ()
      ensures Valid() && bufs == [] && Flat() == [] && readBytes == 0 && lastBytes == 0
    {
      bufs, totalBytes, cur, curPos, lastBytes, readBytes := [], 0, 0, 0, 0, 0;
    }

    /** Only before anything is read. */
    method Append(h: Handle)
      requires Valid() && Inside(h) && h.size > 0 && readBytes == 0 && lastBytes == 0
      modifies this, h.block`refs
      ensures Valid() && readBytes == 0 && lastBytes == 0
      ensures bufs == old(bufs) + [h] && h.block.refs == old(h.block.refs) + 1
      ensures forall b: Block :: Count(bufs, b) == Count(old(bufs), b) + (if b == h.block then 1 else 0)
      ensures Flat() == old(Flat()) + Chunk(h)
    {
      hide Flatten, Chunk, Count, Chunks, Start;
      StartsAtZero();
      CountSnoc(bufs, h);
      ChunkAppended(bufs, h);
      bufs := bufs + [h];
      h.block.refs := h.block.refs + 1;
      totalBytes := totalBytes + h.size;
      cur := 0;
      StartEnds(Chunks(bufs));
    }

    lemma StartsAtZero()
      requires Valid() && readBytes == 0
      ensures cur == 0 && curPos == 0
    {
      hide Flatten, Chunks, Start;
      if cur > 0 { PieceAt(Chunks(bufs), cur - 1, 0); }
    }

    /** The rest of the current piece, and the cursor behind it; false at the end. */
    method Next() returns (ok: bool, data: seq<byte>)
      requires Valid()
      modifies `cur, `curPos, `lastBytes, `readBytes
      ensures Valid() && Flat() == old(Flat()) && lastBytes == |data|
      ensures ok == (old(readBytes) < |Flat()|) && (ok <==> |data| > 0)
      ensures old(readBytes) <= readBytes <= |Flat()| && data == Flat()[old(readBytes)..readBytes]
    {
      hide Flatten, Chunks, Start, Chunk, Counted;
      StartEnds(Chunks(bufs));
      if cur != |bufs| {
        PieceAt(Chunks(bufs), cur, curPos);
        data := Chunk(bufs[cur])[curPos..];
        cur, curPos, lastBytes, readBytes, ok := cur + 1, 0, |data|, readBytes + |data|, true;
      } else {
        lastBytes, ok, data := 0, false, [];
      }
    }

    /** After a successful Next: the last `count` bytes will be read again. */
    method BackUp(count: nat)
      requires Valid() && lastBytes > 0 && count <= lastBytes
      modifies `cur, `curPos, `lastBytes, `readBytes
      ensures Valid() && Flat() == old(Flat()) && lastBytes == 0
      ensures count <= old(readBytes) && readBytes == old(readBytes) - count
    {
      hide Flatten, Chunks, Start, AllInside, Chunk, Counted;
      PieceAt(Chunks(bufs), cur - 1, 0);
      if count > 0 {
        cur := cur - 1;
        curPos := bufs[cur].size - count;
      }
      lastBytes := 0;
      readBytes := readBytes - count;
    }

    /** The cursor moves by `count` if there is as much left, else to the end. */
    method Skip(count: nat) returns (ok: bool)
      requires Valid()
      modifies `cur, `curPos, `lastBytes, `readBytes
      ensures Valid() && Flat() == old(Flat()) && lastBytes == 0
      ensures ok == (old(readBytes) + count <= |Flat()|)
      ensures readBytes == if ok then old(readBytes) + count else |Flat()|
    {
      hide Flatten, Chunks, Start, AllInside, Chunk, Counted;
      var left := count;
      InRange();
      while left > 0
        invariant Valid() && Flat() == old(Flat()) && readBytes <= |Flat()|
        invariant 0 <= left <= count && readBytes + left == old(readBytes) + count
        decreases left
      {
        var more, data := Next();
        if !more { break; }
        var size := |data|;
        if size > left {
          BackUp(size - left);
          size := left;
        }
        left := left - size;
      }
      lastBytes := 0;
      ok := left == 0;
    }

    lemma InRange()
      requires Valid()
      ensures readBytes <= |Flat()|
    {
      hide Flatten, Chunks, Start;
      StartEnds(Chunks(bufs));
      if cur < |bufs| { PieceAt(Chunks(bufs), cur, 0); }
    }
  }

  // ---- Writing ----

  lemma LastPiece(chunks: seq<seq<byte>>, c: seq<byte>)
    requires |chunks| > 0
    ensures Flatten(chunks) == Flatten(chunks[..|chunks| - 1]) + chunks[|chunks| - 1]
    ensures Flatten(chunks[|chunks| - 1 := c]) == Flatten(chunks[..|chunks| - 1]) + c
  {
    hide Flatten;
    var last := |chunks| - 1;
    var x := chunks[..last];
    assert chunks == x + [chunks[last]] && chunks[last := c] == x + [c];
    ConcatSplit(x, [chunks[last]]);
    ConcatSplit(x, [c]);
    ConcatOne(chunks[last]);
    ConcatOne(c);
  }

  /** Every block is owned by this row alone, and all but the last are full. */
  ghost predicate Shaped(bufs: seq<Handle>)
    reads Blocks(bufs)`data, Blocks(bufs)`refs
  {
    && (forall i | 0 <= i < |bufs| :: bufs[i].offset == 0 && |bufs[i].block.data| > 0 && bufs[i].block.refs == 1)
    && (forall i, j | 0 <= i < j < |bufs| :: bufs[i].block != bufs[j].block)
    && (forall i | 0 <= i < |bufs| - 1 :: bufs[i].size == |bufs[i].block.data|)
  }

  lemma ShapedTail(bufs: seq<Handle>)
    requires |bufs| > 0 && AllInside(bufs) && Shaped(bufs)
    ensures AllInside(bufs[1..]) && Shaped(bufs[1..]) && bufs[0].block !in Blocks(bufs[1..])
    ensures Blocks(bufs) == Blocks(bufs[1..]) + {bufs[0].block}
  {
    var t := bufs[1..];
    assert forall i | 0 <= i < |t| :: t[i] == bufs[i + 1];
    assert forall i | 0 < i < |bufs| :: bufs[i] == t[i - 1];
  }

  class WriteBuffer {
    var bufs: seq<Handle>
    var lastBytes: nat
    var writeBytes: nat

    ghost function Flat(): seq<byte>
      requires AllInside(bufs)
      reads `bufs, Blocks(bufs)`data
    {
      Flatten(Chunks(bufs))
    }

    ghost predicate Valid()
      reads this, Blocks(bufs)`data, Blocks(bufs)`refs
    {
      && AllInside(bufs) && Shaped(bufs)
      && writeBytes == |Flat()|
      && (lastBytes > 0 ==> |bufs| > 0 && lastBytes <= bufs[|bufs| - 1].size)
    }

    constructor ()
      ensures Valid() && bufs == [] && Flat() == []
    {
      bufs, lastBytes, writeBytes := [], 0, 0;
    }

    /** The last block is used up, or there is none. */
    predicate Used()
      reads `bufs, Blocks(bufs)`data
    {
      |bufs| == 0 || bufs[|bufs| - 1].size == |bufs[|bufs| - 1].block.data|
    }

    /** A new block at the end; there may be no memory for it. */
    method Extend() returns (ok: bool)
      requires Valid() && Used()
      modifies `bufs, `lastBytes
      ensures Valid() && Flat() == old(Flat()) && lastBytes == 0
      ensures if ok then !Used() && fresh(Blocks(bufs) - Blocks(old(bufs))) else bufs == old(bufs)
      ensures Blocks(old(bufs)) <= Blocks(bufs)
    {
      hide Flatten, Chunks, Shaped, AllInside;
      lastBytes := 0;
      if * { return false; }
      var capacity: nat :| capacity > 0;
      var block := new Block(capacity);
      assert forall b | b in Blocks(bufs) :: b.data == old(b.data) && b.refs == old(b.refs);
      AddBlock(block);
      return true;
    }

    method AddBlock(block: Block)
      requires Valid() && Used() && lastBytes == 0
      requires block !in Blocks(bufs) && |block.data| > 0 && block.refs == 1
      modifies `bufs
      ensures Valid() && Flat() == old(Flat()) && !Used() && Blocks(bufs) == Blocks(old(bufs)) + {block}
    {
      hide Flatten, Chunk, Chunks, Count;
      var h := Handle(block, 0, 0);
      CountSnoc(bufs, h);
      ChunkAppended(bufs, h);
      assert Flat() + [] == Flat();
      bufs := bufs + [h];
    }

    /** The last block holds n bytes from now on. */
    method Resize(n: nat, newLast: nat)
      requires Valid() && |bufs| > 0 && newLast <= n <= |bufs[|bufs| - 1].block.data|
      modifies this
      ensures Valid() && lastBytes == newLast && Blocks(bufs) == Blocks(old(bufs))
      ensures |Flat()| == |old(Flat())| + n - old(bufs[|bufs| - 1].size)
      ensures if n < old(bufs[|bufs| - 1].size) then Flat() <= old(Flat()) else old(Flat()) <= Flat()
    {
      hide Flatten, Chunks, AllInside, Shaped;
      var last := |bufs| - 1;
      ResizedShape(bufs, n);
      ResizedContent(bufs, n);
      writeBytes := writeBytes + n - bufs[last].size;
      lastBytes := newLast;
      bufs := bufs[last := Handle(bufs[last].block, n, 0)];
    }

    /** The rest of the last block becomes part of the content, for the caller to fill. */
    method Next() returns (ok: bool, size: nat)
      requires Valid()
      modifies this
      ensures Valid() && ok == (size > 0) && lastBytes == size
      ensures |Flat()| == |old(Flat())| + size && old(Flat()) <= Flat()
      ensures fresh(Blocks(bufs) - Blocks(old(bufs))) && Blocks(old(bufs)) <= Blocks(bufs)
    {
      hide Flatten, Chunks;
      if |bufs| == 0 || bufs[|bufs| - 1].size == |bufs[|bufs| - 1].block.data| {
        ok := Extend();
        if !ok { return false, 0; }
      }
      var h := bufs[|bufs| - 1];
      size := |h.block.data| - h.size;
      Resize(|h.block.data|, size);
      ok := true;
    }

    /** After a successful Next: the last `count` bytes are given back. */
    method BackUp(count: nat)
      requires Valid() && lastBytes > 0 && count <= lastBytes
      modifies this
      ensures Valid() && lastBytes == 0 && Blocks(bufs) == Blocks(old(bufs))
      ensures count <= |old(Flat())| && Flat() == old(Flat())[..|old(Flat())| - count]
    {
      LastPiece(Chunks(bufs), []);
      Resize(bufs[|bufs| - 1].size - count, 0);
    }

    /** `count` bytes more, from `head` on. Without memory the content may have grown by less. */
    method Reserve(count: nat) returns (ok: bool, head: nat)
      requires Valid() && count > 0
      modifies this
      ensures Valid() && old(Flat()) <= Flat() && head == |old(Flat())|
      ensures if ok then |Flat()| == head + count else |Flat()| < head + count
      ensures fresh(Blocks(bufs) - Blocks(old(bufs)))
    {
      hide Flatten, Chunks, Shaped;
      head := writeBytes;
      var left := count;
      while left > 0
        invariant Valid() && old(Flat()) <= Flat() && fresh(Blocks(bufs) - Blocks(old(bufs)))
        invariant 0 <= left <= count && |Flat()| + left == head + count
        decreases left
      {
        var more, size := Next();
        if !more { return false, head; }
        if size > left {
          BackUp(size - left);
          left := 0;
        } else {
          left := left - size;
        }
      }
      ok := true;
    }

    /** memcpy into the piece of one handle. */
    method Poke(i: nat, off: nat, d: seq<byte>)
      requires Valid() && i < |bufs| && off + |d| <= bufs[i].size
      modifies bufs[i].block`data
      ensures Valid() && Chunks(bufs) == old(Chunks(bufs))[i := Overwrite(old(Chunks(bufs))[i], off, d)]
      ensures Start(old(Chunks(bufs)), i) + off + |d| <= |old(Flat())|
      ensures Flat() == Overwrite(old(Flat()), Start(old(Chunks(bufs)), i) + off, d)
    {
      hide Flatten, Start, Chunks, Overwrite;
      ghost var chunks := Chunks(bufs);
      var block := bufs[i].block;
      OverwriteInside(block.data, bufs[i].size, off, d);
      block.data := Overwrite(block.data, off, d);
      OverwritePiece(chunks, i, off, d);
      assert Chunks(bufs) == chunks[i := Overwrite(chunks[i], off, d)];
    }

    /** Exactly the bytes from `start` on are replaced, across blocks. */
    method SetData(start: nat, d: seq<byte>)
      requires Valid() && |d| > 0 && start + |d| <= |Flat()|
      modifies Blocks(bufs)`data
      ensures Valid() && Flat() == Overwrite(old(Flat()), start, d)
    {
      hide Flatten, Chunks, Shaped, Start, Overwrite;
      var cur, off := Seek(start);
      CopyIn(start, d, cur, off);
    }

    /** Where position `start` is. */
    method Seek(start: nat) returns (cur: nat, off: nat)
      requires Valid() && start < |Flat()|
      ensures cur < |bufs| && off <= bufs[cur].size && Start(Chunks(bufs), cur) + off == start
    {
      hide Flatten, Chunks, Start, Chunk, Counted;
      cur, off := 0, 0;
      var pos: nat := start;
      StartEnds(Chunks(bufs));
      while pos > 0
        invariant Valid() && Flat() == old(Flat())
        invariant cur <= |bufs| && (pos > 0 ==> off == 0) && (cur == |bufs| ==> off == 0)
        invariant cur < |bufs| ==> off <= bufs[cur].size
        invariant Start(Chunks(bufs), cur) + off + pos == start
        decreases pos, |bufs| - cur
      {
        StartEnds(Chunks(bufs));
        assert cur < |bufs|;
        PieceAt(Chunks(bufs), cur, 0);
        var curSize := bufs[cur].size - off;
        if curSize > pos {
          off, pos := off + pos, 0;
        } else {
          pos, cur, off := pos - curSize, cur + 1, 0;
        }
      }
      StartEnds(Chunks(bufs));
    }

    /** What fits of `d` into the piece at the cursor. */
    method CopyPiece(cur: nat, off: nat, d: seq<byte>) returns (n: nat)
      requires Valid() && cur < |bufs| && off <= bufs[cur].size
      requires Start(Chunks(bufs), cur) + off + |d| <= |Flat()|
      modifies bufs[cur].block`data
      ensures Valid() && n == if bufs[cur].size - off > |d| then |d| else bufs[cur].size - off
      ensures Flat() == Overwrite(old(Flat()), Start(old(Chunks(bufs)), cur) + off, d[..n])
      ensures Start(Chunks(bufs), cur) == old(Start(Chunks(bufs), cur))
      ensures Start(Chunks(bufs), cur + 1) == Start(Chunks(bufs), cur) + bufs[cur].size
    {
      hide Flatten, Chunks, Shaped, Start, Overwrite, Chunk;
      n := if bufs[cur].size - off > |d| then |d| else bufs[cur].size - off;
      ghost var chunks := Chunks(bufs);
      Poke(cur, off, d[..n]);
      StartKept(chunks, Chunks(bufs), cur);
      PieceAt(Chunks(bufs), cur, 0);
    }

    method CopyIn(start: nat, d: seq<byte>, from: nat, offset: nat)
      requires Valid() && |d| > 0 && start + |d| <= |Flat()|
      requires from < |bufs| && offset <= bufs[from].size && Start(Chunks(bufs), from) + offset == start
      modifies Blocks(bufs)`data
      ensures Valid() && Flat() == Overwrite(old(Flat()), start, d)
    {
      hide Flatten, Chunks, Shaped, Start, Overwrite, Chunk, AllInside;
      var cur: nat, off: nat, done: nat := from, offset, 0;
      OverwriteNothing(Flat(), start);
      while done < |d|
        invariant Valid() && 0 <= done <= |d|
        invariant Flat() == Overwrite(old(Flat()), start, d[..done])
        invariant done < |d| ==> cur <= |bufs| && Start(Chunks(bufs), cur) + off == start + done
        invariant done < |d| ==> if cur < |bufs| then off <= bufs[cur].size else off == 0
        decreases |d| - done, |bufs| - cur
      {
        StartEnds(Chunks(bufs));
        var n := CopyPiece(cur, off, d[done..]);
        assert d[done..][..n] == d[done..done + n] && d[..done] + d[done..done + n] == d[..done + n];
        OverwriteTwice(old(Flat()), start, d[..done], d[done..done + n]);
        if n == bufs[cur].size - off { cur, off := cur + 1, 0; }
        done := done + n;
      }
      assert d[..done] == d;
    }

    method Append(d: seq<byte>) returns (ok: bool)
      requires Valid()
      modifies this, Blocks(bufs)`data
      ensures Valid() && old(Flat()) <= Flat() && (ok ==> Flat() == old(Flat()) + d)
      ensures |Flat()| <= |old(Flat())| + |d|
    {
      hide Flatten, Chunks, Shaped;
      if |d| == 0 {
        assert Flat() == Flat() + d;
        return true;
      }
      var head;
      ok, head := Reserve(|d|);
      if ok { SetData(head, d); }
    }

    /** What owns a block besides the two buffers. */
    ghost function OtherOwners(reader: ReadBuffer, b: Block): int
      reads `bufs, reader`bufs, b`refs
    {
      b.refs - Count(bufs, b) - Count(reader.bufs, b)
    }

    /** The written bytes move behind those of the reader; no count of owners is off afterwards. */
    method SwapOut(reader: ReadBuffer)
      requires Valid() && reader.Valid() && reader.readBytes == 0 && reader.lastBytes == 0
      requires forall b | b in Blocks(bufs) + Blocks(reader.bufs) :: OtherOwners(reader, b) >= 0
      modifies this, reader, Blocks(bufs)`refs
      ensures Valid() && bufs == [] && Flat() == []
      ensures reader.Valid() && reader.readBytes == 0 && reader.Flat() == old(reader.Flat()) + old(Flat())
      ensures forall b | b in Blocks(old(bufs)) + Blocks(old(reader.bufs)) :: OtherOwners(reader, b) == old(OtherOwners(reader, b))
      ensures Blocks(reader.bufs) <= Blocks(old(bufs)) + Blocks(old(reader.bufs))
    {
      hide Flatten, Chunks, Shaped, AllInside, Counted, ReadBuffer.Readable;
      ghost var all := Blocks(bufs) + Blocks(reader.bufs);
      ghost var whole := reader.Flat() + Flat();
      while |bufs| > 0
        invariant AllInside(bufs) && Shaped(bufs) && reader.Valid() && reader.readBytes == 0 && reader.lastBytes == 0
        invariant Blocks(bufs) <= Blocks(old(bufs)) && Blocks(reader.bufs) <= all
        invariant forall b | b in all :: OtherOwners(reader, b) == old(OtherOwners(reader, b))
        invariant whole == reader.Flat() + Flat()
        decreases |bufs|
      {
        MoveFirst(reader, all);
      }
      lastBytes, writeBytes := 0, 0;
      NothingLeft();
      assert reader.Flat() + [] == reader.Flat();
    }

    lemma NothingLeft()
      requires bufs == []
      ensures Flat() == []
    {
    }

    /** One block: the reader becomes an owner of it, the writer is none any more. */
    method MoveFirst(reader: ReadBuffer, ghost all: set<Block>)
      requires AllInside(bufs) && Shaped(bufs) && |bufs| > 0
      requires reader.Valid() && reader.readBytes == 0 && reader.lastBytes == 0
      requires Blocks(bufs) + Blocks(reader.bufs) <= all && OtherOwners(reader, bufs[0].block) >= 0
      modifies `bufs, reader, bufs[0].block`refs
      ensures AllInside(bufs) && Shaped(bufs) && bufs == old(bufs)[1..]
      ensures reader.Valid() && reader.readBytes == 0 && reader.lastBytes == 0 && Blocks(reader.bufs) <= all
      ensures reader.Flat() + Flat() == old(reader.Flat() + Flat())
      ensures forall b | b in all :: OtherOwners(reader, b) == old(OtherOwners(reader, b))
    {
      hide Flatten, Chunks, Chunk, Shaped, AllInside, ReadBuffer.Readable, Count, Counted;
      CountFirst(bufs);
      var h := bufs[0];
      FirstPiece(Chunks(bufs));
      ShapedTail(bufs);
      ChunksChange(bufs, bufs[1..], h);
      FirstInside(bufs);
      if h.size > 0 {
        reader.Append(h);
      }
      FreeFirst(reader);
    }

    method FreeFirst(reader: ReadBuffer)
      requires |bufs| > 0 && reader.Valid() && bufs[0].block.refs > Count(reader.bufs, bufs[0].block)
      modifies `bufs, bufs[0].block`refs
      ensures bufs == old(bufs)[1..] && reader.Valid()
      ensures old(bufs)[0].block.refs == old(bufs[0].block.refs) - 1
    {
      hide Flatten, Chunks, Chunk, AllInside, ReadBuffer.Readable, Count;
      bufs[0].block.refs := bufs[0].block.refs - 1;
      bufs := bufs[1..];
    }
  }

  lemma CountFirst(bufs: seq<Handle>)
    requires |bufs| > 0
    ensures forall b: Block :: Count(bufs, b) == (if b == bufs[0].block then 1 else 0) + Count(bufs[1..], b)
  {
  }

  lemma ResizedShape(bufs: seq<Handle>, n: nat)
    requires |bufs| > 0 && AllInside(bufs) && Shaped(bufs) && n <= |bufs[|bufs| - 1].block.data|
    ensures var resized := bufs[|bufs| - 1 := Handle(bufs[|bufs| - 1].block, n, 0)];
            AllInside(resized) && Shaped(resized) && Blocks(resized) == Blocks(bufs)
    ensures Inside(bufs[|bufs| - 1])
  {
    SameBlocks(bufs, bufs[|bufs| - 1 := Handle(bufs[|bufs| - 1].block, n, 0)]);
  }

  lemma ResizedContent(bufs: seq<Handle>, n: nat)
    requires |bufs| > 0 && AllInside(bufs) && Shaped(bufs) && n <= |bufs[|bufs| - 1].block.data|
    ensures AllInside(bufs[|bufs| - 1 := Handle(bufs[|bufs| - 1].block, n, 0)])
    ensures var flat := Flatten(Chunks(bufs));
            var resized := Flatten(Chunks(bufs[|bufs| - 1 := Handle(bufs[|bufs| - 1].block, n, 0)]));
            var size := bufs[|bufs| - 1].size;
            |resized| == |flat| + n - size && if n < size then resized <= flat else flat <= resized
  {
    hide Flatten, Chunks, Chunk;
    var last := |bufs| - 1;
    var h := Handle(bufs[last].block, n, 0);
    ResizedChunk(bufs[last], n);
    LastPiece(Chunks(bufs), Chunk(h));
    ChunksChange(bufs, bufs[last := h], h);
  }

  lemma ResizedChunk(h: Handle, n: nat)
    requires Inside(h) && h.offset == 0 && n <= |h.block.data|
    ensures if n < h.size then Chunk(Handle(h.block, n, 0)) <= Chunk(h) else Chunk(h) <= Chunk(Handle(h.block, n, 0))
  {
  }

  lemma FirstInside(bufs: seq<Handle>)
    requires |bufs| > 0 && AllInside(bufs) && Shaped(bufs)
    ensures Inside(bufs[0]) && bufs[0].block.refs == 1
  {
  }

  lemma SameBlocks(x: seq<Handle>, y: seq<Handle>)
    requires |x| == |y| && forall i | 0 <= i < |x| :: x[i].block == y[i].block
    ensures Blocks(x) == Blocks(y)
  {
  }

  lemma OverwriteNothing(s: seq<byte>, p: nat)
    requires p <= |s|
    ensures Overwrite(s, p, []) == s
  {
  }

  lemma StartKept(x: seq<seq<byte>>, y: seq<seq<byte>>, i: nat)
    requires i <= |x| == |y| && forall k | 0 <= k < |x| :: |x[k]| == |y[k]|
    ensures Start(x, i) == Start(y, i)
  {
    if i > 0 {
      StartKept(x, y, i - 1);
      PieceAt(x, i - 1, 0);
      PieceAt(y, i - 1, 0);
    }
  }

  lemma FirstPiece(chunks: seq<seq<byte>>)
    requires |chunks| > 0
    ensures Flatten(chunks) == chunks[0] + Flatten(chunks[1..])
  {
  }

  // ---- The owners of a block, in any number of buffers ----

  /** Every block counts exactly the handles on it: in this buffer, in that one, and in all others together. */
  ghost predicate Balanced(x: seq<Handle>, y: seq<Handle>, others: seq<Handle>)
    reads (Blocks(x) + Blocks(y) + Blocks(others))`refs
  {
    forall b | b in Blocks(x) + Blocks(y) + Blocks(others) :: b.refs == Count(x, b) + Count(y, b) + Count(others, b)
  }

  lemma CountElsewhere(x: seq<Handle>)
    ensures forall b: Block | b !in Blocks(x) :: Count(x, b) == 0
  {
    forall b: Block | b !in Blocks(x) ensures Count(x, b) == 0 { CountNothing(x, b); }
  }

  /** SwapOut among any other buffers: all counts are right before and after. */
  method SwapOutAmong(w: WriteBuffer, r: ReadBuffer, ghost others: seq<Handle>)
    requires w.Valid() && r.Valid() && r.readBytes == 0 && r.lastBytes == 0
    requires Balanced(w.bufs, r.bufs, others)
    modifies w, r, Blocks(w.bufs)`refs
    ensures w.Valid() && r.Valid() && r.Flat() == old(r.Flat()) + old(w.Flat()) && w.bufs == []
    ensures Balanced(w.bufs, r.bufs, others)
  {
    hide WriteBuffer.Valid, ReadBuffer.Valid, Count;
    ghost var x, y := w.bufs, r.bufs;
    assert forall b | b in Blocks(x) + Blocks(y) :: w.OtherOwners(r, b) == Count(others, b);
    CountElsewhere(x);
    CountElsewhere(y);
    w.SwapOut(r);
    CountElsewhere(w.bufs);
    CountElsewhere(r.bufs);
    forall b | b in Blocks(w.bufs) + Blocks(r.bufs) + Blocks(others)
      ensures b.refs == Count(w.bufs, b) + Count(r.bufs, b) + Count(others, b)
    {
      if b in Blocks(x) + Blocks(y) {
        assert w.OtherOwners(r, b) == Count(others, b);
      } else {
        assert b.refs == old(b.refs);
      }
    }
  }

  /** A reader becomes an owner of a block that some buffer has. */
  method AppendAmong(r: ReadBuffer, h: Handle, ghost others: seq<Handle>)
    requires r.Valid() && Inside(h) && h.size > 0 && r.readBytes == 0 && r.lastBytes == 0
    requires Balanced(r.bufs, [], others) && h.block in Blocks(r.bufs) + Blocks(others)
    modifies r, h.block`refs
    ensures r.Valid() && r.bufs == old(r.bufs) + [h] && Balanced(r.bufs, [], others)
  {
    hide ReadBuffer.Valid, Count;
    ghost var x := r.bufs;
    CountSnoc(x, h);
    r.Append(h);
    forall b | b in Blocks(r.bufs) + Blocks([]) + Blocks(others)
      ensures b.refs == Count(r.bufs, b) + Count([], b) + Count(others, b)
    {
      assert b in Blocks(x) + Blocks(others);
      assert b.refs == old(b.refs) + if b == h.block then 1 else 0;
    }
  }

  /** A writer's new block has no other owner. */
  method NextAmong(w: WriteBuffer, ghost others: seq<Handle>) returns (ok: bool, size: nat)
    requires w.Valid() && Balanced(w.bufs, [], others)
    modifies w
    ensures w.Valid() && ok == (size > 0) && Balanced(w.bufs, [], others)
  {
    hide Count, Shaped, Flatten, Chunks;
    ghost var x := w.bufs;
    CountElsewhere([]);
    ShapedCounts(x);
    ok, size := w.Next();
    ShapedCounts(w.bufs);
    CountElsewhere(w.bufs);
    CountElsewhere([]);
    CountElsewhere(others);
    forall b | b in Blocks(w.bufs) + Blocks([]) + Blocks(others)
      ensures b.refs == Count(w.bufs, b) + Count([], b) + Count(others, b)
    {
      if b in Blocks(x) {
        assert old(b.refs) == 1 + Count(others, b);
      } else if b in Blocks(w.bufs) {
        assert fresh(b);
        assert b !in Blocks(others);
      } else {
        assert b.refs == old(b.refs);
        CountNothing(x, b);
      }
    }
  }

  /** Each block of a writer has one handle there. */
  lemma ShapedCounts(bufs: seq<Handle>)
    requires AllInside(bufs) && Shaped(bufs)
    ensures forall b | b in Blocks(bufs) :: b.refs == 1 && Count(bufs, b) == 1
    decreases |bufs|
  {
    if |bufs| > 0 {
      ShapedTail(bufs);
      ShapedCounts(bufs[1..]);
      CountNothing(bufs[1..], bufs[0].block);
    }
  }
}
