/** The incremental frame splitter of rpc_message_stream.h, and what it makes of a stream cut into chunks. */
module FrameSplitter {
  import opened Bytes

  /** sizeof(RpcMessageHeader): magic (4), meta_size (4), data_size (8), message_size (8). */
  const HEADER_SIZE := 24
  const MAGIC: seq<byte> := [83, 79, 70, 65]

  function LittleEndian(s: seq<byte>): nat {
    if |s| == 0 then 0 else s[0] as int + 256 * LittleEndian(s[1..])
  }

  function MetaSize(h: seq<byte>): int
    requires |h| == HEADER_SIZE
  {
    Signed(LittleEndian(h[4..8]), 0x1_0000_0000)
  }

  function DataSize(h: seq<byte>): int
    requires |h| == HEADER_SIZE
  {
    Signed(LittleEndian(h[8..16]), 0x1_0000_0000_0000_0000)
  }

  function MessageSize(h: seq<byte>): int
    requires |h| == HEADER_SIZE
  {
    Signed(LittleEndian(h[16..24]), 0x1_0000_0000_0000_0000)
  }

  predicate GoodHeader(h: seq<byte>)
    requires |h| == HEADER_SIZE
  {
    h[..4] == MAGIC && MetaSize(h) + DataSize(h) == MessageSize(h)
  }

  datatype Received = Received(message: seq<byte>, metaSize: int, dataSize: int)

  // ---- What a stream of bytes holds ----

  /** How a stream ends: inside a frame, at a bad header, or at a negative size, which the splitter must not meet. */
  datatype End = Inside(rest: seq<byte>) | BadHeader | NegativeSize

  datatype Split = Split(messages: seq<Received>, end: End)

  /** The size of the frame with this header, its header included. */
  function FrameSize(h: seq<byte>): int
    requires |h| == HEADER_SIZE
  {
    HEADER_SIZE + MessageSize(h)
  }

  function FirstFrame(s: seq<byte>): Received
    requires HEADER_SIZE <= |s| && HEADER_SIZE <= FrameSize(s[..HEADER_SIZE]) <= |s|
  {
    var h := s[..HEADER_SIZE];
    Received(s[HEADER_SIZE..FrameSize(h)], MetaSize(h), DataSize(h))
  }

  function Frames(s: seq<byte>): Split
    decreases |s|
  {
    if |s| < HEADER_SIZE then Split([], Inside(s))
    else
      var h := s[..HEADER_SIZE];
      if !GoodHeader(h) then Split([], BadHeader)
      else if FrameSize(h) < HEADER_SIZE then Split([], NegativeSize)
      else if |s| < FrameSize(h) then Split([], Inside(s))
      else
        var tail := Frames(s[FrameSize(h)..]);
        Split([FirstFrame(s)] + tail.messages, tail.end)
  }

  /** Reading on: what was read stays read, and the rest is read together with what follows. */
  lemma {:induction false} FramesOfConcat(a: seq<byte>, b: seq<byte>)
    ensures Frames(a).end.Inside? ==>
      var tail := Frames(Frames(a).end.rest + b);
      Frames(a + b) == Split(Frames(a).messages + tail.messages, tail.end)
    ensures !Frames(a).end.Inside? ==> Frames(a + b) == Frames(a)
    decreases |a|
  {
    hide GoodHeader, FrameSize, MetaSize, DataSize;
    if |a| >= HEADER_SIZE {
      var h := a[..HEADER_SIZE];
      assert (a + b)[..HEADER_SIZE] == h;
      if GoodHeader(h) && HEADER_SIZE <= FrameSize(h) <= |a| {
        var n := FrameSize(h);
        assert (a + b)[n..] == a[n..] + b;
        assert (a + b)[HEADER_SIZE..n] == a[HEADER_SIZE..n];
        FramesOfConcat(a[n..], b);
      }
    }
  }

  /** A complete frame in front. */
  lemma FrameInFront(h: seq<byte>, body: seq<byte>, s: seq<byte>)
    requires |h| == HEADER_SIZE && GoodHeader(h) && |body| == MessageSize(h)
    ensures Frames(h + body + s)
         == Split([Received(body, MetaSize(h), DataSize(h))] + Frames(s).messages, Frames(s).end)
  {
    hide GoodHeader, MetaSize, DataSize, MessageSize;
    var all := h + body + s;
    assert all[..HEADER_SIZE] == h && all[FrameSize(h)..] == s && all[HEADER_SIZE..FrameSize(h)] == body;
  }

  /** A frame that is not complete, or a header that is not. */
  lemma NotYet(h: seq<byte>, body: seq<byte>)
    requires |h| <= HEADER_SIZE
    requires if |h| < HEADER_SIZE then body == [] else GoodHeader(h) && |body| < MessageSize(h)
    ensures Frames(h + body) == Split([], Inside(h + body))
  {
    hide GoodHeader, MessageSize;
    if |h| == HEADER_SIZE {
      assert (h + body)[..HEADER_SIZE] == h;
    }
  }

  lemma NoFrames()
    ensures Frames([]) == Split([], Inside([]))
  {
  }

  lemma BadInFront(h: seq<byte>, s: seq<byte>)
    requires |h| == HEADER_SIZE && (!GoodHeader(h) || MessageSize(h) < 0)
    ensures Frames(h + s) == Split([], if GoodHeader(h) then NegativeSize else BadHeader)
  {
    hide GoodHeader, MessageSize;
    assert (h + s)[..HEADER_SIZE] == h;
  }

  // ---- The splitter ----

  class Splitter {
    var header: seq<byte>           // the first _received_header_size bytes of _receiving_header
    var identified: bool
    var message: seq<byte>          // the bytes of _receiving_message
    var received: int               // _received_message_size

    predicate Valid()
      reads this
    {
      && received == |message|
      && if identified then |header| == HEADER_SIZE && GoodHeader(header) && |message| < MessageSize(header)
         else |header| < HEADER_SIZE && message == []
    }

    /** The bytes taken in and not delivered. */
    function Held(): seq<byte>
      reads this
    {
      header + message
    }

    constructor ()
      ensures Valid() && Held() == []
    {
      header, identified, message, received := [], false, [], 0;
    }

    /** reset_receiving_env */
    method Reset()
      modifies this
      ensures Valid() && Held() == [] && !identified
    {
      header, identified, message, received := [], false, [], 0;
    }

    /** identify_message_header: 1 when the header is complete and good, 0 when it is incomplete, -1 when it is bad. */
    method Identify(data: seq<byte>) returns (result: int, consumed: nat)
      requires |header| < HEADER_SIZE
      modifies this`header
      ensures consumed <= |data| && header == old(header) + data[..consumed] && |header| <= HEADER_SIZE
      ensures |header| < HEADER_SIZE ==> consumed == |data|
      ensures result == if |header| < HEADER_SIZE then 0 else if GoodHeader(header) then 1 else -1
    {
      var missing := HEADER_SIZE - |header|;
      consumed := if |data| < missing then |data| else missing;
      header := header + data[..consumed];
      if |header| < HEADER_SIZE { return 0, consumed; }
      if header[..4] != MAGIC { return -1, consumed; }
      if MetaSize(header) + DataSize(header) != MessageSize(header) { return -1, consumed; }
      return 1, consumed;
    }

    /** The header part of one pass. Without a header to go on with, the whole stream held is unfinished. */
    method TakeHeader(data: seq<byte>) returns (result: int, rest: seq<byte>)
      requires Valid() && !identified && Frames(Held() + data).end != NegativeSize
      modifies this
      ensures result < 0 ==> Frames(old(Held()) + data) == Split([], BadHeader)
      ensures result >= 0 ==> Held() + rest == old(Held()) + data && message == [] && received == 0 && |rest| <= |data|
      ensures result == 0 ==> Valid() && rest == []
      ensures result > 0 ==> identified && |header| == HEADER_SIZE && GoodHeader(header) && 0 <= MessageSize(header)
      ensures result > 0 ==> |rest| < |data|
    {
      hide Frames, GoodHeader, MessageSize, MetaSize, DataSize;
      var consumed;
      result, consumed := Identify(data);
      rest := data[consumed..];
      assert old(Held()) == old(header);
      assert header + rest == old(header) + data;
      if result > 0 {
        if MessageSize(header) < 0 { BadInFront(header, rest); }
        identified := true;
        assert Held() == header;
      } else if result < 0 {
        BadInFront(header, rest);
      }
    }

    /** The body part of one pass: either all of the data belongs to the message, or the message is complete. */
    method TakeBody(data: seq<byte>) returns (complete: bool, item: Received, rest: seq<byte>)
      requires identified && |header| == HEADER_SIZE && GoodHeader(header)
      requires received == |message| <= MessageSize(header)
      modifies this
      ensures Valid()
      ensures !complete ==> Held() == old(Held()) + data
      ensures complete ==> Held() == [] && |rest| <= |data| && (old(received < MessageSize(header)) ==> |rest| < |data|)
      ensures complete ==> Frames(old(Held()) + data) == Split([item] + Frames(rest).messages, Frames(rest).end)
    {
      hide Frames, GoodHeader, MessageSize, MetaSize, DataSize;
      var messageSize := MessageSize(header);
      if received + |data| < messageSize {
        message := message + data;
        received := received + |data|;
        return false, Received([], 0, 0), [];
      }
      var consume := messageSize - received;
      if consume > 0 { message := message + data[..consume]; }
      item := Received(message, MetaSize(header), DataSize(header));
      rest := data[consume..];
      FrameInFront(header, message, rest);
      assert header + message + rest == old(Held()) + data;
      Reset();
      complete := true;
    }

    /**
     split_and_process_message: what the held bytes and the new ones hold together. On a bad header the chunk
     is given up.
     */
    method Process(chunk: seq<byte>) returns (ok: bool, messages: seq<Received>)
      requires Valid() && Frames(Held() + chunk).end != NegativeSize
      modifies this
      ensures ok <==> Frames(old(Held()) + chunk).end.Inside?
      ensures ok ==> Valid() && Split(messages, Inside(Held())) == Frames(old(Held()) + chunk)
    {
      hide Frames, GoodHeader, MessageSize, MetaSize, DataSize;
      messages := [];
      var data := chunk;
      ghost var all := Held() + chunk;
      while |data| > 0
        invariant Valid()
        invariant Frames(all) == Split(messages + Frames(Held() + data).messages, Frames(Held() + data).end)
        invariant Frames(Held() + data).end != NegativeSize
        decreases |data|
      {
        if !identified {
          var result, rest := TakeHeader(data);
          if result < 0 { return false, messages; }
          data := rest;
          if result == 0 || (data == [] && MessageSize(header) > 0) { break; }
        }
        var complete, item, rest := TakeBody(data);
        if !complete { data := []; break; }
        assert messages + ([item] + Frames(rest).messages) == (messages + [item]) + Frames(rest).messages;
        messages, data := messages + [item], rest;
        assert Held() + data == data;
      }
      NotYet(header, message);
      assert Held() + data == header + message;
      return true, messages;
    }
  }

  // ---- Chunks ----

  /** What a splitter delivers from these chunks; at a bad header it closes, without the messages of that chunk. */
  function Feed(held: seq<byte>, chunks: seq<seq<byte>>): Split
    decreases |chunks|
  {
    if |chunks| == 0 then Split([], Inside(held))
    else
      var first := Frames(held + chunks[0]);
      if !first.end.Inside? then Split([], first.end)
      else
        var tail := Feed(first.end.rest, chunks[1..]);
        Split(first.messages + tail.messages, tail.end)
  }

  /** The splitter, fed chunk after chunk. */
  method FeedAll(splitter: Splitter, chunks: seq<seq<byte>>) returns (ok: bool, messages: seq<Received>)
    requires splitter.Valid() && Feed(splitter.Held(), chunks).end != NegativeSize
    modifies splitter
    ensures messages == Feed(old(splitter.Held()), chunks).messages
    ensures ok <==> Feed(old(splitter.Held()), chunks).end.Inside?
    decreases |chunks|
  {
    hide Frames;
    if |chunks| == 0 { return true, []; }
    ok, messages := splitter.Process(chunks[0]);
    if !ok { return false, []; }
    var more;
    ok, more := FeedAll(splitter, chunks[1..]);
    messages := messages + more;
  }

  /** However a good stream is cut up, the same messages come out, and the same bytes are left over. */
  lemma {:induction false} ChunkingIrrelevant(held: seq<byte>, chunks: seq<seq<byte>>)
    requires Frames(held) == Split([], Inside(held))
    ensures Frames(held + Flatten(chunks)).end.Inside? ==> Feed(held, chunks) == Frames(held + Flatten(chunks))
    ensures !Frames(held + Flatten(chunks)).end.Inside? ==>
      && Feed(held, chunks).end == Frames(held + Flatten(chunks)).end
      && Feed(held, chunks).messages <= Frames(held + Flatten(chunks)).messages
    decreases |chunks|
  {
    hide Frames;
    if |chunks| == 0 {
      assert held + Flatten(chunks) == held;
    } else {
      var now, later := held + chunks[0], Flatten(chunks[1..]);
      assert held + Flatten(chunks) == now + later;
      FramesOfConcat(now, later);
      if Frames(now).end.Inside? {
        RestIsUnfinished(now);
        ChunkingIrrelevant(Frames(now).end.rest, chunks[1..]);
      }
    }
  }

  lemma {:induction false} RestIsUnfinished(s: seq<byte>)
    requires Frames(s).end.Inside?
    ensures Frames(Frames(s).end.rest) == Split([], Inside(Frames(s).end.rest))
    decreases |s|
  {
    hide GoodHeader, FrameSize, FirstFrame;
    if |s| >= HEADER_SIZE && |s| >= FrameSize(s[..HEADER_SIZE]) {
      RestIsUnfinished(s[FrameSize(s[..HEADER_SIZE])..]);
    }
  }

  /**
   Exactly when cutting up cannot matter: when no bad header comes after a complete message. Otherwise that
   message is lost if the bad header arrives in the same chunk, and delivered if it arrives later.
   */
  lemma ChunkingMatters(s: seq<byte>)
    requires Frames(s).end != NegativeSize
    ensures (forall chunks | Flatten(chunks) == s :: Feed([], chunks).messages == Frames(s).messages)
       <==> Frames(s).end.Inside? || Frames(s).messages == []
  {
    hide Frames;
    NoFrames();
    forall chunks | Flatten(chunks) == s
      ensures Feed([], chunks).messages == (if Frames(s).end.Inside? then Frames(s).messages else Feed([], chunks).messages)
      ensures Feed([], chunks).messages <= Frames(s).messages
    {
      ChunkingIrrelevant([], chunks);
      assert [] + Flatten(chunks) == s;
    }
    assert Flatten([s]) == s && Flatten([s][1..]) == [];
    assert [] + s == s;
    if !Frames(s).end.Inside? {
      assert Feed([], [s]).messages == [];
    }
  }

  // ---- What the sender writes ----

  function ToBytes(n: nat, k: nat): (b: seq<byte>)
    ensures |b| == k
  {
    if k == 0 then [] else [n % 256] + ToBytes(n / 256, k - 1)
  }

  function Power(k: nat): nat {
    if k == 0 then 1 else 256 * Power(k - 1)
  }

  lemma {:induction false} ReadBack(n: nat, k: nat)
    requires n < Power(k)
    ensures LittleEndian(ToBytes(n, k)) == n
    decreases k
  {
    if k > 0 {
      assert ToBytes(n, k)[1..] == ToBytes(n / 256, k - 1);
      ReadBack(n / 256, k - 1);
    }
  }

  function Header(metaSize: nat, dataSize: nat): seq<byte> {
    MAGIC + ToBytes(metaSize, 4) + ToBytes(dataSize, 8) + ToBytes(metaSize + dataSize, 8)
  }

  /** A message that fits the header's signed fields. */
  predicate Sendable(m: Received) {
    && 0 <= m.metaSize < 0x8000_0000 && 0 <= m.dataSize && |m.message| == m.metaSize + m.dataSize
    && |m.message| < 0x8000_0000_0000_0000
  }

  function Write(messages: seq<Received>): seq<byte>
    requires forall i | 0 <= i < |messages| :: Sendable(messages[i])
  {
    if |messages| == 0 then []
    else
      var m := messages[0];
      assert Sendable(m);
      Header(m.metaSize, m.dataSize) + m.message + Write(messages[1..])
  }

  lemma HeaderFields(m: Received)
    requires Sendable(m)
    ensures var h := Header(m.metaSize, m.dataSize);
            && |h| == HEADER_SIZE && GoodHeader(h)
            && MetaSize(h) == m.metaSize && DataSize(h) == m.dataSize && MessageSize(h) == |m.message|
  {
    var h := Header(m.metaSize, m.dataSize);
    assert h[..4] == MAGIC;
    assert h[4..8] == ToBytes(m.metaSize, 4);
    assert h[8..16] == ToBytes(m.dataSize, 8);
    assert h[16..24] == ToBytes(m.metaSize + m.dataSize, 8);
    assert Power(4) == 0x1_0000_0000 && Power(8) == Power(4) * Power(4);
    ReadBack(m.metaSize, 4);
    ReadBack(m.dataSize, 8);
    ReadBack(m.metaSize + m.dataSize, 8);
  }

  lemma LittleEndianOf4(b: seq<byte>)
    requires |b| == 4
    ensures LittleEndian(b) == b[0] as int + 0x100 * (b[1] as int) + 0x1_0000 * (b[2] as int) + 0x100_0000 * (b[3] as int)
  {
    LittleEndianFirst(b);
    LittleEndianFirst(b[1..]);
    LittleEndianFirst(b[2..]);
    LittleEndianFirst(b[3..]);
    assert b[1..][1..] == b[2..] && b[2..][1..] == b[3..] && b[3..][1..] == [];
  }

  lemma LittleEndianFirst(b: seq<byte>)
    requires |b| > 0
    ensures LittleEndian(b) == b[0] as int + 256 * LittleEndian(b[1..]) && LittleEndian([]) == 0
  {
  }

  lemma LittleEndianOf8(b: seq<byte>)
    requires |b| == 8
    ensures LittleEndian(b) == LittleEndian(b[..4]) + 0x1_0000_0000 * LittleEndian(b[4..])
  {
    LittleEndianFront(b, 4);
    assert Power(4) == 0x1_0000_0000;
  }

  lemma {:induction false} LittleEndianFront(b: seq<byte>, n: nat)
    requires n <= |b|
    ensures LittleEndian(b) == LittleEndian(b[..n]) + Power(n) * LittleEndian(b[n..])
    decreases n
  {
    if n == 0 {
      assert b[..0] == [] && b[0..] == b;
    } else {
      LittleEndianFront(b[1..], n - 1);
      assert b[..n][1..] == b[1..][..n - 1] && b[1..][n - 1..] == b[n..];
      LittleEndianFirst(b);
      LittleEndianFirst(b[..n]);
      Times256(LittleEndian(b[1..][..n - 1]), Power(n - 1), LittleEndian(b[n..]));
    }
  }

  lemma Times256(x: int, p: int, y: int)
    ensures 256 * (x + p * y) == 256 * x + 256 * p * y
  {
  }

  predicate Spells(b: seq<byte>, text: string) {
    |b| == |text| && forall i | 0 <= i < |b| :: b[i] as int == text[i] as int
  }

  /** The 32 bits at i, the low byte first. */
  function Word(h: seq<byte>, i: nat): (w: nat)
    requires i + 4 <= |h|
  {
    h[i] as int + 0x100 * (h[i + 1] as int) + 0x1_0000 * (h[i + 2] as int) + 0x100_0000 * (h[i + 3] as int)
  }

  /** A sent header, byte by byte: the letters SOFA, and three sizes of four, eight and eight bytes. */
  lemma HeaderBytes(m: Received)
    requires Sendable(m)
    ensures var h := Header(m.metaSize, m.dataSize);
            && |h| == 24
            && Spells(h[..4], "SOFA")
            && m.metaSize == Word(h, 4) && m.dataSize == Word(h, 8) + 0x1_0000_0000 * Word(h, 12)
            && |m.message| == Word(h, 16) + 0x1_0000_0000 * Word(h, 20)
  {
    HeaderFields(m);
    hide Header, LittleEndian, Sendable;
    var h := Header(m.metaSize, m.dataSize);
    MagicIs(h);
    WordIs(h, 4);
    DoubleWordIs(h, 8);
    DoubleWordIs(h, 16);
  }

  lemma WordIs(h: seq<byte>, i: nat)
    requires i + 4 <= |h|
    ensures LittleEndian(h[i..i + 4]) == Word(h, i)
  {
    LittleEndianOf4(h[i..i + 4]);
  }

  lemma DoubleWordIs(h: seq<byte>, i: nat)
    requires i + 8 <= |h|
    ensures LittleEndian(h[i..i + 8]) == Word(h, i) + 0x1_0000_0000 * Word(h, i + 4)
  {
    hide LittleEndian, Word;
    LittleEndianOf8(h[i..i + 8]);
    assert h[i..i + 8][..4] == h[i..i + 4] && h[i..i + 8][4..] == h[i + 4..i + 8];
    WordIs(h, i);
    WordIs(h, i + 4);
  }

  /** Any 24 bytes are refused exactly if the letters or the sum of the sizes, which are signed, are not right. */
  lemma BadHeaderExactly(h: seq<byte>, s: seq<byte>)
    requires |h| == 24
    ensures
      var meta := Signed(Word(h, 4), 0x1_0000_0000);
      var data := Signed(Word(h, 8) + 0x1_0000_0000 * Word(h, 12), 0x1_0000_0000_0000_0000);
      var message := Signed(Word(h, 16) + 0x1_0000_0000 * Word(h, 20), 0x1_0000_0000_0000_0000);
      Frames(h + s) == Split([], BadHeader) <==> !(Spells(h[..4], "SOFA") && meta + data == message)
  {
    hide LittleEndian, Word, Signed;
    MagicIs(h);
    WordIs(h, 4);
    DoubleWordIs(h, 8);
    DoubleWordIs(h, 16);
    assert (h + s)[..HEADER_SIZE] == h;
    if GoodHeader(h) { NotBad(h, s); }
  }

  lemma MagicIs(h: seq<byte>)
    requires |h| == 24
    ensures h[..4] == MAGIC <==> Spells(h[..4], "SOFA")
  {
  }

  lemma NotBad(h: seq<byte>, s: seq<byte>)
    requires |h| == HEADER_SIZE && GoodHeader(h)
    ensures Frames(h + s) != Split([], BadHeader)
  {
    assert (h + s)[..HEADER_SIZE] == h;
  }

  /** Whatever is sent, cut up in whatever way, is received: the same messages, in order, and nothing is left. */
  lemma {:induction false} WrittenIsReceived(messages: seq<Received>, chunks: seq<seq<byte>>)
    requires forall i | 0 <= i < |messages| :: Sendable(messages[i])
    requires Flatten(chunks) == Write(messages)
    ensures Feed([], chunks) == Split(messages, Inside([]))
  {
    hide Frames, Write, Feed;
    WrittenFrames(messages);
    assert [] + Flatten(chunks) == Write(messages);
    NoFrames();
    ChunkingIrrelevant([], chunks);
  }

  lemma {:induction false} WrittenFrames(messages: seq<Received>)
    requires forall i | 0 <= i < |messages| :: Sendable(messages[i])
    ensures Frames(Write(messages)) == Split(messages, Inside([]))
    decreases |messages|
  {
    hide Frames, GoodHeader, MetaSize, DataSize, MessageSize, Header;
    if |messages| == 0 {
      NoFrames();
    } else {
      var m := messages[0];
      HeaderFields(m);
      FrameInFront(Header(m.metaSize, m.dataSize), m.message, Write(messages[1..]));
      WrittenFrames(messages[1..]);
      assert messages == [m] + messages[1..];
    }
  }

  lemma ZerosAreNoHeader(h: seq<byte>)
    requires h == seq(HEADER_SIZE, _ => 0)
    ensures Frames(h) == Split([], BadHeader)
  {
    assert h[0] == h[..4][0] != MAGIC[0];
    assert h + [] == h;
    BadInFront(h, []);
  }

  lemma OneChunk(a: seq<byte>)
    ensures Flatten([a]) == a
    ensures Feed([], [a]) == if Frames(a).end.Inside? then Frames(a) else Split([], Frames(a).end)
  {
    hide Frames;
    assert [a][1..] == [] && [] + a == a && a + [] == a;
    if Frames(a).end.Inside? { assert Feed(Frames(a).end.rest, []) == Split([], Frames(a).end); }
  }

  lemma TwoChunks(a: seq<byte>, b: seq<byte>)
    requires Frames(a).end == Inside([])
    ensures Flatten([a, b]) == a + b
    ensures Feed([], [a, b]) == Split(Frames(a).messages + Feed([], [b]).messages, Feed([], [b]).end)
  {
    hide Frames;
    assert [a, b][1..] == [b] && [] + a == a;
    OneChunk(b);
  }

  /** A message and then a header with a bad magic: in one chunk nothing is delivered, in two the message is. */
  lemma DroppedWithBadHeader(m: Received)
    requires Sendable(m)
    ensures var message, bad := Write([m]), seq(HEADER_SIZE, _ => 0);
            && Flatten([message + bad]) == Flatten([message, bad])
            && Feed([], [message + bad]) == Split([], BadHeader)
            && Feed([], [message, bad]) == Split([m], BadHeader)
  {
    hide Write, Frames, Feed;
    var message, bad: seq<byte> := Write([m]), seq(HEADER_SIZE, _ => 0);
    ZerosAreNoHeader(bad);
    WrittenFrames([m]);
    FramesOfConcat(message, bad);
    assert [] + bad == bad && [m] + [] == [m];
    OneChunk(message + bad);
    OneChunk(bad);
    TwoChunks(message, bad);
  }
}
