/**
 The two request parsers of the server, which take a request's bytes in whatever chunks they arrive, after the four
 bytes that identify the protocol: the binary one (binary_rpc_request_parser.cc) and the HTTP one
 (http_rpc_request_parser.cc).
 */
module RequestParsers {
  import opened Bytes
  import opened Common
  import Frame = FrameSplitter

  const SP: byte := 32
  const CR: byte := 13
  const LF: byte := 10
  const COLON: byte := 58
  const MAX_MESSAGE_SIZE: nat := 0x400_0000 + Frame.HEADER_SIZE
  const CONTENT_LENGTH: seq<byte> := [67, 111, 110, 116, 101, 110, 116, 45, 76, 101, 110, 103, 116, 104]
  const ACCEPT: seq<byte> := [65, 99, 99, 101, 112, 116]
  const ACCEPT_PROTOBUF: seq<byte> :=
    [97, 112, 112, 108, 105, 99, 97, 116, 105, 111, 110, 47, 112, 114, 111, 116, 111, 98, 117, 102]

  datatype Phase =
    Method | Path | Version | NewLine1 | LineStart | Name | Colon | Value | NewLine2 | Body

  datatype Type = GET | POST | POST_PB

  type Headers = map<seq<byte>, seq<byte>>

  datatype BinaryState = BinaryState(header: seq<byte>, payload: seq<byte>, bad: bool)

  datatype HttpState = HttpState(
    phase: Phase, kind: Type, path: seq<byte>, version: seq<byte>, name: seq<byte>, value: seq<byte>,
    headers: Headers, length: nat, body: seq<byte>, bad: bool)

  /** A parser's fields; `bad` after it has returned -1. */
  datatype Parser = Binary(b: BinaryState) | Http(h: HttpState)

  datatype Status = Going | Done | Failed

  /** What the parser has after each byte; a request is done as soon as nothing is missing. */
  function StatusOf(p: Parser): Status {
    match p
    case Binary(b) =>
      if b.bad then Failed
      else if |b.header| == Frame.HEADER_SIZE && Frame.MessageSize(b.header) == |b.payload| then Done
      else Going
    case Http(h) =>
      if h.bad then Failed else if h.phase == Body && |h.body| == h.length then Done else Going
  }

  // ---- One byte ----

  function BinaryByte(b: BinaryState, c: byte): BinaryState {
    if |b.header| < Frame.HEADER_SIZE then b.(header := b.header + [c])
    else if |b.header| > Frame.HEADER_SIZE then b.(bad := true)
    else
      var remain := Frame.MessageSize(b.header) - |b.payload|;
      if remain > MAX_MESSAGE_SIZE || remain <= 0 then b.(bad := true) else b.(payload := b.payload + [c])
  }

  predicate IsSpace(c: byte) { c == 32 || 9 <= c <= 13 }

  function SkipSpace(s: seq<byte>): seq<byte> {
    if |s| > 0 && IsSpace(s[0]) then SkipSpace(s[1..]) else s
  }

  function Digits(s: seq<byte>, acc: nat): (r: (nat, seq<byte>)) {
    if |s| > 0 && IsDigit(s[0]) then Digits(s[1..], 10 * acc + s[0] - 48) else (acc, s)
  }

  /** strtoll in base 10, which must take all of the C string and give a number that is not negative. */
  function ContentLength(value: seq<byte>): Option<nat> {
    var s := CString(value);
    var t := SkipSpace(s);
    var minus := |t| > 0 && t[0] == 45;
    var u := if minus || (|t| > 0 && t[0] == 43) then t[1..] else t;
    if |u| == 0 || !IsDigit(u[0]) then (if s == [] then Some(0) else None)
    else
      var (n, rest) := Digits(u, 0);
      if rest != [] || (minus && n > 0) then None
      else Some(if n > 0x7FFF_FFFF_FFFF_FFFF then 0x7FFF_FFFF_FFFF_FFFF else n)
  }

  /** The length of the body that the headers announce. */
  function BodyLength(headers: Headers): Option<nat> {
    if CONTENT_LENGTH in headers then ContentLength(headers[CONTENT_LENGTH]) else Some(0)
  }

  predicate WantsProtobuf(headers: Headers) {
    ACCEPT in headers && headers[ACCEPT] == ACCEPT_PROTOBUF
  }

  /** ParsePath */
  predicate GoodPath(path: seq<byte>) {
    |path| > 0 && path[0] == 47
  }

  /** ParseInternal, and the bytes of the body. */
  function HttpByte(p: HttpState, c: byte): HttpState {
    match p.phase
    case Method => if c == SP then p.(phase := Path) else p.(bad := true)
    case Path =>
      if c != SP then p.(path := p.path + [c])
      else if GoodPath(p.path) then p.(phase := Version)
      else p.(bad := true)
    case Version => if c == CR then p.(phase := NewLine1) else p.(version := p.version + [c])
    case NewLine1 => if c == LF then p.(phase := LineStart) else p.(bad := true)
    case LineStart => if c == CR then p.(phase := NewLine2) else p.(phase := Name, name := [c], value := [])
    case Name => if c == COLON then p.(phase := Colon) else p.(name := p.name + [c])
    case Colon => if c == SP then p.(phase := Value) else p.(bad := true)
    case Value =>
      if c != CR then p.(value := p.value + [c])
      else if p.name != [] then p.(phase := NewLine1, headers := p.headers[p.name := p.value])
      else p.(phase := NewLine1)
    case NewLine2 =>
      if c != LF then p.(bad := true)
      else
        (match BodyLength(p.headers)
         case None => p.(bad := true)
         case Some(n) => p.(phase := Body, length := n, kind := if WantsProtobuf(p.headers) then POST_PB else p.kind))
    case Body => p.(body := p.body + [c])
  }

  function Byte(p: Parser, c: byte): Parser {
    match p
    case Binary(b) => Binary(BinaryByte(b, c))
    case Http(h) => Http(HttpByte(h, c))
  }

  // ---- Many bytes ----

  /** Byte after byte while the request is not done; the parser then, and how many bytes it took. */
  function Feed(p: Parser, s: seq<byte>): (r: (Parser, nat))
    ensures r.1 <= |s|
    ensures StatusOf(r.0) == Going ==> r.1 == |s|
    decreases |s|
  {
    if |s| == 0 || StatusOf(p) != Going then (p, 0)
    else
      var r := Feed(Byte(p, s[0]), s[1..]);
      (r.0, r.1 + 1)
  }

  lemma {:induction false} FeedConcat(p: Parser, a: seq<byte>, b: seq<byte>)
    ensures
      var first := Feed(p, a);
      Feed(p, a + b)
      == if StatusOf(first.0) == Going then (Feed(first.0, b).0, |a| + Feed(first.0, b).1) else first
    decreases |a|
  {
    hide Byte, StatusOf;
    if |a| == 0 {
      assert a + b == b;
      if StatusOf(p) != Going { assert Feed(p, a + b) == (p, 0); }
    } else if StatusOf(p) == Going {
      assert (a + b)[1..] == a[1..] + b;
      FeedConcat(Byte(p, a[0]), a[1..], b);
    }
  }

  // ---- Bytes taken at once ----

  /** The header's bytes, copied together. */
  lemma {:induction false} FeedHeader(b: BinaryState, s: seq<byte>)
    requires !b.bad && |b.header| + |s| <= Frame.HEADER_SIZE && |b.header| < Frame.HEADER_SIZE
    ensures Feed(Binary(b), s) == (Binary(b.(header := b.header + s)), |s|)
    decreases |s|
  {
    if |s| == 0 {
      assert b.header + s == b.header;
    } else {
      var q := BinaryByte(b, s[0]);
      assert q.header + s[1..] == b.header + s;
      if |s| > 1 { FeedHeader(q, s[1..]); } else { assert q.header == b.header + s; }
    }
  }

  /** The same for the payload, of which some is missing. */
  lemma {:induction false} FeedPayload(b: BinaryState, s: seq<byte>)
    requires !b.bad && |b.header| == Frame.HEADER_SIZE
    requires 0 < Frame.MessageSize(b.header) - |b.payload| <= MAX_MESSAGE_SIZE
    requires |s| <= Frame.MessageSize(b.header) - |b.payload|
    ensures Feed(Binary(b), s) == (Binary(b.(payload := b.payload + s)), |s|)
    decreases |s|
  {
    hide Frame.MessageSize;
    if |s| == 0 {
      assert b.payload + s == b.payload;
    } else {
      var q := BinaryByte(b, s[0]);
      assert q.payload + s[1..] == b.payload + s;
      if |s| > 1 { FeedPayload(q, s[1..]); } else { assert q.payload == b.payload + s; }
    }
  }

  /** The same for an HTTP body. */
  lemma {:induction false} FeedBody(h: HttpState, s: seq<byte>)
    requires !h.bad && h.phase == Body && |h.body| + |s| <= h.length
    ensures Feed(Http(h), s) == (Http(h.(body := h.body + s)), |s|)
    decreases |s|
  {
    if |s| == 0 {
      assert h.body + s == h.body;
    } else {
      var q := HttpByte(h, s[0]);
      assert q.body + s[1..] == h.body + s;
      FeedBody(q, s[1..]);
    }
  }

  // ---- The int that counts the bytes of an HTTP body ----

  const INT_RANGE: nat := 0x1_0000_0000

  /** What bytes_remain, an int, holds of the number of bytes that are missing. */
  function Remain(missing: nat): int { Signed(missing % INT_RANGE, INT_RANGE) }

  /** What comes of `more` bytes of the body is right although they are counted by that int. */
  predicate Fits(missing: nat, more: nat) {
    missing < 0x8000_0000 || (Remain(missing) != 0 && more <= if Remain(missing) > 0 then Remain(missing) else 0)
  }

  function Missing(h: HttpState): nat {
    if |h.body| <= h.length then h.length - |h.body| else 0
  }

  predicate Sound(h: HttpState) {
    if h.phase == Body then |h.body| <= h.length else h.body == []
  }

  /** The same for bytes of which some belong to the header. */
  predicate Counted(h: HttpState, s: seq<byte>)
    decreases |s|
  {
    if h.bad then true
    else if h.phase == Body then Fits(Missing(h), |s|)
    else |s| == 0 || Counted(HttpByte(h, s[0]), s[1..])
  }

  lemma RemainOfLess(m: nat, k: nat)
    requires k <= Remain(m)
    ensures k <= m && Remain(m - k) == Remain(m) - k
  {
    assert (m - k) % INT_RANGE == m % INT_RANGE - k;
  }

  lemma {:induction false} CountedConcat(h: HttpState, a: seq<byte>, b: seq<byte>)
    requires Sound(h) && Counted(h, a + b) && |b| > 0
    ensures Counted(h, a)
    ensures var next := Feed(Http(h), a).0; StatusOf(next) == Going ==> next.Http? && Counted(next.h, b)
    decreases |a|
  {
    if |a| == 0 {
      assert a + b == b;
    } else if StatusOf(Http(h)) == Going {
      if h.phase == Body {
        CountedBody(h, a, |b|);
      } else {
        assert (a + b)[1..] == a[1..] + b;
        CountedConcat(HttpByte(h, a[0]), a[1..], b);
      }
    }
  }

  lemma CountedBody(h: HttpState, a: seq<byte>, more: nat)
    requires !h.bad && h.phase == Body && |h.body| < h.length && more > 0 && Fits(Missing(h), |a| + more)
    ensures Fits(Missing(h), |a|)
    ensures var next := Feed(Http(h), a).0;
            StatusOf(next) == Going ==> next.Http? && next.h.phase == Body && Fits(Missing(next.h), more)
  {
    hide Feed, Remain;
    if |a| < Missing(h) {
      FeedBody(h, a);
      if Missing(h) >= 0x8000_0000 { RemainOfLess(Missing(h), |a|); }
    } else {
      var front, back := a[..Missing(h)], a[Missing(h)..];
      assert a == front + back;
      FeedBody(h, front);
      FeedConcat(Http(h), front, back);
    }
  }

  /** A length that an int can hold is counted right. */
  lemma {:induction false} CountedBelowLimit(h: HttpState, s: seq<byte>)
    requires Feed(Http(h), s).0.Http? && Feed(Http(h), s).0.h.length < 0x8000_0000
    ensures Counted(h, s)
    decreases |s|
  {
    if StatusOf(Http(h)) == Going {
      if h.phase == Body {
        LengthStays(h, s);
      } else if |s| > 0 {
        CountedBelowLimit(HttpByte(h, s[0]), s[1..]);
      }
    }
  }

  lemma {:induction false} LengthStays(h: HttpState, s: seq<byte>)
    requires h.phase == Body
    ensures Feed(Http(h), s).0.Http? && Feed(Http(h), s).0.h.length == h.length
    decreases |s|
  {
    if |s| > 0 && StatusOf(Http(h)) == Going { LengthStays(HttpByte(h, s[0]), s[1..]); }
  }

  lemma NoMore(p: Parser, s: seq<byte>)
    requires StatusOf(p) != Going
    ensures Feed(p, s) == (p, 0)
  {
  }

  // ---- The binary parser ----

  /** The check in ReadBuffer::Append ends the process; nothing is returned. */
  const CHECK_FAILED: int := -2

  function ReturnCode(s: Status): int {
    match s
    case Going => 0
    case Done => 1
    case Failed => -1
  }

  class BinaryParser {
    var header: seq<byte>
    var payload: seq<byte>
    var inBody: bool       // _state
    var bad: bool          // Parse has returned -1

    ghost function View(): Parser
      reads this
    {
      Binary(BinaryState(header, payload, bad))
    }

    predicate Valid()
      reads this
    {
      |header| <= Frame.HEADER_SIZE && (inBody ==> |header| == Frame.HEADER_SIZE) && (payload != [] ==> inBody)
      && (!inBody && |header| == Frame.HEADER_SIZE ==> Frame.MessageSize(header) == 0)
    }

    /** After CheckMagicString. */
    constructor ()
      ensures Valid() && View() == Binary(BinaryState(Frame.MAGIC, [], false))
    {
      header, payload, inBody, bad := Frame.MAGIC, [], false, false;
    }

    /**
     A chunk of a request that is not done. `metaParses` is what protobuf says about the meta if it is asked; all
     else depends on the bytes alone.
     */
    method Parse(chunk: seq<byte>, metaParses: bool) returns (ret: int, consumed: nat)
      requires Valid() && |chunk| > 0 && StatusOf(View()) == Going
      modifies this
      ensures Valid() && View() == Feed(old(View()), chunk).0
      ensures !bad ==> consumed == Feed(old(View()), chunk).1
      ensures ret == if StatusOf(View()) == Done && !metaParses && inBody then -1 else ReturnCode(StatusOf(View()))
    {
      consumed := 0;
      var data := chunk;
      if !inBody {
        var n := if |data| < Frame.HEADER_SIZE - |header| then |data| else Frame.HEADER_SIZE - |header|;
        FeedHeader(View().b, data[..n]);
        FeedConcat(View(), data[..n], data[n..]);
        assert data[..n] + data[n..] == data;
        header, consumed := header + data[..n], n;
        if |header| < Frame.HEADER_SIZE { return 0, consumed; }
        if Frame.MessageSize(header) == 0 { return 1, consumed; }
        data, inBody := data[n..], true;
        if |data| == 0 { return 0, consumed; }
      }
      var more;
      ret, more := ParseBody(data, metaParses);
      consumed := consumed + more;
    }

    method ParseBody(data: seq<byte>, metaParses: bool) returns (ret: int, consumed: nat)
      requires Valid() && inBody && |data| > 0 && StatusOf(View()) == Going
      modifies `payload, `bad
      ensures Valid() && View() == Feed(old(View()), data).0
      ensures !bad ==> consumed == Feed(old(View()), data).1
      ensures ret == if StatusOf(View()) == Done && !metaParses then -1 else ReturnCode(StatusOf(View()))
    {
      var remain := Frame.MessageSize(header) - |payload|;
      if remain > MAX_MESSAGE_SIZE || remain <= 0 {
        FailsAtOnce(View(), data);
        bad := true;
        return -1, 0;
      }
      var n := if |data| < remain then |data| else remain;
      FeedPayload(View().b, data[..n]);
      FeedConcat(View(), data[..n], data[n..]);
      assert data[..n] + data[n..] == data;
      payload, consumed := payload + data[..n], n;
      if |payload| == Frame.MessageSize(header) {
        ret := if metaParses then 1 else -1;
      } else {
        ret := 0;
      }
    }
  }

  lemma FailsAtOnce(p: Parser, s: seq<byte>)
    requires |s| > 0 && StatusOf(p) == Going && StatusOf(Byte(p, s[0])) == Failed
    ensures Feed(p, s).0 == Byte(p, s[0])
  {
  }

  // ---- The HTTP parser ----

  /** What the bytes behind the header make of the body. */
  lemma WholeBody(h: HttpState, s: seq<byte>)
    requires !h.bad && h.phase == Body && |h.body| <= h.length
    ensures var n := if |s| < h.length - |h.body| then |s| else h.length - |h.body|;
            Feed(Http(h), s) == (Http(h.(body := h.body + s[..n])), n)
  {
    var n := if |s| < h.length - |h.body| then |s| else h.length - |h.body|;
    assert s == s[..n] + s[n..];
    FeedBody(h, s[..n]);
    FeedConcat(Http(h), s[..n], s[n..]);
    if n < |s| { NoMore(Http(h.(body := h.body + s[..n])), s[n..]); }
  }

  class HttpParser {
    var state: Phase
    var kind: Type
    var path: seq<byte>
    var version: seq<byte>
    var headerName: seq<byte>
    var headerValue: seq<byte>
    var headers: Headers
    var contentLength: nat
    var body: seq<byte>
    var bad: bool

    ghost function View(): Parser
      reads this
    {
      Http(HttpState(state, kind, path, version, headerName, headerValue, headers, contentLength, body, bad))
    }

    ghost predicate Valid()
      reads this
    {
      Sound(View().h)
    }

    /** After CheckMagicString. */
    constructor (post: bool)
      ensures Valid() && View() == Http(StartHttp(post))
    {
      state, kind := if post then Method else Path, if post then POST else GET;
      path, version, headerName, headerValue, headers, contentLength, body, bad := [], [], [], [], map[], 0, [], false;
    }

    /** Gives 1 at the end of the headers. */
    method ParseInternal(c: byte) returns (ret: int)
      requires Valid() && StatusOf(View()) == Going && state != Body
      modifies this
      ensures Valid() && View() == Byte(old(View()), c) && View().h == HttpByte(old(View()).h, c)
      ensures ret == if bad then -1 else if state == Body then 1 else 0
    {
      ret := 0;
      match state {
        case Method => if c == SP { state := Path; } else { bad, ret := true, -1; }
        case Path =>
          if c != SP { path := path + [c]; }
          else if !GoodPath(path) { bad, ret := true, -1; }
          else { state := Version; }
        case Version => if c == CR { state := NewLine1; } else { version := version + [c]; }
        case NewLine1 => if c == LF { state := LineStart; } else { bad, ret := true, -1; }
        case LineStart =>
          if c == CR {
            state := NewLine2;
          } else {
            state, headerName, headerValue := Name, [], [];
            headerName := headerName + [c];
          }
        case Name => if c == COLON { state := Colon; } else { headerName := headerName + [c]; }
        case Colon => if c == SP { state := Value; } else { bad, ret := true, -1; }
        case Value =>
          if c == CR {
            if headerName != [] { headers := headers[headerName := headerValue]; }
            state := NewLine1;
          } else {
            headerValue := headerValue + [c];
          }
        case NewLine2 =>
          if c != LF {
            bad, ret := true, -1;
          } else {
            var length := BodyLength(headers);
            if length.None? {
              bad, ret := true, -1;
            } else {
              contentLength := length.value;
              if WantsProtobuf(headers) { kind := POST_PB; }
              state, ret := Body, 1;
            }
          }
      }
    }

    /** The call does what the bytes ask for exactly if the int that counts the missing ones is enough for them. */
    method Parse(chunk: seq<byte>) returns (ret: int, consumed: nat)
      requires Valid() && |chunk| > 0 && StatusOf(View()) == Going
      modifies this
      ensures Valid()
      ensures
        var f := Feed(old(View()), chunk);
        && (ret == ReturnCode(StatusOf(f.0)) && (ret >= 0 ==> consumed == f.1) <==> Counted(old(View()).h, chunk))
        && (Counted(old(View()).h, chunk) ==> View() == f.0)
      ensures ret == 0 ==> StatusOf(View()) == Going
    {
      var ptr := 0;
      if state != Body {
        var header;
        header, ptr := ParseHeader(chunk);
        if header < 0 { return -1, 0; }
      }
      consumed := ptr;
      if state != Body { return 0, consumed; }
      assert ptr == 0 ==> chunk[ptr..] == chunk;
      var more;
      ret, more := ParseBody(chunk[ptr..]);
      consumed := consumed + more;
    }

    method ParseBody(data: seq<byte>) returns (ret: int, consumed: nat)
      requires Valid() && state == Body && !bad
      modifies this`body
      ensures Valid() && !bad
      ensures
        var f := Feed(old(View()), data);
        && (ret == ReturnCode(StatusOf(f.0)) && consumed == f.1 <==> Fits(old(contentLength - |body|), |data|))
        && (Fits(old(contentLength - |body|), |data|) ==> View() == f.0) && StatusOf(f.0) != Failed
      ensures ret == 0 ==> StatusOf(View()) == Going
    {
      WholeBody(View().h, data);
      var remain := Remain(contentLength - |body|);
      if remain == 0 { return 1, 0; }
      if |data| == 0 { return 0, 0; }
      if remain < 0 { return CHECK_FAILED, 0; }
      var n := if |data| < remain then |data| else remain;
      RemainOfLess(contentLength - |body|, n);
      body, consumed := body + data[..n], n;
      ret := if contentLength == |body| then 1 else 0;
    }

    /** The loop over the header's characters; it ends behind the last one of the header. */
    method ParseHeader(chunk: seq<byte>) returns (ret: int, ptr: nat)
      requires Valid() && StatusOf(View()) == Going && state != Body
      modifies this
      ensures Valid() && ptr <= |chunk| && (ret < 0 <==> bad)
      ensures bad ==> View() == Feed(old(View()), chunk).0
      ensures !bad && state != Body ==>
        Feed(old(View()), chunk) == (View(), ptr) && ptr == |chunk| && StatusOf(View()) == Going
      ensures !bad && state == Body ==>
        Feed(old(View()), chunk) == (Feed(View(), chunk[ptr..]).0, ptr + Feed(View(), chunk[ptr..]).1)
      ensures Counted(old(View()).h, chunk) == (bad || state != Body || Counted(View().h, chunk[ptr..]))
    {
      hide Byte, HttpByte;
      ptr, ret := 0, 0;
      assert chunk[0..] == chunk;
      while ptr != |chunk|
        invariant 0 <= ptr <= |chunk| && Valid() && StatusOf(View()) == Going && state != Body
        invariant Feed(old(View()), chunk) == (Feed(View(), chunk[ptr..]).0, ptr + Feed(View(), chunk[ptr..]).1)
        invariant Counted(old(View()).h, chunk) == Counted(View().h, chunk[ptr..])
        decreases |chunk| - ptr
      {
        assert chunk[ptr..][1..] == chunk[ptr + 1..];
        ret := ParseInternal(chunk[ptr]);
        if ret < 0 { NoMore(View(), chunk[ptr + 1..]); return; }
        ptr := ptr + 1;
        if ret > 0 { return; }
      }
    }
  }

  function StartHttp(post: bool): HttpState {
    HttpState(if post then Method else Path, if post then POST else GET, [], [], [], [], map[], 0, [], false)
  }

  // ---- Any chunks ----

  lemma NextIsCounted(h: HttpState, chunks: seq<seq<byte>>, i: nat)
    requires Sound(h) && i < |chunks| && Counted(h, Flatten(chunks[i..])) && forall k | 0 <= k < |chunks| :: |chunks[k]| > 0
    ensures Counted(h, chunks[i])
    ensures var next := Feed(Http(h), chunks[i]).0;
            StatusOf(next) == Going && i + 1 < |chunks| ==> next.Http? && Counted(next.h, Flatten(chunks[i + 1..]))
  {
    hide Feed, Counted, StatusOf;
    assert chunks[i..][1..] == chunks[i + 1..];
    if i + 1 < |chunks| {
      CountedConcat(h, chunks[i], Flatten(chunks[i + 1..]));
    } else {
      assert chunks[i] + [] == chunks[i];
    }
  }

  /** Reading chunk after chunk, up to the one that completes the request or breaks it. */
  method ReceiveHttp(p: HttpParser, chunks: seq<seq<byte>>) returns (ret: int, consumed: nat)
    requires p.Valid() && StatusOf(p.View()) == Going && forall i | 0 <= i < |chunks| :: |chunks[i]| > 0
    modifies p
    ensures Counted(old(p.View()).h, Flatten(chunks)) ==>
      && p.View() == Feed(old(p.View()), Flatten(chunks)).0 && ret == ReturnCode(StatusOf(p.View()))
      && (ret >= 0 ==> consumed == Feed(old(p.View()), Flatten(chunks)).1)
  {
    hide Byte, StatusOf, Counted;
    ret, consumed := 0, 0;
    var i := 0;
    ghost var counted := Counted(p.View().h, Flatten(chunks));
    assert chunks[0..] == chunks;
    while i < |chunks|
      invariant 0 <= i <= |chunks| && p.Valid() && StatusOf(p.View()) == Going && ret == 0
      invariant counted && i < |chunks| ==> Counted(p.View().h, Flatten(chunks[i..]))
      invariant counted ==>
        var more := Feed(p.View(), Flatten(chunks[i..]));
        Feed(old(p.View()), Flatten(chunks)) == (more.0, consumed + more.1)
    {
      assert chunks[i..][1..] == chunks[i + 1..];
      FeedConcat(p.View(), chunks[i], Flatten(chunks[i + 1..]));
      if counted { NextIsCounted(p.View().h, chunks, i); }
      var n;
      ret, n := p.Parse(chunks[i]);
      BadOrNot(p.View());
      consumed := consumed + n;
      if ret != 0 { return; }
      i := i + 1;
    }
  }

  lemma BadOrNot(p: Parser)
    ensures StatusOf(p) == Failed <==> if p.Binary? then p.b.bad else p.h.bad
  {
  }

  method ReceiveBinary(p: BinaryParser, chunks: seq<seq<byte>>, metaParses: bool) returns (ret: int, consumed: nat)
    requires p.Valid() && StatusOf(p.View()) == Going && forall i | 0 <= i < |chunks| :: |chunks[i]| > 0
    modifies p
    ensures p.View() == Feed(old(p.View()), Flatten(chunks)).0
    ensures ret == if StatusOf(p.View()) == Done && !metaParses && p.inBody then -1 else ReturnCode(StatusOf(p.View()))
    ensures ret >= 0 ==> consumed == Feed(old(p.View()), Flatten(chunks)).1
  {
    hide Byte, StatusOf;
    ret, consumed := 0, 0;
    var i := 0;
    assert chunks[0..] == chunks;
    while i < |chunks|
      invariant 0 <= i <= |chunks| && p.Valid() && StatusOf(p.View()) == Going && ret == 0
      invariant
        var more := Feed(p.View(), Flatten(chunks[i..]));
        Feed(old(p.View()), Flatten(chunks)) == (more.0, consumed + more.1)
    {
      assert chunks[i..][1..] == chunks[i + 1..];
      FeedConcat(p.View(), chunks[i], Flatten(chunks[i + 1..]));
      var n;
      ret, n := p.Parse(chunks[i], metaParses);
      BadOrNot(p.View());
      consumed := consumed + n;
      if ret != 0 { return; }
      i := i + 1;
    }
  }

  // ---- What a binary request is read as ----

  /** A header and as much payload as it says, with whatever behind it. */
  lemma BinaryRequest(header: seq<byte>, payload: seq<byte>, rest: seq<byte>)
    requires |header| == Frame.HEADER_SIZE && header[..4] == Frame.MAGIC
    requires |payload| == Frame.MessageSize(header) <= 0x400_0018
    ensures Feed(Binary(BinaryState(Frame.MAGIC, [], false)), header[4..] + payload + rest)
         == (Binary(BinaryState(header, payload, false)), |header| - 4 + |payload|)
  {
    var start, read := BinaryState(Frame.MAGIC, [], false), BinaryState(header, [], false);
    var end := BinaryState(header, payload, false);
    assert header == Frame.MAGIC + header[4..];
    FeedHeader(start, header[4..]);
    assert header[4..] + payload + rest == header[4..] + (payload + rest);
    FeedConcat(Binary(start), header[4..], payload + rest);
    if |payload| > 0 {
      FeedPayload(read, payload);
      assert [] + payload == payload;
      FeedConcat(Binary(read), payload, rest);
    }
    NoMore(Binary(end), rest);
  }

  /** A header that announces less than nothing, or more than 64 MiB and a header: refused with the next byte. */
  lemma BinaryRefused(header: seq<byte>, c: byte, rest: seq<byte>)
    requires |header| == Frame.HEADER_SIZE && header[..4] == Frame.MAGIC
    requires Frame.MessageSize(header) < 0 || Frame.MessageSize(header) > 0x400_0018
    ensures StatusOf(Feed(Binary(BinaryState(Frame.MAGIC, [], false)), header[4..] + ([c] + rest)).0) == Failed
  {
    var start, read := BinaryState(Frame.MAGIC, [], false), BinaryState(header, [], false);
    assert header == Frame.MAGIC + header[4..];
    FeedHeader(start, header[4..]);
    FeedConcat(Binary(start), header[4..], [c] + rest);
    assert ([c] + rest)[0] == c;
    FailsAtOnce(Binary(read), [c] + rest);
  }
}
