/**
 What the HTTP parser takes for a request, apart from the parser: a first line, header lines and a body whose length
 the last Content-Length line spells. The parser finishes exactly on such a text, with its parts, and takes no byte
 behind it.
 */
module HttpGrammar {
  import opened Bytes
  import opened Common
  import opened Numerals
  import opened RequestParsers

  lemma HeaderNames()
    ensures CONTENT_LENGTH == Ascii("Content-Length") && ACCEPT == Ascii("Accept")
    ensures ACCEPT_PROTOBUF == Ascii("application/protobuf")
  {
  }

  lemma Signs()
    ensures Ascii("+") == [43] && Ascii("-") == [45] && Ascii("/") == [47]
  {
  }

  // ---- Lengths ----

  /** What the C library takes for white space. */
  predicate Blanks(ws: seq<byte>) {
    forall i | 0 <= i < |ws| :: ws[i] in [9, 10, 11, 12, 13, 32]
  }

  /** White space, a sign, digits and nothing else; a number too large for int64 counts as the largest one. */
  predicate LengthText(text: seq<byte>, n: nat, ws: seq<byte>, sign: seq<byte>, ds: seq<nat>) {
    && Blanks(ws) && sign in [[], Ascii("+"), Ascii("-")] && |ds| > 0 && IsDigits(ds)
    && text == ws + (sign + DigitBytes(ds)) && (sign == Ascii("-") ==> Decimals(0, ds) == 0)
    && n == if Decimals(0, ds) < 0x8000_0000_0000_0000 then Decimals(0, ds) else 0x7FFF_FFFF_FFFF_FFFF
  }

  /** An empty value counts as 0; all is as the C string has it, which ends before the first NUL. */
  ghost predicate SpellsLength(value: seq<byte>, n: nat) {
    (CString(value) == [] && n == 0) || exists ws, sign, ds :: LengthText(CString(value), n, ws, sign, ds)
  }

  lemma {:induction false} SpaceSkipped(ws: seq<byte>, s: seq<byte>)
    requires Blanks(ws) && (|s| > 0 ==> !IsSpace(s[0]))
    ensures SkipSpace(ws + s) == s
    decreases |ws|
  {
    if |ws| == 0 {
      assert ws + s == s;
    } else {
      assert (ws + s)[1..] == ws[1..] + s;
      SpaceSkipped(ws[1..], s);
    }
  }

  lemma {:induction false} SpaceOf(s: seq<byte>) returns (ws: seq<byte>)
    ensures Blanks(ws) && s == ws + SkipSpace(s)
    ensures |SkipSpace(s)| > 0 ==> !IsSpace(SkipSpace(s)[0])
    decreases |s|
  {
    if |s| > 0 && IsSpace(s[0]) {
      var rest := SpaceOf(s[1..]);
      ws := [s[0]] + rest;
      assert s == [s[0]] + s[1..];
    } else {
      ws := [];
    }
  }

  lemma {:induction false} DigitsTaken(ds: seq<nat>, acc: nat)
    requires IsDigits(ds)
    ensures Digits(DigitBytes(ds), acc) == (Decimals(acc, ds), [])
    decreases |ds|
  {
    if |ds| > 0 {
      DecimalsFirst(acc, ds);
      assert DigitBytes(ds)[1..] == DigitBytes(ds[1..]);
      DigitsTaken(ds[1..], 10 * acc + ds[0]);
    }
  }

  lemma {:induction false} DigitsBehind(s: seq<byte>, acc: nat) returns (ds: seq<nat>)
    ensures IsDigits(ds) && s == DigitBytes(ds) + Digits(s, acc).1 && Digits(s, acc).0 == Decimals(acc, ds)
    ensures |s| > 0 && IsDigit(s[0]) ==> |ds| > 0
    decreases |s|
  {
    if |s| > 0 && IsDigit(s[0]) {
      var d: nat := s[0] as int - 48;
      var rest := DigitsBehind(s[1..], 10 * acc + d);
      ds := [d] + rest;
      DigitInFront(acc, d, rest);
      assert s == [s[0]] + s[1..];
    } else {
      ds := [];
    }
  }

  /** A value is taken for a length exactly if it spells one, and for this one. */
  lemma ContentLengthExactly(value: seq<byte>, n: nat)
    ensures ContentLength(value) == Some(n) <==> SpellsLength(value, n)
  {
    if ContentLength(value) == Some(n) && CString(value) != [] {
      LengthOf(value, n);
    }
    if CString(value) != [] && SpellsLength(value, n) {
      var ws, sign, ds :| LengthText(CString(value), n, ws, sign, ds);
      LengthTaken(value, n, ws, sign, ds);
    }
  }

  lemma LengthTaken(value: seq<byte>, n: nat, ws: seq<byte>, sign: seq<byte>, ds: seq<nat>)
    requires LengthText(CString(value), n, ws, sign, ds)
    ensures ContentLength(value) == Some(n)
  {
    var t := sign + DigitBytes(ds);
    DigitBytesHead(ds);
    SpaceSkipped(ws, t);
    DigitsTaken(ds, 0);
    if |sign| > 0 { assert t[1..] == DigitBytes(ds); } else { assert t == DigitBytes(ds); }
  }

  lemma LengthOf(value: seq<byte>, n: nat)
    requires ContentLength(value) == Some(n) && CString(value) != []
    ensures exists ws, sign, ds :: LengthText(CString(value), n, ws, sign, ds)
  {
    var s := CString(value);
    var ws := SpaceOf(s);
    var t := SkipSpace(s);
    var sign := if t[0] == 43 || t[0] == 45 then [t[0]] else [];
    var ds := DigitsBehind(t[|sign|..], 0);
    Signs();
    assert t == sign + DigitBytes(ds);
    assert LengthText(s, n, ws, sign, ds);
  }

  /** The decimal form of a number spells it. */
  lemma DecimalSpells(n: nat)
    requires n < 0x8000_0000_0000_0000
    ensures SpellsLength(Decimal(n), n)
  {
    var ds := DigitsOfDecimal(n);
    NoNul(ds);
    assert LengthText(Decimal(n), n, [], [], ds);
  }

  lemma {:induction false} NoNul(ds: seq<nat>)
    requires IsDigits(ds)
    ensures CString(DigitBytes(ds)) == DigitBytes(ds)
    decreases |ds|
  {
    if |ds| > 0 { NoNul(ds[1..]); }
  }

  // ---- Requests ----

  datatype Line = Line(name: seq<byte>, value: seq<byte>)

  predicate GoodLine(l: Line) {
    |l.name| > 0 && l.name[0] != CR && COLON !in l.name[1..] && CR !in l.value
  }

  function LineText(l: Line): seq<byte> {
    l.name + [COLON, SP] + l.value + [CR, LF]
  }

  function LinesText(lines: seq<Line>): seq<byte> {
    if |lines| == 0 then [] else LineText(lines[0]) + LinesText(lines[1..])
  }

  /** A name that comes again keeps its last value. */
  function Collect(headers: Headers, lines: seq<Line>): Headers
    decreases |lines|
  {
    if |lines| == 0 then headers else Collect(headers[lines[0].name := lines[0].value], lines[1..])
  }

  /** A request behind its first four bytes, "GET " or "POST". */
  function RequestText(post: bool, path: seq<byte>, version: seq<byte>, lines: seq<Line>, body: seq<byte>): seq<byte> {
    (if post then [SP] else []) + (path + [SP]) + (version + [CR, LF]) + LinesText(lines) + [CR, LF] + body
  }

  /** The value of the last line with this name. */
  function LastValue(lines: seq<Line>, name: seq<byte>): Option<seq<byte>> {
    if |lines| == 0 then None
    else if lines[|lines| - 1].name == name then Some(lines[|lines| - 1].value)
    else LastValue(lines[..|lines| - 1], name)
  }

  /** The body has the length that the last Content-Length line spells, and is empty if there is none. */
  ghost predicate Announced(lines: seq<Line>, length: nat) {
    match LastValue(lines, Ascii("Content-Length"))
    case None => length == 0
    case Some(value) => SpellsLength(value, length)
  }

  predicate GoodRequest(path: seq<byte>, version: seq<byte>, lines: seq<Line>) {
    && |path| > 0 && path[0] == Ascii("/")[0] && SP !in path && CR !in version
    && forall i | 0 <= i < |lines| :: GoodLine(lines[i])
  }

  /** What the parser's fields say of a request. */
  ghost predicate IsRead(h: HttpState, post: bool, path: seq<byte>, version: seq<byte>, lines: seq<Line>, body: seq<byte>) {
    && h.path == path && h.version == version && h.body == body
    && (forall name :: name in h.headers <==> LastValue(lines, name).Some?)
    && (forall name | name in h.headers :: LastValue(lines, name) == Some(h.headers[name]))
    && h.kind == if LastValue(lines, Ascii("Accept")) == Some(Ascii("application/protobuf")) then POST_PB
                 else if post then POST else GET
  }

  lemma {:induction false} FeedPath(h: HttpState, s: seq<byte>)
    requires !h.bad && h.phase == Path && SP !in s
    ensures Feed(Http(h), s) == (Http(h.(path := h.path + s)), |s|)
    decreases |s|
  {
    if |s| == 0 {
      assert h.path + s == h.path;
    } else {
      var q := HttpByte(h, s[0]);
      assert q.path + s[1..] == h.path + s;
      FeedPath(q, s[1..]);
    }
  }

  lemma {:induction false} FeedVersion(h: HttpState, s: seq<byte>)
    requires !h.bad && h.phase == Version && CR !in s
    ensures Feed(Http(h), s) == (Http(h.(version := h.version + s)), |s|)
    decreases |s|
  {
    if |s| == 0 {
      assert h.version + s == h.version;
    } else {
      var q := HttpByte(h, s[0]);
      assert q.version + s[1..] == h.version + s;
      FeedVersion(q, s[1..]);
    }
  }

  lemma {:induction false} FeedName(h: HttpState, s: seq<byte>)
    requires !h.bad && h.phase == Name && COLON !in s
    ensures Feed(Http(h), s) == (Http(h.(name := h.name + s)), |s|)
    decreases |s|
  {
    if |s| == 0 {
      assert h.name + s == h.name;
    } else {
      var q := HttpByte(h, s[0]);
      assert q.name + s[1..] == h.name + s;
      FeedName(q, s[1..]);
    }
  }

  lemma {:induction false} FeedValue(h: HttpState, s: seq<byte>)
    requires !h.bad && h.phase == Value && CR !in s
    ensures Feed(Http(h), s) == (Http(h.(value := h.value + s)), |s|)
    decreases |s|
  {
    if |s| == 0 {
      assert h.value + s == h.value;
    } else {
      var q := HttpByte(h, s[0]);
      assert q.value + s[1..] == h.value + s;
      FeedValue(q, s[1..]);
    }
  }

  /** The parser goes from p to q on exactly these bytes. */
  predicate Reads(p: Parser, s: seq<byte>, q: Parser) {
    Feed(p, s) == (q, |s|) && StatusOf(q) == Going
  }

  lemma ReadsOn(p: Parser, a: seq<byte>, q: Parser, b: seq<byte>)
    requires Reads(p, a, q)
    ensures Feed(p, a + b) == (Feed(q, b).0, |a| + Feed(q, b).1)
  {
    FeedConcat(p, a, b);
  }

  lemma ReadsOne(h: HttpState, c: byte)
    requires StatusOf(Http(h)) == Going
    ensures Feed(Http(h), [c]) == (Http(HttpByte(h, c)), 1)
  {
    assert Feed(Http(HttpByte(h, c)), [c][1..]) == (Http(HttpByte(h, c)), 0);
  }

  lemma ReadsTwo(h: HttpState, c: byte, d: byte)
    requires StatusOf(Http(h)) == Going && StatusOf(Http(HttpByte(h, c))) == Going
    ensures Feed(Http(h), [c, d]) == (Http(HttpByte(HttpByte(h, c), d)), 2)
  {
    hide HttpByte, StatusOf;
    ReadsOne(h, c);
    ReadsOne(HttpByte(h, c), d);
    FeedConcat(Http(h), [c], [d]);
    assert [c] + [d] == [c, d];
  }

  lemma NameRead(h: HttpState, name: seq<byte>)
    requires !h.bad && h.phase == LineStart && |name| > 0 && name[0] != CR && COLON !in name[1..]
    ensures Reads(Http(h), name + [COLON, SP], Http(h.(phase := Value, name := name, value := [])))
  {
    var first, others := name[..1], name[1..];
    var h1 := h.(phase := Name, name := first, value := []);
    var h2 := h1.(name := name);
    assert first + others == name && first == [name[0]];
    ReadsOne(h, name[0]);
    FeedName(h1, others);
    ReadsTwo(h2, COLON, SP);
    ReadsOn(Http(h1), others, Http(h2), [COLON, SP]);
    assert name + [COLON, SP] == first + (others + [COLON, SP]);
    ReadsOn(Http(h), first, Http(h1), others + [COLON, SP]);
  }

  lemma ValueRead(h: HttpState, value: seq<byte>)
    requires !h.bad && h.phase == Value && h.name != [] && h.value == [] && CR !in value
    ensures Reads(Http(h), value + [CR, LF],
                  Http(h.(phase := LineStart, value := value, headers := h.headers[h.name := value])))
  {
    var h1 := h.(value := value);
    assert [] + value == value;
    FeedValue(h, value);
    ReadsTwo(h1, CR, LF);
    ReadsOn(Http(h), value, Http(h1), [CR, LF]);
  }

  lemma LineRead(h: HttpState, l: Line)
    requires !h.bad && h.phase == LineStart && GoodLine(l)
    ensures Reads(Http(h), LineText(l), Http(h.(name := l.name, value := l.value, headers := h.headers[l.name := l.value])))
  {
    hide Feed;
    var h1 := h.(phase := Value, name := l.name, value := []);
    NameRead(h, l.name);
    ValueRead(h1, l.value);
    assert LineText(l) == (l.name + [COLON, SP]) + (l.value + [CR, LF]);
    ReadsOn(Http(h), l.name + [COLON, SP], Http(h1), l.value + [CR, LF]);
  }

  lemma {:induction false} LinesRead(h: HttpState, lines: seq<Line>) returns (end: HttpState)
    requires !h.bad && h.phase == LineStart && forall i | 0 <= i < |lines| :: GoodLine(lines[i])
    ensures Reads(Http(h), LinesText(lines), Http(end))
    ensures end == h.(name := end.name, value := end.value, headers := Collect(h.headers, lines))
    decreases |lines|
  {
    if |lines| == 0 {
      end := h;
    } else {
      var l := lines[0];
      var next := h.(name := l.name, value := l.value, headers := h.headers[l.name := l.value]);
      LineRead(h, l);
      end := LinesRead(next, lines[1..]);
      ReadsOn(Http(h), LineText(l), Http(next), LinesText(lines[1..]));
    }
  }

  /** The first line: path and version. */
  lemma FirstLineRead(post: bool, path: seq<byte>, version: seq<byte>)
    requires GoodPath(path) && SP !in path && CR !in version
    ensures Reads(Http(StartHttp(post)), (if post then [SP] else []) + (path + [SP]) + (version + [CR, LF]),
                  Http(StartHttp(post).(phase := LineStart, path := path, version := version)))
  {
    hide Feed;
    var h0 := StartHttp(post).(phase := Path);
    var h1 := h0.(path := path);
    var h2 := h1.(phase := Version);
    var h3 := h2.(version := version);
    assert [] + path == path && [] + version == version;
    FeedPath(h0, path);
    ReadsOne(h1, SP);
    FeedVersion(h2, version);
    ReadsTwo(h3, CR, LF);
    var t3 := version + [CR, LF];
    var t2 := [SP] + t3;
    var t1 := path + t2;
    ReadsOn(Http(h2), version, Http(h3), [CR, LF]);
    ReadsOn(Http(h1), [SP], Http(h2), t3);
    ReadsOn(Http(h0), path, Http(h1), t2);
    if post {
      ReadsOne(StartHttp(post), SP);
      ReadsOn(Http(StartHttp(post)), [SP], Http(h0), t1);
      assert [SP] + (path + [SP]) + t3 == [SP] + t1;
    } else {
      assert [] + (path + [SP]) + t3 == t1;
    }
  }

  lemma {:induction false} Collected(headers: Headers, lines: seq<Line>, name: seq<byte>)
    ensures name in Collect(headers, lines) <==> LastValue(lines, name).Some? || name in headers
    ensures name in Collect(headers, lines) ==>
      Collect(headers, lines)[name]
      == match LastValue(lines, name) { case Some(value) => value case None => headers[name] }
    decreases |lines|
  {
    if |lines| > 0 {
      Collected(headers[lines[0].name := lines[0].value], lines[1..], name);
      LastOfCons(lines, name);
    }
  }

  lemma {:induction false} LastOfCons(lines: seq<Line>, name: seq<byte>)
    requires |lines| > 0
    ensures LastValue(lines, name)
         == if LastValue(lines[1..], name).Some? then LastValue(lines[1..], name)
            else if lines[0].name == name then Some(lines[0].value) else None
    decreases |lines|
  {
    if |lines| > 1 {
      assert lines[1..][..|lines| - 2] == lines[..|lines| - 1][1..];
      LastOfCons(lines[..|lines| - 1], name);
    }
  }

  lemma Announces(lines: seq<Line>, n: nat)
    ensures BodyLength(Collect(map[], lines)) == Some(n) <==> Announced(lines, n)
    ensures WantsProtobuf(Collect(map[], lines))
       <==> LastValue(lines, Ascii("Accept")) == Some(Ascii("application/protobuf"))
  {
    hide SpellsLength, ContentLength, Ascii, Collect;
    HeaderNames();
    Collected(map[], lines, CONTENT_LENGTH);
    Collected(map[], lines, ACCEPT);
    match LastValue(lines, CONTENT_LENGTH) {
      case None =>
      case Some(value) => ContentLengthExactly(value, n);
    }
  }

  /** The state behind the header's last byte, from the one in front of the empty line. */
  lemma HeaderEnds(h: HttpState, lines: seq<Line>, n: nat)
    requires !h.bad && h.phase == LineStart && h.headers == Collect(map[], lines) && Announced(lines, n)
    ensures Feed(Http(h), [CR, LF]) == (Http(AfterHeader(h, lines, n)), 2)
  {
    hide BodyLength, WantsProtobuf, Announced;
    Announces(lines, n);
    ReadsTwo(h, CR, LF);
  }

  function AfterHeader(h: HttpState, lines: seq<Line>, n: nat): HttpState {
    var protobuf := LastValue(lines, Ascii("Accept")) == Some(Ascii("application/protobuf"));
    h.(phase := Body, length := n, kind := if protobuf then POST_PB else h.kind)
  }

  /** The text in front of the body. */
  function HeaderText(post: bool, path: seq<byte>, version: seq<byte>, lines: seq<Line>): seq<byte> {
    (if post then [SP] else []) + (path + [SP]) + (version + [CR, LF]) + LinesText(lines) + [CR, LF]
  }

  lemma HeaderRead(post: bool, path: seq<byte>, version: seq<byte>, lines: seq<Line>, n: nat) returns (h: HttpState)
    requires GoodRequest(path, version, lines) && Announced(lines, n)
    ensures !h.bad && h.phase == Body && h.length == n && IsRead(h, post, path, version, lines, [])
    ensures Feed(Http(StartHttp(post)), HeaderText(post, path, version, lines))
         == (Http(h), |HeaderText(post, path, version, lines)|)
  {
    hide Announced, Feed, LinesText;
    var h0 := StartHttp(post);
    var h1 := h0.(phase := LineStart, path := path, version := version);
    FirstLineRead(post, path, version);
    var h2 := LinesRead(h1, lines);
    HeaderEnds(h2, lines, n);
    h := AfterHeader(h2, lines, n);
    var line0 := (if post then [SP] else []) + (path + [SP]) + (version + [CR, LF]);
    assert HeaderText(post, path, version, lines) == line0 + (LinesText(lines) + [CR, LF]);
    ReadsOn(Http(h1), LinesText(lines), Http(h2), [CR, LF]);
    ReadsOn(Http(h0), line0, Http(h1), LinesText(lines) + [CR, LF]);
    forall name ensures name in h.headers <==> LastValue(lines, name).Some?
      ensures name in h.headers ==> LastValue(lines, name) == Some(h.headers[name])
    {
      Collected(map[], lines, name);
    }
  }

  /** A request's text is read as this request, and no byte of what follows is taken. */
  lemma HttpRequest(post: bool, path: seq<byte>, version: seq<byte>, lines: seq<Line>, body: seq<byte>, rest: seq<byte>)
    requires GoodRequest(path, version, lines) && Announced(lines, |body|)
    ensures
      var text := RequestText(post, path, version, lines, body);
      var r := Feed(Http(StartHttp(post)), text + rest);
      && r.1 == |text| && StatusOf(r.0) == Done && r.0.Http? && IsRead(r.0.h, post, path, version, lines, body)
  {
    hide Announced, Feed, LinesText;
    var h := HeaderRead(post, path, version, lines, |body|);
    var header := HeaderText(post, path, version, lines);
    assert RequestText(post, path, version, lines, body) == header + body;
    assert (header + body) + rest == header + (body + rest);
    BodyRead(h, body, rest);
    FeedConcat(Http(StartHttp(post)), header, body + rest);
  }

  lemma BodyRead(h: HttpState, body: seq<byte>, rest: seq<byte>)
    requires !h.bad && h.phase == Body && h.body == [] && h.length == |body|
    ensures Feed(Http(h), body + rest) == (Http(h.(body := body)), |body|)
  {
    FeedBody(h, body);
    assert [] + body == body;
    FeedConcat(Http(h), body, rest);
    NoMore(Http(h.(body := body)), rest);
  }

  // ---- Whatever the parser finishes on is a request's text ----

  /** With these bytes in front of it, the parser finishes. */
  predicate Finishes(h: HttpState, s: seq<byte>) {
    StatusOf(Feed(Http(h), s).0) == Done
  }

  /** Up to the first such byte, or to the end. */
  lemma {:induction false} Until(s: seq<byte>, c: byte) returns (k: nat)
    ensures k <= |s| && c !in s[..k] && (k < |s| ==> s[k] == c)
    decreases |s|
  {
    if |s| == 0 || s[0] == c {
      k := 0;
    } else {
      var rest := Until(s[1..], c);
      k := rest + 1;
      assert s[..k] == [s[0]] + s[1..][..rest];
    }
  }

  /** The first byte is not refused. */
  lemma NextByte(h: HttpState, s: seq<byte>)
    requires Finishes(h, s) && StatusOf(Http(h)) == Going
    ensures |s| > 0 && !HttpByte(h, s[0]).bad && Finishes(HttpByte(h, s[0]), s[1..])
  {
    if |s| > 0 && HttpByte(h, s[0]).bad { NoMore(Http(HttpByte(h, s[0])), s[1..]); }
  }

  /** What is read without an end leads on. */
  lemma LeadsOn(h: HttpState, a: seq<byte>, next: HttpState, s: seq<byte>)
    requires a <= s && Finishes(h, s) && Feed(Http(h), a) == (Http(next), |a|) && StatusOf(Http(next)) == Going
    ensures Finishes(next, s[|a|..])
  {
    hide Feed;
    assert s == a + s[|a|..];
    FeedConcat(Http(h), a, s[|a|..]);
  }

  lemma PathOf(h: HttpState, s: seq<byte>) returns (path: seq<byte>, t: seq<byte>)
    requires !h.bad && h.phase == Path && h.path == [] && Finishes(h, s)
    ensures s == (path + [SP]) + t && GoodPath(path) && SP !in path
    ensures Finishes(h.(phase := Version, path := path), t)
  {
    hide Feed;
    var k := Until(s, SP);
    path := s[..k];
    assert [] + path == path;
    FeedPath(h, path);
    LeadsOn(h, path, h.(path := path), s);
    NextByte(h.(path := path), s[k..]);
    t := s[k..][1..];
  }

  lemma VersionOf(h: HttpState, s: seq<byte>) returns (version: seq<byte>, t: seq<byte>)
    requires !h.bad && h.phase == Version && h.version == [] && Finishes(h, s)
    ensures s == (version + [CR, LF]) + t && CR !in version
    ensures Finishes(h.(phase := LineStart, version := version), t)
  {
    hide Feed;
    var k := Until(s, CR);
    version := s[..k];
    assert [] + version == version;
    FeedVersion(h, version);
    var h1 := h.(version := version);
    LeadsOn(h, version, h1, s);
    NextByte(h1, s[k..]);
    NextByte(h1.(phase := NewLine1), s[k..][1..]);
    t := s[k..][1..][1..];
  }

  lemma NameOf(h: HttpState, s: seq<byte>) returns (name: seq<byte>, t: seq<byte>)
    requires !h.bad && h.phase == LineStart && Finishes(h, s) && |s| > 0 && s[0] != CR
    ensures s == (name + [COLON, SP]) + t && |name| > 0 && name[0] != CR && COLON !in name[1..]
    ensures Finishes(h.(phase := Value, name := name, value := []), t)
  {
    hide Feed;
    NextByte(h, s);
    var h1 := h.(phase := Name, name := [s[0]], value := []);
    var k := Until(s[1..], COLON);
    var more := s[1..][..k];
    name := [s[0]] + more;
    FeedName(h1, more);
    var h2 := h1.(name := name);
    LeadsOn(h1, more, h2, s[1..]);
    NextByte(h2, s[1..][k..]);
    NextByte(h2.(phase := Colon), s[1..][k..][1..]);
    t := s[1..][k..][1..][1..];
  }

  lemma ValueOf(h: HttpState, s: seq<byte>) returns (value: seq<byte>, t: seq<byte>)
    requires !h.bad && h.phase == Value && h.name != [] && h.value == [] && Finishes(h, s)
    ensures s == (value + [CR, LF]) + t && CR !in value
    ensures Finishes(h.(phase := LineStart, value := value, headers := h.headers[h.name := value]), t)
  {
    hide Feed;
    var k := Until(s, CR);
    value := s[..k];
    assert [] + value == value;
    FeedValue(h, value);
    var h1 := h.(value := value);
    LeadsOn(h, value, h1, s);
    NextByte(h1, s[k..]);
    NextByte(h1.(phase := NewLine1, headers := h.headers[h.name := value]), s[k..][1..]);
    t := s[k..][1..][1..];
  }

  lemma {:induction false} LinesOf(h: HttpState, s: seq<byte>) returns (lines: seq<Line>, t: seq<byte>, end: HttpState)
    requires !h.bad && h.phase == LineStart && Finishes(h, s)
    ensures (forall i | 0 <= i < |lines| :: GoodLine(lines[i])) && s == LinesText(lines) + t && |t| > 0 && t[0] == CR
    ensures end == h.(name := end.name, value := end.value, headers := Collect(h.headers, lines)) && Finishes(end, t)
    decreases |s|
  {
    hide Feed;
    NextByte(h, s);
    if s[0] == CR {
      lines, t, end := [], s, h;
      assert [] + s == s;
    } else {
      var name, t0 := NameOf(h, s);
      var h1 := h.(phase := Value, name := name, value := []);
      var value, t1 := ValueOf(h1, t0);
      var l := Line(name, value);
      var h2 := h.(name := name, value := value, headers := h.headers[name := value]);
      var more;
      more, t, end := LinesOf(h2, t1);
      lines := [l] + more;
      assert lines[1..] == more;
      assert s == LineText(l) + (LinesText(more) + t);
    }
  }

  /** The empty line, behind which the length is known. */
  lemma HeaderEndOf(h: HttpState, lines: seq<Line>, s: seq<byte>) returns (n: nat)
    requires !h.bad && h.phase == LineStart && h.headers == Collect(map[], lines) && h.body == []
    requires Finishes(h, s) && |s| > 0 && s[0] == CR
    ensures |s| >= 2 && s[1] == LF && Announced(lines, n) && n <= |s| - 2
  {
    hide Feed, BodyLength, Announced, WantsProtobuf;
    NextByte(h, s);
    var h1 := h.(phase := NewLine2);
    NextByte(h1, s[1..]);
    n := BodyLength(h.headers).value;
    Announces(lines, n);
    WholeBody(HttpByte(h1, LF), s[1..][1..]);
  }

  /** Where the parser finishes, a request's text ends. */
  lemma HttpAccepted(post: bool, s: seq<byte>)
      returns (path: seq<byte>, version: seq<byte>, lines: seq<Line>, body: seq<byte>)
    requires Finishes(StartHttp(post), s)
    ensures GoodRequest(path, version, lines) && Announced(lines, |body|)
    ensures var text := RequestText(post, path, version, lines, body);
            text <= s && Feed(Http(StartHttp(post)), s).1 == |text|
  {
    hide Feed, Announced;
    var h0 := StartHttp(post).(phase := Path);
    var s0 := s;
    if post {
      NextByte(StartHttp(post), s);
      s0 := s[1..];
    }
    var t0, t1, t2, end;
    path, t0 := PathOf(h0, s0);
    version, t1 := VersionOf(h0.(phase := Version, path := path), t0);
    lines, t2, end := LinesOf(h0.(phase := LineStart, path := path, version := version), t1);
    var n := HeaderEndOf(end, lines, t2);
    body := t2[2..][..n];
    var rest := t2[2..][n..];
    var text := RequestText(post, path, version, lines, body);
    TextJoins(post, path, version, lines, body, rest, t2, s);
    HttpRequest(post, path, version, lines, body, rest);
  }

  lemma TextJoins(post: bool, path: seq<byte>, version: seq<byte>, lines: seq<Line>, body: seq<byte>, rest: seq<byte>,
                  t: seq<byte>, s: seq<byte>)
    requires s == (if post then [SP] else []) + ((path + [SP]) + ((version + [CR, LF]) + (LinesText(lines) + t)))
    requires t == [CR, LF] + (body + rest)
    ensures s == RequestText(post, path, version, lines, body) + rest
  {
    hide LinesText;
  }

  /** A value that spells no length is refused when the header ends. */
  lemma LengthRefused(post: bool, path: seq<byte>, version: seq<byte>, lines: seq<Line>, value: seq<byte>, rest: seq<byte>)
    requires GoodRequest(path, version, lines) && LastValue(lines, Ascii("Content-Length")) == Some(value)
    requires forall n :: !SpellsLength(value, n)
    ensures StatusOf(Feed(Http(StartHttp(post)), HeaderText(post, path, version, lines) + rest).0) == Failed
  {
    hide SpellsLength, ContentLength, Feed, LinesText, Collect, Ascii;
    HeaderNames();
    Signs();
    Collected(map[], lines, CONTENT_LENGTH);
    if ContentLength(value).Some? { ContentLengthExactly(value, ContentLength(value).value); }
    var h1 := StartHttp(post).(phase := LineStart, path := path, version := version);
    FirstLineRead(post, path, version);
    var h2 := LinesRead(h1, lines);
    ReadsTwo(h2, CR, LF);
    NoMore(Http(HttpByte(HttpByte(h2, CR), LF)), rest);
    FeedConcat(Http(h2), [CR, LF], rest);
    var line0 := (if post then [SP] else []) + (path + [SP]) + (version + [CR, LF]);
    assert HeaderText(post, path, version, lines) + rest == line0 + (LinesText(lines) + ([CR, LF] + rest));
    ReadsOn(Http(h1), LinesText(lines), Http(h2), [CR, LF] + rest);
    ReadsOn(Http(StartHttp(post)), line0, Http(h1), LinesText(lines) + ([CR, LF] + rest));
  }

  // ---- When the parser's int is enough for a body ----

  lemma {:induction false} CountedPast(h: HttpState, a: seq<byte>, b: seq<byte>, next: HttpState)
    requires Sound(h) && !h.bad && Feed(Http(h), a) == (Http(next), |a|)
    requires !next.bad && next.phase == Body && next.body == []
    ensures Counted(h, a + b) == Fits(next.length, |b|)
    decreases |a|
  {
    if h.phase == Body {
      WholeBody(h, a);
      assert a + b == b;
    } else {
      assert (a + b)[1..] == a[1..] + b;
      CountedPast(HttpByte(h, a[0]), a[1..], b, next);
    }
  }

  /** A call gets a header and some of the body right exactly if the length and these bytes fit. */
  lemma CountedExactly(post: bool, path: seq<byte>, version: seq<byte>, lines: seq<Line>, n: nat, more: seq<byte>)
    requires GoodRequest(path, version, lines) && Announced(lines, n)
    ensures Counted(StartHttp(post), HeaderText(post, path, version, lines) + more) <==> Fits(n, |more|)
  {
    var h := HeaderRead(post, path, version, lines, n);
    CountedPast(StartHttp(post), HeaderText(post, path, version, lines), more, h);
  }

  /** A body of 4 GiB does not: as soon as the header is read, no byte of it is missing any more. */
  lemma FourGigabytes(more: nat)
    ensures !Fits(0x1_0000_0000, more) && Remain(0x1_0000_0000) == 0
  {
  }
}
