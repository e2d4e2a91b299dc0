/**
 JSON values and their text, as rapidjson writes and reads it. The writer's text is the function Print; what the
 reader accepts and builds is the function ParseValue. Reading back what was written gives the same value.
 */
module JsonText {
  import opened Bytes
  import opened Numerals

  const QUOTE: byte := 34
  const COMMA: byte := 44
  const MINUS: byte := 45
  const SLASH: byte := 47
  const ZERO: byte := 48
  const COLON: byte := 58
  const OPEN_ARRAY: byte := 91
  const BACKSLASH: byte := 92
  const CLOSE_ARRAY: byte := 93
  const LETTER_U: byte := 117
  const OPEN_OBJECT: byte := 123
  const CLOSE_OBJECT: byte := 125
  const TEXT_NULL: seq<byte> := [110, 117, 108, 108]
  const TEXT_TRUE: seq<byte> := [116, 114, 117, 101]
  const TEXT_FALSE: seq<byte> := [102, 97, 108, 115, 101]

  datatype Member = Member(name: seq<byte>, value: Value)

  /** A value without doubles. Names need not differ, and strings hold any bytes. */
  datatype Value =
    | Null
    | Bool(b: bool)
    | Number(n: int)
    | String(s: seq<byte>)
    | Array(elements: seq<Value>)
    | Object(members: seq<Member>)

  /** The integers that fit one of the four integer types of a value. */
  predicate InRange(n: int) {
    -0x8000_0000_0000_0000 <= n < 0x1_0000_0000_0000_0000
  }

  predicate Representable(v: Value) {
    match v
    case Number(n) => InRange(n)
    case Array(elements) => forall e | e in elements :: Representable(e)
    case Object(members) => forall m | m in members :: Representable(m.value)
    case _ => true
  }

  // ---- Writing ----

  function PrintNumber(n: int): seq<byte> {
    if n < 0 then [MINUS] + Decimal(-n) else Decimal(n)
  }

  function HexDigit(d: nat): byte
    requires d < 16
  {
    if d < 10 then ZERO + d else 55 + d
  }

  /** The escape table of WriteString: 0 for a byte that is written as it is. */
  function WriteEscape(c: byte): byte {
    if c == 8 then 98 else if c == 9 then 116 else if c == 10 then 110 else if c == 12 then 102 else if c == 13 then 114
    else if c < 32 then LETTER_U
    else if c == QUOTE then QUOTE
    else if c == BACKSLASH then BACKSLASH
    else 0
  }

  function PrintChar(c: byte): seq<byte> {
    var e := WriteEscape(c);
    if e == 0 then [c]
    else if e == LETTER_U then [BACKSLASH, LETTER_U, ZERO, ZERO, HexDigit(c / 16), HexDigit(c % 16)]
    else [BACKSLASH, e]
  }

  function PrintChars(s: seq<byte>): seq<byte> {
    if |s| == 0 then [] else PrintChar(s[0]) + PrintChars(s[1..])
  }

  function PrintString(s: seq<byte>): seq<byte> {
    [QUOTE] + PrintChars(s) + [QUOTE]
  }

  function Print(v: Value): seq<byte> {
    match v
    case Null => TEXT_NULL
    case Bool(b) => if b then TEXT_TRUE else TEXT_FALSE
    case Number(n) => PrintNumber(n)
    case String(s) => PrintString(s)
    case Array(elements) => [OPEN_ARRAY] + PrintElements(elements, true) + [CLOSE_ARRAY]
    case Object(members) => [OPEN_OBJECT] + PrintMembers(members, true) + [CLOSE_OBJECT]
  }

  function Comma(first: bool): seq<byte> {
    if first then [] else [COMMA]
  }

  function PrintElements(elements: seq<Value>, first: bool): seq<byte> {
    if |elements| == 0 then []
    else Comma(first) + (Print(elements[0]) + PrintElements(elements[1..], false))
  }

  function PrintMember(m: Member): seq<byte> {
    PrintString(m.name) + ([COLON] + Print(m.value))
  }

  function PrintMembers(members: seq<Member>, first: bool): seq<byte> {
    if |members| == 0 then []
    else Comma(first) + (PrintMember(members[0]) + PrintMembers(members[1..], false))
  }

  // ---- Reading ----

  /** `Double`: the text holds a number that the reader turns into a double. */
  datatype Result<T> = Ok(value: T, pos: nat) | Error | Double

  /** The text is followed by a NUL. */
  function Peek(s: seq<byte>, p: nat): byte {
    if p < |s| then s[p] else 0
  }

  predicate IsSpace(c: byte) { c == 32 || c == 10 || c == 13 || c == 9 }

  function Skip(s: seq<byte>, p: nat): (q: nat)
    requires p <= |s|
    ensures p <= q <= |s| && !IsSpace(Peek(s, q))
    decreases |s| - p
  {
    if IsSpace(Peek(s, p)) then Skip(s, p + 1) else p
  }

  predicate StartsWith(s: seq<byte>, p: nat, word: seq<byte>) {
    p + |word| <= |s| && s[p..p + |word|] == word
  }

  function ParseWord(s: seq<byte>, p: nat, word: seq<byte>, v: Value): Result<Value> {
    if StartsWith(s, p, word) then Ok(v, p + |word|) else Error
  }

  /** The value of the digits from p on, and where they end. */
  function ReadDigits(s: seq<byte>, p: nat, acc: nat): (r: (nat, nat))
    requires p <= |s|
    ensures p <= r.1 <= |s| && !IsDigit(Peek(s, r.1)) && acc <= r.0
    decreases |s| - p
  {
    if IsDigit(Peek(s, p)) then ReadDigits(s, p + 1, 10 * acc + s[p] - ZERO as int) else (acc, p)
  }

  predicate StartsDouble(c: byte) { c == 46 || c == 101 || c == 69 }

  /** An integer in range is read exactly; a fraction, an exponent or a larger integer makes a double. */
  function ParseNumber(s: seq<byte>, p: nat): (r: Result<Value>)
    requires p <= |s|
    ensures r.Ok? ==> p < r.pos <= |s|
  {
    var minus := Peek(s, p) == MINUS;
    var q := if minus then p + 1 else p;
    if !IsDigit(Peek(s, q)) then Error
    else
      var (n, end) := if Peek(s, q) == ZERO then (0, q + 1) else ReadDigits(s, q, 0);
      if StartsDouble(Peek(s, end)) then Double
      else if (if minus then n > 0x8000_0000_0000_0000 else n > 0xFFFF_FFFF_FFFF_FFFF) then Double
      else Ok(Number(if minus then 0 - n as int else n), end)
  }

  /** The escape table of ParseString: 0 for what may not follow a backslash. */
  function ReadEscape(c: byte): byte {
    if c == QUOTE || c == SLASH || c == BACKSLASH then c
    else if c == 98 then 8 else if c == 102 then 12 else if c == 110 then 10 else if c == 114 then 13
    else if c == 116 then 9
    else 0
  }

  predicate IsHex(c: byte) { IsDigit(c) || 65 <= c <= 70 || 97 <= c <= 102 }

  function HexValue(c: byte): (h: nat)
    requires IsHex(c)
    ensures h < 16
  {
    if IsDigit(c) then c - ZERO else if c <= 70 then c - 55 else c - 87
  }

  function ParseHex4(s: seq<byte>, p: nat): (r: Result<nat>)
    requires p <= |s|
    ensures r.Ok? ==> r.pos == p + 4 <= |s| && r.value < 0x1_0000
  {
    if p + 4 <= |s| && IsHex(s[p]) && IsHex(s[p + 1]) && IsHex(s[p + 2]) && IsHex(s[p + 3]) then
      Ok(((HexValue(s[p]) * 16 + HexValue(s[p + 1])) * 16 + HexValue(s[p + 2])) * 16 + HexValue(s[p + 3]), p + 4)
    else Error
  }

  /** UTF8::Encode */
  function Utf8(c: nat): seq<byte>
    requires c <= 0x10_FFFF
  {
    if c <= 0x7F then [c]
    else if c <= 0x7FF then [0xC0 + c / 0x40, 0x80 + c % 0x40]
    else if c <= 0xFFFF then [0xE0 + c / 0x1000, 0x80 + c / 0x40 % 0x40, 0x80 + c % 0x40]
    else [0xF0 + c / 0x4_0000, 0x80 + c / 0x1000 % 0x40, 0x80 + c / 0x40 % 0x40, 0x80 + c % 0x40]
  }

  /** A \u escape, p being after the u: one unit, or two that make a surrogate pair. */
  function ParseUnicode(s: seq<byte>, p: nat): (r: Result<seq<byte>>)
    requires p <= |s|
    ensures r.Ok? ==> p < r.pos <= |s|
    ensures !r.Double?
  {
    match ParseHex4(s, p)
    case Ok(unit, q) =>
      if 0xD800 <= unit <= 0xDBFF then
        if Peek(s, q) != BACKSLASH || Peek(s, q + 1) != LETTER_U then Error
        else
          match ParseHex4(s, q + 2)
          case Ok(low, q') =>
            if 0xDC00 <= low <= 0xDFFF then Ok(Utf8((unit - 0xD800) * 0x400 + (low - 0xDC00) + 0x1_0000), q') else Error
          case _ => Error
      else Ok(Utf8(unit), q)
    case _ => Error
  }

  /** One character of a string, which is neither its end nor an error. */
  function ParseChar(s: seq<byte>, p: nat): (r: Result<seq<byte>>)
    requires p <= |s|
    ensures r.Ok? ==> p < r.pos <= |s|
    ensures !r.Double?
  {
    var c := Peek(s, p);
    if c == BACKSLASH then
      var e := Peek(s, p + 1);
      if ReadEscape(e) != 0 then Ok([ReadEscape(e)], p + 2)
      else if e == LETTER_U then ParseUnicode(s, p + 2)
      else Error
    else if c < 32 then Error
    else Ok([c], p + 1)
  }

  /** The characters up to the closing quote, and the position behind it. */
  function ParseChars(s: seq<byte>, p: nat): (r: Result<seq<byte>>)
    requires p <= |s|
    ensures r.Ok? ==> p < r.pos <= |s|
    ensures !r.Double?
    decreases |s| - p
  {
    if Peek(s, p) == QUOTE then Ok([], p + 1)
    else
      match ParseChar(s, p)
      case Ok(c, q) =>
        (match ParseChars(s, q)
         case Ok(cs, q') => Ok(c + cs, q')
         case _ => Error)
      case _ => Error
  }

  function ParseString(s: seq<byte>, p: nat): (r: Result<seq<byte>>)
    requires p <= |s|
    ensures r.Ok? ==> p < r.pos <= |s|
    ensures !r.Double?
  {
    if Peek(s, p) == QUOTE then ParseChars(s, p + 1) else Error
  }

  function ParseValue(s: seq<byte>, p: nat): (r: Result<Value>)
    requires p <= |s|
    ensures r.Ok? ==> p < r.pos <= |s|
    decreases |s| - p, 0
  {
    var c := Peek(s, p);
    if c == TEXT_NULL[0] then ParseWord(s, p, TEXT_NULL, Null)
    else if c == TEXT_TRUE[0] then ParseWord(s, p, TEXT_TRUE, Bool(true))
    else if c == TEXT_FALSE[0] then ParseWord(s, p, TEXT_FALSE, Bool(false))
    else if c == QUOTE then
      (match ParseString(s, p)
       case Ok(chars, q) => Ok(String(chars), q)
       case Error => Error
       case Double => Double)
    else if c == OPEN_OBJECT then
      var q := Skip(s, p + 1);
      if Peek(s, q) == CLOSE_OBJECT then Ok(Object([]), q + 1)
      else
        (match ParseMembers(s, q)
         case Ok(members, q') => Ok(Object(members), q')
         case Error => Error
         case Double => Double)
    else if c == OPEN_ARRAY then
      var q := Skip(s, p + 1);
      if Peek(s, q) == CLOSE_ARRAY then Ok(Array([]), q + 1)
      else
        (match ParseElements(s, q)
         case Ok(elements, q') => Ok(Array(elements), q')
         case Error => Error
         case Double => Double)
    else ParseNumber(s, p)
  }

  /** One or more elements and the closing bracket. */
  function ParseElements(s: seq<byte>, p: nat): (r: Result<seq<Value>>)
    requires p <= |s|
    ensures r.Ok? ==> p < r.pos <= |s|
    decreases |s| - p, 1
  {
    match ParseValue(s, p)
    case Ok(v, q0) =>
      var q := Skip(s, q0);
      if Peek(s, q) == COMMA then Prepend([v], ParseElements(s, Skip(s, q + 1)))
      else if Peek(s, q) == CLOSE_ARRAY then Ok([v], q + 1)
      else Error
    case Error => Error
    case Double => Double
  }

  /** Name, colon, value. */
  function ParseMember(s: seq<byte>, p: nat): (r: Result<Member>)
    requires p <= |s|
    ensures r.Ok? ==> p < r.pos <= |s|
    decreases |s| - p, 1
  {
    match ParseString(s, p)
    case Ok(name, q0) =>
      var q := Skip(s, q0);
      if Peek(s, q) != COLON then Error
      else
        (match ParseValue(s, Skip(s, q + 1))
         case Ok(v, q') => Ok(Member(name, v), q')
         case Error => Error
         case Double => Double)
    case Error => Error
    case Double => Double
  }

  /** One or more members and the closing brace. */
  function ParseMembers(s: seq<byte>, p: nat): (r: Result<seq<Member>>)
    requires p <= |s|
    ensures r.Ok? ==> p < r.pos <= |s|
    decreases |s| - p, 2
  {
    match ParseMember(s, p)
    case Ok(m, q0) =>
      var q := Skip(s, q0);
      if Peek(s, q) == COMMA then Prepend([m], ParseMembers(s, Skip(s, q + 1)))
      else if Peek(s, q) == CLOSE_OBJECT then Ok([m], q + 1)
      else Error
    case Error => Error
    case Double => Double
  }

  function Prepend<T>(front: seq<T>, r: Result<seq<T>>): Result<seq<T>> {
    match r
    case Ok(rest, pos) => Ok(front + rest, pos)
    case Error => Error
    case Double => Double
  }

  /** Reader::Parse: one object or array, white space around it, and nothing else. */
  function Parse(s: seq<byte>): Result<Value> {
    var p := Skip(s, 0);
    if Peek(s, p) != OPEN_OBJECT && Peek(s, p) != OPEN_ARRAY then Error
    else
      match ParseValue(s, p)
      case Ok(v, q) => if Peek(s, Skip(s, q)) == 0 then Ok(v, Skip(s, q)) else Error
      case Error => Error
      case Double => Double
  }

  // ---- Reading back what was written ----

  lemma AtInside(s: seq<byte>, p: nat, e: seq<byte>)
    requires At(s, p, e)
    ensures p + |e| <= |s|
  {
  }

  lemma {:induction false} ReadDecimal(s: seq<byte>, p: nat, n: nat)
    requires At(s, p, Decimal(n))
    ensures |Decimal(n)| > 0 && IsDigit(s[p]) && (s[p] == ZERO <==> n == 0)
    ensures n == 0 ==> |Decimal(n)| == 1
    ensures ReadDigits(s, p, 0) == ReadDigits(s, p + |Decimal(n)|, n)
    decreases n
  {
    hide At;
    AtInside(s, p, Decimal(n));
    if n < 10 {
      AtHead(s, p, [ZERO + n]);
    } else {
      var last: byte := ZERO + n % 10;
      AtConcat(s, p, Decimal(n / 10), [last]);
      ReadDecimal(s, p, n / 10);
      AtHead(s, p + |Decimal(n / 10)|, [last]);
    }
  }

  /** What may follow a number: no digit, and nothing that turns it into a double. */
  predicate EndsNumber(c: byte) {
    !IsDigit(c) && !StartsDouble(c)
  }

  lemma NumberRoundTrip(s: seq<byte>, p: nat, n: int)
    requires InRange(n) && At(s, p, PrintNumber(n)) && EndsNumber(Peek(s, p + |PrintNumber(n)|))
    ensures ParseNumber(s, p) == Ok(Number(n), p + |PrintNumber(n)|)
    ensures Peek(s, p) == MINUS || IsDigit(Peek(s, p))
  {
    hide At, Decimal;
    var m: nat := if n < 0 then -n else n;
    var q := if n < 0 then p + 1 else p;
    if n < 0 {
      AtConcat(s, p, [MINUS], Decimal(m));
      AtHead(s, p, [MINUS]);
    }
    ReadDecimal(s, q, m);
    NothingMore(s, q + |Decimal(m)|, m);
  }

  lemma NothingMore(s: seq<byte>, p: nat, acc: nat)
    requires p <= |s| && !IsDigit(Peek(s, p))
    ensures ReadDigits(s, p, acc) == (acc, p)
  {
  }

  lemma HexRoundTrip(d: nat)
    requires d < 16
    ensures IsHex(HexDigit(d)) && HexValue(HexDigit(d)) == d
  {
  }

  /** An escaped byte comes back as itself, and does not look like the end of the string. */
  lemma CharRoundTrip(s: seq<byte>, p: nat, c: byte)
    requires At(s, p, PrintChar(c))
    ensures ParseChar(s, p) == Ok([c], p + |PrintChar(c)|) && Peek(s, p) != QUOTE
  {
    var e := PrintChar(c);
    assert s[p] == s[p..p + |e|][0];
    if WriteEscape(c) == LETTER_U {
      var t := s[p..p + 6];
      assert s[p + 1] == t[1] && s[p + 2] == t[2] && s[p + 3] == t[3] && s[p + 4] == t[4] && s[p + 5] == t[5];
      HexRoundTrip(c / 16);
      HexRoundTrip(c % 16);
      assert ParseHex4(s, p + 2) == Ok(c as nat, p + 6);
    } else if WriteEscape(c) != 0 {
      assert s[p + 1] == s[p..p + 2][1];
    }
  }

  lemma PrintFirstChar(cs: seq<byte>)
    requires |cs| > 0
    ensures PrintChars(cs) + [QUOTE] == PrintChar(cs[0]) + (PrintChars(cs[1..]) + [QUOTE])
  {
  }

  lemma {:induction false} CharsRoundTrip(s: seq<byte>, p: nat, cs: seq<byte>)
    requires At(s, p, PrintChars(cs) + [QUOTE])
    ensures ParseChars(s, p) == Ok(cs, p + |PrintChars(cs)| + 1)
    decreases |cs|
  {
    hide At, PrintChar, ParseChar;
    if |cs| == 0 {
      assert PrintChars(cs) + [QUOTE] == [QUOTE];
      AtHead(s, p, [QUOTE]);
    } else {
      PrintFirstChar(cs);
      AtConcat(s, p, PrintChar(cs[0]), PrintChars(cs[1..]) + [QUOTE]);
      CharRoundTrip(s, p, cs[0]);
      CharsRoundTrip(s, p + |PrintChar(cs[0])|, cs[1..]);
      assert cs == [cs[0]] + cs[1..];
    }
  }

  lemma StringRoundTrip(s: seq<byte>, p: nat, cs: seq<byte>)
    requires At(s, p, PrintString(cs))
    ensures ParseString(s, p) == Ok(cs, p + |PrintString(cs)|)
  {
    assert PrintString(cs) == [QUOTE] + (PrintChars(cs) + [QUOTE]);
    AtConcat(s, p, [QUOTE], PrintChars(cs) + [QUOTE]);
    assert s[p] == s[p..p + 1][0];
    CharsRoundTrip(s, p + 1, cs);
  }

  lemma WordRoundTrip(s: seq<byte>, p: nat, word: seq<byte>, v: Value)
    requires |word| > 0 && At(s, p, word)
    ensures ParseWord(s, p, word, v) == Ok(v, p + |word|) && Peek(s, p) == word[0]
  {
    assert s[p] == s[p..p + |word|][0];
  }

  lemma {:induction false} DecimalHead(n: nat)
    ensures |Decimal(n)| > 0 && IsDigit(Decimal(n)[0])
    decreases n
  {
    if n >= 10 { DecimalHead(n / 10); }
  }

  lemma Printed(v: Value)
    ensures |Print(v)| > 0 && !IsSpace(Print(v)[0])
    ensures Print(v)[0] != CLOSE_ARRAY && Print(v)[0] != CLOSE_OBJECT
    ensures v.String? ==> Print(v)[0] == QUOTE
    ensures v.Array? ==> Print(v)[0] == OPEN_ARRAY
    ensures v.Object? ==> Print(v)[0] == OPEN_OBJECT
  {
    hide PrintElements, PrintMembers, PrintChars, Decimal;
    if v.Number? { DecimalHead(if v.n < 0 then -v.n else v.n); }
  }

  /** The first byte of a printed value tells the parser what it is; it is no space and ends nothing. */
  lemma FirstByte(s: seq<byte>, p: nat, v: Value)
    requires At(s, p, Print(v))
    ensures |Print(v)| > 0 && !IsSpace(Peek(s, p))
    ensures Peek(s, p) != CLOSE_ARRAY && Peek(s, p) != CLOSE_OBJECT
    ensures v.String? ==> Peek(s, p) == QUOTE
    ensures v.Array? ==> Peek(s, p) == OPEN_ARRAY
    ensures v.Object? ==> Peek(s, p) == OPEN_OBJECT
  {
    hide At, Print;
    Printed(v);
    AtHead(s, p, Print(v));
  }

  lemma {:induction false} ValueRoundTrip(s: seq<byte>, p: nat, v: Value)
    requires Representable(v) && At(s, p, Print(v)) && EndsNumber(Peek(s, p + |Print(v)|))
    ensures ParseValue(s, p) == Ok(v, p + |Print(v)|)
    decreases v, 0
  {
    FirstByte(s, p, v);
    match v {
      case Null => WordRoundTrip(s, p, TEXT_NULL, v);
      case Bool(b) => WordRoundTrip(s, p, if b then TEXT_TRUE else TEXT_FALSE, v);
      case Number(n) => NumberRoundTrip(s, p, n);
      case String(cs) => StringRoundTrip(s, p, cs);
      case Array(es) => ArrayRoundTrip(s, p, es, v);
      case Object(ms) => ObjectRoundTrip(s, p, ms, v);
    }
  }

  lemma AtHead(s: seq<byte>, p: nat, e: seq<byte>)
    requires |e| > 0 && At(s, p, e)
    ensures p < |s| && s[p] == e[0]
  {
    assert s[p] == s[p..p + |e|][0];
  }

  lemma PrintedString(cs: seq<byte>)
    ensures Print(String(cs)) == PrintString(cs)
  {
  }

  /** What is left to read of an array, from the next comma or element on. */
  ghost function RestOfArray(es: seq<Value>, first: bool): seq<byte> {
    PrintElements(es, first) + [CLOSE_ARRAY]
  }

  lemma RestOfArrayIs(es: seq<Value>)
    ensures |es| == 0 ==> RestOfArray(es, false) == [CLOSE_ARRAY] && RestOfArray(es, true) == [CLOSE_ARRAY]
    ensures |es| > 0 ==> RestOfArray(es, true) == Print(es[0]) + RestOfArray(es[1..], false)
    ensures |es| > 0 ==> RestOfArray(es, false) == [COMMA] + RestOfArray(es, true)
    ensures |RestOfArray(es, true)| == |PrintElements(es, true)| + 1
  {
    hide Print;
    if |es| > 0 {
      var head, tail := Print(es[0]), PrintElements(es[1..], false);
      assert PrintElements(es, true) == head + tail && PrintElements(es, false) == [COMMA] + (head + tail);
    }
  }

  lemma PrintedArray(es: seq<Value>)
    ensures Print(Array(es)) == [OPEN_ARRAY] + RestOfArray(es, true)
  {
    hide PrintElements;
  }

  /** What is left to read of an object, from the next comma or member on. */
  ghost function RestOfObject(ms: seq<Member>, first: bool): seq<byte> {
    PrintMembers(ms, first) + [CLOSE_OBJECT]
  }

  lemma RestOfObjectIs(ms: seq<Member>)
    ensures |ms| == 0 ==> RestOfObject(ms, false) == [CLOSE_OBJECT] && RestOfObject(ms, true) == [CLOSE_OBJECT]
    ensures |ms| > 0 ==> RestOfObject(ms, true) == PrintMember(ms[0]) + RestOfObject(ms[1..], false)
    ensures |ms| > 0 ==> RestOfObject(ms, false) == [COMMA] + RestOfObject(ms, true)
    ensures |RestOfObject(ms, true)| == |PrintMembers(ms, true)| + 1
  {
    hide PrintMember;
    if |ms| > 0 {
      var head, tail := PrintMember(ms[0]), PrintMembers(ms[1..], false);
      assert PrintMembers(ms, true) == head + tail && PrintMembers(ms, false) == [COMMA] + (head + tail);
    }
  }

  lemma PrintedObject(ms: seq<Member>)
    ensures Print(Object(ms)) == [OPEN_OBJECT] + RestOfObject(ms, true)
  {
    hide PrintMembers;
  }

  lemma {:induction false} ArrayRoundTrip(s: seq<byte>, p: nat, es: seq<Value>, v: Value)
    requires v == Array(es) && Representable(v) && At(s, p, Print(v))
    ensures ParseValue(s, p) == Ok(v, p + |Print(v)|)
    decreases es, 1
  {
    hide At, PrintElements, RestOfArray, ParseElements, ParseMembers;
    FirstByte(s, p, v);
    RestOfArrayIs(es);
    PrintedArray(es);
    AtConcat(s, p, [OPEN_ARRAY], RestOfArray(es, true));
    AtHead(s, p, Print(v));
    if |es| == 0 {
      AtHead(s, p + 1, RestOfArray(es, true));
    } else {
      FirstElement(s, p + 1, es);
      ElementsRoundTrip(s, p + 1, es);
    }
  }

  lemma FirstElement(s: seq<byte>, p: nat, es: seq<Value>)
    requires |es| > 0 && At(s, p, RestOfArray(es, true))
    ensures p <= |s| && Skip(s, p) == p && Peek(s, p) != CLOSE_ARRAY
    ensures At(s, p, Print(es[0])) && At(s, p + |Print(es[0])|, RestOfArray(es[1..], false))
  {
    hide Print, PrintElements, RestOfArray;
    RestOfArrayIs(es);
    AtConcat(s, p, Print(es[0]), RestOfArray(es[1..], false));
    FirstByte(s, p, es[0]);
  }

  lemma ElementsStep(s: seq<byte>, p: nat, v: Value, q: nat)
    requires p <= |s| && q < |s| && ParseValue(s, p) == Ok(v, q)
    ensures s[q] == CLOSE_ARRAY ==> ParseElements(s, p) == Ok([v], q + 1)
    ensures s[q] == COMMA && !IsSpace(Peek(s, q + 1)) ==>
      ParseElements(s, p) == Prepend([v], ParseElements(s, q + 1))
  {
    hide ParseValue;
  }

  lemma MembersStep(s: seq<byte>, p: nat, m: Member, q: nat)
    requires p <= |s| && q < |s| && ParseMember(s, p) == Ok(m, q)
    ensures s[q] == CLOSE_OBJECT ==> ParseMembers(s, p) == Ok([m], q + 1)
    ensures s[q] == COMMA && !IsSpace(Peek(s, q + 1)) ==>
      ParseMembers(s, p) == Prepend([m], ParseMembers(s, q + 1))
  {
    hide ParseMember;
  }

  lemma {:induction false} ElementsRoundTrip(s: seq<byte>, p: nat, es: seq<Value>)
    requires |es| > 0 && (forall e | e in es :: Representable(e))
    requires At(s, p, RestOfArray(es, true))
    ensures p <= |s| && ParseElements(s, p) == Ok(es, p + |PrintElements(es, true)| + 1)
    decreases es, 0
  {
    hide Print, PrintElements, RestOfArray, Representable, ParseValue, ParseElements, At, Skip;
    var q := p + |Print(es[0])|;
    FirstElement(s, p, es);
    RestOfArrayIs(es);
    RestOfArrayIs(es[1..]);
    AtHead(s, q, RestOfArray(es[1..], false));
    ValueRoundTrip(s, p, es[0]);
    ElementsStep(s, p, es[0], q);
    assert es == [es[0]] + es[1..];
    if |es| == 1 {
      assert es == [es[0]];
    } else {
      AtConcat(s, q, [COMMA], RestOfArray(es[1..], true));
      FirstElement(s, q + 1, es[1..]);
      ElementsRoundTrip(s, q + 1, es[1..]);
    }
  }

  lemma {:induction false} ObjectRoundTrip(s: seq<byte>, p: nat, ms: seq<Member>, v: Value)
    requires v == Object(ms) && Representable(v) && At(s, p, Print(v))
    ensures ParseValue(s, p) == Ok(v, p + |Print(v)|)
    decreases ms, 2
  {
    hide At, PrintMembers, RestOfObject, ParseElements, ParseMembers;
    FirstByte(s, p, v);
    RestOfObjectIs(ms);
    PrintedObject(ms);
    AtConcat(s, p, [OPEN_OBJECT], RestOfObject(ms, true));
    AtHead(s, p, Print(v));
    if |ms| == 0 {
      AtHead(s, p + 1, RestOfObject(ms, true));
    } else {
      FirstMember(s, p + 1, ms);
      MembersRoundTrip(s, p + 1, ms);
    }
  }

  lemma FirstMember(s: seq<byte>, p: nat, ms: seq<Member>)
    requires |ms| > 0 && At(s, p, RestOfObject(ms, true))
    ensures p <= |s| && Skip(s, p) == p && Peek(s, p) == QUOTE
    ensures At(s, p, PrintMember(ms[0]))
    ensures At(s, p + |PrintMember(ms[0])|, RestOfObject(ms[1..], false))
  {
    hide Print, PrintString, PrintMembers, RestOfObject;
    RestOfObjectIs(ms);
    AtConcat(s, p, PrintMember(ms[0]), RestOfObject(ms[1..], false));
    PrintedString(ms[0].name);
    AtConcat(s, p, PrintString(ms[0].name), [COLON] + Print(ms[0].value));
    FirstByte(s, p, String(ms[0].name));
  }

  lemma {:induction false} MemberRoundTrip(s: seq<byte>, p: nat, m: Member)
    requires Representable(m.value) && At(s, p, PrintMember(m)) && EndsNumber(Peek(s, p + |PrintMember(m)|))
    ensures ParseMember(s, p) == Ok(m, p + |PrintMember(m)|)
    decreases m, 0
  {
    hide Print, PrintString, Representable, ParseValue, ParseString;
    var q := p + |PrintString(m.name)|;
    AtConcat(s, p, PrintString(m.name), [COLON] + Print(m.value));
    AtConcat(s, q, [COLON], Print(m.value));
    AtHead(s, q, [COLON]);
    StringRoundTrip(s, p, m.name);
    FirstByte(s, q + 1, m.value);
    ValueRoundTrip(s, q + 1, m.value);
  }

  lemma {:induction false} MembersRoundTrip(s: seq<byte>, p: nat, ms: seq<Member>)
    requires |ms| > 0 && (forall m | m in ms :: Representable(m.value))
    requires At(s, p, RestOfObject(ms, true))
    ensures p <= |s| && ParseMembers(s, p) == Ok(ms, p + |PrintMembers(ms, true)| + 1)
    decreases ms, 1
  {
    hide PrintMember, PrintMembers, RestOfObject, Representable, ParseMember, ParseMembers, At, Skip;
    var q := p + |PrintMember(ms[0])|;
    FirstMember(s, p, ms);
    RestOfObjectIs(ms);
    RestOfObjectIs(ms[1..]);
    AtHead(s, q, RestOfObject(ms[1..], false));
    MemberRoundTrip(s, p, ms[0]);
    MembersStep(s, p, ms[0], q);
    assert ms == [ms[0]] + ms[1..];
    if |ms| == 1 {
      assert ms == [ms[0]];
    } else {
      AtConcat(s, q, [COMMA], RestOfObject(ms[1..], true));
      FirstMember(s, q + 1, ms[1..]);
      MembersRoundTrip(s, q + 1, ms[1..]);
    }
  }

  /** The text of any object or array, parsed as a whole, gives the value back. */
  lemma RoundTrip(v: Value)
    requires Representable(v) && (v.Array? || v.Object?)
    ensures Parse(Print(v)) == Ok(v, |Print(v)|)
  {
    assert At(Print(v), 0, Print(v));
    FirstByte(Print(v), 0, v);
    ValueRoundTrip(Print(v), 0, v);
  }
}
