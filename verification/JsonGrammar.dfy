/**
 The grammar of the texts that the reader accepts, apart from the reader: a text is a tree of its parts, written
 out byte by byte, with white space wherever JSON allows it, every way to write a character, and integers as digits
 (RFC 8259; strings in UTF-8, RFC 3629). The reader accepts exactly these texts, and builds what they mean.
 */
module JsonGrammar {
  import opened Bytes
  import opened JsonText
  import opened Numerals

  // ---- Characters ----

  predicate Continues(b: byte) { 0x80 <= b <= 0xBF }

  /** What a byte carries beyond its marker. */
  function Bits(b: byte, marker: int): int { b as int - marker }

  /** The bytes are the UTF-8 form of the code point (section 3 of RFC 3629). */
  predicate IsUtf8(b: seq<byte>, c: nat) {
    if |b| == 1 then b[0] <= 0x7F && c == Bits(b[0], 0)
    else if |b| == 2 then
      0xC0 <= b[0] <= 0xDF && Continues(b[1])
      && 0x80 <= c <= 0x7FF && c == 64 * Bits(b[0], 0xC0) + Bits(b[1], 0x80)
    else if |b| == 3 then
      0xE0 <= b[0] <= 0xEF && Continues(b[1]) && Continues(b[2])
      && 0x800 <= c <= 0xFFFF && c == 64 * (64 * Bits(b[0], 0xE0) + Bits(b[1], 0x80)) + Bits(b[2], 0x80)
    else
      |b| == 4 && 0xF0 <= b[0] <= 0xF7 && Continues(b[1]) && Continues(b[2]) && Continues(b[3])
      && 0x1_0000 <= c <= 0x10_FFFF
      && c == 64 * (64 * (64 * Bits(b[0], 0xF0) + Bits(b[1], 0x80)) + Bits(b[2], 0x80)) + Bits(b[3], 0x80)
  }

  lemma Utf8Is(c: nat)
    requires c <= 0x10_FFFF
    ensures IsUtf8(Utf8(c), c)
  {
    var a := c / 64;
    var b := a / 64;
    assert c == 64 * a + c % 64 && a == 64 * b + a % 64 && b == 64 * (b / 64) + b % 64;
    assert c / 0x1000 == b && c / 0x4_0000 == b / 64;
  }

  /** A code point has one form only. */
  lemma Utf8Unique(b: seq<byte>, c: nat)
    requires IsUtf8(b, c)
    ensures c <= 0x10_FFFF && b == Utf8(c)
  {
    Utf8Is(c);
    hide Utf8;
    SameForm(b, Utf8(c), c);
  }

  lemma SameForm(b: seq<byte>, u: seq<byte>, c: nat)
    requires IsUtf8(b, c) && IsUtf8(u, c)
    ensures b == u
  {
    assert |b| == |u|;
    if |b| == 2 {
      SplitAt64(Bits(b[0], 0xC0), Bits(u[0], 0xC0), Bits(b[1], 0x80), Bits(u[1], 0x80));
    } else if |b| == 3 {
      var x, y := 64 * Bits(b[0], 0xE0) + Bits(b[1], 0x80), 64 * Bits(u[0], 0xE0) + Bits(u[1], 0x80);
      SplitAt64(x, y, Bits(b[2], 0x80), Bits(u[2], 0x80));
      SplitAt64(Bits(b[0], 0xE0), Bits(u[0], 0xE0), Bits(b[1], 0x80), Bits(u[1], 0x80));
    } else if |b| == 4 {
      var x, y := 64 * Bits(b[0], 0xF0) + Bits(b[1], 0x80), 64 * Bits(u[0], 0xF0) + Bits(u[1], 0x80);
      SplitAt64(64 * x + Bits(b[2], 0x80), 64 * y + Bits(u[2], 0x80), Bits(b[3], 0x80), Bits(u[3], 0x80));
      SplitAt64(x, y, Bits(b[2], 0x80), Bits(u[2], 0x80));
      SplitAt64(Bits(b[0], 0xF0), Bits(u[0], 0xF0), Bits(b[1], 0x80), Bits(u[1], 0x80));
    }
  }

  lemma SplitAt64(x: int, y: int, r: int, t: int)
    requires 64 * x + r == 64 * y + t && 0 <= r < 64 && 0 <= t < 64
    ensures x == y && r == t
  {
  }

  const HEX_UPPER: seq<byte> := [48, 49, 50, 51, 52, 53, 54, 55, 56, 57, 65, 66, 67, 68, 69, 70]
  const HEX_LOWER: seq<byte> := [48, 49, 50, 51, 52, 53, 54, 55, 56, 57, 97, 98, 99, 100, 101, 102]

  datatype Hex = Hex(value: nat, upper: bool)

  function HexByte(h: Hex): byte
    requires h.value < 16
  {
    if h.upper then HEX_UPPER[h.value] else HEX_LOWER[h.value]
  }

  predicate FourHex(hs: seq<Hex>) {
    |hs| == 4 && hs[0].value < 16 && hs[1].value < 16 && hs[2].value < 16 && hs[3].value < 16
  }

  function FourBytes(hs: seq<Hex>): (b: seq<byte>)
    requires FourHex(hs)
    ensures |b| == 4
  {
    [HexByte(hs[0]), HexByte(hs[1]), HexByte(hs[2]), HexByte(hs[3])]
  }

  function Unit(hs: seq<Hex>): (u: nat)
    requires FourHex(hs)
    ensures u <= 0xFFFF
  {
    4096 * hs[0].value + 256 * hs[1].value + 16 * hs[2].value + hs[3].value
  }

  /** The letters that may follow a backslash, and what they stand for. */
  const SHORT: map<byte, byte> := map[34 := 34, 92 := 92, 47 := 47, 98 := 8, 102 := 12, 110 := 10, 114 := 13, 116 := 9]

  /** One way to write a character; `bytes` is what an escape with hexadecimal digits stands for. */
  datatype CharText =
    | Plain(c: byte)
    | Short(letter: byte)
    | Unicode(hs: seq<Hex>, bytes: seq<byte>)
    | Surrogates(high: seq<Hex>, low: seq<Hex>, bytes: seq<byte>)

  /** A unit that starts no surrogate pair, or a pair. */
  predicate GoodChar(t: CharText) {
    match t
    case Plain(c) => c >= 32 && c != 34 && c != 92
    case Short(letter) => letter in SHORT
    case Unicode(hs, bytes) => FourHex(hs) && !(0xD800 <= Unit(hs) <= 0xDBFF) && IsUtf8(bytes, Unit(hs))
    case Surrogates(high, low, bytes) =>
      && FourHex(high) && 0xD800 <= Unit(high) <= 0xDBFF && FourHex(low) && 0xDC00 <= Unit(low) <= 0xDFFF
      && IsUtf8(bytes, 0x1_0000 + 1024 * (Unit(high) - 0xD800) + (Unit(low) - 0xDC00))
  }

  function CharBytes(t: CharText): (b: seq<byte>)
    requires GoodChar(t)
    ensures |b| > 0
  {
    match t
    case Plain(c) => [c]
    case Short(letter) => [92, letter]
    case Unicode(hs, _) => [92, 117] + FourBytes(hs)
    case Surrogates(high, low, _) => ([92, 117] + FourBytes(high)) + ([92, 117] + FourBytes(low))
  }

  function CharMeaning(t: CharText): seq<byte>
    requires GoodChar(t)
  {
    match t
    case Plain(c) => [c]
    case Short(letter) => [SHORT[letter]]
    case Unicode(_, bytes) => bytes
    case Surrogates(_, _, bytes) => bytes
  }

  predicate GoodChars(ts: seq<CharText>) {
    forall i | 0 <= i < |ts| :: GoodChar(ts[i])
  }

  function CharsBytes(ts: seq<CharText>): seq<byte>
    requires GoodChars(ts)
  {
    if |ts| == 0 then [] else CharBytes(ts[0]) + CharsBytes(ts[1..])
  }

  function CharsMeaning(ts: seq<CharText>): seq<byte>
    requires GoodChars(ts)
  {
    if |ts| == 0 then [] else CharMeaning(ts[0]) + CharsMeaning(ts[1..])
  }

  lemma OneByte(s: seq<byte>, p: nat)
    requires p < |s|
    ensures At(s, p, [s[p]])
  {
    assert s[p..p + 1] == [s[p]];
  }

  lemma HexByteIs(h: Hex)
    requires h.value < 16
    ensures IsHex(HexByte(h)) && HexValue(HexByte(h)) == h.value
  {
  }

  lemma HexOf(c: byte) returns (h: Hex)
    requires IsHex(c)
    ensures h.value < 16 && HexByte(h) == c && HexValue(c) == h.value
  {
    h := Hex(HexValue(c), c <= 70);
  }

  lemma FourHexRead(s: seq<byte>, p: nat, hs: seq<Hex>)
    requires FourHex(hs) && At(s, p, FourBytes(hs))
    ensures p + 4 <= |s| && ParseHex4(s, p) == Ok(Unit(hs), p + 4)
  {
    hide HexByte, HexValue, IsHex;
    var b := s[p..p + 4];
    assert s[p] == b[0] && s[p + 1] == b[1] && s[p + 2] == b[2] && s[p + 3] == b[3];
    HexByteIs(hs[0]);
    HexByteIs(hs[1]);
    HexByteIs(hs[2]);
    HexByteIs(hs[3]);
  }

  lemma FourHexOf(s: seq<byte>, p: nat) returns (hs: seq<Hex>)
    requires p <= |s| && ParseHex4(s, p).Ok?
    ensures FourHex(hs) && At(s, p, FourBytes(hs)) && ParseHex4(s, p) == Ok(Unit(hs), p + 4)
  {
    hide HexByte, HexValue, IsHex;
    var h0 := HexOf(s[p]);
    var h1 := HexOf(s[p + 1]);
    var h2 := HexOf(s[p + 2]);
    var h3 := HexOf(s[p + 3]);
    hs := [h0, h1, h2, h3];
    assert s[p..p + 4] == FourBytes(hs);
  }

  lemma PairPoint(high: nat, low: nat)
    requires 0xD800 <= high <= 0xDBFF && 0xDC00 <= low <= 0xDFFF
    ensures (high - 0xD800) * 0x400 + (low - 0xDC00) + 0x1_0000 == 0x1_0000 + 1024 * (high - 0xD800) + (low - 0xDC00)
    ensures 0x1_0000 + 1024 * (high - 0xD800) + (low - 0xDC00) <= 0x10_FFFF
  {
  }

  /** Any way to write a character is read as what it means. */
  lemma CharRead(s: seq<byte>, p: nat, t: CharText)
    requires GoodChar(t) && At(s, p, CharBytes(t))
    ensures p < |s| && ParseChar(s, p) == Ok(CharMeaning(t), p + |CharBytes(t)|) && Peek(s, p) != QUOTE
  {
    hide At, ParseHex4, IsUtf8, Utf8, FourBytes, Unit;
    AtHead(s, p, CharBytes(t));
    match t {
      case Plain(c) =>
      case Short(letter) =>
        assert [92] + [letter] == [92, letter];
        AtConcat(s, p, [92], [letter]);
        AtHead(s, p + 1, [letter]);
      case Unicode(hs, bytes) =>
        EscapeRead(s, p, hs);
        Utf8Unique(bytes, Unit(hs));
      case Surrogates(high, low, bytes) =>
        AtConcat(s, p, [92, 117] + FourBytes(high), [92, 117] + FourBytes(low));
        EscapeRead(s, p, high);
        EscapeRead(s, p + 6, low);
        PairPoint(Unit(high), Unit(low));
        Utf8Unique(bytes, 0x1_0000 + 1024 * (Unit(high) - 0xD800) + (Unit(low) - 0xDC00));
    }
  }

  /** A low surrogate without a high one before it is taken, and gives three bytes for what is no character. */
  lemma LoneSurrogate(s: seq<byte>, p: nat, hs: seq<Hex>) returns (b: seq<byte>)
    requires FourHex(hs) && 0xDC00 <= Unit(hs) <= 0xDFFF && At(s, p, [92, 117] + FourBytes(hs))
    ensures p <= |s| && ParseChar(s, p) == Ok(b, p + 6)
    ensures |b| == 3 && b[0] == 0xED && 0xB0 <= b[1] <= 0xBF && IsUtf8(b, Unit(hs))
  {
    b := Utf8(Unit(hs));
    Utf8Is(Unit(hs));
    var t := Unicode(hs, b);
    assert CharBytes(t) == [92, 117] + FourBytes(hs) && CharMeaning(t) == b;
    CharRead(s, p, t);
  }

  /** With the pairs apart, an escape gives a character of Unicode exactly if it is none of these. */
  lemma CharacterExactly(hs: seq<Hex>, bytes: seq<byte>)
    requires GoodChar(Unicode(hs, bytes))
    ensures !(0xD800 <= Unit(hs) <= 0xDFFF) <==> !(0xDC00 <= Unit(hs) <= 0xDFFF)
  {
  }

  lemma EscapeRead(s: seq<byte>, p: nat, hs: seq<Hex>)
    requires FourHex(hs) && At(s, p, [92, 117] + FourBytes(hs))
    ensures p + 6 <= |s| && s[p] == 92 && s[p + 1] == 117 && ParseHex4(s, p + 2) == Ok(Unit(hs), p + 6)
  {
    hide At, FourBytes, ParseHex4, Unit;
    AtConcat(s, p, [92, 117], FourBytes(hs));
    assert [92] + [117] == [92, 117];
    AtConcat(s, p, [92], [117]);
    AtHead(s, p, [92]);
    AtHead(s, p + 1, [117]);
    FourHexRead(s, p + 2, hs);
  }

  /** Whatever is read as a character was written in one of these ways. */
  lemma CharOf(s: seq<byte>, p: nat) returns (t: CharText)
    requires p <= |s| && ParseChar(s, p).Ok? && Peek(s, p) != QUOTE
    ensures GoodChar(t) && At(s, p, CharBytes(t)) && ParseChar(s, p) == Ok(CharMeaning(t), p + |CharBytes(t)|)
  {
    hide ParseHex4, IsUtf8, Utf8, FourBytes, Unit;
    var c := Peek(s, p);
    if c != BACKSLASH {
      t := Plain(c);
      assert s[p..p + 1] == [c];
    } else if ReadEscape(Peek(s, p + 1)) != 0 {
      t := Short(s[p + 1]);
      assert s[p..p + 2] == [92, s[p + 1]];
    } else {
      var hs := FourHexOf(s, p + 2);
      EscapeAt(s, p, hs);
      if 0xD800 <= Unit(hs) <= 0xDBFF {
        var low := FourHexOf(s, p + 8);
        EscapeAt(s, p + 6, low);
        AtConcat(s, p, [92, 117] + FourBytes(hs), [92, 117] + FourBytes(low));
        PairPoint(Unit(hs), Unit(low));
        var point := 0x1_0000 + 1024 * (Unit(hs) - 0xD800) + (Unit(low) - 0xDC00);
        Utf8Is(point);
        t := Surrogates(hs, low, Utf8(point));
      } else {
        Utf8Is(Unit(hs));
        t := Unicode(hs, Utf8(Unit(hs)));
      }
    }
  }

  lemma EscapeAt(s: seq<byte>, p: nat, hs: seq<Hex>)
    requires FourHex(hs) && At(s, p + 2, FourBytes(hs)) && s[p] == 92 && s[p + 1] == 117
    ensures At(s, p, [92, 117] + FourBytes(hs))
  {
    assert s[p..p + 2] == [92, 117];
    AtConcat(s, p, [92, 117], FourBytes(hs));
  }

  lemma {:induction false} CharsRead(s: seq<byte>, p: nat, ts: seq<CharText>)
    requires GoodChars(ts) && At(s, p, CharsBytes(ts) + [34])
    ensures p <= |s| && ParseChars(s, p) == Ok(CharsMeaning(ts), p + |CharsBytes(ts)| + 1)
    decreases |ts|
  {
    hide At, CharBytes, CharMeaning, GoodChar, ParseChar;
    if |ts| == 0 {
      assert CharsBytes(ts) + [34] == [34];
      AtHead(s, p, [34]);
    } else {
      assert CharsBytes(ts) + [34] == CharBytes(ts[0]) + (CharsBytes(ts[1..]) + [34]);
      AtConcat(s, p, CharBytes(ts[0]), CharsBytes(ts[1..]) + [34]);
      CharRead(s, p, ts[0]);
      CharsRead(s, p + |CharBytes(ts[0])|, ts[1..]);
    }
  }

  lemma {:induction false} CharsOf(s: seq<byte>, p: nat) returns (ts: seq<CharText>)
    requires p <= |s| && ParseChars(s, p).Ok?
    ensures GoodChars(ts) && At(s, p, CharsBytes(ts) + [34])
    ensures ParseChars(s, p) == Ok(CharsMeaning(ts), p + |CharsBytes(ts)| + 1)
    decreases |s| - p
  {
    hide CharBytes, CharMeaning, GoodChar, ParseChar;
    if Peek(s, p) == QUOTE {
      ts := [];
      assert s[p..p + 1] == [34] && [] + [34] == [34];
    } else {
      var t := CharOf(s, p);
      var rest := CharsOf(s, p + |CharBytes(t)|);
      ts := [t] + rest;
      assert ts[1..] == rest;
      assert CharsBytes(ts) + [34] == CharBytes(t) + (CharsBytes(rest) + [34]);
      AtConcat(s, p, CharBytes(t), CharsBytes(rest) + [34]);
    }
  }

  // ---- Integers ----

  lemma {:induction false} DigitsRead(s: seq<byte>, p: nat, acc: nat, ds: seq<nat>)
    requires IsDigits(ds) && At(s, p, DigitBytes(ds)) && !IsDigit(Peek(s, p + |ds|))
    ensures p <= |s| && ReadDigits(s, p, acc) == (Decimals(acc, ds), p + |ds|)
    decreases |ds|
  {
    hide At;
    AtInside(s, p, DigitBytes(ds));
    if |ds| > 0 {
      AtConcat(s, p, [48 + ds[0]], DigitBytes(ds[1..]));
      AtHead(s, p, [48 + ds[0]]);
      DecimalsFirst(acc, ds);
      DigitsRead(s, p + 1, 10 * acc + ds[0], ds[1..]);
    }
  }

  lemma {:induction false} DigitsOf(s: seq<byte>, p: nat, acc: nat) returns (ds: seq<nat>)
    requires p <= |s|
    ensures IsDigits(ds) && At(s, p, DigitBytes(ds)) && ReadDigits(s, p, acc) == (Decimals(acc, ds), p + |ds|)
    ensures IsDigit(Peek(s, p)) ==> |ds| > 0 && s[p] == 48 + ds[0]
    decreases |s| - p
  {
    if IsDigit(Peek(s, p)) {
      var d: nat := s[p] as int - 48;
      var rest := DigitsOf(s, p + 1, 10 * acc + d);
      ds := [d] + rest;
      DigitInFront(acc, d, rest);
      OneByte(s, p);
      AtConcat(s, p, [s[p]], DigitBytes(rest));
    } else {
      ds := [];
      assert s[p..p] == [];
    }
  }

  /** No sign but minus, no leading zeros, and in the range of the 64-bit types. */
  predicate GoodNumber(minus: bool, ds: seq<nat>) {
    && NoLeadingZero(ds)
    && Decimals(0, ds) <= (if minus then 0x8000_0000_0000_0000 else 0xFFFF_FFFF_FFFF_FFFF)
  }

  function NumberBytes(minus: bool, ds: seq<nat>): (b: seq<byte>)
    requires IsDigits(ds)
    ensures |b| == |ds| + if minus then 1 else 0
  {
    (if minus then [45] else []) + DigitBytes(ds)
  }

  function Signed64(minus: bool, n: nat): int {
    if minus then 0 - n else n
  }

  /** What ends a value inside an array or an object: white space, a comma, a bracket or a brace. */
  predicate EndsValue(c: byte) {
    c in [9, 10, 13, 32, 44, 93, 125]
  }

  lemma NumberRead(s: seq<byte>, p: nat, minus: bool, ds: seq<nat>)
    requires GoodNumber(minus, ds) && At(s, p, NumberBytes(minus, ds)) && EndsValue(Peek(s, p + |NumberBytes(minus, ds)|))
    ensures p < |s| && (s[p] == 45 || IsDigit(s[p]))
    ensures ParseNumber(s, p) == Ok(Number(Signed64(minus, Decimals(0, ds))), p + |NumberBytes(minus, ds)|)
  {
    hide At, DigitBytes, Decimals;
    var q := if minus then p + 1 else p;
    AtConcat(s, p, if minus then [45] else [], DigitBytes(ds));
    AtHead(s, p, NumberBytes(minus, ds));
    DigitBytesHead(ds);
    AtHead(s, q, DigitBytes(ds));
    if ds[0] == 0 {
      DecimalsOfOne(ds);
    } else {
      DigitsRead(s, q, 0, ds);
    }
  }

  /** Digits with a point or an exponent behind them, or too large for 64 bits, make a double; no digits, an error. */
  lemma NumberExactly(s: seq<byte>, p: nat, minus: bool, ds: seq<nat>)
    requires NoLeadingZero(ds) && At(s, p, NumberBytes(minus, ds))
    requires var c := Peek(s, p + |NumberBytes(minus, ds)|); ds[0] == 0 || !IsDigit(c)
    ensures p <= |s|
    ensures var c := Peek(s, p + |NumberBytes(minus, ds)|);
            ParseNumber(s, p).Double? <==> c in [46, 69, 101] || !GoodNumber(minus, ds)
  {
    hide At, DigitBytes, Decimals;
    var q := if minus then p + 1 else p;
    AtConcat(s, p, if minus then [45] else [], DigitBytes(ds));
    AtHead(s, p, NumberBytes(minus, ds));
    DigitBytesHead(ds);
    AtHead(s, q, DigitBytes(ds));
    if ds[0] == 0 {
      DecimalsOfOne(ds);
    } else {
      DigitsRead(s, q, 0, ds);
    }
  }

  /** An error is no digit where one must be. */
  lemma NoNumber(s: seq<byte>, p: nat)
    requires p <= |s|
    ensures ParseNumber(s, p).Error? <==> !IsDigit(Peek(s, if Peek(s, p) == 45 then p + 1 else p))
  {
  }

  lemma NumberOf(s: seq<byte>, p: nat) returns (minus: bool, ds: seq<nat>)
    requires p <= |s| && ParseNumber(s, p).Ok?
    ensures GoodNumber(minus, ds) && At(s, p, NumberBytes(minus, ds))
    ensures ParseNumber(s, p) == Ok(Number(Signed64(minus, Decimals(0, ds))), p + |NumberBytes(minus, ds)|)
  {
    hide Decimals;
    minus := Peek(s, p) == MINUS;
    var q := if minus then p + 1 else p;
    if Peek(s, q) == ZERO {
      ds := [0];
      DecimalsOfOne(ds);
      OneByte(s, q);
      assert DigitBytes(ds) == [48];
    } else {
      ds := DigitsOf(s, q, 0);
    }
    hide DigitBytes, At;
    if minus {
      OneByte(s, p);
      AtConcat(s, p, [45], DigitBytes(ds));
    } else {
      assert [] + DigitBytes(ds) == DigitBytes(ds);
    }
  }

  // ---- Values ----

  datatype Text =
    | Word(v: Value)
    | Integer(minus: bool, ds: seq<nat>)
    | Quoted(cs: seq<CharText>)
    | Brackets(blank: seq<byte>, es: Items)
    | Braces(blank: seq<byte>, ms: Pairs)

  /** The elements, with the white space around them. */
  datatype Items = NoItem | Item(before: seq<byte>, text: Text, after: seq<byte>, rest: Items)

  /** The members, with the white space around them. */
  datatype Pairs = NoPair | Pair(before: seq<byte>, member: Named, after: seq<byte>, rest: Pairs)

  /** A name and a value, with the white space in front of the colon and behind it. */
  datatype Named = Named(name: seq<CharText>, middle: seq<byte>, gap: seq<byte>, text: Text)

  predicate Spaces(ws: seq<byte>) {
    forall i | 0 <= i < |ws| :: ws[i] == 9 || ws[i] == 10 || ws[i] == 13 || ws[i] == 32
  }

  predicate Good(t: Text) {
    match t
    case Word(v) => v == Null || v == Bool(true) || v == Bool(false)
    case Integer(minus, ds) => GoodNumber(minus, ds)
    case Quoted(cs) => GoodChars(cs)
    case Brackets(blank, es) => Spaces(blank) && GoodItems(es)
    case Braces(blank, ms) => Spaces(blank) && GoodPairs(ms)
  }

  predicate GoodItems(es: Items) {
    es.Item? ==> Spaces(es.before) && Good(es.text) && Spaces(es.after) && GoodItems(es.rest)
  }

  predicate GoodPairs(ms: Pairs) {
    ms.Pair? ==> Spaces(ms.before) && GoodMember(ms.member) && Spaces(ms.after) && GoodPairs(ms.rest)
  }

  predicate GoodMember(m: Named) {
    GoodChars(m.name) && Spaces(m.middle) && Spaces(m.gap) && Good(m.text)
  }

  function StringBytes(cs: seq<CharText>): seq<byte>
    requires GoodChars(cs)
  {
    [34] + (CharsBytes(cs) + [34])
  }

  function TextBytes(t: Text): seq<byte>
    requires Good(t)
  {
    match t
    case Word(v) =>
      if v == Null then [110, 117, 108, 108] else if v == Bool(true) then [116, 114, 117, 101] else [102, 97, 108, 115, 101]
    case Integer(minus, ds) => NumberBytes(minus, ds)
    case Quoted(cs) => StringBytes(cs)
    case Brackets(blank, es) => [91] + (if es.NoItem? then blank + [93] else ItemsBytes(es))
    case Braces(blank, ms) => [123] + (if ms.NoPair? then blank + [125] else PairsBytes(ms))
  }

  /** The elements, commas between them, and the closing bracket. */
  function ItemsBytes(es: Items): seq<byte>
    requires es.Item? && GoodItems(es)
  {
    es.before + (TextBytes(es.text) + (es.after + if es.rest.NoItem? then [93] else [44] + ItemsBytes(es.rest)))
  }

  /** The members, commas between them, and the closing brace. */
  function PairsBytes(ms: Pairs): seq<byte>
    requires ms.Pair? && GoodPairs(ms)
  {
    ms.before + (MemberBytes(ms.member) + (ms.after + if ms.rest.NoPair? then [125] else [44] + PairsBytes(ms.rest)))
  }

  function MemberBytes(m: Named): seq<byte>
    requires GoodMember(m)
  {
    StringBytes(m.name) + (m.middle + ([58] + (m.gap + TextBytes(m.text))))
  }

  function TextMeaning(t: Text): Value
    requires Good(t)
  {
    match t
    case Word(v) => v
    case Integer(minus, ds) => Number(Signed64(minus, Decimals(0, ds)))
    case Quoted(cs) => String(CharsMeaning(cs))
    case Brackets(_, es) => Array(ItemsMeaning(es))
    case Braces(_, ms) => Object(PairsMeaning(ms))
  }

  function ItemsMeaning(es: Items): seq<Value>
    requires GoodItems(es)
  {
    if es.NoItem? then [] else [TextMeaning(es.text)] + ItemsMeaning(es.rest)
  }

  function PairsMeaning(ms: Pairs): seq<Member>
    requires GoodPairs(ms)
  {
    if ms.NoPair? then [] else [MemberMeaning(ms.member)] + PairsMeaning(ms.rest)
  }

  function MemberMeaning(m: Named): Member
    requires GoodMember(m)
  {
    Member(CharsMeaning(m.name), TextMeaning(m.text))
  }

  // ---- Every text of the grammar is read ----

  lemma {:induction false} SpacesSkipped(s: seq<byte>, p: nat, ws: seq<byte>)
    requires Spaces(ws) && At(s, p, ws) && !IsSpace(Peek(s, p + |ws|))
    ensures p <= |s| && Skip(s, p) == p + |ws|
    decreases |ws|
  {
    if |ws| > 0 {
      assert ws == [ws[0]] + ws[1..];
      AtConcat(s, p, [ws[0]], ws[1..]);
      AtHead(s, p, ws);
      SpacesSkipped(s, p + 1, ws[1..]);
    }
  }

  lemma TextHead(t: Text)
    requires Good(t)
    ensures |TextBytes(t)| > 0
    ensures var c := TextBytes(t)[0];
            !IsSpace(c) && c != CLOSE_ARRAY && c != CLOSE_OBJECT
            && (t.Brackets? ==> c == OPEN_ARRAY) && (t.Braces? ==> c == OPEN_OBJECT) && (t.Quoted? ==> c == QUOTE)
  {
    hide ItemsBytes, PairsBytes, CharsBytes, GoodItems, GoodPairs, Decimals;
    if t.Integer? { DigitBytesHead(t.ds); }
  }

  /** What may follow a value is no space in front of what is neither, and ends a number. */
  lemma {:induction false} TextRead(s: seq<byte>, p: nat, t: Text)
    requires Good(t) && At(s, p, TextBytes(t)) && EndsValue(Peek(s, p + |TextBytes(t)|))
    ensures p <= |s| && ParseValue(s, p) == Ok(TextMeaning(t), p + |TextBytes(t)|)
    decreases t, 1
  {
    TextHead(t);
    AtHead(s, p, TextBytes(t));
    match t {
      case Word(v) =>
      case Integer(minus, ds) => NumberRead(s, p, minus, ds);
      case Quoted(cs) => StringRead(s, p, cs);
      case Brackets(blank, es) => BracketsRead(s, p, t);
      case Braces(blank, ms) => BracesRead(s, p, t);
    }
  }

  lemma StringRead(s: seq<byte>, p: nat, cs: seq<CharText>)
    requires GoodChars(cs) && At(s, p, StringBytes(cs))
    ensures p < |s| && s[p] == QUOTE && ParseString(s, p) == Ok(CharsMeaning(cs), p + |StringBytes(cs)|)
  {
    hide At, GoodChars;
    AtConcat(s, p, [34], CharsBytes(cs) + [34]);
    AtHead(s, p, [34]);
    CharsRead(s, p + 1, cs);
  }

  lemma {:induction false} BracketsRead(s: seq<byte>, p: nat, t: Text)
    requires t.Brackets? && Good(t) && At(s, p, TextBytes(t))
    ensures p <= |s| && ParseValue(s, p) == Ok(TextMeaning(t), p + |TextBytes(t)|)
    decreases t, 0
  {
    hide At, ItemsBytes, GoodItems, ParseElements, ParseMembers;
    AtConcat(s, p, [91], if t.es.NoItem? then t.blank + [93] else ItemsBytes(t.es));
    AtHead(s, p, [91]);
    if t.es.NoItem? {
      AtConcat(s, p + 1, t.blank, [93]);
      AtHead(s, p + 1 + |t.blank|, [93]);
      SpacesSkipped(s, p + 1, t.blank);
    } else {
      ItemsRead(s, p + 1, t.es);
    }
  }

  lemma LastItem(es: Items)
    requires es.Item? && es.rest.NoItem? && GoodItems(es)
    ensures ItemsMeaning(es) == [TextMeaning(es.text)]
  {
    hide TextMeaning;
    assert ItemsMeaning(es.rest) == [];
  }

  lemma LastPair(ms: Pairs)
    requires ms.Pair? && ms.rest.NoPair? && GoodPairs(ms)
    ensures PairsMeaning(ms) == [MemberMeaning(ms.member)]
  {
    hide MemberMeaning;
    assert PairsMeaning(ms.rest) == [];
  }

  /** From the first element on, white space in front of it. */
  lemma {:induction false} ItemsRead(s: seq<byte>, p: nat, es: Items)
    requires es.Item? && GoodItems(es) && At(s, p, ItemsBytes(es))
    ensures p <= |s| && Peek(s, Skip(s, p)) != CLOSE_ARRAY
    ensures ParseElements(s, Skip(s, p)) == Ok(ItemsMeaning(es), p + |ItemsBytes(es)|)
    decreases es
  {
    hide At, TextBytes, TextMeaning, ParseValue, ParseElements, Good, Spaces;
    var q := p + |es.before|;
    var q' := q + |TextBytes(es.text)|;
    var tail := if es.rest.NoItem? then [93] else [44] + ItemsBytes(es.rest);
    AtConcat(s, p, es.before, TextBytes(es.text) + (es.after + tail));
    AtConcat(s, q, TextBytes(es.text), es.after + tail);
    AtConcat(s, q', es.after, tail);
    TextHead(es.text);
    AtHead(s, q, TextBytes(es.text));
    SpacesSkipped(s, p, es.before);
    AtHead(s, q' + |es.after|, tail);
    AfterSpaces(s, q', es.after, tail[0]);
    SpacesSkipped(s, q', es.after);
    TextRead(s, q, es.text);
    ElementsOnward(s, q, TextMeaning(es.text), q');
    if es.rest.Item? {
      AtConcat(s, q' + |es.after|, [44], ItemsBytes(es.rest));
      ItemsRead(s, q' + |es.after| + 1, es.rest);
    } else {
      LastItem(es);
    }
  }

  /** What comes after a value starts with white space or with what comes after that. */
  lemma AfterSpaces(s: seq<byte>, p: nat, ws: seq<byte>, c: byte)
    requires Spaces(ws) && At(s, p, ws) && Peek(s, p + |ws|) == c && EndsValue(c)
    ensures EndsValue(Peek(s, p))
  {
    if |ws| > 0 { AtHead(s, p, ws); }
  }

  lemma {:induction false} BracesRead(s: seq<byte>, p: nat, t: Text)
    requires t.Braces? && Good(t) && At(s, p, TextBytes(t))
    ensures p <= |s| && ParseValue(s, p) == Ok(TextMeaning(t), p + |TextBytes(t)|)
    decreases t, 0
  {
    hide At, PairsBytes, GoodPairs, ParseElements, ParseMembers;
    AtConcat(s, p, [123], if t.ms.NoPair? then t.blank + [125] else PairsBytes(t.ms));
    AtHead(s, p, [123]);
    if t.ms.NoPair? {
      AtConcat(s, p + 1, t.blank, [125]);
      AtHead(s, p + 1 + |t.blank|, [125]);
      SpacesSkipped(s, p + 1, t.blank);
    } else {
      PairsRead(s, p + 1, t.ms);
    }
  }

  lemma MembersOnward(s: seq<byte>, p: nat, m: Member, q0: nat)
    requires p <= |s| && ParseMember(s, p) == Ok(m, q0)
    ensures var q := Skip(s, q0);
            (Peek(s, q) == COMMA ==> ParseMembers(s, p) == Prepend([m], ParseMembers(s, Skip(s, q + 1))))
            && (Peek(s, q) == CLOSE_OBJECT ==> ParseMembers(s, p) == Ok([m], q + 1))
  {
    hide ParseMember;
  }

  lemma ElementsOnward(s: seq<byte>, p: nat, v: Value, q0: nat)
    requires p <= |s| && ParseValue(s, p) == Ok(v, q0)
    ensures var q := Skip(s, q0);
            (Peek(s, q) == COMMA ==> ParseElements(s, p) == Prepend([v], ParseElements(s, Skip(s, q + 1))))
            && (Peek(s, q) == CLOSE_ARRAY ==> ParseElements(s, p) == Ok([v], q + 1))
  {
    hide ParseValue;
  }

  lemma {:induction false} PairsRead(s: seq<byte>, p: nat, ms: Pairs)
    requires ms.Pair? && GoodPairs(ms) && At(s, p, PairsBytes(ms))
    ensures p <= |s| && Peek(s, Skip(s, p)) != CLOSE_OBJECT
    ensures ParseMembers(s, Skip(s, p)) == Ok(PairsMeaning(ms), p + |PairsBytes(ms)|)
    decreases ms
  {
    hide At, MemberBytes, MemberMeaning, ParseMember, ParseMembers, GoodMember, Spaces;
    var q := p + |ms.before|;
    var q' := q + |MemberBytes(ms.member)|;
    var tail := if ms.rest.NoPair? then [125] else [44] + PairsBytes(ms.rest);
    AtConcat(s, p, ms.before, MemberBytes(ms.member) + (ms.after + tail));
    AtConcat(s, q, MemberBytes(ms.member), ms.after + tail);
    AtConcat(s, q', ms.after, tail);
    AtHead(s, q' + |ms.after|, tail);
    AfterSpaces(s, q', ms.after, tail[0]);
    SpacesSkipped(s, q', ms.after);
    MemberRead(s, q, ms.member);
    SpacesSkipped(s, p, ms.before);
    MembersOnward(s, q, MemberMeaning(ms.member), q');
    if ms.rest.Pair? {
      AtConcat(s, q' + |ms.after|, [44], PairsBytes(ms.rest));
      PairsRead(s, q' + |ms.after| + 1, ms.rest);
    } else {
      LastPair(ms);
    }
  }

  lemma {:induction false} MemberRead(s: seq<byte>, p: nat, m: Named)
    requires GoodMember(m) && At(s, p, MemberBytes(m)) && EndsValue(Peek(s, p + |MemberBytes(m)|))
    ensures p < |s| && s[p] == QUOTE
    ensures ParseMember(s, p) == Ok(MemberMeaning(m), p + |MemberBytes(m)|)
    decreases m
  {
    hide At, TextBytes, TextMeaning, StringBytes, CharsMeaning, ParseString, ParseValue, Good, GoodChars, Spaces;
    var q1 := p + |StringBytes(m.name)|;
    var q2 := q1 + |m.middle|;
    var q3 := q2 + 1 + |m.gap|;
    AtConcat(s, p, StringBytes(m.name), m.middle + ([58] + (m.gap + TextBytes(m.text))));
    AtConcat(s, q1, m.middle, [58] + (m.gap + TextBytes(m.text)));
    AtConcat(s, q2, [58], m.gap + TextBytes(m.text));
    AtConcat(s, q2 + 1, m.gap, TextBytes(m.text));
    AtHead(s, q2, [58]);
    TextHead(m.text);
    AtHead(s, q3, TextBytes(m.text));
    StringRead(s, p, m.name);
    SpacesSkipped(s, q1, m.middle);
    SpacesSkipped(s, q2 + 1, m.gap);
    TextRead(s, q3, m.text);
  }

  // ---- Whatever is read is a text of the grammar ----

  lemma {:induction false} SpacesOf(s: seq<byte>, p: nat) returns (ws: seq<byte>)
    requires p <= |s|
    ensures Spaces(ws) && At(s, p, ws) && Skip(s, p) == p + |ws| && SpacesAt(s, p, ws)
    decreases |s| - p
  {
    if IsSpace(Peek(s, p)) {
      var rest := SpacesOf(s, p + 1);
      ws := [s[p]] + rest;
      OneByte(s, p);
      AtConcat(s, p, [s[p]], rest);
    } else {
      ws := [];
    }
  }

  lemma StringOf(s: seq<byte>, p: nat) returns (cs: seq<CharText>)
    requires p <= |s| && ParseString(s, p).Ok?
    ensures GoodChars(cs) && At(s, p, StringBytes(cs))
    ensures ParseString(s, p) == Ok(CharsMeaning(cs), p + |StringBytes(cs)|)
  {
    hide At;
    OneByte(s, p);
    cs := CharsOf(s, p + 1);
    AtConcat(s, p, [34], CharsBytes(cs) + [34]);
  }

  lemma WordOf(s: seq<byte>, p: nat, word: seq<byte>, v: Value)
    requires p <= |s| && ParseWord(s, p, word, v).Ok?
    ensures At(s, p, word) && ParseWord(s, p, word, v) == Ok(v, p + |word|)
  {
  }

  lemma {:induction false} TextOf(s: seq<byte>, p: nat) returns (t: Text)
    requires p <= |s| && ParseValue(s, p).Ok?
    ensures Good(t) && At(s, p, TextBytes(t)) && ParseValue(s, p) == Ok(TextMeaning(t), p + |TextBytes(t)|)
    ensures (t.Brackets? <==> Peek(s, p) == OPEN_ARRAY) && (t.Braces? <==> Peek(s, p) == OPEN_OBJECT)
    decreases |s| - p, 1
  {
    hide At, ParseWord, ParseString, ParseNumber, ParseElements, ParseMembers, Skip;
    var c := Peek(s, p);
    if c == TEXT_NULL[0] {
      WordOf(s, p, TEXT_NULL, Null);
      t := Word(Null);
    } else if c == TEXT_TRUE[0] {
      WordOf(s, p, TEXT_TRUE, Bool(true));
      t := Word(Bool(true));
    } else if c == TEXT_FALSE[0] {
      WordOf(s, p, TEXT_FALSE, Bool(false));
      t := Word(Bool(false));
    } else if c == QUOTE {
      var cs := StringOf(s, p);
      t := Quoted(cs);
    } else if c == OPEN_OBJECT {
      t := BracesOf(s, p);
    } else if c == OPEN_ARRAY {
      t := BracketsOf(s, p);
    } else {
      var minus, ds := NumberOf(s, p);
      t := Integer(minus, ds);
    }
  }

  lemma {:induction false} BracketsOf(s: seq<byte>, p: nat) returns (t: Text)
    requires p < |s| && s[p] == OPEN_ARRAY && ParseValue(s, p).Ok?
    ensures t.Brackets? && Good(t) && At(s, p, TextBytes(t))
    ensures ParseValue(s, p) == Ok(TextMeaning(t), p + |TextBytes(t)|)
    decreases |s| - p, 0
  {
    hide At, ParseElements, ParseMembers, Skip, ItemsBytes;
    OneByte(s, p);
    var q := Skip(s, p + 1);
    if Peek(s, q) == CLOSE_ARRAY {
      var ws := SpacesOf(s, p + 1);
      OneByte(s, q);
      AtConcat(s, p + 1, ws, [93]);
      AtConcat(s, p, [91], ws + [93]);
      t := Brackets(ws, NoItem);
    } else {
      var es := ItemsOf(s, p + 1);
      AtConcat(s, p, [91], ItemsBytes(es));
      t := Brackets([], es);
    }
  }

  lemma ElementsAreOk(s: seq<byte>, p: nat)
    requires p <= |s| && ParseElements(s, p).Ok?
    ensures ParseValue(s, p).Ok?
    ensures var q := Skip(s, ParseValue(s, p).pos);
            q < |s| && (Peek(s, q) == COMMA ==> ParseElements(s, Skip(s, q + 1)).Ok?)
  {
    hide ParseValue;
  }

  lemma MembersAreOk(s: seq<byte>, p: nat)
    requires p <= |s| && ParseMembers(s, p).Ok?
    ensures ParseMember(s, p).Ok?
    ensures var q := Skip(s, ParseMember(s, p).pos);
            q < |s| && (Peek(s, q) == COMMA ==> ParseMembers(s, Skip(s, q + 1)).Ok?)
  {
    hide ParseMember;
  }

  lemma AtFour(s: seq<byte>, p: nat, a: seq<byte>, b: seq<byte>, c: seq<byte>, d: seq<byte>)
    requires At(s, p, a) && At(s, p + |a|, b) && At(s, p + |a| + |b|, c) && At(s, p + |a| + |b| + |c|, d)
    ensures At(s, p, a + (b + (c + d)))
  {
    hide At;
    AtConcat(s, p + |a| + |b|, c, d);
    AtConcat(s, p + |a|, b, c + d);
    AtConcat(s, p, a, b + (c + d));
  }

  lemma ItemAt(s: seq<byte>, p: nat, es: Items)
    requires es.Item? && GoodItems(es)
    requires At(s, p, es.before) && At(s, p + |es.before|, TextBytes(es.text))
    requires var q := p + |es.before| + |TextBytes(es.text)|;
             At(s, q, es.after) && At(s, q + |es.after|, if es.rest.NoItem? then [93] else [44] + ItemsBytes(es.rest))
    ensures At(s, p, ItemsBytes(es))
    ensures |ItemsBytes(es)|
         == |es.before| + |TextBytes(es.text)| + |es.after| + if es.rest.NoItem? then 1 else 1 + |ItemsBytes(es.rest)|
    ensures ItemsMeaning(es)
         == if es.rest.NoItem? then [TextMeaning(es.text)] else [TextMeaning(es.text)] + ItemsMeaning(es.rest)
  {
    hide At, TextBytes, TextMeaning, Good, Spaces;
    AtFour(s, p, es.before, TextBytes(es.text), es.after, if es.rest.NoItem? then [93] else [44] + ItemsBytes(es.rest));
    if es.rest.NoItem? { LastItem(es); }
  }

  /** White space starts at p and ends where the reader goes on. */
  predicate SpacesAt(s: seq<byte>, p: nat, ws: seq<byte>) {
    p <= |s| && Spaces(ws) && At(s, p, ws) && Skip(s, p) == p + |ws|
  }

  lemma AtSpaces(s: seq<byte>, p: nat, ws: seq<byte>)
    requires SpacesAt(s, p, ws)
    ensures p <= |s| && Spaces(ws) && At(s, p, ws) && Skip(s, p) == p + |ws|
  {
  }

  lemma ItemsTogether(s: seq<byte>, p: nat, es: Items, q0: nat, q: nat)
    requires es.Item? && SpacesAt(s, p, es.before) && ParseElements(s, Skip(s, p)).Ok?
    requires Good(es.text) && At(s, Skip(s, p), TextBytes(es.text)) && q0 == Skip(s, p) + |TextBytes(es.text)|
    requires ParseValue(s, Skip(s, p)) == Ok(TextMeaning(es.text), q0)
    requires SpacesAt(s, q0, es.after) && q == Skip(s, q0)
    requires if Peek(s, q) != COMMA then es.rest.NoItem?
             else es.rest.Item? && GoodItems(es.rest) && At(s, q + 1, ItemsBytes(es.rest))
                  && ParseElements(s, Skip(s, q + 1)) == Ok(ItemsMeaning(es.rest), q + 1 + |ItemsBytes(es.rest)|)
    ensures GoodItems(es) && At(s, p, ItemsBytes(es))
    ensures ParseElements(s, Skip(s, p)) == Ok(ItemsMeaning(es), p + |ItemsBytes(es)|)
  {
    hide *;
    AtSpaces(s, p, es.before);
    AtSpaces(s, q0, es.after);
    ItemsTogetherAreGood(es);
    if Peek(s, q) == COMMA {
      MoreElements(s, Skip(s, p), TextMeaning(es.text), q0, ItemsMeaning(es.rest), q + 1 + |ItemsBytes(es.rest)|);
      AtConcat(s, q, [44], ItemsBytes(es.rest));
    } else {
      LastElement(s, Skip(s, p), TextMeaning(es.text), q0);
    }
    ItemAt(s, p, es);
  }

  lemma ItemsTogetherAreGood(es: Items)
    requires es.Item? && Spaces(es.before) && Good(es.text) && Spaces(es.after)
    requires es.rest.Item? ==> GoodItems(es.rest)
    ensures GoodItems(es)
  {
  }

  lemma MoreElements(s: seq<byte>, p: nat, v: Value, q0: nat, rest: seq<Value>, end: nat)
    requires p <= |s| && ParseValue(s, p) == Ok(v, q0)
    requires var q := Skip(s, q0); Peek(s, q) == COMMA && q < |s| && ParseElements(s, Skip(s, q + 1)) == Ok(rest, end)
    ensures ParseElements(s, p) == Ok([v] + rest, end) && At(s, Skip(s, q0), [44])
  {
    hide ParseValue;
    OneByte(s, Skip(s, q0));
  }

  lemma LastElement(s: seq<byte>, p: nat, v: Value, q0: nat)
    requires p <= |s| && ParseValue(s, p) == Ok(v, q0) && ParseElements(s, p).Ok? && Peek(s, Skip(s, q0)) != COMMA
    ensures ParseElements(s, p) == Ok([v], Skip(s, q0) + 1) && At(s, Skip(s, q0), [93])
  {
    hide ParseValue;
    OneByte(s, Skip(s, q0));
  }

  lemma {:induction false} ItemsOf(s: seq<byte>, p: nat) returns (es: Items)
    requires p <= |s| && ParseElements(s, Skip(s, p)).Ok?
    ensures es.Item? && GoodItems(es) && At(s, p, ItemsBytes(es))
    ensures ParseElements(s, Skip(s, p)) == Ok(ItemsMeaning(es), p + |ItemsBytes(es)|)
    decreases |s| - p, 2
  {
    hide *;
    ElementsAreOk(s, Skip(s, p));
    var before := SpacesOf(s, p);
    var t := TextOf(s, Skip(s, p));
    var q0 := p + |before| + |TextBytes(t)|;
    var after := SpacesOf(s, q0);
    var rest := NoItem;
    var q := Skip(s, q0);
    if Peek(s, q) == COMMA {
      rest := ItemsOf(s, q + 1);
    }
    es := Item(before, t, after, rest);
    ItemsTogether(s, p, es, q0, q);
  }

  lemma {:induction false} BracesOf(s: seq<byte>, p: nat) returns (t: Text)
    requires p < |s| && s[p] == OPEN_OBJECT && ParseValue(s, p).Ok?
    ensures t.Braces? && Good(t) && At(s, p, TextBytes(t))
    ensures ParseValue(s, p) == Ok(TextMeaning(t), p + |TextBytes(t)|)
    decreases |s| - p, 0
  {
    hide At, ParseElements, ParseMembers, Skip, PairsBytes;
    OneByte(s, p);
    var q := Skip(s, p + 1);
    if Peek(s, q) == CLOSE_OBJECT {
      var ws := SpacesOf(s, p + 1);
      OneByte(s, q);
      AtConcat(s, p + 1, ws, [125]);
      AtConcat(s, p, [123], ws + [125]);
      t := Braces(ws, NoPair);
    } else {
      var ms := PairsOf(s, p + 1);
      AtConcat(s, p, [123], PairsBytes(ms));
      t := Braces([], ms);
    }
  }

  lemma PairAt(s: seq<byte>, p: nat, ms: Pairs)
    requires ms.Pair? && GoodPairs(ms)
    requires At(s, p, ms.before) && At(s, p + |ms.before|, MemberBytes(ms.member))
    requires var q := p + |ms.before| + |MemberBytes(ms.member)|;
             At(s, q, ms.after) && At(s, q + |ms.after|, if ms.rest.NoPair? then [125] else [44] + PairsBytes(ms.rest))
    ensures At(s, p, PairsBytes(ms))
    ensures |PairsBytes(ms)|
         == |ms.before| + |MemberBytes(ms.member)| + |ms.after| + if ms.rest.NoPair? then 1 else 1 + |PairsBytes(ms.rest)|
    ensures PairsMeaning(ms)
         == if ms.rest.NoPair? then [MemberMeaning(ms.member)] else [MemberMeaning(ms.member)] + PairsMeaning(ms.rest)
  {
    hide At, MemberBytes, MemberMeaning, GoodMember, Spaces;
    AtFour(s, p, ms.before, MemberBytes(ms.member), ms.after, if ms.rest.NoPair? then [125] else [44] + PairsBytes(ms.rest));
    if ms.rest.NoPair? { LastPair(ms); }
  }

  lemma PairsTogether(s: seq<byte>, p: nat, ms: Pairs, q0: nat, q: nat)
    requires ms.Pair? && SpacesAt(s, p, ms.before) && ParseMembers(s, Skip(s, p)).Ok?
    requires GoodMember(ms.member) && At(s, Skip(s, p), MemberBytes(ms.member))
    requires q0 == Skip(s, p) + |MemberBytes(ms.member)|
    requires ParseMember(s, Skip(s, p)) == Ok(MemberMeaning(ms.member), q0)
    requires SpacesAt(s, q0, ms.after) && q == Skip(s, q0)
    requires if Peek(s, q) != COMMA then ms.rest.NoPair?
             else ms.rest.Pair? && GoodPairs(ms.rest) && At(s, q + 1, PairsBytes(ms.rest))
                  && ParseMembers(s, Skip(s, q + 1)) == Ok(PairsMeaning(ms.rest), q + 1 + |PairsBytes(ms.rest)|)
    ensures GoodPairs(ms) && At(s, p, PairsBytes(ms))
    ensures ParseMembers(s, Skip(s, p)) == Ok(PairsMeaning(ms), p + |PairsBytes(ms)|)
  {
    hide *;
    AtSpaces(s, p, ms.before);
    AtSpaces(s, q0, ms.after);
    PairsTogetherAreGood(ms);
    if Peek(s, q) == COMMA {
      MoreMembers(s, Skip(s, p), MemberMeaning(ms.member), q0, PairsMeaning(ms.rest), q + 1 + |PairsBytes(ms.rest)|);
      AtConcat(s, q, [44], PairsBytes(ms.rest));
    } else {
      LastMember(s, Skip(s, p), MemberMeaning(ms.member), q0);
    }
    PairAt(s, p, ms);
  }

  lemma PairsTogetherAreGood(ms: Pairs)
    requires ms.Pair? && Spaces(ms.before) && GoodMember(ms.member) && Spaces(ms.after)
    requires ms.rest.Pair? ==> GoodPairs(ms.rest)
    ensures GoodPairs(ms)
  {
  }

  lemma MoreMembers(s: seq<byte>, p: nat, m: Member, q0: nat, rest: seq<Member>, end: nat)
    requires p <= |s| && ParseMember(s, p) == Ok(m, q0)
    requires var q := Skip(s, q0); Peek(s, q) == COMMA && q < |s| && ParseMembers(s, Skip(s, q + 1)) == Ok(rest, end)
    ensures ParseMembers(s, p) == Ok([m] + rest, end) && At(s, Skip(s, q0), [44])
  {
    hide ParseMember;
    OneByte(s, Skip(s, q0));
  }

  lemma LastMember(s: seq<byte>, p: nat, m: Member, q0: nat)
    requires p <= |s| && ParseMember(s, p) == Ok(m, q0) && ParseMembers(s, p).Ok? && Peek(s, Skip(s, q0)) != COMMA
    ensures ParseMembers(s, p) == Ok([m], Skip(s, q0) + 1) && At(s, Skip(s, q0), [125])
  {
    hide ParseMember;
    OneByte(s, Skip(s, q0));
  }

  lemma {:induction false} PairsOf(s: seq<byte>, p: nat) returns (ms: Pairs)
    requires p <= |s| && ParseMembers(s, Skip(s, p)).Ok?
    ensures ms.Pair? && GoodPairs(ms) && At(s, p, PairsBytes(ms))
    ensures ParseMembers(s, Skip(s, p)) == Ok(PairsMeaning(ms), p + |PairsBytes(ms)|)
    decreases |s| - p, 3
  {
    hide *;
    MembersAreOk(s, Skip(s, p));
    var before := SpacesOf(s, p);
    var m := MemberOf(s, Skip(s, p));
    var q0 := p + |before| + |MemberBytes(m)|;
    var after := SpacesOf(s, q0);
    var rest := NoPair;
    var q := Skip(s, q0);
    if Peek(s, q) == COMMA {
      rest := PairsOf(s, q + 1);
    }
    ms := Pair(before, m, after, rest);
    PairsTogether(s, p, ms, q0, q);
  }

  lemma {:induction false} MemberOf(s: seq<byte>, p: nat) returns (m: Named)
    requires p <= |s| && ParseMember(s, p).Ok?
    ensures GoodMember(m) && At(s, p, MemberBytes(m))
    ensures ParseMember(s, p) == Ok(MemberMeaning(m), p + |MemberBytes(m)|)
    decreases |s| - p, 2
  {
    hide At, TextBytes, TextMeaning, ParseValue, Good, Spaces, ParseString, StringBytes, CharsMeaning, Skip;
    var name := StringOf(s, p);
    var q0 := p + |StringBytes(name)|;
    var middle := SpacesOf(s, q0);
    var q1 := Skip(s, q0);
    OneByte(s, q1);
    var gap := SpacesOf(s, q1 + 1);
    var t := TextOf(s, Skip(s, q1 + 1));
    m := Named(name, middle, gap, t);
    AtConcat(s, q1 + 1, gap, TextBytes(t));
    AtFour(s, p, StringBytes(name), middle, [58], gap + TextBytes(t));
  }

  // ---- Whole texts ----

  /** The first q bytes are white space, the text of an array or an object, and white space. */
  predicate Spells(s: seq<byte>, q: nat, lead: seq<byte>, t: Text, trail: seq<byte>) {
    && (t.Brackets? || t.Braces?) && Good(t) && Spaces(lead) && Spaces(trail)
    && q <= |s| && s[..q] == lead + (TextBytes(t) + trail)
  }

  /** The text ends with the string, or with its first NUL behind the value. */
  predicate Ends(s: seq<byte>, q: nat) {
    q == |s| || (q < |s| && s[q] == 0)
  }

  lemma TextAccepted(s: seq<byte>, q: nat, lead: seq<byte>, t: Text, trail: seq<byte>)
    requires Spells(s, q, lead, t, trail) && Ends(s, q)
    ensures Parse(s) == Ok(TextMeaning(t), q)
  {
    hide At, TextBytes, TextMeaning, ParseValue, Good;
    var p := |lead|;
    var q0 := p + |TextBytes(t)|;
    AtStart(s, q);
    AtConcat(s, 0, lead, TextBytes(t) + trail);
    AtConcat(s, p, TextBytes(t), trail);
    TextHead(t);
    AtHead(s, p, TextBytes(t));
    SpacesSkipped(s, 0, lead);
    SpacesSkipped(s, q0, trail);
    if |trail| > 0 { AtHead(s, q0, trail); }
    CompoundRead(s, p, t);
  }

  lemma AtStart(s: seq<byte>, q: nat)
    requires q <= |s|
    ensures At(s, 0, s[..q])
  {
  }

  /** An array or an object ends by itself, whatever follows. */
  lemma CompoundRead(s: seq<byte>, p: nat, t: Text)
    requires (t.Brackets? || t.Braces?) && Good(t) && At(s, p, TextBytes(t))
    ensures p <= |s| && ParseValue(s, p) == Ok(TextMeaning(t), p + |TextBytes(t)|)
  {
    if t.Brackets? { BracketsRead(s, p, t); } else { BracesRead(s, p, t); }
  }

  lemma AcceptedText(s: seq<byte>) returns (lead: seq<byte>, t: Text, trail: seq<byte>)
    requires Parse(s).Ok?
    ensures Spells(s, Parse(s).pos, lead, t, trail) && Ends(s, Parse(s).pos)
    ensures Parse(s).value == TextMeaning(t)
  {
    hide At, TextBytes, TextMeaning, ParseValue, Good, Skip, Spaces;
    lead := SpacesOf(s, 0);
    var p := Skip(s, 0);
    t := TextOf(s, p);
    trail := SpacesOf(s, p + |TextBytes(t)|);
    AtConcat(s, p, TextBytes(t), trail);
    AtConcat(s, 0, lead, TextBytes(t) + trail);
    AtIsPrefix(s, lead + (TextBytes(t) + trail));
  }

  lemma AtIsPrefix(s: seq<byte>, e: seq<byte>)
    requires At(s, 0, e)
    ensures |e| <= |s| && s[..|e|] == e
  {
  }

  /** The reader accepts a text with a value exactly if the text spells that value. */
  lemma AcceptedExactly(s: seq<byte>, v: Value, q: nat)
    ensures Parse(s) == Ok(v, q) <==>
      Ends(s, q) && exists lead, t, trail :: SpellsValue(s, q, lead, t, trail, v)
  {
    hide Parse, TextMeaning;
    if Parse(s) == Ok(v, q) {
      var lead, t, trail := AcceptedText(s);
      assert SpellsValue(s, q, lead, t, trail, v);
    }
    if Ends(s, q) && exists lead, t, trail :: SpellsValue(s, q, lead, t, trail, v) {
      var lead, t, trail :| SpellsValue(s, q, lead, t, trail, v);
      TextAccepted(s, q, lead, t, trail);
    }
  }

  predicate SpellsValue(s: seq<byte>, q: nat, lead: seq<byte>, t: Text, trail: seq<byte>, v: Value) {
    Good(t) && Spells(s, q, lead, t, trail) && TextMeaning(t) == v
  }
}
