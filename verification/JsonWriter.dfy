/**
 The event printer of rapidjson, proved against Print, and what printing and reading together give: the reader
 gets back every value that was printed, and printing what was read keeps its value.
 */
module JsonWriter {
  import opened Bytes
  import opened Common
  import opened JsonText
  import opened Numerals
  import JsonReader

  datatype Level = Level(inArray: bool, valueCount: nat)

  /** What Prefix puts before the next value. */
  function Separator(levels: seq<Level>): seq<byte> {
    if |levels| == 0 then []
    else
      var level := levels[|levels| - 1];
      if level.valueCount == 0 then []
      else if level.inArray || level.valueCount % 2 == 0 then [COMMA]
      else [COLON]
  }

  function Counted(levels: seq<Level>): seq<Level> {
    if |levels| == 0 then levels
    else
      var last := |levels| - 1;
      levels[last := levels[last].(valueCount := levels[last].valueCount + 1)]
  }

  /** What the assertions of Prefix demand: a root is an object or array, a name is a string. */
  predicate Allowed(levels: seq<Level>, v: Value) {
    if |levels| == 0 then v.Object? || v.Array?
    else
      var level := levels[|levels| - 1];
      level.inArray || level.valueCount % 2 == 1 || v.String?
  }

  function Pow10(k: nat): nat {
    if k == 0 then 1 else 10 * Pow10(k - 1)
  }

  lemma ReversedSnoc(digits: seq<byte>, d: byte)
    ensures Reversed(digits + [d]) == [d] + Reversed(digits)
  {
    assert (digits + [d])[..|digits|] == digits;
  }

  /** The digits that are still to be divided off. */
  function DecimalRest(n: nat): seq<byte> {
    if n == 0 then [] else Decimal(n)
  }

  lemma DecimalStep(n: nat)
    ensures Decimal(n) == DecimalRest(n / 10) + [ZERO + n % 10]
  {
    if n < 10 { assert [] + [ZERO + n % 10] == [ZERO + n]; }
  }

  lemma FirstDigit(n: nat, buffered: seq<byte>)
    requires buffered == [ZERO + n % 10]
    ensures Decimal(n) == DecimalRest(n / 10) + Reversed(buffered)
  {
    DecimalStep(n);
    assert Reversed(buffered) == buffered + Reversed(buffered[..0]) == buffered;
  }

  /** One more digit in the buffer is one digit less to come. */
  lemma NextDigit(n: nat, buffered: seq<byte>, whole: seq<byte>)
    requires n > 0 && whole == DecimalRest(n) + Reversed(buffered)
    ensures whole == DecimalRest(n / 10) + Reversed(buffered + [ZERO + n % 10])
  {
    assert DecimalRest(n) == Decimal(n);
    hide DecimalRest, Reversed, Decimal;
    var d: byte := ZERO + n % 10;
    DecimalStep(n);
    ReversedSnoc(buffered, d);
    Associative(DecimalRest(n / 10), [d], Reversed(buffered));
  }

  lemma NoDigitLeft(buffered: seq<byte>)
    ensures DecimalRest(0) + Reversed(buffered) == Reversed(buffered)
  {
  }

  /** The first loop of WriteUint and WriteUint64; the buffer is large enough. */
  method FillDigits(buffer: array<byte>, u: nat) returns (count: nat)
    requires buffer.Length > 0 && u < Pow10(buffer.Length)
    modifies buffer
    ensures count <= buffer.Length && Reversed(buffer[..count]) == Decimal(u)
  {
    hide Decimal, Reversed, DecimalRest;
    buffer[0] := ZERO + u % 10;
    count := 1;
    var rest: nat := u / 10;
    FirstDigit(u, buffer[..1]);
    while rest > 0
      invariant 1 <= count <= buffer.Length && rest < Pow10(buffer.Length - count)
      invariant Decimal(u) == DecimalRest(rest) + Reversed(buffer[..count])
      decreases rest
    {
      NextDigit(rest, buffer[..count], Decimal(u));
      ghost var before := buffer[..count];
      buffer[count] := ZERO + rest % 10;
      assert buffer[..count + 1] == before + [ZERO + rest % 10];
      count, rest := count + 1, rest / 10;
    }
    NoDigitLeft(buffer[..count]);
  }

  class Writer {
    var out: seq<byte>
    var levels: seq<Level>

    constructor ()
      ensures out == [] && levels == []
    {
      out, levels := [], [];
    }

    method Put(c: byte)
      modifies this`out
      ensures out == old(out) + [c]
    {
      out := out + [c];
    }

    method Prefix(ghost v: Value)
      requires Allowed(levels, v)
      modifies this
      ensures out == old(out) + Separator(old(levels)) && levels == Counted(old(levels))
    {
      if |levels| != 0 {
        var level := levels[|levels| - 1];
        if level.valueCount > 0 {
          if level.inArray {
            Put(COMMA);
          } else {
            Put(if level.valueCount % 2 == 0 then COMMA else COLON);
          }
        }
        levels := levels[|levels| - 1 := Level(level.inArray, level.valueCount + 1)];
      }
    }

    /** The second loop of WriteUint and WriteUint64: the digits leave the buffer in reverse. */
    method PutBackwards(buffer: array<byte>, count: nat)
      requires count <= buffer.Length
      modifies this`out
      ensures out == old(out) + Reversed(buffer[..count])
    {
      var n := count;
      while n != 0
        invariant 0 <= n <= count
        invariant out + Reversed(buffer[..n]) == old(out) + Reversed(buffer[..count])
        decreases n
      {
        assert buffer[..n][..n - 1] == buffer[..n - 1];
        assert out + ([buffer[n - 1]] + Reversed(buffer[..n - 1])) == (out + [buffer[n - 1]]) + Reversed(buffer[..n - 1]);
        n := n - 1;
        Put(buffer[n]);
      }
      assert out + [] == out;
    }

    /** WriteUint and WriteUint64: the digits go into a buffer from the last one on. */
    method WriteDigits(u: nat, capacity: nat)
      requires capacity > 0 && u < Pow10(capacity)
      modifies this`out
      ensures out == old(out) + Decimal(u)
    {
      var buffer := new byte[capacity];
      var count := FillDigits(buffer, u);
      PutBackwards(buffer, count);
    }

    method WriteInt(i: int, modulus: nat, capacity: nat)
      requires 2 * i < modulus <= Pow10(capacity) && 0 <= 2 * i + modulus && capacity > 0
      modifies this`out
      ensures out == old(out) + PrintNumber(i)
    {
      var n := i;
      if i < 0 {
        Put(MINUS);
        n := JsonReader.Negated(i, modulus);
        assert (old(out) + [MINUS]) + Decimal(-i) == old(out) + ([MINUS] + Decimal(-i));
      }
      WriteDigits(JsonReader.Unsigned(n, modulus), capacity);
    }

    method WriteChar(c: byte)
      modifies this`out
      ensures out == old(out) + PrintChar(c)
    {
      var e := WriteEscape(c);
      if e != 0 {
        Put(BACKSLASH);
        Put(e);
        if e == LETTER_U {
          Put(ZERO);
          Put(ZERO);
          Put(HexDigit(c / 16));
          Put(HexDigit(c % 16));
        }
      } else {
        Put(c);
      }
    }

    method WriteString(s: seq<byte>)
      modifies this`out
      ensures out == old(out) + PrintString(s)
    {
      hide PrintChar;
      Put(QUOTE);
      var p := 0;
      assert s[0..] == s;
      ghost var whole := out + PrintChars(s);
      while p != |s|
        invariant 0 <= p <= |s| && whole == out + PrintChars(s[p..])
        decreases |s| - p
      {
        ghost var before := out;
        WriteChar(s[p]);
        assert s[p..][1..] == s[p + 1..];
        assert before + (PrintChar(s[p]) + PrintChars(s[p + 1..])) == (before + PrintChar(s[p])) + PrintChars(s[p + 1..]);
        p := p + 1;
      }
      Put(QUOTE);
      assert whole + [QUOTE] == old(out) + PrintString(s);
    }

    method Null()
      requires Allowed(levels, JsonText.Null)
      modifies this
      ensures out == old(out) + Separator(old(levels)) + Print(JsonText.Null) && levels == Counted(old(levels))
    {
      Prefix(JsonText.Null);
      Put(110); Put(117); Put(108); Put(108);
    }

    method Bool(b: bool)
      requires Allowed(levels, JsonText.Bool(b))
      modifies this
      ensures out == old(out) + Separator(old(levels)) + Print(JsonText.Bool(b)) && levels == Counted(old(levels))
    {
      Prefix(JsonText.Bool(b));
      if b {
        Put(116); Put(114); Put(117); Put(101);
      } else {
        Put(102); Put(97); Put(108); Put(115); Put(101);
      }
    }

    /** Int, Uint, Int64 and Uint64. */
    method Number(n: int)
      requires Allowed(levels, JsonText.Number(n)) && InRange(n)
      modifies this
      ensures out == old(out) + Separator(old(levels)) + Print(JsonText.Number(n)) && levels == Counted(old(levels))
    {
      Prefix(JsonText.Number(n));
      WidePowers();
      var flags := JsonReader.FlagsOf(n);
      if flags.isInt { WriteInt(n, 0x1_0000_0000, 10); }
      else if flags.isUint { WriteDigits(n, 10); }
      else if flags.isInt64 { WriteInt(n, 0x1_0000_0000_0000_0000, 20); }
      else { WriteDigits(n, 20); }
    }

    method String(s: seq<byte>)
      requires Allowed(levels, JsonText.String(s))
      modifies this
      ensures out == old(out) + Separator(old(levels)) + PrintString(s) && levels == Counted(old(levels))
    {
      Prefix(JsonText.String(s));
      WriteString(s);
    }

    method Start(inArray: bool, ghost v: Value)
      requires Allowed(levels, v) && (if inArray then v.Array? else v.Object?)
      modifies this
      ensures out == old(out) + Separator(old(levels)) + [if inArray then OPEN_ARRAY else OPEN_OBJECT]
      ensures levels == Counted(old(levels)) + [Level(inArray, 0)]
    {
      Prefix(v);
      levels := levels + [Level(inArray, 0)];
      Put(if inArray then OPEN_ARRAY else OPEN_OBJECT);
    }

    method End(inArray: bool)
      requires |levels| > 0 && levels[|levels| - 1].inArray == inArray
      modifies this
      ensures out == old(out) + [if inArray then CLOSE_ARRAY else CLOSE_OBJECT]
      ensures levels == old(levels)[..|old(levels)| - 1]
    {
      levels := levels[..|levels| - 1];
      Put(if inArray then CLOSE_ARRAY else CLOSE_OBJECT);
    }
  }

  lemma WidePowers()
    ensures Pow10(10) == 10_000_000_000 && Pow10(20) == 100_000_000_000_000_000_000
  {
    assert Pow10(5) == 100_000;
    assert Pow10(10) == 100_000 * Pow10(5);
    assert Pow10(15) == 100_000 * Pow10(10);
    assert Pow10(20) == 100_000 * Pow10(15);
  }

  lemma RepresentableParts(v: Value)
    requires Representable(v)
    ensures v.Number? ==> InRange(v.n)
    ensures v.Array? ==> forall e | e in v.elements :: Representable(e)
    ensures v.Object? ==> forall m | m in v.members :: Representable(m.value)
  {
  }

  /** GenericValue::Accept with the writer as its handler. */
  method Accept(v: Value, w: Writer)
    requires Representable(v) && Allowed(w.levels, v)
    modifies w
    ensures w.out == old(w.out) + Separator(old(w.levels)) + Print(v) && w.levels == Counted(old(w.levels))
    decreases v, 0
  {
    hide Representable, Allowed, Separator, Counted, PrintElements, PrintMembers;
    RepresentableParts(v);
    match v {
      case Null => w.Null();
      case Bool(b) => w.Bool(b);
      case Number(n) => w.Number(n);
      case String(s) => w.String(s);
      case Array(elements) => AcceptArray(elements, w);
      case Object(members) => AcceptObject(members, w);
    }
  }

  method AcceptArray(elements: seq<Value>, w: Writer)
    requires forall e | e in elements :: Representable(e)
    requires Allowed(w.levels, Array(elements))
    modifies w
    ensures w.out == old(w.out) + Separator(old(w.levels)) + Print(Array(elements))
    ensures w.levels == Counted(old(w.levels))
    decreases elements, 2
  {
    hide Representable, Allowed, Separator, Counted, PrintElements;
    w.Start(true, Array(elements));
    AcceptElements(elements, w);
    w.End(true);
    Bracketed(old(w.out) + Separator(old(w.levels)), [OPEN_ARRAY], PrintElements(elements, true), [CLOSE_ARRAY]);
  }

  method AcceptObject(members: seq<Member>, w: Writer)
    requires forall m | m in members :: Representable(m.value)
    requires Allowed(w.levels, Object(members))
    modifies w
    ensures w.out == old(w.out) + Separator(old(w.levels)) + Print(Object(members))
    ensures w.levels == Counted(old(w.levels))
    decreases members, 2
  {
    hide Representable, Allowed, Separator, Counted, PrintMembers;
    w.Start(false, Object(members));
    AcceptMembers(members, w);
    w.End(false);
    Bracketed(old(w.out) + Separator(old(w.levels)), [OPEN_OBJECT], PrintMembers(members, true), [CLOSE_OBJECT]);
  }

  method AcceptElements(elements: seq<Value>, w: Writer)
    requires forall e | e in elements :: Representable(e)
    requires |w.levels| > 0 && w.levels[|w.levels| - 1] == Level(true, 0)
    modifies w
    ensures w.out == old(w.out) + PrintElements(elements, true)
    ensures w.levels == old(w.levels)[|old(w.levels)| - 1 := Level(true, |elements|)]
    decreases elements, 1
  {
    var i := 0;
    ghost var whole := w.out + PrintElements(elements, true);
    assert elements[0..] == elements;
    while i < |elements|
      invariant 0 <= i <= |elements|
      invariant w.levels == old(w.levels)[|old(w.levels)| - 1 := Level(true, i)]
      invariant whole == w.out + PrintElements(elements[i..], i == 0)
    {
      ghost var before := w.out;
      assert elements[i..][1..] == elements[i + 1..];
      Accept(elements[i], w);
      Regroup(before, Comma(i == 0), Print(elements[i]), PrintElements(elements[i + 1..], false));
      i := i + 1;
    }
    assert w.out + [] == w.out;
  }

  method AcceptMembers(members: seq<Member>, w: Writer)
    requires forall m | m in members :: Representable(m.value)
    requires |w.levels| > 0 && w.levels[|w.levels| - 1] == Level(false, 0)
    modifies w
    ensures w.out == old(w.out) + PrintMembers(members, true)
    ensures w.levels == old(w.levels)[|old(w.levels)| - 1 := Level(false, 2 * |members|)]
    decreases members, 1
  {
    hide PrintMember, Representable;
    var i := 0;
    ghost var whole := w.out + PrintMembers(members, true);
    assert members[0..] == members;
    while i < |members|
      invariant 0 <= i <= |members|
      invariant w.levels == old(w.levels)[|old(w.levels)| - 1 := Level(false, 2 * i)]
      invariant whole == w.out + PrintMembers(members[i..], i == 0)
    {
      ghost var before := w.out;
      assert members[i..][1..] == members[i + 1..];
      AcceptMember(members[i], i, w);
      Regroup(before, Comma(i == 0), PrintMember(members[i]), PrintMembers(members[i + 1..], false));
      i := i + 1;
    }
    assert w.out + [] == w.out;
  }

  /** Member number i of an object: its name, and its value with a colon in front. */
  method AcceptMember(m: Member, ghost i: nat, w: Writer)
    requires Representable(m.value)
    requires |w.levels| > 0 && w.levels[|w.levels| - 1] == Level(false, 2 * i)
    modifies w
    ensures w.out == old(w.out) + Comma(i == 0) + PrintMember(m)
    ensures w.levels == old(w.levels)[|old(w.levels)| - 1 := Level(false, 2 * (i + 1))]
    decreases m, 1
  {
    hide Print, PrintString, Representable;
    ghost var last := |w.levels| - 1;
    w.String(m.name);
    assert w.levels == old(w.levels)[last := Level(false, 2 * i + 1)];
    Accept(m.value, w);
    Regroup(old(w.out) + Comma(i == 0), PrintString(m.name), [COLON], Print(m.value));
  }

  lemma Regroup(a: seq<byte>, b: seq<byte>, c: seq<byte>, d: seq<byte>)
    ensures a + (b + (c + d)) == (a + b + c) + d
  {
  }

  lemma Bracketed(a: seq<byte>, b: seq<byte>, c: seq<byte>, d: seq<byte>)
    ensures a + b + c + d == a + (b + c + d)
  {
  }

  /** What the parser builds, the printer can print. */
  lemma {:induction false} ParsedIsRepresentable(s: seq<byte>, p: nat)
    requires p <= |s|
    ensures ParseValue(s, p).Ok? ==> Representable(ParseValue(s, p).value)
    decreases |s| - p, 0
  {
    if Peek(s, p) == OPEN_OBJECT {
      MembersAreRepresentable(s, Skip(s, p + 1));
    } else if Peek(s, p) == OPEN_ARRAY {
      ElementsAreRepresentable(s, Skip(s, p + 1));
    }
  }

  lemma {:induction false} ElementsAreRepresentable(s: seq<byte>, p: nat)
    requires p <= |s|
    ensures ParseElements(s, p).Ok? ==> forall e | e in ParseElements(s, p).value :: Representable(e)
    decreases |s| - p, 1
  {
    hide ParseValue, Representable;
    ParsedIsRepresentable(s, p);
    var one := ParseValue(s, p);
    if one.Ok? {
      var q := Skip(s, one.pos);
      if Peek(s, q) == COMMA { ElementsAreRepresentable(s, Skip(s, q + 1)); }
    }
  }

  lemma {:induction false} MembersAreRepresentable(s: seq<byte>, p: nat)
    requires p <= |s|
    ensures ParseMembers(s, p).Ok? ==> forall m | m in ParseMembers(s, p).value :: Representable(m.value)
    decreases |s| - p, 1
  {
    hide ParseValue, Representable, ParseString;
    var name := ParseString(s, p);
    if name.Ok? {
      var colon := Skip(s, name.pos);
      if Peek(s, colon) == COLON { ParsedIsRepresentable(s, Skip(s, colon + 1)); }
    }
    var one := ParseMember(s, p);
    if one.Ok? {
      var q := Skip(s, one.pos);
      if Peek(s, q) == COMMA { MembersAreRepresentable(s, Skip(s, q + 1)); }
    }
  }

  /** Printing any text that was accepted, and reading that again, gives the same value. */
  lemma Reprinted(text: seq<byte>)
    ensures Parse(text).Ok? ==>
      Parse(Print(Parse(text).value)) == Ok(Parse(text).value, |Print(Parse(text).value)|)
  {
    hide ParseValue;
    if Parse(text).Ok? {
      var p := Skip(text, 0);
      ParsedIsRepresentable(text, p);
      RootIsCompound(text, p);
      RoundTrip(Parse(text).value);
    }
  }

  lemma RootIsCompound(s: seq<byte>, p: nat)
    requires p <= |s| && (Peek(s, p) == OPEN_OBJECT || Peek(s, p) == OPEN_ARRAY)
    ensures ParseValue(s, p).Ok? ==> ParseValue(s, p).value.Object? || ParseValue(s, p).value.Array?
  {
  }

  /** Print a value with the writer, read the text with the reader: the document is the value again. */
  method WriteAndRead(v: Value) returns (text: seq<byte>, st: JsonReader.Status, root: Value)
    requires Representable(v) && (v.Object? || v.Array?)
    ensures text == Print(v) && st == JsonReader.Good && root == v
  {
    hide Print, Parse;
    var w := new Writer();
    Accept(v, w);
    text := w.out;
    st, root := JsonReader.ParseStream(text);
  }
}
