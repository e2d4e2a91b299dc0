/**
 The recursive reader of rapidjson and the document that builds a value from its events on a stack. Each method
 is proved against the parsing function of JsonText.
 */
module JsonReader {
  import opened Bytes
  import opened JsonText

  // ---- The integer types of a value ----

  datatype Flags = Flags(isInt: bool, isUint: bool, isInt64: bool, isUint64: bool)

  predicate FitsInt32(n: int) { -0x8000_0000 <= n < 0x8000_0000 }
  predicate FitsUint32(n: int) { 0 <= n < 0x1_0000_0000 }
  predicate FitsInt64(n: int) { -0x8000_0000_0000_0000 <= n < 0x8000_0000_0000_0000 }
  predicate FitsUint64(n: int) { 0 <= n < 0x1_0000_0000_0000_0000 }

  /** The flags that the four constructors of GenericValue set, with their masks as arithmetic. */
  function IntFlags(i: int): Flags
    requires FitsInt32(i)
  {
    Flags(true, i >= 0, true, i >= 0)
  }

  function UintFlags(u: int): Flags
    requires FitsUint32(u)
  {
    var low := u / 0x8000_0000 % 2 == 0;
    Flags(low, true, true, true)
  }

  function Int64Flags(i: int): Flags
    requires FitsInt64(i)
  {
    if i >= 0 then Flags(i / 0x8000_0000 == 0, i / 0x1_0000_0000 == 0, true, true)
    else Flags(i >= -2147483648, false, true, false)
  }

  function Uint64Flags(u: int): Flags
    requires FitsUint64(u)
  {
    Flags(u / 0x8000_0000 == 0, u / 0x1_0000_0000 == 0, u / 0x8000_0000_0000_0000 % 2 == 0, true)
  }

  /** Which of the four integer types hold a number. */
  function FlagsOf(n: int): Flags {
    Flags(FitsInt32(n), FitsUint32(n), FitsInt64(n), FitsUint64(n))
  }

  /** Whichever constructor made the value, its flags say exactly which of the integer types hold its number. */
  lemma FlagsAreExact(n: int)
    ensures FitsInt32(n) ==> IntFlags(n) == FlagsOf(n)
    ensures FitsUint32(n) ==> UintFlags(n) == FlagsOf(n)
    ensures FitsInt64(n) ==> Int64Flags(n) == FlagsOf(n)
    ensures FitsUint64(n) ==> Uint64Flags(n) == FlagsOf(n)
  {
    if 0 <= n {
      assert n / 0x8000_0000 == 0 <==> n < 0x8000_0000;
      assert n / 0x1_0000_0000 == 0 <==> n < 0x1_0000_0000;
    }
  }

  // ---- The document ----

  function Pairs(values: seq<Value>): (members: seq<Member>)
    requires |values| % 2 == 0 && forall i | 0 <= i < |values| && i % 2 == 0 :: values[i].String?
  {
    if |values| == 0 then [] else [Member(values[0].s, values[1])] + Pairs(values[2..])
  }

  function Flat(members: seq<Member>): (values: seq<Value>)
    ensures |values| == 2 * |members|
    ensures forall i | 0 <= i < |values| && i % 2 == 0 :: values[i].String?
  {
    if |members| == 0 then [] else [String(members[0].name), members[0].value] + Flat(members[1..])
  }

  lemma {:induction false} PairsOfFlat(members: seq<Member>)
    ensures Pairs(Flat(members)) == members
  {
    if |members| > 0 {
      PairsOfFlat(members[1..]);
      assert Flat(members)[2..] == Flat(members[1..]);
    }
  }

  lemma {:induction false} FlatSnoc(members: seq<Member>, m: Member)
    ensures Flat(members + [m]) == Flat(members) + [String(m.name), m.value]
  {
    if |members| > 0 {
      assert (members + [m])[1..] == members[1..] + [m];
      FlatSnoc(members[1..], m);
    }
  }

  lemma FlatNothing()
    ensures Flat([]) == []
  {
  }

  /** The events of the reader; every value is pushed, and the end of a compound takes its parts off the stack. */
  class Document {
    var stack: seq<Value>

    constructor ()
      ensures stack == []
    {
      stack := [];
    }

    method Scalar(v: Value)
      modifies this
      ensures stack == old(stack) + [v]
    {
      stack := stack + [v];
    }

    method Int(i: int)
      requires FitsInt32(i)
      modifies this
      ensures stack == old(stack) + [Number(i)]
    {
      stack := stack + [Number(i)];
    }

    method Uint(u: int)
      requires FitsUint32(u)
      modifies this
      ensures stack == old(stack) + [Number(u)]
    {
      stack := stack + [Number(u)];
    }

    method Int64(i: int)
      requires FitsInt64(i)
      modifies this
      ensures stack == old(stack) + [Number(i)]
    {
      stack := stack + [Number(i)];
    }

    method Uint64(u: int)
      requires FitsUint64(u)
      modifies this
      ensures stack == old(stack) + [Number(u)]
    {
      stack := stack + [Number(u)];
    }

    method StartObject()
      modifies this
      ensures stack == old(stack) + [Object([])]
    {
      stack := stack + [Object([])];
    }

    /** The last `count` pairs become the members of the object below them. */
    method EndObject(count: nat)
      requires 2 * count < |stack|
      requires forall i | 0 <= i < 2 * count && i % 2 == 0 :: stack[|stack| - 2 * count..][i].String?
      modifies this
      ensures var base := old(|stack|) - 2 * count;
              stack == old(stack)[..base - 1] + [Object(Pairs(old(stack)[base..]))]
    {
      var base := |stack| - 2 * count;
      stack := stack[..base - 1] + [Object(Pairs(stack[base..]))];
    }

    method StartArray()
      modifies this
      ensures stack == old(stack) + [Array([])]
    {
      stack := stack + [Array([])];
    }

    /** The last `count` values become the elements of the array below them. */
    method EndArray(count: nat)
      requires count < |stack|
      modifies this
      ensures var base := old(|stack|) - count;
              stack == old(stack)[..base - 1] + [Array(old(stack)[base..])]
    {
      var base := |stack| - count;
      stack := stack[..base - 1] + [Array(stack[base..])];
    }
  }

  // ---- The reader ----

  /** Where the source leaves by longjmp the model returns; at a double it stops. */
  datatype Status = Good | ParseError | DoubleFound

  function StatusOf<T>(r: Result<T>): Status {
    match r
    case Ok(_, _) => Good
    case Error => ParseError
    case Double => DoubleFound
  }

  /** The unsigned number with the bits of a signed one. */
  function Unsigned(i: int, modulus: nat): nat
    requires 0 <= 2 * i + modulus
  {
    if i < 0 then i + modulus else i
  }

  /** Negation of a signed number; the least one stays as it is. */
  function Negated(i: int, modulus: nat): int {
    if 2 * i + modulus == 0 then i else -i
  }

  class Reader {
    const src: seq<byte>
    const doc: Document
    var pos: nat

    constructor (text: seq<byte>, document: Document)
      ensures src == text && doc == document && pos == 0
    {
      src, doc, pos := text, document, 0;
    }

    method Take() returns (c: byte)
      modifies this`pos
      ensures c == Peek(src, old(pos)) && pos == old(pos) + 1
    {
      c := Peek(src, pos);
      pos := pos + 1;
    }

    method SkipWhitespace()
      requires pos <= |src|
      modifies this`pos
      ensures pos == Skip(src, old(pos))
    {
      while IsSpace(Peek(src, pos))
        invariant pos <= |src| && Skip(src, pos) == Skip(src, old(pos))
        decreases |src| - pos
      {
        pos := pos + 1;
      }
    }

    /** ParseNull, ParseTrue and ParseFalse: the first letter is known, the others are taken one by one. */
    method ParseLiteral(word: seq<byte>, v: Value) returns (st: Status)
      requires |word| > 0 && 0 !in word && Peek(src, pos) == word[0]
      modifies this`pos, doc
      ensures st == StatusOf(ParseWord(src, old(pos), word, v))
      ensures st.Good? ==> Ok(v, pos) == ParseWord(src, old(pos), word, v) && doc.stack == old(doc.stack) + [v]
    {
      var i := 1;
      ghost var start := pos;
      var c := Take();
      while i < |word|
        invariant 1 <= i <= |word| && pos == start + i <= |src| && doc.stack == old(doc.stack)
        invariant forall k | 0 <= k < i :: src[start + k] == word[k]
      {
        c := Take();
        if c != word[i] { WordMissed(src, start, word, i); return ParseError; }
        i := i + 1;
      }
      assert src[start..start + |word|] == word;
      doc.Scalar(v);
      return Good;
    }

    method ParseHex4() returns (st: Status, codepoint: nat)
      requires pos <= |src|
      modifies this`pos
      ensures st == StatusOf(JsonText.ParseHex4(src, old(pos)))
      ensures st.Good? ==> Ok(codepoint, pos) == JsonText.ParseHex4(src, old(pos))
    {
      var i := 0;
      ghost var p := pos;
      codepoint := 0;
      while i < 4
        invariant 0 <= i <= 4 && pos == p + i <= |src|
        invariant i >= 1 ==> IsHex(src[p])
        invariant i >= 2 ==> IsHex(src[p + 1])
        invariant i >= 3 ==> IsHex(src[p + 2])
        invariant i >= 4 ==> IsHex(src[p + 3])
        invariant codepoint ==
          if i == 0 then 0
          else if i == 1 then HexValue(src[p])
          else if i == 2 then HexValue(src[p]) * 16 + HexValue(src[p + 1])
          else if i == 3 then (HexValue(src[p]) * 16 + HexValue(src[p + 1])) * 16 + HexValue(src[p + 2])
          else ((HexValue(src[p]) * 16 + HexValue(src[p + 1])) * 16 + HexValue(src[p + 2])) * 16 + HexValue(src[p + 3])
      {
        var c := Take();
        if !IsHex(c) { return ParseError, 0; }
        codepoint := codepoint * 16 + HexValue(c);
        i := i + 1;
      }
      return Good, codepoint;
    }

    /** A \u escape, after the u. */
    method ParseUnicode() returns (st: Status, bytes: seq<byte>)
      requires pos <= |src|
      modifies this`pos
      ensures st == StatusOf(JsonText.ParseUnicode(src, old(pos)))
      ensures st.Good? ==> Ok(bytes, pos) == JsonText.ParseUnicode(src, old(pos))
    {
      hide JsonText.ParseHex4;
      var codepoint;
      st, codepoint := ParseHex4();
      if st != Good { return ParseError, []; }
      if 0xD800 <= codepoint <= 0xDBFF {
        var c := Take();
        if c != BACKSLASH { return ParseError, []; }
        c := Take();
        if c != LETTER_U { return ParseError, []; }
        var low;
        st, low := ParseHex4();
        if st != Good || low < 0xDC00 || low > 0xDFFF { return ParseError, []; }
        codepoint := (codepoint - 0xD800) * 0x400 + (low - 0xDC00) + 0x1_0000;
      }
      return Good, Utf8(codepoint);
    }

    /** ParseString without the event: what is between the quotes, unescaped. */
    method ParseChars() returns (st: Status, chars: seq<byte>)
      requires pos <= |src|
      modifies this`pos
      ensures st == StatusOf(JsonText.ParseChars(src, old(pos)))
      ensures st.Good? ==> Ok(chars, pos) == JsonText.ParseChars(src, old(pos))
    {
      hide JsonText.ParseUnicode;
      chars := [];
      ghost var all := JsonText.ParseChars(src, pos);
      PrependNothing(all);
      while true
        invariant pos <= |src|
        invariant all == Prepend(chars, JsonText.ParseChars(src, pos))
        decreases |src| - pos
      {
        if Peek(src, pos) != QUOTE { CharsStep(src, pos, chars); }
        var c := Take();
        if c == BACKSLASH {
          var e := Take();
          if ReadEscape(e) != 0 {
            chars := chars + [ReadEscape(e)];
          } else if e == LETTER_U {
            var bytes;
            st, bytes := ParseUnicode();
            if st != Good { return ParseError, chars; }
            chars := chars + bytes;
          } else {
            return ParseError, chars;
          }
        } else if c == QUOTE {
          assert chars + [] == chars;
          return Good, chars;
        } else if c < 32 {
          return ParseError, chars;
        } else {
          chars := chars + [c];
        }
      }
    }

    /** ParseString: the string between the quotes becomes a value. */
    method ParseString() returns (st: Status)
      requires pos <= |src| && Peek(src, pos) == QUOTE
      modifies this`pos, doc
      ensures st == StatusOf(JsonText.ParseString(src, old(pos)))
      ensures st.Good? ==>
        pos == JsonText.ParseString(src, old(pos)).pos
        && doc.stack == old(doc.stack) + [String(JsonText.ParseString(src, old(pos)).value)]
    {
      hide JsonText.ParseChars;
      var c := Take();
      var chars;
      st, chars := ParseChars();
      if st.Good? { doc.Scalar(String(chars)); }
    }

    /** The digits while they fit in 32 bits: `i` is an unsigned int, and nothing overflows. */
    method Digits32(minus: bool) returns (i: nat, try64bit: bool)
      requires pos <= |src| && IsDigit(Peek(src, pos)) && Peek(src, pos) != ZERO
      modifies this`pos
      ensures pos <= |src| && i < 0x1_0000_0000 && (minus ==> i <= 0x8000_0000)
      ensures ReadDigits(src, old(pos), 0) == ReadDigits(src, pos, i)
      ensures !try64bit ==> !IsDigit(Peek(src, pos))
      ensures try64bit ==>
        (IsDigit(Peek(src, pos)) && 10 * i + src[pos] - ZERO as int > (if minus then 0x8000_0000 else 0xFFFF_FFFF))
    {
      var c := Take();
      i, try64bit := c - ZERO, false;
      while IsDigit(Peek(src, pos))
        invariant pos <= |src| && (if minus then i <= 0x8000_0000 else i <= 0xFFFF_FFFF)
        invariant ReadDigits(src, old(pos), 0) == ReadDigits(src, pos, i)
        decreases |src| - pos
      {
        if minus && i >= 214748364 && (i != 214748364 || Peek(src, pos) > 56) { return i, true; }
        if !minus && i >= 429496729 && (i != 429496729 || Peek(src, pos) > 53) { return i, true; }
        c := Take();
        i := i * 10 + (c - ZERO);
      }
    }

    /** The digits while they fit in 64 bits. */
    method Digits64(minus: bool, i: nat) returns (i64: nat, useDouble: bool)
      requires pos <= |src| && i < 0x1_0000_0000
      modifies this`pos
      ensures pos <= |src| && i64 < 0x1_0000_0000_0000_0000 && (minus ==> i64 <= 0x8000_0000_0000_0000)
      ensures ReadDigits(src, old(pos), i) == ReadDigits(src, pos, i64)
      ensures !useDouble ==> !IsDigit(Peek(src, pos))
      ensures useDouble ==>
        (IsDigit(Peek(src, pos))
         && 10 * i64 + src[pos] - ZERO as int > (if minus then 0x8000_0000_0000_0000 else 0xFFFF_FFFF_FFFF_FFFF))
    {
      i64, useDouble := i, false;
      while IsDigit(Peek(src, pos))
        invariant pos <= |src| && (if minus then i64 <= 0x8000_0000_0000_0000 else i64 <= 0xFFFF_FFFF_FFFF_FFFF)
        invariant ReadDigits(src, old(pos), i) == ReadDigits(src, pos, i64)
        decreases |src| - pos
      {
        if minus && i64 >= 922337203685477580 && (i64 != 922337203685477580 || Peek(src, pos) > 56) { return i64, true; }
        if !minus && i64 >= 1844674407370955161 && (i64 != 1844674407370955161 || Peek(src, pos) > 53) { return i64, true; }
        var c := Take();
        i64 := i64 * 10 + (c - ZERO);
      }
    }

    /** Hand the number to the document with the type that its size and sign call for. */
    method Emit(minus: bool, try64bit: bool, i: nat, i64: nat)
      requires i < 0x1_0000_0000 && i64 < 0x1_0000_0000_0000_0000
      requires minus ==> i <= 0x8000_0000 && i64 <= 0x8000_0000_0000_0000
      modifies doc
      ensures var n := if try64bit then i64 else i;
              doc.stack == old(doc.stack) + [Number(if minus then 0 - n as int else n)]
    {
      if try64bit {
        if minus { doc.Int64(Negated(Signed(i64, 0x1_0000_0000_0000_0000), 0x1_0000_0000_0000_0000)); } else { doc.Uint64(i64); }
      } else {
        if minus { doc.Int(Negated(Signed(i, 0x1_0000_0000), 0x1_0000_0000)); } else { doc.Uint(i); }
      }
    }

    method ParseNumber() returns (st: Status)
      requires pos <= |src|
      modifies this`pos, doc
      ensures st == StatusOf(JsonText.ParseNumber(src, old(pos)))
      ensures st.Good? ==>
        pos == JsonText.ParseNumber(src, old(pos)).pos
        && doc.stack == old(doc.stack) + [JsonText.ParseNumber(src, old(pos)).value]
    {
      var minus := Peek(src, pos) == MINUS;
      if minus { pos := pos + 1; }
      var i, i64, try64bit, useDouble := 0, 0, false, false;
      if Peek(src, pos) == ZERO {
        pos := pos + 1;
      } else if IsDigit(Peek(src, pos)) {
        i, try64bit := Digits32(minus);
      } else {
        return ParseError;
      }
      if try64bit { i64, useDouble := Digits64(minus, i); }
      if useDouble || StartsDouble(Peek(src, pos)) { return DoubleFound; }
      Emit(minus, try64bit, i, i64);
      return Good;
    }

    method ParseValue() returns (st: Status)
      requires pos <= |src|
      modifies this`pos, doc
      ensures st == StatusOf(JsonText.ParseValue(src, old(pos)))
      ensures st.Good? ==>
        pos == JsonText.ParseValue(src, old(pos)).pos
        && doc.stack == old(doc.stack) + [JsonText.ParseValue(src, old(pos)).value]
      decreases |src| - pos, 1
    {
      hide ParseWord, JsonText.ParseNumber, JsonText.ParseString;
      var c := Peek(src, pos);
      if c == TEXT_NULL[0] { st := ParseLiteral(TEXT_NULL, Null); }
      else if c == TEXT_TRUE[0] { st := ParseLiteral(TEXT_TRUE, Bool(true)); }
      else if c == TEXT_FALSE[0] { st := ParseLiteral(TEXT_FALSE, Bool(false)); }
      else if c == QUOTE { st := ParseString(); }
      else if c == OPEN_OBJECT { st := ParseObject(); }
      else if c == OPEN_ARRAY { st := ParseArray(); }
      else { st := ParseNumber(); }
    }

    method ParseArray() returns (st: Status)
      requires pos < |src| && src[pos] == OPEN_ARRAY
      modifies this`pos, doc
      ensures st == StatusOf(JsonText.ParseValue(src, old(pos)))
      ensures st.Good? ==>
        pos == JsonText.ParseValue(src, old(pos)).pos
        && doc.stack == old(doc.stack) + [JsonText.ParseValue(src, old(pos)).value]
      decreases |src| - pos, 0
    {
      hide JsonText.ParseValue, ParseElements;
      CompoundAt(src, pos);
      var c := Take();
      doc.StartArray();
      ghost var base := doc.stack;
      SkipWhitespace();
      if Peek(src, pos) == CLOSE_ARRAY {
        c := Take();
        doc.EndArray(0);
        assert base[|base|..] == [] && base[..|base| - 1] == old(doc.stack);
        return Good;
      }
      var elementCount;
      st, elementCount := Elements();
      if st != Good { return st; }
      EndArray(elementCount, base, ParseElements(src, Skip(src, old(pos) + 1)).value);
    }

    /** The loop over the elements, up to the closing bracket. */
    method Elements() returns (st: Status, elementCount: nat)
      requires pos <= |src|
      modifies this`pos, doc
      ensures st == StatusOf(ParseElements(src, old(pos)))
      ensures st.Good? ==>
        var all := ParseElements(src, old(pos));
        pos == all.pos && elementCount == |all.value| && doc.stack == old(doc.stack) + all.value
      decreases |src| - pos, 2
    {
      hide JsonText.ParseValue, ParseElements;
      elementCount := 0;
      ghost var base := doc.stack;
      ghost var elements := [];
      ghost var all := ParseElements(src, pos);
      PrependNothing(all);
      while true
        invariant old(pos) <= pos <= |src| && elementCount == |elements|
        invariant doc.stack == base + elements
        invariant all == Prepend(elements, ParseElements(src, pos))
        decreases |src| - pos
      {
        ghost var v := JsonText.ParseValue(src, pos);
        ElementsFurther(src, pos, elements);
        st := ParseValue();
        if st != Good { return st, elementCount; }
        elements, elementCount := elements + [v.value], elementCount + 1;
        SkipWhitespace();
        var c := Take();
        if c == COMMA {
          SkipWhitespace();
        } else if c == CLOSE_ARRAY {
          return Good, elementCount;
        } else {
          return ParseError, elementCount;
        }
      }
    }

    /** The end of an array: its elements are all there is above its placeholder. */
    method EndArray(count: nat, ghost base: seq<Value>, ghost elements: seq<Value>)
      requires |base| > 0 && count == |elements| && doc.stack == base + elements
      modifies doc
      ensures doc.stack == base[..|base| - 1] + [Array(elements)]
    {
      assert doc.stack[|doc.stack| - count..] == elements;
      assert doc.stack[..|doc.stack| - count - 1] == base[..|base| - 1];
      doc.EndArray(count);
    }

    /** One member: its name and its value, one after the other on the stack. */
    method ParseMember() returns (st: Status)
      requires pos <= |src|
      modifies this`pos, doc
      ensures st == StatusOf(JsonText.ParseMember(src, old(pos)))
      ensures st.Good? ==>
        var m := JsonText.ParseMember(src, old(pos));
        pos == m.pos && doc.stack == old(doc.stack) + [String(m.value.name), m.value.value]
      decreases |src| - pos, 2
    {
      hide JsonText.ParseValue, JsonText.ParseString;
      if Peek(src, pos) != QUOTE { NoName(src, pos); return ParseError; }
      st := ParseString();
      if st != Good { return st; }
      SkipWhitespace();
      var c := Take();
      if c != COLON { return ParseError; }
      SkipWhitespace();
      st := ParseValue();
    }

    method ParseObject() returns (st: Status)
      requires pos < |src| && src[pos] == OPEN_OBJECT
      modifies this`pos, doc
      ensures st == StatusOf(JsonText.ParseValue(src, old(pos)))
      ensures st.Good? ==>
        pos == JsonText.ParseValue(src, old(pos)).pos
        && doc.stack == old(doc.stack) + [JsonText.ParseValue(src, old(pos)).value]
      decreases |src| - pos, 0
    {
      hide JsonText.ParseMember, ParseMembers, JsonText.ParseValue, Flat, Pairs;
      CompoundAt(src, pos);
      var c := Take();
      doc.StartObject();
      ghost var base := doc.stack;
      SkipWhitespace();
      FlatNothing();
      assert base == base + Flat([]);
      if Peek(src, pos) == CLOSE_OBJECT {
        c := Take();
        EndObject(0, base, []);
        return Good;
      }
      var memberCount;
      st, memberCount := Members();
      if st != Good { return st; }
      EndObject(memberCount, base, ParseMembers(src, Skip(src, old(pos) + 1)).value);
    }

    /** The loop over the members, up to the closing brace. */
    method Members() returns (st: Status, memberCount: nat)
      requires pos <= |src|
      modifies this`pos, doc
      ensures st == StatusOf(ParseMembers(src, old(pos)))
      ensures st.Good? ==>
        var all := ParseMembers(src, old(pos));
        pos == all.pos && memberCount == |all.value| && doc.stack == old(doc.stack) + Flat(all.value)
      decreases |src| - pos, 3
    {
      hide JsonText.ParseMember, ParseMembers, Flat, Pairs;
      memberCount := 0;
      ghost var base := doc.stack;
      ghost var members := [];
      ghost var all := ParseMembers(src, pos);
      PrependNothing(all);
      FlatNothing();
      assert base == base + Flat([]);
      while true
        invariant old(pos) <= pos <= |src| && memberCount == |members|
        invariant doc.stack == base + Flat(members)
        invariant all == Prepend(members, ParseMembers(src, pos))
        decreases |src| - pos
      {
        ghost var m := JsonText.ParseMember(src, pos);
        MembersFurther(src, pos, members);
        st := ParseMember();
        if st != Good { return st, memberCount; }
        FlatSnoc(members, m.value);
        members, memberCount := members + [m.value], memberCount + 1;
        SkipWhitespace();
        var c := Take();
        if c == COMMA {
          SkipWhitespace();
        } else if c == CLOSE_OBJECT {
          return Good, memberCount;
        } else {
          return ParseError, memberCount;
        }
      }
    }

    method EndObject(count: nat, ghost base: seq<Value>, ghost members: seq<Member>)
      requires |base| > 0 && count == |members| && doc.stack == base + Flat(members)
      modifies doc
      ensures doc.stack == base[..|base| - 1] + [Object(members)]
    {
      PairsOfFlat(members);
      assert doc.stack[|doc.stack| - 2 * count..] == Flat(members);
      assert doc.stack[..|doc.stack| - 2 * count - 1] == base[..|base| - 1];
      doc.EndObject(count);
    }

    /** Reader::Parse */
    method Parse() returns (st: Status)
      requires pos == 0
      modifies this`pos, doc
      ensures st == StatusOf(JsonText.Parse(src))
      ensures st.Good? ==> doc.stack == old(doc.stack) + [JsonText.Parse(src).value]
    {
      hide JsonText.ParseValue;
      SkipWhitespace();
      if Peek(src, pos) == 0 { return ParseError; }
      if Peek(src, pos) == OPEN_OBJECT { st := ParseObject(); }
      else if Peek(src, pos) == OPEN_ARRAY { st := ParseArray(); }
      else { return ParseError; }
      if st != Good { return st; }
      ParsedInside(src, Skip(src, 0));
      SkipWhitespace();
      if Peek(src, pos) != 0 { return ParseError; }
    }
  }

  /** One element further: what the array function makes of it, after the elements in front. */
  lemma ElementsFurther(s: seq<byte>, p: nat, front: seq<Value>)
    requires p <= |s|
    ensures var one := JsonText.ParseValue(s, p);
            if one.Ok? then
              var q := Skip(s, one.pos);
              if Peek(s, q) == COMMA then
                Prepend(front, ParseElements(s, p)) == Prepend(front + [one.value], ParseElements(s, Skip(s, q + 1)))
              else if Peek(s, q) == CLOSE_ARRAY then ParseElements(s, p) == Ok([one.value], q + 1)
              else ParseElements(s, p) == Error
            else StatusOf(ParseElements(s, p)) == StatusOf(one)
  {
    hide JsonText.ParseValue;
    var one := JsonText.ParseValue(s, p);
    if one.Ok? {
      var q := Skip(s, one.pos);
      if Peek(s, q) == COMMA { PrependTwice(front, [one.value], ParseElements(s, Skip(s, q + 1))); }
    }
  }

  lemma MembersFurther(s: seq<byte>, p: nat, front: seq<Member>)
    requires p <= |s|
    ensures var one := JsonText.ParseMember(s, p);
            if one.Ok? then
              var q := Skip(s, one.pos);
              if Peek(s, q) == COMMA then
                Prepend(front, ParseMembers(s, p)) == Prepend(front + [one.value], ParseMembers(s, Skip(s, q + 1)))
              else if Peek(s, q) == CLOSE_OBJECT then ParseMembers(s, p) == Ok([one.value], q + 1)
              else ParseMembers(s, p) == Error
            else StatusOf(ParseMembers(s, p)) == StatusOf(one)
  {
    hide JsonText.ParseMember;
    var one := JsonText.ParseMember(s, p);
    if one.Ok? {
      var q := Skip(s, one.pos);
      if Peek(s, q) == COMMA { PrependTwice(front, [one.value], ParseMembers(s, Skip(s, q + 1))); }
    }
  }

  /** What follows the opening bracket or brace. */
  lemma CompoundAt(s: seq<byte>, p: nat)
    requires p < |s|
    ensures s[p] == OPEN_ARRAY ==>
      var q := Skip(s, p + 1);
      if Peek(s, q) == CLOSE_ARRAY then JsonText.ParseValue(s, p) == Ok(Array([]), q + 1)
      else match ParseElements(s, q)
           case Ok(es, end) => JsonText.ParseValue(s, p) == Ok(Array(es), end)
           case other => StatusOf(JsonText.ParseValue(s, p)) == StatusOf(other)
    ensures s[p] == OPEN_OBJECT ==>
      var q := Skip(s, p + 1);
      if Peek(s, q) == CLOSE_OBJECT then JsonText.ParseValue(s, p) == Ok(Object([]), q + 1)
      else match ParseMembers(s, q)
           case Ok(ms, end) => JsonText.ParseValue(s, p) == Ok(Object(ms), end)
           case other => StatusOf(JsonText.ParseValue(s, p)) == StatusOf(other)
  {
    hide ParseElements, ParseMembers;
  }

  lemma NoName(s: seq<byte>, p: nat)
    requires p <= |s| && Peek(s, p) != QUOTE
    ensures JsonText.ParseMember(s, p) == Error
  {
  }

  lemma ParsedInside(s: seq<byte>, p: nat)
    requires p <= |s|
    ensures JsonText.ParseValue(s, p).Ok? ==> JsonText.ParseValue(s, p).pos <= |s|
  {
  }

  /** Document::ParseStream: reading the text of an object or array builds that value, and nothing else. */
  method ParseStream(text: seq<byte>) returns (st: Status, root: Value)
    ensures st == StatusOf(JsonText.Parse(text))
    ensures st.Good? ==> root == JsonText.Parse(text).value
    ensures forall v: Value | Representable(v) && (v.Array? || v.Object?) && text == Print(v) :: st == Good && root == v
  {
    hide JsonText.Parse;
    var doc := new Document();
    var reader := new Reader(text, doc);
    st := reader.Parse();
    root := if st.Good? then doc.stack[0] else Null;
    forall v: Value | Representable(v) && (v.Array? || v.Object?) && text == Print(v) ensures st == Good && root == v {
      RoundTrip(v);
    }
  }

  lemma WordMissed(s: seq<byte>, p: nat, word: seq<byte>, i: nat)
    requires i < |word| && 0 !in word && Peek(s, p + i) != word[i]
    ensures !StartsWith(s, p, word)
  {
    if p + |word| <= |s| { assert s[p..p + |word|][i] == s[p + i]; }
  }

  lemma PrependNothing<T>(r: Result<seq<T>>)
    ensures Prepend([], r) == r
  {
    if r.Ok? { assert [] + r.value == r.value; }
  }

  lemma PrependTwice<T>(a: seq<T>, b: seq<T>, r: Result<seq<T>>)
    ensures Prepend(a, Prepend(b, r)) == Prepend(a + b, r)
  {
    if r.Ok? { assert a + (b + r.value) == (a + b) + r.value; }
  }

  /** One character further. */
  lemma CharsStep(s: seq<byte>, p: nat, front: seq<byte>)
    requires p <= |s| && Peek(s, p) != QUOTE
    ensures ParseChar(s, p).Ok? ==>
      Prepend(front, JsonText.ParseChars(s, p))
      == Prepend(front + ParseChar(s, p).value, JsonText.ParseChars(s, ParseChar(s, p).pos))
    ensures !ParseChar(s, p).Ok? ==> JsonText.ParseChars(s, p) == ParseChar(s, p)
  {
    hide ParseChar;
    var step := ParseChar(s, p);
    if step.Ok? {
      PrependTwice(front, step.value, JsonText.ParseChars(s, step.pos));
    }
  }
}
