/**
 What the writer prints, apart from how: of all texts with a given meaning it is the shortest, without white space and
 without an escape that could be spared, and with capital letters for hexadecimal digits (writer.h). No other text is
 as short.
 */
module JsonShortest {
  import opened Bytes
  import opened JsonGrammar
  import opened JsonText
  import opened Numerals

  predicate UpperHex(hs: seq<Hex>) {
    forall i | 0 <= i < |hs| :: hs[i].value >= 10 ==> hs[i].upper
  }

  predicate UpperChar(t: CharText) {
    match t
    case Unicode(hs, _) => UpperHex(hs)
    case Surrogates(high, low, _) => UpperHex(high) && UpperHex(low)
    case _ => true
  }

  predicate UpperChars(ts: seq<CharText>) {
    forall i | 0 <= i < |ts| :: UpperChar(ts[i])
  }

  /** All hexadecimal digits in capital letters. */
  predicate Upper(t: Text) {
    match t
    case Quoted(cs) => UpperChars(cs)
    case Brackets(_, es) => UpperItems(es)
    case Braces(_, ms) => UpperPairs(ms)
    case _ => true
  }

  predicate UpperItems(es: Items) {
    es.Item? ==> Upper(es.text) && UpperItems(es.rest)
  }

  predicate UpperPairs(ms: Pairs) {
    ms.Pair? ==> UpperMember(ms.member) && UpperPairs(ms.rest)
  }

  predicate UpperMember(m: Named) {
    UpperChars(m.name) && Upper(m.text)
  }

  /** p is shorter than b, or it is b unless b has small letters. */
  predicate Beats(p: seq<byte>, b: seq<byte>, upper: bool) {
    |p| < |b| || (|p| == |b| && (upper ==> p == b))
  }

  lemma BeatsConcat(p: seq<byte>, b: seq<byte>, upper: bool, p': seq<byte>, b': seq<byte>, upper': bool)
    requires Beats(p, b, upper) && Beats(p', b', upper')
    ensures Beats(p + p', b + b', upper && upper')
  {
  }

  /** White space in front only makes a text longer. */
  lemma BeatsSpaces(ws: seq<byte>, p: seq<byte>, b: seq<byte>, upper: bool)
    requires Beats(p, b, upper)
    ensures Beats(p, ws + b, upper)
  {
    if |ws| == 0 { assert ws + b == b; }
  }

  // ---- Characters ----

  lemma HighByteIsPlain(c: byte)
    requires c >= 0x80
    ensures PrintChar(c) == [c]
  {
  }

  lemma {:induction false} HighBytesArePlain(b: seq<byte>)
    requires forall i | 0 <= i < |b| :: b[i] >= 0x80
    ensures PrintChars(b) == b
    decreases |b|
  {
    hide PrintChar;
    if |b| > 0 {
      HighByteIsPlain(b[0]);
      HighBytesArePlain(b[1..]);
      assert b == [b[0]] + b[1..];
    }
  }

  lemma OneChar(c: byte)
    ensures PrintChars([c]) == PrintChar(c)
  {
    assert [c][1..] == [];
    assert PrintChar(c) + [] == PrintChar(c);
  }

  lemma HexDigits(hs: seq<Hex>, c: byte)
    requires FourHex(hs) && Unit(hs) == c
    ensures hs[0].value == 0 && hs[1].value == 0 && hs[2].value == c / 16 && hs[3].value == c % 16
    ensures UpperHex(hs) ==> FourBytes(hs) == [48, 48, HexDigit(c / 16), HexDigit(c % 16)]
  {
    assert c == 16 * hs[2].value + hs[3].value;
    if UpperHex(hs) {
      assert HexByte(hs[2]) == HexDigit(hs[2].value) && HexByte(hs[3]) == HexDigit(hs[3].value);
    }
  }

  lemma EscapeShortest(hs: seq<Hex>, c: byte)
    requires FourHex(hs) && Unit(hs) == c
    ensures Beats(PrintChar(c), [92, 117] + FourBytes(hs), UpperHex(hs))
  {
    hide FourBytes, Unit, HexDigit, UpperHex;
    HexDigits(hs, c);
    if UpperHex(hs) && WriteEscape(c) == 117 {
      assert PrintChar(c) == [92, 117] + [48, 48, HexDigit(c / 16), HexDigit(c % 16)];
    }
  }

  /** No way to write a character is shorter than the printed one. */
  lemma CharShortest(t: CharText)
    requires GoodChar(t)
    ensures Beats(PrintChars(CharMeaning(t)), CharBytes(t), UpperChar(t))
  {
    hide PrintChars, HexDigit, FourBytes, Unit, UpperHex;
    match t {
      case Plain(c) => OneChar(c);
      case Short(letter) => OneChar(SHORT[letter]);
      case Unicode(hs, bytes) =>
        if |bytes| == 1 {
          assert bytes == [bytes[0]];
          OneChar(bytes[0]);
          EscapeShortest(hs, bytes[0]);
        } else {
          HighBytesArePlain(bytes);
        }
      case Surrogates(_, _, bytes) => HighBytesArePlain(bytes);
    }
  }

  lemma {:induction false} PrintCharsConcat(a: seq<byte>, b: seq<byte>)
    ensures PrintChars(a + b) == PrintChars(a) + PrintChars(b)
    decreases |a|
  {
    hide PrintChar;
    if |a| == 0 {
      assert a + b == b;
    } else {
      assert (a + b)[1..] == a[1..] + b;
      PrintCharsConcat(a[1..], b);
    }
  }

  lemma {:induction false} CharsShortest(ts: seq<CharText>)
    requires GoodChars(ts)
    ensures Beats(PrintChars(CharsMeaning(ts)), CharsBytes(ts), UpperChars(ts))
    decreases |ts|
  {
    hide CharMeaning, CharBytes, UpperChar, Beats, PrintChars, GoodChar;
    if |ts| == 0 {
      NothingShortest();
    } else {
      CharShortest(ts[0]);
      CharsShortest(ts[1..]);
      PrintCharsConcat(CharMeaning(ts[0]), CharsMeaning(ts[1..]));
      BeatsConcat(PrintChars(CharMeaning(ts[0])), CharBytes(ts[0]), UpperChar(ts[0]),
                  PrintChars(CharsMeaning(ts[1..])), CharsBytes(ts[1..]), UpperChars(ts[1..]));
      assert UpperChars(ts) == (UpperChar(ts[0]) && UpperChars(ts[1..])) by { UpperInFront(ts); }
    }
  }

  lemma UpperInFront(ts: seq<CharText>)
    requires |ts| > 0
    ensures UpperChars(ts) == (UpperChar(ts[0]) && UpperChars(ts[1..]))
  {
    hide UpperChar;
    if UpperChar(ts[0]) && UpperChars(ts[1..]) {
      forall i | 0 <= i < |ts| ensures UpperChar(ts[i]) {
        if i > 0 { assert ts[i] == ts[1..][i - 1]; }
      }
    }
  }

  lemma NothingShortest()
    ensures Beats(PrintChars([]), [], true)
  {
  }

  lemma StringShortest(cs: seq<CharText>)
    requires GoodChars(cs)
    ensures Beats(PrintString(CharsMeaning(cs)), StringBytes(cs), UpperChars(cs))
  {
    hide PrintChars, CharsBytes, CharsMeaning, UpperChars, GoodChars;
    CharsShortest(cs);
  }

  lemma NumberShortest(minus: bool, ds: seq<nat>)
    requires GoodNumber(minus, ds)
    ensures Beats(PrintNumber(Signed64(minus, Decimals(0, ds))), NumberBytes(minus, ds), true)
  {
    hide Decimals, DigitBytes;
    DecimalIs(ds);
    if !minus { assert [] + DigitBytes(ds) == DigitBytes(ds); }
  }

  // ---- Values ----

  lemma {:induction false} TextShortest(t: Text)
    requires Good(t)
    ensures Beats(Print(TextMeaning(t)), TextBytes(t), Upper(t))
    decreases t, 1
  {
    match t {
      case Word(_) =>
      case Integer(minus, ds) => NumberShortest(minus, ds);
      case Quoted(cs) => StringShortest(cs);
      case Brackets(blank, es) => BracketsShortest(t);
      case Braces(blank, ms) => BracesShortest(t);
    }
  }

  lemma {:induction false} BracketsShortest(t: Text)
    requires t.Brackets? && Good(t)
    ensures Beats(Print(TextMeaning(t)), TextBytes(t), Upper(t))
    decreases t, 0
  {
    hide Beats, RestOfArray, ItemsBytes, GoodItems;
    var vs := ItemsMeaning(t.es);
    PrintedArray(vs);
    RestOfArrayIs(vs);
    Same([91]);
    Same([93]);
    if t.es.NoItem? {
      BeatsSpaces(t.blank, [93], [93], true);
      BeatsConcat([91], [91], true, [93], t.blank + [93], true);
    } else {
      ItemsShortest(t.es);
      BeatsConcat([91], [91], true, RestOfArray(vs, true), ItemsBytes(t.es), UpperItems(t.es));
    }
  }

  lemma Same(b: seq<byte>)
    ensures Beats(b, b, true)
  {
  }

  lemma {:induction false} ItemsShortest(es: Items)
    requires es.Item? && GoodItems(es)
    ensures Beats(RestOfArray(ItemsMeaning(es), true), ItemsBytes(es), UpperItems(es))
    decreases es, 2
  {
    hide Beats, RestOfArray, TextBytes, TextMeaning, Good, Spaces, Upper;
    var vs := ItemsMeaning(es);
    assert vs[0] == TextMeaning(es.text) && vs[1..] == ItemsMeaning(es.rest);
    RestOfArrayIs(vs);
    RestOfArrayIs(vs[1..]);
    Same([93]);
    Same([44]);
    var tail := if es.rest.NoItem? then [93] else [44] + ItemsBytes(es.rest);
    if es.rest.Item? {
      ItemsShortest(es.rest);
      BeatsConcat([44], [44], true, RestOfArray(vs[1..], true), ItemsBytes(es.rest), UpperItems(es.rest));
    }
    TextShortest(es.text);
    BeatsSpaces(es.after, RestOfArray(vs[1..], false), tail, UpperItems(es.rest));
    BeatsConcat(Print(vs[0]), TextBytes(es.text), Upper(es.text),
                RestOfArray(vs[1..], false), es.after + tail, UpperItems(es.rest));
    BeatsSpaces(es.before, RestOfArray(vs, true), TextBytes(es.text) + (es.after + tail), UpperItems(es));
  }

  lemma {:induction false} BracesShortest(t: Text)
    requires t.Braces? && Good(t)
    ensures Beats(Print(TextMeaning(t)), TextBytes(t), Upper(t))
    decreases t, 0
  {
    hide Beats, RestOfObject, PairsBytes, GoodPairs;
    var vs := PairsMeaning(t.ms);
    PrintedObject(vs);
    RestOfObjectIs(vs);
    Same([123]);
    Same([125]);
    if t.ms.NoPair? {
      BeatsSpaces(t.blank, [125], [125], true);
      BeatsConcat([123], [123], true, [125], t.blank + [125], true);
    } else {
      PairsShortest(t.ms);
      BeatsConcat([123], [123], true, RestOfObject(vs, true), PairsBytes(t.ms), UpperPairs(t.ms));
    }
  }

  lemma {:induction false} MemberShortest(m: Named)
    requires GoodMember(m)
    ensures Beats(PrintMember(MemberMeaning(m)), MemberBytes(m), UpperMember(m))
    decreases m, 2
  {
    hide Beats, TextBytes, TextMeaning, StringBytes, CharsMeaning, PrintString, Good, GoodChars, Spaces, Upper, UpperChars;
    var p := Print(TextMeaning(m.text));
    TextShortest(m.text);
    StringShortest(m.name);
    Same([58]);
    BeatsSpaces(m.gap, p, TextBytes(m.text), Upper(m.text));
    BeatsConcat([58], [58], true, p, m.gap + TextBytes(m.text), Upper(m.text));
    BeatsSpaces(m.middle, [58] + p, [58] + (m.gap + TextBytes(m.text)), Upper(m.text));
    BeatsConcat(PrintString(CharsMeaning(m.name)), StringBytes(m.name), UpperChars(m.name),
                [58] + p, m.middle + ([58] + (m.gap + TextBytes(m.text))), Upper(m.text));
  }

  lemma {:induction false} PairsShortest(ms: Pairs)
    requires ms.Pair? && GoodPairs(ms)
    ensures Beats(RestOfObject(PairsMeaning(ms), true), PairsBytes(ms), UpperPairs(ms))
    decreases ms, 2
  {
    hide Beats, RestOfObject, MemberBytes, MemberMeaning, PrintMember, GoodMember, Spaces;
    var vs := PairsMeaning(ms);
    assert vs[0] == MemberMeaning(ms.member) && vs[1..] == PairsMeaning(ms.rest);
    RestOfObjectIs(vs);
    RestOfObjectIs(vs[1..]);
    Same([125]);
    Same([44]);
    var tail := if ms.rest.NoPair? then [125] else [44] + PairsBytes(ms.rest);
    if ms.rest.Pair? {
      PairsShortest(ms.rest);
      BeatsConcat([44], [44], true, RestOfObject(vs[1..], true), PairsBytes(ms.rest), UpperPairs(ms.rest));
    }
    MemberShortest(ms.member);
    BeatsSpaces(ms.after, RestOfObject(vs[1..], false), tail, UpperPairs(ms.rest));
    BeatsConcat(PrintMember(vs[0]), MemberBytes(ms.member), UpperMember(ms.member),
                RestOfObject(vs[1..], false), ms.after + tail, UpperPairs(ms.rest));
    BeatsSpaces(ms.before, RestOfObject(vs, true), MemberBytes(ms.member) + (ms.after + tail), UpperPairs(ms));
  }

  // ---- Whole texts ----

  /** The printed form of an array or object is one of its texts, and the shortest; the only one in capital letters. */
  lemma PrintedShortest(v: Value, s: seq<byte>, q: nat, lead: seq<byte>, t: Text, trail: seq<byte>)
    requires Representable(v) && SpellsValue(s, q, lead, t, trail, v)
    ensures |Print(v)| <= q && (|Print(v)| == q && Upper(t) ==> s[..q] == Print(v))
  {
    hide Representable, TextBytes, TextMeaning, Upper;
    TextShortest(t);
    if |lead| + |trail| == 0 { assert lead + (TextBytes(t) + trail) == TextBytes(t); }
  }

  lemma PrintedIsText(v: Value) returns (t: Text)
    requires Representable(v) && (v.Array? || v.Object?)
    ensures SpellsValue(Print(v), |Print(v)|, [], t, [], v)
  {
    hide Representable, TextBytes, TextMeaning, Parse;
    RoundTrip(v);
    var lead, text, trail := AcceptedText(Print(v));
    t := text;
    assert SpellsValue(Print(v), |Print(v)|, lead, t, trail, v);
    TextShortest(t);
    assert |lead| + |trail| == 0;
  }
}
