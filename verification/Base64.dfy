/** The base64 codec of bin2ascii.h (section 4 of RFC 4648). */
module Base64 {
  import opened Bytes

  const PAD: byte := 61

  datatype Result = Decoded(bytes: seq<byte>) | BadSize | BadData

  /** The alphabet. */
  function Letter(n: nat): (c: byte)
    requires n < 64
    ensures Lookup(c) == n && c != PAD
  {
    if n < 26 then 65 + n else if n < 52 then 71 + n else if n < 62 then n - 4 else if n == 62 then 43 else 47
  }

  /** The table of b64_decode: 128 for what is not in the alphabet, 0 for the padding. */
  function Lookup(c: byte): nat {
    if 65 <= c <= 90 then c - 65
    else if 97 <= c <= 122 then c - 71
    else if 48 <= c <= 57 then c + 4
    else if c == 43 then 62
    else if c == 47 then 63
    else if c == PAD then 0
    else 128
  }

  /** The 24 bits of up to three bytes. */
  function Group(s: seq<byte>): (n: nat)
    requires |s| > 0
    ensures n < 0x100_0000
  {
    (s[0] as int) * 0x1_0000 + (if |s| > 1 then (s[1] as int) * 0x100 else 0) + (if |s| > 2 then s[2] as int else 0)
  }

  /** The 24 bits in four sixes. */
  function Six(n: nat, k: nat): (d: nat)
    requires n < 0x100_0000 && k < 4
    ensures d < 0x40
  {
    if k == 0 then n / 0x4_0000 else if k == 1 then n / 0x1000 % 0x40 else if k == 2 then n / 0x40 % 0x40 else n % 0x40
  }

  /** One letter more than there are bytes. */
  function Letters(s: seq<byte>): (r: seq<byte>)
    requires |s| > 0
  {
    var n := Group(s);
    [Letter(Six(n, 0)), Letter(Six(n, 1))]
    + (if |s| > 1 then [Letter(Six(n, 2))] else [])
    + (if |s| > 2 then [Letter(Six(n, 3))] else [])
  }

  function Padding(size: nat): seq<byte> {
    seq((3 - size % 3) % 3, _ => PAD)
  }

  function AllLetters(s: seq<byte>): seq<byte> {
    if |s| == 0 then [] else if |s| <= 3 then Letters(s) else Letters(s[..3]) + AllLetters(s[3..])
  }

  function Encode(s: seq<byte>): seq<byte> {
    AllLetters(s) + Padding(|s|)
  }

  predicate Known(q: seq<byte>)
    requires |q| >= 4
  {
    Lookup(q[0]) < 64 && Lookup(q[1]) < 64 && Lookup(q[2]) < 64 && Lookup(q[3]) < 64
  }

  function Joined(q: seq<byte>): (n: nat)
    requires |q| >= 4 && Known(q)
    ensures n < 0x100_0000
  {
    Lookup(q[0]) * 0x4_0000 + Lookup(q[1]) * 0x1000 + Lookup(q[2]) * 0x40 + Lookup(q[3])
  }

  /** The 24 bits in three eights. */
  function Eight(n: nat, k: nat): (b: byte)
    requires n < 0x100_0000 && k < 3
  {
    if k == 0 then n / 0x1_0000 else if k == 1 then n / 0x100 % 0x100 else n % 0x100
  }

  /** The bytes of four letters; a padding letter drops its byte. */
  function Quad(q: seq<byte>): seq<byte>
    requires |q| >= 4 && Known(q)
  {
    var n := Joined(q);
    [Eight(n, 0)] + (if q[2] != PAD then [Eight(n, 1)] else []) + (if q[3] != PAD then [Eight(n, 2)] else [])
  }

  function After(front: seq<byte>, r: Result): Result {
    match r
    case Decoded(rest) => Decoded(front + rest)
    case BadSize => BadSize
    case BadData => BadData
  }

  function DecodeQuads(s: seq<byte>): Result
    requires |s| % 4 == 0
  {
    if |s| == 0 then Decoded([])
    else if !Known(s) then BadData
    else After(Quad(s), DecodeQuads(s[4..]))
  }

  function Decode(s: seq<byte>): Result {
    if |s| % 4 != 0 then BadSize else DecodeQuads(s)
  }

  method B64Encode(s: seq<byte>) returns (r: seq<byte>)
    ensures r == Encode(s)
  {
    r := EncodeGroups(s);
    var i := 0;
    while i < (3 - |s| % 3) % 3
      invariant 0 <= i <= (3 - |s| % 3) % 3 && r == AllLetters(s) + seq(i, _ => PAD)
    {
      r := r + [PAD];
      i := i + 1;
    }
  }

  /** The first loop of b64_encode. */
  method EncodeGroups(s: seq<byte>) returns (r: seq<byte>)
    ensures r == AllLetters(s)
  {
    hide AllLetters, Letters;
    NoLetters();
    r := [];
    var i := 0;
    assert s[0..] == s;
    while i < |s|
      invariant 0 <= i
      invariant AllLetters(s) == r + (if i < |s| then AllLetters(s[i..]) else [])
      decreases |s| - i
    {
      var letters := EncodeGroup(s, i);
      LettersStep(s, i);
      r := r + letters;
      i := i + 3;
    }
  }

  lemma NoLetters()
    ensures AllLetters([]) == []
  {
  }

  /** The body of b64_encode's loop. */
  method EncodeGroup(s: seq<byte>, i: nat) returns (r: seq<byte>)
    requires i < |s|
    ensures r == Letters(if i + 3 < |s| then s[i..][..3] else s[i..])
  {
    var n := (s[i] as int) * 0x1_0000;
    if i + 1 < |s| { n := n + (s[i + 1] as int) * 0x100; }
    if i + 2 < |s| { n := n + s[i + 2] as int; }
    r := [Letter(Six(n, 0)), Letter(Six(n, 1))];
    if i + 1 < |s| { r := r + [Letter(Six(n, 2))]; }
    if i + 2 < |s| { r := r + [Letter(Six(n, 3))]; }
  }

  lemma LettersStep(s: seq<byte>, i: nat)
    requires i < |s|
    ensures i + 3 < |s| ==> AllLetters(s[i..]) == Letters(s[i..][..3]) + AllLetters(s[i + 3..])
    ensures i + 3 >= |s| ==> AllLetters(s[i..]) == Letters(s[i..])
  {
    hide Letters;
    if i + 3 < |s| { assert s[i..][3..] == s[i + 3..]; }
  }

  method B64Decode(s: seq<byte>) returns (r: Result)
    ensures r == Decode(s)
  {
    hide Known, Quad, DecodeQuads;
    AfterNothing(Decode(s));
    if |s| == 0 { return Decoded([]); }
    if |s| % 4 != 0 { return BadSize; }
    var bytes: seq<byte> := [];
    var i := 0;
    assert s[0..] == s;
    while i < |s|
      invariant 0 <= i <= |s| && (|s| - i) % 4 == 0
      invariant DecodeQuads(s) == After(bytes, DecodeQuads(s[i..]))
    {
      QuadStep(s, i, bytes);
      var ok, three := DecodeGroup(s, i);
      if !ok { return BadData; }
      bytes := bytes + three;
      i := i + 4;
    }
    assert bytes + [] == bytes;
    return Decoded(bytes);
  }

  /** The body of b64_decode's loop. */
  method DecodeGroup(s: seq<byte>, i: nat) returns (ok: bool, bytes: seq<byte>)
    requires i + 4 <= |s|
    ensures ok == Known(s[i..]) && (ok ==> bytes == Quad(s[i..]))
  {
    hide Eight;
    var n0, n1, n2, n3 := Lookup(s[i]), Lookup(s[i + 1]), Lookup(s[i + 2]), Lookup(s[i + 3]);
    if n0 >= 128 || n1 >= 128 || n2 >= 128 || n3 >= 128 { return false, []; }
    var n := n0 * 0x4_0000 + n1 * 0x1000 + n2 * 0x40 + n3;
    bytes := [Eight(n, 0)];
    if s[i + 2] != PAD { bytes := bytes + [Eight(n, 1)]; }
    if s[i + 3] != PAD { bytes := bytes + [Eight(n, 2)]; }
    ok := true;
  }

  lemma AfterNothing(r: Result)
    ensures After([], r) == r
    ensures DecodeQuads([]) == Decoded([])
  {
    if r.Decoded? { assert [] + r.bytes == r.bytes; }
  }

  lemma QuadStep(s: seq<byte>, i: nat, front: seq<byte>)
    requires i < |s| && (|s| - i) % 4 == 0
    ensures i + 4 <= |s|
    ensures if Known(s[i..])
            then After(front, DecodeQuads(s[i..])) == After(front + Quad(s[i..]), DecodeQuads(s[i + 4..]))
            else DecodeQuads(s[i..]) == BadData
    ensures i + 4 == |s| ==> DecodeQuads(s[i + 4..]) == Decoded([])
  {
    hide Known, Quad;
    assert s[i..][4..] == s[i + 4..];
    if Known(s[i..]) { AfterJoins(front, Quad(s[i..]), DecodeQuads(s[i + 4..])); }
  }

  lemma AfterJoins(front: seq<byte>, more: seq<byte>, r: Result)
    ensures After(front, After(more, r)) == After(front + more, r)
  {
    if r.Decoded? { assert front + (more + r.bytes) == (front + more) + r.bytes; }
  }

  lemma SixesJoin(n: nat)
    requires n < 0x100_0000
    ensures Six(n, 0) * 0x4_0000 + Six(n, 1) * 0x1000 + Six(n, 2) * 0x40 + Six(n, 3) == n
  {
    DivideTwice(n);
    var b := n / 0x1000;
    assert n == 0x1000 * b + 0x40 * (n / 0x40 % 0x40) + n % 0x40;
    assert b == 0x40 * (b / 0x40) + b % 0x40;
  }

  lemma DivideTwice(n: nat)
    ensures n / 0x1000 == n / 0x40 / 0x40 && n / 0x4_0000 == n / 0x1000 / 0x40
  {
  }

  lemma EightsOfGroup(s: seq<byte>)
    requires |s| > 0
    ensures var n := Group(s);
            Eight(n, 0) == s[0] && (|s| > 1 ==> Eight(n, 1) == s[1]) && (|s| > 2 ==> Eight(n, 2) == s[2])
  {
    EightsOfSum(s[0], if |s| > 1 then s[1] else 0, if |s| > 2 then s[2] else 0);
  }

  lemma EightsOfSum(a: nat, b: nat, c: nat)
    requires a < 0x100 && b < 0x100 && c < 0x100
    ensures var n := a * 0x1_0000 + b * 0x100 + c;
            n / 0x1_0000 == a && n / 0x100 % 0x100 == b && n % 0x100 == c
  {
    var n := a * 0x1_0000 + b * 0x100 + c;
    assert n / 0x100 == a * 0x100 + b;
  }

  lemma LastSixes(s: seq<byte>)
    requires |s| > 0
    ensures |s| == 1 ==> Six(Group(s), 2) == 0
    ensures |s| <= 2 ==> Six(Group(s), 3) == 0
  {
    var n := Group(s);
    if |s| == 1 { assert n / 0x40 == 0x400 * (s[0] as int); }
    if |s| <= 2 { assert n == 0x40 * (0x400 * (s[0] as int) + if |s| > 1 then 4 * (s[1] as int) else 0); }
  }

  /** Four letters, or the letters of a last group and its padding, give the bytes back. */
  lemma GroupRoundTrip(s: seq<byte>, q: seq<byte>)
    requires 1 <= |s| <= 3 && |q| >= 4 && q[..4] == Letters(s) + Padding(|s|)
    ensures Known(q) && Quad(q) == s
  {
    hide Group, Six, Eight, Letter;
    var n := Group(s);
    assert q[0] == q[..4][0] && q[1] == q[..4][1] && q[2] == q[..4][2] && q[3] == q[..4][3];
    LastSixes(s);
    SixesJoin(n);
    assert Joined(q) == n;
    EightsOfGroup(s);
  }

  lemma {:induction false} LettersRoundTrip(s: seq<byte>)
    ensures |Encode(s)| % 4 == 0 && DecodeQuads(Encode(s)) == Decoded(s)
    decreases |s|
  {
    hide Known, Quad, Padding, Letters;
    LettersAndPadding(s);
    if 0 < |s| <= 3 {
      var q := Encode(s);
      assert q[..4] == q && q[4..] == [];
      GroupRoundTrip(s, q);
      assert Quad(q) + [] == s;
    } else if |s| > 3 {
      var head, rest := Letters(s[..3]), Encode(s[3..]);
      LettersAndPadding(s[..3]);
      assert Encode(s) == head + rest;
      assert (head + rest)[..4] == head + Padding(3) && (head + rest)[4..] == rest;
      GroupRoundTrip(s[..3], head + rest);
      LettersRoundTrip(s[3..]);
      assert s[..3] + s[3..] == s;
    }
  }

  lemma LettersAndPadding(s: seq<byte>)
    ensures 0 < |s| <= 3 ==> |Letters(s)| == |s| + 1 && |Letters(s) + Padding(|s|)| == 4
    ensures |s| % 3 == 0 ==> Padding(|s|) == []
    ensures |s| > 3 ==> Padding(|s|) == Padding(|s| - 3)
  {
    hide Letter, Six, Group;
  }

  /** Every byte string comes back. */
  lemma RoundTrip(s: seq<byte>)
    ensures Decode(Encode(s)) == Decoded(s)
  {
    LettersRoundTrip(s);
  }

  // ---- What the letters are and where the bits go ----

  /** The letter for six bits: A to Z, a to z, 0 to 9, plus and slash. */
  predicate Stands(c: byte, n: nat) {
    || (n < 26 && c as int == 'A' as int + n)
    || (26 <= n < 52 && c as int == 'a' as int + (n - 26))
    || (52 <= n < 62 && c as int == '0' as int + (n - 52))
    || (n == 62 && c as int == '+' as int)
    || (n == 63 && c as int == '/' as int)
  }

  /** Four letters carry the 24 bits of three bytes, the first ones uppermost. */
  predicate Carries(q: seq<byte>, b: seq<byte>, d: seq<nat>) {
    && |q| == 4 && 1 <= |b| <= 3 && |d| == 4
    && d[0] * 0x4_0000 + d[1] * 0x1000 + d[2] * 0x40 + d[3]
       == b[0] as int * 0x1_0000 + (if |b| > 1 then b[1] as int * 0x100 else 0) + (if |b| > 2 then b[2] as int else 0)
    && Stands(q[0], d[0]) && Stands(q[1], d[1])
    && (if |b| > 1 then Stands(q[2], d[2]) else q[2] as int == '=' as int && d[2] == 0)
    && (if |b| > 2 then Stands(q[3], d[3]) else q[3] as int == '=' as int && d[3] == 0)
  }

  lemma LetterStands(n: nat)
    requires n < 64
    ensures Stands(Letter(n), n)
  {
  }

  /** A letter stands for what the table says; the padding counts as 0, and everything else is not in the alphabet. */
  lemma LookupExactly(c: byte, n: nat)
    ensures Lookup(c) < 64 <==> (exists d: nat :: Stands(c, d)) || c as int == '=' as int
    ensures Stands(c, n) ==> Lookup(c) == n
    ensures c as int == '=' as int ==> Lookup(c) == 0
  {
    if Lookup(c) < 64 && c as int != '=' as int { assert Stands(c, Lookup(c)); }
  }

  lemma {:induction false} GroupCarried(b: seq<byte>) returns (d: seq<nat>)
    requires 1 <= |b| <= 3
    ensures Carries(Letters(b) + Padding(|b|), b, d)
  {
    var n := Group(b);
    LastSixes(b);
    SixesJoin(n);
    hide Letter, Stands, Six;
    d := [Six(n, 0), Six(n, 1), Six(n, 2), Six(n, 3)];
    LetterStands(d[0]);
    LetterStands(d[1]);
    LetterStands(d[2]);
    LetterStands(d[3]);
    hide Group;
  }

  lemma EncodeSplit(s: seq<byte>)
    ensures 0 < |s| <= 3 ==> Encode(s) == Letters(s) + Padding(|s|)
    ensures |s| > 3 ==> Encode(s) == Letters(s[..3]) + Encode(s[3..])
  {
    hide Letters, Padding;
    LettersAndPadding(s);
  }

  lemma FromLater(front: seq<byte>, back: seq<byte>, i: nat, n: nat)
    requires i + n <= |back|
    ensures (front + back)[|front| + i..|front| + i + n] == back[i..i + n]
  {
  }

  /** Group by group, the encoding carries the bytes in four letters each, the last ones padded. */
  lemma {:induction false} EncodeExactly(s: seq<byte>, k: nat) returns (d: seq<nat>)
    requires 3 * k < |s|
    ensures |Encode(s)| == 4 * ((|s| + 2) / 3) >= 4 * k + 4
    ensures Carries(Encode(s)[4 * k..4 * k + 4], s[3 * k..if 3 * k + 3 <= |s| then 3 * k + 3 else |s|], d)
    decreases |s|
  {
    hide Carries, Letters, Padding, AllLetters;
    LettersAndPadding(s);
    EncodeSplit(s);
    if |s| <= 3 {
      d := GroupCarried(s);
      assert Encode(s)[0..4] == Encode(s);
      assert s[0..|s|] == s;
    } else {
      var head, rest := Letters(s[..3]), Encode(s[3..]);
      LettersAndPadding(s[..3]);
      var r := EncodeExactly(s[3..], if k == 0 then 0 else k - 1);
      if k == 0 {
        d := GroupCarried(s[..3]);
        assert head + Padding(3) == head == (head + rest)[0..4] && s[0..3] == s[..3];
      } else {
        d := r;
        FromLater(head, rest, 4 * (k - 1), 4);
        FromLater(s[..3], s[3..], 3 * (k - 1), (if 3 * k + 3 <= |s| then 3 * k + 3 else |s|) - 3 * k);
        assert s == s[..3] + s[3..];
      }
    }
  }

  /** Four letters stand for 24 bits, of which a padding letter drops the eight in its place. */
  lemma QuadExactly(q: seq<byte>) returns (b: seq<byte>)
    requires |q| >= 4 && Known(q)
    ensures |b| == 3
    ensures b[0] as int * 0x1_0000 + b[1] as int * 0x100 + b[2] as int
         == Lookup(q[0]) * 0x4_0000 + Lookup(q[1]) * 0x1000 + Lookup(q[2]) * 0x40 + Lookup(q[3])
    ensures Quad(q) == [b[0]] + (if q[2] as int != '=' as int then [b[1]] else [])
                       + (if q[3] as int != '=' as int then [b[2]] else [])
  {
    hide Lookup, Eight;
    var n := Joined(q);
    b := [Eight(n, 0), Eight(n, 1), Eight(n, 2)];
    EightsJoin(n);
  }

  lemma EightsJoin(n: nat)
    requires n < 0x100_0000
    ensures Eight(n, 0) * 0x1_0000 + Eight(n, 1) * 0x100 + Eight(n, 2) == n
  {
    var a := n / 0x100;
    Divide256(n);
    Divide256(a);
    DivideTwice256(n);
  }

  lemma Divide256(n: nat)
    ensures n == 0x100 * (n / 0x100) + n % 0x100
  {
  }

  lemma DivideTwice256(n: nat)
    ensures n / 0x1_0000 == n / 0x100 / 0x100
  {
  }

  /** What is decoded at all: whole groups of letters of the alphabet or padding, wherever this stands. */
  lemma {:induction false} DecodedExactly(s: seq<byte>)
    ensures Decode(s).BadSize? <==> |s| % 4 != 0
    ensures Decode(s).Decoded? <==> |s| % 4 == 0 && forall i | 0 <= i < |s| :: Lookup(s[i]) < 64
    decreases |s|
  {
    hide Lookup, Quad;
    if |s| % 4 == 0 && |s| > 0 {
      DecodedExactly(s[4..]);
      assert forall i | 4 <= i < |s| :: s[i] == s[4..][i - 4];
    }
  }
}
