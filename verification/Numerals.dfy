/** Numbers in decimal: their digits, what these stand for, and the form without leading zeros. */
module Numerals {
  import opened Bytes

  predicate IsDigits(ds: seq<nat>) {
    forall i | 0 <= i < |ds| :: ds[i] < 10
  }

  function DigitBytes(ds: seq<nat>): (b: seq<byte>)
    requires IsDigits(ds)
    ensures |b| == |ds|
  {
    if |ds| == 0 then [] else [48 + ds[0]] + DigitBytes(ds[1..])
  }

  /** The number that starts with acc and goes on with the digits. */
  function Decimals(acc: nat, ds: seq<nat>): nat {
    if |ds| == 0 then acc else 10 * Decimals(acc, ds[..|ds| - 1]) + ds[|ds| - 1]
  }

  lemma {:induction false} DecimalsFirst(acc: nat, ds: seq<nat>)
    requires |ds| > 0
    ensures Decimals(acc, ds) == Decimals(10 * acc + ds[0], ds[1..])
    decreases |ds|
  {
    if |ds| > 1 {
      assert ds[1..][..|ds| - 2] == ds[..|ds| - 1][1..];
      DecimalsFirst(acc, ds[..|ds| - 1]);
    }
  }

  lemma DigitInFront(acc: nat, d: nat, rest: seq<nat>)
    requires d < 10 && IsDigits(rest)
    ensures IsDigits([d] + rest) && DigitBytes([d] + rest) == [48 + d] + DigitBytes(rest)
    ensures Decimals(acc, [d] + rest) == Decimals(10 * acc + d, rest)
  {
    assert ([d] + rest)[1..] == rest;
    DecimalsFirst(acc, [d] + rest);
  }

  lemma DigitBytesHead(ds: seq<nat>)
    requires IsDigits(ds) && |ds| > 0
    ensures DigitBytes(ds)[0] == 48 + ds[0]
  {
  }

  lemma DecimalsOfOne(ds: seq<nat>)
    requires |ds| == 1
    ensures Decimals(0, ds) == ds[0]
  {
    assert ds[..0] == [];
  }

  /** The decimal form of a number. */
  function Decimal(n: nat): seq<byte> {
    if n < 10 then [48 + n] else Decimal(n / 10) + [48 + n % 10]
  }

  predicate NoLeadingZero(ds: seq<nat>) {
    |ds| > 0 && IsDigits(ds) && (ds[0] == 0 ==> |ds| == 1)
  }

  lemma {:induction false} DigitBytesLast(ds: seq<nat>, d: nat)
    requires IsDigits(ds) && d < 10
    ensures IsDigits(ds + [d]) && DigitBytes(ds + [d]) == DigitBytes(ds) + [48 + d]
    decreases |ds|
  {
    if |ds| == 0 {
      assert ds + [d] == [d] && [d][1..] == [];
      assert DigitBytes([d]) == [48 + d];
    } else {
      assert (ds + [d])[1..] == ds[1..] + [d];
      DigitBytesLast(ds[1..], d);
    }
  }

  /** The decimal form is the only way to write a number without leading zeros. */
  lemma {:induction false} DecimalIs(ds: seq<nat>)
    requires NoLeadingZero(ds)
    ensures DigitBytes(ds) == Decimal(Decimals(0, ds)) && (Decimals(0, ds) == 0 ==> ds == [0])
    decreases |ds|
  {
    var front, d := ds[..|ds| - 1], ds[|ds| - 1];
    assert ds == front + [d];
    DigitBytesLast(front, d);
    if |front| == 0 {
      DecimalsOfOne(ds);
    } else {
      DecimalIs(front);
    }
  }

  /** Every number is written by some digits. */
  lemma {:induction false} DigitsOfDecimal(n: nat) returns (ds: seq<nat>)
    ensures NoLeadingZero(ds) && Decimals(0, ds) == n && DigitBytes(ds) == Decimal(n)
    ensures n > 0 ==> ds[0] > 0
    decreases n
  {
    if n < 10 {
      ds := [n];
      DecimalsOfOne(ds);
    } else {
      var front := DigitsOfDecimal(n / 10);
      ds := front + [n % 10];
      assert ds[..|ds| - 1] == front;
    }
    DecimalIs(ds);
  }
}
