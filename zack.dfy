/** The Zack source adapter, after the page has been fetched and the two
    pattern matches have run: pairing the extracted names with the extracted
    value numerals, and reading a numeral such as "12,345" as a number. */
module ZackSource {
  import opened Records

  predicate IsDigit(c: char) { '0' <= c <= '9' }

  predicate IsDigits(s: string) { forall i :: 0 <= i < |s| ==> IsDigit(s[i]) }

  /** What the value pattern `[0-9,]+` captures (the pattern also makes it
      non-empty, which the reading below does not need). */
  predicate IsNumeralText(s: string) {
    forall i :: 0 <= i < |s| ==> IsDigit(s[i]) || s[i] == ','
  }

  /** `s.replace(/,/g, "")`. */
  function StripCommas(s: string): (r: string)
    ensures IsNumeralText(s) ==> IsDigits(r)
    ensures ',' !in r
  {
    if s == [] then []
    else (if s[0] == ',' then [] else [s[0]]) + StripCommas(s[1..])
  }

  function DigitValue(c: char): nat
    requires IsDigit(c)
  {
    c as int - '0' as int
  }

  /** `Number` of a string of decimal digits; `Number("")` is 0. */
  function DecimalValue(d: string): nat
    requires IsDigits(d)
  {
    if d == [] then 0 else DecimalValue(d[..|d| - 1]) * 10 + DigitValue(d[|d| - 1])
  }

  /** `Number(s.replace(/,/g, ""))` for a captured numeral. */
  function Numeral(s: string): nat
    requires IsNumeralText(s)
  {
    DecimalValue(StripCommas(s))
  }

  // ---------------------------------------------------------------------
  // How a page writes a value: decimal digits, grouped by thousands

  function DigitChar(d: nat): (c: char)
    requires d < 10
    ensures IsDigit(c) && DigitValue(c) == d
  {
    ('0' as int + d) as char
  }

  /** The decimal numeral of `n`, without leading zeros. */
  function ShowDecimal(n: nat): (s: string)
    ensures IsDigits(s) && IsNumeralText(s)
  {
    if n < 10 then [DigitChar(n)] else ShowDecimal(n / 10) + [DigitChar(n % 10)]
  }

  /** Three digits, with leading zeros. */
  function Pad3(m: nat): (s: string)
    requires m < 1000
    ensures IsDigits(s) && IsNumeralText(s) && |s| == 3
  {
    [DigitChar(m / 100), DigitChar(m / 10 % 10), DigitChar(m % 10)]
  }

  /** The numeral of `n` with a comma between groups of three digits, as in
      "12,345". */
  function Grouped(n: nat): (s: string)
    ensures IsNumeralText(s)
  {
    if n < 1000 then ShowDecimal(n) else Grouped(n / 1000) + "," + Pad3(n % 1000)
  }

  // ---------------------------------------------------------------------
  // Facts about the reading

  lemma {:induction false} StripCommasConcat(a: string, b: string)
    ensures StripCommas(a + b) == StripCommas(a) + StripCommas(b)
  {
    if a == [] {
      assert a + b == b;
    } else {
      assert (a + b)[0] == a[0];
      assert (a + b)[1..] == a[1..] + b;
      StripCommasConcat(a[1..], b);
    }
  }

  lemma {:induction false} StripCommasDigits(d: string)
    requires IsDigits(d)
    ensures StripCommas(d) == d
  {
    if d != [] {
      StripCommasDigits(d[1..]);
    }
  }

  lemma DecimalValueSnoc(d: string, c: char)
    requires IsDigits(d) && IsDigit(c)
    ensures DecimalValue(d + [c]) == DecimalValue(d) * 10 + DigitValue(c)
  {
    assert (d + [c])[..|d|] == d;
  }

  lemma {:induction false} DecimalValueShow(n: nat)
    ensures DecimalValue(ShowDecimal(n)) == n
  {
    if n < 10 {
      assert ShowDecimal(n) == [] + [DigitChar(n)];
      DecimalValueSnoc([], DigitChar(n));
    } else {
      DecimalValueShow(n / 10);
      DecimalValueSnoc(ShowDecimal(n / 10), DigitChar(n % 10));
    }
  }

  lemma DecimalValuePad3(x: string, m: nat)
    requires IsDigits(x) && m < 1000
    ensures DecimalValue(x + Pad3(m)) == DecimalValue(x) * 1000 + m
  {
    var p := Pad3(m);
    assert x + p == x + [p[0]] + [p[1]] + [p[2]];
    DecimalValueSnoc(x, p[0]);
    DecimalValueSnoc(x + [p[0]], p[1]);
    DecimalValueSnoc(x + [p[0]] + [p[1]], p[2]);
    assert m == (m / 100) * 100 + (m / 10 % 10) * 10 + m % 10;
  }

  /** A value the page writes with thousands separators reads back as itself. */
  lemma {:induction false} NumeralGrouped(n: nat)
    ensures Numeral(Grouped(n)) == n
  {
    if n < 1000 {
      StripCommasDigits(ShowDecimal(n));
      DecimalValueShow(n);
    } else {
      var g := Grouped(n / 1000);
      NumeralGrouped(n / 1000);
      StripCommasConcat(g + ",", Pad3(n % 1000));
      StripCommasConcat(g, ",");
      assert StripCommas(",") == [];
      StripCommasDigits(Pad3(n % 1000));
      assert StripCommas(Grouped(n)) == StripCommas(g) + Pad3(n % 1000);
      DecimalValuePad3(StripCommas(g), n % 1000);
    }
  }

  /** Commas anywhere in a numeral do not change its value. */
  lemma NumeralIgnoresCommas(a: string, b: string)
    requires IsNumeralText(a) && IsNumeralText(b)
    ensures IsNumeralText(a + "," + b)
    ensures Numeral(a + "," + b) == Numeral(a + b)
  {
    StripCommasConcat(a + ",", b);
    StripCommasConcat(a, ",");
    assert StripCommas(",") == [];
    StripCommasConcat(a, b);
    assert StripCommas(a + ",") == StripCommas(a);
    assert StripCommas(a + "," + b) == StripCommas(a + b);
  }

  /** A numeral of commas only is the empty string once stripped: 0. */
  lemma {:induction false} NumeralAllCommas(s: string)
    requires forall i :: 0 <= i < |s| ==> s[i] == ','
    ensures Numeral(s) == 0
  {
    if s != [] {
      assert StripCommas(s) == StripCommas(s[1..]);
      NumeralAllCommas(s[1..]);
    }
  }

  // ---------------------------------------------------------------------
  // The pairing loop

  /** The record the adapter builds from one name and one captured numeral. */
  function ZackRecord(name: string, value: string): SourceRecord
    requires IsNumeralText(value)
  {
    SourceRecord(name, Num(Numeral(value)), None, "zack")
  }

  /** Pairs `names[i]` with `values[i]` up to the shorter list, as records of
      source "zack" without a rarity. */
  method PairRecords(names: seq<string>, values: seq<string>) returns (pets: seq<SourceRecord>)
    requires forall i :: 0 <= i < |values| ==> IsNumeralText(values[i])
    ensures |pets| == if |names| < |values| then |names| else |values|
    ensures forall i :: 0 <= i < |pets| ==> pets[i] == ZackRecord(names[i], values[i])
  {
    var n := if |names| < |values| then |names| else |values|;
    pets := [];
    for i := 0 to n
      invariant |pets| == i
      invariant forall k :: 0 <= k < i ==> pets[k] == ZackRecord(names[k], values[k])
    {
      pets := pets + [ZackRecord(names[i], values[i])];
    }
  }
}
