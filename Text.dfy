/**
 * Character and string helpers shared by the header matcher, the number
 * parser and the CSV emitter: decimal digits, decimal rendering of naturals,
 * the first index of an element, and comma-separated joining and splitting.
 */
module Text {

  predicate IsDigit(c: char) {
    '0' <= c <= '9'
  }

  predicate AllDigits(s: string) {
    forall i :: 0 <= i < |s| ==> IsDigit(s[i])
  }

  function DigitValue(c: char): (d: nat)
    requires IsDigit(c)
    ensures d < 10
  {
    (c as int - '0' as int) as nat
  }

  function DigitChar(d: nat): (c: char)
    requires d < 10
    ensures IsDigit(c) && DigitValue(c) == d
  {
    ('0' as int + d) as char
  }

  function Pow10(k: nat): (r: nat)
    ensures r >= 1
  {
    if k == 0 then 1 else 10 * Pow10(k - 1)
  }

  /** The value of a string of decimal digits, most significant first. */
  function DigitsValue(s: string): (v: nat)
    requires AllDigits(s)
  {
    if s == [] then 0 else DigitsValue(s[..|s| - 1]) * 10 + DigitValue(s[|s| - 1])
  }

  /** Decimal rendering of a natural number without leading zeros, as `operator<<` writes an int. */
  function NatToString(n: nat): (s: string)
    ensures s != [] && AllDigits(s)
    ensures |s| > 1 ==> s[0] != '0'
  {
    if n < 10 then [DigitChar(n)] else NatToString(n / 10) + [DigitChar(n % 10)]
  }

  lemma {:induction false} NatToStringRoundTrip(n: nat)
    ensures DigitsValue(NatToString(n)) == n
  {
    if n >= 10 {
      var s := NatToString(n);
      assert s[..|s| - 1] == NatToString(n / 10);
      NatToStringRoundTrip(n / 10);
    }
  }

  lemma ShiftDigit(va: nat, p: nat, vb: nat, d: nat)
    ensures (va * p + vb) * 10 + d == va * (p * 10) + (vb * 10 + d)
  {
  }

  /** Splitting the digits of a string: the value of `a + b` is `a` shifted left by `|b|` places plus `b`. */
  lemma {:induction false} DigitsValueAppend(a: string, b: string)
    requires AllDigits(a) && AllDigits(b)
    ensures AllDigits(a + b)
    ensures DigitsValue(a + b) == DigitsValue(a) * Pow10(|b|) + DigitsValue(b)
  {
    if b != [] {
      var b' := b[..|b| - 1];
      var d := DigitValue(b[|b| - 1]);
      assert AllDigits(a + b);
      assert DigitsValue(a + b) == DigitsValue(a + b') * 10 + d by {
        assert (a + b)[..|a + b| - 1] == a + b';
        assert (a + b)[|a + b| - 1] == b[|b| - 1];
      }
      DigitsValueAppend(a, b');
      ShiftDigit(DigitsValue(a), Pow10(|b'|), DigitsValue(b'), d);
    } else {
      assert a + b == a;
    }
  }

  /** The index of the first occurrence of `x` in `s`, or `|s|` when there is none (`std::find`). */
  function IndexOf<T(==)>(s: seq<T>, x: T): (r: nat)
    ensures r <= |s|
    ensures r < |s| <==> x in s
    ensures r < |s| ==> s[r] == x
    ensures forall j :: 0 <= j < r ==> s[j] != x
  {
    if s == [] then 0 else if s[0] == x then 0 else 1 + IndexOf(s[1..], x)
  }

  /** Joins cells with commas: one CSV line without its line terminator. */
  function JoinCsv(cells: seq<string>): string
    requires cells != []
  {
    if |cells| == 1 then cells[0] else cells[0] + "," + JoinCsv(cells[1..])
  }

  lemma {:induction false} JoinCsvAppend(cells: seq<string>, cell: string)
    requires cells != []
    ensures JoinCsv(cells + [cell]) == JoinCsv(cells) + "," + cell
  {
    if |cells| > 1 {
      assert (cells + [cell])[1..] == cells[1..] + [cell];
      JoinCsvAppend(cells[1..], cell);
    }
  }

  /** Length of the longest prefix of `s` free of `c`. */
  function SpanWithout(s: string, c: char): (r: nat)
    ensures r <= |s|
    ensures forall j :: 0 <= j < r ==> s[j] != c
    ensures r < |s| ==> s[r] == c
  {
    if s == [] || s[0] == c then 0 else 1 + SpanWithout(s[1..], c)
  }

  /** The comma-separated fields of one CSV line (no quoting), as a reader of the output sees them. */
  function Fields(line: string): (r: seq<string>)
    ensures r != []
    decreases |line|
  {
    var k := SpanWithout(line, ',');
    if k == |line| then [line] else [line[..k]] + Fields(line[k + 1..])
  }

  /** Reading back a joined line gives the cells, as long as no cell holds a comma. */
  lemma {:induction false} FieldsOfJoinCsv(cells: seq<string>)
    requires cells != []
    requires forall i :: 0 <= i < |cells| ==> ',' !in cells[i]
    ensures Fields(JoinCsv(cells)) == cells
  {
    var x := cells[0];
    assert ',' !in x;
    if |cells| == 1 {
    } else {
      var rest := JoinCsv(cells[1..]);
      var line := x + "," + rest;
      var k := SpanWithout(line, ',');
      assert line[|x|] == ',';
      assert k == |x|;
      assert line[..k] == x;
      assert line[k + 1..] == rest;
      FieldsOfJoinCsv(cells[1..]);
    }
  }
}
