/**
 * Recognition of a snapshot header line of a `top` dump: the literal `top - `
 * at the very start of the line, then `HH:MM:SS` where the first hour digit is
 * 0-2 and the first minute and second digits are 0-5. Whatever follows the
 * seconds is ignored (`up ...`, load averages).
 */
module Header {
  import opened Wrappers
  import opened Text

  /** The wall-clock time of a snapshot, as the three integers the header carries. */
  datatype Clock = Clock(hour: nat, minute: nat, second: nat)

  /**
   * The clocks the header grammar can express. The first hour digit may be
   * 0, 1 or 2 and the second any digit, so hours run from 0 to 29.
   */
  predicate Expressible(c: Clock) {
    c.hour < 30 && c.minute < 60 && c.second < 60
  }

  const Lead := "top - "

  function TwoDigits(n: nat): (s: string)
    requires n < 100
    ensures |s| == 2 && AllDigits(s)
  {
    [DigitChar(n / 10), DigitChar(n % 10)]
  }

  /** The 14 characters a header line starts with for the given clock. */
  function HeaderText(c: Clock): (s: string)
    requires Expressible(c)
    ensures |s| == 14
  {
    Lead + TwoDigits(c.hour) + ":" + TwoDigits(c.minute) + ":" + TwoDigits(c.second)
  }

  predicate DigitIn(c: char, hi: char) {
    '0' <= c <= hi
  }

  function TwoDigitValue(a: char, b: char): nat
    requires IsDigit(a) && IsDigit(b)
  {
    DigitValue(a) * 10 + DigitValue(b)
  }

  /**
   * The header pattern anchored at the start of the line; on a match, the
   * three two-digit groups read as integers.
   */
  function MatchHeader(line: string): (r: Option<Clock>)
    ensures r.Some? ==> Expressible(r.value)
  {
    if |line| >= 14 && line[..6] == Lead
       && DigitIn(line[6], '2') && IsDigit(line[7]) && line[8] == ':'
       && DigitIn(line[9], '5') && IsDigit(line[10]) && line[11] == ':'
       && DigitIn(line[12], '5') && IsDigit(line[13])
    then Some(Clock(TwoDigitValue(line[6], line[7]),
                    TwoDigitValue(line[9], line[10]),
                    TwoDigitValue(line[12], line[13])))
    else None
  }

  lemma TwoDigitsRoundTrip(n: nat)
    requires n < 100
    ensures TwoDigitValue(TwoDigits(n)[0], TwoDigits(n)[1]) == n
  {
  }

  lemma TwoDigitsOfValue(a: char, b: char)
    requires IsDigit(a) && IsDigit(b)
    ensures TwoDigits(TwoDigitValue(a, b)) == [a, b]
  {
  }

  /**
   * A line is a header for clock `c` exactly when it starts with the header
   * text of `c`: both directions of the pattern, and the groups read back as
   * the clock's own fields.
   */
  lemma MatchHeaderExactly(line: string, c: Clock)
    ensures MatchHeader(line) == Some(c) <==> Expressible(c) && HeaderText(c) <= line
  {
    if MatchHeader(line) == Some(c) {
      TwoDigitsOfValue(line[6], line[7]);
      TwoDigitsOfValue(line[9], line[10]);
      TwoDigitsOfValue(line[12], line[13]);
      var h := HeaderText(c);
      assert forall i :: 0 <= i < 14 ==> h[i] == line[i];
      assert h == line[..14];
    }
    if Expressible(c) && HeaderText(c) <= line {
      var h := HeaderText(c);
      assert line[..14] == h;
      assert line[..6] == h[..6] == Lead;
      TwoDigitsRoundTrip(c.hour);
      TwoDigitsRoundTrip(c.minute);
      TwoDigitsRoundTrip(c.second);
    }
  }

  /** A header line is recognised whatever follows its first 14 characters. */
  lemma HeaderWithAnyTail(c: Clock, tail: string)
    requires Expressible(c)
    ensures MatchHeader(HeaderText(c) + tail) == Some(c)
  {
    MatchHeaderExactly(HeaderText(c) + tail, c);
  }
}
