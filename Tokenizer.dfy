/**
 * The status-line tokenizer: a line splits into the maximal runs of
 * characters that are neither a space nor a tab (the pattern `[^ \t]+`).
 * No other character separates tokens, and there is no quoting.
 */
module Tokenizer {

  predicate IsBlank(c: char) {
    c == ' ' || c == '\t'
  }

  predicate IsToken(t: string) {
    t != [] && forall i :: 0 <= i < |t| ==> !IsBlank(t[i])
  }

  /** Length of the run of non-blank characters at the start of `s`. */
  function RunLength(s: string): (n: nat)
    ensures n <= |s|
    ensures forall i :: 0 <= i < n ==> !IsBlank(s[i])
    ensures n < |s| ==> IsBlank(s[n])
  {
    if s == [] || IsBlank(s[0]) then 0 else 1 + RunLength(s[1..])
  }

  /** The tokens of a line, left to right. */
  function Tokens(line: string): (ts: seq<string>)
    ensures forall k :: 0 <= k < |ts| ==> IsToken(ts[k])
    ensures |ts| <= |line|
    decreases |line|
  {
    if line == [] then []
    else if IsBlank(line[0]) then Tokens(line[1..])
    else
      var n := RunLength(line);
      [line[..n]] + Tokens(line[n..])
  }

  /** A run of spaces and tabs, possibly empty. */
  predicate Blanks(s: string) {
    forall i :: 0 <= i < |s| ==> IsBlank(s[i])
  }

  /**
   * Tokens laid out the way `top` aligns its columns: `seps[0]` before the
   * first token, `seps[i]` between tokens `i - 1` and `i`, and the last
   * separator after the last token.
   */
  function JoinWith(ts: seq<string>, seps: seq<string>): string
    requires |seps| == |ts| + 1
  {
    if ts == [] then seps[0] else seps[0] + ts[0] + JoinWith(ts[1..], seps[1..])
  }

  /** Leading blanks do not change the tokens of a line. */
  lemma {:induction false} TokensSkipBlanks(pad: string, s: string)
    requires Blanks(pad)
    ensures Tokens(pad + s) == Tokens(s)
  {
    if pad != [] {
      assert (pad + s)[0] == pad[0];
      assert (pad + s)[1..] == pad[1..] + s;
      TokensSkipBlanks(pad[1..], s);
    } else {
      assert pad + s == s;
    }
  }

  /** A token followed by nothing or by a blank is split off whole. */
  lemma TokenThenRest(t: string, rest: string)
    requires IsToken(t) && (rest == [] || IsBlank(rest[0]))
    ensures Tokens(t + rest) == [t] + Tokens(rest)
  {
    var body := t + rest;
    assert body[..|t|] == t;
    assert forall i :: 0 <= i < |t| ==> body[i] == t[i];
    assert rest != [] ==> body[|t|] == rest[0];
    assert RunLength(body) == |t|;
    assert body[|t|..] == rest;
  }

  /** After a token, the rest of a laid-out line is empty or starts with a blank. */
  lemma JoinWithStartsBlank(ts: seq<string>, seps: seq<string>)
    requires |seps| == |ts| + 1 && Blanks(seps[0])
    requires ts != [] ==> seps[0] != []
    ensures var line := JoinWith(ts, seps); line == [] || IsBlank(line[0])
  {
    if ts != [] {
      assert JoinWith(ts, seps)[0] == seps[0][0];
    }
  }

  /**
   * Tokenizing undoes any layout: whatever non-empty runs of spaces and tabs
   * separate the tokens, and whatever runs lead and trail, the tokens come
   * back in order.
   */
  lemma {:induction false} TokensOfJoinWith(ts: seq<string>, seps: seq<string>)
    requires |seps| == |ts| + 1
    requires forall k :: 0 <= k < |ts| ==> IsToken(ts[k])
    requires forall i :: 0 <= i < |seps| ==> Blanks(seps[i])
    requires forall i :: 0 < i < |ts| ==> seps[i] != []
    ensures Tokens(JoinWith(ts, seps)) == ts
  {
    var line := JoinWith(ts, seps);
    if ts == [] {
      assert line == seps[0] + [];
      TokensSkipBlanks(seps[0], []);
    } else {
      var t := ts[0];
      var rest := JoinWith(ts[1..], seps[1..]);
      assert line == seps[0] + (t + rest);
      TokensSkipBlanks(seps[0], t + rest);
      assert Tokens(t + rest) == [t] + Tokens(rest) by {
        JoinWithStartsBlank(ts[1..], seps[1..]);
        TokenThenRest(t, rest);
      }
      TokensOfJoinWith(ts[1..], seps[1..]);
    }
  }
}
