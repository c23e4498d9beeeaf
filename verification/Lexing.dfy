/** What the lexical core does to texts put together in the plain way: every line ending, every
    run of blanks, both cases of the digits, comments, and exactly which header is current. */
module Lexing {
  import opened Options
  import opened Wire

  // ---------------------------------------------------------------------------
  // Tokens
  // ---------------------------------------------------------------------------

  predicate Blanks(s: string) { forall i :: 0 <= i < |s| ==> s[i] == ' ' || s[i] == '\t' }

  predicate Word(s: string) { s != "" && forall i :: 0 <= i < |s| ==> s[i] != ' ' && s[i] != '\t' }

  /** Each word after its gap. */
  function Weave(gaps: seq<string>, words: seq<string>): string
    requires |gaps| == |words|
  {
    if words == [] then "" else gaps[0] + (words[0] + Weave(gaps[1..], words[1..]))
  }

  predicate Woven(gaps: seq<string>, words: seq<string>) {
    && |gaps| == |words| && (forall i :: 0 <= i < |words| ==> Word(words[i]) && Blanks(gaps[i]))
    && forall i :: 0 < i < |gaps| ==> gaps[i] != ""
  }

  lemma {:induction false} BlanksSkipped(gap: string, rest: string)
    requires Blanks(gap)
    ensures SkipSeps(gap + rest) == SkipSeps(rest) && Tokens(gap + rest) == Tokens(rest)
  {
    if gap == "" {
      assert gap + rest == rest;
    } else {
      assert (gap + rest)[1..] == gap[1..] + rest;
      BlanksSkipped(gap[1..], rest);
    }
  }

  lemma {:induction false} WordLen(word: string, rest: string)
    requires (forall i :: 0 <= i < |word| ==> word[i] != ' ' && word[i] != '\t') && (rest != "" ==> rest[0] == ' ' || rest[0] == '\t')
    ensures TokenLen(word + rest) == |word|
  {
    if word == "" {
      assert word + rest == rest;
    } else {
      assert (word + rest)[1..] == word[1..] + rest;
      WordLen(word[1..], rest);
    }
  }

  lemma WordFirst(word: string, rest: string)
    requires Word(word) && (rest != "" ==> rest[0] == ' ' || rest[0] == '\t')
    ensures Tokens(word + rest) == [word] + Tokens(rest)
  {
    var s := word + rest;
    WordLen(word, rest);
    assert s[0] == word[0] && SkipSeps(s) == s;
    assert s[..|word|] == word && s[|word|..] == rest;
  }

  lemma WeaveStarts(gaps: seq<string>, words: seq<string>, tail: string)
    requires |gaps| == |words| && Blanks(tail) && (words != [] ==> gaps[0] != "" && Blanks(gaps[0]))
    ensures var s := Weave(gaps, words) + tail; s != "" ==> s[0] == ' ' || s[0] == '\t'
  {
    if words != [] {
      var s := Weave(gaps, words);
      assert s[0] == gaps[0][0];
    }
  }

  /** The tokens of a line are its words, whatever blanks and tabs stand before, between and
      after them. */
  lemma {:induction false} TokensOfWeave(gaps: seq<string>, words: seq<string>, tail: string)
    requires Woven(gaps, words) && Blanks(tail)
    ensures Tokens(Weave(gaps, words) + tail) == words
    decreases |words|
  {
    if words == [] {
      BlanksSkipped(tail, "");
      assert Weave(gaps, words) + tail == tail + "";
      assert Tokens("") == [];
    } else {
      var rest := Weave(gaps[1..], words[1..]);
      TokensOfWeave(gaps[1..], words[1..], tail);
      WeaveStarts(gaps[1..], words[1..], tail);
      WordFirst(words[0], rest + tail);
      BlanksSkipped(gaps[0], words[0] + (rest + tail));
      Regroup(gaps[0], words[0], rest, tail);
    }
  }

  lemma Regroup(a: string, b: string, c: string, d: string)
    ensures a + (b + c) + d == a + (b + (c + d))
  {
  }

  // ---------------------------------------------------------------------------
  // Lines
  // ---------------------------------------------------------------------------

  predicate OneLine(s: string) { forall i :: 0 <= i < |s| ==> s[i] != '\n' }

  predicate EndsCr(s: string) { s != "" && s[|s| - 1] == '\r' }

  /** Each line with its ending. */
  function Ended(lines: seq<string>, ends: seq<string>): string
    requires |lines| == |ends|
  {
    if lines == [] then "" else lines[0] + (ends[0] + Ended(lines[1..], ends[1..]))
  }

  lemma {:induction false} NewlineAt(s: string, rest: string)
    requires OneLine(s)
    ensures LineLen(s + ("\n" + rest)) == |s| && LineLen(s) == |s|
  {
    if s != "" {
      assert (s + ("\n" + rest))[1..] == s[1..] + ("\n" + rest);
      NewlineAt(s[1..], rest);
    }
  }

  lemma Slices(s: string, rest: string, b: string)
    requires b == s + ("\n" + rest)
    ensures |b| > |s| && b[0..] == b && b[0..|s|] == s && b[|s| + 1..] == rest
  {
  }

  lemma FirstLine(s: string, rest: string)
    requires OneLine(s)
    ensures Lines(s + ("\n" + rest)) == [StripCr(s)] + Lines(rest)
  {
    var b := s + ("\n" + rest);
    NewlineAt(s, rest);
    Slices(s, rest, b);
    LinesUnfold(b, 0, |s|, |s| + 1);
  }

  /** How a line may end: a line ending in CR has its newline after a further one. */
  predicate IsEnding(line: string, end: string) { end == "\r\n" || (end == "\n" && !EndsCr(line)) }

  lemma CrRegroup(line: string, rest: string)
    ensures line + ("\r\n" + rest) == line + "\r" + ("\n" + rest)
    ensures StripCr(line + "\r") == line
  {
  }

  lemma EndingStripped(line: string, end: string, rest: string)
    requires OneLine(line) && IsEnding(line, end)
    ensures Lines(line + (end + rest)) == [line] + Lines(rest)
  {
    if end == "\r\n" {
      CrRegroup(line, rest);
      FirstLine(line + "\r", rest);
    } else {
      FirstLine(line, rest);
    }
  }

  lemma LastLine(s: string)
    requires OneLine(s) && !EndsCr(s)
    ensures Lines(s) == if s == "" then [] else [s]
  {
    if s != "" {
      NewlineAt(s, "");
      assert s[..|s|] == s && AfterLine(s) == "";
      assert Lines("") == [];
    }
  }

  lemma Put(lines: seq<string>, more: seq<string>)
    requires lines != []
    ensures [lines[0]] + (lines[1..] + more) == lines + more
  {
  }

  /** The lines of a text are those it was put together from, ended by newlines or by CR and
      newline, the last one possibly not at all. */
  lemma {:induction false} LinesOfEnded(lines: seq<string>, ends: seq<string>, last: string)
    requires |lines| == |ends| && forall i :: 0 <= i < |lines| ==> OneLine(lines[i])
    requires forall i :: 0 <= i < |ends| ==> IsEnding(lines[i], ends[i])
    requires OneLine(last) && !EndsCr(last)
    ensures Lines(Ended(lines, ends) + last) == lines + if last == "" then [] else [last]
    decreases |lines|
  {
    if lines == [] {
      assert Ended(lines, ends) + last == last;
      LastLine(last);
    } else {
      var rest := Ended(lines[1..], ends[1..]);
      LinesOfEnded(lines[1..], ends[1..], last);
      EndingStripped(lines[0], ends[0], rest + last);
      Regroup(lines[0], ends[0], rest, last);
      Put(lines, if last == "" then [] else [last]);
    }
  }

  // ---------------------------------------------------------------------------
  // Significance
  // ---------------------------------------------------------------------------

  /** Blank lines and comments do not count, indented or not; every other line does. */
  lemma WhatCounts(gap: string, rest: string)
    requires Blanks(gap) && (rest != "" ==> rest[0] != ' ' && rest[0] != '\t')
    ensures Significant(gap + rest) <==> rest != "" && rest[0] != '#'
  {
    BlanksSkipped(gap, rest);
  }

  /** The characters a line may have: 0x20 to 0x7e, and tabs. */
  lemma WhatIsAscii(line: string)
    ensures Ascii(line) <==> forall i :: 0 <= i < |line| ==> 0x20 <= line[i] as int <= 0x7e || line[i] as int == 9
  {
  }

  // ---------------------------------------------------------------------------
  // Digits
  // ---------------------------------------------------------------------------

  const LOWER := "0123456789abcdef"
  const UPPER := "0123456789ABCDEF"

  /** Both cases of the sixteen digits, and nothing else, are digits. */
  lemma DigitsAre(d: nat)
    ensures d < 16 ==> Digit(LOWER[d]) == d && Digit(UPPER[d]) == d
  {
  }

  lemma NothingElse(c: char)
    ensures Digit(c) < 16 ==> c == LOWER[Digit(c)] || c == UPPER[Digit(c)]
    ensures Digit(c) >= 16 ==> c !in LOWER && c !in UPPER
  {
  }

  lemma {:induction false} LeadingZero(s: string, base: nat)
    ensures Value("0" + s, base) == Value(s, base)
  {
    if s == "" {
      assert "0" + s == "0";
      assert Value("0", base) == Value("0"[..0], base) * base + Digit('0');
    } else {
      var n := |s| - 1;
      LeadingZero(s[..n], base);
      assert ("0" + s)[..n + 1] == "0" + s[..n] && ("0" + s)[n + 1] == s[n];
    }
  }

  // ---------------------------------------------------------------------------
  // Header
  // ---------------------------------------------------------------------------

  /** The current headers: `vpnhide 2 config`, `vpnhide 1 stats` and `vpnhide 1 status`, the
      version in any decimal spelling and further tokens ignored. */
  lemma CurrentHeaders(line: string)
    ensures var t := Tokens(line);
            && (HeaderLine(line) == ConfigKind <==>
                  Ascii(line) && |t| >= 3 && t[0] == "vpnhide" && Numeral(t[1], 10, 0xFFFF_FFFF_FFFF_FFFF) == Some(2) && t[2] == "config")
            && (HeaderLine(line) == StatsKind <==>
                  Ascii(line) && |t| >= 3 && t[0] == "vpnhide" && Numeral(t[1], 10, 0xFFFF_FFFF_FFFF_FFFF) == Some(1) && t[2] == "stats")
            && (HeaderLine(line) == StatusKind <==>
                  Ascii(line) && |t| >= 3 && t[0] == "vpnhide" && Numeral(t[1], 10, 0xFFFF_FFFF_FFFF_FFFF) == Some(1) && t[2] == "status")
  {
  }
}
