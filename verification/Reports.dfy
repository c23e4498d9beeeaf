/** Status replies and stats requests: what is printed is what the readers get back, and
    the limit of the truncation fuse. */
module Reports {
  import opened Options
  import opened Wire
  import opened Printer
  import opened TargetSet
  import opened ConfigWire
  import opened Truncation
  import opened TruncationExact

  // ---------------------------------------------------------------------------
  // Lexing concatenations
  // ---------------------------------------------------------------------------

  predicate LineChars(s: string) { forall i :: 0 <= i < |s| ==> IsAscii(s[i]) }

  lemma {:induction false} LineLenOf(line: string, rest: string)
    requires LineChars(line)
    ensures LineLen(line + "\n" + rest) == |line|
  {
    var b := line + "\n" + rest;
    if line != "" {
      assert b[1..] == line[1..] + "\n" + rest;
      LineLenOf(line[1..], rest);
    }
  }

  lemma LineCons(line: string, rest: string)
    requires LineChars(line)
    ensures Lines(line + "\n" + rest) == [line] + Lines(rest)
  {
    var b := line + "\n" + rest;
    LineLenOf(line, rest);
    assert b[0..] == b && b[0..|line|] == line && b[|line| + 1..] == rest;
    LinesUnfold(b, 0, |line|, |line| + 1);
  }

  /** A text from its lines. */
  function Unlines(lines: seq<string>): string {
    if lines == [] then "" else lines[0] + "\n" + Unlines(lines[1..])
  }

  /** Printing lines and splitting them again gives them back. */
  lemma {:induction false} LinesOfUnlines(lines: seq<string>)
    requires forall i :: 0 <= i < |lines| ==> LineChars(lines[i])
    ensures Lines(Unlines(lines)) == lines
  {
    if lines != [] {
      LinesOfUnlines(lines[1..]);
      LineCons(lines[0], Unlines(lines[1..]));
    }
  }

  lemma {:induction false} UnlinesAppend(lines: seq<string>, x: string)
    ensures Unlines(lines + [x]) == Unlines(lines) + (x + "\n")
  {
    var all := lines + [x];
    if lines == [] {
      assert all[1..] == [] && Unlines(all[1..]) == "";
    } else {
      assert all[1..] == lines[1..] + [x] && all[0] == lines[0];
      UnlinesAppend(lines[1..], x);
    }
  }

  lemma {:induction false} TokenLenOf(word: string, rest: string)
    requires TokenChars(word) && (rest == "" || IsSep(rest[0]))
    ensures TokenLen(word + rest) == |word|
  {
    if word != "" {
      assert (word + rest)[1..] == word[1..] + rest;
      TokenLenOf(word[1..], rest);
    } else {
      assert word + rest == rest;
    }
  }

  lemma TokenCons(word: string, rest: string)
    requires TokenChars(word) && word != "" && (rest == "" || IsSep(rest[0]))
    ensures Tokens(word + rest) == [word] + Tokens(rest) && Significant(word + rest) == (word[0] != '#')
  {
    var s := word + rest;
    TokenLenOf(word, rest);
    assert s[0] == word[0] && SkipSeps(s) == s;
    assert s[..|word|] == word && s[|word|..] == rest;
  }

  lemma SpaceSkipped(s: string)
    ensures Tokens(" " + s) == Tokens(s)
  {
    assert (" " + s)[1..] == s;
  }

  /** Two words make two tokens. */
  lemma TwoWords(a: string, b: string)
    requires TokenChars(a) && TokenChars(b) && a != "" && b != "" && a[0] != '#'
    ensures Tokens(a + " " + b) == [a, b] && Significant(a + " " + b) && Ascii(a + " " + b) && LineChars(a + " " + b)
  {
    assert a + " " + b == a + (" " + b);
    TokenCons(a, " " + b);
    SpaceSkipped(b);
    assert b + "" == b;
    TokenCons(b, "");
    assert Tokens("") == [];
  }

  lemma ThreeWords(a: string, b: string, c: string)
    requires TokenChars(a) && TokenChars(b) && TokenChars(c) && a != "" && b != "" && c != "" && a[0] != '#' && b[0] != '#'
    ensures var s := a + " " + b + " " + c; Tokens(s) == [a, b, c] && Significant(s) && Ascii(s) && LineChars(s)
  {
    var s := a + " " + b + " " + c;
    var bc := b + " " + c;
    assert s == a + (" " + bc);
    TokenCons(a, " " + bc);
    SpaceSkipped(bc);
    TwoWords(b, c);
  }

  predicate Words(words: seq<string>) { forall i :: 0 <= i < |words| ==> TokenChars(words[i]) && words[i] != "" }

  /** Each word after a space. */
  function Spaced(words: seq<string>): string {
    if words == [] then "" else " " + words[0] + Spaced(words[1..])
  }

  lemma {:induction false} SpacedAppend(words: seq<string>, w: string)
    ensures Spaced(words + [w]) == Spaced(words) + (" " + w)
  {
    var all := words + [w];
    if words == [] {
      assert all[1..] == [] && Spaced(all[1..]) == "";
    } else {
      assert all[1..] == words[1..] + [w] && all[0] == words[0];
      SpacedAppend(words[1..], w);
    }
  }

  lemma SpacedShape(words: seq<string>)
    ensures Spaced(words) == "" || IsSep(Spaced(words)[0])
  {
  }

  lemma SpacedWord(word: string, rest: string)
    requires TokenChars(word) && word != "" && (rest == "" || IsSep(rest[0]))
    ensures Tokens(" " + word + rest) == [word] + Tokens(rest)
  {
    TokenCons(word, rest);
    SpaceSkipped(word + rest);
    Associates(" ", word, rest);
  }

  lemma Associates(a: string, b: string, c: string)
    ensures a + b + c == a + (b + c)
  {
  }

  lemma {:induction false} TokensOfSpaced(words: seq<string>)
    requires Words(words)
    ensures Tokens(Spaced(words)) == words && LineChars(Spaced(words))
  {
    if words == [] {
      assert Tokens("") == [];
    } else {
      TokensOfSpaced(words[1..]);
      SpacedShape(words[1..]);
      SpacedWord(words[0], Spaced(words[1..]));
    }
  }

  lemma RowTokens(first: string, words: seq<string>)
    requires Words(words) && TokenChars(first) && first != ""
    ensures Tokens(first + Spaced(words)) == [first] + words && LineChars(first + Spaced(words))
  {
    TokensOfSpaced(words);
    SpacedShape(words);
    TokenCons(first, Spaced(words));
  }

  lemma OneDigit(c: char)
    requires Digit(c) < 10
    ensures Numeral([c], 10, U64_MAX) == Some(Digit(c)) && Numeral([c], 16, U32_MAX) == Some(Digit(c))
  {
    assert [c][..0] == "";
    assert Value("", 10) == 0 && Value("", 16) == 0;
    assert Value([c], 10) == Value([c][..0], 10) * 10 + Digit(c);
    assert Value([c], 16) == Value([c][..0], 16) * 16 + Digit(c);
  }

  // ---------------------------------------------------------------------------
  // status
  // ---------------------------------------------------------------------------

  datatype Status = Status(backend: nat, kver: nat, hooks: nat, error: nat)

  function Field(key: string, v: nat): string { key + " " + HexText(v) }

  function HeaderText(kind: string, version: nat): string {
    "vpnhide " + DecText(version) + " " + kind + "\n"
  }

  function FieldLine(key: string, v: nat): string { Field(key, v) + "\n" }

  function StatusRecords(s: Status): seq<string> {
    [Field("backend", s.backend), Field("kver", s.kver), Field("hooks", s.hooks), Field("error", s.error)]
  }

  function StatusText(s: Status): string { Unlines([StatusHeader()] + StatusRecords(s)) }

  function StatusHeader(): string { "vpnhide " + DecText(TELEMETRY_VERSION) + " status" }

  method PutHeader(b: Buf, kind: string, version: nat)
    requires b.Valid() && version <= U64_MAX
    modifies b, b.p
    ensures b.Valid() && b.text == old(b.text) + HeaderText(kind, version)
  {
    b.Puts("vpnhide ");
    b.PutDec(version);
    b.Putc(' ');
    b.Puts(kind);
    b.Putc('\n');
  }

  method PutField(b: Buf, key: string, v: nat)
    requires b.Valid() && v <= U64_MAX
    modifies b, b.p
    ensures b.Valid() && b.text == old(b.text) + FieldLine(key, v)
  {
    b.Puts(key + " ");
    b.PutHex(v);
    b.Putc('\n');
  }

  /** vpnhide_format_status: the full length is returned, and the buffer holds as much of
      the text as fits. */
  method FormatStatus(p: array<char>, s: Status) returns (len: nat)
    requires s.backend <= U32_MAX && s.kver <= U32_MAX && s.hooks <= U32_MAX && s.error <= U32_MAX
    modifies p
    ensures len == |StatusText(s)|
    ensures forall i :: 0 <= i < len && i < p.Length ==> p[i] == StatusText(s)[i]
  {
    var b := new Buf(p);
    PutHeader(b, "status", TELEMETRY_VERSION);
    ghost var done := [StatusHeader()];
    assert b.text == Unlines(done) by { UnlinesAppend([], StatusHeader()); assert [] + done == done; }
    PutField(b, "backend", s.backend);
    UnlinesAppend(done, Field("backend", s.backend));
    done := done + [Field("backend", s.backend)];
    PutField(b, "kver", s.kver);
    UnlinesAppend(done, Field("kver", s.kver));
    done := done + [Field("kver", s.kver)];
    PutField(b, "hooks", s.hooks);
    UnlinesAppend(done, Field("hooks", s.hooks));
    done := done + [Field("hooks", s.hooks)];
    PutField(b, "error", s.error);
    UnlinesAppend(done, Field("error", s.error));
    assert done + [Field("error", s.error)] == [StatusHeader()] + StatusRecords(s);
    len := b.len;
  }

  lemma HexIsToken(v: nat)
    ensures TokenChars(HexText(v)) && HexText(v) != "" && HexText(v)[0] != '#'
  {
    DigitTextDigits(v, 16);
  }

  /** A printed field is one line of two tokens whose number is the field, for all values. */
  lemma FieldReadsBack(key: string, v: nat, max: nat)
    requires TokenChars(key) && key != "" && key[0] != '#' && v <= max
    ensures var line := Field(key, v); LineChars(line) && Tokens(line) == [key, HexText(v)] && Prefixed(Tokens(line)[1], max) == Some(v)
    ensures Significant(Field(key, v)) && Ascii(Field(key, v))
  {
    HexIsToken(v);
    TwoWords(key, HexText(v));
    HexRoundTrip(v, max);
  }

  /** A telemetry header line is three tokens with the current version. */
  lemma TelemetryHeader(kind: string)
    requires kind == "stats" || kind == "status"
    ensures var line := "vpnhide " + DecText(TELEMETRY_VERSION) + " " + kind;
            LineChars(line) && Significant(line) && HeaderLine(line) == if kind == "stats" then StatsKind else StatusKind
  {
    var v := DecText(TELEMETRY_VERSION);
    DigitTextDigits(TELEMETRY_VERSION, 10);
    DecRoundTrip(TELEMETRY_VERSION, U64_MAX);
    assert v[0] != '#';
    KindOf("vpnhide", v, kind);
    assert "vpnhide " == "vpnhide" + " ";
  }

  lemma KindOf(magic: string, v: string, kind: string)
    requires magic == "vpnhide" && TokenChars(v) && v != "" && v[0] != '#' && Numeral(v, 10, U64_MAX) == Some(TELEMETRY_VERSION)
    requires kind == "stats" || kind == "status"
    ensures var line := magic + " " + v + " " + kind;
            LineChars(line) && Significant(line) && HeaderLine(line) == if kind == "stats" then StatsKind else StatusKind
  {
    ThreeWords(magic, v, kind);
  }

  lemma StatusFields(s: Status)
    requires s.backend <= U32_MAX && s.kver <= U32_MAX && s.hooks <= U32_MAX && s.error <= U32_MAX
    ensures ReadsAs(Field("backend", s.backend), "backend", s.backend) && LineChars(Field("backend", s.backend))
    ensures ReadsAs(Field("kver", s.kver), "kver", s.kver) && LineChars(Field("kver", s.kver))
    ensures ReadsAs(Field("hooks", s.hooks), "hooks", s.hooks) && LineChars(Field("hooks", s.hooks))
    ensures ReadsAs(Field("error", s.error), "error", s.error) && LineChars(Field("error", s.error))
  {
    FieldReadsAs("backend", s.backend);
    FieldReadsAs("kver", s.kver);
    FieldReadsAs("hooks", s.hooks);
    FieldReadsAs("error", s.error);
  }

  /** Reading back a status reply returns every field, whatever the values. */
  lemma StatusReadsBack(s: Status)
    requires s.backend <= U32_MAX && s.kver <= U32_MAX && s.hooks <= U32_MAX && s.error <= U32_MAX
    ensures Header(Lines(StatusText(s))) == (StatusKind, StatusRecords(s))
    ensures ReadsAs(Field("backend", s.backend), "backend", s.backend) && ReadsAs(Field("kver", s.kver), "kver", s.kver)
    ensures ReadsAs(Field("hooks", s.hooks), "hooks", s.hooks) && ReadsAs(Field("error", s.error), "error", s.error)
  {
    StatusFields(s);
    StatusSplits(s);
  }

  lemma StatusSplits(s: Status)
    requires forall i :: 0 <= i < 4 ==> LineChars(StatusRecords(s)[i])
    ensures Header(Lines(StatusText(s))) == (StatusKind, StatusRecords(s))
  {
    TelemetryHeader("status");
    assert "vpnhide " + DecText(TELEMETRY_VERSION) + " " + "status" == StatusHeader();
    HeaderOf(StatusHeader(), StatusRecords(s));
  }

  lemma FieldReadsAs(key: string, v: nat)
    requires TokenChars(key) && key != "" && key[0] != '#' && v <= U32_MAX
    ensures ReadsAs(Field(key, v), key, v) && LineChars(Field(key, v))
  {
    FieldReadsBack(key, v, U32_MAX);
  }

  /** The wire's readers take this line for `key` with the 32-bit value v. */
  predicate ReadsAs(line: string, key: string, v: nat) {
    Significant(line) && Ascii(line) && |Tokens(line)| == 2 && Tokens(line)[0] == key && Prefixed(Tokens(line)[1], U32_MAX) == Some(v)
  }

  // ---------------------------------------------------------------------------
  // stats-page requests
  // ---------------------------------------------------------------------------

  /** The cursor of a stats request: absent means 0; a malformed or repeated `after` record
      refuses the request. */
  function AfterOf(seen: Option<nat>, lines: seq<string>): Option<nat>
    decreases |lines|
  {
    if lines == [] then Some(if seen == None then 0 else seen.value)
    else
      var t := Tokens(lines[0]);
      if !Significant(lines[0]) || !Ascii(lines[0]) || t == [] || t[0] != "after" then AfterOf(seen, lines[1..])
      else if seen != None || |t| != 2 || Prefixed(t[1], U32_MAX) == None then None
      else AfterOf(Prefixed(t[1], U32_MAX), lines[1..])
  }

  function StatsAfter(b: string): Option<nat> {
    var h := Header(Lines(b));
    if h.0 != StatsKind then None else AfterOf(None, h.1)
  }

  lemma AfterUnfold(seen: Option<nat>, line: string, rest: seq<string>)
    ensures var t := Tokens(line);
            AfterOf(seen, [line] + rest) ==
            if !Significant(line) || !Ascii(line) || t == [] || t[0] != "after" then AfterOf(seen, rest)
            else if seen != None || |t| != 2 || Prefixed(t[1], U32_MAX) == None then None
            else AfterOf(Prefixed(t[1], U32_MAX), rest)
  {
    assert ([line] + rest)[1..] == rest;
  }

  /** An `after` record from its second token on: its cursor if it has exactly one good one. */
  method ReadCursor(b: string, p0: nat, le: nat) returns (r: Option<nat>)
    requires p0 <= le <= |b|
    ensures var t := Tokens(b[p0..le]); r == if |t| == 1 then Prefixed(t[0], U32_MAX) else None
  {
    var more, ts, te, p := NextToken(b, p0, le);
    if !more {
      return None;
    }
    r := TokHex(b, ts, te, 32);
    more, ts, te, p := NextToken(b, p, le);
    if more {
      return None;
    }
  }

  method ParseStatsAfter(b: string) returns (r: Option<nat>)
    ensures r == StatsAfter(b)
  {
    var kind, i := ParseHeader(b);
    if kind != StatsKind {
      return None;
    }
    var seen: Option<nat> := None;
    ghost var whole := StatsAfter(b);
    while true
      invariant i <= |b| && AfterOf(seen, Lines(b[i..])) == whole
      decreases |b| - i
    {
      var more, ls, le, next := NextLine(b, i);
      if !more {
        return Some(if seen == None then 0 else seen.value);
      }
      AfterUnfold(seen, b[ls..le], Lines(b[next..]));
      i := next;
      var significant, cs, ascii := LineSignificant(b, ls, le);
      if significant && ascii {
        HeaderLineSkips(b[ls..le], b[cs..le]);
        var some, ts, te, p := NextToken(b, cs, le);
        if some && b[ts..te] == "after" {
          var v := ReadCursor(b, p, le);
          if seen != None || v == None {
            return None;
          }
          seen := v;
        }
      }
    }
  }

  /** The request for the page after `cursor`. */
  function PageRequest(cursor: nat): string {
    Unlines(["vpnhide " + DecText(TELEMETRY_VERSION) + " " + "stats", Field("after", cursor)])
  }

  /** Echoing a page's cursor in the next request selects exactly that cursor. */
  lemma CursorRoundTrip(cursor: nat)
    requires cursor <= U32_MAX
    ensures StatsAfter(PageRequest(cursor)) == Some(cursor)
  {
    var header, line := "vpnhide " + DecText(TELEMETRY_VERSION) + " " + "stats", Field("after", cursor);
    FieldReadsBack("after", cursor, U32_MAX);
    TelemetryHeader("stats");
    LinesOfUnlines([header, line]);
    assert [header, line] == [header] + [line];
    HeaderUnfold(header, [line]);
    AfterUnfold(None, line, []);
    assert [line] + [] == [line];
  }

  // ---------------------------------------------------------------------------
  // Where the truncation fuse ends
  // ---------------------------------------------------------------------------

  lemma ConfigHeader(h: string)
    requires h == "vpnhide" + " " + "2" + " " + "config"
    ensures LineChars(h) && Significant(h) && HeaderLine(h) == ConfigKind
  {
    ThreeWords("vpnhide", "2", "config");
    OneDigit('2');
  }

  lemma EndAndDebug(e: string, d: string, r: Reading)
    requires e == "end" + " " + "0" && d == "debug" + " " + "1"
    ensures LineChars(e) && LineChars(d)
    ensures ReadLine(r, e) == r.(declared := Some(0)) && ReadLine(r, d) == r.(debug := Some(true))
  {
    TwoWords("end", "0");
    TwoWords("debug", "1");
    OneDigit('0');
  }

  lemma HeaderOf(h: string, records: seq<string>)
    requires LineChars(h) && Significant(h) && forall i :: 0 <= i < |records| ==> LineChars(records[i])
    ensures Header(Lines(Unlines([h] + records))) == (HeaderLine(h), records)
  {
    LinesOfUnlines([h] + records);
    HeaderUnfold(h, records);
  }

  /** A record after `end` is not protected: of the payload `end 0`, `debug 1` the first two
      lines close the fuse, so some prefix of it is accepted without the debug setting. */
  lemma RecordsAfterEndCanBeLost(h: string, e: string, d: string) returns (cut: string)
    requires h == "vpnhide" + " " + "2" + " " + "config" && e == "end" + " " + "0" && d == "debug" + " " + "1"
    ensures var full := Unlines([h] + [e, d]);
            cut <= full && Accepted(cut, 160) && Accepted(full, 160) && !SameConfig(Payload(cut), Payload(full)) && Lines(cut) == [h, e]
  {
    var full := Unlines([h] + [e, d]);
    ConfigHeader(h);
    TwoRecords(h, e, d);
    assert Lines(full)[..2] == [h] + [e];
    OneRecord(h, e);
    cut := ClosedEarlyCanBeCut(full, 160, 2);
  }

  lemma OneRecord(h: string, e: string)
    requires h == "vpnhide" + " " + "2" + " " + "config" && e == "end" + " " + "0"
    ensures Closes([h] + [e]) && Says([h] + [e]) == NOTHING.(declared := Some(0))
  {
    ConfigHeader(h);
    EndAndDebug(e, "debug" + " " + "1", NOTHING);
    HeaderUnfold(h, [e]);
    ReadLinesUnfold(NOTHING, e, []);
    assert [e] + [] == [e];
  }

  lemma TwoRecords(h: string, e: string, d: string)
    requires h == "vpnhide" + " " + "2" + " " + "config" && e == "end" + " " + "0" && d == "debug" + " " + "1"
    ensures var full := Unlines([h] + [e, d]);
            Lines(full) == [h] + [e, d] && Accepted(full, 160) && Payload(full) == NOTHING.(declared := Some(0), debug := Some(true))
  {
    var r := NOTHING.(declared := Some(0));
    ConfigHeader(h);
    EndAndDebug(e, d, NOTHING);
    EndAndDebug(e, d, r);
    LinesOfUnlines([h] + [e, d]);
    HeaderUnfold(h, [e, d]);
    ReadLinesUnfold(NOTHING, e, [d]);
    ReadLinesUnfold(r, d, []);
    assert [d] + [] == [d] && [e] + [d] == [e, d];
  }
}
