/** The `config` payload: what a text means, and the parser loop that computes it. */
module ConfigWire {
  import opened Options
  import opened Wire
  import opened TargetSet

  /** Everything the records of a payload say, in order: one (uid, mask) record per uid
      token, whether some uid token was malformed, the last `end` count, the last `default`
      mask and the last `debug` flag. */
  datatype Reading = Reading(records: seq<Target>, clean: bool, declared: Option<nat>, defaultMask: nat, debug: Option<bool>)

  const NOTHING := Reading([], true, None, 0, None)

  function Hex32(tok: string): Option<nat> { Numeral(tok, 16, U32_MAX) }

  /** The uid tokens of one group, up to the first malformed one. */
  function ReadUids(r: Reading, mask: nat, toks: seq<string>): Reading
    decreases |toks|
  {
    if toks == [] then r
    else match Hex32(toks[0])
      case None => r.(clean := false)
      case Some(uid) => ReadUids(r.(records := r.records + [Target(uid, mask)]), mask, toks[1..])
  }

  /** What one line adds. Blank, comment, non-ASCII, unknown and malformed lines add nothing. */
  function ReadLine(r: Reading, line: string): Reading {
    if !Significant(line) || !Ascii(line) then r else ReadTokens(r, Tokens(line))
  }

  function ReadTokens(r: Reading, t: seq<string>): Reading {
    if |t| < 2 then r
    else if t[0] == "debug" then
      if t[1] == "0" then r.(debug := Some(false)) else if t[1] == "1" then r.(debug := Some(true)) else r
    else if t[0] == "default" then
      match Hex32(t[1]) case None => r case Some(m) => r.(defaultMask := m)
    else if t[0] == "targets" then
      match Hex32(t[1]) case None => r case Some(m) => ReadUids(r, m, t[2..])
    else if t[0] == "end" then
      match Hex32(t[1]) case None => r case Some(n) => r.(declared := Some(n))
    else r
  }

  function ReadLines(r: Reading, lines: seq<string>): Reading
    decreases |lines|
  {
    if lines == [] then r else ReadLines(ReadLine(r, lines[0]), lines[1..])
  }

  /** The reading of a payload's records. */
  function Payload(b: string): Reading { ReadLines(NOTHING, Header(Lines(b)).1) }

  /** A payload is accepted exactly when its header is a current config header, every uid
      token is a 32-bit bare hex number, its distinct uids fit, and the last well-formed
      `end` count is the number of uid tokens. */
  predicate Accepted(b: string, max: nat) {
    && Header(Lines(b)).0 == ConfigKind
    && Payload(b).clean
    && |MapOf(Payload(b).records)| <= max
    && Payload(b).declared == Some(|Payload(b).records|)
  }

  // ---------------------------------------------------------------------------
  // Facts about readings
  // ---------------------------------------------------------------------------

  /** Once a malformed uid token is seen the payload stays unclean, and records only grow. */
  lemma {:induction false} UidsMonotone(r: Reading, mask: nat, toks: seq<string>)
    decreases |toks|
    ensures var s := ReadUids(r, mask, toks); (!r.clean ==> !s.clean) && r.records <= s.records
  {
    if toks != [] && Hex32(toks[0]) != None {
      UidsMonotone(r.(records := r.records + [Target(Hex32(toks[0]).value, mask)]), mask, toks[1..]);
    }
  }

  lemma LineMonotone(r: Reading, line: string)
    ensures var s := ReadLine(r, line); (!r.clean ==> !s.clean) && r.records <= s.records
  {
    var t := Tokens(line);
    if Significant(line) && Ascii(line) && |t| >= 2 && Hex32(t[1]) != None {
      UidsMonotone(r, Hex32(t[1]).value, t[2..]);
    }
  }

  lemma {:induction false} LinesMonotone(r: Reading, lines: seq<string>)
    decreases |lines|
    ensures var s := ReadLines(r, lines); (!r.clean ==> !s.clean) && r.records <= s.records
  {
    if lines != [] {
      LineMonotone(r, lines[0]);
      LinesMonotone(ReadLine(r, lines[0]), lines[1..]);
    }
  }

  /** More records never have fewer distinct uids. */
  lemma {:induction false} DistinctMonotone(records: seq<Target>, more: seq<Target>)
    requires records <= more
    ensures MapOf(records).Keys <= MapOf(more).Keys && |MapOf(records)| <= |MapOf(more)|
  {
    if |records| < |more| {
      var front := more[..|more| - 1];
      DistinctMonotone(records, front);
      assert MapOf(more).Keys == MapOf(front).Keys + {more[|more| - 1].uid};
      SubsetSize(MapOf(front).Keys, MapOf(more).Keys);
    } else {
      assert records == more;
    }
  }

  lemma {:induction false} SubsetSize(a: set<nat>, b: set<nat>)
    requires a <= b
    ensures |a| <= |b|
  {
    if a != {} {
      var x :| x in a;
      SubsetSize(a - {x}, b - {x});
    }
  }

  /** A reading that is unclean, or has too many uids, dooms every payload it starts. */
  lemma Doomed(r: Reading, lines: seq<string>, max: nat)
    requires !r.clean || |MapOf(r.records)| > max
    ensures var s := ReadLines(r, lines); !s.clean || |MapOf(s.records)| > max
  {
    LinesMonotone(r, lines);
    DistinctMonotone(r.records, ReadLines(r, lines).records);
  }

  lemma DoomedUids(r: Reading, mask: nat, toks: seq<string>, max: nat)
    requires !r.clean || |MapOf(r.records)| > max
    ensures var s := ReadUids(r, mask, toks); !s.clean || |MapOf(s.records)| > max
  {
    UidsMonotone(r, mask, toks);
    DistinctMonotone(r.records, ReadUids(r, mask, toks).records);
  }

  // ---------------------------------------------------------------------------
  // The parser
  // ---------------------------------------------------------------------------

  /** The array holds the distinct uids of the records read so far. */
  ghost predicate Holds(out: array<Target>, n: nat, max: nat, r: Reading)
    reads out
  {
    && n <= max <= out.Length && r.clean
    && Sorted(out[..n]) && Represents(out[..n], MapOf(r.records))
  }

  lemma RecordAppended(r: Reading, uid: nat, mask: nat, n: nat, s: seq<Target>)
    requires Sorted(s) && Represents(s, MapOf(r.records)) && |s| == n
    ensures MapOf(r.records + [Target(uid, mask)]) == MapOf(r.records)[uid := mask]
    ensures uid !in MapOf(r.records) ==> |MapOf(r.records + [Target(uid, mask)])| == n + 1
  {
    MapOfAppend(r.records, uid, mask);
    SortedListSize(s, MapOf(r.records));
    var m := MapOf(r.records);
    assert m[uid := mask].Keys == m.Keys + {uid};
  }

  /** The uid tokens of a `targets` line from b[p..le]. */
  method ParseUids(b: string, p0: nat, le: nat, out: array<Target>, n0: nat, max: nat, mask: nat, ghost r: Reading)
    returns (ok: bool, n: nat, added: nat)
    requires p0 <= le <= |b| && Holds(out, n0, max, r)
    modifies out
    ensures var s := ReadUids(r, mask, Tokens(b[p0..le]));
            if ok then Holds(out, n, max, s) && |s.records| == |r.records| + added
            else !s.clean || |MapOf(s.records)| > max
  {
    var p := p0;
    n, added := n0, 0;
    ghost var cur := r;
    ghost var whole := ReadUids(r, mask, Tokens(b[p0..le]));
    while true
      invariant p <= le && Holds(out, n, max, cur)
      invariant ReadUids(cur, mask, Tokens(b[p..le])) == whole
      invariant |cur.records| == |r.records| + added
      decreases le - p
    {
      var more, ts, te, next := NextToken(b, p, le);
      if !more {
        return true, n, added;
      }
      ghost var toks := Tokens(b[p..le]);
      assert toks[0] == b[ts..te] && toks[1..] == Tokens(b[next..le]);
      p := next;
      var uid := TokHexBare(b, ts, te, 32);
      if uid == None {
        return false, n, added;
      }
      added := added + 1;
      RecordAppended(cur, uid.value, mask, n, out[..n]);
      ghost var after := cur.(records := cur.records + [Target(uid.value, mask)]);
      var fits, n' := Put(out, n, max, uid.value, mask, MapOf(cur.records));
      if !fits {
        DoomedUids(after, mask, toks[1..], max);
        return false, n, added;
      }
      n := n';
      cur := after;
    }
  }

  /** A record by its first two tokens. */
  lemma ReadTokensBy(r: Reading, key: string, val: string, rest: seq<string>)
    ensures ReadTokens(r, [key] + ([val] + rest)) ==
            if key == "debug" then if val == "0" then r.(debug := Some(false)) else if val == "1" then r.(debug := Some(true)) else r
            else if key != "default" && key != "targets" && key != "end" then r
            else match Hex32(val)
              case None => r
              case Some(n) =>
                if key == "default" then r.(defaultMask := n) else if key == "targets" then ReadUids(r, n, rest) else r.(declared := Some(n))
  {
    var t := [key] + ([val] + rest);
    assert t[0] == key && t[1] == val && t[2..] == rest;
  }

  /** One significant ASCII record line b[cs..le]: `seen` counts uid tokens. */
  method ParseRecord(b: string, cs: nat, le: nat, out: array<Target>, n0: nat, max: nat, seen0: nat,
                     declared0: Option<nat>, default0: nat, debug0: Option<bool>, ghost r: Reading)
    returns (ok: bool, n: nat, seen: nat, declared: Option<nat>, defaultMask: nat, debug: Option<bool>)
    requires cs <= le <= |b| && Holds(out, n0, max, r)
    requires seen0 == |r.records| && declared0 == r.declared && default0 == r.defaultMask && debug0 == r.debug
    modifies out
    ensures var s := ReadTokens(r, Tokens(b[cs..le]));
            if ok then Holds(out, n, max, s) && seen == |s.records| && declared == s.declared && defaultMask == s.defaultMask && debug == s.debug
            else !s.clean || |MapOf(s.records)| > max
  {
    ok, n, seen, declared, defaultMask, debug := true, n0, seen0, declared0, default0, debug0;
    var more, ts, te, p := NextToken(b, cs, le);
    if !more {
      return;
    }
    var key := b[ts..te];
    var p2;
    more, ts, te, p2 := NextToken(b, p, le);
    if !more {
      return;
    }
    ghost var rest := Tokens(b[p2..le]);
    ReadTokensBy(r, key, b[ts..te], rest);
    if key == "debug" {
      if b[ts..te] == "0" {
        debug := Some(false);
      } else if b[ts..te] == "1" {
        debug := Some(true);
      }
    } else if key == "default" || key == "targets" || key == "end" {
      var v := TokHexBare(b, ts, te, 32);
      if v == None {
        return;
      }
      if key == "default" {
        defaultMask := v.value;
      } else if key == "end" {
        declared := v;
      } else {
        var added;
        ok, n, added := ParseUids(b, p2, le, out, n0, max, v.value, r);
        seen := seen0 + added;
        if ok {
          UidsKeepRest(r, v.value, rest);
        }
      }
    }
  }

  lemma {:induction false} UidsKeepRest(r: Reading, mask: nat, toks: seq<string>)
    decreases |toks|
    ensures var s := ReadUids(r, mask, toks); s.declared == r.declared && s.defaultMask == r.defaultMask && s.debug == r.debug
  {
    if toks != [] && Hex32(toks[0]) != None {
      UidsKeepRest(r.(records := r.records + [Target(Hex32(toks[0]).value, mask)]), mask, toks[1..]);
    }
  }

  /** Whole configuration as the parser hands it over. */
  datatype ParseResult = Rejected | Parsed(n: nat, defaultMask: nat, debug: Option<bool>)

  lemma ReadLinesUnfold(r: Reading, line: string, rest: seq<string>)
    ensures ReadLines(r, [line] + rest) == ReadLines(ReadLine(r, line), rest)
  {
    assert ([line] + rest)[1..] == rest;
  }

  /** vpnhide_parse_config. For every text: -1 exactly when the payload is not acceptable;
      otherwise out[..n] is the strictly uid-ascending listing of the map its records
      build, last one winning, with the payload's default mask and debug flag. */
  method ParseConfig(b: string, out: array<Target>, max: nat) returns (r: ParseResult)
    requires max <= out.Length
    modifies out
    ensures r == Rejected <==> !Accepted(b, max)
    ensures r != Rejected ==> r.n <= max && Sorted(out[..r.n]) && Represents(out[..r.n], MapOf(Payload(b).records)) &&
                              r.defaultMask == Payload(b).defaultMask && r.debug == Payload(b).debug
  {
    var kind, i := ParseHeader(b);
    if kind != ConfigKind {
      return Rejected;
    }
    var n: nat, seen: nat, declared: Option<nat>, defaultMask: nat, debug: Option<bool> := 0, 0, None, 0, None;
    ghost var cur, whole := NOTHING, Payload(b);
    assert out[..0] == [];
    while true
      invariant i <= |b| && Holds(out, n, max, cur) && ReadLines(cur, Lines(b[i..])) == whole
      invariant seen == |cur.records| && declared == cur.declared && defaultMask == cur.defaultMask && debug == cur.debug
      decreases |b| - i
    {
      var more, ls, le, next := NextLine(b, i);
      if !more {
        break;
      }
      ReadLinesUnfold(cur, b[ls..le], Lines(b[next..]));
      ghost var line, prior := b[ls..le], cur;
      i := next;
      cur := ReadLine(cur, line);
      var significant, cs, ascii := LineSignificant(b, ls, le);
      if significant && ascii {
        HeaderLineSkips(line, b[cs..le]);
        var ok;
        ok, n, seen, declared, defaultMask, debug := ParseRecord(b, cs, le, out, n, max, seen, declared, defaultMask, debug, prior);
        if !ok {
          Doomed(cur, Lines(b[next..]), max);
          return Rejected;
        }
      }
    }
    SortedListSize(out[..n], MapOf(whole.records));
    if declared == None || declared.value != seen {
      return Rejected;
    }
    return Parsed(n, defaultMask, debug);
  }
}
