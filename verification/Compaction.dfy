/** In-place forward compaction of a buffer of records: what every line, netlink and
    directory-entry filter computes, and why filtering twice changes nothing more. */
module Compaction {
  import opened Bytes

  /** `cut` finds the length of the first record of a non-empty rest; 0 when none parses. */
  type Cut = seq<byte> -> nat

  predicate Parses(cut: Cut, s: seq<byte>) { 0 < cut(s) <= |s| }

  function Records(cut: Cut, s: seq<byte>): seq<seq<byte>>
    decreases |s|
  {
    if Parses(cut, s) then [s[..cut(s)]] + Records(cut, s[cut(s)..]) else []
  }

  /** What is left where parsing stops. */
  function Tail(cut: Cut, s: seq<byte>): seq<byte>
    decreases |s|
  {
    if Parses(cut, s) then Tail(cut, s[cut(s)..]) else s
  }

  function Kept(drop: seq<byte> -> bool, records: seq<seq<byte>>): seq<seq<byte>> {
    if records == [] then [] else (if drop(records[0]) then [] else [records[0]]) + Kept(drop, records[1..])
  }

  function Flatten(records: seq<seq<byte>>): seq<byte> {
    if records == [] then [] else records[0] + Flatten(records[1..])
  }

  /** The records that are not hidden, in order, then the unparsable tail. */
  function Filter(cut: Cut, drop: seq<byte> -> bool, s: seq<byte>): seq<byte> {
    Flatten(Kept(drop, Records(cut, s))) + Tail(cut, s)
  }

  /** Splitting loses nothing. */
  lemma {:induction false} SplitIsWhole(cut: Cut, s: seq<byte>)
    ensures Flatten(Records(cut, s)) + Tail(cut, s) == s
    decreases |s|
  {
    if Parses(cut, s) {
      var n := cut(s);
      SplitIsWhole(cut, s[n..]);
      assert Records(cut, s)[1..] == Records(cut, s[n..]);
      assert s == s[..n] + s[n..];
    }
  }

  lemma FlattenCons(r: seq<byte>, rest: seq<seq<byte>>)
    ensures Flatten([r] + rest) == r + Flatten(rest)
  {
    assert ([r] + rest)[1..] == rest;
  }

  lemma KeptCons(drop: seq<byte> -> bool, r: seq<byte>, rest: seq<seq<byte>>)
    ensures Flatten(Kept(drop, [r] + rest)) == (if drop(r) then [] else r) + Flatten(Kept(drop, rest))
  {
    assert ([r] + rest)[1..] == rest;
    FlattenCons(r, Kept(drop, rest));
    assert [] + Kept(drop, rest) == Kept(drop, rest);
  }

  /** One record. */
  lemma FilterStep(cut: Cut, drop: seq<byte> -> bool, s: seq<byte>)
    ensures Parses(cut, s) ==>
              Filter(cut, drop, s) == (if drop(s[..cut(s)]) then [] else s[..cut(s)]) + Filter(cut, drop, s[cut(s)..])
    ensures !Parses(cut, s) ==> Filter(cut, drop, s) == s
  {
    if Parses(cut, s) {
      var r, rest := s[..cut(s)], s[cut(s)..];
      FirstRecord(cut, s, r, rest);
      KeptCons(drop, r, Records(cut, rest));
      Regroup(if drop(r) then [] else r, Flatten(Kept(drop, Records(cut, rest))), Tail(cut, rest));
    }
  }

  lemma FirstRecord(cut: Cut, s: seq<byte>, r: seq<byte>, rest: seq<byte>)
    requires Parses(cut, s) && r == s[..cut(s)] && rest == s[cut(s)..]
    ensures Records(cut, s) == [r] + Records(cut, rest) && Tail(cut, s) == Tail(cut, rest)
  {
  }

  lemma {:induction false} FilterShrinks(cut: Cut, drop: seq<byte> -> bool, s: seq<byte>)
    ensures |Filter(cut, drop, s)| <= |s|
    decreases |s|
  {
    FilterStep(cut, drop, s);
    if Parses(cut, s) {
      FilterShrinks(cut, drop, s[cut(s)..]);
    }
  }

  /** A record is framed by its own bytes, except that the last one may be cut short by the
      end of the buffer. */
  ghost predicate Framed(cut: Cut) {
    forall s: seq<byte>, t: seq<byte> {:trigger cut(s), cut(s[..cut(s)] + t)} ::
      Parses(cut, s) && (cut(s) == |s| ==> t == []) ==> cut(s[..cut(s)] + t) == cut(s)
  }

  /** Filtering is idempotent. */
  lemma {:induction false} FilterTwice(cut: Cut, drop: seq<byte> -> bool, s: seq<byte>)
    requires Framed(cut)
    ensures Filter(cut, drop, Filter(cut, drop, s)) == Filter(cut, drop, s)
    decreases |s|
  {
    FilterStep(cut, drop, s);
    if Parses(cut, s) {
      var n := cut(s);
      var rest := Filter(cut, drop, s[n..]);
      FilterTwice(cut, drop, s[n..]);
      if !drop(s[..n]) {
        FilterShrinks(cut, drop, s[n..]);
        assert cut(s[..n] + rest) == n;
        assert (s[..n] + rest)[..n] == s[..n] && (s[..n] + rest)[n..] == rest;
        FilterStep(cut, drop, s[..n] + rest);
      } else {
        assert Filter(cut, drop, s) == rest;
      }
    }
  }

  /** Parsing the result again gives exactly the records that were kept, then the same tail. */
  lemma {:induction false} ReparsesAsKept(cut: Cut, drop: seq<byte> -> bool, s: seq<byte>)
    requires Framed(cut)
    ensures Records(cut, Filter(cut, drop, s)) == Kept(drop, Records(cut, s))
    ensures Tail(cut, Filter(cut, drop, s)) == Tail(cut, s)
    decreases |s|
  {
    FilterStep(cut, drop, s);
    if Parses(cut, s) {
      var n := cut(s);
      var rest := Filter(cut, drop, s[n..]);
      ReparsesAsKept(cut, drop, s[n..]);
      assert Records(cut, s)[1..] == Records(cut, s[n..]);
      if !drop(s[..n]) {
        FilterShrinks(cut, drop, s[n..]);
        var u := s[..n] + rest;
        assert cut(u) == n && u[..n] == s[..n] && u[n..] == rest;
      } else {
        assert Filter(cut, drop, s) == rest;
      }
    }
  }

  /** Two predicates that agree on every record give the same result. */
  lemma {:induction false} SameFilter(cut: Cut, drop: seq<byte> -> bool, drop': seq<byte> -> bool, s: seq<byte>)
    requires forall r :: r in Records(cut, s) ==> drop(r) == drop'(r)
    ensures Filter(cut, drop, s) == Filter(cut, drop', s)
    decreases |s|
  {
    FilterStep(cut, drop, s);
    FilterStep(cut, drop', s);
    if Parses(cut, s) {
      assert s[..cut(s)] in Records(cut, s);
      SameFilter(cut, drop, drop', s[cut(s)..]);
    }
  }

  // ---------------------------------------------------------------------------
  // The overlapping copy
  // ---------------------------------------------------------------------------

  /** `now` is `was` with n elements copied from src to dst. */
  ghost predicate Moved(was: seq<byte>, now: seq<byte>, src: nat, n: nat, dst: nat) {
    && |now| == |was| && dst <= src && src + n <= |was|
    && (forall i :: dst <= i < dst + n ==> now[i] == was[i - dst + src])
    && (forall i :: 0 <= i < dst || dst + n <= i < |was| ==> now[i] == was[i])
  }

  /** n elements from `src` down to `dst`, byte by byte: an element is only overwritten
      after it has been read. */
  method CopyDown(a: array<byte>, src: nat, n: nat, dst: nat)
    requires dst <= src && src + n <= a.Length
    modifies a
    ensures Moved(old(a[..]), a[..], src, n, dst)
  {
    if dst != src {
      for k := 0 to n
        invariant Moved(old(a[..]), a[..], src, k, dst)
      {
        a[dst + k] := a[src + k];
      }
    }
  }

  lemma MovedSlice(was: seq<byte>, now: seq<byte>, src: nat, n: nat, dst: nat, start: nat)
    requires Moved(was, now, src, n, dst) && start <= dst
    ensures now[start..dst + n] == was[start..dst] + was[src..src + n]
  {
    var s, t := now[start..dst + n], was[start..dst] + was[src..src + n];
    forall i | 0 <= i < |s|
      ensures s[i] == t[i]
    {
      assert s[i] == now[start + i];
    }
  }

  /** Where a compaction of a[start..count] stands: what is written plus what is left to
      filter is the result, and nothing outside the written part start..dst has changed. */
  ghost predicate Halfway(cut: Cut, drop: seq<byte> -> bool, was: seq<byte>, now: seq<byte>, start: nat, count: nat, src: nat, dst: nat) {
    && |was| == |now| && start <= dst <= src <= count <= |was|
    && (forall i :: 0 <= i < start || dst <= i < |was| ==> now[i] == was[i])
    && now[start..dst] + Filter(cut, drop, was[src..count]) == Filter(cut, drop, was[start..count])
  }

  lemma HalfwayStart(cut: Cut, drop: seq<byte> -> bool, was: seq<byte>, start: nat, count: nat)
    requires start <= count <= |was|
    ensures Halfway(cut, drop, was, was, start, count, start, start)
  {
    assert was[start..start] == [];
  }

  /** The rest is still what it was. */
  lemma RestSame(was: seq<byte>, now: seq<byte>, src: nat, n: nat)
    requires |was| == |now| && src + n <= |was| && forall i :: src <= i < |was| ==> now[i] == was[i]
    ensures now[src..src + n] == was[src..src + n]
  {
  }

  lemma RestStep(cut: Cut, drop: seq<byte> -> bool, was: seq<byte>, count: nat, src: nat, n: nat)
    requires src + n <= count <= |was| && 0 < n == cut(was[src..count])
    ensures Filter(cut, drop, was[src..count]) == (if drop(was[src..src + n]) then [] else was[src..src + n]) + Filter(cut, drop, was[src + n..count])
  {
    var rest := was[src..count];
    FilterStep(cut, drop, rest);
    assert rest[..n] == was[src..src + n] && rest[n..] == was[src + n..count];
  }

  /** One record of length n is hidden: skip it. */
  lemma HalfwayHide(cut: Cut, drop: seq<byte> -> bool, was: seq<byte>, now: seq<byte>, start: nat, count: nat, src: nat, dst: nat, n: nat)
    requires Halfway(cut, drop, was, now, start, count, src, dst)
    requires 0 < n <= count - src && cut(was[src..count]) == n && drop(was[src..src + n])
    ensures Halfway(cut, drop, was, now, start, count, src + n, dst)
  {
    RestStep(cut, drop, was, count, src, n);
  }

  /** One record of length n is kept: it was copied down. */
  lemma HalfwayKeep(cut: Cut, drop: seq<byte> -> bool, was: seq<byte>, now: seq<byte>, now': seq<byte>, start: nat, count: nat, src: nat, dst: nat, n: nat)
    requires Halfway(cut, drop, was, now, start, count, src, dst) && Moved(now, now', src, n, dst)
    requires 0 < n <= count - src && cut(was[src..count]) == n && !drop(was[src..src + n])
    ensures Halfway(cut, drop, was, now', start, count, src + n, dst + n)
  {
    RestStep(cut, drop, was, count, src, n);
    RestSame(was, now, src, n);
    MovedSlice(now, now', src, n, dst, start);
    Regroup(now[start..dst], was[src..src + n], Filter(cut, drop, was[src + n..count]));
  }

  lemma Regroup(a: seq<byte>, b: seq<byte>, c: seq<byte>)
    ensures a + (b + c) == (a + b) + c
  {
  }

  /** Parsing stopped at src: the rest was copied down. */
  lemma HalfwayTail(cut: Cut, drop: seq<byte> -> bool, was: seq<byte>, now: seq<byte>, now': seq<byte>, start: nat, count: nat, src: nat, dst: nat, n: nat)
    requires Halfway(cut, drop, was, now, start, count, src, dst) && src + n == count && Moved(now, now', src, n, dst)
    requires !Parses(cut, was[src..count])
    ensures now'[start..dst + n] == Filter(cut, drop, was[start..count])
  {
    var rest := was[src..count];
    assert Filter(cut, drop, rest) == rest by { FilterStep(cut, drop, rest); }
    RestSame(was, now, src, n);
    MovedSlice(now, now', src, n, dst, start);
  }

  lemma HalfwayEnd(cut: Cut, drop: seq<byte> -> bool, was: seq<byte>, now: seq<byte>, start: nat, count: nat, dst: nat)
    requires Halfway(cut, drop, was, now, start, count, count, dst)
    ensures now[start..dst] == Filter(cut, drop, was[start..count])
  {
    FilterStep(cut, drop, was[count..count]);
  }

  lemma RestIs(cut: Cut, drop: seq<byte> -> bool, was: seq<byte>, now: seq<byte>, start: nat, count: nat, src: nat, dst: nat, n: nat, hidden: bool)
    requires Halfway(cut, drop, was, now, start, count, src, dst) && n <= count - src
    requires cut(now[src..count]) == n && hidden == drop(now[src..src + n])
    ensures cut(was[src..count]) == n && hidden == drop(was[src..src + n])
  {
    RestSame(was, now, src, count - src);
    RestSame(was, now, src, n);
  }

  /** Copy a kept record down. */
  method KeepRecord(a: array<byte>, ghost cut: Cut, ghost drop: seq<byte> -> bool, ghost was: seq<byte>, start: nat, count: nat, src: nat, dst: nat, n: nat)
    requires count <= a.Length && Halfway(cut, drop, was, a[..], start, count, src, dst)
    requires 0 < n <= count - src && cut(was[src..count]) == n && !drop(was[src..src + n])
    modifies a
    ensures Halfway(cut, drop, was, a[..], start, count, src + n, dst + n)
  {
    ghost var now := a[..];
    CopyDown(a, src, n, dst);
    HalfwayKeep(cut, drop, was, now, a[..], start, count, src, dst, n);
  }

  /** The turn of a compaction loop for a record of length n: skip it or copy it down. */
  method Settle(a: array<byte>, ghost cut: Cut, ghost drop: seq<byte> -> bool, ghost was: seq<byte>, start: nat, count: nat, src: nat, dst: nat, n: nat, hidden: bool)
    returns (dst': nat)
    requires count <= a.Length && Halfway(cut, drop, was, a[..], start, count, src, dst)
    requires 0 < n <= count - src && cut(a[src..count]) == n && hidden == drop(a[src..src + n])
    modifies a
    ensures Halfway(cut, drop, was, a[..], start, count, src + n, dst')
  {
    assert a[..][src..count] == a[src..count] && a[..][src..src + n] == a[src..src + n];
    RestIs(cut, drop, was, a[..], start, count, src, dst, n, hidden);
    if hidden {
      HalfwayHide(cut, drop, was, a[..], start, count, src, dst, n);
      return dst;
    }
    KeepRecord(a, cut, drop, was, start, count, src, dst, n);
    dst' := dst + n;
  }

  /** After the last record that parses, the rest is copied down verbatim. */
  method FinishTail(a: array<byte>, ghost cut: Cut, ghost drop: seq<byte> -> bool, ghost was: seq<byte>, count: nat, src: nat, dst: nat) returns (len: nat)
    requires count <= a.Length && Halfway(cut, drop, was, a[..], 0, count, src, dst) && !Parses(cut, a[src..count])
    modifies a
    ensures len <= count && a[..len] == Filter(cut, drop, was[..count])
    ensures forall i :: len <= i < a.Length ==> a[i] == was[i]
  {
    ghost var now := a[..];
    RestSame(was, now, src, count - src);
    assert was[src..count] == a[src..count] && was[0..count] == was[..count];
    if src < count {
      CopyDown(a, src, count - src, dst);
    }
    HalfwayTail(cut, drop, was, now, a[..], 0, count, src, dst, count - src);
    len := dst + (count - src);
    assert a[..][0..len] == a[..len];
  }
}
