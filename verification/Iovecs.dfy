/** recvmsg replies scattered over an iovec array: gathered, filtered as one netlink
    datagram and scattered back, whatever the split. */
module Iovecs {
  import opened Options
  import opened Bytes
  import opened Compaction
  import opened Netlink

  const USIZE_MAX: nat := 0xffff_ffff_ffff_ffff

  /** A descriptor: a null base with a length, or a piece of the caller's memory. */
  datatype Iovec = Null(len: nat) | Piece(mem: array<byte>)

  function Min(a: nat, b: nat): nat { if a < b then a else b }

  /** What a descriptor holds. */
  ghost predicate Holds1(v: Iovec, piece: seq<byte>)
    reads if v.Piece? then {v.mem} else {}
  {
    if v.Piece? then v.mem[..] == piece else piece == []
  }

  ghost function Memory(iov: seq<Iovec>): set<array<byte>> { set v | v in iov && v.Piece? :: v.mem }

  ghost predicate Holds(iov: seq<Iovec>, pieces: seq<seq<byte>>)
    reads Memory(iov)
  {
    |iov| == |pieces| && forall i :: 0 <= i < |iov| ==> Holds1(iov[i], pieces[i])
  }

  /** No two descriptors share memory. */
  ghost predicate Apart(iov: seq<Iovec>) {
    forall i, j :: 0 <= i < j < |iov| && iov[i].Piece? && iov[j].Piece? ==> iov[i].mem != iov[j].mem
  }

  function Len(v: Iovec): nat { if v.Piece? then v.mem.Length else v.len }

  /** The first n bytes are in memory: no null descriptor with a length comes before them. */
  predicate Covers(iov: seq<Iovec>, n: nat) {
    n == 0 || (iov != [] && (Min(n, Len(iov[0])) > 0 ==> iov[0].Piece?) && Covers(iov[1..], n - Min(n, Len(iov[0]))))
  }

  // ---------------------------------------------------------------------------
  // Gathering
  // ---------------------------------------------------------------------------

  lemma CoversStep(iov: seq<Iovec>, index: nat, n: nat, take: nat)
    requires index < |iov| && take == Min(n, Len(iov[index])) && n > 0
    ensures take > 0 && iov[index].Null? ==> !Covers(iov[index..], n)
    ensures take == 0 || iov[index].Piece? ==> Covers(iov[index..], n) == Covers(iov[index + 1..], n - take)
  {
    assert iov[index..][0] == iov[index] && iov[index..][1..] == iov[index + 1..];
  }

  lemma HoldsRest(iov: seq<Iovec>, pieces: seq<seq<byte>>)
    requires Holds(iov, pieces) && iov != []
    ensures Holds(iov[1..], pieces[1..])
  {
    forall i | 0 <= i < |iov[1..]|
      ensures Holds1(iov[1..][i], pieces[1..][i])
    {
      assert Holds1(iov[i + 1], pieces[i + 1]);
    }
  }

  /** The covered prefix is a prefix of the concatenation. */
  lemma {:induction false} CoveredLength(iov: seq<Iovec>, pieces: seq<seq<byte>>, n: nat)
    requires Holds(iov, pieces) && Covers(iov, n)
    ensures n <= |Flatten(pieces)|
  {
    if n > 0 {
      HoldsRest(iov, pieces);
      CoveredLength(iov[1..], pieces[1..], n - Min(n, Len(iov[0])));
      assert Holds1(iov[0], pieces[0]);
    }
  }

  /** The first n bytes of the concatenation, one piece at a time. */
  lemma PrefixStep(pieces: seq<seq<byte>>, n: nat, take: nat)
    requires pieces != [] && n <= |Flatten(pieces)| && take == Min(n, |pieces[0]|)
    ensures n - take <= |Flatten(pieces[1..])| && Flatten(pieces)[..n] == pieces[0][..take] + Flatten(pieces[1..])[..n - take]
  {
  }

  /** One descriptor's share of the payload. */
  method TakeFrom(v: Iovec, take: nat, scratch: seq<byte>) returns (r: Option<seq<byte>>)
    requires take <= Len(v)
    ensures take == 0 ==> r == Some(scratch)
    ensures take > 0 ==> r == if v.Piece? then Some(scratch + v.mem[..take]) else None
  {
    if take == 0 {
      return Some(scratch);
    }
    if v.Null? {
      return None;
    }
    return Some(scratch + v.mem[..take]);
  }

  /** Where the gathering stands: what was read and what is left make up the prefix. */
  ghost predicate Gathered(pieces: seq<seq<byte>>, n: nat, scratch: seq<byte>, rest: seq<seq<byte>>, remaining: nat) {
    n <= |Flatten(pieces)| && remaining <= |Flatten(rest)| && scratch + Flatten(rest)[..remaining] == Flatten(pieces)[..n]
  }

  lemma GatheredTurn(pieces: seq<seq<byte>>, n: nat, scratch: seq<byte>, rest: seq<seq<byte>>, remaining: nat, take: nat)
    requires Gathered(pieces, n, scratch, rest, remaining) && rest != [] && take == Min(remaining, |rest[0]|)
    ensures Gathered(pieces, n, scratch + rest[0][..take], rest[1..], remaining - take)
  {
    PrefixStep(rest, remaining, take);
  }

  lemma GatheredStart(iov: seq<Iovec>, pieces: seq<seq<byte>>, n: nat)
    requires Holds(iov, pieces) && Covers(iov, n)
    ensures Gathered(pieces, n, [], pieces, n)
  {
    CoveredLength(iov, pieces, n);
  }

  lemma TailsStep(iov: seq<Iovec>, pieces: seq<seq<byte>>, index: nat)
    requires |iov| == |pieces| && index < |iov|
    ensures iov[index..] != [] && iov[index..][0] == iov[index] && iov[index..][1..] == iov[index + 1..]
    ensures pieces[index..] != [] && pieces[index..][0] == pieces[index] && pieces[index..][1..] == pieces[index + 1..]
  {
  }

  method Gather(iov: seq<Iovec>, n: nat, ghost pieces: seq<seq<byte>>) returns (r: Option<seq<byte>>)
    requires Holds(iov, pieces)
    ensures r.Some? <==> Covers(iov, n)
    ensures r.Some? ==> n <= |Flatten(pieces)| && r.value == Flatten(pieces)[..n]
  {
    var scratch, remaining: nat, index: nat := [], n, 0;
    ghost var covered := Covers(iov, n);
    if covered {
      GatheredStart(iov, pieces, n);
    }
    assert iov[0..] == iov && pieces[0..] == pieces;
    while index < |iov| && remaining > 0
      invariant index <= |iov| && Covers(iov[index..], remaining) == covered
      invariant covered ==> Gathered(pieces, n, scratch, pieces[index..], remaining)
    {
      var take := Min(remaining, Len(iov[index]));
      TailsStep(iov, pieces, index);
      CoversStep(iov, index, remaining, take);
      assert Holds1(iov[index], pieces[index]);
      var more := TakeFrom(iov[index], take, scratch);
      if more.None? {
        return None;
      }
      if covered {
        GatheredTurn(pieces, n, scratch, pieces[index..], remaining, take);
        assert more.value == scratch + pieces[index][..take];
      }
      scratch, remaining, index := more.value, remaining - take, index + 1;
    }
    r := if remaining != 0 then None else Some(scratch);
  }

  // ---------------------------------------------------------------------------
  // Scattering
  // ---------------------------------------------------------------------------

  /** `data` laid over the pieces, from the front. */
  function Spread(pieces: seq<seq<byte>>, data: seq<byte>): seq<seq<byte>> {
    if pieces == [] then []
    else
      var take := Min(|data|, |pieces[0]|);
      [data[..take] + pieces[0][take..]] + Spread(pieces[1..], data[take..])
  }

  /** Laid over the pieces, `data` becomes the front of the concatenation; every later byte and
      every length stays. */
  lemma {:induction false} SpreadFlattens(pieces: seq<seq<byte>>, data: seq<byte>)
    requires |data| <= |Flatten(pieces)|
    ensures Flatten(Spread(pieces, data)) == data + Flatten(pieces)[|data|..]
    ensures |Spread(pieces, data)| == |pieces| && forall i :: 0 <= i < |pieces| ==> |Spread(pieces, data)[i]| == |pieces[i]|
  {
    if pieces != [] {
      var take := Min(|data|, |pieces[0]|);
      SpreadFlattens(pieces[1..], data[take..]);
      SpreadStep(pieces, data, take);
    }
  }

  lemma SpreadStep(pieces: seq<seq<byte>>, data: seq<byte>, take: nat)
    requires pieces != [] && |data| <= |Flatten(pieces)| && take == Min(|data|, |pieces[0]|)
    requires Flatten(Spread(pieces[1..], data[take..])) == data[take..] + Flatten(pieces[1..])[|data| - take..]
    ensures Flatten(Spread(pieces, data)) == data + Flatten(pieces)[|data|..]
  {
    FlattenCons(data[..take] + pieces[0][take..], Spread(pieces[1..], data[take..]));
    Overlay(pieces[0], Flatten(pieces[1..]), data, take);
  }

  /** `data` over the concatenation of two parts, done part by part. */
  lemma Overlay(first: seq<byte>, rest: seq<byte>, data: seq<byte>, take: nat)
    requires |data| <= |first + rest| && take == Min(|data|, |first|)
    ensures data[..take] + first[take..] + (data[take..] + rest[|data| - take..]) == data + (first + rest)[|data|..]
  {
    if take < |data| {
      assert first[take..] == [];
    } else {
      assert data[take..] == [] && data[..take] == data;
    }
  }

  /** What has been scattered so far: descriptors before index hold their new piece, the
      others their old one. */
  ghost predicate Scattered(iov: seq<Iovec>, pieces: seq<seq<byte>>, spread: seq<seq<byte>>, index: nat)
    reads Memory(iov)
  {
    && |iov| == |pieces| == |spread| && index <= |iov|
    && (forall i :: 0 <= i < index ==> Holds1(iov[i], spread[i]))
    && (forall i :: index <= i < |iov| ==> Holds1(iov[i], pieces[i]))
  }

  lemma SpreadLength(pieces: seq<seq<byte>>, data: seq<byte>)
    ensures |Spread(pieces, data)| == |pieces|
  {
  }

  /** Nothing left to lay down: nothing changes. */
  lemma {:induction false} SpreadNothing(pieces: seq<seq<byte>>)
    ensures Spread(pieces, []) == pieces
  {
    if pieces != [] {
      SpreadNothing(pieces[1..]);
      var none: seq<byte> := [];
      assert none[..0] + pieces[0][0..] == pieces[0] && none[0..] == none;
    }
  }

  method CopyOver(mem: array<byte>, data: seq<byte>, from: nat, take: nat)
    requires take <= mem.Length && from + take <= |data|
    modifies mem
    ensures mem[..] == data[from..from + take] + old(mem[..])[take..]
  {
    for k := 0 to take
      invariant forall i :: 0 <= i < k ==> mem[i] == data[from + i]
      invariant forall i :: k <= i < mem.Length ==> mem[i] == old(mem[i])
    {
      mem[k] := data[from + k];
    }
  }

  /** One descriptor takes its share. */
  method GiveTo(iov: seq<Iovec>, index: nat, data: seq<byte>, copied: nat, take: nat, ghost pieces: seq<seq<byte>>, ghost spread: seq<seq<byte>>)
    requires Apart(iov) && Scattered(iov, pieces, spread, index) && index < |iov| && copied + take <= |data|
    requires take <= |pieces[index]| && spread[index] == data[copied..copied + take] + pieces[index][take..]
    modifies Memory(iov)
    ensures Scattered(iov, pieces, spread, index + 1)
  {
    assert Holds1(iov[index], pieces[index]);
    if take > 0 {
      var mem := iov[index].mem;
      assert mem in Memory(iov);
      CopyOver(mem, data, copied, take);
      forall i | 0 <= i < |iov| && i != index
        ensures iov[i].Piece? ==> iov[i].mem != mem
      {
      }
    } else {
      assert data[copied..copied] + pieces[index][0..] == pieces[index];
    }
  }

  /** What is left to scatter. */
  ghost predicate ToScatter(iov: seq<Iovec>, pieces: seq<seq<byte>>, data: seq<byte>, spread: seq<seq<byte>>, index: nat, copied: nat) {
    && |iov| == |pieces| == |spread| && index <= |iov| && copied <= |data|
    && spread[index..] == Spread(pieces[index..], data[copied..]) && Covers(iov[index..], |data| - copied)
  }

  lemma ScatterTurn(iov: seq<Iovec>, pieces: seq<seq<byte>>, data: seq<byte>, spread: seq<seq<byte>>, index: nat, copied: nat, take: nat)
    requires ToScatter(iov, pieces, data, spread, index, copied) && index < |iov| && copied < |data| && take == Min(|data| - copied, Len(iov[index]))
    requires |pieces[index]| == if iov[index].Piece? then Len(iov[index]) else 0
    ensures take <= |pieces[index]| && spread[index] == data[copied..copied + take] + pieces[index][take..]
    ensures ToScatter(iov, pieces, data, spread, index + 1, copied + take)
  {
    TailsStep(iov, pieces, index);
    SpreadTurn(pieces, data, spread, index, copied, take);
  }

  method Scatter(iov: seq<Iovec>, data: seq<byte>, ghost pieces: seq<seq<byte>>) returns (copied: nat)
    requires Apart(iov) && Holds(iov, pieces) && |data| <= |Flatten(pieces)| && Covers(iov, |data|)
    modifies Memory(iov)
    ensures copied == |data| && Holds(iov, Spread(pieces, data))
  {
    ghost var spread := Spread(pieces, data);
    SpreadLength(pieces, data);
    copied := 0;
    var index: nat := 0;
    while index < |iov| && copied < |data|
      invariant Scattered(iov, pieces, spread, index) && ToScatter(iov, pieces, data, spread, index, copied)
    {
      var take := Min(|data| - copied, Len(iov[index]));
      assert Holds1(iov[index], pieces[index]);
      ScatterTurn(iov, pieces, data, spread, index, copied, take);
      GiveTo(iov, index, data, copied, take, pieces, spread);
      copied, index := copied + take, index + 1;
    }
    ScatterDone(iov, pieces, data, spread, index, copied);
  }

  lemma ScatterDone(iov: seq<Iovec>, pieces: seq<seq<byte>>, data: seq<byte>, spread: seq<seq<byte>>, index: nat, copied: nat)
    requires Scattered(iov, pieces, spread, index) && ToScatter(iov, pieces, data, spread, index, copied) && (index == |iov| || copied == |data|)
    ensures copied == |data| && Holds(iov, spread)
  {
    assert data[|data|..] == [];
    SpreadNothing(pieces[index..]);
    forall i | 0 <= i < |iov|
      ensures Holds1(iov[i], spread[i])
    {
      assert i >= index ==> spread[i] == spread[index..][i - index] == pieces[index..][i - index] == pieces[i];
    }
  }

  lemma SpreadTurn(pieces: seq<seq<byte>>, data: seq<byte>, spread: seq<seq<byte>>, index: nat, copied: nat, take: nat)
    requires index < |pieces| == |spread| && copied <= |data| && take == Min(|data| - copied, |pieces[index]|)
    requires spread[index..] == Spread(pieces[index..], data[copied..])
    ensures spread[index] == data[copied..copied + take] + pieces[index][take..]
    ensures spread[index + 1..] == Spread(pieces[index + 1..], data[copied + take..])
  {
    var p, d := pieces[index..], data[copied..];
    assert p[1..] == pieces[index + 1..] && d[take..] == data[copied + take..] && d[..take] == data[copied..copied + take];
    assert spread[index] == spread[index..][0] && spread[index + 1..] == spread[index..][1..];
  }

  // ---------------------------------------------------------------------------
  // rewrite_iovec_payload
  // ---------------------------------------------------------------------------

  method ArrayOf(data: seq<byte>) returns (a: array<byte>)
    ensures fresh(a) && a[..] == data
  {
    a := new byte[|data|](i requires 0 <= i < |data| => data[i]);
  }

  /** The netlink filter on the gathered bytes. */
  method FilterBytes(data: seq<byte>, indices: seq<nat>, uid: nat, vpn: seq<byte> -> bool) returns (r: seq<byte>)
    ensures r == Clean(data, indices, uid, vpn) && |r| <= |data|
  {
    var scratch := ArrayOf(data);
    var len := FilterNetlinkDump(scratch, |data|, indices, uid, vpn);
    assert data[..|data|] == data;
    r := scratch[..len];
  }

  lemma {:induction false} CoversLess(iov: seq<Iovec>, n: nat, m: nat)
    requires Covers(iov, n) && m <= n
    ensures Covers(iov, m)
  {
    if m > 0 {
      var l := Len(iov[0]);
      CoversLess(iov[1..], n - Min(n, l), m - Min(m, l));
    }
  }

  /** The caller's bytes, concatenated, become the filtered payload followed by every later
      byte as it was; `room` says whether the scratch allocation succeeds. None leaves memory
      alone. */
  method RewritePayload(iov: seq<Iovec>, n: nat, room: bool, indices: seq<nat>, uid: nat, vpn: seq<byte> -> bool, ghost pieces: seq<seq<byte>>)
    returns (r: Option<nat>, ghost pieces': seq<seq<byte>>)
    requires Apart(iov) && Holds(iov, pieces)
    modifies Memory(iov)
    ensures Holds(iov, pieces') && |pieces'| == |pieces| && forall i :: 0 <= i < |pieces| ==> |pieces'[i]| == |pieces[i]|
    ensures r.Some? <==> room && Covers(iov, n)
    ensures r.None? ==> pieces' == pieces
    ensures r.Some? ==> n <= |Flatten(pieces)| && r.value <= n && Rewritten(pieces, pieces', n, r.value, indices, uid, vpn)
  {
    if !room {
      return None, pieces;
    }
    var payload := Gather(iov, n, pieces);
    if payload.None? {
      return None, pieces;
    }
    var filtered := FilterBytes(payload.value, indices, uid, vpn);
    CoversLess(iov, n, |filtered|);
    var copied := Scatter(iov, filtered, pieces);
    SpreadFlattens(pieces, filtered);
    return Some(copied), Spread(pieces, filtered);
  }

  ghost predicate Rewritten(pieces: seq<seq<byte>>, pieces': seq<seq<byte>>, n: nat, m: nat, indices: seq<nat>, uid: nat, vpn: seq<byte> -> bool)
    requires n <= |Flatten(pieces)|
  {
    var before, after := Flatten(pieces), Flatten(pieces');
    m <= n && |after| == |before| && after[..m] == Clean(before[..n], indices, uid, vpn) && after[m..] == before[m..]
  }

  lemma SameFront(a: seq<byte>, b: seq<byte>, m: nat)
    requires m <= |a| == |b| && a[..m] == b[..m] && a[m..] == b[m..]
    ensures a == b
  {
    assert a == a[..m] + a[m..];
  }

  /** The split does not matter: the same bytes in other pieces become the same bytes. */
  lemma SplitInvariance(p: seq<seq<byte>>, p': seq<seq<byte>>, q: seq<seq<byte>>, q': seq<seq<byte>>, n: nat, i: nat, j: nat, indices: seq<nat>, uid: nat, vpn: seq<byte> -> bool)
    requires Flatten(p) == Flatten(q) && n <= |Flatten(p)|
    requires Rewritten(p, p', n, i, indices, uid, vpn) && Rewritten(q, q', n, j, indices, uid, vpn)
    ensures i == j && Flatten(p') == Flatten(q')
  {
    var clean := Clean(Flatten(p)[..n], indices, uid, vpn);
    assert i == |clean| == j;
    SameFront(Flatten(p'), Flatten(q'), i);
  }

  // ---------------------------------------------------------------------------
  // recvmsg
  // ---------------------------------------------------------------------------

  function Total(iov: seq<Iovec>): nat { if iov == [] then 0 else Total(iov[..|iov| - 1]) + Len(iov[|iov| - 1]) }

  predicate Bad(v: Iovec) { v.Null? && v.len > 0 }

  predicate AnyBad(iov: seq<Iovec>) { exists i :: 0 <= i < |iov| && Bad(iov[i]) }

  /** The saturating sum never loses a byte that was returned. */
  method PayloadLen(iov: seq<Iovec>, returned: nat) returns (r: Option<nat>)
    requires returned <= USIZE_MAX
    ensures r == if AnyBad(iov) then None else Some(Min(returned, Total(iov)))
  {
    var capacity: nat := 0;
    for index := 0 to |iov|
      invariant capacity == Min(Total(iov[..index]), USIZE_MAX) && !AnyBad(iov[..index])
    {
      if Len(iov[index]) > 0 && iov[index].Null? {
        return None;
      }
      assert iov[..index + 1][..index] == iov[..index];
      capacity := Min(capacity + Len(iov[index]), USIZE_MAX);
    }
    assert iov[..|iov|] == iov;
    r := Some(Min(returned, capacity));
  }

  lemma {:induction false} TotalCons(v: Iovec, rest: seq<Iovec>)
    ensures Total([v] + rest) == Len(v) + Total(rest)
  {
    if rest != [] {
      var m := |rest| - 1;
      assert ([v] + rest)[..m + 1] == [v] + rest[..m];
      TotalCons(v, rest[..m]);
    } else {
      assert ([v] + rest)[..0] == [];
    }
  }

  /** With no bad descriptor, everything up to the capacity is covered. */
  lemma {:induction false} GoodCovers(iov: seq<Iovec>, n: nat)
    requires !AnyBad(iov) && n <= Total(iov)
    ensures Covers(iov, n)
  {
    if n > 0 {
      assert iov == [iov[0]] + iov[1..];
      TotalCons(iov[0], iov[1..]);
      assert !Bad(iov[0]);
      forall i | 0 <= i < |iov[1..]|
        ensures !Bad(iov[1..][i])
      {
        assert iov[1..][i] == iov[i + 1];
      }
      GoodCovers(iov[1..], n - Min(n, Len(iov[0])));
    }
  }

  /** The message types a dump is filtered for. */
  predicate Filtered(kind: nat) { kind == NEWLINK || kind == NEWADDR || kind == NEWROUTE || kind == NEWRULE }

  /** maybe_filter_netlink_buf on a netlink socket outside the getifaddrs guard: a reply that
      starts with a message of another type is left alone. */
  method FilterReply(mem: array<byte>, n: nat, indices: seq<nat>, uid: nat, vpn: seq<byte> -> bool) returns (len: nat)
    requires n <= mem.Length
    modifies mem
    ensures var was := old(mem[..]);
            var kind := if n < 16 then 0 else U16(was, 4);
            if n < 16 || (kind != 16 && kind != 20 && kind != 24 && kind != 32) || indices == [] then len == n && mem[..] == was
            else len <= n && mem[..len] == Clean(was[..n], indices, uid, vpn) && mem[len..] == was[len..]
  {
    if n < HEADER {
      return n;
    }
    var kind := U16(mem[..], 4);
    if !Filtered(kind) || indices == [] {
      return n;
    }
    ghost var was := mem[..];
    len := FilterNetlinkDump(mem, n, indices, uid, vpn);
    assert was[..n] == old(mem[..n]);
  }

  /** hooked_recvmsg for one descriptor: the reply is filtered in place in its piece, and the
      result is lowered by exactly the bytes that were dropped. */
  method RecvmsgOne(v: Iovec, ret: nat, indices: seq<nat>, uid: nat, vpn: seq<byte> -> bool) returns (ret': nat)
    requires ret > 0
    modifies if v.Piece? then {v.mem} else {}
    ensures v.Null? ==> ret' == ret
    ensures v.Piece? ==>
              var was, n := old(v.mem[..]), Min(ret, v.mem.Length);
              var kind := if n < 16 then 0 else U16(was, 4);
              if n < 16 || (kind != 16 && kind != 20 && kind != 24 && kind != 32) || indices == [] then ret' == ret && v.mem[..] == was
              else
                && ret' <= ret && ret - ret' <= n
                && v.mem[..n - (ret - ret')] == Clean(was[..n], indices, uid, vpn) && v.mem[n - (ret - ret')..] == was[n - (ret - ret')..]
  {
    if v.Null? {
      return ret;
    }
    var inFirst := Min(ret, v.mem.Length);
    var filtered := FilterReply(v.mem, inFirst, indices, uid, vpn);
    ret' := ret - (inFirst - filtered);
  }

  /** Filtering in place in one piece is one way of rewriting: with SplitInvariance, the same
      bytes in any other pieces come out the same. */
  lemma OneIsRewritten(was: seq<byte>, now: seq<byte>, n: nat, m: nat, indices: seq<nat>, uid: nat, vpn: seq<byte> -> bool)
    requires m <= n <= |was| == |now| && now[..m] == Clean(was[..n], indices, uid, vpn) && now[m..] == was[m..]
    ensures Flatten([was]) == was && Rewritten([was], [now], n, m, indices, uid, vpn)
  {
    FlattenCons(was, []);
    FlattenCons(now, []);
    assert [was] + [] == [was] && [now] + [] == [now] && was + [] == was && now + [] == now;
    assert Flatten([]) == [];
  }

  /** hooked_recvmsg for several descriptors, after a real call returned `ret` bytes on a
      netlink socket. The result is lowered by exactly the bytes that were dropped, so with
      MSG_TRUNC (ret beyond the capacity) it still tells how much was cut off. */
  method Recvmsg(iov: seq<Iovec>, ret: nat, room: bool, indices: seq<nat>, uid: nat, vpn: seq<byte> -> bool, ghost pieces: seq<seq<byte>>)
    returns (ret': nat, ghost pieces': seq<seq<byte>>)
    requires Apart(iov) && Holds(iov, pieces) && 0 < ret <= USIZE_MAX
    modifies Memory(iov)
    ensures Holds(iov, pieces')
    ensures var n := Min(ret, Total(iov));
            if AnyBad(iov) || n < 16 || indices == [] || !room then ret' == ret && pieces' == pieces
            else n <= |Flatten(pieces)| && ret' <= ret && ret - ret' <= n && Rewritten(pieces, pieces', n, n - (ret - ret'), indices, uid, vpn)
  {
    pieces' := pieces;
    ret' := ret;
    var inIovecs := PayloadLen(iov, ret);
    if inIovecs.None? || inIovecs.value < HEADER || indices == [] {
      return;
    }
    GoodCovers(iov, inIovecs.value);
    var filtered;
    filtered, pieces' := RewritePayload(iov, inIovecs.value, room, indices, uid, vpn, pieces);
    if filtered.Some? {
      ret' := ret - (inIovecs.value - filtered.value);
    }
  }
}
