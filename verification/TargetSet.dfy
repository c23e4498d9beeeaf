/** The sorted-on-parse target set: an array kept strictly ascending by uid, standing for
    the map in which the last record of a uid wins. */
module TargetSet {

  datatype Target = Target(uid: nat, mask: nat)

  predicate Sorted(s: seq<Target>) {
    forall i, j :: 0 <= i < j < |s| ==> s[i].uid < s[j].uid
  }

  /** s holds exactly the pairs of m. */
  ghost predicate Represents(s: seq<Target>, m: map<nat, nat>) {
    && (forall i :: 0 <= i < |s| ==> s[i].uid in m && m[s[i].uid] == s[i].mask)
    && (forall u :: u in m ==> Lists(s, u))
  }

  ghost predicate Lists(s: seq<Target>, uid: nat) { exists i :: 0 <= i < |s| && s[i].uid == uid }

  /** The map built from records left to right, the last one for a uid winning. */
  function MapOf(records: seq<Target>): map<nat, nat> {
    if records == [] then map[]
    else var r := records[|records| - 1]; MapOf(records[..|records| - 1])[r.uid := r.mask]
  }

  /** Where a uid's deciding record is: no later record names it. */
  ghost predicate LastRecord(records: seq<Target>, uid: nat, i: int) {
    0 <= i < |records| && records[i].uid == uid && forall j :: i < j < |records| ==> records[j].uid != uid
  }

  lemma {:induction false} LastRecordWins(records: seq<Target>, uid: nat)
    ensures uid in MapOf(records) <==> exists i :: LastRecord(records, uid, i)
    ensures forall i :: LastRecord(records, uid, i) ==> uid in MapOf(records) && MapOf(records)[uid] == records[i].mask
  {
    if records != [] {
      var n := |records| - 1;
      var front := records[..n];
      LastRecordWins(front, uid);
      if records[n].uid == uid {
        assert LastRecord(records, uid, n);
      } else {
        forall i
          ensures LastRecord(front, uid, i) <==> LastRecord(records, uid, i)
        {
          if LastRecord(records, uid, i) {
            assert forall j :: i < j < n ==> front[j] == records[j];
          }
        }
      }
    }
  }

  lemma MapOfAppend(records: seq<Target>, uid: nat, mask: nat)
    ensures MapOf(records + [Target(uid, mask)]) == MapOf(records)[uid := mask]
  {
    assert (records + [Target(uid, mask)])[..|records|] == records;
  }

  /** A map has one strictly ascending listing. */
  lemma {:induction false} SortedListUnique(s: seq<Target>, t: seq<Target>, m: map<nat, nat>)
    requires Sorted(s) && Sorted(t) && Represents(s, m) && Represents(t, m)
    ensures s == t
  {
    EmptyTogether(s, t, m);
    EmptyTogether(t, s, m);
    if s != [] {
      SameHead(s, t, m);
      SameHead(t, s, m);
      var u := s[0].uid;
      DropHead(s, m);
      DropHead(t, m);
      SortedListUnique(s[1..], t[1..], m - {u});
      assert s == [s[0]] + s[1..] && t == [t[0]] + t[1..];
    }
  }

  lemma EmptyTogether(s: seq<Target>, t: seq<Target>, m: map<nat, nat>)
    requires Represents(s, m) && Represents(t, m)
    ensures s != [] ==> t != []
  {
    if s != [] {
      assert s[0].uid in m && Lists(t, s[0].uid);
      var i :| 0 <= i < |t| && t[i].uid == s[0].uid;
    }
  }

  lemma SameHead(s: seq<Target>, t: seq<Target>, m: map<nat, nat>)
    requires Sorted(s) && Sorted(t) && Represents(s, m) && Represents(t, m) && s != [] && t != []
    ensures s[0].uid <= t[0].uid && (s[0].uid == t[0].uid ==> s[0] == t[0])
  {
    assert t[0].uid in m && Lists(s, t[0].uid);
    var i :| 0 <= i < |s| && s[i].uid == t[0].uid;
  }

  lemma DropHead(s: seq<Target>, m: map<nat, nat>)
    requires Sorted(s) && Represents(s, m) && s != []
    ensures Sorted(s[1..]) && Represents(s[1..], m - {s[0].uid})
  {
    var m' := m - {s[0].uid};
    forall u | u in m'
      ensures Lists(s[1..], u)
    {
      assert Lists(s, u);
      var i :| 0 <= i < |s| && s[i].uid == u;
      assert s[1..][i - 1].uid == u;
    }
  }

  /** Sorted lists have as many entries as the map has keys. */
  lemma {:induction false} SortedListSize(s: seq<Target>, m: map<nat, nat>)
    requires Sorted(s) && Represents(s, m)
    ensures |s| == |m|
  {
    if s == [] {
      assert m.Keys == {};
    } else {
      DropHead(s, m);
      SortedListSize(s[1..], m - {s[0].uid});
      assert m.Keys == (m - {s[0].uid}).Keys + {s[0].uid};
    }
  }

  lemma RepresentsUpdate(s: seq<Target>, m: map<nat, nat>, k: nat, mask: nat)
    requires Sorted(s) && Represents(s, m) && k < |s|
    ensures var t := s[k := Target(s[k].uid, mask)]; Sorted(t) && Represents(t, m[s[k].uid := mask])
  {
    var t := s[k := Target(s[k].uid, mask)];
    forall u | u in m
      ensures Lists(t, u)
    {
      assert Lists(s, u);
      var i :| 0 <= i < |s| && s[i].uid == u;
      assert t[i].uid == u;
    }
  }

  function Inserted(s: seq<Target>, k: nat, x: Target): (t: seq<Target>)
    requires k <= |s|
    ensures |t| == |s| + 1 && t[k] == x
    ensures forall i :: 0 <= i < k ==> t[i] == s[i]
    ensures forall i :: k < i <= |s| ==> t[i] == s[i - 1]
  {
    s[..k] + [x] + s[k..]
  }

  /** uid belongs between s[..k] and s[k..]. */
  ghost predicate Gap(s: seq<Target>, k: nat, uid: nat)
    requires k <= |s|
  {
    (forall i :: 0 <= i < k ==> s[i].uid < uid) && (forall i :: k <= i < |s| ==> uid < s[i].uid)
  }

  lemma SortedInsert(s: seq<Target>, k: nat, x: Target)
    requires Sorted(s) && k <= |s| && Gap(s, k, x.uid)
    ensures Sorted(Inserted(s, k, x))
  {
  }

  lemma GapIsNew(s: seq<Target>, m: map<nat, nat>, k: nat, uid: nat)
    requires Represents(s, m) && k <= |s| && Gap(s, k, uid)
    ensures uid !in m
  {
  }

  lemma RepresentsInsert(s: seq<Target>, m: map<nat, nat>, k: nat, x: Target)
    requires Represents(s, m) && k <= |s| && x.uid !in m
    ensures Represents(Inserted(s, k, x), m[x.uid := x.mask])
  {
    var t, m' := Inserted(s, k, x), m[x.uid := x.mask];
    forall i | 0 <= i < |t|
      ensures t[i].uid in m' && m'[t[i].uid] == t[i].mask
    {
      if i != k {
        var j := if i < k then i else i - 1;
        assert t[i] == s[j] && s[j].uid in m;
      }
    }
    forall u | u in m'
      ensures Lists(t, u)
    {
      if u == x.uid {
        assert t[k].uid == u;
      } else {
        var i :| 0 <= i < |s| && s[i].uid == u;
        var j := if i < k then i else i + 1;
        assert t[j] == s[i];
      }
    }
  }

  /** Bisection over a strictly ascending list: the index of uid, or where it belongs. */
  method Bisect(out: array<Target>, n: nat, uid: nat) returns (found: bool, pos: nat)
    requires n <= out.Length && Sorted(out[..n])
    ensures pos <= n
    ensures found ==> pos < n && out[pos].uid == uid
    ensures !found ==> Gap(out[..n], pos, uid)
  {
    var lo, hi := 0, n - 1;
    assert forall i, j :: 0 <= i < j < n ==> out[..n][i].uid < out[..n][j].uid;
    while lo <= hi
      invariant 0 <= lo <= n && -1 <= hi < n && lo <= hi + 1
      invariant forall i :: 0 <= i < lo ==> out[i].uid < uid
      invariant forall i :: hi < i < n ==> uid < out[i].uid
    {
      var mid := lo + (hi - lo) / 2;
      if out[mid].uid == uid {
        return true, mid;
      }
      if out[mid].uid < uid {
        lo := mid + 1;
      } else {
        hi := mid - 1;
      }
    }
    return false, lo;
  }

  /** Shift out[pos..n] up by one and put `t` in the gap. */
  method InsertAt(out: array<Target>, n: nat, pos: nat, t: Target)
    requires pos <= n < out.Length
    modifies out
    ensures out[..n + 1] == Inserted(old(out[..n]), pos, t)
    ensures forall i :: n < i < out.Length ==> out[i] == old(out[i])
  {
    ghost var s := out[..n];
    var k := n;
    while k > pos
      invariant pos <= k <= n
      invariant forall i :: 0 <= i < k ==> out[i] == s[i]
      invariant forall i :: k < i <= n ==> out[i] == s[i - 1]
      invariant forall i :: n < i < out.Length ==> out[i] == old(out[i])
    {
      out[k] := out[k - 1];
      k := k - 1;
    }
    out[pos] := t;
    assert out[..n + 1] == Inserted(s, pos, t);
  }

  method Overwrite(out: array<Target>, n: nat, pos: nat, mask: nat, ghost m: map<nat, nat>)
    requires pos < n <= out.Length && Sorted(out[..n]) && Represents(out[..n], m)
    modifies out
    ensures Sorted(out[..n]) && Represents(out[..n], m[old(out[pos]).uid := mask])
  {
    ghost var s := out[..n];
    RepresentsUpdate(s, m, pos, mask);
    out[pos] := Target(out[pos].uid, mask);
    assert out[..n] == s[pos := Target(s[pos].uid, mask)];
  }

  /** vpnhide_target_set: overwrite or insert; refuses exactly a new uid in a full set, and
      then leaves the array alone. */
  method Put(out: array<Target>, n: nat, max: nat, uid: nat, mask: nat, ghost m: map<nat, nat>) returns (ok: bool, n': nat)
    requires n <= max <= out.Length && Sorted(out[..n]) && Represents(out[..n], m)
    modifies out
    ensures ok <==> uid in m || n < max
    ensures ok ==> n' <= max && Sorted(out[..n']) && Represents(out[..n'], m[uid := mask])
    ensures !ok ==> n' == n && out[..] == old(out[..])
  {
    var found, pos := Bisect(out, n, uid);
    if found {
      assert out[..n][pos].uid in m;
      Overwrite(out, n, pos, mask, m);
      return true, n;
    }
    GapIsNew(out[..n], m, pos, uid);
    if n >= max {
      return false, n;
    }
    RepresentsInsert(out[..n], m, pos, Target(uid, mask));
    SortedInsert(out[..n], pos, Target(uid, mask));
    InsertAt(out, n, pos, Target(uid, mask));
    return true, n + 1;
  }
}
