/** The /proc/net tables as the kernel prints them, one line per row with the interface in the
    first or the last column: both line filters remove exactly the rows of VPN interfaces. */
module ProcTables {
  import opened Bytes
  import opened Compaction
  import opened ProcLines

  /** A row: its interface and the other columns. */
  datatype Row = Row(name: seq<byte>, others: seq<byte>)

  /** A name has no NUL, tab, newline, CR or space and is shorter than 16; in the last column it
      is not empty. The other columns stay on one line. */
  predicate RowOk(field: Field, r: Row) {
    && |r.name| < 16 && (field.Last? ==> r.name != [])
    && (forall i :: 0 <= i < |r.name| ==> r.name[i] != 0 && r.name[i] != 9 && r.name[i] != 10 && r.name[i] != 13 && r.name[i] != 32)
    && forall i :: 0 <= i < |r.others| ==> r.others[i] != 10
  }

  /** The interface before a tab, or after a space. */
  function RowBytes(field: Field, r: Row): seq<byte> {
    if field.First? then r.name + [9] + r.others + [10] else r.others + [32] + r.name + [10]
  }

  predicate AllOk(field: Field, rows: seq<Row>) { forall i :: 0 <= i < |rows| ==> RowOk(field, rows[i]) }

  function TableBytes(field: Field, rows: seq<Row>): seq<byte> {
    if rows == [] then [] else RowBytes(field, rows[0]) + TableBytes(field, rows[1..])
  }

  predicate OfVpn(r: Row, vpn: seq<byte> -> bool) { r.name != [] && vpn(r.name) }

  function VisibleRows(rows: seq<Row>, vpn: seq<byte> -> bool): seq<Row> {
    if rows == [] then [] else (if OfVpn(rows[0], vpn) then [] else [rows[0]]) + VisibleRows(rows[1..], vpn)
  }

  /** The first field of a line is what stands before its first tab. */
  lemma FirstIs(name: seq<byte>, rest: seq<byte>)
    requires forall i :: 0 <= i < |name| ==> name[i] != 9 && name[i] != 10
    ensures FirstField(name + [9] + rest) == name
  {
    var line := name + [9] + rest;
    assert line[|name|] == 9 && forall i :: 0 <= i < |name| ==> line[i] == name[i];
    assert Before(line, EndsFirst) == |name|;
  }

  /** The last field of a line is what stands after its last space. */
  lemma LastIs(others: seq<byte>, name: seq<byte>, ws: byte -> bool)
    requires name != [] && (forall i :: 0 <= i < |name| ==> name[i] != 9 && name[i] != 32) && !ws(name[|name| - 1]) && ws(10)
    ensures LastField(others + [32] + name + [10], ws) == name
  {
    var front := others + [32] + name;
    var line := front + [10];
    TrimIs(line, ws, |front|);
    assert line[..|front|] == front;
    assert front[|others|] == 32 && forall i :: |others| < i < |front| ==> front[i] == name[i - |others| - 1];
    LastRunIs(front, Blank, |others| + 1);
  }

  lemma NoNul(name: seq<byte>)
    requires forall i :: 0 <= i < |name| ==> name[i] != 0
    ensures CString(name) == name
  {
    assert Before(name, Nul) == |name|;
  }

  /** Both filters see the interface of the row. */
  lemma FieldIsName(field: Field, r: Row)
    requires RowOk(field, r)
    ensures RustField(field, RowBytes(field, r)) == r.name && CField(field, RowBytes(field, r)) == r.name
  {
    if field.First? {
      assert r.name + [9] + r.others + [10] == r.name + [9] + (r.others + [10]);
      FirstIs(r.name, r.others + [10]);
    } else {
      LastIs(r.others, r.name, TrimmedByRust);
      LastIs(r.others, r.name, TrimmedByC);
    }
  }

  lemma DropsVpn(field: Field, r: Row, vpn: seq<byte> -> bool)
    requires RowOk(field, r)
    ensures RustDrops(field, vpn)(RowBytes(field, r)) == OfVpn(r, vpn) && CDrops(field, vpn)(RowBytes(field, r)) == OfVpn(r, vpn)
  {
    FieldIsName(field, r);
    NoNul(r.name);
  }

  lemma RowIsLine(field: Field, r: Row, more: seq<byte>, b: seq<byte>, s: seq<byte>)
    requires RowOk(field, r) && b == RowBytes(field, r) && s == b + more
    ensures LineCut(s) == |b|
  {
    var n := |b| - 1;
    assert s[n] == 10 && forall i :: 0 <= i < n ==> s[i] == b[i] && b[i] != 10;
    LineCutIs(s, n);
  }

  lemma RowStep(field: Field, r: Row, more: seq<byte>, b: seq<byte>, s: seq<byte>, drop: seq<byte> -> bool, hidden: bool)
    requires RowOk(field, r) && b == RowBytes(field, r) && s == b + more && drop(b) == hidden
    ensures Filter(LineCut, drop, s) == (if hidden then [] else b) + Filter(LineCut, drop, more)
  {
    RowIsLine(field, r, more, b, s);
    FilterStep(LineCut, drop, s);
    assert s[..|b|] == b && s[|b|..] == more;
  }

  lemma VisibleStep(field: Field, r: Row, rest: seq<Row>, vpn: seq<byte> -> bool)
    ensures TableBytes(field, VisibleRows([r] + rest, vpn)) == (if OfVpn(r, vpn) then [] else RowBytes(field, r)) + TableBytes(field, VisibleRows(rest, vpn))
  {
    var left := VisibleRows(rest, vpn);
    assert ([r] + rest)[1..] == rest;
    if OfVpn(r, vpn) {
      assert VisibleRows([r] + rest, vpn) == left;
    } else {
      assert ([r] + left)[1..] == left;
    }
  }

  /** drop judges the rows of a table by their interface. */
  ghost predicate Judges(field: Field, rows: seq<Row>, vpn: seq<byte> -> bool, drop: seq<byte> -> bool) {
    forall i :: 0 <= i < |rows| ==> drop(RowBytes(field, rows[i])) == OfVpn(rows[i], vpn)
  }

  lemma {:induction false} TableFiltered(field: Field, rows: seq<Row>, tail: seq<byte>, vpn: seq<byte> -> bool, drop: seq<byte> -> bool)
    requires AllOk(field, rows) && Judges(field, rows, vpn, drop)
    ensures Filter(LineCut, drop, TableBytes(field, rows) + tail) == TableBytes(field, VisibleRows(rows, vpn)) + Filter(LineCut, drop, tail)
    decreases |rows|
  {
    if rows == [] {
      assert TableBytes(field, rows) + tail == tail;
    } else {
      var r, rest := rows[0], rows[1..];
      var b, more := RowBytes(field, r), TableBytes(field, rest);
      assert rows == [r] + rest;
      TableFiltered(field, rest, tail, vpn, drop);
      Regroup(b, more, tail);
      RowStep(field, r, more + tail, b, TableBytes(field, rows) + tail, drop, OfVpn(r, vpn));
      VisibleStep(field, r, rest, vpn);
      Regroup(if OfVpn(r, vpn) then [] else b, TableBytes(field, VisibleRows(rest, vpn)), Filter(LineCut, drop, tail));
    }
  }

  /** Filtering a table leaves exactly the rows of other interfaces, byte for byte and in order,
      then whatever follows them, in process and in the kernel. */
  lemma TablesAreFiltered(field: Field, rows: seq<Row>, tail: seq<byte>, vpn: seq<byte> -> bool)
    requires AllOk(field, rows)
    ensures Filter(LineCut, RustDrops(field, vpn), TableBytes(field, rows) + tail) ==
            TableBytes(field, VisibleRows(rows, vpn)) + Filter(LineCut, RustDrops(field, vpn), tail)
    ensures Filter(LineCut, CDrops(field, vpn), TableBytes(field, rows) + tail) ==
            TableBytes(field, VisibleRows(rows, vpn)) + Filter(LineCut, CDrops(field, vpn), tail)
  {
    forall i | 0 <= i < |rows|
      ensures RustDrops(field, vpn)(RowBytes(field, rows[i])) == OfVpn(rows[i], vpn)
      ensures CDrops(field, vpn)(RowBytes(field, rows[i])) == OfVpn(rows[i], vpn)
    {
      DropsVpn(field, rows[i], vpn);
    }
    TableFiltered(field, rows, tail, vpn, RustDrops(field, vpn));
    TableFiltered(field, rows, tail, vpn, CDrops(field, vpn));
  }
}
