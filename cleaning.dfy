/** `clean_dataframe`: drop the rows whose every cell is empty, then drop the
    columns whose header begins with "Unnamed" (the names pandas invents for
    header cells left blank). Rows are judged with all their columns, before
    any column is dropped. */
module Cleaning {
  import opened Tables
  import opened Text

  predicate AllMissing(row: seq<Cell>) {
    forall j :: 0 <= j < |row| ==> row[j].Missing?
  }

  /** pandas `dropna` with `how="all"`: keeps the rows with some present cell. */
  function DropEmptyRows(rows: seq<seq<Cell>>): (r: seq<seq<Cell>>)
    ensures |r| <= |rows|
    ensures forall row :: row in r ==> row in rows && !AllMissing(row)
    ensures forall row :: row in rows && !AllMissing(row) ==> row in r
  {
    if rows == [] then []
    else (if AllMissing(rows[0]) then [] else [rows[0]]) + DropEmptyRows(rows[1..])
  }

  /** Dropping rows works row by row and keeps the survivors in their order:
      it distributes over concatenation (with the one-row case given by the
      definition, this determines the result completely). */
  lemma {:induction false} DropEmptyRowsAppend(a: seq<seq<Cell>>, b: seq<seq<Cell>>)
    ensures DropEmptyRows(a + b) == DropEmptyRows(a) + DropEmptyRows(b)
  {
    if a == [] {
      assert a + b == b;
    } else {
      var head := if AllMissing(a[0]) then [] else [a[0]];
      calc {
        DropEmptyRows(a + b);
        == { assert (a + b)[0] == a[0]; assert (a + b)[1..] == a[1..] + b; }
        head + DropEmptyRows(a[1..] + b);
        == { DropEmptyRowsAppend(a[1..], b); }
        head + (DropEmptyRows(a[1..]) + DropEmptyRows(b));
        ==
        (head + DropEmptyRows(a[1..])) + DropEmptyRows(b);
      }
    }
  }

  /** A single row is kept exactly when it is not empty. */
  lemma DropEmptyRowsSingle(row: seq<Cell>)
    ensures DropEmptyRows([row]) == if AllMissing(row) then [] else [row]
  {
    assert [row][1..] == [];
  }

  /** A table without empty rows loses none. */
  lemma {:induction false} DropEmptyRowsKeepsFull(rows: seq<seq<Cell>>)
    requires forall i :: 0 <= i < |rows| ==> !AllMissing(rows[i])
    ensures DropEmptyRows(rows) == rows
  {
    if rows != [] {
      DropEmptyRowsKeepsFull(rows[1..]);
    }
  }

  /** The regular expression `^Unnamed`: a case-sensitive prefix. */
  predicate IsUnnamed(h: string) {
    StartsWith(h, "Unnamed")
  }

  /** The headers that are not placeholders, in their order: the reference
      definition of the surviving header. */
  function NamedOnly(header: seq<string>): (r: seq<string>)
    ensures forall h :: h in r ==> h in header && !IsUnnamed(h)
  {
    if header == [] then []
    else
      var last := header[|header| - 1];
      NamedOnly(header[..|header| - 1]) + (if IsUnnamed(last) then [] else [last])
  }

  /** Positions of the columns that survive: exactly the non-placeholder
      ones, in increasing order. */
  function KeptColumns(header: seq<string>): (r: seq<nat>)
    ensures forall k :: 0 <= k < |r| ==> r[k] < |header|
    ensures forall k, l :: 0 <= k < l < |r| ==> r[k] < r[l]
    ensures forall j :: 0 <= j < |header| ==> (j in r <==> !IsUnnamed(header[j]))
  {
    if header == [] then []
    else
      var n := |header| - 1;
      KeptColumns(header[..n]) + (if IsUnnamed(header[n]) then [] else [n])
  }

  lemma {:induction false} KeptColumnsNames(header: seq<string>)
    ensures Select(header, KeptColumns(header)) == NamedOnly(header)
  {
    if header != [] {
      var n := |header| - 1;
      var front := header[..n];
      KeptColumnsNames(front);
      var cols := KeptColumns(front);
      var tail: seq<nat> := if IsUnnamed(header[n]) then [] else [n];
      assert KeptColumns(header) == cols + tail;
      SelectPrefix(header, n, cols);
      SelectAppend(header, cols, tail);
      assert Select(header, tail) == if IsUnnamed(header[n]) then [] else [header[n]];
    }
  }

  /** With no placeholder header in sight every column is kept. */
  lemma {:induction false} KeptColumnsAll(header: seq<string>)
    requires forall j :: 0 <= j < |header| ==> !IsUnnamed(header[j])
    ensures KeptColumns(header) == seq(|header|, j => j)
  {
    if header != [] {
      var n := |header| - 1;
      KeptColumnsAll(header[..n]);
    }
  }

  /** Keeps the columns whose header is not a placeholder, in every row. */
  function DropUnnamedColumns(t: Frame): Frame {
    var cols := KeptColumns(t.header);
    var rows := seq(|t.rows|, i requires 0 <= i < |t.rows| => Select(t.rows[i], cols));
    assert forall row :: row in rows ==> |row| == |cols|;
    Table(Select(t.header, cols), rows)
  }

  /** `clean_dataframe`. */
  function Clean(t: Frame): Frame {
    DropUnnamedColumns(Table(t.header, DropEmptyRows(t.rows)))
  }

  /** After cleaning no header begins with "Unnamed", and every other column
      is kept in its original order; the surviving rows are the non-empty rows
      of the input, in order, each restricted to the kept columns. */
  lemma CleanSpec(t: Frame)
    ensures Clean(t).header == NamedOnly(t.header)
    ensures forall h :: h in Clean(t).header ==> !IsUnnamed(h)
    ensures |Clean(t).rows| == |DropEmptyRows(t.rows)|
    ensures forall i :: 0 <= i < |Clean(t).rows| ==>
      Clean(t).rows[i] == Select(DropEmptyRows(t.rows)[i], KeptColumns(t.header))
  {
    KeptColumnsNames(t.header);
  }

  /** A table whose headers are all real names (as after lower-casing) loses
      no column when cleaned again; only its empty rows go. */
  lemma CleanNamedTable(t: Frame)
    requires forall j :: 0 <= j < |t.header| ==> !IsUnnamed(t.header[j])
    ensures Clean(t) == Table(t.header, DropEmptyRows(t.rows))
  {
    CleanSpec(t);
    KeptColumnsAll(t.header);
    var cols := KeptColumns(t.header);
    var rows := DropEmptyRows(t.rows);
    var c := Clean(t);
    KeptColumnsNames(t.header);
    SelectAll(t.header, cols);
    forall i | 0 <= i < |rows| ensures c.rows[i] == rows[i] {
      assert rows[i] in t.rows;
      SelectAll(rows[i], cols);
    }
  }

  /** "qty" is a real header and "Unnamed: 1" a placeholder. */
  lemma HeaderExamples()
    ensures !IsUnnamed("qty") && IsUnnamed("Unnamed: 1")
  {
    var u := "Unnamed: 1";
    assert u[..7] == "Unnamed" by {
      forall k | 0 <= k < 7 ensures u[..7][k] == "Unnamed"[k] { }
    }
  }

  /** The column positions kept from a real header followed by a placeholder. */
  lemma NamedThenUnnamedKept(q: string, u: string)
    requires !IsUnnamed(q) && IsUnnamed(u)
    ensures KeptColumns([q, u]) == [0]
    ensures KeptColumns([q]) == [0]
  {
    var h := [q, u];
    assert h[1] == u && h[..1] == [q];
    assert KeptColumns([q][..0]) == [];
    assert KeptColumns([q]) == [0];
  }

  /** A one-row table whose row is not empty keeps its row: cleaning it only
      drops columns. */
  lemma CleanOneFullRow(t: Frame)
    requires |t.rows| == 1 && !AllMissing(t.rows[0])
    ensures Clean(t) == DropUnnamedColumns(t)
  {
    DropEmptyRowsSingle(t.rows[0]);
    assert t.rows == [t.rows[0]];
  }

  /** First pass of the example below: a row whose only value sits in a
      dropped column survives, emptied. */
  lemma CleanKeepsHiddenValueRow(t: Frame)
    requires KeptColumns(t.header) == [0]
    requires t.rows == [[Missing, Num(7)]]
    ensures Clean(t) == Table([t.header[0]], [[Missing]])
  {
    assert !AllMissing(t.rows[0]) by {
      assert !t.rows[0][1].Missing?;
    }
    CleanOneFullRow(t);
    var c := DropUnnamedColumns(t);
    assert c.header == [t.header[0]] by {
      assert Select(t.header, [0]) == [t.header[0]];
    }
    assert c.rows == [[Missing]] by {
      assert c.rows[0] == Select(t.rows[0], [0]);
      assert Select(t.rows[0], [0]) == [Missing];
    }
  }

  /** Second pass of the example below: the now empty row is dropped. */
  lemma CleanDropsEmptiedRow(c: Frame)
    requires KeptColumns(c.header) == [0]
    requires c.rows == [[Missing]]
    ensures Clean(c) == Table([c.header[0]], [])
  {
    assert AllMissing(c.rows[0]);
    DropEmptyRowsSingle(c.rows[0]);
    var e: Frame := Table(c.header, []);
    assert Clean(c) == DropUnnamedColumns(e);
    assert Select(c.header, [0]) == [c.header[0]];
  }

  /** Cleaning is not idempotent: a row whose only value sits in an "Unnamed"
      column survives the first pass and is empty, hence dropped, on the
      second. */
  lemma CleanNotIdempotent(t: Frame)
    requires t == Table(["qty", "Unnamed: 1"], [[Missing, Num(7)]])
    ensures Clean(Clean(t)) != Clean(t)
  {
    HeaderExamples();
    NamedThenUnnamedKept("qty", "Unnamed: 1");
    CleanKeepsHiddenValueRow(t);
    CleanDropsEmptiedRow(Clean(t));
  }
}
