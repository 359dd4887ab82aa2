/** The reconciliation half of `upload_files`: lower-case headers, check the
    required columns, left-join the target table B onto the reference table A
    on (item, description, materials), fill "c/kg" and "rate" from the match,
    blank the rate of pipe rows, and keep only B's columns. */
module Reconciliation {
  import opened Tables
  import opened Text

  /** The columns whose absence is reported to the client, in checking order. */
  const RequiredColumns: seq<string> := ["c/kg", "rate"]
  /** The join key. */
  const MergeColumns: seq<string> := ["item", "description", "materials"]

  /** Lower-cases every header label, keeping the rows. */
  function LowerHeader(t: Frame): (r: Frame)
    ensures r.rows == t.rows && |r.header| == |t.header|
    ensures forall j :: 0 <= j < |t.header| ==> r.header[j] == Lower(t.header[j])
  {
    Table(seq(|t.header|, j requires 0 <= j < |t.header| => Lower(t.header[j])), t.rows)
  }

  /** The first of `cols`, in order, that is absent from `h1` or from `h2`. */
  function FirstMissing(cols: seq<string>, h1: seq<string>, h2: seq<string>): (r: Option<string>)
    ensures r.None? <==> forall k :: 0 <= k < |cols| ==> cols[k] in h1 && cols[k] in h2
    ensures r.Some? ==> exists k :: (0 <= k < |cols| && cols[k] == r.value
      && (r.value !in h1 || r.value !in h2)
      && forall j :: 0 <= j < k ==> cols[j] in h1 && cols[j] in h2)
  {
    if cols == [] then None
    else if cols[0] !in h1 || cols[0] !in h2 then Some(cols[0])
    else FirstMissing(cols[1..], h1, h2)
  }

  /** The loop over the required columns with its early return. */
  method CheckRequired(h1: seq<string>, h2: seq<string>) returns (missing: Option<string>)
    ensures missing == FirstMissing(RequiredColumns, h1, h2)
  {
    var i := 0;
    while i < |RequiredColumns|
      invariant 0 <= i <= |RequiredColumns|
      invariant FirstMissing(RequiredColumns[i..], h1, h2) == FirstMissing(RequiredColumns, h1, h2)
    {
      var col := RequiredColumns[i];
      if col !in h1 || col !in h2 {
        return Some(col);
      }
      assert RequiredColumns[i..][1..] == RequiredColumns[i + 1..];
      i := i + 1;
    }
    return None;
  }

  /** Every column the reconciliation reads. */
  predicate HasColumns(h: seq<string>) {
    "c/kg" in h && "rate" in h && "item" in h && "description" in h && "materials" in h
  }

  /** Both tables passed the required-column check and hold the join key. */
  predicate Ready(a: Frame, b: Frame) {
    HasColumns(a.header) && HasColumns(b.header)
  }

  /** Passing both checks of the handler is exactly being ready to merge. */
  lemma ReadyIffChecksPass(a: Frame, b: Frame)
    ensures Ready(a, b) <==>
      FirstMissing(RequiredColumns, a.header, b.header).None? &&
      FirstMissing(MergeColumns, b.header, a.header).None?
  {
    var r1 := FirstMissing(RequiredColumns, a.header, b.header);
    var r2 := FirstMissing(MergeColumns, b.header, a.header);
    if Ready(a, b) {
      assert r1.None? by {
        assert forall k :: 0 <= k < 2 ==> RequiredColumns[k] in a.header && RequiredColumns[k] in b.header;
      }
      assert r2.None? by {
        assert forall k :: 0 <= k < 3 ==> MergeColumns[k] in b.header && MergeColumns[k] in a.header;
      }
    }
    if r1.None? && r2.None? {
      assert RequiredColumns[0] in a.header && RequiredColumns[1] in a.header;
      assert MergeColumns[0] in a.header && MergeColumns[1] in a.header && MergeColumns[2] in a.header;
    }
  }

  /** Position of a column known to be present (the first one of that name). */
  function Col(h: seq<string>, name: string): (j: nat)
    requires name in h
    ensures j < |h| && h[j] == name
  {
    IndexOf(h, name).value
  }

  /** Positions of the join-key columns. */
  function KeyColumns(h: seq<string>): (r: seq<nat>)
    requires HasColumns(h)
    ensures |r| == 3 && forall k :: 0 <= k < 3 ==> r[k] < |h| && h[r[k]] == MergeColumns[k]
  {
    var r := [Col(h, "item"), Col(h, "description"), Col(h, "materials")];
    assert MergeColumns == ["item", "description", "materials"];
    r
  }

  /** The join key of a row. */
  function KeyOf(row: seq<Cell>, cols: seq<nat>): seq<Cell> {
    seq(|cols|, k requires 0 <= k < |cols| => At(row, cols[k]))
  }

  /** The rows of A whose key equals `key`, exactly and case-sensitively. */
  function Matches(aRows: seq<seq<Cell>>, aKeys: seq<nat>, key: seq<Cell>): (r: seq<seq<Cell>>)
    ensures |r| <= |aRows|
    ensures forall row :: row in r ==> row in aRows && KeyOf(row, aKeys) == key
    ensures forall row :: row in aRows && KeyOf(row, aKeys) == key ==> row in r
  {
    if aRows == [] then []
    else (if KeyOf(aRows[0], aKeys) == key then [aRows[0]] else []) + Matches(aRows[1..], aKeys, key)
  }

  /** The matches come in A's order. */
  lemma {:induction false} MatchesAppend(a1: seq<seq<Cell>>, a2: seq<seq<Cell>>, aKeys: seq<nat>, key: seq<Cell>)
    ensures Matches(a1 + a2, aKeys, key) == Matches(a1, aKeys, key) + Matches(a2, aKeys, key)
  {
    if a1 == [] {
      assert a1 + a2 == a2;
    } else {
      var head := if KeyOf(a1[0], aKeys) == key then [a1[0]] else [];
      calc {
        Matches(a1 + a2, aKeys, key);
        == { assert (a1 + a2)[0] == a1[0]; assert (a1 + a2)[1..] == a1[1..] + a2; }
        head + Matches(a1[1..] + a2, aKeys, key);
        == { MatchesAppend(a1[1..], a2, aKeys, key); }
        head + (Matches(a1[1..], aKeys, key) + Matches(a2, aKeys, key));
        ==
        (head + Matches(a1[1..], aKeys, key)) + Matches(a2, aKeys, key);
      }
    }
  }

  /** No two rows share a join key. */
  predicate UniqueKeys(rows: seq<seq<Cell>>, cols: seq<nat>) {
    forall i, j :: 0 <= i < j < |rows| ==> KeyOf(rows[i], cols) != KeyOf(rows[j], cols)
  }

  /** A key no row carries has no match. */
  lemma {:induction false} MatchesNone(aRows: seq<seq<Cell>>, aKeys: seq<nat>, key: seq<Cell>)
    requires forall row :: row in aRows ==> KeyOf(row, aKeys) != key
    ensures Matches(aRows, aKeys, key) == []
  {
    if aRows != [] {
      assert aRows[0] in aRows;
      MatchesNone(aRows[1..], aKeys, key);
    }
  }

  lemma {:induction false} MatchesUnique(aRows: seq<seq<Cell>>, aKeys: seq<nat>, key: seq<Cell>)
    requires UniqueKeys(aRows, aKeys)
    ensures |Matches(aRows, aKeys, key)| <= 1
  {
    if aRows != [] {
      var rest := aRows[1..];
      assert UniqueKeys(rest, aKeys) by {
        forall i, j | 0 <= i < j < |rest| ensures KeyOf(rest[i], aKeys) != KeyOf(rest[j], aKeys) {
          assert rest[i] == aRows[i + 1] && rest[j] == aRows[j + 1];
        }
      }
      MatchesUnique(rest, aKeys, key);
      if KeyOf(aRows[0], aKeys) == key {
        forall row | row in rest ensures KeyOf(row, aKeys) != key {
          var j :| 0 <= j < |rest| && rest[j] == row;
          assert aRows[j + 1] == row;
        }
        MatchesNone(rest, aKeys, key);
      }
    }
  }

  /** The match a B row finds in A: the first A row carrying its key (the
      only one when keys are unique, by `MatchOfFirst`). */
  function MatchOf(aRows: seq<seq<Cell>>, aKeys: seq<nat>, key: seq<Cell>): (r: Option<seq<Cell>>)
    ensures r.Some? ==> r.value in aRows && KeyOf(r.value, aKeys) == key
    ensures r.None? <==> forall row :: row in aRows ==> KeyOf(row, aKeys) != key
  {
    var ms := Matches(aRows, aKeys, key);
    if ms == [] then None
    else assert ms[0] in ms; Some(ms[0])
  }

  /** The match found is the first A row, in A's order, with the key. */
  lemma {:induction false} MatchOfFirst(aRows: seq<seq<Cell>>, aKeys: seq<nat>, key: seq<Cell>)
    ensures MatchOf(aRows, aKeys, key).Some? ==>
      exists i :: 0 <= i < |aRows| && aRows[i] == MatchOf(aRows, aKeys, key).value &&
        forall k :: 0 <= k < i ==> KeyOf(aRows[k], aKeys) != key
  {
    var m := MatchOf(aRows, aKeys, key);
    if aRows != [] && m.Some? {
      if KeyOf(aRows[0], aKeys) == key {
        assert Matches(aRows, aKeys, key)[0] == aRows[0];
        assert aRows[0] == m.value;
      } else {
        var rest := aRows[1..];
        assert Matches(aRows, aKeys, key) == Matches(rest, aKeys, key);
        assert MatchOf(rest, aKeys, key) == m;
        MatchOfFirst(rest, aKeys, key);
        var i :| 0 <= i < |rest| && rest[i] == m.value &&
          forall k :: 0 <= k < i ==> KeyOf(rest[k], aKeys) != key;
        assert aRows[i + 1] == m.value;
        forall k | 0 <= k < i + 1 ensures KeyOf(aRows[k], aKeys) != key {
          if k > 0 {
            assert aRows[k] == rest[k - 1];
          }
        }
      }
    }
  }

  /** One row of the merged frame: B's row and the matched A row, if any.
      The A part stands for the columns that `merge` brings in, A's "c/kg"
      and "rate" under the names "c/kg_filled" and "rate_filled". */
  datatype Joined = Joined(left: seq<Cell>, right: Option<seq<Cell>>)

  /** The merged rows one B row yields: one per match, or one without. */
  function JoinRow(b: seq<Cell>, aRows: seq<seq<Cell>>, bKeys: seq<nat>, aKeys: seq<nat>): seq<Joined> {
    var ms := Matches(aRows, aKeys, KeyOf(b, bKeys));
    if ms == [] then [Joined(b, None)]
    else seq(|ms|, k requires 0 <= k < |ms| => Joined(b, Some(ms[k])))
  }

  /** pandas left `merge` of B with A on the three key columns: B row by B
      row, in B's order. */
  function Join(bRows: seq<seq<Cell>>, aRows: seq<seq<Cell>>, bKeys: seq<nat>, aKeys: seq<nat>): (r: seq<Joined>)
    ensures |r| >= |bRows|
    ensures forall k :: 0 <= k < |r| ==> r[k].left in bRows
    ensures forall k :: 0 <= k < |r| ==> r[k].right.Some? ==> r[k].right.value in aRows
    ensures forall k :: 0 <= k < |r| ==> r[k].right.Some? ==> KeyOf(r[k].right.value, aKeys) == KeyOf(r[k].left, bKeys)
    ensures forall k :: 0 <= k < |r| ==> r[k].right.None? ==> Matches(aRows, aKeys, KeyOf(r[k].left, bKeys)) == []
  {
    if bRows == [] then []
    else
      var head := JoinRow(bRows[0], aRows, bKeys, aKeys);
      var ms := Matches(aRows, aKeys, KeyOf(bRows[0], bKeys));
      assert forall k :: 0 <= k < |head| ==> head[k].left == bRows[0];
      assert forall k :: 0 <= k < |head| ==> head[k].right.Some? ==> head[k].right.value in ms;
      assert forall k :: 0 <= k < |head| ==> head[k].right.None? ==> ms == [];
      head + Join(bRows[1..], aRows, bKeys, aKeys)
  }

  /** The left join keeps B's order: it works B row by B row. */
  lemma {:induction false} JoinAppend(b1: seq<seq<Cell>>, b2: seq<seq<Cell>>, aRows: seq<seq<Cell>>, bKeys: seq<nat>, aKeys: seq<nat>)
    ensures Join(b1 + b2, aRows, bKeys, aKeys) == Join(b1, aRows, bKeys, aKeys) + Join(b2, aRows, bKeys, aKeys)
  {
    if b1 == [] {
      assert b1 + b2 == b2;
    } else {
      assert (b1 + b2)[0] == b1[0];
      assert (b1 + b2)[1..] == b1[1..] + b2;
      JoinAppend(b1[1..], b2, aRows, bKeys, aKeys);
    }
  }

  /** The merged rows of one B row: B's row on each, and A's matches in A's
      order, or a single row with nothing joined. */
  lemma JoinRowShape(b: seq<Cell>, aRows: seq<seq<Cell>>, bKeys: seq<nat>, aKeys: seq<nat>)
    ensures var ms := Matches(aRows, aKeys, KeyOf(b, bKeys));
      var r := JoinRow(b, aRows, bKeys, aKeys);
      |r| == (if ms == [] then 1 else |ms|) &&
      (forall k :: 0 <= k < |r| ==> r[k].left == b) &&
      (ms == [] ==> r[0].right.None?) &&
      (forall k :: 0 <= k < |ms| ==> r[k].right == Some(ms[k]))
  {
  }

  /** With unique keys in A one B row yields exactly one merged row. */
  lemma JoinRowUnique(b: seq<Cell>, aRows: seq<seq<Cell>>, bKeys: seq<nat>, aKeys: seq<nat>)
    requires UniqueKeys(aRows, aKeys)
    ensures JoinRow(b, aRows, bKeys, aKeys) == [Joined(b, MatchOf(aRows, aKeys, KeyOf(b, bKeys)))]
  {
    MatchesUnique(aRows, aKeys, KeyOf(b, bKeys));
  }

  /** When A's keys are unique the merge has exactly B's rows, in B's order,
      each with its match. */
  lemma {:induction false} JoinUniqueKeys(bRows: seq<seq<Cell>>, aRows: seq<seq<Cell>>, bKeys: seq<nat>, aKeys: seq<nat>)
    requires UniqueKeys(aRows, aKeys)
    ensures |Join(bRows, aRows, bKeys, aKeys)| == |bRows|
    ensures forall i :: 0 <= i < |bRows| ==>
      Join(bRows, aRows, bKeys, aKeys)[i] == Joined(bRows[i], MatchOf(aRows, aKeys, KeyOf(bRows[i], bKeys)))
  {
    if bRows != [] {
      var rest := bRows[1..];
      JoinUniqueKeys(rest, aRows, bKeys, aKeys);
      JoinRowUnique(bRows[0], aRows, bKeys, aKeys);
      var tail := Join(rest, aRows, bKeys, aKeys);
      var j := Join(bRows, aRows, bKeys, aKeys);
      assert j == [Joined(bRows[0], MatchOf(aRows, aKeys, KeyOf(bRows[0], bKeys)))] + tail;
      forall i | 1 <= i < |bRows|
        ensures j[i] == Joined(bRows[i], MatchOf(aRows, aKeys, KeyOf(bRows[i], bKeys)))
      {
        assert j[i] == tail[i - 1];
        assert rest[i - 1] == bRows[i];
      }
    }
  }

  /** An item that lower-cases to "pipe"; a missing or numeric item is not a pipe. */
  predicate IsPipe(item: Cell)
    ensures IsPipe(item) <==>
      (item.Str? && |item.s| == 4 && forall i :: 0 <= i < 4 ==> item.s[i] == "pipe"[i] || item.s[i] == "PIPE"[i])
  {
    item.Str? && Lower(item.s) == "pipe"
  }

  /** The pipe test ignores case only: "Pipe" and "PIPE" are pipes, "pipes",
      a missing cell and a number are not. */
  lemma PipeExamples()
    ensures IsPipe(Str("Pipe")) && IsPipe(Str("PIPE")) && IsPipe(Str("pipe"))
    ensures !IsPipe(Str("pipes")) && !IsPipe(Str(" pipe")) && !IsPipe(Missing) && !IsPipe(Num(0))
  {
    assert Lower("Pipe") == "pipe";
    assert Lower("PIPE") == "pipe";
    assert Lower(" pipe")[0] == ' ';
  }

  /** Where the columns the reconciliation reads sit in A and in B. */
  datatype Layout = Layout(bKeys: seq<nat>, aKeys: seq<nat>, bItem: nat, bCkg: nat, bRate: nat, aCkg: nat, aRate: nat)

  function LayoutOf(ha: seq<string>, hb: seq<string>): (l: Layout)
    requires HasColumns(ha) && HasColumns(hb)
    ensures l.bCkg < |hb| && l.bRate < |hb| && l.bItem < |hb| && l.bCkg != l.bRate
    ensures hb[l.bItem] == "item" && hb[l.bCkg] == "c/kg" && hb[l.bRate] == "rate"
    ensures l.aCkg < |ha| && ha[l.aCkg] == "c/kg" && l.aRate < |ha| && ha[l.aRate] == "rate"
    ensures |l.bKeys| == |l.aKeys| == 3
    ensures forall k :: 0 <= k < 3 ==> l.bKeys[k] < |hb| && hb[l.bKeys[k]] == MergeColumns[k]
    ensures forall k :: 0 <= k < 3 ==> l.aKeys[k] < |ha| && ha[l.aKeys[k]] == MergeColumns[k]
  {
    var bKeys, aKeys := KeyColumns(hb), KeyColumns(ha);
    Layout(bKeys, aKeys, Col(hb, "item"), Col(hb, "c/kg"), Col(hb, "rate"), Col(ha, "c/kg"), Col(ha, "rate"))
  }

  /** A "_filled" column of a merged row: A's value, or missing without a match. */
  function Filled(m: Joined, aCol: nat): Cell {
    match m.right
    case None => Missing
    case Some(a) => At(a, aCol)
  }

  /** The new "c/kg" of a merged row: pandas `Series.combine_first` of B's
      "c/kg" with A's. */
  function NewCkg(m: Joined, l: Layout): (r: Cell)
    ensures !At(m.left, l.bCkg).Missing? ==> r == At(m.left, l.bCkg)
    ensures At(m.left, l.bCkg).Missing? ==> r == Filled(m, l.aCkg)
    ensures r.Missing? <==> At(m.left, l.bCkg).Missing? && Filled(m, l.aCkg).Missing?
  {
    CombineFirst(At(m.left, l.bCkg), Filled(m, l.aCkg))
  }

  /** The two `.loc` assignments to "rate": blank for pipes, filled otherwise. */
  function NewRate(m: Joined, l: Layout): (r: Cell)
    ensures IsPipe(At(m.left, l.bItem)) ==> r == Str("")
    ensures !IsPipe(At(m.left, l.bItem)) && !At(m.left, l.bRate).Missing? ==> r == At(m.left, l.bRate)
    ensures !IsPipe(At(m.left, l.bItem)) && At(m.left, l.bRate).Missing? ==> r == Filled(m, l.aRate)
    ensures r.Missing? <==>
      !IsPipe(At(m.left, l.bItem)) && At(m.left, l.bRate).Missing? && Filled(m, l.aRate).Missing?
  {
    if IsPipe(At(m.left, l.bItem)) then Str("")
    else CombineFirst(At(m.left, l.bRate), Filled(m, l.aRate))
  }

  /** A merged row projected back onto B's columns, with the updated "c/kg"
      and "rate". */
  function Place(left: seq<Cell>, l: Layout, ckg: Cell, rate: Cell): (r: seq<Cell>)
    ensures |r| == |left|
    ensures forall j :: 0 <= j < |left| && j != l.bCkg && j != l.bRate ==> r[j] == left[j]
    ensures l.bCkg < |left| ==> r[l.bCkg] == ckg
    ensures l.bRate < |left| && l.bRate != l.bCkg ==> r[l.bRate] == rate
  {
    seq(|left|, j requires 0 <= j < |left| => if j == l.bCkg then ckg else if j == l.bRate then rate else left[j])
  }

  /** The merged rows, filled and projected onto B's columns. */
  function FinalRows(j: seq<Joined>, l: Layout): (r: seq<seq<Cell>>)
    ensures |r| == |j| && forall i :: 0 <= i < |j| ==> |r[i]| == |j[i].left|
  {
    seq(|j|, i requires 0 <= i < |j| => Place(j[i].left, l, NewCkg(j[i], l), NewRate(j[i], l)))
  }

  /** The merged, filled and projected table. */
  function Reconcile(a: Frame, b: Frame): (r: Frame)
    requires Ready(a, b)
    ensures r.header == b.header
  {
    var l := LayoutOf(a.header, b.header);
    var j := Join(b.rows, a.rows, l.bKeys, l.aKeys);
    var rows := FinalRows(j, l);
    FinalRowsWidth(j, l, b);
    Table(b.header, rows)
  }

  /** Merged rows built from B's rows are as wide as B's header. */
  lemma FinalRowsWidth(j: seq<Joined>, l: Layout, b: Frame)
    requires forall k :: 0 <= k < |j| ==> j[k].left in b.rows
    ensures forall row :: row in FinalRows(j, l) ==> |row| == |b.header|
  {
    var rows := FinalRows(j, l);
    forall row | row in rows ensures |row| == |b.header| {
      var i :| 0 <= i < |rows| && rows[i] == row;
      assert j[i].left in b.rows;
    }
  }

  /** The rows of the reconciled table are the merged rows, filled and
      projected, each as wide as B's header. */
  lemma ReconcileRows(a: Frame, b: Frame)
    requires Ready(a, b)
    ensures var l := LayoutOf(a.header, b.header);
      var j := Join(b.rows, a.rows, l.bKeys, l.aKeys);
      Reconcile(a, b) == Table(b.header, FinalRows(j, l)) &&
      forall i :: 0 <= i < |j| ==> |FinalRows(j, l)[i]| == |b.header|
  {
    var l := LayoutOf(a.header, b.header);
    var j := Join(b.rows, a.rows, l.bKeys, l.aKeys);
    forall i | 0 <= i < |j| ensures |FinalRows(j, l)[i]| == |b.header| {
      assert j[i].left in b.rows;
    }
  }

  /** What an output row holds, given the B row it comes from and the A row
      joined to it: "c/kg" is B's unless missing, else A's, else missing; the
      rate of a pipe is the empty string; any other rate is B's unless
      missing, else A's, else missing; every other column is B's. */
  predicate RowReconciled(bRow: seq<Cell>, out: seq<Cell>, m: Option<seq<Cell>>, ha: seq<string>, hb: seq<string>)
    requires HasColumns(ha) && HasColumns(hb)
  {
    var bC, bR, bI := Col(hb, "c/kg"), Col(hb, "rate"), Col(hb, "item");
    var aC, aR := Col(ha, "c/kg"), Col(ha, "rate");
    && |out| == |bRow|
    && At(out, bC) == (if !At(bRow, bC).Missing? then At(bRow, bC) else if m.Some? then At(m.value, aC) else Missing)
    && At(out, bR) == (if IsPipe(At(bRow, bI)) then Str("")
                       else if !At(bRow, bR).Missing? then At(bRow, bR)
                       else if m.Some? then At(m.value, aR) else Missing)
    && forall j :: 0 <= j < |bRow| && j != bC && j != bR ==> out[j] == bRow[j]
  }

  /** One merged row, filled and projected, is its B part reconciled
      against its A part. */
  lemma PlaceReconciled(m: Joined, ha: seq<string>, hb: seq<string>)
    requires HasColumns(ha) && HasColumns(hb) && |m.left| == |hb|
    ensures var l := LayoutOf(ha, hb);
      RowReconciled(m.left, Place(m.left, l, NewCkg(m, l), NewRate(m, l)), m.right, ha, hb)
  {
  }

  /** Every output row is its merged row's B part, reconciled against its
      A part; the header is B's. */
  lemma ReconcileSpec(a: Frame, b: Frame)
    requires Ready(a, b)
    ensures var l := LayoutOf(a.header, b.header);
      var j := Join(b.rows, a.rows, l.bKeys, l.aKeys);
      var out := Reconcile(a, b);
      out.header == b.header && |out.rows| == |j| &&
      forall i :: 0 <= i < |j| ==> RowReconciled(j[i].left, out.rows[i], j[i].right, a.header, b.header)
  {
    var l := LayoutOf(a.header, b.header);
    var j := Join(b.rows, a.rows, l.bKeys, l.aKeys);
    var out := Reconcile(a, b);
    forall i | 0 <= i < |j| ensures RowReconciled(j[i].left, out.rows[i], j[i].right, a.header, b.header) {
      assert j[i].left in b.rows;
      PlaceReconciled(j[i], a.header, b.header);
    }
  }

  /** With unique keys in A, the output has B's header and B's rows, in B's
      order, row i reconciled against the A row whose key equals row i's. */
  lemma ReconcileUniqueKeys(a: Frame, b: Frame)
    requires Ready(a, b)
    requires UniqueKeys(a.rows, KeyColumns(a.header))
    ensures var out := Reconcile(a, b);
      out.header == b.header && |out.rows| == |b.rows| &&
      forall i :: 0 <= i < |b.rows| ==>
        RowReconciled(b.rows[i], out.rows[i],
          MatchOf(a.rows, KeyColumns(a.header), KeyOf(b.rows[i], KeyColumns(b.header))), a.header, b.header)
  {
    var l := LayoutOf(a.header, b.header);
    JoinUniqueKeys(b.rows, a.rows, l.bKeys, l.aKeys);
    ReconcileSpec(a, b);
  }
}
