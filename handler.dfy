/** `upload_files` as it runs: early returns for each check, the loop over
    the required columns, and the "c/kg" and "rate" columns of the merged
    frame updated in place by the column assignment and the two `.loc`
    assignments. It is proved to
    produce exactly the outcome `Upload.Process` specifies. */
module Handler {
  import opened Tables
  import opened Text
  import opened Cleaning
  import opened Reconciliation
  import opened Upload

  /** Fills the merged "c/kg" column in place: each missing cell takes the
      matched A value (pandas `Series.combine_first`). */
  method FillMissing(col: array<Cell>, filled: seq<Cell>)
    requires col.Length == |filled|
    modifies col
    ensures forall i :: 0 <= i < col.Length ==> col[i] == CombineFirst(old(col[i]), filled[i])
  {
    var i := 0;
    while i < col.Length
      invariant 0 <= i <= col.Length
      invariant forall k :: 0 <= k < i ==> col[k] == CombineFirst(old(col[k]), filled[k])
      invariant forall k :: i <= k < col.Length ==> col[k] == old(col[k])
    {
      col[i] := CombineFirst(col[i], filled[i]);
      i := i + 1;
    }
  }

  /** Sets the rate of every pipe row to the empty string, in place. */
  method BlankPipeRates(rate: array<Cell>, items: seq<Cell>)
    requires rate.Length == |items|
    modifies rate
    ensures forall i :: 0 <= i < rate.Length ==> rate[i] == if IsPipe(items[i]) then Str("") else old(rate[i])
  {
    var i := 0;
    while i < rate.Length
      invariant 0 <= i <= rate.Length
      invariant forall k :: 0 <= k < i ==> rate[k] == if IsPipe(items[k]) then Str("") else old(rate[k])
      invariant forall k :: i <= k < rate.Length ==> rate[k] == old(rate[k])
    {
      if IsPipe(items[i]) {
        rate[i] := Str("");
      }
      i := i + 1;
    }
  }

  /** Fills the rate of every row that is not a pipe, in place: a missing
      rate takes the matched A value (pandas `Series.combine_first`). */
  method FillNonPipeRates(rate: array<Cell>, items: seq<Cell>, filled: seq<Cell>)
    requires rate.Length == |items| == |filled|
    modifies rate
    ensures forall i :: 0 <= i < rate.Length ==>
      rate[i] == if IsPipe(items[i]) then old(rate[i]) else CombineFirst(old(rate[i]), filled[i])
  {
    var i := 0;
    while i < rate.Length
      invariant 0 <= i <= rate.Length
      invariant forall k :: 0 <= k < i ==>
        rate[k] == if IsPipe(items[k]) then old(rate[k]) else CombineFirst(old(rate[k]), filled[k])
      invariant forall k :: i <= k < rate.Length ==> rate[k] == old(rate[k])
    {
      if !IsPipe(items[i]) {
        rate[i] := CombineFirst(rate[i], filled[i]);
      }
      i := i + 1;
    }
  }

  /** The three column updates of the handler, in order, on the merged
      frame's "c/kg" and "rate" columns held as arrays. */
  method UpdateColumns(j: seq<Joined>, l: Layout) returns (ckg: seq<Cell>, rate: seq<Cell>)
    ensures |ckg| == |rate| == |j|
    ensures forall i :: 0 <= i < |j| ==> ckg[i] == NewCkg(j[i], l)
    ensures forall i :: 0 <= i < |j| ==> rate[i] == NewRate(j[i], l)
  {
    var n := |j|;
    var items := seq(n, i requires 0 <= i < n => At(j[i].left, l.bItem));
    var c := new Cell[n](i requires 0 <= i < n => At(j[i].left, l.bCkg));
    var r := new Cell[n](i requires 0 <= i < n => At(j[i].left, l.bRate));
    FillMissing(c, seq(n, i requires 0 <= i < n => Filled(j[i], l.aCkg)));
    BlankPipeRates(r, items);
    ghost var blanked := r[..];
    FillNonPipeRates(r, items, seq(n, i requires 0 <= i < n => Filled(j[i], l.aRate)));
    ckg, rate := c[..], r[..];
    forall i | 0 <= i < n ensures rate[i] == NewRate(j[i], l) {
      assert blanked[i] == if IsPipe(items[i]) then Str("") else At(j[i].left, l.bRate);
    }
  }

  /** The merge, the column updates and the projection as the handler runs
      them, with the result the reconciliation specifies. */
  method MergeAndFill(a: Frame, b: Frame) returns (out: Frame)
    requires Ready(a, b)
    ensures out == Reconcile(a, b)
  {
    var l := LayoutOf(a.header, b.header);
    var j := Join(b.rows, a.rows, l.bKeys, l.aKeys);
    var c, r := UpdateColumns(j, l);
    var rows := seq(|j|, i requires 0 <= i < |j| => Place(j[i].left, l, c[i], r[i]));
    ReconcileRows(a, b);
    assert rows == FinalRows(j, l);
    out := Table(b.header, rows);
  }

  /** The handler as it runs, step by step: early returns for each check,
      the required-column loop, and the in-place column updates. */
  method UploadFiles(req: Request) returns (o: Outcome)
    ensures o == Process(req)
  {
    if req.excel1.None? || req.excel2.None? {
      return Err(400, MissingUploadsMessage);
    }
    var excel1, excel2 := req.excel1.value, req.excel2.value;
    var stem := SplitExt(excel2.filename).0;
    if excel1.content.Unreadable? {
      return Err(500, ReadErrorMessage(excel1.content.reason));
    }
    if excel2.content.Unreadable? {
      return Err(500, ReadErrorMessage(excel2.content.reason));
    }
    var df1 := Clean(excel1.content.frame);
    var df2 := Clean(excel2.content.frame);
    df1 := LowerHeader(df1);
    df2 := LowerHeader(df2);
    var missing := CheckRequired(df1.header, df2.header);
    if missing.Some? {
      return Err(400, MissingColumnMessage(missing.value));
    }
    var absentKey := FirstMissing(MergeColumns, df2.header, df1.header);
    if absentKey.Some? {
      return Err(500, InternalErrorMessage(absentKey.value));
    }
    ReadyIffChecksPass(df1, df2);
    var merged := MergeAndFill(df1, df2);
    var name := stem + "_filtered.xlsx";
    return Ok(name, "/download/" + name, merged);
  }
}
