/** The `/upload` handler as a function from the request to its outcome:
    both uploads present, both readable, both tables holding the required
    columns and the join key, then the reconciled table saved under B's file
    name with "_filtered.xlsx". Saving and parsing the files are outside the
    model: each upload arrives already parsed, or with the parser's error. */
module Upload {
  import opened Tables
  import opened Text
  import opened Cleaning
  import opened Reconciliation

  /** What `pd.read_excel` made of an uploaded file. */
  datatype ParseResult = Parsed(frame: Frame) | Unreadable(reason: string)

  /** An uploaded file: the name the client gave it and its parsed content. */
  datatype FileUpload = FileUpload(filename: string, content: ParseResult)

  /** The two form fields of the request; `None` when the field is absent. */
  datatype Request = Request(excel1: Option<FileUpload>, excel2: Option<FileUpload>)

  /** The handler's answer: an error status with its message, or the saved
      file's name, the URL it is offered under and the table written to it.
      An error carries no table: nothing is produced. */
  datatype Outcome =
    | Err(status: int, message: string)
    | Ok(fileName: string, downloadUrl: string, table: Frame)

  const MissingUploadsMessage: string := "Both Excel1 and Excel2 files are required"

  function ReadErrorMessage(reason: string): string {
    "Error reading Excel files: " + reason
  }

  function MissingColumnMessage(col: string): string {
    "Required column '" + col + "' missing in one of the files"
  }

  /** The generic handler for an exception escaping the merge (a `KeyError`
      naming an absent join-key column). */
  function InternalErrorMessage(key: string): string {
    "Internal server error: '" + key + "'"
  }

  /** The output file name: B's file name without its last extension, plus
      "_filtered.xlsx". */
  function OutputName(filename: string): (r: string)
    ensures |r| >= 14 && r[|r| - 14..] == "_filtered.xlsx"
    ensures StartsWith(filename, r[..|r| - 14])
    ensures |r| - 14 < |filename| ==> filename[|r| - 14] == '.'
    ensures r[..|r| - 14] == SplitExt(filename).0
  {
    SplitExt(filename).0 + "_filtered.xlsx"
  }

  /** A parsed upload, cleaned and with lower-cased headers. */
  function Prepared(u: FileUpload): (r: Frame)
    requires u.content.Parsed?
  {
    LowerHeader(Clean(u.content.frame))
  }

  /** The column tests and the work that follow a successful read of both files. */
  function Reconciled(df1: Frame, df2: Frame, filename: string): (r: Outcome)
    ensures r.Err? ==> r.status == 400 || r.status == 500
    ensures r.Ok? ==> r.fileName == OutputName(filename) && r.downloadUrl == "/download/" + r.fileName
  {
    match FirstMissing(RequiredColumns, df1.header, df2.header)
    case Some(col) => Err(400, MissingColumnMessage(col))
    case None =>
      match FirstMissing(MergeColumns, df2.header, df1.header)
      case Some(key) => Err(500, InternalErrorMessage(key))
      case None =>
        ReadyIffChecksPass(df1, df2);
        var name := OutputName(filename);
        Ok(name, "/download/" + name, Reconcile(df1, df2))
  }

  function Process(req: Request): (r: Outcome)
    ensures r.Err? ==> r.status == 400 || r.status == 500
    ensures r.Ok? ==> req.excel2.Some? && r.fileName == OutputName(req.excel2.value.filename)
    ensures r.Ok? ==> r.downloadUrl == "/download/" + r.fileName
  {
    if req.excel1.None? || req.excel2.None? then Err(400, MissingUploadsMessage)
    else
      var u1, u2 := req.excel1.value, req.excel2.value;
      if u1.content.Unreadable? then Err(500, ReadErrorMessage(u1.content.reason))
      else if u2.content.Unreadable? then Err(500, ReadErrorMessage(u2.content.reason))
      else Reconciled(Prepared(u1), Prepared(u2), u2.filename)
  }

  /** The request the handler accepts: both files, both readable, both
      tables with the required columns and the join key. */
  predicate Accepted(req: Request) {
    && req.excel1.Some? && req.excel2.Some?
    && req.excel1.value.content.Parsed? && req.excel2.value.content.Parsed?
    && Ready(Prepared(req.excel1.value), Prepared(req.excel2.value))
  }

  /** The tests come in a fixed order, each error is the first failing
      check's, and one succeeds exactly when all pass. */
  lemma ProcessOutcomes(req: Request)
    ensures req.excel1.None? || req.excel2.None? ==> Process(req) == Err(400, MissingUploadsMessage)
    ensures req.excel1.Some? && req.excel2.Some? && req.excel1.value.content.Unreadable? ==>
      Process(req) == Err(500, ReadErrorMessage(req.excel1.value.content.reason))
    ensures (req.excel1.Some? && req.excel2.Some? && req.excel1.value.content.Parsed?
      && req.excel2.value.content.Unreadable?) ==>
      Process(req) == Err(500, ReadErrorMessage(req.excel2.value.content.reason))
    ensures req.excel1.Some? && req.excel2.Some? && req.excel1.value.content.Parsed? && req.excel2.value.content.Parsed? ==>
      var df1, df2 := Prepared(req.excel1.value), Prepared(req.excel2.value);
      var miss := FirstMissing(RequiredColumns, df1.header, df2.header);
      miss.Some? ==> Process(req) == Err(400, MissingColumnMessage(miss.value))
    ensures req.excel1.Some? && req.excel2.Some? && req.excel1.value.content.Parsed? && req.excel2.value.content.Parsed? ==>
      var df1, df2 := Prepared(req.excel1.value), Prepared(req.excel2.value);
      var key := FirstMissing(MergeColumns, df2.header, df1.header);
      FirstMissing(RequiredColumns, df1.header, df2.header).None? && key.Some? ==>
        Process(req) == Err(500, InternalErrorMessage(key.value))
    ensures Process(req).Ok? <==> Accepted(req)
  {
    if req.excel1.Some? && req.excel2.Some? && req.excel1.value.content.Parsed? && req.excel2.value.content.Parsed? {
      ProcessAfterRead(req);
      ReadyIffChecksPass(Prepared(req.excel1.value), Prepared(req.excel2.value));
    }
  }

  /** The missing column named is "c/kg" whenever "c/kg" is absent from
      either table, and "rate" only when "c/kg" is present in both. */
  lemma MissingColumnOrder(h1: seq<string>, h2: seq<string>)
    ensures ("c/kg" !in h1 || "c/kg" !in h2) ==> FirstMissing(RequiredColumns, h1, h2) == Some("c/kg")
    ensures ("c/kg" in h1 && "c/kg" in h2 && ("rate" !in h1 || "rate" !in h2)) ==>
      FirstMissing(RequiredColumns, h1, h2) == Some("rate")
    ensures ("c/kg" in h1 && "c/kg" in h2 && "rate" in h1 && "rate" in h2) ==>
      FirstMissing(RequiredColumns, h1, h2) == None
  {
    assert RequiredColumns[1..] == ["rate"];
    assert RequiredColumns[1..][1..] == [];
  }

  /** On success the file is B's name without its last extension plus
      "_filtered.xlsx", offered under "/download/", and the table is B
      (cleaned, headers lower-cased) reconciled against A. */
  lemma ProcessSuccess(req: Request)
    requires Accepted(req)
    ensures var name := OutputName(req.excel2.value.filename);
      Process(req) == Ok(name, "/download/" + name, Reconcile(Prepared(req.excel1.value), Prepared(req.excel2.value)))
  {
    ProcessAfterRead(req);
    ReconciledSuccess(Prepared(req.excel1.value), Prepared(req.excel2.value), req.excel2.value.filename);
  }

  /** Once both files are read, the outcome is decided on the prepared tables. */
  lemma ProcessAfterRead(req: Request)
    requires req.excel1.Some? && req.excel2.Some?
    requires req.excel1.value.content.Parsed? && req.excel2.value.content.Parsed?
    ensures Process(req) == Reconciled(Prepared(req.excel1.value), Prepared(req.excel2.value), req.excel2.value.filename)
  {
    var u1, u2 := req.excel1.value, req.excel2.value;
    assert !(req.excel1.None? || req.excel2.None?);
    assert !u1.content.Unreadable? && !u2.content.Unreadable?;
    var r := Reconciled(Prepared(u1), Prepared(u2), u2.filename);
    assert Process(req) == r;
  }

  lemma ReconciledSuccess(df1: Frame, df2: Frame, filename: string)
    requires Ready(df1, df2)
    ensures var name := OutputName(filename);
      Reconciled(df1, df2, filename) == Ok(name, "/download/" + name, Reconcile(df1, df2))
  {
    ReadyIffChecksPass(df1, df2);
  }

  /** Preparing a table keeps its non-placeholder headers, in order, each
      lower-cased; none of the prepared headers is a placeholder. */
  lemma PreparedHeader(t: Frame)
    ensures var h := LowerHeader(Clean(t)).header;
      && |h| == |NamedOnly(t.header)|
      && (forall j :: 0 <= j < |h| ==> h[j] == Lower(NamedOnly(t.header)[j]))
      && (forall j :: 0 <= j < |h| ==> !IsUnnamed(h[j]))
  {
    CleanSpec(t);
    var h := LowerHeader(Clean(t)).header;
    forall j | 0 <= j < |h| ensures !IsUnnamed(h[j]) {
      LoweredIsNamed(NamedOnly(t.header)[j]);
    }
  }

  /** Cleaning a reconciled table again keeps every column: only rows that
      are empty go. */
  lemma RecleanOutput(a: Frame, b: Frame)
    requires Ready(a, b)
    requires forall j :: 0 <= j < |b.header| ==> !IsUnnamed(b.header[j])
    ensures Clean(Reconcile(a, b)) == Table(b.header, DropEmptyRows(Reconcile(a, b).rows))
  {
    CleanNamedTable(Reconcile(a, b));
  }

  /** The output has exactly B's cleaned, lower-cased columns in B's order,
      and none of them is an "Unnamed" placeholder, so cleaning the output
      again keeps every column (it may still drop rows that became empty). */
  lemma OutputColumns(req: Request)
    requires Accepted(req)
    ensures Process(req).Ok?
    ensures var out := Process(req).table;
      var b := req.excel2.value.content.frame;
      && |out.header| == |NamedOnly(b.header)|
      && (forall j :: 0 <= j < |out.header| ==> out.header[j] == Lower(NamedOnly(b.header)[j]))
      && Clean(out) == Table(out.header, DropEmptyRows(out.rows))
  {
    ProcessSuccess(req);
    PreparedOutput(req.excel1.value.content.frame, req.excel2.value.content.frame);
  }

  /** `OutputColumns`, stated on the two parsed tables. */
  lemma PreparedOutput(t1: Frame, t2: Frame)
    requires Ready(LowerHeader(Clean(t1)), LowerHeader(Clean(t2)))
    ensures var out := Reconcile(LowerHeader(Clean(t1)), LowerHeader(Clean(t2)));
      && |out.header| == |NamedOnly(t2.header)|
      && (forall j :: 0 <= j < |out.header| ==> out.header[j] == Lower(NamedOnly(t2.header)[j]))
      && Clean(out) == Table(out.header, DropEmptyRows(out.rows))
  {
    PreparedHeader(t2);
    RecleanOutput(LowerHeader(Clean(t1)), LowerHeader(Clean(t2)));
  }

  /** A lower-cased header never begins with "Unnamed". */
  lemma LoweredIsNamed(h: string)
    ensures !IsUnnamed(Lower(h))
  {
    if |h| > 0 {
      assert Lower(h)[0] != 'U';
      assert "Unnamed"[0] == 'U';
    }
  }

  /** Reconciliation never empties a row: "c/kg" and a non-pipe rate only
      gain values, a pipe's rate becomes the (present) empty string, and
      every other cell is kept. */
  lemma ReconciledRowNonEmpty(bRow: seq<Cell>, out: seq<Cell>, m: Option<seq<Cell>>, ha: seq<string>, hb: seq<string>)
    requires HasColumns(ha) && HasColumns(hb) && |bRow| == |hb|
    requires RowReconciled(bRow, out, m, ha, hb)
    requires !AllMissing(bRow)
    ensures !AllMissing(out)
  {
    var bC, bR := Col(hb, "c/kg"), Col(hb, "rate");
    var k :| 0 <= k < |bRow| && !bRow[k].Missing?;
    if k == bC {
      assert !out[bC].Missing?;
    } else if k == bR {
      assert !out[bR].Missing?;
    } else {
      assert !out[k].Missing?;
    }
  }

  /** A B table without empty rows yields an output without empty rows. */
  lemma ReconcileKeepsNonEmpty(a: Frame, b: Frame)
    requires Ready(a, b)
    requires forall i :: 0 <= i < |b.rows| ==> !AllMissing(b.rows[i])
    ensures forall i :: 0 <= i < |Reconcile(a, b).rows| ==> !AllMissing(Reconcile(a, b).rows[i])
  {
    ReconcileSpec(a, b);
    var l := LayoutOf(a.header, b.header);
    var j := Join(b.rows, a.rows, l.bKeys, l.aKeys);
    var out := Reconcile(a, b);
    forall i | 0 <= i < |out.rows| ensures !AllMissing(out.rows[i]) {
      assert j[i].left in b.rows;
      ReconciledRowNonEmpty(j[i].left, out.rows[i], j[i].right, a.header, b.header);
    }
  }

  /** Cleaning the output again changes nothing when B, as prepared, has
      real headers and no empty row. (A B file whose row held values only in
      "Unnamed" columns breaks the second condition, as `CleanNotIdempotent`
      shows for cleaning alone.) */
  lemma RecleanFixpoint(a: Frame, b: Frame)
    requires Ready(a, b)
    requires forall j :: 0 <= j < |b.header| ==> !IsUnnamed(b.header[j])
    requires forall i :: 0 <= i < |b.rows| ==> !AllMissing(b.rows[i])
    ensures Clean(Reconcile(a, b)) == Reconcile(a, b)
  {
    RecleanOutput(a, b);
    ReconcileKeepsNonEmpty(a, b);
    DropEmptyRowsKeepsFull(Reconcile(a, b).rows);
  }

  /** A plain file name loses its last extension only: "bom.xlsx" becomes
      "bom_filtered.xlsx", "bom.v2.xlsx" becomes "bom.v2_filtered.xlsx". */
  lemma OutputNameOfStem(stem: string, ext: string)
    requires '/' !in stem && '/' !in ext && '.' !in ext
    requires exists k :: 0 <= k < |stem| && stem[k] != '.'
    ensures OutputName(stem + "." + ext) == stem + "_filtered.xlsx"
  {
    SplitExtStem(stem, ext);
  }

  /** A name without a dot is kept whole. */
  lemma OutputNameNoDot(filename: string)
    requires '.' !in filename
    ensures OutputName(filename) == filename + "_filtered.xlsx"
  {
    var dot := LastIndex(filename, '.');
    assert dot == -1;
  }
}
