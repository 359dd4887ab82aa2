/** The table abstraction the upload handler works on: a frame is a header
    (one name per column) and rows of cells, every row as wide as the header,
    as a pandas DataFrame read from a spreadsheet is. */
module Tables {

  datatype Option<T> = None | Some(value: T)

  /** A spreadsheet cell: empty (pandas NaN), text, or a number. Numbers are
      opaque: the handler only compares and copies them. */
  datatype Cell = Missing | Str(s: string) | Num(n: int)

  /** pandas `Series.combine_first` on one position: the own value unless it
      is missing, otherwise the other one. An empty string is present. */
  function CombineFirst(own: Cell, other: Cell): (r: Cell)
    ensures r.Missing? <==> own.Missing? && other.Missing?
    ensures !own.Missing? ==> r == own
    ensures own.Missing? ==> r == other
  {
    if own.Missing? then other else own
  }

  datatype Table = Table(header: seq<string>, rows: seq<seq<Cell>>)

  predicate Rectangular(t: Table) {
    forall row :: row in t.rows ==> |row| == |t.header|
  }

  /** A table whose every row has one cell per column. */
  type Frame = t: Table | Rectangular(t) witness Table([], [])

  /** The cell in column `j`, read as missing past the end of the row. */
  function At(row: seq<Cell>, j: nat): Cell {
    if j < |row| then row[j] else Missing
  }

  /** Position of the first column called `name`. */
  function IndexOf(names: seq<string>, name: string): (r: Option<nat>)
    ensures r.None? <==> name !in names
    ensures r.Some? ==> r.value < |names| && names[r.value] == name
    ensures r.Some? ==> forall k :: 0 <= k < r.value ==> names[k] != name
  {
    if |names| == 0 then None
    else if names[0] == name then Some(0)
    else match IndexOf(names[1..], name)
      case None => None
      case Some(i) => Some(i + 1)
  }

  /** The elements of `s` at positions `cols`, in that order. */
  function Select<T>(s: seq<T>, cols: seq<nat>): (r: seq<T>)
    requires forall k :: 0 <= k < |cols| ==> cols[k] < |s|
    ensures |r| == |cols|
    ensures forall k :: 0 <= k < |cols| ==> r[k] == s[cols[k]]
  {
    seq(|cols|, k requires 0 <= k < |cols| => s[cols[k]])
  }

  lemma SelectAppend<T>(s: seq<T>, c1: seq<nat>, c2: seq<nat>)
    requires forall k :: 0 <= k < |c1| ==> c1[k] < |s|
    requires forall k :: 0 <= k < |c2| ==> c2[k] < |s|
    ensures Select(s, c1 + c2) == Select(s, c1) + Select(s, c2)
  {
    var c := c1 + c2;
    assert forall k :: 0 <= k < |c| ==> c[k] < |s|;
  }

  /** Positions below `n` select the same from `s` as from its prefix. */
  lemma SelectPrefix<T>(s: seq<T>, n: nat, cols: seq<nat>)
    requires n <= |s|
    requires forall k :: 0 <= k < |cols| ==> cols[k] < n
    ensures Select(s, cols) == Select(s[..n], cols)
  {
  }

  /** Selecting every position in order is the identity. */
  lemma SelectAll<T>(s: seq<T>, cols: seq<nat>)
    requires cols == seq(|s|, j => j)
    ensures Select(s, cols) == s
  {
  }
}
