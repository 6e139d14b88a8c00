/** `process_sheet`: one sheet of one daily file, as `pd.read_excel(...,
    skiprows=7)` hands it over, cut at its second blank-Código row, stripped of
    its first row, tagged with the file's date and the sheet's category, and
    cleared of rows without a Código. */
module Sheet {
  import opened Wrappers
  import opened Text
  import opened Indexador

  const CodeColumn := "Código"

  /** The six columns a sheet must have to be kept. */
  const RequiredColumns: set<string> :=
    {"Código", "Nome", "PU", "Taxa de Compra", "Taxa de Venda", "Taxa Indicativa"}

  /** A spreadsheet cell as read; an empty cell is `None` (NaN). */
  datatype Cell = Str(text: string) | Num(value: real)

  /** The six columns of interest of one row. */
  datatype RawRow = RawRow(
    code: Option<Cell>,
    name: Option<Cell>,
    unitPrice: Option<Cell>,
    buyRate: Option<Cell>,
    sellRate: Option<Cell>,
    indicativeRate: Option<Cell>)

  /** A sheet after the seven header rows: its column names and its rows, in order. */
  datatype RawSheet = RawSheet(columns: set<string>, rows: seq<RawRow>)

  /** An output row: the six selected columns, then Date, then Indexador. */
  datatype Record = Record(row: RawRow, date: Option<string>, indexador: string)

  /** The exceptions `process_sheet` lets escape: `KeyError` when there is no
      Código column, `IndexError` when a non-empty sheet has fewer than two
      blank Código rows. */
  datatype SheetError = MissingCodeColumn | FewerThanTwoBlankCodes

  predicate IsBlankCode(r: RawRow)
  {
    r.code.None?
  }

  /** `df[df['Código'].isna()].index`: the positions of the blank-Código rows, in order. */
  function BlankCodePositions(rows: seq<RawRow>): (ps: seq<int>)
    ensures forall k :: 0 <= k < |ps| ==> 0 <= ps[k] < |rows| && IsBlankCode(rows[ps[k]])
    ensures forall k, l :: 0 <= k < l < |ps| ==> ps[k] < ps[l]
    ensures forall i :: 0 <= i < |rows| && IsBlankCode(rows[i]) ==> i in ps
  {
    if rows == [] then []
    else
      var n := |rows| - 1;
      var before := BlankCodePositions(rows[..n]);
      assert forall k :: 0 <= k < |before| ==> rows[..n][before[k]] == rows[before[k]];
      if IsBlankCode(rows[n]) then before + [n] else before
  }

  /** Lines 97-101: the rows kept before the column check. */
  function CutAtSecondBlank(sheet: RawSheet): (r: Result<seq<RawRow>, SheetError>)
    ensures r == Failure(MissingCodeColumn) <==> CodeColumn !in sheet.columns
    ensures r.Success? ==> r.value <= sheet.rows
  {
    if CodeColumn !in sheet.columns then Failure(MissingCodeColumn)
    else if sheet.rows == [] then Success(sheet.rows)
    else
      var blanks := BlankCodePositions(sheet.rows);
      if |blanks| < 2 then Failure(FewerThanTwoBlankCodes) else Success(sheet.rows[..blanks[1]])
  }

  /** The row `df.loc[0, 'Date'] = None` appends: label 0 is gone after
      `iloc[1:]`, so the assignment adds a new row, empty but for the category
      that line 114 then gives every row. */
  function PhantomRecord(indexador: string): Record
  {
    Record(RawRow(None, None, None, None, None, None), None, indexador)
  }

  /** `dropna(subset=['Código'])`. */
  function DropBlankCodes(records: seq<Record>): (r: seq<Record>)
    ensures forall k :: 0 <= k < |r| ==> r[k].row.code.Some?
    ensures forall x :: x in r <==> x in records && x.row.code.Some?
    ensures |r| <= |records|
  {
    if records == [] then []
    else
      var rest := DropBlankCodes(records[1..]);
      assert forall x :: x in records <==> x == records[0] || x in records[1..];
      if records[0].row.code.Some? then [records[0]] + rest else rest
  }

  /** `process_sheet(file_path, sheet_name)` on the sheet's content; `fileName` is
      `os.path.basename(file_path)`. `Success(None)` is the sheet rejected for a
      missing column. */
  function ProcessSheet(fileName: string, sheetName: string, sheet: RawSheet): (r: Result<Option<seq<Record>>, SheetError>)
    ensures r == Failure(MissingCodeColumn) <==> CodeColumn !in sheet.columns
    ensures r == Failure(FewerThanTwoBlankCodes)
      <==> CodeColumn in sheet.columns && sheet.rows != [] && |BlankCodePositions(sheet.rows)| < 2
    ensures r == Success(None) <==> CutAtSecondBlank(sheet).Success? && !(RequiredColumns <= sheet.columns)
  {
    match CutAtSecondBlank(sheet)
    case Failure(e) => Failure(e)
    case Success(kept) =>
      if !(RequiredColumns <= sheet.columns) then Success(None)
      else
        var body := if kept == [] then [] else kept[1..];
        var date := Stem(fileName, '.');
        var indexador := DetermineIndexador(sheetName);
        var dated := seq(|body|, i requires 0 <= i < |body| => Record(body[i], Some(date), indexador))
          + [PhantomRecord(indexador)];
        Success(Some(DropBlankCodes(dated)))
  }

  /** The rows of `rows` with a Código, in order, each tagged with `date` and
      `indexador`: what the frame operations of lines 105-117 amount to. */
  function TagCoded(rows: seq<RawRow>, date: string, indexador: string): (r: seq<Record>)
    ensures |r| <= |rows|
    ensures forall k :: 0 <= k < |r| ==>
      r[k].row.code.Some? && r[k].date == Some(date) && r[k].indexador == indexador && r[k].row in rows
    ensures forall x :: x in rows && x.code.Some? ==> Record(x, Some(date), indexador) in r
  {
    if rows == [] then []
    else
      var rest := TagCoded(rows[1..], date, indexador);
      assert forall x :: x in rows[1..] ==> x in rows;
      assert forall x :: x in rows ==> x == rows[0] || x in rows[1..];
      (if rows[0].code.Some? then [Record(rows[0], Some(date), indexador)] else []) + rest
  }

  /** Tagging works row by row, so it keeps the order of the rows. */
  lemma {:induction false} TagCodedAppend(a: seq<RawRow>, b: seq<RawRow>, date: string, indexador: string)
    ensures TagCoded(a + b, date, indexador) == TagCoded(a, date, indexador) + TagCoded(b, date, indexador)
  {
    if a == [] {
      assert a + b == b;
    } else {
      assert (a + b)[0] == a[0] && (a + b)[1..] == a[1..] + b;
      TagCodedAppend(a[1..], b, date, indexador);
    }
  }

  lemma {:induction false} DropBlankCodesAppend(a: seq<Record>, b: seq<Record>)
    ensures DropBlankCodes(a + b) == DropBlankCodes(a) + DropBlankCodes(b)
  {
    if a == [] {
      assert a + b == b;
    } else {
      assert (a + b)[0] == a[0] && (a + b)[1..] == a[1..] + b;
      DropBlankCodesAppend(a[1..], b);
    }
  }

  /** Tagging every row and then dropping the blank-Código ones is `TagCoded`. */
  lemma {:induction false} DropAfterTagging(body: seq<RawRow>, date: string, indexador: string)
    ensures DropBlankCodes(seq(|body|, i requires 0 <= i < |body| => Record(body[i], Some(date), indexador)))
      == TagCoded(body, date, indexador)
  {
    var tagged := seq(|body|, i requires 0 <= i < |body| => Record(body[i], Some(date), indexador));
    if body != [] {
      assert tagged[1..] == seq(|body[1..]|, i requires 0 <= i < |body[1..]| => Record(body[1..][i], Some(date), indexador));
      DropAfterTagging(body[1..], date, indexador);
    }
  }

  /** The row appended by `df.loc[0, 'Date'] = None` never reaches the output:
      `process_sheet` returns exactly the coded rows of the frame after
      `iloc[1:]`, every one of them dated with the file's stem. */
  lemma PhantomRowIsDropped(fileName: string, sheetName: string, sheet: RawSheet)
    requires ProcessSheet(fileName, sheetName, sheet).Success?
    requires ProcessSheet(fileName, sheetName, sheet).value.Some?
    ensures var kept := CutAtSecondBlank(sheet).value;
      ProcessSheet(fileName, sheetName, sheet).value.value
        == TagCoded(if kept == [] then [] else kept[1..], Stem(fileName, '.'), DetermineIndexador(sheetName))
  {
    var kept := CutAtSecondBlank(sheet).value;
    var body := if kept == [] then [] else kept[1..];
    var date := Stem(fileName, '.');
    var indexador := DetermineIndexador(sheetName);
    var tagged := seq(|body|, i requires 0 <= i < |body| => Record(body[i], Some(date), indexador));
    DropBlankCodesAppend(tagged, [PhantomRecord(indexador)]);
    DropAfterTagging(body, date, indexador);
    assert DropBlankCodes([PhantomRecord(indexador)]) == [];
    assert TagCoded(body, date, indexador) + [] == TagCoded(body, date, indexador);
  }

  /** Truncation raises exactly when a non-empty sheet has at most one blank-Código row. */
  lemma FewerThanTwoBlanksRaises(fileName: string, sheetName: string, sheet: RawSheet)
    requires CodeColumn in sheet.columns && sheet.rows != []
    ensures ProcessSheet(fileName, sheetName, sheet) == Failure(FewerThanTwoBlankCodes)
      <==> forall i, j :: 0 <= i < j < |sheet.rows| && IsBlankCode(sheet.rows[i]) ==> !IsBlankCode(sheet.rows[j])
  {
    var rows := sheet.rows;
    var ps := BlankCodePositions(rows);
    if |ps| >= 2 {
      assert ps[0] < ps[1] && IsBlankCode(rows[ps[0]]) && IsBlankCode(rows[ps[1]]);
    } else {
      forall i, j | 0 <= i < j < |rows| && IsBlankCode(rows[i]) ensures !IsBlankCode(rows[j]) {
        if IsBlankCode(rows[j]) {
          assert false;
        }
      }
    }
  }

  /** A non-empty sheet that gets past truncation is cut just before its second
      blank-Código row: the cut position `k` holds a blank Código, exactly one
      row before it does, and positions 0 to k-1 are kept. */
  lemma CutIsBeforeSecondBlank(sheet: RawSheet)
    requires sheet.rows != []
    requires CutAtSecondBlank(sheet).Success?
    ensures var rows, kept := sheet.rows, CutAtSecondBlank(sheet).value;
      && 1 <= |kept| < |rows|
      && kept == rows[..|kept|]
      && IsBlankCode(rows[|kept|])
      && exists j :: 0 <= j < |kept| && IsBlankCode(rows[j])
           && forall i :: 0 <= i < |kept| && IsBlankCode(rows[i]) ==> i == j
  {
    var rows := sheet.rows;
    var ps := BlankCodePositions(rows);
    var k := ps[1];
    assert ps[0] < k;
    assert forall l :: 1 <= l < |ps| ==> k <= ps[l];
    forall i | 0 <= i < k && IsBlankCode(rows[i]) ensures i == ps[0] {
      assert i in ps;
    }
  }

  /** A sheet with no rows is not truncated, and yields no records. */
  lemma EmptySheetYieldsNothing(fileName: string, sheetName: string, sheet: RawSheet)
    requires CodeColumn in sheet.columns && sheet.rows == []
    ensures ProcessSheet(fileName, sheetName, sheet)
      == if RequiredColumns <= sheet.columns then Success(Some([])) else Success(None)
  {
    if RequiredColumns <= sheet.columns {
      PhantomRowIsDropped(fileName, sheetName, sheet);
    }
  }
}
