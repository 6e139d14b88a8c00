/** Consolidation: `process_file` gathers the kept sheets of one workbook in an
    insertion-ordered dictionary, and `save_all_sheets` writes them out twice,
    one tab per key and all rows concatenated on one tab. */
module Consolidate {
  import opened Wrappers
  import opened Text
  import opened Sheet

  /** One sheet of a workbook, as `pd.ExcelFile(...).sheet_names` lists it. */
  datatype NamedSheet = NamedSheet(name: string, sheet: RawSheet)

  /** A Python dict from tab keys to frames: its keys in insertion order and its contents. */
  datatype SheetDict = SheetDict(keys: seq<string>, frames: map<string, seq<Record>>)

  ghost predicate ValidDict(d: SheetDict)
  {
    && (forall i, j :: 0 <= i < j < |d.keys| ==> d.keys[i] != d.keys[j])
    && (forall k :: k in d.frames <==> k in d.keys)
  }

  const EmptyDict := SheetDict([], map[])

  /** `d[key] = frame`: a new key goes last, an existing one keeps its place. */
  function Insert(d: SheetDict, key: string, frame: seq<Record>): (r: SheetDict)
    requires ValidDict(d)
    ensures ValidDict(r)
  {
    if key in d.frames then SheetDict(d.keys, d.frames[key := frame])
    else SheetDict(d.keys + [key], d.frames[key := frame])
  }

  /** `f"{stem}_{sheet_name}"`. */
  function SheetKey(stem: string, sheetName: string): (key: string)
    ensures |key| == |stem| + 1 + |sheetName|
    ensures key[|stem| + 1..] == sheetName
  {
    stem + "_" + sheetName
  }

  /** The sheet names of a workbook, in order. */
  function SheetNames(workbook: seq<NamedSheet>): (names: seq<string>)
    ensures |names| == |workbook|
  {
    seq(|workbook|, i requires 0 <= i < |workbook| => workbook[i].name)
  }

  /** What `process_sheet` gives for each sheet of the workbook, in order. */
  function SheetResults(fileName: string, workbook: seq<NamedSheet>): (results: seq<Result<Option<seq<Record>>, SheetError>>)
    ensures |results| == |workbook|
  {
    seq(|workbook|, i requires 0 <= i < |workbook| => ProcessSheet(fileName, workbook[i].name, workbook[i].sheet))
  }

  /** The loop of `process_file` over given per-sheet results: a kept frame is
      stored under `stem + "_" + name`, a skipped sheet adds nothing, and the
      first exception ends the loop. */
  function Gather(stem: string, names: seq<string>, results: seq<Result<Option<seq<Record>>, SheetError>>): (r: Result<SheetDict, SheetError>)
    requires |names| == |results|
    ensures r.Success? ==> ValidDict(r.value)
  {
    if names == [] then Success(EmptyDict)
    else
      var n := |names| - 1;
      match Gather(stem, names[..n], results[..n])
      case Failure(e) => Failure(e)
      case Success(d) =>
        match results[n]
        case Failure(e) => Failure(e)
        case Success(None) => Success(d)
        case Success(Some(frame)) => Success(Insert(d, SheetKey(stem, names[n]), frame))
  }

  /** The dictionary `process_file` returns, or the exception it raises. */
  function ProcessSheets(fileName: string, workbook: seq<NamedSheet>): (r: Result<SheetDict, SheetError>)
    ensures r.Success? ==> ValidDict(r.value)
  {
    Gather(Stem(fileName, '.'), SheetNames(workbook), SheetResults(fileName, workbook))
  }

  /** One pass of the loop of `Gather`. */
  lemma GatherStep(stem: string, names: seq<string>, results: seq<Result<Option<seq<Record>>, SheetError>>, i: int, d: SheetDict)
    requires |names| == |results| && 0 <= i < |names|
    requires Gather(stem, names[..i], results[..i]) == Success(d)
    ensures Gather(stem, names[..i + 1], results[..i + 1]) ==
      match results[i]
      case Failure(e) => Failure(e)
      case Success(None) => Success(d)
      case Success(Some(frame)) => Success(Insert(d, SheetKey(stem, names[i]), frame))
  {
    assert names[..i + 1][..i] == names[..i];
    assert results[..i + 1][..i] == results[..i];
  }

  /** `process_file`: `fileName` is the file's base name, `workbook` its sheets in order. */
  method ProcessFile(fileName: string, workbook: seq<NamedSheet>) returns (r: Result<SheetDict, SheetError>)
    ensures r == ProcessSheets(fileName, workbook)
    ensures r.Success? ==> ValidDict(r.value)
  {
    ghost var names := SheetNames(workbook);
    ghost var results := SheetResults(fileName, workbook);
    var treatedSheets := EmptyDict;
    var stem := Stem(fileName, '.');
    for i := 0 to |workbook|
      invariant Gather(stem, names[..i], results[..i]) == Success(treatedSheets)
    {
      GatherStep(stem, names, results, i, treatedSheets);
      var sheetName := workbook[i].name;
      var df := ProcessSheet(fileName, sheetName, workbook[i].sheet);
      assert df == results[i] && sheetName == names[i];
      if df.Failure? {
        PrefixFailureSticks(stem, names, results, i + 1);
        assert names[..|names|] == names && results[..|results|] == results;
        return Failure(df.error);
      }
      if df.value.Some? {
        var sheetKey := SheetKey(stem, sheetName);
        treatedSheets := Insert(treatedSheets, sheetKey, df.value.value);
      }
    }
    assert names[..|names|] == names && results[..|results|] == results;
    return Success(treatedSheets);
  }

  /** Once a sheet has raised, the rest of the workbook does not matter. */
  lemma {:induction false} PrefixFailureSticks(stem: string, names: seq<string>, results: seq<Result<Option<seq<Record>>, SheetError>>, i: int)
    requires |names| == |results|
    requires 0 <= i <= |names|
    requires Gather(stem, names[..i], results[..i]).Failure?
    ensures Gather(stem, names, results) == Gather(stem, names[..i], results[..i])
    decreases |names| - i
  {
    if i < |names| {
      var n := |names| - 1;
      assert names[..n][..i] == names[..i];
      assert results[..n][..i] == results[..i];
      PrefixFailureSticks(stem, names[..n], results[..n], i);
    } else {
      assert names[..i] == names && results[..i] == results;
    }
  }

  /** The loop raises exactly when one of the sheets raises, and then with the
      exception of the first such sheet. */
  lemma {:induction false} GatherRaisesFirstError(stem: string, names: seq<string>, results: seq<Result<Option<seq<Record>>, SheetError>>)
    requires |names| == |results|
    ensures Gather(stem, names, results).Failure? <==> exists i :: 0 <= i < |results| && results[i].Failure?
    ensures Gather(stem, names, results).Failure? ==>
      exists i :: 0 <= i < |results| && results[i].Failure?
        && results[i].error == Gather(stem, names, results).error
        && forall j :: 0 <= j < i ==> results[j].Success?
  {
    if names != [] {
      var n := |names| - 1;
      var prefix := results[..n];
      GatherRaisesFirstError(stem, names[..n], prefix);
      assert forall j :: 0 <= j < n ==> prefix[j] == results[j];
      if Gather(stem, names[..n], prefix).Failure? {
        var i :| 0 <= i < n && prefix[i].Failure?
          && prefix[i].error == Gather(stem, names[..n], prefix).error
          && forall j :: 0 <= j < i ==> prefix[j].Success?;
        assert results[i].error == Gather(stem, names, results).error;
      } else if results[n].Failure? {
        assert results[n].error == Gather(stem, names, results).error;
      } else {
        forall i | 0 <= i < |results| ensures results[i].Success? {
          if i < n {
            assert prefix[i].Success?;
          }
        }
      }
    }
  }

  /** `process_file` raises exactly when `process_sheet` raises on one of the
      sheets, and then with the exception of the first such sheet. */
  lemma ProcessFileRaisesFirstError(fileName: string, workbook: seq<NamedSheet>)
    ensures ProcessSheets(fileName, workbook).Failure?
      <==> exists i :: 0 <= i < |workbook| && SheetResults(fileName, workbook)[i].Failure?
    ensures ProcessSheets(fileName, workbook).Failure? ==>
      exists i :: 0 <= i < |workbook| && SheetResults(fileName, workbook)[i].Failure?
        && SheetResults(fileName, workbook)[i].error == ProcessSheets(fileName, workbook).error
        && forall j :: 0 <= j < i ==> SheetResults(fileName, workbook)[j].Success?
  {
    GatherRaisesFirstError(Stem(fileName, '.'), SheetNames(workbook), SheetResults(fileName, workbook));
  }

  /** `process_sheet` returned a frame. */
  predicate IsKept(result: Result<Option<seq<Record>>, SheetError>)
  {
    result.Success? && result.value.Some?
  }

  /** The keys of the sheets that are kept, in workbook order. */
  function KeptKeys(stem: string, names: seq<string>, results: seq<Result<Option<seq<Record>>, SheetError>>): seq<string>
    requires |names| == |results|
  {
    if names == [] then []
    else
      var n := |names| - 1;
      KeptKeys(stem, names[..n], results[..n])
        + (if IsKept(results[n]) then [SheetKey(stem, names[n])] else [])
  }

  /** Different sheet names give different keys. */
  lemma SheetKeyInjective(stem: string, a: string, b: string)
    requires SheetKey(stem, a) == SheetKey(stem, b)
    ensures a == b
  {
  }

  lemma {:induction false} KeyOfOtherName(stem: string, names: seq<string>, results: seq<Result<Option<seq<Record>>, SheetError>>, name: string)
    requires |names| == |results|
    requires name !in names
    ensures SheetKey(stem, name) !in KeptKeys(stem, names, results)
  {
    if names != [] {
      var n := |names| - 1;
      assert forall x :: x in names[..n] ==> x in names;
      KeyOfOtherName(stem, names[..n], results[..n], name);
    }
  }

  /** The last pass of the loop of a loop that did not raise. */
  lemma GatherLast(stem: string, names: seq<string>, results: seq<Result<Option<seq<Record>>, SheetError>>)
    requires |names| == |results| && names != []
    requires Gather(stem, names, results).Success?
    ensures var n := |names| - 1;
      && Gather(stem, names[..n], results[..n]).Success?
      && Gather(stem, names, results).value
        == if IsKept(results[n])
           then Insert(Gather(stem, names[..n], results[..n]).value, SheetKey(stem, names[n]), results[n].value.value)
           else Gather(stem, names[..n], results[..n]).value
  {
  }

  /** Storing a frame under a new key leaves the other keys' frames alone. */
  lemma InsertKeepsOthers(d: SheetDict, key: string, frame: seq<Record>, k: string)
    requires ValidDict(d) && key !in d.frames && k in d.frames
    ensures Insert(d, key, frame).keys == d.keys + [key]
    ensures k in Insert(d, key, frame).frames && Insert(d, key, frame).frames[k] == d.frames[k]
  {
  }

  /** With distinct sheet names, the loop maps `stem + "_" + name` to the frame
      of every kept sheet, in sheet order, and has no other key. */
  lemma {:induction false} GatherKeys(stem: string, names: seq<string>, results: seq<Result<Option<seq<Record>>, SheetError>>)
    requires |names| == |results|
    requires forall i, j :: 0 <= i < j < |names| ==> names[i] != names[j]
    requires Gather(stem, names, results).Success?
    ensures Gather(stem, names, results).value.keys == KeptKeys(stem, names, results)
    ensures forall i :: 0 <= i < |results| && IsKept(results[i]) ==>
      && SheetKey(stem, names[i]) in Gather(stem, names, results).value.frames
      && Gather(stem, names, results).value.frames[SheetKey(stem, names[i])] == results[i].value.value
  {
    if names != [] {
      var n := |names| - 1;
      var prefixNames, prefixResults := names[..n], results[..n];
      GatherLast(stem, names, results);
      assert forall j :: 0 <= j < n ==> prefixNames[j] == names[j] && prefixResults[j] == results[j];
      GatherKeys(stem, prefixNames, prefixResults);
      var d := Gather(stem, prefixNames, prefixResults).value;
      var r := Gather(stem, names, results).value;
      var key := SheetKey(stem, names[n]);
      KeyOfOtherName(stem, prefixNames, prefixResults, names[n]);
      assert key !in d.frames;
      forall i | 0 <= i < n && IsKept(results[i])
        ensures SheetKey(stem, names[i]) in r.frames && r.frames[SheetKey(stem, names[i])] == results[i].value.value
      {
        var k := SheetKey(stem, names[i]);
        assert k in d.frames && d.frames[k] == results[i].value.value;
        if IsKept(results[n]) {
          assert k != key;
          InsertKeepsOthers(d, key, results[n].value.value, k);
        }
      }
    }
  }

  /** For a workbook with distinct sheet names, `process_file` maps
      `stem + "_" + sheet_name` to the frame of every kept sheet, in workbook
      order, and has no other key: a sheet lacking a required column adds nothing. */
  lemma ProcessFileKeys(fileName: string, workbook: seq<NamedSheet>)
    requires forall i, j :: 0 <= i < j < |workbook| ==> workbook[i].name != workbook[j].name
    requires ProcessSheets(fileName, workbook).Success?
    ensures ProcessSheets(fileName, workbook).value.keys
      == KeptKeys(Stem(fileName, '.'), SheetNames(workbook), SheetResults(fileName, workbook))
    ensures forall i :: 0 <= i < |workbook| && IsKept(SheetResults(fileName, workbook)[i]) ==>
      && SheetKey(Stem(fileName, '.'), workbook[i].name) in ProcessSheets(fileName, workbook).value.frames
      && ProcessSheets(fileName, workbook).value.frames[SheetKey(Stem(fileName, '.'), workbook[i].name)]
        == SheetResults(fileName, workbook)[i].value.value
  {
    GatherKeys(Stem(fileName, '.'), SheetNames(workbook), SheetResults(fileName, workbook));
  }

  /** The longest tab name a workbook accepts. */
  const MaxTabTitle := 31

  /** `sheet_key[:31]`. */
  function TabTitle(key: string): (title: string)
    ensures |title| == if |key| < MaxTabTitle then |key| else MaxTabTitle
    ensures title <= key
  {
    if |key| <= MaxTabTitle then key else key[..MaxTabTitle]
  }

  /** One `df.to_excel(writer, sheet_name=...)` call of the first workbook. */
  datatype Tab = Tab(title: string, rows: seq<Record>)

  const WorkbookPath := "consolidated_data.xlsx"
  const SingleSheetPath := "consolidated_data_single_sheet.xlsx"
  const ConsolidatedTitle := "Consolidated"

  /** The two workbooks written: one tab per key, and the single consolidated tab. */
  datatype Export = Export(path: string, tabs: seq<Tab>, singlePath: string, single: Tab)

  /** The `ValueError` of `pd.concat` on an empty dictionary. */
  datatype ExportError = NoObjectsToConcatenate

  /** `pd.concat(treated_sheets.values(), ignore_index=True)`. */
  function Concatenated(keys: seq<string>, frames: map<string, seq<Record>>): seq<Record>
    requires forall k :: k in keys ==> k in frames
  {
    if keys == [] then [] else
      var n := |keys| - 1;
      Concatenated(keys[..n], frames) + frames[keys[n]]
  }

  /** The sum of the row counts of the frames. */
  function TotalRows(keys: seq<string>, frames: map<string, seq<Record>>): nat
    requires forall k :: k in keys ==> k in frames
  {
    if keys == [] then 0 else
      var n := |keys| - 1;
      TotalRows(keys[..n], frames) + |frames[keys[n]]|
  }

  /** The rows of all tabs, tab after tab. */
  function TabRows(tabs: seq<Tab>): seq<Record>
  {
    if tabs == [] then [] else
      var n := |tabs| - 1;
      TabRows(tabs[..n]) + tabs[n].rows
  }

  /** The single-sheet export has as many rows as all per-sheet frames together. */
  lemma {:induction false} ConcatenatedRowCount(keys: seq<string>, frames: map<string, seq<Record>>)
    requires forall k :: k in keys ==> k in frames
    ensures |Concatenated(keys, frames)| == TotalRows(keys, frames)
  {
    if keys != [] {
      var n := |keys| - 1;
      ConcatenatedRowCount(keys[..n], frames);
    }
  }

  /** The `for sheet_key, df in treated_sheets.items()` loop: one tab per key,
      in key order, whose rows read one after the other are the concatenation. */
  method WriteTabs(keys: seq<string>, frames: map<string, seq<Record>>) returns (tabs: seq<Tab>)
    requires forall k :: k in keys ==> k in frames
    ensures |tabs| == |keys|
    ensures forall i :: 0 <= i < |keys| ==> tabs[i] == Tab(TabTitle(keys[i]), frames[keys[i]])
    ensures TabRows(tabs) == Concatenated(keys, frames)
  {
    tabs := [];
    for i := 0 to |keys|
      invariant |tabs| == i
      invariant forall j :: 0 <= j < i ==> tabs[j] == Tab(TabTitle(keys[j]), frames[keys[j]])
      invariant TabRows(tabs) == Concatenated(keys[..i], frames)
    {
      var sheetKey := keys[i];
      var df := frames[sheetKey];
      assert keys[..i + 1][..i] == keys[..i];
      assert (tabs + [Tab(TabTitle(sheetKey), df)])[..i] == tabs;
      tabs := tabs + [Tab(TabTitle(sheetKey), df)];
    }
    assert keys[..|keys|] == keys;
  }

  /** `save_all_sheets`: the tab-per-key workbook and the single-sheet workbook,
      which agree row for row; an empty dictionary raises before anything is written. */
  method SaveAllSheets(d: SheetDict) returns (r: Result<Export, ExportError>)
    requires ValidDict(d)
    ensures r.Failure? <==> d.keys == []
    ensures r.Success? ==>
      && r.value.path == WorkbookPath && r.value.singlePath == SingleSheetPath
      && |r.value.tabs| == |d.keys|
      && (forall i :: 0 <= i < |d.keys| ==>
            r.value.tabs[i] == Tab(TabTitle(d.keys[i]), d.frames[d.keys[i]]))
      && r.value.single == Tab(ConsolidatedTitle, Concatenated(d.keys, d.frames))
      && TabRows(r.value.tabs) == r.value.single.rows
  {
    if d.keys == [] {
      return Failure(NoObjectsToConcatenate);
    }
    var consolidated := Concatenated(d.keys, d.frames);
    var tabs := WriteTabs(d.keys, d.frames);
    return Success(Export(WorkbookPath, tabs, SingleSheetPath, Tab(ConsolidatedTitle, consolidated)));
  }
}
