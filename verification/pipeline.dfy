/** How the steps fit together: the file a download is saved under
    determines the `Date` tag of every row read back from it. */
module Pipeline {
  import opened Wrappers
  import opened Text
  import opened Calendar
  import opened Naming
  import opened Indexador
  import opened Sheet
  import opened Consolidate

  /** For a workbook saved under the name `format_file_name` gives the business
      day `d`, every kept row carries the date `d` as `YYYYMMDD`, which reads
      back as `d`, and the sheet's indexador. */
  lemma RowsCarryDownloadDate(d: Date, sheetName: string, sheet: RawSheet)
    requires Valid(d)
    requires IsKept(ProcessSheet(FileName(d), sheetName, sheet))
    ensures forall k :: 0 <= k < |ProcessSheet(FileName(d), sheetName, sheet).value.value| ==>
      && ProcessSheet(FileName(d), sheetName, sheet).value.value[k].date == Some(DateStamp(d))
      && ProcessSheet(FileName(d), sheetName, sheet).value.value[k].indexador == DetermineIndexador(sheetName)
    ensures ParseDateStamp(DateStamp(d)) == Some(d)
  {
    FileNameStem(d);
    PhantomRowIsDropped(FileName(d), sheetName, sheet);
  }
}
