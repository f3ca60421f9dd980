/** The import route (src/routes/contribuables/importRoutes.ts, `POST /import`)
    from an already decoded workbook to the summary: the checks on the upload,
    the header check, the row transformation, the skip-duplicate insert and
    the counts reported back. */
module Import {
  import opened Wrappers
  import opened Calendar
  import opened Headers
  import opened Rows
  import opened Store

  /** A worksheet: whether it has a used range (`!ref`), its first row as
      header text, and the data rows below it keyed by that text. */
  datatype Sheet = Sheet(hasRange: bool, header: seq<string>, rows: seq<Row>)

  datatype Workbook = Workbook(sheetNames: seq<string>, sheets: map<string, Sheet>)

  /** The 400 answers of the route, in the order they are checked. */
  datatype ImportError =
    | NoFile
    | NoSheet
    | EmptySheet
    | MissingHeaders(missing: seq<string>, foundHeaders: seq<string>)
    | NoData
    | NoValidRows

  datatype Summary = Summary(importedCount: nat, totalCount: nat)

  /** The first sheet of the workbook, if it has a used range. */
  function FirstSheet(wb: Workbook): Result<Sheet, ImportError> {
    if wb.sheetNames == [] then Failure(NoSheet)
    else if wb.sheetNames[0] !in wb.sheets || !wb.sheets[wb.sheetNames[0]].hasRange then Failure(EmptySheet)
    else Success(wb.sheets[wb.sheetNames[0]])
  }

  /** The header mapping of a sheet against a table of expected fields. */
  function SheetResolution(table: seq<Expected>, sheet: Sheet): Resolution {
    Resolve(table, NormalizeAll(sheet.header))
  }

  /** Everything before the insert: the checks that answer 400, and the
      records to insert. `upload` is `None` when no file was sent; the route
      checks the headers against `ExpectedHeaders`. */
  function PrepareImport(table: seq<Expected>, upload: Option<Workbook>, now: Date): (r: Result<seq<Contribuable>, ImportError>)
    ensures r == Failure(NoFile) <==> upload.None?
    ensures r.Success? ==> r.value != [] && forall c :: c in r.value ==> CleanNif(c)
  {
    if upload.None? then Failure(NoFile)
    else
      var first := FirstSheet(upload.value);
      if first.Failure? then Failure(first.error)
      else
        var sheet := first.value;
        var res := SheetResolution(table, sheet);
        if res.missing != [] then Failure(MissingHeaders(res.missing, sheet.header))
        else if sheet.rows == [] then Failure(NoData)
        else
          var data := TransformRows(sheet.rows, res.mapping, now);
          TransformRowsNifs(sheet.rows, res.mapping, now);
          if data == [] then Failure(NoValidRows) else Success(data)
  }

  /** The summary of a successful import into a store holding `present`: it
      never reports more inserted records than it sent. */
  function ImportSummary<K(==)>(data: seq<Contribuable>, present: set<K>, keyOf: Contribuable -> K): (r: Summary)
    ensures r.importedCount <= r.totalCount == |data|
  {
    Summary(|Fresh(data, present, keyOf)|, |data|)
  }

  /** The route: on an error nothing is written; otherwise the fresh records
      are appended to the store and counted. */
  method Import<K(==)>(store: Store<K>, upload: Option<Workbook>, now: Date) returns (r: Result<Summary, ImportError>)
    requires store.Valid()
    modifies store
    ensures store.Valid()
    ensures PrepareImport(ExpectedHeaders, upload, now).Failure? ==>
      r == Failure(PrepareImport(ExpectedHeaders, upload, now).error) && store.records == old(store.records) && store.keys == old(store.keys)
    ensures PrepareImport(ExpectedHeaders, upload, now).Success? ==>
      var data := PrepareImport(ExpectedHeaders, upload, now).value;
      && store.records == old(store.records) + Fresh(data, old(store.keys), store.keyOf)
      && r == Success(ImportSummary(data, old(store.keys), store.keyOf))
  {
    if upload.None? {
      return Failure(NoFile);
    }
    var first := FirstSheet(upload.value);
    if first.Failure? {
      return Failure(first.error);
    }
    var sheet := first.value;
    var missing, mapping := CheckHeaders(ExpectedHeaders, sheet.header);
    if |missing| > 0 {
      return Failure(MissingHeaders(missing, sheet.header));
    }
    if |sheet.rows| == 0 {
      return Failure(NoData);
    }
    var data := TransformRows(sheet.rows, mapping, now);
    if |data| == 0 {
      return Failure(NoValidRows);
    }
    var count := store.CreateMany(data);
    return Success(Summary(count, |data|));
  }

  /** The header check comes before any row is looked at: a sheet missing a
      field is refused with the list of missing fields (`MissingFieldsListed`
      says which) and its header row, whatever its rows hold. */
  lemma HeadersCheckedFirst(table: seq<Expected>, wb: Workbook, now: Date, otherRows: seq<Row>)
    requires FirstSheet(wb).Success? && SheetResolution(table, FirstSheet(wb).value).missing != []
    ensures var sheet := FirstSheet(wb).value;
      && PrepareImport(table, Some(wb), now) == Failure(MissingHeaders(SheetResolution(table, sheet).missing, sheet.header))
      && PrepareImport(table, Some(wb.(sheets := wb.sheets[wb.sheetNames[0] := sheet.(rows := otherRows)])), now)
         == PrepareImport(table, Some(wb), now)
  {
  }

  /** What a successful preparation hands to the insert: one record per row
      with a NIF, in row order, at least one, each with a nonempty trimmed NIF. */
  lemma PreparedRecords(table: seq<Expected>, upload: Option<Workbook>, now: Date)
    requires PrepareImport(table, upload, now).Success?
    ensures var sheet := FirstSheet(upload.value).value;
      var data := PrepareImport(table, upload, now).value;
      && SheetResolution(table, sheet).missing == []
      && data == TransformRows(sheet.rows, SheetResolution(table, sheet).mapping, now)
      && 0 < |data| == KeptCount(sheet.rows, SheetResolution(table, sheet).mapping) <= |sheet.rows|
      && forall c :: c in data ==> CleanNif(c)
  {
    var sheet := FirstSheet(upload.value).value;
    TransformRowsCount(sheet.rows, SheetResolution(table, sheet).mapping, now);
  }

  /** Past the header and empty-sheet checks, the outcome is the transformed rows,
      or the no-valid-rows answer when there are none. */
  lemma PrepareAfterChecks(table: seq<Expected>, wb: Workbook, now: Date, sheet: Sheet)
    requires FirstSheet(wb) == Success(sheet)
    requires SheetResolution(table, sheet).missing == [] && sheet.rows != []
    ensures var data := TransformRows(sheet.rows, SheetResolution(table, sheet).mapping, now);
      PrepareImport(table, Some(wb), now) == if data == [] then Failure(NoValidRows) else Success(data)
  {
  }

  /** A sheet with all headers and some rows is refused as holding no valid
      data exactly when none of its rows has a NIF. */
  lemma NoValidRowsIff(table: seq<Expected>, wb: Workbook, now: Date)
    requires FirstSheet(wb).Success?
    requires SheetResolution(table, FirstSheet(wb).value).missing == [] && FirstSheet(wb).value.rows != []
    ensures var sheet := FirstSheet(wb).value;
      PrepareImport(table, Some(wb), now) == Failure(NoValidRows) <==>
        forall i :: 0 <= i < |sheet.rows| ==> !HasNif(sheet.rows[i], SheetResolution(table, sheet).mapping)
  {
    var sheet := FirstSheet(wb).value;
    PrepareAfterChecks(table, wb, now, sheet);
    NoneKeptIffNoNif(sheet.rows, SheetResolution(table, sheet).mapping, now);
  }

  /** Running the same import again reports nothing inserted and the same total. */
  lemma ReimportSummary<K>(data: seq<Contribuable>, present: set<K>, keyOf: Contribuable -> K)
    ensures var again := ImportSummary(data, present + KeysOf(Fresh(data, present, keyOf), keyOf), keyOf);
      again.importedCount == 0 && again.totalCount == ImportSummary(data, present, keyOf).totalCount
  {
    ReimportInsertsNothing(data, present, keyOf);
  }
}
