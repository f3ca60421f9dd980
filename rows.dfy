/** The row transformation of the import (src/routes/contribuables/importRoutes.ts):
    every data row of the sheet becomes a taxpayer record, looked up through
    the header mapping, and rows without a NIF are dropped. */
module Rows {
  import opened Wrappers
  import opened JsText
  import opened Calendar
  import opened Cells
  import opened DateParsing
  import opened Headers

  /** A data row as the spreadsheet reader yields it: raw header text to cell.
      Empty cells have no key. */
  type Row = map<string, Cell>

  /** The record handed to the store. */
  datatype Contribuable = Contribuable(
    dateDepot: Date,
    aJour: bool,
    nif: string,
    raisonSociale: string,
    documents: string,
    quantite: int,
    centreGestionnaire: string,
    dateArriveeImmat: Option<Date>,
    dateLivraisonSG: Option<Date>,
    nombreJoursTraitement: Option<int>,
    rejet: bool,
    observation: Option<string>)

  /** `row[headerMappings[field]]`: the key is the spelling the field was
      matched with; an unmapped field looks up the key "undefined"; a key the
      row lacks (an empty cell) reads as `undefined`. */
  function CellAt(row: Row, mapping: map<string, string>, field: string): (r: Cell)
    ensures field in mapping && mapping[field] in row ==> r == row[mapping[field]]
    ensures field in mapping && mapping[field] !in row ==> r.Undefined?
    ensures field !in mapping && "undefined" in row ==> r == row["undefined"]
    ensures field !in mapping && "undefined" !in row ==> r.Undefined?
    ensures r.Undefined? || r in row.Values
  {
    var key := if field in mapping then mapping[field] else "undefined";
    if key in row then row[key] else Undefined
  }

  /** `calculerNombreJoursTraitement`: whole days from arrival to delivery, or
      nothing when either date is missing. Both dates sit at midnight, so the
      day difference is the difference of day numbers. */
  function ProcessingDays(arrival: Option<Date>, delivery: Option<Date>): (r: Option<int>)
    ensures r.None? <==> arrival.None? || delivery.None?
  {
    if arrival.None? || delivery.None? then None
    else Some(delivery.value.day - arrival.value.day)
  }

  /** Swapping the two dates negates the count: it is not clamped at zero. */
  lemma ProcessingDaysAntisymmetric(a: Date, b: Date)
    ensures ProcessingDays(Some(a), Some(b)).value == -ProcessingDays(Some(b), Some(a)).value
  {
  }

  /** Counts along a chain of dates add up. */
  lemma ProcessingDaysAdd(a: Date, b: Date, c: Date)
    ensures ProcessingDays(Some(a), Some(c)).value
      == ProcessingDays(Some(a), Some(b)).value + ProcessingDays(Some(b), Some(c)).value
  {
  }

  /** Within one month the count is the difference of the days of the month,
      e.g. 5 from 2023-01-05 to 2023-01-10. */
  lemma ProcessingDaysSameMonth(y: int, m: int, d1: int, d2: int)
    requires 0 <= m < 12
    ensures ProcessingDays(Some(Date(MakeDay(y, m, d1))), Some(Date(MakeDay(y, m, d2)))) == Some(d2 - d1)
  {
  }

  /** Serial dates `k` and `k + n` (both nonzero) are `n` days apart. */
  lemma ProcessingDaysOfSerials(k: int, n: int)
    requires k != 0 && k + n != 0
    ensures ProcessingDays(ExcelDate(Num(k)), ExcelDate(Num(k + n))) == Some(n)
  {
  }

  /** `cell !== undefined ? String(cell).trim() : ""`, the NIF and document rule. */
  function PresentText(c: Cell): (r: string)
    ensures c.Undefined? ==> r == ""
    ensures !c.Undefined? ==> r == Trim(ToJsString(c))
    ensures r == [] || (!IsSpace(r[0]) && !IsSpace(r[|r| - 1]))
  {
    if c.Undefined? then "" else Trim(ToJsString(c))
  }

  /** `String(cell || "").trim()`, the rule for company name and tax centre. */
  function TruthyText(c: Cell): (r: string)
    ensures !Truthy(c) ==> r == ""
    ensures Truthy(c) ==> r == Trim(ToJsString(c))
  {
    Trim(ToJsString(if Truthy(c) then c else Str("")))
  }

  /** `isNaN(Number(cell)) ? 0 : Number(cell)`. */
  function Quantity(c: Cell): (r: int)
    ensures ToJsNumber(c).None? ==> r == 0
    ensures ToJsNumber(c).Some? ==> r == ToJsNumber(c).value
  {
    match ToJsNumber(c)
    case None => 0
    case Some(v) => v
  }

  /** `cell ? String(cell).trim() : null`. */
  function Observation(c: Cell): (r: Option<string>)
    ensures r.Some? <==> Truthy(c)
    ensures r.Some? ==> r.value == Trim(ToJsString(c))
  {
    if Truthy(c) then Some(Trim(ToJsString(c))) else None
  }

  /** The record built from a row whose NIF is `nif`. */
  function Record(row: Row, mapping: map<string, string>, now: Date, nif: string): (r: Contribuable)
    ensures r.nif == nif
    ensures r.nombreJoursTraitement == ProcessingDays(r.dateArriveeImmat, r.dateLivraisonSG)
  {
    var arrival := ExcelDate(CellAt(row, mapping, ArriveeField));
    var delivery := ExcelDate(CellAt(row, mapping, LivraisonField));
    Contribuable(
      dateDepot := ExcelDate(CellAt(row, mapping, DateDepotField)).GetOr(now),
      aJour := IsOui(CellAt(row, mapping, AJourField)),
      nif := nif,
      raisonSociale := TruthyText(CellAt(row, mapping, RaisonSocialeField)),
      documents := PresentText(CellAt(row, mapping, DocumentField)),
      quantite := Quantity(CellAt(row, mapping, QuantiteField)),
      centreGestionnaire := TruthyText(CellAt(row, mapping, CentreField)),
      dateArriveeImmat := arrival,
      dateLivraisonSG := delivery,
      nombreJoursTraitement := ProcessingDays(arrival, delivery),
      rejet := IsOui(CellAt(row, mapping, RejetField)),
      observation := Observation(CellAt(row, mapping, ObservationField)))
  }

  /** The `map` callback: a record, or nothing for a row whose NIF is empty.
      A row is dropped exactly when its NIF cell is absent or blank, and a kept
      record carries the trimmed text of that cell, which is not empty. */
  function TransformRow(row: Row, mapping: map<string, string>, now: Date): (r: Option<Contribuable>)
    ensures r.Some? <==> HasNif(row, mapping)
    ensures r.Some? ==> var c := CellAt(row, mapping, NifField);
      && r.value.nif != "" && Trim(r.value.nif) == r.value.nif
      && r.value.nif == Trim(ToJsString(c))
  {
    var c := CellAt(row, mapping, NifField);
    TrimEmptyIffSpaces(ToJsString(c));
    TrimIdempotent(ToJsString(c));
    var nif := PresentText(c);
    if nif == "" then None else Some(Record(row, mapping, now, nif))
  }

  /** A row is kept when its NIF cell is present and not all white space. */
  predicate HasNif(row: Row, mapping: map<string, string>) {
    var c := CellAt(row, mapping, NifField);
    !c.Undefined? && !AllSpaces(ToJsString(c))
  }

  /** A kept record's deposit date is the one read from the sheet, or `now`
      when the cell does not read as a date; its arrival and delivery dates
      are read from their cells and its processing-day count is taken between
      those two dates, present exactly when both are; its quantity is 0 when
      the cell is not a number; and its text fields follow their cells. */
  lemma KeptDefaults(row: Row, mapping: map<string, string>, now: Date)
    requires TransformRow(row, mapping, now).Some?
    ensures var r := TransformRow(row, mapping, now).value;
      var deposit := ExcelDate(CellAt(row, mapping, DateDepotField));
      && (deposit.None? ==> r.dateDepot == now)
      && (deposit.Some? ==> r.dateDepot == deposit.value)
      && r.dateArriveeImmat == ExcelDate(CellAt(row, mapping, ArriveeField))
      && r.dateLivraisonSG == ExcelDate(CellAt(row, mapping, LivraisonField))
      && r.nombreJoursTraitement == ProcessingDays(r.dateArriveeImmat, r.dateLivraisonSG)
      && (r.nombreJoursTraitement.Some? <==> r.dateArriveeImmat.Some? && r.dateLivraisonSG.Some?)
      && (ToJsNumber(CellAt(row, mapping, QuantiteField)).None? ==> r.quantite == 0)
      && r.quantite == Quantity(CellAt(row, mapping, QuantiteField))
      && r.raisonSociale == TruthyText(CellAt(row, mapping, RaisonSocialeField))
      && r.centreGestionnaire == TruthyText(CellAt(row, mapping, CentreField))
      && r.documents == PresentText(CellAt(row, mapping, DocumentField))
      && r.observation == Observation(CellAt(row, mapping, ObservationField))
  {
    var nif := PresentText(CellAt(row, mapping, NifField));
    assert TransformRow(row, mapping, now) == Some(Record(row, mapping, now, nif));
    RecordDefaults(row, mapping, now, nif);
  }

  /** The fields of `KeptDefaults`, for the record built with any NIF. */
  lemma RecordDefaults(row: Row, mapping: map<string, string>, now: Date, nif: string)
    ensures var r := Record(row, mapping, now, nif);
      var deposit := ExcelDate(CellAt(row, mapping, DateDepotField));
      && (deposit.None? ==> r.dateDepot == now)
      && (deposit.Some? ==> r.dateDepot == deposit.value)
      && r.dateArriveeImmat == ExcelDate(CellAt(row, mapping, ArriveeField))
      && r.dateLivraisonSG == ExcelDate(CellAt(row, mapping, LivraisonField))
      && r.nombreJoursTraitement == ProcessingDays(r.dateArriveeImmat, r.dateLivraisonSG)
      && (r.nombreJoursTraitement.Some? <==> r.dateArriveeImmat.Some? && r.dateLivraisonSG.Some?)
      && (ToJsNumber(CellAt(row, mapping, QuantiteField)).None? ==> r.quantite == 0)
      && r.quantite == Quantity(CellAt(row, mapping, QuantiteField))
      && r.raisonSociale == TruthyText(CellAt(row, mapping, RaisonSocialeField))
      && r.centreGestionnaire == TruthyText(CellAt(row, mapping, CentreField))
      && r.documents == PresentText(CellAt(row, mapping, DocumentField))
      && r.observation == Observation(CellAt(row, mapping, ObservationField))
  {
    var r := Record(row, mapping, now, nif);
    assert r.dateDepot == ExcelDate(CellAt(row, mapping, DateDepotField)).GetOr(now);
    assert r.quantite == Quantity(CellAt(row, mapping, QuantiteField));
  }

  /** A kept row whose arrival and delivery cells are the serials `k` and
      `k + n` (both nonzero) records `n` processing days. */
  lemma KeptSerialDays(row: Row, mapping: map<string, string>, now: Date, k: int, n: int)
    requires TransformRow(row, mapping, now).Some?
    requires k != 0 && k + n != 0
    requires CellAt(row, mapping, ArriveeField) == Num(k)
    requires CellAt(row, mapping, LivraisonField) == Num(k + n)
    ensures TransformRow(row, mapping, now).value.nombreJoursTraitement == Some(n)
  {
    KeptDefaults(row, mapping, now);
    ProcessingDaysOfSerials(k, n);
  }

  /** The yes/no columns of a kept record are true exactly for a text cell
      spelling "oui" in any mix of cases: nothing is trimmed and an absent
      cell is false. */
  lemma KeptFlags(row: Row, mapping: map<string, string>, now: Date)
    requires TransformRow(row, mapping, now).Some?
    ensures var r := TransformRow(row, mapping, now).value;
      var a, j := CellAt(row, mapping, AJourField), CellAt(row, mapping, RejetField);
      && (r.aJour <==> a.Str? && CaselessOui(a.s))
      && (r.rejet <==> j.Str? && CaselessOui(j.s))
  {
    IsOuiExactly(CellAt(row, mapping, AJourField));
    IsOuiExactly(CellAt(row, mapping, RejetField));
  }

  /** `jsonData.map(...)`: the outcome for every row, in row order. */
  function RowResults(rows: seq<Row>, mapping: map<string, string>, now: Date): (out: seq<Option<Contribuable>>)
    ensures |out| == |rows| && forall i :: 0 <= i < |rows| ==> out[i] == TransformRow(rows[i], mapping, now)
  {
    seq(|rows|, i requires 0 <= i < |rows| => TransformRow(rows[i], mapping, now))
  }

  /** `.filter(item => item !== null)`: the present values, in order. */
  function NonNull<T>(xs: seq<Option<T>>): (out: seq<T>)
    ensures |out| <= |xs|
  {
    if xs == [] then []
    else (if xs[0].Some? then [xs[0].value] else []) + NonNull(xs[1..])
  }

  /** Every value kept by the filter is present at some position of the input. */
  lemma {:induction false} NonNullFrom<T>(xs: seq<Option<T>>)
    ensures forall v :: v in NonNull(xs) ==> exists i :: 0 <= i < |xs| && xs[i] == Some(v)
  {
    if xs != [] {
      NonNullFrom(xs[1..]);
      forall v | v in NonNull(xs)
        ensures exists i :: 0 <= i < |xs| && xs[i] == Some(v)
      {
        if v in NonNull(xs[1..]) {
          var i :| 0 <= i < |xs[1..]| && xs[1..][i] == Some(v);
          assert xs[i + 1] == Some(v);
        } else {
          assert xs[0] == Some(v);
        }
      }
    }
  }

  /** The filter keeps nothing exactly when every value is absent. */
  lemma {:induction false} NonNullEmpty<T>(xs: seq<Option<T>>)
    ensures NonNull(xs) == [] <==> forall i :: 0 <= i < |xs| ==> xs[i].None?
  {
    if xs != [] {
      NonNullEmpty(xs[1..]);
      assert forall i :: 1 <= i < |xs| ==> xs[i] == xs[1..][i - 1];
    }
  }

  /** The filter works piecewise: filtering a concatenation is concatenating
      the filtered pieces, so order is kept. */
  lemma {:induction false} NonNullConcat<T>(xs: seq<Option<T>>, ys: seq<Option<T>>)
    ensures NonNull(xs + ys) == NonNull(xs) + NonNull(ys)
    decreases |xs|
  {
    if xs == [] {
      assert xs + ys == ys;
    } else {
      assert (xs + ys)[0] == xs[0];
      assert (xs + ys)[1..] == xs[1..] + ys;
      NonNullConcat(xs[1..], ys);
    }
  }

  /** A single present value is kept, a single absent one dropped. */
  lemma NonNullSingle<T>(x: Option<T>)
    ensures x.Some? ==> NonNull([x]) == [x.value]
    ensures x.None? ==> NonNull([x]) == []
  {
    assert [x][1..] == [];
  }

  /** A present value at position `i` is kept, between the values kept
      before it and those kept after it. */
  lemma NonNullKeeps<T>(xs: seq<Option<T>>, i: nat)
    requires i < |xs| && xs[i].Some?
    ensures NonNull(xs) == NonNull(xs[..i]) + ([xs[i].value] + NonNull(xs[i + 1..]))
  {
    var pre, mid, post := xs[..i], [xs[i]], xs[i + 1..];
    assert xs == pre + (mid + post);
    NonNullConcat(pre, mid + post);
    NonNullConcat(mid, post);
    NonNullSingle(xs[i]);
  }

  /** The rows of the sheet that become records, in row order. */
  function TransformRows(rows: seq<Row>, mapping: map<string, string>, now: Date): (out: seq<Contribuable>)
    ensures |out| <= |rows|
  {
    NonNull(RowResults(rows, mapping, now))
  }

  /** Transforming two runs of rows one after the other gives the records of
      the first run followed by those of the second. */
  lemma TransformRowsConcat(a: seq<Row>, b: seq<Row>, mapping: map<string, string>, now: Date)
    ensures TransformRows(a + b, mapping, now) == TransformRows(a, mapping, now) + TransformRows(b, mapping, now)
  {
    var xs, ys, zs := RowResults(a + b, mapping, now), RowResults(a, mapping, now), RowResults(b, mapping, now);
    forall i | 0 <= i < |xs|
      ensures xs[i] == (ys + zs)[i]
    {
      if i < |a| {
        assert (a + b)[i] == a[i];
      } else {
        assert (a + b)[i] == b[i - |a|];
      }
    }
    assert xs == ys + zs;
    NonNullConcat(ys, zs);
  }

  /** The map's outcomes for the rows before and after position `i` are the
      outcomes before and after that position. */
  lemma RowResultsSlices(rows: seq<Row>, i: nat, mapping: map<string, string>, now: Date)
    requires i < |rows|
    ensures RowResults(rows[..i], mapping, now) == RowResults(rows, mapping, now)[..i]
    ensures RowResults(rows[i + 1..], mapping, now) == RowResults(rows, mapping, now)[i + 1..]
  {
  }

  /** Every row with a NIF contributes its record, in row order: the records
      are those of the rows before it, then its own, then those after it. */
  lemma TransformRowsKeepsRow(rows: seq<Row>, i: nat, mapping: map<string, string>, now: Date)
    requires i < |rows| && HasNif(rows[i], mapping)
    ensures TransformRows(rows, mapping, now) ==
      TransformRows(rows[..i], mapping, now)
        + ([TransformRow(rows[i], mapping, now).value] + TransformRows(rows[i + 1..], mapping, now))
  {
    var xs := RowResults(rows, mapping, now);
    RowResultsSlices(rows, i, mapping, now);
    NonNullKeeps(xs, i);
  }

  /** How many rows have a NIF. */
  function KeptCount(rows: seq<Row>, mapping: map<string, string>): nat {
    if rows == [] then 0
    else (if HasNif(rows[0], mapping) then 1 else 0) + KeptCount(rows[1..], mapping)
  }

  /** A NIF as every kept record carries it: nonempty and trimmed. */
  predicate CleanNif(r: Contribuable) {
    r.nif != "" && Trim(r.nif) == r.nif
  }

  /** The transformed sequence holds one record per row with a NIF. */
  lemma {:induction false} TransformRowsCount(rows: seq<Row>, mapping: map<string, string>, now: Date)
    ensures |TransformRows(rows, mapping, now)| == KeptCount(rows, mapping)
  {
    if rows != [] {
      var xs := RowResults(rows, mapping, now);
      assert xs[1..] == RowResults(rows[1..], mapping, now);
      TransformRowsCount(rows[1..], mapping, now);
    }
  }

  /** Every record of the transformed sequence has a nonempty trimmed NIF. */
  lemma TransformRowsNifs(rows: seq<Row>, mapping: map<string, string>, now: Date)
    ensures forall r :: r in TransformRows(rows, mapping, now) ==> CleanNif(r)
  {
    var xs := RowResults(rows, mapping, now);
    NonNullFrom(xs);
    forall r | r in TransformRows(rows, mapping, now)
      ensures CleanNif(r)
    {
      var i :| 0 <= i < |xs| && xs[i] == Some(r);
    }
  }

  /** Nothing is kept exactly when no row has a NIF. */
  lemma NoneKeptIffNoNif(rows: seq<Row>, mapping: map<string, string>, now: Date)
    ensures TransformRows(rows, mapping, now) == [] <==> forall i :: 0 <= i < |rows| ==> !HasNif(rows[i], mapping)
  {
    NonNullEmpty(RowResults(rows, mapping, now));
  }

  /** The rows of a sheet carry only keys taken from the sheet's header row. */
  predicate KeyedBy(row: Row, header: seq<string>) {
    forall k :: k in row ==> k in header
  }

  /** A field whose first spelling matches a header of the sheet only after
      normalisation is looked up under that spelling, which is not a key of
      the sheet's rows: the column reads as absent in every row. */
  lemma ShadowedColumnUnread(table: seq<Expected>, header: seq<string>, row: Row, k: nat, h: string)
    requires DistinctFields(table) && k < |table| && table[k].variants != [] && table[k].variants[0] != ""
    requires h in header && Normalize(h) == Normalize(table[k].variants[0])
    requires table[k].variants[0] !in header && KeyedBy(row, header)
    ensures CellAt(row, Resolve(table, NormalizeAll(header)).mapping, table[k].field) == Undefined
  {
    FirstSpellingShadows(table, header, k, h);
  }

  /** The document column is never read from a sheet that spells its header
      "Document demandé" with one space (and nowhere with two): the field is
      bound to the two-space spelling, which no row has as a key, so every
      record gets an empty `documents`. */
  lemma DocumentColumnUnread(header: seq<string>, row: Row, now: Date)
    requires DocumentField in header && DocumentTwoSpaces !in header
    requires KeyedBy(row, header)
    requires TransformRow(row, Resolve(ExpectedHeaders, NormalizeAll(header)).mapping, now).Some?
    ensures TransformRow(row, Resolve(ExpectedHeaders, NormalizeAll(header)).mapping, now).value.documents == ""
  {
    DocumentResolvesToFirstSpelling(header);
  }
}
