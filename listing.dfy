/** The parameter logic of the listing endpoint `GET /api/contribuables`
    (src/routes/contribuables/contribuableRoutes.ts): page and page size, the
    date field to filter and sort on, the filter object handed to the
    database, and the formatting of the rows and of the page count. Query
    values arrive as text; an absent parameter is `None`. */
module Listing {
  import opened Wrappers
  import opened JsText
  import opened Calendar
  import opened Cells
  import DateText
  import opened Rows
  import opened DateParsing

  datatype Query = Query(
    page: Option<string>,
    limit: Option<string>,
    dateType: Option<string>,
    nif: Option<string>,
    raisonSociale: Option<string>,
    centre: Option<string>,
    documents: Option<string>,
    aJour: Option<string>,
    rejet: Option<string>,
    quantiteMin: Option<string>,
    quantiteMax: Option<string>,
    dateDebut: Option<string>,
    dateFin: Option<string>)

  /** `Number(query.x)`; `None` stands for NaN (and `Number(undefined)` is NaN). */
  function QueryNumber(v: Option<string>): Option<int> {
    if v.None? then None else StringToNumber(v.value)
  }

  /** `Number(query.x) || d`: NaN and 0 are falsy. */
  function NumberOr(v: Option<string>, d: int): (r: int)
    ensures QueryNumber(v).None? || QueryNumber(v).value == 0 ==> r == d
    ensures QueryNumber(v).Some? && QueryNumber(v).value != 0 ==> r == QueryNumber(v).value
  {
    var n := QueryNumber(v);
    if n.None? || n.value == 0 then d else n.value
  }

  function Max(a: int, b: int): int { if a >= b then a else b }
  function Min(a: int, b: int): int { if a <= b then a else b }

  /** `Math.max(1, Number(query.page) || 1)`. */
  function Page(q: Query): (p: int)
    ensures p >= 1
  {
    Max(1, NumberOr(q.page, 1))
  }

  /** `Math.min(100, Math.max(1, Number(query.limit) || 10))`. */
  function Limit(q: Query): (l: int)
    ensures 1 <= l <= 100
  {
    Min(100, Max(1, NumberOr(q.limit, 10)))
  }

  /** `(page - 1) * limit`: the rows before page `page`. */
  function Offset(page: int, limit: int): int {
    (page - 1) * limit
  }

  function Skip(q: Query): int {
    Offset(Page(q), Limit(q))
  }

  /** The page is at least 1; it is 1 for an absent, non-numeric or zero
      parameter, and the number itself for a positive one. */
  lemma PageClamped(q: Query)
    ensures Page(q) >= 1
    ensures QueryNumber(q.page).None? || QueryNumber(q.page).value <= 1 ==> Page(q) == 1
    ensures QueryNumber(q.page).Some? && QueryNumber(q.page).value >= 1 ==> Page(q) == QueryNumber(q.page).value
  {
  }

  /** The page size lies in 1..100; it is 10 for an absent, non-numeric or
      zero parameter, 1 for a negative one, 100 above 100, and the number
      itself in between. */
  lemma LimitClamped(q: Query)
    ensures 1 <= Limit(q) <= 100
    ensures QueryNumber(q.limit).None? || QueryNumber(q.limit).value == 0 ==> Limit(q) == 10
    ensures QueryNumber(q.limit).Some? && QueryNumber(q.limit).value < 0 ==> Limit(q) == 1
    ensures QueryNumber(q.limit).Some? && QueryNumber(q.limit).value > 100 ==> Limit(q) == 100
    ensures QueryNumber(q.limit).Some? && 1 <= QueryNumber(q.limit).value <= 100 ==> Limit(q) == QueryNumber(q.limit).value
  {
  }

  /** The offset is a non-negative multiple of the page size from which the
      page number is recovered. */
  lemma SkipWholePages(q: Query)
    ensures Skip(q) >= 0 && Skip(q) % Limit(q) == 0
    ensures Skip(q) / Limit(q) + 1 == Page(q)
  {
    WholePages(Page(q), Limit(q));
  }

  /** The offset of page `page` at `l` records a page divides back to it. */
  lemma WholePages(page: int, l: int)
    requires page >= 1 && l >= 1
    ensures Offset(page, l) >= 0 && Offset(page, l) % l == 0
    ensures Offset(page, l) / l + 1 == page
  {
    MultipleDivides(page - 1, l, Offset(page, l));
  }

  /** A multiple `x` of a positive `l` divides back exactly. */
  lemma MultipleDivides(p: nat, l: int, x: int)
    requires l >= 1 && x == p * l
    ensures x >= 0 && x / l == p && x % l == 0
  {
    var d, m := x / l, x % l;
    assert x == d * l + m && 0 <= m < l;
    assert (p - d) * l == m;
    if p > d {
      MulGrows(p - d, l);
    }
    if p > 0 {
      MulGrows(p, l);
    }
  }

  lemma MulGrows(k: int, l: int)
    requires k >= 1 && l >= 1
    ensures k * l >= l
  {
    assert (k - 1) * l >= 0;
    assert k * l == (k - 1) * l + l;
  }

  /** A page number given as its decimal text is read as that page. */
  lemma PageOfText(q: Query, n: nat)
    requires n >= 1 && q.page == Some(NatToString(n))
    ensures Page(q) == n
  {
    assert IntToString(n) == NatToString(n);
    IntToStringRoundTrip(n);
    assert QueryNumber(q.page) == Some(n);
  }

  datatype DateField = DateDepot | DateArriveeImmat | DateLivraisonSG | DateRejet

  function DateFieldName(f: DateField): string {
    match f
    case DateDepot => "dateDepot"
    case DateArriveeImmat => "dateArriveeImmat"
    case DateLivraisonSG => "dateLivraisonSG"
    case DateRejet => "dateRejet"
  }

  /** `validDateFields`, in the listed order. */
  const ValidDateFields: seq<string> := ["dateDepot", "dateArriveeImmat", "dateLivraisonSG", "dateRejet"]

  /** `(query.dateType as DateField) || 'dateDepot'` and the `includes` check:
      an absent or empty type means the deposit date; an unknown one is the
      400 answer carrying the valid types. */
  function SelectDateField(dateType: Option<string>): (r: Result<DateField, seq<string>>)
    ensures r.Failure? ==> r.error == ValidDateFields
  {
    var name := if dateType.None? || dateType.value == "" then "dateDepot" else dateType.value;
    if name == "dateDepot" then Success(DateDepot)
    else if name == "dateArriveeImmat" then Success(DateArriveeImmat)
    else if name == "dateLivraisonSG" then Success(DateLivraisonSG)
    else if name == "dateRejet" then Success(DateRejet)
    else Failure(ValidDateFields)
  }

  /** The date type is accepted exactly when it is absent, empty or one of the
      valid names, and an accepted name selects the field it names. */
  lemma DateFieldAccepted(dateType: Option<string>)
    ensures SelectDateField(dateType).Success? <==>
      dateType.None? || dateType.value == "" || dateType.value in ValidDateFields
    ensures SelectDateField(dateType).Success? && dateType.Some? && dateType.value != "" ==>
      DateFieldName(SelectDateField(dateType).value) == dateType.value
    ensures dateType.None? || dateType.value == "" ==> SelectDateField(dateType) == Success(DateDepot)
  {
  }

  /** Naming a field selects it. */
  lemma DateFieldRoundTrip(f: DateField)
    ensures SelectDateField(Some(DateFieldName(f))) == Success(f)
    ensures DateFieldName(f) in ValidDateFields
  {
  }

  /** A bound on the quantity; the operand is `Number(text)`, `None` for NaN. */
  datatype QuantityBound = AtLeast(gte: Option<int>) | AtMost(lte: Option<int>)

  /** The bounds of the date range, kept as the query text that
      `new Date(String(...))` reads. */
  datatype DateRange = DateRange(field: DateField, gte: Option<string>, lte: Option<string>)

  /** The `filters` object: each text filter is a case-insensitive `contains`. */
  datatype Filters = Filters(
    nif: Option<string>,
    raisonSociale: Option<string>,
    centreGestionnaire: Option<string>,
    documents: Option<string>,
    aJour: Option<bool>,
    rejet: Option<bool>,
    quantite: Option<QuantityBound>,
    dates: Option<DateRange>)

  /** A query value is truthy when present and not empty. */
  predicate Given(v: Option<string>) {
    v.Some? && v.value != ""
  }

  /** `...(query.x && { field: ... })`: present only for a nonempty value. */
  function TextFilter(v: Option<string>): (r: Option<string>)
    ensures r.Some? <==> Given(v)
    ensures r.Some? ==> r.value == v.value
  {
    if Given(v) then v else None
  }

  /** `...(query.x && { field: query.x === 'true' })`. */
  function FlagFilter(v: Option<string>): (r: Option<bool>)
    ensures r.Some? <==> Given(v)
    ensures r.Some? ==> (r.value <==> v.value == "true")
  {
    if Given(v) then Some(v.value == "true") else None
  }

  /** The two quantity spreads write the same key, so the later one wins: with
      both bounds given only the upper one survives, with one given it is that
      one, and with neither there is no quantity filter. */
  function QuantityFilter(min: Option<string>, max: Option<string>): (r: Option<QuantityBound>)
    ensures r.None? <==> !Given(min) && !Given(max)
    ensures r.Some? ==> (r.value.AtMost? <==> Given(max))
    ensures r.Some? && r.value.AtMost? ==> r.value.lte == StringToNumber(max.value)
    ensures r.Some? && r.value.AtLeast? ==> r.value.gte == StringToNumber(min.value)
  {
    if Given(max) then Some(AtMost(StringToNumber(max.value)))
    else if Given(min) then Some(AtLeast(StringToNumber(min.value)))
    else None
  }

  /** The dynamic date filter on the chosen field: present when either bound
      is given, and holding exactly the bounds that are given. */
  function DateFilter(field: DateField, from: Option<string>, to: Option<string>): (r: Option<DateRange>)
    ensures r.Some? <==> Given(from) || Given(to)
    ensures r.Some? ==> r.value.field == field
    ensures r.Some? ==> (r.value.gte.Some? <==> Given(from)) && (r.value.lte.Some? <==> Given(to))
    ensures r.Some? && Given(from) ==> r.value.gte == from
    ensures r.Some? && Given(to) ==> r.value.lte == to
  {
    if Given(from) || Given(to) then Some(DateRange(field, TextFilter(from), TextFilter(to)))
    else None
  }

  /** The `filters` object of the handler: a key is present exactly when its
      query parameter is given, text filters carry the parameter unchanged and
      the yes/no filters are true exactly for the text "true". */
  function BuildFilters(q: Query, field: DateField): (r: Filters)
    ensures r.nif.Some? <==> Given(q.nif)
    ensures r.raisonSociale.Some? <==> Given(q.raisonSociale)
    ensures r.centreGestionnaire.Some? <==> Given(q.centre)
    ensures r.documents.Some? <==> Given(q.documents)
    ensures r.nif.Some? ==> r.nif == q.nif
    ensures r.raisonSociale.Some? ==> r.raisonSociale == q.raisonSociale
    ensures r.centreGestionnaire.Some? ==> r.centreGestionnaire == q.centre
    ensures r.documents.Some? ==> r.documents == q.documents
    ensures r.aJour.Some? <==> Given(q.aJour)
    ensures r.aJour.Some? ==> (r.aJour.value <==> q.aJour.value == "true")
    ensures r.rejet.Some? <==> Given(q.rejet)
    ensures r.rejet.Some? ==> (r.rejet.value <==> q.rejet.value == "true")
    ensures r.quantite.None? <==> !Given(q.quantiteMin) && !Given(q.quantiteMax)
    ensures r.dates.Some? <==> Given(q.dateDebut) || Given(q.dateFin)
    ensures r.dates.Some? ==> r.dates.value.field == field
  {
    Filters(
      nif := TextFilter(q.nif),
      raisonSociale := TextFilter(q.raisonSociale),
      centreGestionnaire := TextFilter(q.centre),
      documents := TextFilter(q.documents),
      aJour := FlagFilter(q.aJour),
      rejet := FlagFilter(q.rejet),
      quantite := QuantityFilter(q.quantiteMin, q.quantiteMax),
      dates := DateFilter(field, q.dateDebut, q.dateFin))
  }

  /** What the handler asks the database for. */
  datatype Plan = Plan(page: int, limit: int, skip: int, dateField: DateField, filters: Filters)

  /** The request: an invalid date type is answered before any query is built. */
  function PlanQuery(q: Query): Result<Plan, seq<string>> {
    var field := SelectDateField(q.dateType);
    if field.Failure? then Failure(field.error)
    else Success(Plan(Page(q), Limit(q), Skip(q), field.value, BuildFilters(q, field.value)))
  }

  /** An invalid date type is refused with the valid types, and nothing else is. */
  lemma PlanRefused(q: Query)
    ensures PlanQuery(q).Failure? <==> SelectDateField(q.dateType).Failure?
    ensures PlanQuery(q).Failure? ==> PlanQuery(q).error == ValidDateFields
  {
  }

  /** An accepted query plans a page and size in range, the offset of that
      page, and filters on the chosen date field. */
  lemma PlanInRange(q: Query)
    requires PlanQuery(q).Success?
    ensures var p := PlanQuery(q).value;
      && p.page >= 1 && 1 <= p.limit <= 100 && p.skip == Offset(p.page, p.limit)
      && (p.filters.dates.Some? ==> p.filters.dates.value.field == p.dateField)
  {
    var field := SelectDateField(q.dateType).value;
    assert PlanQuery(q) == Success(Plan(Page(q), Limit(q), Skip(q), field, BuildFilters(q, field)));
  }

  /** A stored taxpayer as the listing selects it. */
  datatype Stored = Stored(id: int, record: Contribuable, dateRejet: Option<Date>)

  /** One row of the answer: dates as YYYY-MM-DD text, flags as Oui/Non. */
  datatype Listed = Listed(
    id: int,
    nif: string,
    raisonSociale: string,
    aJour: string,
    dateDepot: string,
    dateArriveeImmat: Option<string>,
    dateLivraisonSG: Option<string>,
    dateRejet: Option<string>,
    centreGestionnaire: string,
    documents: string,
    quantite: int,
    rejet: string,
    observation: Option<string>)

  /** `b ? 'Oui' : 'Non'`. The import reads this rendering of a flag back as
      the same flag. */
  function OuiNon(b: bool): (r: string)
    ensures IsOui(Str(r)) == b
  {
    var r := if b then "Oui" else "Non";
    IsOuiExactly(Str(r));
    r
  }

  /** `d?.toISOString().split('T')[0]`. */
  function IsoOf(d: Option<Date>): (r: Option<string>)
    ensures r.Some? <==> d.Some?
    ensures r.Some? ==> r.value == DateText.IsoDate(d.value)
  {
    if d.None? then None else Some(DateText.IsoDate(d.value))
  }

  /** The `map` over the selected rows. */
  function FormatRow(s: Stored): Listed {
    var c := s.record;
    Listed(
      id := s.id,
      nif := c.nif,
      raisonSociale := c.raisonSociale,
      aJour := OuiNon(c.aJour),
      dateDepot := DateText.IsoDate(c.dateDepot),
      dateArriveeImmat := IsoOf(c.dateArriveeImmat),
      dateLivraisonSG := IsoOf(c.dateLivraisonSG),
      dateRejet := IsoOf(s.dateRejet),
      centreGestionnaire := c.centreGestionnaire,
      documents := c.documents,
      quantite := c.quantite,
      rejet := OuiNon(c.rejet),
      observation := c.observation)
  }

  function FormatRows(rows: seq<Stored>): (out: seq<Listed>)
    ensures |out| == |rows| && forall i :: 0 <= i < |rows| ==> out[i] == FormatRow(rows[i])
  {
    seq(|rows|, i requires 0 <= i < |rows| => FormatRow(rows[i]))
  }

  /** A formatted row gives its flags back through the import's yes/no rule,
      renders every present date as that date's YYYY-MM-DD text (ten
      characters for the years 0..9999), and leaves absent dates absent. */
  lemma FormattedRow(s: Stored)
    ensures IsOui(Str(FormatRow(s).aJour)) == s.record.aJour
    ensures IsOui(Str(FormatRow(s).rejet)) == s.record.rejet
    ensures FormatRow(s).dateDepot == DateText.IsoDate(s.record.dateDepot)
    ensures FormatRow(s).dateArriveeImmat.Some? <==> s.record.dateArriveeImmat.Some?
    ensures FormatRow(s).dateLivraisonSG.Some? <==> s.record.dateLivraisonSG.Some?
    ensures FormatRow(s).dateRejet.Some? <==> s.dateRejet.Some?
    ensures FormatRow(s).dateArriveeImmat.Some? ==>
      FormatRow(s).dateArriveeImmat.value == DateText.IsoDate(s.record.dateArriveeImmat.value)
    ensures FormatRow(s).dateLivraisonSG.Some? ==>
      FormatRow(s).dateLivraisonSG.value == DateText.IsoDate(s.record.dateLivraisonSG.value)
    ensures FormatRow(s).dateRejet.Some? ==> FormatRow(s).dateRejet.value == DateText.IsoDate(s.dateRejet.value)
    ensures 0 <= CivilFromDays(s.record.dateDepot.day).year <= 9999 ==> |FormatRow(s).dateDepot| == 10
  {
  }

  /** Within the years 100..9999, every date text of a formatted row reads
      back through the import's date rule as the stored date. */
  lemma FormattedDatesReadBack(s: Stored)
    ensures InIsoYears(s.record.dateDepot) ==>
      ExcelDate(Str(FormatRow(s).dateDepot)) == Some(s.record.dateDepot)
    ensures s.record.dateArriveeImmat.Some? && InIsoYears(s.record.dateArriveeImmat.value) ==>
      ExcelDate(Str(FormatRow(s).dateArriveeImmat.value)) == s.record.dateArriveeImmat
    ensures s.record.dateLivraisonSG.Some? && InIsoYears(s.record.dateLivraisonSG.value) ==>
      ExcelDate(Str(FormatRow(s).dateLivraisonSG.value)) == s.record.dateLivraisonSG
    ensures s.dateRejet.Some? && InIsoYears(s.dateRejet.value) ==>
      ExcelDate(Str(FormatRow(s).dateRejet.value)) == s.dateRejet
  {
    var c := s.record;
    assert FormatRow(s).dateDepot == DateText.IsoDate(c.dateDepot);
    assert FormatRow(s).dateArriveeImmat == IsoOf(c.dateArriveeImmat);
    assert FormatRow(s).dateLivraisonSG == IsoOf(c.dateLivraisonSG);
    assert FormatRow(s).dateRejet == IsoOf(s.dateRejet);
    if InIsoYears(c.dateDepot) {
      IsoDateReadsBack(c.dateDepot);
    }
    IsoOfReadsBack(c.dateArriveeImmat);
    IsoOfReadsBack(c.dateLivraisonSG);
    IsoOfReadsBack(s.dateRejet);
  }

  /** An optional date of the years 100..9999 renders as text that reads back
      as that date. */
  lemma IsoOfReadsBack(d: Option<Date>)
    ensures d.Some? && InIsoYears(d.value) ==> ExcelDate(Str(IsoOf(d).value)) == d
  {
    if d.Some? && InIsoYears(d.value) {
      IsoDateReadsBack(d.value);
    }
  }

  /** A date of the years 100..9999, whose ISO text the import reads back. */
  predicate InIsoYears(d: Date) {
    100 <= CivilFromDays(d.day).year <= 9999
  }

  /** `Math.ceil(total / limit)` for a page size of at least 1: the least
      number of pages of `limit` rows that hold all `total` rows. */
  function TotalPages(total: nat, limit: int): (n: nat)
    requires limit >= 1
    ensures n * limit >= total
    ensures n == 0 || (n - 1) * limit < total
  {
    var n := (total + limit - 1) / limit;
    var rem := (total + limit - 1) % limit;
    assert n * limit + rem == total + limit - 1;
    assert 0 <= rem < limit;
    n
  }
}
