/** The header check of the import (src/routes/contribuables/importRoutes.ts):
    `normalizeHeader`, the table of expected headers with their accepted
    spellings, and the loop that lists the missing fields and maps every
    found field to the spelling that matched. */
module Headers {
  import opened Wrappers
  import opened JsText

  /** `s.replace(/\s+/g, ' ')`: every run of white space becomes one space. */
  function CollapseSpaces(s: string): (r: string)
    ensures |r| <= |s|
    decreases |s|
  {
    if s == [] then []
    else if IsSpace(s[0]) then [' '] + CollapseSpaces(TrimStart(s))
    else [s[0]] + CollapseSpaces(s[1..])
  }

  /** `normalizeHeader(h)`: trimmed, with inner white-space runs reduced to one
      space. The result is always normalised, and a normalised header is its
      own normal form. */
  function Normalize(h: string): (r: string)
    ensures IsNormal(r)
    ensures IsNormal(h) ==> r == h
  {
    CollapseNormal(Trim(h));
    if IsNormal(h) then CollapseTrimmedFixed(h); CollapseSpaces(Trim(h))
    else CollapseSpaces(Trim(h))
  }

  /** Collapsing text with no white space at its ends yields a normalised header. */
  lemma CollapseNormal(t: string)
    requires t == [] || (!IsSpace(t[0]) && !IsSpace(t[|t| - 1]))
    ensures IsNormal(CollapseSpaces(t))
  {
    CollapseSingles(t);
    CollapseEnds(t);
  }

  /** Trimming then collapsing leaves a normalised header unchanged. */
  lemma CollapseTrimmedFixed(h: string)
    requires IsNormal(h)
    ensures CollapseSpaces(Trim(h)) == h
  {
    assert Trim(h) == h by { TrimOfTrimmed(h); }
    CollapseOfSingleSpaces(h);
  }

  /** A normalised header: no white space at either end, and inside only single
      plain spaces. */
  predicate IsNormal(s: string) {
    && (s == [] || (!IsSpace(s[0]) && !IsSpace(s[|s| - 1])))
    && (forall i :: 0 <= i < |s| && IsSpace(s[i]) ==> s[i] == ' ')
    && (forall i :: 0 <= i < |s| - 1 && IsSpace(s[i]) ==> !IsSpace(s[i + 1]))
  }

  /** Collapsing keeps whether the text is empty and whether it starts with white space. */
  lemma CollapseFirst(s: string)
    ensures (CollapseSpaces(s) == []) <==> (s == [])
    ensures s != [] ==> (IsSpace(CollapseSpaces(s)[0]) <==> IsSpace(s[0]))
  {
  }

  /** Collapsing keeps whether the text ends with white space. */
  lemma {:induction false} CollapseLast(s: string)
    requires s != []
    ensures var r := CollapseSpaces(s); r != [] && (IsSpace(r[|r| - 1]) <==> IsSpace(s[|s| - 1]))
    decreases |s|
  {
    CollapseFirst(s);
    if IsSpace(s[0]) {
      var rest := TrimStart(s);
      if rest == [] {
        assert AllSpaces(s[..|s|]);
        assert IsSpace(s[|s| - 1]);
      } else {
        CollapseLast(rest);
        assert rest[|rest| - 1] == s[|s| - 1];
      }
    } else if |s| > 1 {
      CollapseLast(s[1..]);
      assert s[1..][|s| - 2] == s[|s| - 1];
    }
  }

  /** Collapsing leaves only plain spaces, never two side by side. */
  lemma {:induction false} CollapseSingles(s: string)
    ensures var r := CollapseSpaces(s);
      && (forall i :: 0 <= i < |r| && IsSpace(r[i]) ==> r[i] == ' ')
      && (forall i :: 0 <= i < |r| - 1 && IsSpace(r[i]) ==> !IsSpace(r[i + 1]))
    decreases |s|
  {
    if s == [] {
    } else {
      var rest := if IsSpace(s[0]) then TrimStart(s) else s[1..];
      var c := CollapseSpaces(rest);
      var r := CollapseSpaces(s);
      CollapseSingles(rest);
      CollapseFirst(rest);
      assert r == [if IsSpace(s[0]) then ' ' else s[0]] + c;
      forall i | 0 <= i < |r| && IsSpace(r[i])
        ensures r[i] == ' '
      {
        if i > 0 {
          assert r[i] == c[i - 1];
        }
      }
      forall i | 0 <= i < |r| - 1 && IsSpace(r[i])
        ensures !IsSpace(r[i + 1])
      {
        assert r[i + 1] == c[i];
        if i > 0 {
          assert r[i] == c[i - 1];
        }
      }
    }
  }

  /** Collapsing text with no white space at its ends keeps it so. */
  lemma CollapseEnds(t: string)
    requires t == [] || (!IsSpace(t[0]) && !IsSpace(t[|t| - 1]))
    ensures var r := CollapseSpaces(t); r == [] || (!IsSpace(r[0]) && !IsSpace(r[|r| - 1]))
  {
    CollapseFirst(t);
    if t != [] {
      CollapseLast(t);
    }
  }

  /** Collapsing a string whose white space is already single plain spaces changes nothing. */
  lemma {:induction false} CollapseOfSingleSpaces(s: string)
    requires forall i :: 0 <= i < |s| && IsSpace(s[i]) ==> s[i] == ' '
    requires forall i :: 0 <= i < |s| - 1 && IsSpace(s[i]) ==> !IsSpace(s[i + 1])
    ensures CollapseSpaces(s) == s
    decreases |s|
  {
    if s == [] {
    } else if IsSpace(s[0]) {
      var rest := TrimStart(s);
      if |s| > 1 {
        assert !IsSpace(s[1]);
        assert rest == s[1..];
      } else {
        assert rest == [];
      }
      CollapseOfSingleSpaces(rest);
      assert [s[0]] + s[1..] == s;
    } else {
      CollapseOfSingleSpaces(s[1..]);
      assert [s[0]] + s[1..] == s;
    }
  }

  /** `normalizeHeader` is idempotent. */
  lemma NormalizeIdempotent(h: string)
    ensures Normalize(Normalize(h)) == Normalize(h)
  {
  }

  /** `replace(/\s+/g, ' ')` does not see how long a run of white space is:
      any run may be replaced by a single space first. */
  lemma {:induction false} CollapseRunLength(x: string, sp: string, y: string)
    requires sp != [] && AllSpaces(sp)
    ensures CollapseSpaces(x + (sp + y)) == CollapseSpaces(x + (" " + y))
    decreases |x|
  {
    var u, v := x + (sp + y), x + (" " + y);
    if x == [] {
      assert u == sp + y && v == " " + y;
      assert u[0] == sp[0];
      TrimStartSpaces(sp, y);
      TrimStartSpaces(" ", y);
    } else if !IsSpace(x[0]) {
      assert u == [x[0]] + (x[1..] + (sp + y));
      assert v == [x[0]] + (x[1..] + (" " + y));
      CollapseCons(x[0], x[1..] + (sp + y));
      CollapseCons(x[0], x[1..] + (" " + y));
      CollapseRunLength(x[1..], sp, y);
    } else if AllSpaces(x) {
      assert u[0] == x[0] && v[0] == x[0];
      assert u == (x + sp) + y && v == (x + " ") + y;
      AllSpacesJoin(x, sp);
      AllSpacesJoin(x, " ");
      TrimStartSpaces(x + sp, y);
      TrimStartSpaces(x + " ", y);
    } else {
      assert u[0] == x[0] && v[0] == x[0];
      TrimStartText(x, sp + y);
      TrimStartText(x, " " + y);
      CollapseRunLength(TrimStart(x), sp, y);
    }
  }

  /** Two runs of white space side by side form one. */
  lemma AllSpacesJoin(a: string, b: string)
    requires AllSpaces(a) && AllSpaces(b)
    ensures AllSpaces(a + b)
  {
    assert forall i :: |a| <= i < |a + b| ==> (a + b)[i] == b[i - |a|];
  }

  /** Text followed by anything is not all white space when the text is not. */
  lemma NotAllSpacesJoin(a: string, b: string)
    requires !AllSpaces(a) || !AllSpaces(b)
    ensures !AllSpaces(a + b)
  {
    if !AllSpaces(a) {
      var i :| 0 <= i < |a| && !IsSpace(a[i]);
      assert (a + b)[i] == a[i];
    } else {
      var i :| 0 <= i < |b| && !IsSpace(b[i]);
      assert (a + b)[|a| + i] == b[i];
    }
  }

  /** `normalizeHeader` turns every inner run of white space into one space:
      a header normalises as it would with that run replaced by " ". */
  lemma NormalizeRun(a: string, sp: string, b: string)
    requires sp != [] && AllSpaces(sp)
    ensures Normalize(a + sp + b) == Normalize(a + " " + b)
  {
    CollapseTrimRun(a, sp, b);
    NormalizeTrims(a + sp + b);
    NormalizeTrims(a + " " + b);
  }

  /** The trimming and collapsing of `NormalizeRun`. */
  lemma CollapseTrimRun(a: string, sp: string, b: string)
    requires sp != [] && AllSpaces(sp)
    ensures CollapseSpaces(TrimEnd(TrimStart(a + sp + b))) == CollapseSpaces(TrimEnd(TrimStart(a + " " + b)))
  {
    if AllSpaces(a) {
      TrimStartLeadingRun(a, sp, b);
      TrimStartLeadingRun(a, " ", b);
    } else {
      assert a + sp + b == a + (sp + b) && a + " " + b == a + (" " + b);
      TrimStartText(a, sp + b);
      TrimStartText(a, " " + b);
      TrimEndRun(TrimStart(a), sp, b);
    }
  }

  /** White space, then a run, then text: `trimStart` drops both runs. */
  lemma TrimStartLeadingRun(a: string, sp: string, b: string)
    requires AllSpaces(a) && AllSpaces(sp)
    ensures TrimStart(a + sp + b) == TrimStart(b)
  {
    AllSpacesJoin(a, sp);
    TrimStartSpaces(a + sp, b);
  }

  /** The case of `CollapseTrimRun` where the text before the run is not all
      white space. */
  lemma TrimEndRun(t: string, sp: string, b: string)
    requires sp != [] && AllSpaces(sp)
    ensures CollapseSpaces(TrimEnd(t + (sp + b))) == CollapseSpaces(TrimEnd(t + (" " + b)))
  {
    if AllSpaces(b) {
      AllSpacesJoin(sp, b);
      AllSpacesJoin(" ", b);
      TrimEndSpaces(t, sp + b);
      TrimEndSpaces(t, " " + b);
    } else {
      TrimEndInner(t, sp, b);
      TrimEndInner(t, " ", b);
      CollapseRunLength(t, sp, TrimEnd(b));
    }
  }

  /** `trimEnd` of text ending in something other than white space keeps
      everything before that text. */
  lemma TrimEndInner(t: string, sp: string, b: string)
    requires !AllSpaces(b)
    ensures TrimEnd(t + (sp + b)) == t + (sp + TrimEnd(b))
  {
    assert t + (sp + b) == (t + sp) + b;
    TrimEndText(t + sp, b);
    assert (t + sp) + TrimEnd(b) == t + (sp + TrimEnd(b));
  }

  /** `normalizeHeader` drops white space at either end of a header. */
  lemma NormalizeEnds(sp: string, h: string)
    requires AllSpaces(sp)
    ensures Normalize(sp + h) == Normalize(h)
    ensures Normalize(h + sp) == Normalize(h)
  {
    TrimStartSpaces(sp, h);
    TrimTrailing(h, sp);
    NormalizeTrims(sp + h);
    NormalizeTrims(h + sp);
    NormalizeTrims(h);
  }

  /** `normalizeHeader` is trimming followed by collapsing. */
  lemma NormalizeTrims(h: string)
    ensures Normalize(h) == CollapseSpaces(TrimEnd(TrimStart(h)))
  {
  }

  /** White space after a header does not change its trimmed text. */
  lemma TrimTrailing(h: string, sp: string)
    requires AllSpaces(sp)
    ensures TrimEnd(TrimStart(h + sp)) == TrimEnd(TrimStart(h))
  {
    if AllSpaces(h) {
      AllSpacesJoin(h, sp);
      TrimStartOfSpaces(h + sp);
      TrimStartOfSpaces(h);
    } else {
      TrimStartText(h, sp);
      TrimEndSpaces(TrimStart(h), sp);
    }
  }

  /** A canonical field with its accepted spellings, in the order they are tried. */
  datatype Expected = Expected(field: string, variants: seq<string>)

  const DateDepotField := "DATE DE DEPOT"
  const AJourField := "LE CONTRIBUABLE EST-IL A JOUR LORS DU DEPOT?"
  const NifField := "NIF"
  const RaisonSocialeField := "RAISON SOCIALE"
  const DocumentField := "Document demandé"
  /** The first accepted spelling of the document field, with two spaces. */
  const DocumentTwoSpaces := "Document  demandé"
  const QuantiteField := "Quantité"
  const CentreField := "CENTRE GESTIONNAIRE"
  const ArriveeField := "DATE D'ARRIVE A IMMAT"
  const LivraisonField := "DATE DE LIVRAISON AU SERVI. GESTIONNAIRE"
  const RejetField := "REJET"
  const ObservationField := "OBSERVATION"

  /** `expectedHeadersWithVariations`, in declaration order. The first
      spelling of the document field has two spaces; the other two are the
      same single-space spelling. */
  const ExpectedHeaders: seq<Expected> := [
    Expected(DateDepotField, [DateDepotField]),
    Expected(AJourField, [AJourField, "LE CONTRIBUABLE EST-IL A JOUR  LORS DU DEPOT?"]),
    Expected(NifField, [NifField]),
    Expected(RaisonSocialeField, [RaisonSocialeField]),
    Expected(DocumentField, [DocumentTwoSpaces, DocumentField, DocumentField]),
    Expected(QuantiteField, [QuantiteField]),
    Expected(CentreField, [CentreField]),
    Expected(ArriveeField, [ArriveeField]),
    Expected(LivraisonField, [LivraisonField]),
    Expected(RejetField, [RejetField]),
    Expected(ObservationField, [ObservationField])
  ]

  /** `firstRow.map(normalizeHeader)`. */
  function NormalizeAll(row: seq<string>): (r: seq<string>)
    ensures |r| == |row| && forall i :: 0 <= i < |row| ==> r[i] == Normalize(row[i])
  {
    if row == [] then [] else NormalizeAll(row[..|row| - 1]) + [Normalize(row[|row| - 1])]
  }

  /** A spelling is found when its normal form is among the normalised headers. */
  predicate VariantFound(v: string, found: seq<string>, norm: string -> string) {
    norm(v) in found
  }

  /** `variations.find(...)`: the first spelling that is found. */
  function FirstMatch(variants: seq<string>, found: seq<string>, norm: string -> string): Option<string> {
    if variants == [] then None
    else if VariantFound(variants[0], found, norm) then Some(variants[0])
    else FirstMatch(variants[1..], found, norm)
  }

  /** `find` comes back empty exactly when `some` is false, and otherwise with a found spelling of the list. */
  lemma {:induction false} FirstMatchFound(variants: seq<string>, found: seq<string>, norm: string -> string)
    ensures FirstMatch(variants, found, norm).None? <==> forall k :: 0 <= k < |variants| ==> !VariantFound(variants[k], found, norm)
    ensures FirstMatch(variants, found, norm).Some? ==>
      FirstMatch(variants, found, norm).value in variants && VariantFound(FirstMatch(variants, found, norm).value, found, norm)
  {
    if variants != [] && !VariantFound(variants[0], found, norm) {
      FirstMatchFound(variants[1..], found, norm);
      assert forall k :: 1 <= k < |variants| ==> variants[k] == variants[1..][k - 1];
    }
  }

  /** The spelling found is the first found one in declaration order. */
  lemma {:induction false} FirstMatchIsFirst(variants: seq<string>, found: seq<string>, norm: string -> string, k: nat)
    requires k < |variants| && VariantFound(variants[k], found, norm)
    requires forall j :: 0 <= j < k ==> !VariantFound(variants[j], found, norm)
    ensures FirstMatch(variants, found, norm) == Some(variants[k])
  {
    if k > 0 {
      assert forall j :: 0 <= j < k - 1 ==> variants[1..][j] == variants[j + 1];
      FirstMatchIsFirst(variants[1..], found, norm, k - 1);
    }
  }

  /** The two accumulators of the loop: the missing fields and the mapping from
      field to matched spelling. */
  datatype Resolution = Resolution(missing: seq<string>, mapping: map<string, string>)

  /** One turn of the `forEach`. A matched empty spelling (falsy in JavaScript)
      records nothing. */
  function ResolveStep(acc: Resolution, e: Expected, found: seq<string>, norm: string -> string): Resolution {
    match FirstMatch(e.variants, found, norm)
    case None => acc.(missing := acc.missing + [e.field])
    case Some(v) => if v != "" then acc.(mapping := acc.mapping[e.field := v]) else acc
  }

  /** The accumulators after the first `n` expected fields. */
  function ResolvePrefix(table: seq<Expected>, found: seq<string>, norm: string -> string, n: nat): Resolution
    requires n <= |table|
  {
    if n == 0 then Resolution([], map[])
    else ResolveStep(ResolvePrefix(table, found, norm, n - 1), table[n - 1], found, norm)
  }

  /** The loop over the whole table, spellings compared after applying `norm`. */
  function ResolveBy(table: seq<Expected>, found: seq<string>, norm: string -> string): Resolution {
    ResolvePrefix(table, found, norm, |table|)
  }

  /** The loop of the route, which compares spellings after `normalizeHeader`. */
  function Resolve(table: seq<Expected>, found: seq<string>): Resolution {
    ResolveBy(table, found, Normalize)
  }

  /** The header check: normalise the header row, then walk the expected fields. */
  method CheckHeaders(table: seq<Expected>, firstRow: seq<string>)
    returns (missing: seq<string>, mapping: map<string, string>)
    ensures Resolution(missing, mapping) == Resolve(table, NormalizeAll(firstRow))
  {
    var found := NormalizeAll(firstRow);
    missing, mapping := [], map[];
    for i := 0 to |table|
      invariant Resolution(missing, mapping) == ResolvePrefix(table, found, Normalize, i)
    {
      var e := table[i];
      var matched := FirstMatch(e.variants, found, Normalize);
      if matched.None? {
        missing := missing + [e.field];
      } else if matched.value != "" {
        mapping := mapping[e.field := matched.value];
      }
    }
  }

  /** No spelling of the field is found. */
  predicate Unmatched(e: Expected, found: seq<string>, norm: string -> string) {
    forall k :: 0 <= k < |e.variants| ==> !VariantFound(e.variants[k], found, norm)
  }

  /** The fields with no found spelling, in declaration order. */
  function MissingFields(table: seq<Expected>, found: seq<string>, norm: string -> string): seq<string> {
    if table == [] then []
    else
      var e := table[|table| - 1];
      MissingFields(table[..|table| - 1], found, norm) + (if Unmatched(e, found, norm) then [e.field] else [])
  }

  predicate DistinctFields(table: seq<Expected>) {
    forall i, j :: 0 <= i < j < |table| ==> table[i].field != table[j].field
  }

  /** A field is matched when one of its spellings is found and that spelling is not empty. */
  predicate Matched(e: Expected, found: seq<string>, norm: string -> string) {
    FirstMatch(e.variants, found, norm).Some? && FirstMatch(e.variants, found, norm).value != ""
  }

  /** The loop collects exactly the fields none of whose spellings is found,
      each once and in declaration order. */
  lemma {:induction false} ResolveMissing(table: seq<Expected>, found: seq<string>, norm: string -> string, n: nat)
    requires n <= |table|
    ensures ResolvePrefix(table, found, norm, n).missing == MissingFields(table[..n], found, norm)
  {
    if n > 0 {
      ResolveMissing(table, found, norm, n - 1);
      FirstMatchFound(table[n - 1].variants, found, norm);
      assert table[..n][..n - 1] == table[..n - 1];
      assert table[..n][n - 1] == table[n - 1];
    }
  }

  /** The loop maps a field exactly when one of its spellings is found. */
  lemma {:induction false} ResolveMapped(table: seq<Expected>, found: seq<string>, norm: string -> string, n: nat)
    requires n <= |table|
    ensures forall f :: f in ResolvePrefix(table, found, norm, n).mapping <==>
      exists k :: 0 <= k < n && table[k].field == f && Matched(table[k], found, norm)
  {
    if n > 0 {
      var prev := ResolvePrefix(table, found, norm, n - 1);
      var e := table[n - 1];
      ResolveMapped(table, found, norm, n - 1);
      StepMapping(prev, e, found, norm);
      forall f
        ensures f in ResolvePrefix(table, found, norm, n).mapping ==>
          exists k :: 0 <= k < n && table[k].field == f && Matched(table[k], found, norm)
      {
        if f in ResolvePrefix(table, found, norm, n).mapping && f !in prev.mapping {
          assert table[n - 1].field == f && Matched(table[n - 1], found, norm);
        }
      }
    }
  }

  /** One turn maps the field to its found spelling when it is matched, and
      leaves the mapping alone otherwise. */
  lemma StepMapping(acc: Resolution, e: Expected, found: seq<string>, norm: string -> string)
    ensures Matched(e, found, norm) ==>
      ResolveStep(acc, e, found, norm).mapping == acc.mapping[e.field := FirstMatch(e.variants, found, norm).value]
    ensures !Matched(e, found, norm) ==> ResolveStep(acc, e, found, norm).mapping == acc.mapping
  {
  }

  /** With the field names distinct, each matched field is bound to the first
      of its spellings that is found. */
  lemma {:induction false} ResolveBinding(table: seq<Expected>, found: seq<string>, norm: string -> string, n: nat, k: nat)
    requires n <= |table| && DistinctFields(table)
    requires k < n && Matched(table[k], found, norm)
    ensures table[k].field in ResolvePrefix(table, found, norm, n).mapping
    ensures ResolvePrefix(table, found, norm, n).mapping[table[k].field] == FirstMatch(table[k].variants, found, norm).value
  {
    var prev := ResolvePrefix(table, found, norm, n - 1);
    var e := table[n - 1];
    StepMapping(prev, e, found, norm);
    if k < n - 1 {
      ResolveBinding(table, found, norm, n - 1, k);
      assert e.field != table[k].field;
    }
  }

  /** The missing fields the check reports are exactly the fields none of
      whose spellings is found, in declaration order. */
  lemma MissingFieldsListed(table: seq<Expected>, found: seq<string>, norm: string -> string)
    ensures ResolveBy(table, found, norm).missing == MissingFields(table, found, norm)
  {
    ResolveMissing(table, found, norm, |table|);
    assert table[..|table|] == table;
  }

  /** No field is missing exactly when every expected field has a found spelling. */
  lemma NoneMissingIffAllFound(table: seq<Expected>, found: seq<string>, norm: string -> string)
    ensures ResolveBy(table, found, norm).missing == [] <==> forall k :: 0 <= k < |table| ==> !Unmatched(table[k], found, norm)
  {
    ResolveMissing(table, found, norm, |table|);
    assert table[..|table|] == table;
    MissingFieldsEmpty(table, found, norm);
  }

  /** When no field is missing and no spelling is empty, every field is mapped,
      so the row lookups that follow all use a matched spelling. */
  lemma NoneMissingAllMapped(table: seq<Expected>, found: seq<string>, norm: string -> string, k: nat)
    requires DistinctFields(table) && k < |table|
    requires forall j :: 0 <= j < |table[k].variants| ==> table[k].variants[j] != ""
    requires ResolveBy(table, found, norm).missing == []
    ensures table[k].field in ResolveBy(table, found, norm).mapping
    ensures ResolveBy(table, found, norm).mapping[table[k].field] in table[k].variants
  {
    NoneMissingIffAllFound(table, found, norm);
    FirstMatchFound(table[k].variants, found, norm);
    ResolveBinding(table, found, norm, |table|, k);
  }

  /** No field is missing exactly when no expected field is unmatched. */
  lemma {:induction false} MissingFieldsEmpty(table: seq<Expected>, found: seq<string>, norm: string -> string)
    ensures MissingFields(table, found, norm) == [] <==> forall k :: 0 <= k < |table| ==> !Unmatched(table[k], found, norm)
  {
    if table != [] {
      var t := table[..|table| - 1];
      MissingFieldsEmpty(t, found, norm);
      assert forall k :: 0 <= k < |t| ==> t[k] == table[k];
    }
  }

  /** The expected table names each field once and has no empty spelling. */
  lemma ExpectedHeadersWellFormed()
    ensures DistinctFields(ExpectedHeaders)
    ensures forall k, j :: 0 <= k < |ExpectedHeaders| && 0 <= j < |ExpectedHeaders[k].variants| ==>
      ExpectedHeaders[k].variants[j] != ""
  {
  }

  /** Text with no white space at all. */
  predicate NoSpace(a: string) {
    forall i :: 0 <= i < |a| ==> !IsSpace(a[i])
  }

  /** A non-space character is copied as it is. */
  lemma CollapseCons(c: char, s: string)
    requires !IsSpace(c)
    ensures CollapseSpaces([c] + s) == [c] + CollapseSpaces(s)
  {
    assert ([c] + s)[1..] == s;
  }

  /** Text without white space passes through collapsing unchanged. */
  lemma {:induction false} CollapseWord(a: string, s: string)
    requires NoSpace(a)
    ensures CollapseSpaces(a + s) == a + CollapseSpaces(s)
    decreases |a|
  {
    if a == [] {
      assert a + s == s;
    } else {
      var c, rest := a[0], a[1..];
      assert a + s == [c] + (rest + s);
      assert !IsSpace(c);
      CollapseCons(c, rest + s);
      assert NoSpace(rest) by {
        assert forall i :: 0 <= i < |rest| ==> rest[i] == a[i + 1];
      }
      CollapseWord(rest, s);
      assert [c] + (rest + CollapseSpaces(s)) == a + CollapseSpaces(s);
    }
  }

  lemma {:induction false} TrimStartRun(sp: string, s: string)
    requires AllSpaces(sp) && (s == [] || !IsSpace(s[0]))
    ensures TrimStart(sp + s) == s
    decreases |sp|
  {
    if sp == [] {
      assert sp + s == s;
    } else {
      assert (sp + s)[0] == sp[0] && (sp + s)[1..] == sp[1..] + s;
      TrimStartRun(sp[1..], s);
    }
  }

  /** A run of white space before a non-space collapses to one space. */
  lemma CollapseRun(sp: string, s: string)
    requires sp != [] && AllSpaces(sp) && (s == [] || !IsSpace(s[0]))
    ensures CollapseSpaces(sp + s) == [' '] + CollapseSpaces(s)
  {
    TrimStartRun(sp, s);
    assert (sp + s)[0] == sp[0];
  }

  /** Two words separated by a run of white space collapse to the words
      separated by one space. */
  lemma CollapseWords(a: string, sp: string, b: string)
    requires b != [] && sp != [] && AllSpaces(sp)
    requires NoSpace(a) && NoSpace(b)
    ensures CollapseSpaces(a + (sp + b)) == a + ([' '] + b)
  {
    CollapseWord(a, sp + b);
    assert !IsSpace(b[0]);
    CollapseRun(sp, b);
    CollapseOfSingleSpaces(b);
  }

  /** ... and so normalise to them: the text has no white space at either end. */
  lemma WordsNormalize(a: string, sp: string, b: string)
    requires a != [] && b != [] && sp != [] && AllSpaces(sp)
    requires NoSpace(a) && NoSpace(b)
    ensures Normalize(a + sp + b) == a + " " + b
  {
    CollapseTrimWords(a, sp, b);
    NormalizeTrims(a + sp + b);
  }

  /** The trimming and collapsing of `WordsNormalize`. */
  lemma CollapseTrimWords(a: string, sp: string, b: string)
    requires a != [] && b != [] && sp != [] && AllSpaces(sp)
    requires NoSpace(a) && NoSpace(b)
    ensures CollapseSpaces(TrimEnd(TrimStart(a + sp + b))) == a + " " + b
  {
    var t := a + (sp + b);
    assert a + sp + b == t;
    assert TrimEnd(TrimStart(t)) == t by {
      assert t[0] == a[0] && t[|t| - 1] == b[|b| - 1];
      assert !IsSpace(t[0]) && !IsSpace(t[|t| - 1]);
    }
    CollapseWords(a, sp, b);
    assert a + ([' '] + b) == a + " " + b;
  }

  /** Both spellings of the document field normalise to the single-space one. */
  lemma DocumentSpellingsAgree()
    ensures Normalize(DocumentTwoSpaces) == DocumentField
    ensures Normalize(DocumentField) == DocumentField
  {
    TwoSpacesNormalize();
    OneSpaceNormalize();
  }

  /** The two-space spelling normalises to the single-space one. */
  lemma TwoSpacesNormalize()
    ensures Normalize(DocumentTwoSpaces) == DocumentField
  {
    var a, b := "Document", "demandé";
    assert DocumentTwoSpaces == a + "  " + b;
    assert DocumentField == a + " " + b;
    WordPairNormalizes(DocumentTwoSpaces, a, "  ", b);
  }

  /** The single-space spelling is already normal. */
  lemma OneSpaceNormalize()
    ensures Normalize(DocumentField) == DocumentField
  {
    var a, b := "Document", "demandé";
    assert DocumentField == a + " " + b;
    WordPairNormalizes(DocumentField, a, " ", b);
  }

  /** `WordsNormalize` for a header given as its two words and the run between them. */
  lemma WordPairNormalizes(h: string, a: string, sp: string, b: string)
    requires a == "Document" && b == "demandé" && h == a + sp + b
    requires sp != [] && AllSpaces(sp)
    ensures Normalize(h) == a + " " + b
  {
    assert NoSpace(a) && NoSpace(b);
    WordsNormalize(a, sp, b);
  }

  /** A field is bound to the spelling at position `j` when that spelling is
      found, is not empty, and no earlier spelling is found. */
  lemma SpellingResolves(table: seq<Expected>, found: seq<string>, norm: string -> string, k: nat, j: nat)
    requires DistinctFields(table) && k < |table| && j < |table[k].variants|
    requires VariantFound(table[k].variants[j], found, norm) && table[k].variants[j] != ""
    requires forall i :: 0 <= i < j ==> !VariantFound(table[k].variants[i], found, norm)
    ensures table[k].field in ResolveBy(table, found, norm).mapping
    ensures ResolveBy(table, found, norm).mapping[table[k].field] == table[k].variants[j]
  {
    FirstMatchIsFirst(table[k].variants, found, norm, j);
    ResolveBinding(table, found, norm, |table|, k);
  }

  /** A header matching the first spelling of field `k` only after
      normalisation still binds the field to that first spelling, not to the
      header the sheet carries. */
  lemma FirstSpellingShadows(table: seq<Expected>, firstRow: seq<string>, k: nat, h: string)
    requires DistinctFields(table) && k < |table| && table[k].variants != [] && table[k].variants[0] != ""
    requires h in firstRow && Normalize(h) == Normalize(table[k].variants[0])
    ensures table[k].field in Resolve(table, NormalizeAll(firstRow)).mapping
    ensures Resolve(table, NormalizeAll(firstRow)).mapping[table[k].field] == table[k].variants[0]
  {
    assert VariantFound(table[k].variants[0], NormalizeAll(firstRow), Normalize);
    SpellingResolves(table, NormalizeAll(firstRow), Normalize, k, 0);
  }

  /** The document entry of the table, whose first spelling has two spaces. */
  lemma DocumentEntry()
    ensures ExpectedHeaders[4] == Expected(DocumentField, [DocumentTwoSpaces, DocumentField, DocumentField])
    ensures DistinctFields(ExpectedHeaders)
  {
  }

  /** A sheet headed with the single-space spelling "Document demandé" has its
      document field bound to the two-space spelling, the first in the table,
      and not to the header it actually carries. */
  lemma DocumentResolvesToFirstSpelling(firstRow: seq<string>)
    requires DocumentField in firstRow
    ensures var r := Resolve(ExpectedHeaders, NormalizeAll(firstRow));
      DocumentField in r.mapping && r.mapping[DocumentField] == DocumentTwoSpaces
  {
    DocumentEntry();
    DocumentSpellingsAgree();
    FirstSpellingShadows(ExpectedHeaders, firstRow, 4, DocumentField);
  }
}
