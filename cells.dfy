/** Spreadsheet cell values as the row objects of the import carry them, and
    the three JavaScript coercions the import applies to them: truthiness,
    `String(value)` and `Number(value)`. */
module Cells {
  import opened Wrappers
  import opened JsText
  import opened Calendar
  import DateText

  /** A cell: absent (`undefined`), an integer, text, a boolean or a date. */
  datatype Cell = Undefined | Num(n: int) | Str(s: string) | Bool(b: bool) | DateVal(d: Date)

  /** JavaScript truthiness: `undefined`, 0, "" and false are falsy; a Date object is truthy. */
  predicate Truthy(c: Cell)
    ensures !Truthy(c) <==> c in {Undefined, Num(0), Str(""), Bool(false)}
  {
    match c
    case Undefined => false
    case Num(n) => n != 0
    case Str(s) => s != ""
    case Bool(b) => b
    case DateVal(_) => true
  }

  /** `String(value)`. */
  function ToJsString(c: Cell): (r: string)
    ensures c.Str? ==> r == c.s
    ensures c.Undefined? ==> r == "undefined"
    ensures c.Num? ==> StringToNumber(r) == Some(c.n)
  {
    match c
    case Undefined => "undefined"
    case Num(n) => IntToStringRoundTrip(n); IntToString(n)
    case Str(s) => s
    case Bool(b) => if b then "true" else "false"
    case DateVal(d) => DateText.DateToString(d)
  }

  /** `Number(value)`; `None` stands for NaN. A date converts to its time value in milliseconds. */
  function ToJsNumber(c: Cell): (r: Option<int>)
    ensures c.Num? ==> r == Some(c.n)
    ensures c.Undefined? ==> r.None?
  {
    match c
    case Undefined => None
    case Num(n) => Some(n)
    case Str(s) => StringToNumber(s)
    case Bool(b) => Some(if b then 1 else 0)
    case DateVal(d) => Some(d.day * MsPerDay)
  }

  /** `String(value).toLowerCase() === "oui"`, the import's rule for a yes/no column. */
  predicate IsOui(c: Cell) {
    AsciiLower(ToJsString(c)) == "oui"
  }

  /** The letters o, u, i in either case, in that order and nothing else. */
  predicate CaselessOui(s: string) {
    |s| == 3 && s[0] in "oO" && s[1] in "uU" && s[2] in "iI"
  }

  /** Only a text cell spelling "oui" in any mix of cases counts as yes; in
      particular nothing is trimmed, absent cells are no, and numbers, booleans
      and dates are no. */
  lemma {:induction false} IsOuiExactly(c: Cell)
    ensures IsOui(c) <==> c.Str? && CaselessOui(c.s)
  {
    match c
    case Num(n) => NumberTextNotOui(n);
    case Str(t) => TextOui(t);
    case _ =>
  }

  /** The text of a number starts with a digit or a minus sign, never with 'o'. */
  lemma NumberTextNotOui(n: int)
    ensures AsciiLower(IntToString(n)) != "oui"
  {
    var s := IntToString(n);
    if n < 0 {
      assert s[0] == '-';
    } else {
      assert IsDigit(s[0]);
    }
    assert AsciiLower(s)[0] != 'o';
  }

  /** Lower-casing gives "oui" exactly for the three letters in either case. */
  lemma TextOui(t: string)
    ensures AsciiLower(t) == "oui" <==> CaselessOui(t)
  {
    if |t| == 3 {
      var l := AsciiLower(t);
      assert l == "oui" <==> l[0] == 'o' && l[1] == 'u' && l[2] == 'i';
    }
  }
}
