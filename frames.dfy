/** The data frames the views display and rewrite column by column: cells,
    tables of named columns, the per-column conversions main.py applies
    (thousands and percent formatting, `clean_and_convert`, the coercing
    `pd.to_numeric(...).fillna(0)`) and a frame object whose columns those
    steps overwrite in place. */
module Frames {
  import opened Wrappers
  import NumFormat
  import Text

  /** One cell of a frame: an integer, a float (an exact real here), a
      string, or a missing value (NaN). */
  datatype Cell = Int(i: int) | Real(x: real) | Str(s: string) | Missing

  /** A frame: its number of rows and its columns by name. */
  datatype Table = Table(height: nat, columns: map<string, seq<Cell>>) {
    /** Every column has one cell per row. */
    predicate Valid() {
      forall n :: n in columns ==> |columns[n]| == height
    }
  }

  predicate AllInts(col: seq<Cell>) {
    forall i :: 0 <= i < |col| ==> col[i].Int?
  }

  predicate AllNumeric(col: seq<Cell>) {
    forall i :: 0 <= i < |col| ==> col[i].Int? || col[i].Real?
  }

  predicate AllStrings(col: seq<Cell>) {
    forall i :: 0 <= i < |col| ==> col[i].Str?
  }

  predicate StringsOrMissing(col: seq<Cell>) {
    forall i :: 0 <= i < |col| ==> col[i].Str? || col[i].Missing?
  }

  /** The number an integer or float cell holds. */
  function Value(c: Cell): real
    requires c.Int? || c.Real?
  {
    if c.Int? then c.i as real else c.x
  }

  /** `col.apply(lambda x: f"{x:,}".replace(",", " "))` on an integer column. */
  function ThousandsColumn(col: seq<Cell>): (out: seq<Cell>)
    requires AllInts(col)
    ensures |out| == |col| && AllStrings(out)
  {
    seq(|col|, i requires 0 <= i < |col| => Str(NumFormat.SignedThousandsText(col[i].i)))
  }

  /** `col.apply(lambda x: f"{x:.2f}%")` on a numeric column. */
  function PercentColumn(col: seq<Cell>): (out: seq<Cell>)
    requires AllNumeric(col)
    ensures |out| == |col| && AllStrings(out)
  {
    seq(|col|, i requires 0 <= i < |col| => Str(NumFormat.PercentText(Value(col[i]))))
  }

  /** `float(s.replace(' ', '').replace('%', ''))`, or `None` where `float`
      raises. */
  function CleanNumber(s: string): Option<real> {
    NumFormat.ParseNumber(Text.RemoveChar(Text.RemoveChar(s, ' '), '%'))
  }

  /** `clean_and_convert(col)`: `col.str.replace(' ', '').str.replace('%', '')
      .astype(float)`. The whole conversion fails, naming the first text that
      is not a number, as soon as one cell does not parse. */
  function CleanAndConvertColumn(col: seq<Cell>): (r: Result<seq<Cell>>)
    requires AllStrings(col)
    ensures r.Success? <==> forall i :: 0 <= i < |col| ==> CleanNumber(col[i].s).Some?
    ensures r.Success? ==>
              |r.value| == |col| && forall i :: 0 <= i < |col| ==> r.value[i] == Real(CleanNumber(col[i].s).value)
    ensures r.Fail? ==> exists i :: 0 <= i < |col| && CleanNumber(col[i].s) == None
                                   && r.error == NotNumeric(col[i].s)
  {
    if col == [] then Success([])
    else
      match CleanNumber(col[0].s)
      case None => Fail(NotNumeric(col[0].s))
      case Some(v) =>
        StringsTail(col);
        match CleanAndConvertColumn(col[1..])
        case Fail(e) => Fail(e)
        case Success(rest) => Success([Real(v)] + rest)
  }

  lemma StringsTail(col: seq<Cell>)
    requires col != [] && AllStrings(col)
    ensures AllStrings(col[1..]) && forall i :: 0 <= i < |col| - 1 ==> col[1..][i] == col[i + 1]
  {
  }

  /** `pd.to_numeric(s.replace(drop, ''), errors='coerce')` followed by
      `fillna(0)`: a text that is not a number, and a missing cell, become 0. */
  function CoerceCell(c: Cell, drop: char): (v: real)
    requires c.Str? || c.Missing?
    ensures c.Missing? ==> v == 0.0
  {
    if c.Missing? then 0.0
    else match NumFormat.ParseNumber(Text.RemoveChar(c.s, drop))
         case None => 0.0
         case Some(x) => x
  }

  function CoerceColumn(col: seq<Cell>, drop: char): (out: seq<Cell>)
    requires StringsOrMissing(col)
    ensures |out| == |col| && AllNumeric(out)
  {
    seq(|col|, i requires 0 <= i < |col| => Real(CoerceCell(col[i], drop)))
  }

  /** A count formatted with separators and cleaned reads back exactly. */
  lemma CleanThousands(n: nat)
    ensures CleanNumber(NumFormat.SignedThousandsText(n)) == Some(n as real)
  {
    var t := NumFormat.ThousandsText(n);
    NumFormat.ThousandsRoundTrip(n);
    NumFormat.ThousandsWithoutSpaces(n);
    NumFormat.DigitsHaveNoPoint(NumFormat.Digits(n));
  }

  /** An integer column formatted with separators and read back by
      `clean_and_convert` gives the integers again. */
  lemma ThousandsColumnRoundTrip(col: seq<Cell>)
    requires AllInts(col) && forall i :: 0 <= i < |col| ==> col[i].i >= 0
    ensures CleanAndConvertColumn(ThousandsColumn(col))
            == Success(seq(|col|, i requires 0 <= i < |col| => Real(col[i].i as real)))
  {
    var out := ThousandsColumn(col);
    forall i | 0 <= i < |col| ensures CleanNumber(out[i].s) == Some(col[i].i as real) {
      CleanThousands(col[i].i);
    }
    var r := CleanAndConvertColumn(out);
    assert r.Success?;
    assert r.value == seq(|col|, i requires 0 <= i < |col| => Real(col[i].i as real));
  }

  /** A numeric column formatted as `.2f%` and read back by
      `clean_and_convert` gives every value rounded to the hundredth. */
  lemma PercentColumnRoundTrip(col: seq<Cell>)
    requires AllNumeric(col)
    ensures CleanAndConvertColumn(PercentColumn(col))
            == Success(seq(|col|, i requires 0 <= i < |col| => Real(NumFormat.Rounded2(Value(col[i])))))
  {
    var out := PercentColumn(col);
    forall i | 0 <= i < |col| ensures CleanNumber(out[i].s) == Some(NumFormat.Rounded2(Value(col[i]))) {
      NumFormat.PercentRoundTrip(Value(col[i]));
    }
    var r := CleanAndConvertColumn(out);
    assert r.Success?;
    assert r.value == seq(|col|, i requires 0 <= i < |col| => Real(NumFormat.Rounded2(Value(col[i]))));
  }

  /** Read back by the map branch's `to_numeric(col.str.replace(' ', ''))`,
      a separator-formatted count is the count itself. */
  lemma CoerceThousands(n: nat)
    ensures CoerceCell(Str(NumFormat.ThousandsText(n)), ' ') == n as real
  {
    NumFormat.ThousandsRoundTrip(n);
  }

  /** Read back by `to_numeric(col.str.replace('%', ''))`, a `.2f%` text is
      the value rounded to the hundredth. */
  lemma CoercePercent(x: real)
    ensures CoerceCell(Str(NumFormat.PercentText(x)), '%') == NumFormat.Rounded2(x)
  {
    var body := NumFormat.Fixed2Text(x);
    NumFormat.PercentStripped(x);
    NumFormat.Fixed2Shape(x);
    Text.RemoveCharAppend(body, "%", '%');
    assert Text.RemoveChar("%", '%') == [];
    assert '%' !in body by {
      var u := NumFormat.Digits(NumFormat.Hundredths(x) / 100) + "." + NumFormat.Pad2(NumFormat.Hundredths(x) % 100);
      if x < 0.0 { assert body == "-" + u; } else { assert body == u; }
    }
    assert body + [] == body;
    NumFormat.Fixed2RoundTrip(x);
  }

  /** A frame whose columns the dashboard overwrites one assignment at a time
      (`data[name] = ...`). */
  class Frame {
    var table: Table

    constructor (t: Table)
      ensures table == t
    {
      table := t;
    }

    /** `data[name] = data[name].apply(lambda x: f"{x:,}".replace(",", " "))`. */
    method FormatThousands(name: string)
      requires name in table.columns && AllInts(table.columns[name])
      modifies this
      ensures table == old(table).(columns := old(table).columns[name := ThousandsColumn(old(table).columns[name])])
      ensures old(table).Valid() ==> table.Valid()
    {
      table := table.(columns := table.columns[name := ThousandsColumn(table.columns[name])]);
    }

    /** `data[name] = data[name].apply(lambda x: f"{x:.2f}%")`. */
    method FormatPercent(name: string)
      requires name in table.columns && AllNumeric(table.columns[name])
      modifies this
      ensures table == old(table).(columns := old(table).columns[name := PercentColumn(old(table).columns[name])])
      ensures old(table).Valid() ==> table.Valid()
    {
      table := table.(columns := table.columns[name := PercentColumn(table.columns[name])]);
    }

    /** `data[name] = clean_and_convert(data[name])`; on failure the
        exception leaves the column as it was. `isText` says whether the
        column's dtype is text: the cells alone do not show it, because
        `.apply` on an empty Series returns an empty Series of the original
        dtype, so a formatted column of an empty frame is still numeric and
        its `.str` accessor raises AttributeError. */
    method CleanAndConvert(name: string, isText: bool) returns (r: Result<()>)
      requires name in table.columns && AllStrings(table.columns[name])
      modifies this
      ensures r.Success? <==> isText && CleanAndConvertColumn(old(table).columns[name]).Success?
      ensures r.Fail? ==> table == old(table)
      ensures r.Fail? && !isText ==> r.error == NotText(name)
      ensures r.Fail? && isText ==> r.error == CleanAndConvertColumn(old(table).columns[name]).error
      ensures r.Success? ==>
                table == old(table).(columns := old(table).columns[name := CleanAndConvertColumn(old(table).columns[name]).value])
      ensures old(table).Valid() ==> table.Valid()
    {
      if !isText {
        return Fail(NotText(name));
      }
      var c := CleanAndConvertColumn(table.columns[name]);
      if c.Fail? {
        return Fail(c.error);
      }
      table := table.(columns := table.columns[name := c.value]);
      return Success(());
    }

    /** `data[dst] = pd.to_numeric(data[src].str.replace(drop, ''),
        errors='coerce').fillna(0)`; reading a column the frame lacks is a
        KeyError, and `.str` on a column whose dtype is not text (`isText`,
        as for CleanAndConvert) an AttributeError. */
    method CoerceInto(src: string, dst: string, drop: char, isText: bool) returns (r: Result<()>)
      requires src in table.columns ==> StringsOrMissing(table.columns[src])
      modifies this
      ensures r.Success? <==> src in old(table).columns && isText
      ensures r.Fail? ==> table == old(table)
      ensures r.Fail? ==> r.error == if src in old(table).columns then NotText(src) else UnknownMetric(src)
      ensures r.Success? ==>
                table == old(table).(columns := old(table).columns[dst := CoerceColumn(old(table).columns[src], drop)])
      ensures old(table).Valid() ==> table.Valid()
    {
      if src !in table.columns {
        return Fail(UnknownMetric(src));
      }
      if !isText {
        return Fail(NotText(src));
      }
      table := table.(columns := table.columns[dst := CoerceColumn(table.columns[src], drop)]);
      return Success(());
    }
  }
}
