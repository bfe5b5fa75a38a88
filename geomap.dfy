/** The left joins of the map views and the data side of the two choropleth
    helpers, `generate_province_map` and `generate_fixed_map`: every boundary
    unit left-joined against the indicator table, the metric coerced to a
    number, and a hover caption that is either the formatted number or the
    sentinel "Hors enquête". */
module GeoMap {
  import opened Wrappers
  import opened Frames
  import Order
  import NumFormat
  import Text

  /** The caption of a unit without data, or whose value is zero. */
  const Sentinel: string := "Hors enquête"

  // ---------------------------------------------------------------------
  // Left join of boundary names against a key column

  /** Whether a boundary name joins a key cell. pandas joins a missing key
      to a missing key. */
  predicate KeyMatches(name: Option<string>, key: Cell) {
    match name
    case None => key.Missing?
    case Some(n) => key == Str(n)
  }

  /** The cell a boundary name puts in the joined frame's key column. */
  function NameCell(name: Option<string>): (c: Cell)
    ensures KeyMatches(name, c)
  {
    match name
    case None => Missing
    case Some(n) => Str(n)
  }

  /** The positions of the key cells a boundary name joins, increasing. */
  function MatchRows(name: Option<string>, keys: seq<Cell>): (ix: seq<nat>)
    ensures forall j :: 0 <= j < |ix| ==> ix[j] < |keys| && KeyMatches(name, keys[ix[j]])
    ensures forall i :: 0 <= i < |keys| && KeyMatches(name, keys[i]) ==> i in ix
    ensures forall a, b :: 0 <= a < b < |ix| ==> ix[a] < ix[b]
  {
    if keys == [] then []
    else
      var init := MatchRows(name, keys[..|keys| - 1]);
      MatchRowsExtend(name, keys, init);
      if KeyMatches(name, keys[|keys| - 1]) then init + [|keys| - 1] else init
  }

  /** The matches among all keys are those among all but the last, followed
      by the last one when it matches. */
  lemma MatchRowsExtend(name: Option<string>, keys: seq<Cell>, init: seq<nat>)
    requires keys != []
    requires forall j :: 0 <= j < |init| ==> init[j] < |keys| - 1 && KeyMatches(name, keys[..|keys| - 1][init[j]])
    requires forall i :: 0 <= i < |keys| - 1 && KeyMatches(name, keys[..|keys| - 1][i]) ==> i in init
    requires forall a, b :: 0 <= a < b < |init| ==> init[a] < init[b]
    ensures var ix := if KeyMatches(name, keys[|keys| - 1]) then init + [|keys| - 1] else init;
            && (forall j :: 0 <= j < |ix| ==> ix[j] < |keys| && KeyMatches(name, keys[ix[j]]))
            && (forall i :: 0 <= i < |keys| && KeyMatches(name, keys[i]) ==> i in ix)
            && (forall a, b :: 0 <= a < b < |ix| ==> ix[a] < ix[b])
  {
    var n := |keys| - 1;
    forall i | 0 <= i < n ensures keys[..n][i] == keys[i] { }
    if KeyMatches(name, keys[n]) {
      var ix := init + [n];
      forall j | 0 <= j < |ix| ensures ix[j] < |keys| && KeyMatches(name, keys[ix[j]]) {
        if j < |init| { assert ix[j] == init[j]; }
      }
      forall i | 0 <= i < |keys| && KeyMatches(name, keys[i]) ensures i in ix {
        if i < n { assert i in init; }
      }
      forall a, b | 0 <= a < b < |ix| ensures ix[a] < ix[b] {
        assert ix[a] == init[a];
        if b < |init| { assert ix[b] == init[b]; }
      }
    }
  }

  /** One row of a left join: the boundary name and the joined row, if any. */
  datatype JoinEntry = JoinEntry(name: Option<string>, row: Option<nat>)

  /** The entries one boundary name makes: one per matching row, or one
      without a row when no key matches. */
  function Entries(name: Option<string>, keys: seq<Cell>): (h: seq<JoinEntry>)
    ensures |h| >= 1 && forall j :: 0 <= j < |h| ==> h[j].name == name
    ensures forall j :: 0 <= j < |h| && h[j].row.Some? ==>
              h[j].row.value < |keys| && KeyMatches(name, keys[h[j].row.value])
    ensures forall i :: 0 <= i < |keys| && KeyMatches(name, keys[i]) ==> JoinEntry(name, Some(i)) in h
    ensures (forall i :: 0 <= i < |keys| ==> !KeyMatches(name, keys[i])) ==> h == [JoinEntry(name, None)]
    ensures (exists i :: 0 <= i < |keys| && KeyMatches(name, keys[i])) ==> forall j :: 0 <= j < |h| ==> h[j].row.Some?
    ensures forall a, b :: 0 <= a < b < |h| ==> h[a].row.Some? && h[b].row.Some? && h[a].row.value < h[b].row.value
  {
    var ix := MatchRows(name, keys);
    if ix == [] then [JoinEntry(name, None)]
    else
      var h := seq(|ix|, j requires 0 <= j < |ix| => JoinEntry(name, Some(ix[j])));
      assert ix[0] < |keys| && KeyMatches(name, keys[ix[0]]);
      assert forall i :: 0 <= i < |keys| && KeyMatches(name, keys[i]) ==> JoinEntry(name, Some(i)) in h by {
        forall i | 0 <= i < |keys| && KeyMatches(name, keys[i]) ensures JoinEntry(name, Some(i)) in h {
          var j :| 0 <= j < |ix| && ix[j] == i;
          assert h[j] == JoinEntry(name, Some(i));
        }
      }
      h
  }

  /** `units.merge(data, ..., how='left')`: for each boundary name in order,
      its entries. */
  function LeftJoin(names: seq<Option<string>>, keys: seq<Cell>): (js: seq<JoinEntry>)
    ensures forall k :: 0 <= k < |js| && js[k].row.Some? ==>
              js[k].row.value < |keys| && KeyMatches(js[k].name, keys[js[k].row.value])
  {
    if names == [] then []
    else Entries(names[0], keys) + LeftJoin(names[1..], keys)
  }

  /** Every entry of the join belongs to a boundary; it carries a row only
      when that row's key matches, and no row only when no key matches. Every
      (boundary, matching row) pair is an entry, and so is every boundary
      without a match. */
  lemma {:induction false} LeftJoinSpec(names: seq<Option<string>>, keys: seq<Cell>)
    ensures forall k :: 0 <= k < |LeftJoin(names, keys)| ==> LeftJoin(names, keys)[k].name in names
    ensures forall k :: 0 <= k < |LeftJoin(names, keys)| && LeftJoin(names, keys)[k].row.None? ==>
              forall i :: 0 <= i < |keys| ==> !KeyMatches(LeftJoin(names, keys)[k].name, keys[i])
    ensures forall n, i :: n in names && 0 <= i < |keys| && KeyMatches(n, keys[i]) ==> JoinEntry(n, Some(i)) in LeftJoin(names, keys)
    ensures forall n :: n in names && (forall i :: 0 <= i < |keys| ==> !KeyMatches(n, keys[i])) ==>
              JoinEntry(n, None) in LeftJoin(names, keys)
  {
    if names != [] {
      var head, rest := names[0], names[1..];
      LeftJoinSpec(rest, keys);
      var h, t := Entries(head, keys), LeftJoin(rest, keys);
      var js := LeftJoin(names, keys);
      assert js == h + t;
      forall k | 0 <= k < |js|
        ensures js[k].name in names
        ensures js[k].row.None? ==> forall i :: 0 <= i < |keys| ==> !KeyMatches(js[k].name, keys[i])
      {
        if k < |h| {
          assert js[k] == h[k];
        } else {
          assert js[k] == t[k - |h|];
          assert t[k - |h|].name in rest;
        }
      }
      forall n, i | n in names && 0 <= i < |keys| && KeyMatches(n, keys[i]) ensures JoinEntry(n, Some(i)) in js {
        if n == head { assert JoinEntry(n, Some(i)) in h; } else { assert n in rest; }
      }
      forall n | n in names && (forall i :: 0 <= i < |keys| ==> !KeyMatches(n, keys[i])) ensures JoinEntry(n, None) in js {
        if n == head { assert h == [JoinEntry(n, None)]; } else { assert n in rest; }
      }
    }
  }

  /** The join of a list of boundaries is the join of its front followed by
      the entries of the last boundary: pandas keeps the left order, and a
      boundary joining several rows is repeated once per row. */
  lemma {:induction false} LeftJoinAppend(names: seq<Option<string>>, n: Option<string>, keys: seq<Cell>)
    ensures LeftJoin(names + [n], keys) == LeftJoin(names, keys) + Entries(n, keys)
  {
    if names != [] {
      assert (names + [n])[1..] == names[1..] + [n];
      LeftJoinAppend(names[1..], n, keys);
    }
  }

  /** Key cells that are all different: each unit appears once in the table. */
  predicate DistinctKeys(keys: seq<Cell>) {
    forall i, j :: 0 <= i < j < |keys| ==> keys[i] != keys[j]
  }

  /** The row a boundary name joins when keys are distinct. */
  function Lookup(name: Option<string>, keys: seq<Cell>): Option<nat> {
    var ix := MatchRows(name, keys);
    if ix == [] then None else Some(ix[0])
  }

  lemma AtMostOneMatch(name: Option<string>, keys: seq<Cell>)
    requires DistinctKeys(keys)
    ensures |MatchRows(name, keys)| <= 1
  {
    var ix := MatchRows(name, keys);
    if ix != [] {
      forall j | 0 <= j < |ix| ensures ix[j] == ix[0] {
        assert keys[ix[j]] == keys[ix[0]] by {
          match name
          case None =>
          case Some(n) =>
        }
      }
      assert Order.NoDuplicates(ix);
      assert (set y | y in ix) == {ix[0]};
      Order.DistinctCardinality(ix);
    }
  }

  /** With distinct keys a name joins no row exactly when no key matches it,
      and otherwise the one row whose key matches. */
  lemma LookupSpec(name: Option<string>, keys: seq<Cell>)
    requires DistinctKeys(keys)
    ensures Lookup(name, keys).None? <==> forall k :: 0 <= k < |keys| ==> !KeyMatches(name, keys[k])
    ensures forall k :: 0 <= k < |keys| && KeyMatches(name, keys[k]) ==> Lookup(name, keys) == Some(k)
  {
    AtMostOneMatch(name, keys);
    var ix := MatchRows(name, keys);
    forall k | 0 <= k < |keys| && KeyMatches(name, keys[k]) ensures Lookup(name, keys) == Some(k) {
      assert k in ix;
    }
  }

  /** With distinct keys one boundary name makes one entry. */
  lemma JoinOneName(names: seq<Option<string>>, keys: seq<Cell>)
    requires names != [] && DistinctKeys(keys)
    ensures LeftJoin(names, keys) == [JoinEntry(names[0], Lookup(names[0], keys))] + LeftJoin(names[1..], keys)
  {
    AtMostOneMatch(names[0], keys);
  }

  /** With distinct keys the join keeps exactly the boundary units, one entry
      each and in their order, each carrying the row its name looks up. */
  lemma {:induction false} JoinOnePerUnit(names: seq<Option<string>>, keys: seq<Cell>)
    requires DistinctKeys(keys)
    ensures LeftJoin(names, keys) == seq(|names|, i requires 0 <= i < |names| => JoinEntry(names[i], Lookup(names[i], keys)))
  {
    if names != [] {
      JoinOnePerUnit(names[1..], keys);
      JoinOneName(names, keys);
      var js := LeftJoin(names, keys);
      var tail := LeftJoin(names[1..], keys);
      forall i | 0 <= i < |names| ensures js[i] == JoinEntry(names[i], Lookup(names[i], keys)) {
        if i > 0 { assert js[i] == tail[i - 1] && names[i] == names[1..][i - 1]; }
      }
    }
  }

  /** Whatever the keys, the join invents no unit and drops none. */
  lemma {:induction false} JoinKeepsUnits(names: seq<Option<string>>, keys: seq<Cell>)
    ensures forall k :: 0 <= k < |LeftJoin(names, keys)| ==> LeftJoin(names, keys)[k].name in names
    ensures forall n :: n in names ==> exists k :: 0 <= k < |LeftJoin(names, keys)| && LeftJoin(names, keys)[k].name == n
  {
    if names != [] {
      JoinKeepsUnits(names[1..], keys);
      var head, tail := Entries(names[0], keys), LeftJoin(names[1..], keys);
      var js := LeftJoin(names, keys);
      forall k | 0 <= k < |js| ensures js[k].name in names {
        if k >= |head| {
          assert js[k] == tail[k - |head|];
          assert tail[k - |head|].name in names[1..];
        }
      }
      forall n | n in names ensures exists k :: 0 <= k < |js| && js[k].name == n {
        if n == names[0] {
          assert js[0].name == n;
        } else {
          assert n in names[1..];
          var k :| 0 <= k < |tail| && tail[k].name == n;
          assert js[|head| + k].name == n;
        }
      }
    }
  }


  /** The cell a join entry carries from a column of the right table: the
      joined row's, or a missing value. */
  function JoinedCell(e: JoinEntry, col: seq<Cell>): Cell
    requires e.row.Some? ==> e.row.value < |col|
  {
    if e.row.Some? then col[e.row.value] else Missing
  }

  /** `units.merge(t, left_on=nameCol, right_on=on, how='left')` as a frame:
      the boundary names under `nameCol`, and every column of `t` carried
      over from the joined row (missing where none joins). */
  function JoinTable(names: seq<Option<string>>, nameCol: string, t: Table, on: string): (j: Table)
    requires t.Valid() && on in t.columns
    ensures j.Valid() && j.height == |LeftJoin(names, t.columns[on])|
    ensures j.columns.Keys == t.columns.Keys + {nameCol}
  {
    var js := LeftJoin(names, t.columns[on]);
    Table(|js|, map c | c in t.columns.Keys + {nameCol} ::
      if c == nameCol then seq(|js|, i requires 0 <= i < |js| => NameCell(js[i].name))
      else seq(|js|, i requires 0 <= i < |js| => JoinedCell(js[i], t.columns[c])))
  }

  /** The joined frame holds, for each boundary unit, the unit's own row of
      `t` in every carried column, or missing values when `t` lacks the unit. */
  lemma JoinTableSpec(names: seq<Option<string>>, nameCol: string, t: Table, on: string)
    requires t.Valid() && on in t.columns && DistinctKeys(t.columns[on])
    ensures var j := JoinTable(names, nameCol, t, on);
            && j.height == |names|
            && (forall i :: 0 <= i < |names| ==> j.columns[nameCol][i] == NameCell(names[i]))
            && (forall c, i, k ::
                  (c in t.columns && c != nameCol && 0 <= i < |names| && 0 <= k < t.height && KeyMatches(names[i], t.columns[on][k]))
                  ==> j.columns[c][i] == t.columns[c][k])
            && (forall c, i ::
                  (c in t.columns && c != nameCol && 0 <= i < |names| && forall k :: 0 <= k < t.height ==> !KeyMatches(names[i], t.columns[on][k]))
                  ==> j.columns[c][i] == Missing)
  {
    var keys := t.columns[on];
    JoinOnePerUnit(names, keys);
    forall i | 0 <= i < |names| { LookupSpec(names[i], keys); }
  }

  /** One cell of the joined frame: unit `i`'s name under `nameCol`, and under
      a carried column the cell of its matching row, or a missing value. */
  lemma JoinedAt(names: seq<Option<string>>, nameCol: string, t: Table, on: string, c: string, i: nat)
    requires t.Valid() && on in t.columns && DistinctKeys(t.columns[on])
    requires c in t.columns && c != nameCol && i < |names|
    ensures var j := JoinTable(names, nameCol, t, on);
            && j.height == |names| && c in j.columns && nameCol in j.columns
            && j.columns[nameCol][i] == NameCell(names[i])
            && j.columns[c][i] == match Lookup(names[i], t.columns[on]) case None => Missing case Some(k) => t.columns[c][k]
  {
    JoinOnePerUnit(names, t.columns[on]);
    LookupSpec(names[i], t.columns[on]);
  }

  /** Joined on distinct keys, the frame has one row per unit. */
  lemma JoinHeight(names: seq<Option<string>>, nameCol: string, t: Table, on: string)
    requires t.Valid() && on in t.columns && DistinctKeys(t.columns[on])
    ensures JoinTable(names, nameCol, t, on).height == |names|
  {
    JoinOnePerUnit(names, t.columns[on]);
  }

  /** A text column carried through the join holds texts and missing values. */
  lemma JoinedTexts(names: seq<Option<string>>, nameCol: string, t: Table, on: string, c: string)
    requires t.Valid() && on in t.columns && c in t.columns && c != nameCol && AllStrings(t.columns[c])
    ensures StringsOrMissing(JoinTable(names, nameCol, t, on).columns[c])
  {
  }

  /** `t[t[col] == v]`: the rows whose `col` cell is the text `v`, in order. */
  function FilterTable(t: Table, col: string, v: string): (u: Table)
    requires t.Valid() && col in t.columns
    ensures u.Valid() && u.columns.Keys == t.columns.Keys
  {
    var ix := MatchRows(Some(v), t.columns[col]);
    Table(|ix|, map c | c in t.columns :: seq(|ix|, k requires 0 <= k < |ix| => t.columns[c][ix[k]]))
  }

  /** Row `k` of `u` is row `i` of `t`, column for column. */
  predicate SameRow(u: Table, k: nat, t: Table, i: nat) {
    forall c :: c in t.columns ==>
      c in u.columns && k < |u.columns[c]| && i < |t.columns[c]| && u.columns[c][k] == t.columns[c][i]
  }

  /** The filter keeps every row whose `col` is `v`, whole, and no other row. */
  lemma FilterTableSpec(t: Table, col: string, v: string)
    requires t.Valid() && col in t.columns
    ensures var u, ix := FilterTable(t, col, v), MatchRows(Some(v), t.columns[col]);
            && u.height == |ix|
            && (forall k :: 0 <= k < |ix| ==> ix[k] < t.height && t.columns[col][ix[k]] == Str(v) && SameRow(u, k, t, ix[k]))
            && (forall i :: 0 <= i < t.height && t.columns[col][i] == Str(v) ==>
                  exists k :: 0 <= k < u.height && SameRow(u, k, t, i))
  {
    var ix := MatchRows(Some(v), t.columns[col]);
    var u := FilterTable(t, col, v);
    forall k | 0 <= k < |ix| ensures SameRow(u, k, t, ix[k]) {
    }
    forall i | 0 <= i < t.height && t.columns[col][i] == Str(v)
      ensures exists k :: 0 <= k < u.height && SameRow(u, k, t, i)
    {
      assert i in ix;
      var k :| 0 <= k < |ix| && ix[k] == i;
      assert SameRow(u, k, t, i);
    }
  }

  // ---------------------------------------------------------------------
  // Coercion and captions

  /** `pd.to_numeric(cell, errors='coerce')`. */
  function Numeric(c: Cell): Option<real> {
    match c
    case Int(i) => Some(i as real)
    case Real(x) => Some(x)
    case Str(s) => NumFormat.ParseNumber(s)
    case Missing => None
  }

  /** The caption of `generate_province_map`: `.2f%` when the column name
      holds "Proportion", otherwise `f"{v:,.0f}"` with spaces; the sentinel
      for a missing or zero value. */
  function ProvinceCaption(v: Option<real>, percent: bool): string {
    if v.None? || v.value == 0.0 then Sentinel
    else if percent then NumFormat.PercentText(v.value)
    else NumFormat.RoundedThousandsText(v.value)
  }

  /** The caption of `generate_fixed_map`: `.2f%` when the title holds
      "Proportion", otherwise `f"{int(v):,}"` with spaces (truncated toward
      zero); the sentinel for a missing or zero value. The `.2f%` text holds
      no comma, so its `.replace(',', ' ')` changes nothing. */
  function FixedCaption(v: Option<real>, percent: bool): string {
    if v.None? || v.value == 0.0 then Sentinel
    else if percent then NumFormat.PercentText(v.value)
    else NumFormat.SignedThousandsText(NumFormat.Truncate(v.value))
  }

  lemma PercentTextStart(x: real)
    ensures NumFormat.PercentText(x)[0] == '-' || NumFormat.IsDigit(NumFormat.PercentText(x)[0])
  {
    NumFormat.Fixed2Shape(x);
  }

  /** A formatted number never reads as the sentinel, so the sentinel marks
      exactly the units without a usable value. */
  lemma CaptionRule(v: Option<real>, percent: bool)
    ensures ProvinceCaption(v, percent) == Sentinel <==> v.None? || v.value == 0.0
    ensures FixedCaption(v, percent) == Sentinel <==> v.None? || v.value == 0.0
  {
    if v.Some? && v.value != 0.0 {
      var x := v.value;
      PercentTextStart(x);
      assert Sentinel[0] == 'H';
      var m: nat := NumFormat.RoundHalfEven(NumFormat.Abs(x));
      var t := NumFormat.ThousandsText(m);
      if x < 0.0 {
        assert NumFormat.RoundedThousandsText(x)[0] == '-';
      } else {
        assert NumFormat.RoundedThousandsText(x) == t;
      }
    }
  }

  /** One map unit after the join: its boundary name (missing for an unnamed
      boundary), its coerced metric (missing: NaN) and its hover caption. */
  datatype MapLabel = MapLabel(name: Option<string>, value: Option<real>, caption: string)

  /** `data[column] = pd.to_numeric(data[column], errors='coerce')` and the
      caption column, over the joined entries. */
  function Captioned(js: seq<JoinEntry>, col: seq<Cell>, province: bool, percent: bool): (out: seq<MapLabel>)
    requires forall k :: 0 <= k < |js| && js[k].row.Some? ==> js[k].row.value < |col|
    ensures |out| == |js|
    ensures forall i :: 0 <= i < |js| ==> out[i].name == js[i].name && out[i].value == Numeric(JoinedCell(js[i], col))
    ensures forall i :: 0 <= i < |js| ==>
              out[i].caption == if province then ProvinceCaption(out[i].value, percent) else FixedCaption(out[i].value, percent)
  {
    seq(|js|, i requires 0 <= i < |js| =>
      var v := Numeric(JoinedCell(js[i], col));
      MapLabel(js[i].name, v, if province then ProvinceCaption(v, percent) else FixedCaption(v, percent)))
  }

  /** `generate_province_map(data, column, title)` up to the figure: the
      boundary provinces left-joined on `name == Province`, then `data[column]`
      coerced and captioned. A frame lacking the join key or the metric column
      raises a KeyError. */
  function ProvinceMapLabels(names: seq<Option<string>>, t: Table, column: string): (r: Result<seq<MapLabel>>)
    requires t.Valid()
    ensures r.Fail? <==> "Province" !in t.columns || column !in t.columns
    ensures r.Fail? && "Province" in t.columns ==> r.error == UnknownMetric(column)
    ensures r.Success? ==> |r.value| == |LeftJoin(names, t.columns["Province"])|
  {
    if "Province" !in t.columns then Fail(MissingJoinKey("Province"))
    else if column !in t.columns then Fail(UnknownMetric(column))
    else Success(Captioned(LeftJoin(names, t.columns["Province"]), t.columns[column], true,
                           Text.Contains(column, "Proportion")))
  }

  /** `generate_fixed_map(data, column, title)` up to the figure: the
      boundary regions left-joined on `region`, then `data[column]` coerced
      and captioned. */
  function FixedMapLabels(names: seq<Option<string>>, t: Table, column: string, title: string): (r: Result<seq<MapLabel>>)
    requires t.Valid()
    ensures r.Fail? <==> "region" !in t.columns || column !in t.columns
    ensures r.Fail? && "region" in t.columns ==> r.error == UnknownMetric(column)
    ensures r.Success? ==> |r.value| == |LeftJoin(names, t.columns["region"])|
  {
    if "region" !in t.columns then Fail(MissingJoinKey("region"))
    else if column !in t.columns then Fail(UnknownMetric(column))
    else Success(Captioned(LeftJoin(names, t.columns["region"]), t.columns[column], false,
                           Text.Contains(title, "Proportion")))
  }

  /** The captions over a join with distinct keys: one label per boundary
      unit, in order, carrying the unit's own coerced value; a unit is
      captioned "Hors enquête" exactly when it has no joined row, a
      non-numeric value or a zero value. */
  lemma CaptionedSpec(names: seq<Option<string>>, keys: seq<Cell>, col: seq<Cell>, province: bool, percent: bool)
    requires |keys| == |col| && DistinctKeys(keys)
    ensures var out := Captioned(LeftJoin(names, keys), col, province, percent);
            && |out| == |names|
            && (forall i :: 0 <= i < |names| ==> out[i].name == names[i])
            && (forall i :: 0 <= i < |names| ==> (out[i].caption == Sentinel <==> out[i].value.None? || out[i].value.value == 0.0))
            && (forall i, k :: 0 <= i < |names| && 0 <= k < |keys| && KeyMatches(names[i], keys[k]) ==> out[i].value == Numeric(col[k]))
            && (forall i :: 0 <= i < |names| && (forall k :: 0 <= k < |keys| ==> !KeyMatches(names[i], keys[k])) ==>
                  out[i].value.None? && out[i].caption == Sentinel)
  {
    JoinOnePerUnit(names, keys);
    forall i | 0 <= i < |names| {
      CaptionedAt(names, keys, col, province, percent, i);
    }
  }

  /** The label of boundary unit `i` over a join with distinct keys. */
  lemma CaptionedAt(names: seq<Option<string>>, keys: seq<Cell>, col: seq<Cell>, province: bool, percent: bool, i: nat)
    requires |keys| == |col| && DistinctKeys(keys) && i < |names|
    ensures |LeftJoin(names, keys)| == |names|
    ensures var out := Captioned(LeftJoin(names, keys), col, province, percent);
            && out[i].name == names[i]
            && (out[i].caption == Sentinel <==> out[i].value.None? || out[i].value.value == 0.0)
            && (forall k :: 0 <= k < |keys| && KeyMatches(names[i], keys[k]) ==> out[i].value == Numeric(col[k]))
            && ((forall k :: 0 <= k < |keys| ==> !KeyMatches(names[i], keys[k])) ==>
                  out[i].value.None? && out[i].caption == Sentinel)
  {
    JoinOnePerUnit(names, keys);
    var js := LeftJoin(names, keys);
    assert js[i] == JoinEntry(names[i], Lookup(names[i], keys));
    LookupSpec(names[i], keys);
    var out := Captioned(js, col, province, percent);
    CaptionRule(out[i].value, percent);
  }
}
