/** The three zoom views of `display_indicators` as the dashboard runs them:
    each builds its indicator frame, formats the counts and ratios in place
    for display, and either shows the table, parses it back for the charts,
    or joins it onto the map boundaries. */
module Dashboard {
  import opened Wrappers
  import opened Records
  import opened Aggregate
  import opened Frames
  import NumFormat
  import Text
  import GeoMap
  import Order

  // ---------------------------------------------------------------------
  // Frame layout

  const SurveyCol: string := "ENQUMENAGE"
  const CensusCol: string := "Recensement"
  const CoveredCol: string := "Nb grappes enquêtées"
  const TargetCol: string := "Nb grappes total"
  const RatioCol: string := "Proportion ENQUMENAGE/Recensement"
  const CoverageCol: string := "Proportion de grappes enquêtées"

  /** The three zoom levels. */
  datatype View = RegionView | ProvinceView | CircleView

  /** The header of the unit column. */
  function UnitHeader(v: View): string {
    match v
    case RegionView => "Région"
    case ProvinceView => "Province"
    case CircleView => "Cercle"
  }

  /** The header of the parent-unit column, for the views that show one. */
  function ParentHeader(v: View): Option<string> {
    match v
    case RegionView => None
    case ProvinceView => Some("Région")
    case CircleView => Some("Province")
  }

  /** The four count columns and the two ratio columns of an indicator row. */
  datatype Count = Expra1 | Expra0 | Grappes | Target
  datatype Rate = Ratio | Coverage

  function CountOf(r: IndicatorRow, c: Count): nat {
    match c
    case Expra1 => r.expra1
    case Expra0 => r.expra0
    case Grappes => r.uniqueGrappe
    case Target => FilledTarget(r.target)
  }

  function RateOf(r: IndicatorRow, q: Rate): real {
    match q
    case Ratio => r.ratio
    case Coverage => r.coverage
  }

  /** What a metric column holds: the computed number, its display text, or
      the number read back from that text. */
  datatype Stage = Computed | Shown | Parsed

  function CountCell(n: nat, s: Stage): Cell {
    match s
    case Computed => Int(n)
    case Shown => Str(NumFormat.ThousandsText(n))
    case Parsed => Real(n as real)
  }

  function RateCell(x: real, s: Stage): Cell {
    match s
    case Computed => Real(x)
    case Shown => Str(NumFormat.PercentText(x))
    case Parsed => Real(NumFormat.Rounded2(x))
  }

  function CountColumn(rows: seq<IndicatorRow>, c: Count, s: Stage): (col: seq<Cell>)
    ensures |col| == |rows| && forall i :: 0 <= i < |rows| ==> col[i] == CountCell(CountOf(rows[i], c), s)
  {
    seq(|rows|, i requires 0 <= i < |rows| => CountCell(CountOf(rows[i], c), s))
  }

  function RateColumn(rows: seq<IndicatorRow>, q: Rate, s: Stage): (col: seq<Cell>)
    ensures |col| == |rows| && forall i :: 0 <= i < |rows| ==> col[i] == RateCell(RateOf(rows[i], q), s)
  {
    seq(|rows|, i requires 0 <= i < |rows| => RateCell(RateOf(rows[i], q), s))
  }

  /** The cells of the unit column. */
  function UnitColumn(rows: seq<IndicatorRow>): (col: seq<Cell>)
    ensures |col| == |rows| && forall i :: 0 <= i < |rows| ==> col[i] == Str(rows[i].key)
  {
    seq(|rows|, i requires 0 <= i < |rows| => Str(rows[i].key))
  }

  /** The parent cell; a unit without parent is filled with 0 by `fillna(0)`. */
  function ParentCell(r: IndicatorRow): Cell {
    if r.parent.Some? then Str(r.parent.value) else Int(0)
  }

  function ParentColumn(rows: seq<IndicatorRow>): (col: seq<Cell>)
    ensures |col| == |rows| && forall i :: 0 <= i < |rows| ==> col[i] == ParentCell(rows[i])
  {
    seq(|rows|, i requires 0 <= i < |rows| => ParentCell(rows[i]))
  }

  /** The six metric columns. */
  datatype Metric = SurveyM | CensusM | CoveredM | TargetM | RatioM | CoverageM

  function Header(m: Metric): string {
    match m
    case SurveyM => SurveyCol
    case CensusM => CensusCol
    case CoveredM => CoveredCol
    case TargetM => TargetCol
    case RatioM => RatioCol
    case CoverageM => CoverageCol
  }

  function MetricColumn(rows: seq<IndicatorRow>, m: Metric, s: Stage): (col: seq<Cell>)
    ensures |col| == |rows|
  {
    match m
    case SurveyM => CountColumn(rows, Expra1, s)
    case CensusM => CountColumn(rows, Expra0, s)
    case CoveredM => CountColumn(rows, Grappes, s)
    case TargetM => CountColumn(rows, Target, s)
    case RatioM => RateColumn(rows, Ratio, s)
    case CoverageM => RateColumn(rows, Coverage, s)
  }

  /** The stage of each metric column. */
  datatype Stages = Stages(survey: Stage, census: Stage, covered: Stage, target: Stage, ratio: Stage, coverage: Stage)

  function AllAt(s: Stage): Stages {
    Stages(s, s, s, s, s, s)
  }

  function Get(st: Stages, m: Metric): Stage {
    match m
    case SurveyM => st.survey
    case CensusM => st.census
    case CoveredM => st.covered
    case TargetM => st.target
    case RatioM => st.ratio
    case CoverageM => st.coverage
  }

  function Set(st: Stages, m: Metric, s: Stage): (st': Stages)
    ensures Get(st', m) == s && forall m' :: m' != m ==> Get(st', m') == Get(st, m')
  {
    match m
    case SurveyM => st.(survey := s)
    case CensusM => st.(census := s)
    case CoveredM => st.(covered := s)
    case TargetM => st.(target := s)
    case RatioM => st.(ratio := s)
    case CoverageM => st.(coverage := s)
  }

  /** The metric columns in the order main.py rewrites them. */
  function MetricAt(i: nat): Metric
    requires i < 6
  {
    [SurveyM, CensusM, CoveredM, TargetM, RatioM, CoverageM][i]
  }

  /** The stages once the first `n` metric columns have moved from `before`
      to `after`. */
  function Progress(n: nat, before: Stage, after: Stage): Stages {
    Stages(if n > 0 then after else before, if n > 1 then after else before,
           if n > 2 then after else before, if n > 3 then after else before,
           if n > 4 then after else before, if n > 5 then after else before)
  }

  /** Moving the next column is one step of progress. */
  lemma ProgressStep(i: nat, before: Stage, after: Stage)
    requires i < 6 && before != after
    ensures Get(Progress(i, before, after), MetricAt(i)) == before
    ensures Set(Progress(i, before, after), MetricAt(i), after) == Progress(i + 1, before, after)
  {
  }

  /** The metric a header names, if any. */
  function MetricOf(h: string): (r: Option<Metric>)
    ensures r.Some? ==> Header(r.value) == h
  {
    if h == SurveyCol then Some(SurveyM)
    else if h == CensusCol then Some(CensusM)
    else if h == CoveredCol then Some(CoveredM)
    else if h == TargetCol then Some(TargetM)
    else if h == RatioCol then Some(RatioM)
    else if h == CoverageCol then Some(CoverageM)
    else None
  }

  lemma MetricOfHeader(m: Metric)
    ensures MetricOf(Header(m)) == Some(m)
  {
  }

  /** The headers of a view's frame. */
  function Headers(v: View): set<string> {
    {UnitHeader(v), SurveyCol, CensusCol, CoveredCol, TargetCol, RatioCol, CoverageCol}
    + (if ParentHeader(v).Some? then {ParentHeader(v).value} else {})
  }

  /** The column under header `h`. */
  function Cells(rows: seq<IndicatorRow>, v: View, h: string, st: Stages): (col: seq<Cell>)
    ensures |col| == |rows|
  {
    match MetricOf(h)
    case Some(m) => MetricColumn(rows, m, Get(st, m))
    case None => if h == UnitHeader(v) then UnitColumn(rows) else ParentColumn(rows)
  }

  /** A view's frame with each metric column at its stage. */
  function Assemble(rows: seq<IndicatorRow>, v: View, st: Stages): (t: Table)
    ensures t.Valid() && t.height == |rows| && t.columns.Keys == Headers(v)
  {
    Table(|rows|, map h | h in Headers(v) :: Cells(rows, v, h, st))
  }

  /** The frame after the ratio step and the column selection and renaming:
      counts as integers, ratios as numbers. */
  function RawTable(rows: seq<IndicatorRow>, v: View): Table {
    Assemble(rows, v, AllAt(Computed))
  }

  /** The displayed frame: counts grouped in threes with spaces, ratios as
      `.2f%`. */
  function DisplayTable(rows: seq<IndicatorRow>, v: View): Table {
    Assemble(rows, v, AllAt(Shown))
  }

  /** The frame the charts plot: every count exactly, every ratio rounded to
      the hundredth. */
  function NumericTable(rows: seq<IndicatorRow>, v: View): Table {
    Assemble(rows, v, AllAt(Parsed))
  }

  /** A column other than the rewritten one keeps its cells. */
  lemma OtherCells(rows: seq<IndicatorRow>, v: View, st: Stages, m: Metric, s: Stage, h: string)
    requires h != Header(m)
    ensures Cells(rows, v, h, Set(st, m, s)) == Cells(rows, v, h, st)
  {
    match MetricOf(h)
    case Some(m') => assert Get(Set(st, m, s), m') == Get(st, m');
    case None =>
  }

  /** The metric column of an assembled frame is at its stage. */
  lemma StepRead(rows: seq<IndicatorRow>, v: View, st: Stages, m: Metric)
    ensures Header(m) in Assemble(rows, v, st).columns
    ensures Assemble(rows, v, st).columns[Header(m)] == MetricColumn(rows, m, Get(st, m))
  {
    MetricOfHeader(m);
  }

  lemma StepUpdate(rows: seq<IndicatorRow>, v: View, st: Stages, m: Metric, s: Stage)
    requires Header(m) in Headers(v)
    ensures Assemble(rows, v, st).columns[Header(m) := MetricColumn(rows, m, s)] == Assemble(rows, v, Set(st, m, s)).columns
  {
    StepRead(rows, v, Set(st, m, s), m);
    var a, b := Assemble(rows, v, st), Assemble(rows, v, Set(st, m, s));
    var upd := a.columns[Header(m) := MetricColumn(rows, m, s)];
    assert upd.Keys == b.columns.Keys;
    forall h | h in upd ensures upd[h] == b.columns[h] {
      if h != Header(m) {
        OtherCells(rows, v, st, m, s, h);
      }
    }
  }

  /** Rewriting one metric column moves only that column's stage. */
  lemma Step(rows: seq<IndicatorRow>, v: View, st: Stages, m: Metric, s: Stage)
    ensures Header(m) in Assemble(rows, v, st).columns
    ensures Assemble(rows, v, st).columns[Header(m)] == MetricColumn(rows, m, Get(st, m))
    ensures Assemble(rows, v, st).(columns := Assemble(rows, v, st).columns[Header(m) := MetricColumn(rows, m, s)])
            == Assemble(rows, v, Set(st, m, s))
  {
    StepRead(rows, v, st, m);
    StepUpdate(rows, v, st, m, s);
  }

  /** Formatting a computed count column gives the display texts, and
      `clean_and_convert` reads those back as the exact counts. */
  lemma CountColumnStages(rows: seq<IndicatorRow>, c: Count)
    ensures AllInts(CountColumn(rows, c, Computed))
    ensures ThousandsColumn(CountColumn(rows, c, Computed)) == CountColumn(rows, c, Shown)
    ensures AllStrings(CountColumn(rows, c, Shown))
    ensures CleanAndConvertColumn(CountColumn(rows, c, Shown)) == Success(CountColumn(rows, c, Parsed))
  {
    var ints, shown, parsed := CountColumn(rows, c, Computed), CountColumn(rows, c, Shown), CountColumn(rows, c, Parsed);
    assert AllInts(ints) by {
      forall i | 0 <= i < |ints| ensures ints[i].Int? { assert ints[i] == Int(CountOf(rows[i], c)); }
    }
    var formatted := ThousandsColumn(ints);
    forall i | 0 <= i < |rows| ensures formatted[i] == shown[i] {
      assert ints[i] == Int(CountOf(rows[i], c));
    }
    assert formatted == shown;
    ThousandsColumnRoundTrip(ints);
    var back := seq(|ints|, i requires 0 <= i < |ints| => Real(ints[i].i as real));
    forall i | 0 <= i < |rows| ensures back[i] == parsed[i] {
      assert ints[i] == Int(CountOf(rows[i], c));
    }
    assert back == parsed;
  }

  /** Formatting a ratio column gives `.2f%` texts, and `clean_and_convert`
      reads those back as the ratios rounded to the hundredth. */
  lemma RateColumnStages(rows: seq<IndicatorRow>, q: Rate)
    ensures AllNumeric(RateColumn(rows, q, Computed))
    ensures PercentColumn(RateColumn(rows, q, Computed)) == RateColumn(rows, q, Shown)
    ensures AllStrings(RateColumn(rows, q, Shown))
    ensures CleanAndConvertColumn(RateColumn(rows, q, Shown)) == Success(RateColumn(rows, q, Parsed))
  {
    var reals, shown, parsed := RateColumn(rows, q, Computed), RateColumn(rows, q, Shown), RateColumn(rows, q, Parsed);
    assert AllNumeric(reals) by {
      forall i | 0 <= i < |reals| ensures reals[i].Real? { assert reals[i] == Real(RateOf(rows[i], q)); }
    }
    var formatted := PercentColumn(reals);
    forall i | 0 <= i < |rows| ensures formatted[i] == shown[i] {
      assert reals[i] == Real(RateOf(rows[i], q));
    }
    assert formatted == shown;
    PercentColumnRoundTrip(reals);
    var back := seq(|reals|, i requires 0 <= i < |reals| => Real(NumFormat.Rounded2(Value(reals[i]))));
    forall i | 0 <= i < |rows| ensures back[i] == parsed[i] {
      assert reals[i] == Real(RateOf(rows[i], q));
    }
    assert back == parsed;
  }

  /** Lines 308-313: the four count columns and the two ratio columns
      overwritten, one assignment at a time, by their display texts. */
  method FormatIndicators(f: Frame, rows: seq<IndicatorRow>, v: View)
    requires f.table == RawTable(rows, v)
    modifies f
    ensures f.table == DisplayTable(rows, v)
  {
    assert Progress(0, Computed, Shown) == AllAt(Computed);
    FormatColumn(f, rows, v, 0);
    FormatColumn(f, rows, v, 1);
    FormatColumn(f, rows, v, 2);
    FormatColumn(f, rows, v, 3);
    FormatColumn(f, rows, v, 4);
    FormatColumn(f, rows, v, 5);
    assert Progress(6, Computed, Shown) == AllAt(Shown);
  }

  /** One of those assignments: a computed column becomes its display texts. */
  method FormatColumn(f: Frame, rows: seq<IndicatorRow>, v: View, i: nat)
    requires i < 6 && f.table == Assemble(rows, v, Progress(i, Computed, Shown))
    modifies f
    ensures f.table == Assemble(rows, v, Progress(i + 1, Computed, Shown))
  {
    ghost var st := Progress(i, Computed, Shown);
    ProgressStep(i, Computed, Shown);
    Step(rows, v, st, MetricAt(i), Shown);
    match MetricAt(i)
    case SurveyM => CountColumnStages(rows, Expra1); f.FormatThousands(SurveyCol);
    case CensusM => CountColumnStages(rows, Expra0); f.FormatThousands(CensusCol);
    case CoveredM => CountColumnStages(rows, Grappes); f.FormatThousands(CoveredCol);
    case TargetM => CountColumnStages(rows, Target); f.FormatThousands(TargetCol);
    case RatioM => RateColumnStages(rows, Ratio); f.FormatPercent(RatioCol);
    case CoverageM => RateColumnStages(rows, Coverage); f.FormatPercent(CoverageCol);
  }

  /** Lines 354-359, the chart branch (and 566-571, 797-802): on a table
      with rows, `clean_and_convert` on the six displayed columns succeeds,
      and gives back every count exactly and every ratio rounded to the
      hundredth. On an empty table the formatting `.apply` left the columns
      numeric, so the first call's `.str` raises and nothing is rewritten. */
  method Reparse(f: Frame, rows: seq<IndicatorRow>, v: View) returns (r: Result<()>)
    requires f.table == DisplayTable(rows, v)
    modifies f
    ensures r.Success? <==> rows != []
    ensures r.Fail? ==> r.error == NotText(SurveyCol) && f.table == old(f.table)
    ensures r.Success? ==> f.table == NumericTable(rows, v)
  {
    assert Progress(0, Shown, Parsed) == AllAt(Shown);
    r := ParseColumn(f, rows, v, 0);
    if r.Fail? { return; }
    r := ParseColumn(f, rows, v, 1);
    r := ParseColumn(f, rows, v, 2);
    r := ParseColumn(f, rows, v, 3);
    r := ParseColumn(f, rows, v, 4);
    r := ParseColumn(f, rows, v, 5);
    assert Progress(6, Shown, Parsed) == AllAt(Parsed);
  }

  /** One `data[col] = clean_and_convert(data[col])`: a displayed column of a
      table with rows parses, and becomes the numbers read back from its
      texts; the column of an empty table is still numeric and `.str`
      raises. */
  method ParseColumn(f: Frame, rows: seq<IndicatorRow>, v: View, i: nat) returns (r: Result<()>)
    requires i < 6 && f.table == Assemble(rows, v, Progress(i, Shown, Parsed))
    modifies f
    ensures r.Success? <==> rows != []
    ensures r.Fail? ==> r.error == NotText(Header(MetricAt(i))) && f.table == old(f.table)
    ensures r.Success? ==> f.table == Assemble(rows, v, Progress(i + 1, Shown, Parsed))
  {
    ghost var st := Progress(i, Shown, Parsed);
    ProgressStep(i, Shown, Parsed);
    Step(rows, v, st, MetricAt(i), Parsed);
    var isText := f.table.height > 0;
    match MetricAt(i)
    case SurveyM => CountColumnStages(rows, Expra1); r := f.CleanAndConvert(SurveyCol, isText);
    case CensusM => CountColumnStages(rows, Expra0); r := f.CleanAndConvert(CensusCol, isText);
    case CoveredM => CountColumnStages(rows, Grappes); r := f.CleanAndConvert(CoveredCol, isText);
    case TargetM => CountColumnStages(rows, Target); r := f.CleanAndConvert(TargetCol, isText);
    case RatioM => RateColumnStages(rows, Ratio); r := f.CleanAndConvert(RatioCol, isText);
    case CoverageM => RateColumnStages(rows, Coverage); r := f.CleanAndConvert(CoverageCol, isText);
  }

  // ---------------------------------------------------------------------
  // The three view blocks

  /** Lines 293-313: the regional frame, aggregated, merged with the
      regional targets, and formatted for display. */
  method RegionBlock(rs: seq<Record>, refs: seq<TargetRow>) returns (f: Frame)
    ensures fresh(f)
    ensures f.table == DisplayTable(RegionIndicators(rs, refs), RegionView)
  {
    var rows := RegionIndicators(rs, refs);
    f := new Frame(RawTable(rows, RegionView));
    FormatIndicators(f, rows, RegionView);
  }

  /** Lines 499-520: the provincial frame, with each province's region. */
  method ProvinceBlock(rs: seq<Record>, refs: seq<TargetRow>) returns (f: Frame)
    ensures fresh(f)
    ensures f.table == DisplayTable(ProvinceIndicators(rs, refs), ProvinceView)
  {
    var rows := ProvinceIndicators(rs, refs);
    f := new Frame(RawTable(rows, ProvinceView));
    FormatIndicators(f, rows, ProvinceView);
  }

  /** Lines 715-751: the circle labels stripped in both shared tables, then
      the circle frame, with each circle's province. */
  method CircleBlock(records: RecordTable, circles: CircleTable) returns (f: Frame)
    modifies records, circles
    ensures records.rows == StripCircles(old(records.rows))
    ensures circles.Contents() == CircleRefTable(StripNames(old(circles.rows)), old(circles.hasProvince))
    ensures fresh(f)
    ensures f.table == DisplayTable(CircleIndicators(records.rows, circles.Contents()), CircleView)
  {
    ghost var rs0, cs0 := records.rows, circles.rows;
    records.StripCircleLabels();
    assert records.rows == StripCircles(rs0);
    circles.StripLabels();
    assert circles.rows == StripNames(cs0);
    var refs := circles.Contents();
    var rows := CircleIndicators(records.rows, refs);
    f := new Frame(RawTable(rows, CircleView));
    FormatIndicators(f, rows, CircleView);
  }

  // ---------------------------------------------------------------------
  // Géo-intelligence

  /** The indicators both map views offer. */
  const GeoIndicators: seq<string> :=
    ["Enquêtes Ménage", "Recensements", "Grappes Couvertes",
     "Taux Enquêtes Ménage/Recensements", "Taux de Couverture des Grappes"]

  /** `title_map` of the regional map, indexed like `GeoIndicators`: every
      title is "Répartition Régionale " followed by the indicator's wording. */
  const TitlePrefix: string := "Répartition Régionale "
  const TitleEnds: seq<string> :=
    ["des Enquêtes Ménage", "des Recensements", "des Grappes Enquêtées",
     "du Taux Enquêtes/Recensements", "du Taux de Couverture des Grappes"]
  const RegionTitles: seq<string> :=
    seq(5, k requires 0 <= k < 5 => TitlePrefix + TitleEnds[k])

  /** No indicator name and no regional title contains "Proportion", so the
      percentage branch of both map helpers is never taken from these views:
      the rate indicators are captioned like counts. */
  lemma CallersNeverPercent(k: nat)
    requires k < 5
    ensures !Text.Contains(GeoIndicators[k], "Proportion")
    ensures !Text.Contains(RegionTitles[k], "Proportion")
  {
    NoCapitalIndicator(k);
    NoCapitalTitle(k);
    Text.NoFirstCharNoSubstring(GeoIndicators[k], "Proportion");
    Text.NoFirstCharNoSubstring(RegionTitles[k], "Proportion");
  }

  lemma NoCapitalIndicator(k: nat)
    requires k < 5
    ensures 'P' !in GeoIndicators[k]
  {
    if k == 0 {
      assert 'P' !in GeoIndicators[0];
    } else if k == 1 {
      assert 'P' !in GeoIndicators[1];
    } else if k == 2 {
      assert 'P' !in GeoIndicators[2];
    } else if k == 3 {
      assert 'P' !in GeoIndicators[3];
    } else {
      assert 'P' !in GeoIndicators[4];
    }
  }

  lemma NoCapitalTitle(k: nat)
    requires k < 5
    ensures 'P' !in RegionTitles[k]
  {
    assert 'P' !in TitlePrefix;
    if k == 0 {
      assert 'P' !in TitleEnds[0];
    } else if k == 1 {
      assert 'P' !in TitleEnds[1];
    } else if k == 2 {
      assert 'P' !in TitleEnds[2];
    } else if k == 3 {
      assert 'P' !in TitleEnds[3];
    } else {
      assert 'P' !in TitleEnds[4];
    }
    assert RegionTitles[k] == TitlePrefix + TitleEnds[k];
  }

  /** The displayed column each map indicator is computed from. */
  function GeoSource(k: nat): Metric
    requires k < 5
  {
    [SurveyM, CensusM, CoveredM, RatioM, CoverageM][k]
  }

  /** The character the map views strip before `to_numeric`: the thousands
      separator for counts, the percent sign for ratios. */
  function GeoDrop(k: nat): char
    requires k < 5
  {
    if k < 3 then ' ' else '%'
  }

  /** The number a map indicator shows for one unit: the count itself, or
      the ratio rounded to the hundredth by its display text. */
  function GeoValue(r: IndicatorRow, k: nat): real
    requires k < 5
  {
    [r.expra1 as real, r.expra0 as real, r.uniqueGrappe as real,
     NumFormat.Rounded2(r.ratio), NumFormat.Rounded2(r.coverage)][k]
  }

  /** A displayed cell read back by the map views' coercion is the value the
      indicator stands for. */
  lemma CoerceShown(r: IndicatorRow, k: nat)
    requires k < 5
    ensures var m := GeoSource(k);
            var cell := if k < 3 then CountCell(CountOf(r, [Expra1, Expra0, Grappes][k]), Shown)
                        else RateCell(RateOf(r, [Ratio, Coverage][k - 3]), Shown);
            CoerceCell(cell, GeoDrop(k)) == GeoValue(r, k)
  {
    if k < 3 {
      CoerceThousands(CountOf(r, [Expra1, Expra0, Grappes][k]));
    } else {
      CoercePercent(RateOf(r, [Ratio, Coverage][k - 3]));
    }
  }

  lemma ShownCell(rows: seq<IndicatorRow>, k: nat, j: nat)
    requires k < 5 && j < |rows|
    ensures MetricColumn(rows, GeoSource(k), Shown)[j]
            == if k < 3 then CountCell(CountOf(rows[j], [Expra1, Expra0, Grappes][k]), Shown)
               else RateCell(RateOf(rows[j], [Ratio, Coverage][k - 3]), Shown)
  {
  }

  /** The boundary names of a list of region names. */
  function Somes(xs: seq<string>): (ys: seq<Option<string>>)
    ensures |ys| == |xs| && forall i :: 0 <= i < |xs| ==> ys[i] == Some(xs[i])
  {
    seq(|xs|, i requires 0 <= i < |xs| => Some(xs[i]))
  }

  /** The first row of a unit, if the table has one. */
  function RowIndex(rows: seq<IndicatorRow>, n: string): (j: Option<nat>)
    ensures j.Some? ==> j.value < |rows| && rows[j.value].key == n
    ensures j.None? ==> forall i :: 0 <= i < |rows| ==> rows[i].key != n
  {
    if rows == [] then None
    else if rows[0].key == n then Some(0)
    else match RowIndex(rows[1..], n)
         case None => None
         case Some(j) => Some(j + 1)
  }

  lemma ShownTexts(rows: seq<IndicatorRow>, v: View, m: Metric)
    ensures Header(m) in DisplayTable(rows, v).columns
    ensures AllStrings(DisplayTable(rows, v).columns[Header(m)])
  {
    Step(rows, v, AllAt(Shown), m, Shown);
  }

  /** The facts about a displayed frame the map views rely on: one row per
      unit, the unit and parent columns, and the displayed texts of the
      indicator the map reads. */
  predicate DisplayedLike(d: Table, rows: seq<IndicatorRow>, v: View, k: nat)
    requires k < 5
  {
    && d.Valid() && d.height == |rows|
    && UnitHeader(v) in d.columns && d.columns[UnitHeader(v)] == UnitColumn(rows)
    && (ParentHeader(v).Some? ==> ParentHeader(v).value in d.columns && d.columns[ParentHeader(v).value] == ParentColumn(rows))
    && Header(GeoSource(k)) in d.columns && d.columns[Header(GeoSource(k))] == MetricColumn(rows, GeoSource(k), Shown)
    && AllStrings(d.columns[Header(GeoSource(k))])
    && Header(GeoSource(k)) != UnitHeader(v)
  }

  /** The unit column of a frame with distinct unit names has distinct keys. */
  lemma UnitKeysOf(rows: seq<IndicatorRow>, v: View, d: Table)
    requires Order.NoDuplicates(IndicatorKeys(rows))
    requires UnitHeader(v) in d.columns && d.columns[UnitHeader(v)] == UnitColumn(rows)
    ensures GeoMap.DistinctKeys(d.columns[UnitHeader(v)])
  {
    var keys := d.columns[UnitHeader(v)];
    forall a, b | 0 <= a < b < |keys| ensures keys[a] != keys[b] {
      assert IndicatorKeys(rows)[a] == rows[a].key && IndicatorKeys(rows)[b] == rows[b].key;
    }
  }

  /** `d` is the displayed frame of `rows` in view `v`: its columns are the
      view's headers, holding the unit names, the parent names and every
      indicator's display texts. */
  predicate Displayed(d: Table, rows: seq<IndicatorRow>, v: View) {
    && d.Valid() && d.height == |rows| && d.columns.Keys == Headers(v)
    && UnitHeader(v) in d.columns && d.columns[UnitHeader(v)] == UnitColumn(rows)
    && (ParentHeader(v).Some? ==> ParentHeader(v).value in d.columns && d.columns[ParentHeader(v).value] == ParentColumn(rows))
    && (forall m: Metric :: Header(m) in d.columns && d.columns[Header(m)] == MetricColumn(rows, m, Shown))
    && DisplaySources(d)
  }

  /** The frame the table views show is the displayed frame. */
  lemma DisplayTableDisplayed(rows: seq<IndicatorRow>, v: View)
    ensures Displayed(DisplayTable(rows, v), rows, v)
  {
    var d := DisplayTable(rows, v);
    forall m: Metric ensures Header(m) in d.columns && d.columns[Header(m)] == MetricColumn(rows, m, Shown) {
      Step(rows, v, AllAt(Shown), m, Shown);
    }
    ShownSources(rows, v);
    assert MetricOf(UnitHeader(v)).None?;
    assert d.columns[UnitHeader(v)] == UnitColumn(rows);
    if ParentHeader(v).Some? {
      assert MetricOf(ParentHeader(v).value).None?;
      assert d.columns[ParentHeader(v).value] == ParentColumn(rows);
    }
  }

  lemma DisplayedAt(d: Table, rows: seq<IndicatorRow>, v: View, k: nat)
    requires k < 5 && Displayed(d, rows, v)
    ensures DisplayedLike(d, rows, v, k)
  {
    assert d.columns[Header(GeoSource(k))] == MetricColumn(rows, GeoSource(k), Shown);
    assert [SurveyCol, CensusCol, CoveredCol, RatioCol, CoverageCol][k] == Header(GeoSource(k));
    assert Header(GeoSource(k)) != UnitHeader(v);
  }


  /** The number the map views give a unit of the table: its indicator value,
      or 0 (`fillna(0)`) when the table has no row for it. */
  function UnitValue(rows: seq<IndicatorRow>, n: string, k: nat): real
    requires k < 5
  {
    match RowIndex(rows, n)
    case None => 0.0
    case Some(x) => GeoValue(rows[x], k)
  }

  /** What the regional map shows for one boundary region: nothing for a
      boundary outside the regional layer, and the region's value otherwise. */
  function RegionMapValue(rows: seq<IndicatorRow>, maroc: seq<string>, name: Option<string>, k: nat): Option<real>
    requires k < 5
  {
    if name.None? || name.value !in maroc then None else Some(UnitValue(rows, name.value, k))
  }

  /** In the regional map frame, unit `u`'s coerced cell is its region's value,
      or 0 for a region the table lacks. */
  lemma RegionUnitValue(rows: seq<IndicatorRow>, maroc: seq<string>, k: nat, d: Table, u: nat)
    requires k < 5 && u < |maroc| && Order.NoDuplicates(IndicatorKeys(rows))
    requires DisplayedLike(d, rows, RegionView, k)
    ensures var j := GeoMap.JoinTable(Somes(maroc), "region", d, "Région");
            && Header(GeoSource(k)) in j.columns && "region" in j.columns && u < j.height
            && StringsOrMissing(j.columns[Header(GeoSource(k))])
            && j.columns["region"][u] == Str(maroc[u])
            && CoerceCell(j.columns[Header(GeoSource(k))][u], GeoDrop(k)) == UnitValue(rows, maroc[u], k)
  {
    var src := Header(GeoSource(k));
    var keys := d.columns["Région"];
    UnitKeysOf(rows, RegionView, d);
    GeoMap.JoinedAt(Somes(maroc), "region", d, "Région", src, u);
    GeoMap.JoinedTexts(Somes(maroc), "region", d, "Région", src);
    GeoMap.LookupSpec(Some(maroc[u]), keys);
    match RowIndex(rows, maroc[u])
    case None =>
      assert forall x :: 0 <= x < |keys| ==> !GeoMap.KeyMatches(Some(maroc[u]), keys[x]);
    case Some(x) =>
      assert GeoMap.KeyMatches(Some(maroc[u]), keys[x]);
      ShownCell(rows, k, x);
      CoerceShown(rows[x], k);
  }

  /** A map drawn over a frame holding, for each listed unit in order, its
      name and its value: each boundary is shown once, with the value of the
      unit of that name, and nothing for a boundary that names no unit. */
  lemma MapOverUnits(rows: seq<IndicatorRow>, units: seq<string>, all: seq<Option<string>>, k: nat,
                     f: Table, keyCol: string, column: string, province: bool, percent: bool)
    requires k < 5 && f.Valid() && f.height == |units| && Order.NoDuplicates(units)
    requires keyCol in f.columns && column in f.columns
    requires forall u :: 0 <= u < |units| ==>
               f.columns[keyCol][u] == Str(units[u]) && f.columns[column][u] == Real(UnitValue(rows, units[u], k))
    ensures var out := GeoMap.Captioned(GeoMap.LeftJoin(all, f.columns[keyCol]), f.columns[column], province, percent);
            && |out| == |all|
            && forall i :: 0 <= i < |all| ==>
                 && out[i].name == all[i]
                 && out[i].value == if all[i].None? || all[i].value !in units then None else Some(UnitValue(rows, all[i].value, k))
  {
    var keys, col := f.columns[keyCol], f.columns[column];
    assert GeoMap.DistinctKeys(keys) by {
      forall a, b | 0 <= a < b < |keys| ensures keys[a] != keys[b] {
        assert units[a] != units[b];
      }
    }
    GeoMap.CaptionedSpec(all, keys, col, province, percent);
    var out := GeoMap.Captioned(GeoMap.LeftJoin(all, keys), col, province, percent);
    forall i | 0 <= i < |all|
      ensures out[i].value == if all[i].None? || all[i].value !in units then None else Some(UnitValue(rows, all[i].value, k))
    {
      if all[i].Some? && all[i].value in units {
        var u :| 0 <= u < |units| && units[u] == all[i].value;
        assert GeoMap.KeyMatches(all[i], keys[u]);
      } else {
        assert forall u :: 0 <= u < |keys| ==> !GeoMap.KeyMatches(all[i], keys[u]);
      }
    }
  }

  /** The outcome of the regional map: it fails on the ratio, whose column
      the frame keeps under its displayed name, and otherwise draws every
      boundary with a count-style caption. */
  lemma RegionMapOutcome(all: seq<Option<string>>, k: nat, f2: Table, title: string)
    requires k < 5 && f2.Valid() && "region" in f2.columns && GeoIndicators[3] !in f2.columns
    requires k != 3 ==> GeoIndicators[k] in f2.columns
    requires !Text.Contains(title, "Proportion")
    ensures var r := GeoMap.FixedMapLabels(all, f2, GeoIndicators[k], title);
            && (r.Fail? <==> k == 3)
            && (r.Fail? ==> r.error == UnknownMetric("Taux Enquêtes Ménage/Recensements"))
            && (r.Success? ==> forall i :: 0 <= i < |r.value| ==> r.value[i].caption == GeoMap.FixedCaption(r.value[i].value, false))
  {
  }

  /** The regional map end to end: each boundary region of the map layer is
      shown once, with its region's value (a count, or a ratio rounded to the
      hundredth), 0 for a region without data, and nothing outside the
      regional layer. */
  lemma RegionMapValues(rows: seq<IndicatorRow>, maroc: seq<string>, all: seq<Option<string>>, k: nat, d: Table, f2: Table, title: string)
    requires k < 5 && k != 3 && f2.Valid() && DisplayedLike(d, rows, RegionView, k) && !Text.Contains(title, "Proportion")
    requires Order.NoDuplicates(maroc) && Order.NoDuplicates(IndicatorKeys(rows))
    requires var j := GeoMap.JoinTable(Somes(maroc), "region", d, "Région");
             && "region" in f2.columns && f2.columns["region"] == j.columns["region"]
             && StringsOrMissing(j.columns[Header(GeoSource(k))])
             && GeoIndicators[k] in f2.columns
             && f2.columns[GeoIndicators[k]] == CoerceColumn(j.columns[Header(GeoSource(k))], GeoDrop(k))
    ensures GeoMap.FixedMapLabels(all, f2, GeoIndicators[k], title).Success?
    ensures var out := GeoMap.FixedMapLabels(all, f2, GeoIndicators[k], title).value;
            && |out| == |all|
            && forall i :: 0 <= i < |all| ==> out[i].name == all[i] && out[i].value == RegionMapValue(rows, maroc, all[i], k)
  {
    UnitKeysOf(rows, RegionView, d);
    GeoMap.JoinHeight(Somes(maroc), "region", d, "Région");
    forall u | 0 <= u < |maroc|
      ensures f2.columns["region"][u] == Str(maroc[u]) && f2.columns[GeoIndicators[k]][u] == Real(UnitValue(rows, maroc[u], k))
    {
      RegionUnitValue(rows, maroc, k, d, u);
    }
    MapOverUnits(rows, maroc, all, k, f2, "region", GeoIndicators[k], false, false);
  }

  /** No displayed frame, joined or not, has a column under the ratio's map
      name. */
  lemma OldRatioNotShown(v: View)
    ensures GeoIndicators[3] !in Headers(v) + {"region"}
  {
    var n := GeoIndicators[3];
    assert |n| == 33 && n[0] == 'T';
    assert |UnitHeader(v)| != 33 && |SurveyCol| != 33 && |CensusCol| != 33 && |CoveredCol| != 33 && |TargetCol| != 33;
    assert RatioCol[0] == 'P' && |CoverageCol| != 33;
  }

  /** The displayed columns each map view coerces, all present as texts or
      missing values. */
  predicate MapSources(t: Table) {
    && SurveyCol in t.columns && StringsOrMissing(t.columns[SurveyCol])
    && CensusCol in t.columns && StringsOrMissing(t.columns[CensusCol])
    && CoveredCol in t.columns && StringsOrMissing(t.columns[CoveredCol])
    && RatioCol in t.columns && StringsOrMissing(t.columns[RatioCol])
    && CoverageCol in t.columns && StringsOrMissing(t.columns[CoverageCol])
  }

  /** Five distinct destination columns, none of which overwrites a source
      a later coercion still reads. */
  predicate SafeDsts(dsts: seq<string>) {
    && |dsts| == 5
    && (forall a, b :: 0 <= a < b < 5 ==> dsts[a] != dsts[b])
    && (forall a :: 0 <= a < 4 ==> dsts[a] != CoverageCol)
    && (forall a :: 0 <= a < 3 ==> dsts[a] != RatioCol && dsts[a] != CoveredCol)
    && dsts[0] != CensusCol && dsts[1] != CoveredCol
  }

  /** The map views' column names: the regional map keeps the ratio under its
      displayed name, the provincial map uses the indicator names. */
  const RegionDsts: seq<string> :=
    ["Enquêtes Ménage", "Recensements", "Grappes Couvertes", RatioCol, "Taux de Couverture des Grappes"]

  lemma DstsSafe()
    ensures SafeDsts(RegionDsts) && SafeDsts(GeoIndicators)
  {
  }

  /** `data[dst] = pd.to_numeric(data[src].str.replace(drop, ''),
      errors='coerce').fillna(0)` as a value. */
  function CoerceStep(t: Table, dst: string, src: string, drop: char): Table
    requires src in t.columns && StringsOrMissing(t.columns[src])
  {
    t.(columns := t.columns[dst := CoerceColumn(t.columns[src], drop)])
  }

  /** A map view's frame after its five coercions, one after the other. */
  function MapFrame(j: Table, dsts: seq<string>): (f: Table)
    requires MapSources(j) && SafeDsts(dsts)
    ensures f.height == j.height && (j.Valid() ==> f.Valid())
    ensures f.columns.Keys == j.columns.Keys + {dsts[0], dsts[1], dsts[2], dsts[3], dsts[4]}
    ensures f.columns[dsts[0]] == CoerceColumn(j.columns[SurveyCol], ' ')
    ensures f.columns[dsts[1]] == CoerceColumn(j.columns[CensusCol], ' ')
    ensures f.columns[dsts[2]] == CoerceColumn(j.columns[CoveredCol], ' ')
    ensures f.columns[dsts[3]] == CoerceColumn(j.columns[RatioCol], '%')
    ensures f.columns[dsts[4]] == CoerceColumn(j.columns[CoverageCol], '%')
  {
    var t1 := CoerceStep(j, dsts[0], SurveyCol, ' ');
    assert t1.columns[CensusCol] == j.columns[CensusCol];
    var t2 := CoerceStep(t1, dsts[1], CensusCol, ' ');
    assert t2.columns[CoveredCol] == j.columns[CoveredCol];
    var t3 := CoerceStep(t2, dsts[2], CoveredCol, ' ');
    assert t3.columns[RatioCol] == j.columns[RatioCol];
    var t4 := CoerceStep(t3, dsts[3], RatioCol, '%');
    assert t4.columns[CoverageCol] == j.columns[CoverageCol];
    assert t4.columns[dsts[0]] == t1.columns[dsts[0]] && t4.columns[dsts[1]] == t2.columns[dsts[1]];
    CoerceStep(t4, dsts[4], CoverageCol, '%')
  }

  /** The coerced frame keeps every column it does not write. */
  lemma MapFrameShape(j: Table, dsts: seq<string>)
    requires MapSources(j) && SafeDsts(dsts)
    ensures forall c :: c in j.columns && c !in dsts ==> MapFrame(j, dsts).columns[c] == j.columns[c]
  {
  }

  /** Under the `k`-th destination the coerced frame holds the `k`-th
      indicator's displayed column read back as numbers: no later step
      overwrites it and no earlier step overwrote its source. */
  lemma MapFrameColumn(j: Table, dsts: seq<string>, k: nat)
    requires MapSources(j) && SafeDsts(dsts) && k < 5
    ensures Header(GeoSource(k)) in j.columns && StringsOrMissing(j.columns[Header(GeoSource(k))])
    ensures dsts[k] in MapFrame(j, dsts).columns
    ensures MapFrame(j, dsts).columns[dsts[k]] == CoerceColumn(j.columns[Header(GeoSource(k))], GeoDrop(k))
  {
    if k == 0 {
      assert Header(GeoSource(0)) == SurveyCol;
    } else if k == 1 {
      assert Header(GeoSource(1)) == CensusCol;
    } else if k == 2 {
      assert Header(GeoSource(2)) == CoveredCol;
    } else if k == 3 {
      assert Header(GeoSource(3)) == RatioCol;
    } else {
      assert Header(GeoSource(4)) == CoverageCol;
    }
  }

  /** Lines 476-480 and 694-698: the five coercions applied to the map
      view's frame in place. `isText` says whether the joined columns are
      text: they are not when the indicator table was empty, and then the
      first `.str` raises and nothing is written. */
  method CoerceForMap(full: Frame, dsts: seq<string>, isText: bool) returns (r: Result<()>)
    requires MapSources(full.table) && SafeDsts(dsts)
    modifies full
    ensures r.Success? <==> isText
    ensures r.Fail? ==> r.error == NotText(SurveyCol) && full.table == old(full.table)
    ensures r.Success? ==> full.table == MapFrame(old(full.table), dsts)
    ensures old(full.table).Valid() ==> full.table.Valid()
  {
    r := full.CoerceInto(SurveyCol, dsts[0], ' ', isText);
    if r.Fail? { return; }
    r := full.CoerceInto(CensusCol, dsts[1], ' ', isText);
    r := full.CoerceInto(CoveredCol, dsts[2], ' ', isText);
    r := full.CoerceInto(RatioCol, dsts[3], '%', isText);
    r := full.CoerceInto(CoverageCol, dsts[4], '%', isText);
  }

  /** The displayed indicator columns a map view reads, all texts. */
  predicate DisplaySources(d: Table) {
    && SurveyCol in d.columns && AllStrings(d.columns[SurveyCol])
    && CensusCol in d.columns && AllStrings(d.columns[CensusCol])
    && CoveredCol in d.columns && AllStrings(d.columns[CoveredCol])
    && RatioCol in d.columns && AllStrings(d.columns[RatioCol])
    && CoverageCol in d.columns && AllStrings(d.columns[CoverageCol])
  }

  lemma ShownSources(rows: seq<IndicatorRow>, v: View)
    ensures DisplaySources(DisplayTable(rows, v))
  {
    ShownTexts(rows, v, SurveyM);
    ShownTexts(rows, v, CensusM);
    ShownTexts(rows, v, CoveredM);
    ShownTexts(rows, v, RatioM);
    ShownTexts(rows, v, CoverageM);
  }

  /** Joining keeps the displayed texts, now with missing values where a
      boundary has no unit. */
  lemma JoinedSources(names: seq<Option<string>>, nameCol: string, d: Table, on: string)
    requires d.Valid() && on in d.columns && DisplaySources(d)
    requires nameCol !in {SurveyCol, CensusCol, CoveredCol, RatioCol, CoverageCol}
    ensures MapSources(GeoMap.JoinTable(names, nameCol, d, on))
  {
    GeoMap.JoinedTexts(names, nameCol, d, on, SurveyCol);
    GeoMap.JoinedTexts(names, nameCol, d, on, CensusCol);
    GeoMap.JoinedTexts(names, nameCol, d, on, CoveredCol);
    GeoMap.JoinedTexts(names, nameCol, d, on, RatioCol);
    GeoMap.JoinedTexts(names, nameCol, d, on, CoverageCol);
  }

  /** The regional map's frame: the join key carried over unchanged and no
      column under the ratio's map name. */
  lemma RegionFrameShape(maroc: seq<string>, d: Table)
    requires d.Valid() && d.columns.Keys == Headers(RegionView) && DisplaySources(d)
    ensures var j := GeoMap.JoinTable(Somes(maroc), "region", d, "Région");
            && MapSources(j) && SafeDsts(RegionDsts)
            && var f := MapFrame(j, RegionDsts);
            && f.Valid() && "region" in j.columns && "region" in f.columns && f.columns["region"] == j.columns["region"]
            && GeoIndicators[3] !in f.columns
  {
    JoinedSources(Somes(maroc), "region", d, "Région");
    DstsSafe();
    var j := GeoMap.JoinTable(Somes(maroc), "region", d, "Région");
    MapFrameShape(j, RegionDsts);
    OldRatioNotShown(RegionView);
    RegionDstsAvoid();
  }

  /** The regional coercions write neither the join key nor a column under
      the ratio's map name. */
  lemma RegionDstsAvoid()
    ensures "region" !in RegionDsts && GeoIndicators[3] !in RegionDsts
  {
    var n := GeoIndicators[3];
    assert n[0] == 'T' && RatioCol[0] == 'P';
    assert |n| != |RegionDsts[0]| && |n| != |RegionDsts[1]| && |n| != |RegionDsts[2]| && |n| != |RegionDsts[4]|;
  }

  /** Every indicator but the ratio is stored under its own name. */
  lemma RegionDstNames(k: nat)
    requires k < 5 && k != 3
    ensures RegionDsts[k] == GeoIndicators[k]
  {
  }

  /** Every indicator but the ratio is in the regional map's frame under its
      map name, read back from its displayed column. */
  lemma RegionFrameColumn(maroc: seq<string>, d: Table, k: nat)
    requires k < 5 && k != 3 && d.Valid() && "Région" in d.columns && DisplaySources(d)
    ensures var j := GeoMap.JoinTable(Somes(maroc), "region", d, "Région");
            && MapSources(j) && SafeDsts(RegionDsts)
            && Header(GeoSource(k)) in j.columns && StringsOrMissing(j.columns[Header(GeoSource(k))])
            && GeoIndicators[k] in MapFrame(j, RegionDsts).columns
            && MapFrame(j, RegionDsts).columns[GeoIndicators[k]] == CoerceColumn(j.columns[Header(GeoSource(k))], GeoDrop(k))
  {
    JoinedSources(Somes(maroc), "region", d, "Région");
    DstsSafe();
    var j := GeoMap.JoinTable(Somes(maroc), "region", d, "Région");
    MapFrameColumn(j, RegionDsts, k);
    RegionDstNames(k);
  }

  /** The regional map drawn from the coerced frame, for every choice of
      indicator. */
  lemma RegionGeoSpec(d: Table, rows: seq<IndicatorRow>, maroc: seq<string>, all: seq<Option<string>>, k: nat, title: string)
    requires k < 5 && Displayed(d, rows, RegionView) && !Text.Contains(title, "Proportion")
    ensures var j := GeoMap.JoinTable(Somes(maroc), "region", d, "Région");
            && MapSources(j) && SafeDsts(RegionDsts)
            && var r := GeoMap.FixedMapLabels(all, MapFrame(j, RegionDsts), GeoIndicators[k], title);
            && (r.Fail? <==> k == 3)
            && (r.Fail? ==> r.error == UnknownMetric("Taux Enquêtes Ménage/Recensements"))
            && (r.Success? ==> forall i :: 0 <= i < |r.value| ==> r.value[i].caption == GeoMap.FixedCaption(r.value[i].value, false))
            && (r.Success? && Order.NoDuplicates(maroc) && Order.NoDuplicates(IndicatorKeys(rows)) ==>
                  && |r.value| == |all|
                  && forall i :: 0 <= i < |all| ==> r.value[i].name == all[i] && r.value[i].value == RegionMapValue(rows, maroc, all[i], k))
  {
    RegionFrameShape(maroc, d);
    if k != 3 { RegionFrameColumn(maroc, d, k); }
    DstsSafe();
    var f := MapFrame(GeoMap.JoinTable(Somes(maroc), "region", d, "Région"), RegionDsts);
    RegionMapOutcome(all, k, f, title);
    if k != 3 && Order.NoDuplicates(maroc) && Order.NoDuplicates(IndicatorKeys(rows)) {
      DisplayedAt(d, rows, RegionView, k);
      RegionMapValues(rows, maroc, all, k, d, f, title);
    }
  }

  /** Lines 466-491, the regional map: the map layer's regions left-joined
      with the displayed regional frame, the five indicators coerced back to
      numbers (missing values filled with 0), and the fixed map drawn for the
      chosen indicator. An empty regional table leaves its columns numeric,
      so the first `.str` fails. The ratio is stored under its displayed
      name, so choosing "Taux Enquêtes Ménage/Recensements" fails on the
      missing column; every other indicator shows each boundary region once, with its
      region's value, captioned as a truncated integer and never as a
      percentage. */
  method RegionGeo(region: Frame, ghost rows: seq<IndicatorRow>, maroc: seq<string>, all: seq<Option<string>>, k: nat)
    returns (r: Result<seq<GeoMap.MapLabel>>)
    requires k < |GeoIndicators| && Displayed(region.table, rows, RegionView)
    ensures r.Fail? <==> k == 3 || rows == []
    ensures r.Fail? ==> r.error == if rows == [] then NotText(SurveyCol) else UnknownMetric("Taux Enquêtes Ménage/Recensements")
    ensures r.Success? ==> forall i :: 0 <= i < |r.value| ==> r.value[i].caption == GeoMap.FixedCaption(r.value[i].value, false)
    ensures r.Success? && Order.NoDuplicates(maroc) && Order.NoDuplicates(IndicatorKeys(rows)) ==>
              && |r.value| == |all|
              && forall i :: 0 <= i < |all| ==> r.value[i].name == all[i] && r.value[i].value == RegionMapValue(rows, maroc, all[i], k)
  {
    CallersNeverPercent(k);
    RegionGeoSpec(region.table, rows, maroc, all, k, RegionTitles[k]);
    var full := new Frame(GeoMap.JoinTable(Somes(maroc), "region", region.table, "Région"));
    var c := CoerceForMap(full, RegionDsts, region.table.height > 0);
    if c.Fail? {
      return Fail(c.error);
    }
    r := GeoMap.FixedMapLabels(all, full.table, GeoIndicators[k], RegionTitles[k]);
  }



  /** The choice of the region filter that keeps every province. */
  const AllRegions := "Toutes les Régions"

  /** Whether the region filter keeps a province. */
  predicate Kept(r: IndicatorRow, selected: string) {
    selected == AllRegions || r.parent == Some(selected)
  }

  /** Lines 688-691: the provinces of the selected region, or a copy of all
      of them. */
  function Filtered(d: Table, selected: string): (u: Table)
    requires d.Valid() && "Région" in d.columns
    ensures u.Valid() && u.columns.Keys == d.columns.Keys
  {
    if selected != AllRegions then GeoMap.FilterTable(d, "Région", selected) else d
  }

  /** The rows of the displayed frame the filter keeps, in order. */
  function KeptRows(d: Table, selected: string): (ix: seq<nat>)
    requires d.Valid() && "Région" in d.columns
  {
    if selected != AllRegions then GeoMap.MatchRows(Some(selected), d.columns["Région"])
    else seq(d.height, i requires 0 <= i < d.height => i)
  }

  /** The filter keeps, whole and in order, the rows whose region is the
      selected one, or every row when every region is selected. */
  lemma KeptRowsSpec(d: Table, selected: string)
    requires d.Valid() && "Région" in d.columns
    ensures var u, ix := Filtered(d, selected), KeptRows(d, selected);
            && u.height == |ix|
            && (forall a :: 0 <= a < |ix| ==> ix[a] < d.height && GeoMap.SameRow(u, a, d, ix[a]))
            && (forall a, b :: 0 <= a < b < |ix| ==> ix[a] < ix[b])
            && (forall x :: 0 <= x < d.height ==>
                  (x in ix <==> selected == AllRegions || d.columns["Région"][x] == Str(selected)))
  {
    var ix := KeptRows(d, selected);
    if selected != AllRegions {
      GeoMap.FilterTableSpec(d, "Région", selected);
    } else {
      forall x | 0 <= x < d.height ensures x in ix {
        assert ix[x] == x;
      }
    }
  }

  /** The rows the filter keeps, in order: a province is kept exactly when
      it is in the selected region or every region is selected. */
  lemma FilteredRows(d: Table, rows: seq<IndicatorRow>, selected: string)
    requires Displayed(d, rows, ProvinceView)
    ensures var u, ix := Filtered(d, selected), KeptRows(d, selected);
            && u.height == |ix|
            && (forall a :: 0 <= a < |ix| ==> ix[a] < |rows|)
            && (forall a, b :: 0 <= a < b < |ix| ==> ix[a] < ix[b])
            && (forall x :: 0 <= x < |rows| ==> (x in ix <==> Kept(rows[x], selected)))
  {
    KeptRowsSpec(d, selected);
    var parents := d.columns["Région"];
    assert parents == ParentColumn(rows);
    forall x | 0 <= x < |rows| ensures parents[x] == ParentCell(rows[x]) {
    }
  }

  /** Row `a` of the filtered frame is the `a`-th kept row of the displayed
      frame, in the columns a map view reads. */
  lemma FilteredCells(d: Table, selected: string)
    requires d.Valid() && "Région" in d.columns && "Province" in d.columns
    ensures var u, ix := Filtered(d, selected), KeptRows(d, selected);
            forall a :: 0 <= a < |ix| ==> SameRowAt(u, a, d, ix[a])
  {
    KeptRowsSpec(d, selected);
    var u, ix := Filtered(d, selected), KeptRows(d, selected);
    forall a | 0 <= a < |ix| ensures SameRowAt(u, a, d, ix[a]) {
      assert GeoMap.SameRow(u, a, d, ix[a]);
    }
  }

  /** Row `a` of `u` is row `i` of `t` in the two columns a map view reads. */
  predicate SameRowAt(u: Table, a: nat, t: Table, i: nat) {
    && "Province" in u.columns && "Province" in t.columns
    && a < |u.columns["Province"]| && i < |t.columns["Province"]|
    && u.columns["Province"][a] == t.columns["Province"][i]
    && forall m: Metric :: Header(m) in t.columns ==>
         Header(m) in u.columns && a < |u.columns[Header(m)]| && i < |t.columns[Header(m)]|
         && u.columns[Header(m)][a] == t.columns[Header(m)][i]
  }

  /** What the provincial map shows for one boundary province: the
      province's value when the filter keeps it, and nothing otherwise. */
  function ProvinceMapValue(rows: seq<IndicatorRow>, selected: string, name: Option<string>, k: nat): Option<real>
    requires k < 5
  {
    if name.None? then None
    else match RowIndex(rows, name.value)
         case None => None
         case Some(x) => if Kept(rows[x], selected) then Some(GeoValue(rows[x], k)) else None
  }

  /** The filtered frame keeps the displayed texts of an indicator. */
  lemma FilteredTexts(d: Table, rows: seq<IndicatorRow>, selected: string, m: Metric)
    requires Displayed(d, rows, ProvinceView)
    ensures Header(m) in Filtered(d, selected).columns && AllStrings(Filtered(d, selected).columns[Header(m)])
  {
    ShownTexts(rows, ProvinceView, m);
    assert d.columns[Header(m)] == MetricColumn(rows, m, Shown);
    FilteredStrings(d, selected, m);
  }

  /** The filter keeps a column of texts a column of texts. */
  lemma FilteredStrings(d: Table, selected: string, m: Metric)
    requires d.Valid() && "Région" in d.columns && "Province" in d.columns
    requires Header(m) in d.columns && AllStrings(d.columns[Header(m)])
    ensures Header(m) in Filtered(d, selected).columns && AllStrings(Filtered(d, selected).columns[Header(m)])
  {
    var u, ix := Filtered(d, selected), KeptRows(d, selected);
    FilteredCells(d, selected);
    forall a | 0 <= a < |u.columns[Header(m)]| ensures u.columns[Header(m)][a].Str? {
      assert SameRowAt(u, a, d, ix[a]);
    }
  }

  lemma FilteredSources(d: Table, rows: seq<IndicatorRow>, selected: string)
    requires Displayed(d, rows, ProvinceView)
    ensures MapSources(Filtered(d, selected))
  {
    FilteredTexts(d, rows, selected, SurveyM);
    FilteredTexts(d, rows, selected, CensusM);
    FilteredTexts(d, rows, selected, CoveredM);
    FilteredTexts(d, rows, selected, RatioM);
    FilteredTexts(d, rows, selected, CoverageM);
  }

  /** The provincial map's frame: the join key carried over unchanged and
      every indicator under its name. */
  lemma ProvinceFrameFacts(d: Table, rows: seq<IndicatorRow>, selected: string, k: nat)
    requires k < 5 && Displayed(d, rows, ProvinceView)
    ensures var u := Filtered(d, selected);
            && MapSources(u) && SafeDsts(GeoIndicators)
            && var f := MapFrame(u, GeoIndicators);
            && f.Valid() && f.height == u.height && "Province" in f.columns && f.columns["Province"] == u.columns["Province"]
            && Header(GeoSource(k)) in u.columns && StringsOrMissing(u.columns[Header(GeoSource(k))])
            && GeoIndicators[k] in f.columns
            && f.columns[GeoIndicators[k]] == CoerceColumn(u.columns[Header(GeoSource(k))], GeoDrop(k))
  {
    FilteredSources(d, rows, selected);
    DstsSafe();
    MapFrameShape(Filtered(d, selected), GeoIndicators);
    MapFrameColumn(Filtered(d, selected), GeoIndicators, k);
    ProvinceNotIndicator();
  }

  lemma ProvinceNotIndicator()
    ensures "Province" !in GeoIndicators
  {
    assert |"Province"| == 8;
  }

  /** The names of the provinces the filter keeps, in order. */
  function KeptNames(d: Table, rows: seq<IndicatorRow>, selected: string): (units: seq<string>)
    requires d.Valid() && "Région" in d.columns
    requires forall a :: 0 <= a < |KeptRows(d, selected)| ==> KeptRows(d, selected)[a] < |rows|
    ensures |units| == |KeptRows(d, selected)|
  {
    var ix := KeptRows(d, selected);
    seq(|ix|, a requires 0 <= a < |ix| => rows[ix[a]].key)
  }

  /** The kept provinces have distinct names, each naming its own row, and
      a province is among them exactly when the filter keeps it. */
  lemma KeptNamesSpec(d: Table, rows: seq<IndicatorRow>, selected: string)
    requires Displayed(d, rows, ProvinceView) && Order.NoDuplicates(IndicatorKeys(rows))
    ensures forall a :: 0 <= a < |KeptRows(d, selected)| ==> KeptRows(d, selected)[a] < |rows|
    ensures var ix, units := KeptRows(d, selected), KeptNames(d, rows, selected);
            && Order.NoDuplicates(units)
            && (forall a :: 0 <= a < |units| ==> RowIndex(rows, units[a]) == Some(ix[a]))
            && (forall n :: n in units <==> RowIndex(rows, n).Some? && Kept(rows[RowIndex(rows, n).value], selected))
  {
    FilteredRows(d, rows, selected);
    NamesOfKeptRows(rows, KeptRows(d, selected), selected);
  }

  /** The names of rows picked in increasing order, among rows with distinct
      names, are distinct, each names its own row, and name exactly the
      picked rows. */
  lemma NamesOfKeptRows(rows: seq<IndicatorRow>, ix: seq<nat>, selected: string)
    requires Order.NoDuplicates(IndicatorKeys(rows))
    requires forall a :: 0 <= a < |ix| ==> ix[a] < |rows|
    requires forall a, b :: 0 <= a < b < |ix| ==> ix[a] < ix[b]
    requires forall x :: 0 <= x < |rows| ==> (x in ix <==> Kept(rows[x], selected))
    ensures var units := seq(|ix|, a requires 0 <= a < |ix| => rows[ix[a]].key);
            && Order.NoDuplicates(units)
            && (forall a :: 0 <= a < |units| ==> RowIndex(rows, units[a]) == Some(ix[a]))
            && (forall n :: n in units <==> RowIndex(rows, n).Some? && Kept(rows[RowIndex(rows, n).value], selected))
  {
    var units := seq(|ix|, a requires 0 <= a < |ix| => rows[ix[a]].key);
    assert Order.NoDuplicates(units) by {
      forall a, b | 0 <= a < b < |units| ensures units[a] != units[b] {
        assert IndicatorKeys(rows)[ix[a]] == units[a] && IndicatorKeys(rows)[ix[b]] == units[b];
      }
    }
    forall a | 0 <= a < |units| ensures RowIndex(rows, units[a]) == Some(ix[a]) {
      var x := RowIndex(rows, units[a]).value;
      assert IndicatorKeys(rows)[ix[a]] == units[a] && IndicatorKeys(rows)[x] == units[a];
    }
    forall n ensures n in units <==> RowIndex(rows, n).Some? && Kept(rows[RowIndex(rows, n).value], selected) {
      if n in units {
        var a :| 0 <= a < |units| && units[a] == n;
        assert ix[a] in ix;
      }
      if RowIndex(rows, n).Some? && Kept(rows[RowIndex(rows, n).value], selected) {
        var x := RowIndex(rows, n).value;
        var a :| 0 <= a < |ix| && ix[a] == x;
        assert units[a] == n;
      }
    }
  }

  /** Row `a` of the provincial map's frame is the `a`-th kept province, with
      its value. */
  lemma ProvinceUnits(d: Table, rows: seq<IndicatorRow>, selected: string, k: nat)
    requires k < 5 && Displayed(d, rows, ProvinceView) && Order.NoDuplicates(IndicatorKeys(rows))
    ensures forall a :: 0 <= a < |KeptRows(d, selected)| ==> KeptRows(d, selected)[a] < |rows|
    ensures var u, units := Filtered(d, selected), KeptNames(d, rows, selected);
            && MapSources(u) && SafeDsts(GeoIndicators)
            && var f := MapFrame(u, GeoIndicators);
            && f.Valid() && f.height == |units| && "Province" in f.columns && GeoIndicators[k] in f.columns
            && forall a :: 0 <= a < |units| ==>
                 f.columns["Province"][a] == Str(units[a]) && f.columns[GeoIndicators[k]][a] == Real(UnitValue(rows, units[a], k))
  {
    var u, ix := Filtered(d, selected), KeptRows(d, selected);
    FilteredCells(d, selected);
    KeptNamesSpec(d, rows, selected);
    ProvinceFrameFacts(d, rows, selected, k);
    DstsSafe();
    var f := MapFrame(u, GeoIndicators);
    var units := KeptNames(d, rows, selected);
    forall a | 0 <= a < |units|
      ensures f.columns["Province"][a] == Str(units[a]) && f.columns[GeoIndicators[k]][a] == Real(UnitValue(rows, units[a], k))
    {
      UnitCells(rows, k, d, u, f, ix[a], a);
    }
  }

  /** Row `a` of the coerced frame, copied from row `j` of the displayed
      frame, holds that row's province and its indicator read back. */
  lemma UnitCells(rows: seq<IndicatorRow>, k: nat, d: Table, u: Table, f: Table, j: nat, a: nat)
    requires k < 5 && j < |rows| && SameRowAt(u, a, d, j)
    requires d.columns["Province"] == UnitColumn(rows)
    requires Header(GeoSource(k)) in d.columns && d.columns[Header(GeoSource(k))] == MetricColumn(rows, GeoSource(k), Shown)
    requires "Province" in f.columns && f.columns["Province"] == u.columns["Province"]
    requires Header(GeoSource(k)) in u.columns && StringsOrMissing(u.columns[Header(GeoSource(k))])
    requires GeoIndicators[k] in f.columns
    requires f.columns[GeoIndicators[k]] == CoerceColumn(u.columns[Header(GeoSource(k))], GeoDrop(k))
    ensures a < |f.columns["Province"]| && f.columns["Province"][a] == Str(rows[j].key)
    ensures a < |f.columns[GeoIndicators[k]]| && f.columns[GeoIndicators[k]][a] == Real(GeoValue(rows[j], k))
  {
    ShownCell(rows, k, j);
    CoerceShown(rows[j], k);
  }

  /** The provincial map end to end: each boundary province is shown once,
      with its value when the region filter keeps it, and with nothing (so
      the sentinel caption) when the filter drops it or the table lacks it. */
  lemma ProvinceMapValues(d: Table, rows: seq<IndicatorRow>, names: seq<Option<string>>, selected: string, k: nat)
    requires k < 5 && Displayed(d, rows, ProvinceView) && Order.NoDuplicates(IndicatorKeys(rows))
    ensures var u := Filtered(d, selected);
            && MapSources(u) && SafeDsts(GeoIndicators)
            && var f := MapFrame(u, GeoIndicators);
            && "Province" in f.columns && GeoIndicators[k] in f.columns && f.Valid()
            && var out := GeoMap.Captioned(GeoMap.LeftJoin(names, f.columns["Province"]), f.columns[GeoIndicators[k]], true, false);
            && |out| == |names|
            && forall i :: 0 <= i < |names| ==> out[i].name == names[i] && out[i].value == ProvinceMapValue(rows, selected, names[i], k)
  {
    ProvinceUnits(d, rows, selected, k);
    KeptNamesSpec(d, rows, selected);
    var units := KeptNames(d, rows, selected);
    var f := MapFrame(Filtered(d, selected), GeoIndicators);
    MapOverUnits(rows, units, names, k, f, "Province", GeoIndicators[k], true, false);
    forall i | 0 <= i < |names| {
      ProvinceValueAt(rows, units, selected, names[i], k);
    }
  }

  /** Over the kept provinces, a boundary's value is its province's value
      when the filter keeps that province, and nothing otherwise. */
  lemma ProvinceValueAt(rows: seq<IndicatorRow>, units: seq<string>, selected: string, name: Option<string>, k: nat)
    requires k < 5
    requires forall n :: n in units <==> RowIndex(rows, n).Some? && Kept(rows[RowIndex(rows, n).value], selected)
    ensures (if name.None? || name.value !in units then None else Some(UnitValue(rows, name.value, k)))
            == ProvinceMapValue(rows, selected, name, k)
  {
  }


  /** The provincial map's outcome, for the chosen indicator's column name. */
  lemma ProvinceGeoSpec(d: Table, rows: seq<IndicatorRow>, names: seq<Option<string>>, selected: string, k: nat)
    requires k < 5 && Displayed(d, rows, ProvinceView)
    ensures var u := Filtered(d, selected);
            && MapSources(u) && SafeDsts(GeoIndicators)
            && var r := GeoMap.ProvinceMapLabels(names, MapFrame(u, GeoIndicators), GeoIndicators[k]);
            && r.Success?
            && (forall i :: 0 <= i < |r.value| ==> r.value[i].caption == GeoMap.ProvinceCaption(r.value[i].value, false))
            && (Order.NoDuplicates(IndicatorKeys(rows)) ==>
                  && |r.value| == |names|
                  && forall i :: 0 <= i < |names| ==> r.value[i].name == names[i] && r.value[i].value == ProvinceMapValue(rows, selected, names[i], k))
  {
    CallersNeverPercent(k);
    ProvinceFrameFacts(d, rows, selected, k);
    DstsSafe();
    if Order.NoDuplicates(IndicatorKeys(rows)) {
      ProvinceMapValues(d, rows, names, selected, k);
    }
  }

  /** Lines 670-709, the provincial map: the displayed provincial frame
      filtered on the chosen region (or copied whole), the five indicators
      coerced back to numbers under their own names (missing values filled
      with 0), and the province map drawn for the chosen indicator. It fails
      only on an empty provincial table, whose columns are still numeric so
      that the first `.str` raises (a filter that keeps no province leaves
      text columns and succeeds); each boundary province is shown once, with its value when the
      filter keeps it and with nothing otherwise, captioned as a rounded
      count grouped in threes and never as a percentage. */
  method ProvinceGeo(province: Frame, ghost rows: seq<IndicatorRow>, names: seq<Option<string>>, selected: string, k: nat)
    returns (r: Result<seq<GeoMap.MapLabel>>)
    requires k < |GeoIndicators| && Displayed(province.table, rows, ProvinceView)
    ensures r.Success? <==> rows != []
    ensures r.Fail? ==> r.error == NotText(SurveyCol)
    ensures r.Success? ==> forall i :: 0 <= i < |r.value| ==> r.value[i].caption == GeoMap.ProvinceCaption(r.value[i].value, false)
    ensures r.Success? && Order.NoDuplicates(IndicatorKeys(rows)) ==>
              && |r.value| == |names|
              && forall i :: 0 <= i < |names| ==> r.value[i].name == names[i] && r.value[i].value == ProvinceMapValue(rows, selected, names[i], k)
  {
    ProvinceGeoSpec(province.table, rows, names, selected, k);
    var filtered: Frame;
    if selected != AllRegions {
      filtered := new Frame(GeoMap.FilterTable(province.table, "Région", selected));
    } else {
      filtered := new Frame(province.table);
    }
    var c := CoerceForMap(filtered, GeoIndicators, province.table.height > 0);
    if c.Fail? {
      return Fail(c.error);
    }
    r := GeoMap.ProvinceMapLabels(names, filtered.table, GeoIndicators[k]);
  }
}
