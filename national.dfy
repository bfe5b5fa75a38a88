/** The national view: the key figures table, the progress bars toward the
    operation's targets and the daily trend table. */
module National {
  import opened Wrappers
  import opened Order
  import opened Records
  import NumFormat
  import Text
  import Aggregate

  /** The number of household surveys the operation aims for. */
  const SurveyTarget: nat := 35000

  /** The number of clusters in the sample. */
  const ClusterTarget: nat := 10225

  /** The submission day of every record, in record order. */
  function Dates(rs: seq<Record>): (ds: seq<int>)
    ensures |ds| == |rs| && forall i :: 0 <= i < |rs| ==> ds[i] == rs[i].date
  {
    seq(|rs|, i requires 0 <= i < |rs| => rs[i].date)
  }

  predicate IntLess(a: int, b: int) { a < b }

  lemma IntLessIsStrictTotalOrder()
    ensures IsStrictTotalOrder(IntLess)
  {
  }

  /** The keys of `groupby('submission_date')`: the distinct days, increasing. */
  function DailyDates(rs: seq<Record>): seq<int> {
    SortedKeys(Dates(rs), IntLess)
  }

  lemma DailyDatesSpec(rs: seq<Record>)
    ensures StrictlySorted(DailyDates(rs), IntLess) && NoDuplicates(DailyDates(rs))
    ensures forall d :: d in DailyDates(rs) <==> exists r :: r in rs && r.date == d
  {
    IntLessIsStrictTotalOrder();
    SortedKeysSpec(Dates(rs), IntLess);
    var ds := Dates(rs);
    forall d ensures d in ds <==> exists r :: r in rs && r.date == d {
      if d in ds {
        var i :| 0 <= i < |ds| && ds[i] == d;
        assert rs[i] in rs;
      }
      if exists r :: r in rs && r.date == d {
        var r :| r in rs && r.date == d;
        var i :| 0 <= i < |rs| && rs[i] == r;
        assert ds[i] == d;
      }
    }
  }

  /** `submission_date.max()`. */
  function LastDate(rs: seq<Record>): (m: int)
    requires rs != []
    ensures (forall r :: r in rs ==> r.date <= m) && exists r :: r in rs && r.date == m
  {
    var last := rs[|rs| - 1];
    if |rs| == 1 then last.date
    else
      var init := rs[..|rs| - 1];
      assert rs == init + [last];
      var m := LastDate(init);
      if last.date > m then last.date else m
  }

  /** `submission_date.min()`. */
  function FirstDate(rs: seq<Record>): (m: int)
    requires rs != []
    ensures (forall r :: r in rs ==> m <= r.date) && exists r :: r in rs && r.date == m
  {
    var last := rs[|rs| - 1];
    if |rs| == 1 then last.date
    else
      var init := rs[..|rs| - 1];
      assert rs == init + [last];
      var m := FirstDate(init);
      if last.date < m then last.date else m
  }

  /** `(max - min).days + 1`: the calendar length of the operation, counting
      both ends; missing (NaN in pandas) when there is no record. */
  function OperationDays(rs: seq<Record>): (d: Option<nat>)
    ensures rs == [] <==> d == None
    ensures d.Some? ==> forall r, r' :: r in rs && r' in rs ==> r.date - r'.date < d.value
    ensures d.Some? ==> exists r, r' :: r in rs && r' in rs && d.value == r.date - r'.date + 1
  {
    if rs == [] then None else Some(LastDate(rs) - FirstDate(rs) + 1)
  }

  /** A strictly increasing run of days inside `[lo, hi]` has at most
      `hi - lo + 1` elements. */
  lemma {:induction false} IncreasingRunLength(s: seq<int>, lo: int, hi: int)
    requires StrictlySorted(s, IntLess)
    requires forall i :: 0 <= i < |s| ==> lo <= s[i] <= hi
    ensures |s| <= if hi < lo then 0 else hi - lo + 1
  {
    if s != [] {
      var t := s[1..];
      forall i | 0 <= i < |t| ensures s[0] + 1 <= t[i] <= hi { assert IntLess(s[0], s[i + 1]); }
      assert StrictlySorted(t, IntLess) by {
        forall i, j | 0 <= i < j < |t| ensures IntLess(t[i], t[j]) { assert IntLess(s[i + 1], s[j + 1]); }
      }
      IncreasingRunLength(t, s[0] + 1, hi);
    }
  }

  /** The operation spans at least as many calendar days as there are days
      with submissions, and at least one. */
  lemma SpanCoversActiveDays(rs: seq<Record>)
    requires rs != []
    ensures 1 <= |DailyDates(rs)| <= OperationDays(rs).value
  {
    var lo, hi := FirstDate(rs), LastDate(rs);
    var ds := DailyDates(rs);
    DailyDatesSpec(rs);
    forall i | 0 <= i < |ds| ensures lo <= ds[i] <= hi {
      assert ds[i] in ds;
    }
    IncreasingRunLength(ds, lo, hi);
    assert rs[0].date in ds;
  }

  /** The records submitted on day `d`, in record order. */
  function OnDate(rs: seq<Record>, d: int): (m: seq<Record>)
    ensures |m| <= |rs|
    ensures forall r :: r in m <==> r in rs && r.date == d
  {
    if rs == [] then []
    else
      var init, last := rs[..|rs| - 1], rs[|rs| - 1];
      assert rs == init + [last];
      OnDate(init, d) + (if last.date == d then [last] else [])
  }

  /** The per-day survey sums over the listed days, added up. */
  function DaySums(rs: seq<Record>, days: seq<int>): int {
    if days == [] then 0 else SumExpra(OnDate(rs, days[0])) + DaySums(rs, days[1..])
  }

  /** The per-day census counts over the listed days, added up. */
  function DayCensus(rs: seq<Record>, days: seq<int>): nat {
    if days == [] then 0 else CountFlag(OnDate(rs, days[0]), 0) + DayCensus(rs, days[1..])
  }

  lemma {:induction false} DaySumsSnoc(rs: seq<Record>, r: Record, days: seq<int>)
    requires NoDuplicates(days)
    ensures DaySums(rs + [r], days) == DaySums(rs, days) + (if r.date in days then r.expra else 0)
    ensures DayCensus(rs + [r], days) == DayCensus(rs, days) + (if r.date in days && r.expra == 0 then 1 else 0)
  {
    if days != [] {
      NoDuplicatesTail(days);
      DaySumsSnoc(rs, r, days[1..]);
      OnDateSnoc(rs, r, days[0]);
    }
  }

  /** A record appended to the records is appended to its own day's. */
  lemma OnDateSnoc(rs: seq<Record>, r: Record, d: int)
    ensures SumExpra(OnDate(rs + [r], d)) == SumExpra(OnDate(rs, d)) + (if r.date == d then r.expra else 0)
    ensures CountFlag(OnDate(rs + [r], d), 0) == CountFlag(OnDate(rs, d), 0) + (if r.date == d && r.expra == 0 then 1 else 0)
  {
    var rs' := rs + [r];
    assert rs'[..|rs'| - 1] == rs;
    var m := OnDate(rs, d);
    assert OnDate(rs', d) == m + (if r.date == d then [r] else []);
    if r.date == d {
      assert (m + [r])[..|m + [r]| - 1] == m;
    } else {
      assert m + [] == m;
    }
  }

  lemma {:induction false} DaySumsEmpty(days: seq<int>)
    ensures DaySums([], days) == 0 && DayCensus([], days) == 0
  {
    if days != [] { DaySumsEmpty(days[1..]); }
  }

  /** Grouping by day partitions the records: over duplicate-free days that
      cover every record, the daily sums add up to the national totals. */
  lemma {:induction false} DailyPartition(rs: seq<Record>, days: seq<int>)
    requires NoDuplicates(days)
    requires forall r :: r in rs ==> r.date in days
    ensures DaySums(rs, days) == SumExpra(rs)
    ensures DayCensus(rs, days) == CountFlag(rs, 0)
  {
    if rs == [] {
      DaySumsEmpty(days);
    } else {
      var init, last := rs[..|rs| - 1], rs[|rs| - 1];
      assert rs == init + [last];
      DailyPartition(init, days);
      DaySumsSnoc(init, last, days);
    }
  }

  /** `daily_expra.mean()`: the average of the per-day survey sums; missing
      when there are no days. */
  function DailyMean(rs: seq<Record>): Option<real> {
    var days := DailyDates(rs);
    if days == [] then None else Some(DaySums(rs, days) as real / |days| as real)
  }

  /** The mean daily rate is the national survey total spread over the days
      with submissions; it is missing exactly when there is no record. */
  lemma DailyMeanIsAverage(rs: seq<Record>)
    ensures rs == [] <==> DailyMean(rs) == None
    ensures rs != [] ==> DailyMean(rs) == Some(SumExpra(rs) as real / |DailyDates(rs)| as real)
  {
    DailyDatesSpec(rs);
    DailyPartition(rs, DailyDates(rs));
    if rs != [] {
      assert rs[0].date in DailyDates(rs);
    }
  }

  /** `total_expra / 35000 * 100`. */
  function SurveyProgress(rs: seq<Record>): real {
    SumExpra(rs) as real / SurveyTarget as real * 100.0
  }

  /** `nunique(grappe) / 10225 * 100`. */
  function ClusterProgress(rs: seq<Record>): real {
    |Grappes(rs)| as real / ClusterTarget as real * 100.0
  }

  /** With binary flags both progress figures are ratios of counts to the
      targets: 100% exactly when the target is met, below 100% exactly
      while it is not yet reached. */
  lemma ProgressMeaning(rs: seq<Record>)
    requires FlagsBinary(rs)
    ensures SurveyProgress(rs) == Aggregate.Percent(CountFlag(rs, 1), SurveyTarget)
    ensures ClusterProgress(rs) == Aggregate.Percent(|Grappes(rs)|, ClusterTarget)
    ensures SurveyProgress(rs) == 100.0 <==> CountFlag(rs, 1) == SurveyTarget
    ensures SurveyProgress(rs) < 100.0 <==> CountFlag(rs, 1) < SurveyTarget
    ensures ClusterProgress(rs) == 100.0 <==> |Grappes(rs)| == ClusterTarget
    ensures ClusterProgress(rs) < 100.0 <==> |Grappes(rs)| < ClusterTarget
  {
    SumIsSurveyCount(rs);
    Aggregate.PercentMeaning(CountFlag(rs, 1), SurveyTarget);
    Aggregate.PercentMeaning(|Grappes(rs)|, ClusterTarget);
  }

  /** One bar of the stacked progress chart: achieved and remaining percent. */
  datatype Bar = Bar(indicator: string, achieved: real, remaining: real)

  /** `progress_df`: 'Pourcentage' and 'Restant' (= 100 - achieved) for the
      survey rate and the cluster coverage. */
  function ProgressBars(rs: seq<Record>): (bars: seq<Bar>)
    ensures |bars| == 2
    ensures bars[0].achieved == SurveyProgress(rs) && bars[1].achieved == ClusterProgress(rs)
    ensures forall i :: 0 <= i < 2 ==> bars[i].achieved + bars[i].remaining == 100.0
  {
    [Bar("Taux de réalisation des enquêtes ménage", SurveyProgress(rs), 100.0 - SurveyProgress(rs)),
     Bar("Taux de couverture des grappes", ClusterProgress(rs), 100.0 - ClusterProgress(rs))]
  }

  /** A bar's remaining part is negative exactly when the target is exceeded,
      and zero exactly when it is met. */
  lemma BarsOvershoot(rs: seq<Record>)
    requires FlagsBinary(rs)
    ensures ProgressBars(rs)[0].remaining < 0.0 <==> CountFlag(rs, 1) > SurveyTarget
    ensures ProgressBars(rs)[0].remaining == 0.0 <==> CountFlag(rs, 1) == SurveyTarget
    ensures ProgressBars(rs)[1].remaining < 0.0 <==> |Grappes(rs)| > ClusterTarget
    ensures ProgressBars(rs)[1].remaining == 0.0 <==> |Grappes(rs)| == ClusterTarget
  {
    ProgressMeaning(rs);
  }

  /** The computed values behind the key figures table. */
  datatype KeyFigures = KeyFigures(days: Option<nat>, surveyProgress: real, clusterProgress: real,
                                   clusters: nat, surveys: int, census: nat, dailyMean: Option<real>)

  function Figures(rs: seq<Record>): KeyFigures {
    KeyFigures(OperationDays(rs), SurveyProgress(rs), ClusterProgress(rs),
               |Grappes(rs)|, SumExpra(rs), CountFlag(rs, 0), DailyMean(rs))
  }

  /** How Python renders a missing float. */
  const NaNText: string := "nan"

  /** The value column of `national_indicators`, field by field (the
      standard deviation row excepted). */
  datatype FigureTexts = FigureTexts(days: string, surveyRate: string, clusterRate: string,
                                     clusters: string, surveys: string, census: string, dailyRate: string)

  /** The values of the key figures table as displayed. */
  function Render(f: KeyFigures): FigureTexts {
    FigureTexts(WithUnit(if f.days.Some? then NumFormat.Digits(f.days.value) else NaNText, "jours"),
                NumFormat.PercentText(f.surveyProgress),
                NumFormat.PercentText(f.clusterProgress),
                WithUnit(NumFormat.Digits(f.clusters), "grappes"),
                WithUnit(NumFormat.IntText(f.surveys), "enquêtes"),
                WithUnit(NumFormat.Digits(f.census), "enquêtes"),
                WithUnit(if f.dailyMean.Some? then NumFormat.Fixed0Text(f.dailyMean.value) else NaNText,
                         "enquêtes ménage par jour"))
  }

  /** `national_indicators` as (indicator, value) rows, in display order. */
  function FigureRows(t: FigureTexts): seq<(string, string)> {
    [("Durée de l'opération", t.days),
     ("Taux de réalisation des enquêtes ménage", t.surveyRate),
     ("Taux de couverture des grappes", t.clusterRate),
     ("Grappes enquêtées", t.clusters),
     ("Enquêtes ménages", t.surveys),
     ("Recensements", t.census),
     ("Cadence quotidienne moyenne", t.dailyRate)]
  }

  /** `f"{v} unit"`. */
  function WithUnit(v: string, unit: string): string {
    v + " " + unit
  }

  /** The number a value text starts with: the text before the first space,
      read as a number. */
  function LeadingNumber(t: string): Option<real> {
    NumFormat.ParseNumber(t[..NumFormat.IndexOf(t, ' ')])
  }

  lemma LeadingOf(u: string, rest: string)
    requires ' ' !in u
    ensures LeadingNumber(WithUnit(u, rest)) == NumFormat.ParseNumber(u)
  {
    NumFormat.IndexAfter(u, ' ', rest);
    assert (u + " " + rest)[..|u|] == u;
  }

  /** `f"{n} unit"` reads back as `n`. */
  lemma CountTextMeaning(n: nat, unit: string)
    ensures LeadingNumber(WithUnit(NumFormat.Digits(n), unit)) == Some(n as real)
  {
    NumFormat.DigitsHaveNoPoint(NumFormat.Digits(n));
    LeadingOf(NumFormat.Digits(n), unit);
    NumFormat.ParseDigitsOnly(n);
  }

  /** `f"{i} unit"` reads back as `i`. */
  lemma IntTextMeaning(i: int, unit: string)
    ensures LeadingNumber(WithUnit(NumFormat.IntText(i), unit)) == Some(i as real)
  {
    var n: nat := if i < 0 then -i else i;
    var d := NumFormat.Digits(n);
    NumFormat.DigitsHaveNoPoint(d);
    if i < 0 {
      assert NumFormat.IntText(i) == "-" + d;
      assert ' ' !in "-" + d;
    }
    LeadingOf(NumFormat.IntText(i), unit);
    NumFormat.IntRoundTrip(i);
  }

  /** `f"{x:.0f} unit"` reads back as `x` rounded to the unit. */
  lemma Fixed0TextMeaning(x: real, unit: string)
    ensures LeadingNumber(WithUnit(NumFormat.Fixed0Text(x), unit)) == Some(NumFormat.Rounded0(x))
  {
    var m: nat := NumFormat.RoundHalfEven(NumFormat.Abs(x));
    var d := NumFormat.Digits(m);
    NumFormat.DigitsHaveNoPoint(d);
    if x < 0.0 {
      assert NumFormat.Fixed0Text(x) == "-" + d;
      assert ' ' !in "-" + d;
    } else {
      assert NumFormat.Fixed0Text(x) == d;
    }
    LeadingOf(NumFormat.Fixed0Text(x), unit);
    NumFormat.Fixed0RoundTrip(x);
  }

  /** Every figure of the table reads back as the value it reports: the
      counts exactly, the two rates to the hundredth and the daily rate to
      the unit. */
  lemma FigureTextsMeaning(f: KeyFigures)
    ensures f.days.Some? ==> LeadingNumber(Render(f).days) == Some(f.days.value as real)
    ensures NumFormat.ParseNumber(Text.RemoveChar(Text.RemoveChar(Render(f).surveyRate, ' '), '%'))
            == Some(NumFormat.Rounded2(f.surveyProgress))
    ensures NumFormat.ParseNumber(Text.RemoveChar(Text.RemoveChar(Render(f).clusterRate, ' '), '%'))
            == Some(NumFormat.Rounded2(f.clusterProgress))
    ensures LeadingNumber(Render(f).clusters) == Some(f.clusters as real)
    ensures LeadingNumber(Render(f).surveys) == Some(f.surveys as real)
    ensures LeadingNumber(Render(f).census) == Some(f.census as real)
    ensures f.dailyMean.Some? ==> LeadingNumber(Render(f).dailyRate) == Some(NumFormat.Rounded0(f.dailyMean.value))
  {
    if f.days.Some? {
      CountTextMeaning(f.days.value, "jours");
    }
    NumFormat.PercentRoundTrip(f.surveyProgress);
    NumFormat.PercentRoundTrip(f.clusterProgress);
    CountTextMeaning(f.clusters, "grappes");
    IntTextMeaning(f.surveys, "enquêtes");
    CountTextMeaning(f.census, "enquêtes");
    if f.dailyMean.Some? {
      Fixed0TextMeaning(f.dailyMean.value, "enquêtes ménage par jour");
    }
  }

  /** One row of `daily_data`: the day, its surveys (`sum`), its census
      visits (`(x == 0).sum()`) and its distinct clusters. */
  datatype DailyRow = DailyRow(date: int, surveys: int, census: nat, clusters: nat)

  function DailyRowOf(rs: seq<Record>, d: int): DailyRow {
    var m := OnDate(rs, d);
    DailyRow(d, SumExpra(m), CountFlag(m, 0), |Grappes(m)|)
  }

  /** `daily_data`, one row per day with submissions, in day order. */
  function DailyTable(rs: seq<Record>): seq<DailyRow> {
    var days := DailyDates(rs);
    seq(|days|, i requires 0 <= i < |days| => DailyRowOf(rs, days[i]))
  }

  function SurveyColumn(t: seq<DailyRow>): int {
    if t == [] then 0 else t[0].surveys + SurveyColumn(t[1..])
  }

  function CensusColumn(t: seq<DailyRow>): nat {
    if t == [] then 0 else t[0].census + CensusColumn(t[1..])
  }

  lemma {:induction false} ColumnsAreDaySums(rs: seq<Record>, days: seq<int>)
    ensures var t := seq(|days|, i requires 0 <= i < |days| => DailyRowOf(rs, days[i]));
            SurveyColumn(t) == DaySums(rs, days) && CensusColumn(t) == DayCensus(rs, days)
  {
    if days != [] {
      ColumnsAreDaySums(rs, days[1..]);
      var t := seq(|days|, i requires 0 <= i < |days| => DailyRowOf(rs, days[i]));
      assert t[1..] == seq(|days| - 1, i requires 0 <= i < |days| - 1 => DailyRowOf(rs, days[1..][i]));
    }
  }

  /** The daily table has a row exactly for each day with submissions, in
      increasing order; every row covers at least one cluster; and its survey
      and census columns add up to the national totals. */
  lemma DailyTableSpec(rs: seq<Record>)
    ensures forall i, j :: 0 <= i < j < |DailyTable(rs)| ==> DailyTable(rs)[i].date < DailyTable(rs)[j].date
    ensures forall r :: r in rs ==> exists i :: 0 <= i < |DailyTable(rs)| && DailyTable(rs)[i].date == r.date
    ensures forall i :: 0 <= i < |DailyTable(rs)| ==>
              1 <= DailyTable(rs)[i].clusters
              && DailyTable(rs)[i] == DailyRowOf(rs, DailyTable(rs)[i].date)
    ensures SurveyColumn(DailyTable(rs)) == SumExpra(rs)
    ensures CensusColumn(DailyTable(rs)) == CountFlag(rs, 0)
  {
    var days := DailyDates(rs);
    var t := DailyTable(rs);
    DailyDatesSpec(rs);
    forall i, j | 0 <= i < j < |t| ensures t[i].date < t[j].date {
      assert IntLess(days[i], days[j]);
    }
    forall r | r in rs ensures exists i :: 0 <= i < |t| && t[i].date == r.date {
      assert r.date in days;
      var i :| 0 <= i < |days| && days[i] == r.date;
      assert t[i].date == r.date;
    }
    forall i | 0 <= i < |t| ensures 1 <= t[i].clusters {
      assert days[i] in days;
      var r :| r in rs && r.date == days[i];
      ActiveDayHasCluster(rs, r);
    }
    DailyColumns(rs);
  }

  /** A day on which some record was submitted has at least one cluster. */
  lemma ActiveDayHasCluster(rs: seq<Record>, r: Record)
    requires r in rs
    ensures 1 <= DailyRowOf(rs, r.date).clusters
  {
    assert r in OnDate(rs, r.date) && r.grappe in Grappes(OnDate(rs, r.date));
  }

  /** The daily table's columns add up to the totals over all records. */
  lemma DailyColumns(rs: seq<Record>)
    ensures SurveyColumn(DailyTable(rs)) == SumExpra(rs)
    ensures CensusColumn(DailyTable(rs)) == CountFlag(rs, 0)
  {
    var days := DailyDates(rs);
    DailyDatesSpec(rs);
    ColumnsAreDaySums(rs, days);
    DailyPartition(rs, days);
  }
}
