/** The per-unit tables of the regional, provincial and circle views:
    `groupby(label).agg(expra_1, expra_0, unique_grappe)`, the inner merge with
    a reference table of cluster targets, the left merge that attaches the
    parent unit, and the two ratios with their zero rule. */
module Aggregate {
  import opened Wrappers
  import opened Order
  import opened Records
  import Text

  /** One row of `groupby(label).agg(...)`: the label, the number of household
      surveys, of census-only visits and of distinct clusters. */
  datatype GroupRow = GroupRow(key: string, expra1: nat, expra0: nat, uniqueGrappe: nat)

  /** The aggregate of the group labelled `k`. */
  function Summarise(rs: seq<Record>, level: Level, k: string): GroupRow {
    var m := Members(rs, level, k);
    GroupRow(k, CountFlag(m, 1), CountFlag(m, 0), |Grappes(m)|)
  }

  function SummariseAll(rs: seq<Record>, level: Level, keys: seq<string>): seq<GroupRow> {
    if keys == [] then [] else [Summarise(rs, level, keys[0])] + SummariseAll(rs, level, keys[1..])
  }

  /** `combined_data.groupby(label).agg(...).reset_index()`: one row per
      distinct label, in sorted label order. */
  function GroupBy(rs: seq<Record>, level: Level): seq<GroupRow> {
    SummariseAll(rs, level, GroupKeys(rs, level))
  }

  /** The label column of grouped rows. */
  function RowKeys(g: seq<GroupRow>): seq<string> {
    Names(g, (r: GroupRow) => r.key)
  }

  lemma {:induction false} SummariseAllRows(rs: seq<Record>, level: Level, keys: seq<string>)
    ensures |SummariseAll(rs, level, keys)| == |keys|
    ensures forall i :: 0 <= i < |keys| ==> SummariseAll(rs, level, keys)[i] == Summarise(rs, level, keys[i])
  {
    if keys != [] {
      SummariseAllRows(rs, level, keys[1..]);
    }
  }

  lemma GroupByRows(rs: seq<Record>, level: Level)
    ensures RowKeys(GroupBy(rs, level)) == GroupKeys(rs, level)
    ensures forall i :: 0 <= i < |GroupBy(rs, level)| ==>
              GroupBy(rs, level)[i] == Summarise(rs, level, GroupBy(rs, level)[i].key)
  {
    SummariseAllRows(rs, level, GroupKeys(rs, level));
  }

  lemma GroupKeysCover(rs: seq<Record>, level: Level)
    ensures forall k :: k in GroupKeys(rs, level) <==> exists r :: r in rs && Key(r, level) == k
  {
    var keys := GroupKeys(rs, level);
    var ls := Labels(rs, level);
    GroupKeysSpec(rs, level);
    Text.LexIsStrictTotalOrder();
    SortedKeysSpec(ls, Text.LexLess);
    forall k | k in keys ensures exists r :: r in rs && Key(r, level) == k {
      var i :| 0 <= i < |ls| && ls[i] == k;
      assert rs[i] in rs && Key(rs[i], level) == k;
    }
  }

  lemma GroupBounds(rs: seq<Record>, level: Level, k: string)
    requires exists r :: r in rs && Key(r, level) == k
    ensures 1 <= Summarise(rs, level, k).uniqueGrappe
    ensures Summarise(rs, level, k).expra1 + Summarise(rs, level, k).expra0 <= |Members(rs, level, k)|
  {
    var m := Members(rs, level, k);
    var r :| r in rs && Key(r, level) == k;
    assert r in m && r.grappe in Grappes(m);
    FlagCountsBound(m);
  }

  /** The grouped table has exactly one row per distinct label of the records,
      in strictly increasing label order; each row aggregates the records of its
      label, covers at least one cluster, and its survey and census counts
      together never exceed the group's size. */
  lemma GroupBySpec(rs: seq<Record>, level: Level)
    ensures forall i :: 0 <= i < |GroupBy(rs, level)| ==>
              GroupBy(rs, level)[i] == Summarise(rs, level, GroupBy(rs, level)[i].key)
    ensures StrictlySorted(RowKeys(GroupBy(rs, level)), Text.LexLess)
    ensures forall k :: k in RowKeys(GroupBy(rs, level)) <==> exists r :: r in rs && Key(r, level) == k
    ensures forall i :: 0 <= i < |GroupBy(rs, level)| ==>
              1 <= GroupBy(rs, level)[i].uniqueGrappe
              && GroupBy(rs, level)[i].expra1 + GroupBy(rs, level)[i].expra0
                 <= |Members(rs, level, GroupBy(rs, level)[i].key)|
  {
    var g := GroupBy(rs, level);
    GroupByRows(rs, level);
    GroupKeysSpec(rs, level);
    GroupKeysCover(rs, level);
    forall i | 0 <= i < |g|
      ensures 1 <= g[i].uniqueGrappe && g[i].expra1 + g[i].expra0 <= |Members(rs, level, g[i].key)|
    {
      assert RowKeys(g)[i] in GroupKeys(rs, level);
      GroupBounds(rs, level, g[i].key);
    }
  }

  /** The survey column of a table, summed. */
  function Surveys(g: seq<GroupRow>): nat {
    if g == [] then 0 else g[0].expra1 + Surveys(g[1..])
  }

  /** The census column of a table, summed. */
  function Census(g: seq<GroupRow>): nat {
    if g == [] then 0 else g[0].expra0 + Census(g[1..])
  }

  lemma {:induction false} SummariseAllSums(rs: seq<Record>, level: Level, keys: seq<string>)
    ensures Surveys(SummariseAll(rs, level, keys)) == SumOverKeys(rs, level, keys, 1)
    ensures Census(SummariseAll(rs, level, keys)) == SumOverKeys(rs, level, keys, 0)
  {
    if keys != [] {
      SummariseAllSums(rs, level, keys[1..]);
      var s := SummariseAll(rs, level, keys);
      assert s[1..] == SummariseAll(rs, level, keys[1..]);
    }
  }

  /** Grouping loses and duplicates nothing: at every level the per-unit survey
      and census counts add up to the national ones. */
  lemma GroupByTotals(rs: seq<Record>, level: Level)
    ensures Surveys(GroupBy(rs, level)) == CountFlag(rs, 1)
    ensures Census(GroupBy(rs, level)) == CountFlag(rs, 0)
  {
    GroupKeysSpec(rs, level);
    SummariseAllSums(rs, level, GroupKeys(rs, level));
    PartitionCount(rs, level, GroupKeys(rs, level), 1);
    PartitionCount(rs, level, GroupKeys(rs, level), 0);
  }

  /** With binary flags the grouped tables agree with the national view: the
      surveys sum to `combined_data['expra'].sum()` and surveys plus census
      visits to the number of records. */
  lemma GroupByMatchesNational(rs: seq<Record>, level: Level)
    requires FlagsBinary(rs)
    ensures Surveys(GroupBy(rs, level)) == SumExpra(rs)
    ensures Surveys(GroupBy(rs, level)) + Census(GroupBy(rs, level)) == |rs|
  {
    GroupByTotals(rs, level);
    SumIsSurveyCount(rs);
  }

  /** Drill-down: grouping the records of one province by circle accounts for
      exactly that province's surveys and census visits. */
  lemma DrillDown(rs: seq<Record>, p: string)
    ensures Surveys(GroupBy(Members(rs, ProvinceLevel, p), CircleLevel))
            == Summarise(rs, ProvinceLevel, p).expra1
    ensures Census(GroupBy(Members(rs, ProvinceLevel, p), CircleLevel))
            == Summarise(rs, ProvinceLevel, p).expra0
  {
    GroupByTotals(Members(rs, ProvinceLevel, p), CircleLevel);
  }

  // ---------------------------------------------------------------------
  // Inner merge with a reference table

  /** A reference row of `grappes_regions` (`region`, `nb_grappes`) or of
      `provinces_data` (`province`, `nb_grappe`): a unit and its cluster
      target, `None` where the spreadsheet cell is blank (NaN once read). */
  datatype TargetRow = TargetRow(name: string, target: Option<nat>)

  /** A row of `circles_data`: circle label, cluster target (`None` when
      blank) and province label. */
  datatype CircleRef = CircleRef(name: string, target: Option<nat>, province: string)

  /** `circles_data`, and whether it carries a `province_label` column. */
  datatype CircleRefTable = CircleRefTable(rows: seq<CircleRef>, hasProvince: bool)

  /** One text column of a table: `nameOf` read from every row, in order.
      The name column of a reference table, and the key column of grouped,
      merged and indicator rows. */
  function Names<R>(refs: seq<R>, nameOf: R -> string): seq<string> {
    seq(|refs|, i requires 0 <= i < |refs| => nameOf(refs[i]))
  }

  /** The reference rows that match one grouped row, in reference order. */
  function MatchesOf<R(!new)>(row: GroupRow, refs: seq<R>, nameOf: R -> string): (m: seq<(GroupRow, R)>)
    ensures forall p :: p in m <==> p.0 == row && p.1 in refs && nameOf(p.1) == row.key
  {
    if refs == [] then []
    else
      assert refs == [refs[0]] + refs[1..];
      (if nameOf(refs[0]) == row.key then [(row, refs[0])] else []) + MatchesOf(row, refs[1..], nameOf)
  }

  /** `left.merge(right, left_on=label, right_on=name)` (an inner join): for
      each grouped row in order, one output row per matching reference row.
      A pair is in the result exactly when its names agree. */
  function InnerMerge<R(!new)>(g: seq<GroupRow>, refs: seq<R>, nameOf: R -> string): (m: seq<(GroupRow, R)>)
    ensures forall p :: p in m <==> p.0 in g && p.1 in refs && nameOf(p.1) == p.0.key
  {
    if g == [] then []
    else
      assert g == [g[0]] + g[1..];
      MatchesOf(g[0], refs, nameOf) + InnerMerge(g[1..], refs, nameOf)
  }

  /** The unit labels of a merged table. */
  function MergedKeys<R>(m: seq<(GroupRow, R)>): seq<string> {
    Names(m, (p: (GroupRow, R)) => p.0.key)
  }

  /** With distinct reference names a grouped row meets at most one reference row. */
  lemma {:induction false} MatchesOfUnique<R(!new)>(row: GroupRow, refs: seq<R>, nameOf: R -> string)
    requires NoDuplicates(Names(refs, nameOf))
    ensures |MatchesOf(row, refs, nameOf)| == if row.key in Names(refs, nameOf) then 1 else 0
  {
    if refs != [] {
      var rest := refs[1..];
      var ns := Names(refs, nameOf);
      assert Names(rest, nameOf) == ns[1..];
      assert NoDuplicates(Names(rest, nameOf)) by {
        forall i, j | 0 <= i < j < |rest| ensures ns[1..][i] != ns[1..][j] { assert ns[i + 1] != ns[j + 1]; }
      }
      MatchesOfUnique(row, rest, nameOf);
      assert ns == [ns[0]] + ns[1..];
      if nameOf(refs[0]) == row.key {
        assert row.key !in ns[1..] by {
          forall i | 0 <= i < |ns| - 1 ensures ns[1..][i] != ns[0] { assert ns[i + 1] != ns[0]; }
        }
      }
    }
  }

  /** With distinct reference names the merge keeps the grouped rows' order and
      never repeats a unit: its labels stay strictly increasing and it has at
      most one row per grouped row. */
  lemma {:induction false} InnerMergeUnique<R(!new)>(g: seq<GroupRow>, refs: seq<R>, nameOf: R -> string)
    requires NoDuplicates(Names(refs, nameOf))
    requires StrictlySorted(RowKeys(g), Text.LexLess)
    ensures |InnerMerge(g, refs, nameOf)| <= |g|
    ensures StrictlySorted(MergedKeys(InnerMerge(g, refs, nameOf)), Text.LexLess)
  {
    if g != [] {
      var rest := g[1..];
      assert RowKeys(rest) == RowKeys(g)[1..];
      assert StrictlySorted(RowKeys(rest), Text.LexLess) by {
        forall i, j | 0 <= i < j < |rest| ensures Text.LexLess(RowKeys(rest)[i], RowKeys(rest)[j]) {
          assert rest[i] == g[i + 1] && rest[j] == g[j + 1];
          assert RowKeys(g)[i + 1] == g[i + 1].key && RowKeys(g)[j + 1] == g[j + 1].key;
        }
      }
      InnerMergeUnique(rest, refs, nameOf);
      MatchesOfUnique(g[0], refs, nameOf);
      var head := MatchesOf(g[0], refs, nameOf);
      var tail := InnerMerge(rest, refs, nameOf);
      forall i | 0 <= i < |head| ensures head[i].0.key == g[0].key {
        assert head[i] in head;
      }
      forall i | 0 <= i < |tail| ensures Text.LexLess(g[0].key, tail[i].0.key) {
        assert tail[i] in tail;
        var k :| 0 <= k < |rest| && rest[k] == tail[i].0;
        assert RowKeys(g)[0] == g[0].key && RowKeys(g)[k + 1] == g[k + 1].key;
      }
      SortedConcat(head, tail, g[0].key);
    }
  }

  lemma SortedConcat<R>(head: seq<(GroupRow, R)>, tail: seq<(GroupRow, R)>, k: string)
    requires |head| <= 1 && forall i :: 0 <= i < |head| ==> head[i].0.key == k
    requires forall i :: 0 <= i < |tail| ==> Text.LexLess(k, tail[i].0.key)
    requires StrictlySorted(MergedKeys(tail), Text.LexLess)
    ensures StrictlySorted(MergedKeys(head + tail), Text.LexLess)
  {
    var m := head + tail;
    forall i, j | 0 <= i < j < |m| ensures Text.LexLess(m[i].0.key, m[j].0.key) {
      assert m[j] == tail[j - |head|];
      if i >= |head| {
        assert m[i] == tail[i - |head|];
        assert MergedKeys(tail)[i - |head|] == m[i].0.key && MergedKeys(tail)[j - |head|] == m[j].0.key;
      }
    }
  }

  // ---------------------------------------------------------------------
  // Ratios

  /** `a / b * 100` after `.replace([inf, -inf], nan).fillna(0)`: a zero
      denominator gives 0 whatever the numerator. */
  function Percent(num: nat, den: nat): (r: real)
    ensures r >= 0.0
    ensures den == 0 ==> r == 0.0
    ensures den > 0 ==> r * den as real == 100.0 * num as real
  {
    if den == 0 then 0.0 else num as real / den as real * 100.0
  }

  lemma ScaleStrict(a: real, b: real, d: real)
    requires d > 0.0
    ensures a < b <==> a * d < b * d
    ensures a == b <==> a * d == b * d
  {
    if a < b { assert (b - a) * d > 0.0; }
    if b < a { assert (a - b) * d > 0.0; }
  }

  /** Reading a percentage: with a positive denominator it is 100 exactly when
      the two counts are equal, below 100 exactly when the numerator is smaller,
      and 0 exactly when the numerator is 0. */
  lemma PercentMeaning(num: nat, den: nat)
    requires den > 0
    ensures Percent(num, den) == 100.0 <==> num == den
    ensures Percent(num, den) < 100.0 <==> num < den
    ensures Percent(num, den) == 0.0 <==> num == 0
  {
    var r := Percent(num, den);
    var d := den as real;
    assert r * d == 100.0 * num as real;
    ScaleStrict(r, 100.0, d);
    ScaleStrict(r, 0.0, d);
  }

  // ---------------------------------------------------------------------
  // Indicator rows

  /** One displayed row before formatting: the unit, its parent unit if the
      view shows one, the three counts, the target as the reference table
      gives it, the survey/census ratio and the cluster coverage, both in
      percent. */
  datatype IndicatorRow = IndicatorRow(key: string, parent: Option<string>,
                                       expra1: nat, expra0: nat, uniqueGrappe: nat, target: Option<nat>,
                                       ratio: real, coverage: real)

  /** `fillna(0)` on a target: a blank one becomes 0. */
  function FilledTarget(t: Option<nat>): nat {
    if t.Some? then t.value else 0
  }

  /** `ratio_expra` and `percent_unique_grappe` of one merged row (main.py computes
      the same two columns in each of the three views). A blank target makes
      the coverage NaN, which `fillna(0)` turns into 0, as a zero target's
      infinity does. */
  function Indicator(g: GroupRow, target: Option<nat>, parent: Option<string>): (row: IndicatorRow)
    ensures row.key == g.key && row.parent == parent
    ensures row.expra1 == g.expra1 && row.expra0 == g.expra0 && row.uniqueGrappe == g.uniqueGrappe
    ensures row.target == target
    ensures g.expra0 == 0 ==> row.ratio == 0.0
    ensures target.None? || target == Some(0) ==> row.coverage == 0.0
    ensures target.Some? && target.value > 0 ==> row.coverage * target.value as real == 100.0 * g.uniqueGrappe as real
    ensures g.expra0 > 0 ==> row.ratio * g.expra0 as real == 100.0 * g.expra1 as real
  {
    var coverage := match target
      case None => 0.0
      case Some(n) => Percent(g.uniqueGrappe, n);
    IndicatorRow(g.key, parent, g.expra1, g.expra0, g.uniqueGrappe, target,
                 Percent(g.expra1, g.expra0), coverage)
  }

  function TargetName(t: TargetRow): string { t.name }

  function CircleName(c: CircleRef): string { c.name }

  /** The region table of the regional view before formatting. */
  function RegionIndicators(rs: seq<Record>, refs: seq<TargetRow>): seq<IndicatorRow> {
    var m := InnerMerge(GroupBy(rs, RegionLevel), refs, TargetName);
    seq(|m|, i requires 0 <= i < |m| => Indicator(m[i].0, m[i].1.target, None))
  }

  /** The unit labels of an indicator table. */
  function IndicatorKeys(rows: seq<IndicatorRow>): seq<string> {
    Names(rows, (r: IndicatorRow) => r.key)
  }

  /** Every merged row pairs the aggregate of a unit present in the records
      with a reference row of the same name. */
  lemma MergedRow<R(!new)>(rs: seq<Record>, level: Level, refs: seq<R>, nameOf: R -> string, p: (GroupRow, R))
    requires p in InnerMerge(GroupBy(rs, level), refs, nameOf)
    ensures p.0 == Summarise(rs, level, p.0.key) && 1 <= p.0.uniqueGrappe
    ensures exists r :: r in rs && Key(r, level) == p.0.key
    ensures p.1 in refs && nameOf(p.1) == p.0.key
  {
    var g := GroupBy(rs, level);
    GroupBySpec(rs, level);
    var k :| 0 <= k < |g| && g[k] == p.0;
    assert RowKeys(g)[k] == p.0.key;
  }

  /** Every record whose unit has a reference row reaches the merged table. */
  lemma MergeComplete<R(!new)>(rs: seq<Record>, level: Level, refs: seq<R>, nameOf: R -> string, r: Record, t: R)
    requires r in rs && t in refs && nameOf(t) == Key(r, level)
    ensures (Summarise(rs, level, Key(r, level)), t) in InnerMerge(GroupBy(rs, level), refs, nameOf)
  {
    var g := GroupBy(rs, level);
    GroupBySpec(rs, level);
    assert Key(r, level) in RowKeys(g);
    var k :| 0 <= k < |g| && RowKeys(g)[k] == Key(r, level);
    assert g[k] in g;
  }

  /** With distinct reference names the merged table lists each unit once, in
      sorted order. */
  lemma MergeSorted<R(!new)>(rs: seq<Record>, level: Level, refs: seq<R>, nameOf: R -> string)
    requires NoDuplicates(Names(refs, nameOf))
    ensures StrictlySorted(MergedKeys(InnerMerge(GroupBy(rs, level), refs, nameOf)), Text.LexLess)
    ensures |InnerMerge(GroupBy(rs, level), refs, nameOf)| <= |GroupBy(rs, level)|
  {
    GroupBySpec(rs, level);
    InnerMergeUnique(GroupBy(rs, level), refs, nameOf);
  }

  /** A row of the regional table exists exactly for the regions that are both
      in the records and in the reference table; its counts are the region's
      aggregates and its target the reference row's. With distinct reference
      names each region appears once, in sorted order. */
  lemma RegionIndicatorsSpec(rs: seq<Record>, refs: seq<TargetRow>)
    ensures forall i :: 0 <= i < |RegionIndicators(rs, refs)| ==>
              RegionIndicators(rs, refs)[i].parent == None
              && (exists r :: r in rs && r.region == RegionIndicators(rs, refs)[i].key)
              && TargetRow(RegionIndicators(rs, refs)[i].key, RegionIndicators(rs, refs)[i].target) in refs
              && RegionIndicators(rs, refs)[i]
                 == Indicator(Summarise(rs, RegionLevel, RegionIndicators(rs, refs)[i].key), RegionIndicators(rs, refs)[i].target, None)
    ensures forall r, t :: r in rs && t in refs && t.name == r.region ==>
              Indicator(Summarise(rs, RegionLevel, r.region), t.target, None) in RegionIndicators(rs, refs)
    ensures NoDuplicates(Names(refs, TargetName)) ==>
              StrictlySorted(IndicatorKeys(RegionIndicators(rs, refs)), Text.LexLess)
  {
    var m := InnerMerge(GroupBy(rs, RegionLevel), refs, TargetName);
    var out := RegionIndicators(rs, refs);
    forall i | 0 <= i < |out|
      ensures out[i].parent == None
              && (exists r :: r in rs && r.region == out[i].key)
              && TargetRow(out[i].key, out[i].target) in refs
              && out[i] == Indicator(Summarise(rs, RegionLevel, out[i].key), out[i].target, None)
    {
      assert m[i] in m;
      MergedIndicator(rs, refs, m[i]);
    }
    forall r, t | r in rs && t in refs && t.name == r.region
      ensures Indicator(Summarise(rs, RegionLevel, r.region), t.target, None) in out
    {
      RegionComplete(rs, refs, r, t);
    }
    if NoDuplicates(Names(refs, TargetName)) {
      MergeSorted(rs, RegionLevel, refs, TargetName);
      assert MergedKeys(m) == IndicatorKeys(out);
    }
  }

  /** The regional row made from one merged region. */
  lemma MergedIndicator(rs: seq<Record>, refs: seq<TargetRow>, x: (GroupRow, TargetRow))
    requires x in InnerMerge(GroupBy(rs, RegionLevel), refs, TargetName)
    ensures var row := Indicator(x.0, x.1.target, None);
            && (exists r :: r in rs && r.region == row.key)
            && TargetRow(row.key, row.target) in refs
            && row == Indicator(Summarise(rs, RegionLevel, row.key), row.target, None)
  {
    MergedRow(rs, RegionLevel, refs, TargetName, x);
    assert x.1 == TargetRow(x.0.key, x.1.target);
  }

  lemma RegionComplete(rs: seq<Record>, refs: seq<TargetRow>, r: Record, t: TargetRow)
    requires r in rs && t in refs && t.name == r.region
    ensures Indicator(Summarise(rs, RegionLevel, r.region), t.target, None) in RegionIndicators(rs, refs)
  {
    var m := InnerMerge(GroupBy(rs, RegionLevel), refs, TargetName);
    var out := RegionIndicators(rs, refs);
    MergeComplete(rs, RegionLevel, refs, TargetName, r, t);
    var i :| 0 <= i < |m| && m[i] == (Summarise(rs, RegionLevel, r.region), t);
    assert out[i] in out;
  }

  // ---------------------------------------------------------------------
  // Attaching the parent unit (left merge with distinct label pairs)

  /** `combined_data[[child, parent]].drop_duplicates()`: the distinct
      (label, parent label) pairs of the records, first occurrences in order. */
  function ParentPairs(rs: seq<Record>, child: Level, parent: Level): seq<(string, string)> {
    Distinct(seq(|rs|, i requires 0 <= i < |rs| => (Key(rs[i], child), Key(rs[i], parent))))
  }

  /** The parent labels the pair table holds for label `k`, in pair order. */
  function ParentsOf(pairs: seq<(string, string)>, k: string): (ps: seq<string>)
    ensures forall q :: q in ps <==> (k, q) in pairs
  {
    if pairs == [] then []
    else
      assert pairs == [pairs[0]] + pairs[1..];
      (if pairs[0].0 == k then [pairs[0].1] else []) + ParentsOf(pairs[1..], k)
  }

  /** One merged row after the left merge: a row per matching pair, or one row
      with a missing parent when no pair matches. */
  function Attach<R>(p: (GroupRow, R), ps: seq<string>): seq<(GroupRow, R, Option<string>)> {
    if ps == [] then [(p.0, p.1, None)]
    else seq(|ps|, j requires 0 <= j < |ps| => (p.0, p.1, Some(ps[j])))
  }

  /** `table.merge(pairs, on=label, how='left')`. */
  function LeftAttach<R>(m: seq<(GroupRow, R)>, pairs: seq<(string, string)>): seq<(GroupRow, R, Option<string>)> {
    if m == [] then [] else Attach(m[0], ParentsOf(pairs, m[0].0.key)) + LeftAttach(m[1..], pairs)
  }

  /** Every label of a level has a single parent label in the records: each
      province lies in one region, each circle in one province. */
  predicate Nested(rs: seq<Record>, child: Level, parent: Level) {
    forall i, j :: 0 <= i < |rs| && 0 <= j < |rs| && Key(rs[i], child) == Key(rs[j], child) ==>
      Key(rs[i], parent) == Key(rs[j], parent)
  }

  lemma {:induction false} ParentsOfNoDuplicates(pairs: seq<(string, string)>, k: string)
    requires NoDuplicates(pairs)
    ensures NoDuplicates(ParentsOf(pairs, k))
  {
    if pairs != [] {
      var rest := pairs[1..];
      assert NoDuplicates(rest) by {
        forall i, j | 0 <= i < j < |rest| ensures rest[i] != rest[j] { assert pairs[i + 1] != pairs[j + 1]; }
      }
      ParentsOfNoDuplicates(rest, k);
      var tail := ParentsOf(rest, k);
      if pairs[0].0 == k {
        forall i | 0 <= i < |tail| ensures tail[i] != pairs[0].1 {
          assert tail[i] in tail;
          var j :| 0 <= j < |rest| && rest[j] == (k, tail[i]);
          assert pairs[j + 1] != pairs[0];
        }
        var all := [pairs[0].1] + tail;
        forall i, j | 0 <= i < j < |all| ensures all[i] != all[j] {
          assert all[j] == tail[j - 1];
          if i > 0 { assert all[i] == tail[i - 1]; }
        }
      } else {
        assert ParentsOf(pairs, k) == tail;
      }
    }
  }

  /** The parents offered for a label are exactly the parent labels of its
      records, each once; so the left merge repeats a unit once per distinct
      parent it has in the records, and only a nested hierarchy gives it a
      single row. */
  lemma ParentsOfRecords(rs: seq<Record>, child: Level, parent: Level, k: string)
    ensures NoDuplicates(ParentsOf(ParentPairs(rs, child, parent), k))
    ensures forall q :: q in ParentsOf(ParentPairs(rs, child, parent), k) <==>
              exists r :: r in rs && Key(r, child) == k && Key(r, parent) == q
    ensures forall r :: r in rs && Key(r, child) == k && Nested(rs, child, parent) ==>
              ParentsOf(ParentPairs(rs, child, parent), k) == [Key(r, parent)]
  {
    var raw := seq(|rs|, i requires 0 <= i < |rs| => (Key(rs[i], child), Key(rs[i], parent)));
    var ps := ParentsOf(ParentPairs(rs, child, parent), k);
    DistinctSpec(raw);
    ParentsOfNoDuplicates(ParentPairs(rs, child, parent), k);
    forall q ensures q in ps <==> exists r :: r in rs && Key(r, child) == k && Key(r, parent) == q {
      if q in ps {
        var i :| 0 <= i < |raw| && raw[i] == (k, q);
        assert rs[i] in rs;
      }
      if exists r :: r in rs && Key(r, child) == k && Key(r, parent) == q {
        var r :| r in rs && Key(r, child) == k && Key(r, parent) == q;
        var i :| 0 <= i < |rs| && rs[i] == r;
        assert raw[i] == (k, q);
      }
    }
    forall r | r in rs && Key(r, child) == k && Nested(rs, child, parent)
      ensures ps == [Key(r, parent)]
    {
      var i :| 0 <= i < |rs| && rs[i] == r;
      assert Key(r, parent) in ps;
      forall j | 0 <= j < |ps| ensures ps[j] == Key(r, parent) {
        assert ps[j] in ps;
        var r' :| r' in rs && Key(r', child) == k && Key(r', parent) == ps[j];
        var i' :| 0 <= i' < |rs| && rs[i'] == r';
      }
      assert (set y | y in ps) == {Key(r, parent)};
      DistinctCardinality(ps);
    }
  }

  /** The rows one merged row becomes: its unit's parents, or one row with a
      missing parent when it has none. */
  lemma AttachSpec<R(!new)>(p: (GroupRow, R), ps: seq<string>)
    ensures forall x :: x in Attach(p, ps) ==>
              (x.0, x.1) == p && (x.2 == None <==> ps == []) && (x.2.Some? ==> x.2.value in ps)
    ensures forall q :: q in ps ==> (p.0, p.1, Some(q)) in Attach(p, ps)
  {
    var head := Attach(p, ps);
    forall x | x in head ensures (x.0, x.1) == p && (x.2 == None <==> ps == []) && (x.2.Some? ==> x.2.value in ps) {
      if ps != [] {
        var j :| 0 <= j < |head| && head[j] == x;
        assert x == (p.0, p.1, Some(ps[j]));
      }
    }
    forall q | q in ps ensures (p.0, p.1, Some(q)) in head {
      var j :| 0 <= j < |ps| && ps[j] == q;
      assert head[j] == (p.0, p.1, Some(q));
    }
  }

  /** The left merge keeps every merged row and adds only parents from the
      pair table: a row's parent is missing exactly when no pair names its
      unit, and every matching pair yields a row. */
  lemma {:induction false} LeftAttachSpec<R(!new)>(m: seq<(GroupRow, R)>, pairs: seq<(string, string)>)
    ensures forall x :: x in LeftAttach(m, pairs) ==>
              (x.0, x.1) in m
              && (x.2 == None <==> ParentsOf(pairs, x.0.key) == [])
              && (x.2.Some? ==> x.2.value in ParentsOf(pairs, x.0.key))
    ensures forall p, q :: p in m && q in ParentsOf(pairs, p.0.key) ==> (p.0, p.1, Some(q)) in LeftAttach(m, pairs)
  {
    if m != [] {
      var rest := m[1..];
      LeftAttachSpec(rest, pairs);
      AttachSpec(m[0], ParentsOf(pairs, m[0].0.key));
      assert LeftAttach(m, pairs) == Attach(m[0], ParentsOf(pairs, m[0].0.key)) + LeftAttach(rest, pairs);
      assert m == [m[0]] + rest;
    }
  }

  /** When every unit has one parent the left merge changes neither the
      length nor the order. */
  lemma {:induction false} LeftAttachOneParent<R(!new)>(m: seq<(GroupRow, R)>, pairs: seq<(string, string)>)
    requires forall i :: 0 <= i < |m| ==> |ParentsOf(pairs, m[i].0.key)| == 1
    ensures |LeftAttach(m, pairs)| == |m|
    ensures forall i :: 0 <= i < |m| ==> LeftAttach(m, pairs)[i].0 == m[i].0 && LeftAttach(m, pairs)[i].1 == m[i].1
  {
    if m != [] {
      var rest := m[1..];
      forall i | 0 <= i < |rest| ensures |ParentsOf(pairs, rest[i].0.key)| == 1 { assert rest[i] == m[i + 1]; }
      LeftAttachOneParent(rest, pairs);
      var head := Attach(m[0], ParentsOf(pairs, m[0].0.key));
      var tail := LeftAttach(rest, pairs);
      assert |ParentsOf(pairs, m[0].0.key)| == 1;
      assert LeftAttach(m, pairs) == head + tail;
      forall i | 0 <= i < |m|
        ensures LeftAttach(m, pairs)[i].0 == m[i].0 && LeftAttach(m, pairs)[i].1 == m[i].1
      {
        if i > 0 { assert LeftAttach(m, pairs)[i] == tail[i - 1] && m[i] == rest[i - 1]; }
      }
    }
  }

  /** Facts shared by the provincial and circle tables: every attached row
      pairs a unit's aggregate with a reference row of its name and with a
      parent that some record of the unit carries (never a missing one), and
      every record whose unit has a reference row contributes its parent. */
  lemma AttachedRow<R(!new)>(rs: seq<Record>, child: Level, parent: Level, refs: seq<R>, nameOf: R -> string,
                             x: (GroupRow, R, Option<string>))
    requires x in LeftAttach(InnerMerge(GroupBy(rs, child), refs, nameOf), ParentPairs(rs, child, parent))
    ensures x.0 == Summarise(rs, child, x.0.key)
    ensures x.1 in refs && nameOf(x.1) == x.0.key
    ensures x.2.Some? && exists r :: r in rs && Key(r, child) == x.0.key && Key(r, parent) == x.2.value
  {
    var m := InnerMerge(GroupBy(rs, child), refs, nameOf);
    LeftAttachSpec(m, ParentPairs(rs, child, parent));
    MergedRow(rs, child, refs, nameOf, (x.0, x.1));
    ParentsOfRecords(rs, child, parent, x.0.key);
    var r :| r in rs && Key(r, child) == x.0.key;
    assert Key(r, parent) in ParentsOf(ParentPairs(rs, child, parent), x.0.key);
  }

  lemma AttachComplete<R(!new)>(rs: seq<Record>, child: Level, parent: Level, refs: seq<R>, nameOf: R -> string,
                                r: Record, t: R)
    requires r in rs && t in refs && nameOf(t) == Key(r, child)
    ensures (Summarise(rs, child, Key(r, child)), t, Some(Key(r, parent)))
            in LeftAttach(InnerMerge(GroupBy(rs, child), refs, nameOf), ParentPairs(rs, child, parent))
  {
    var m := InnerMerge(GroupBy(rs, child), refs, nameOf);
    MergeComplete(rs, child, refs, nameOf, r, t);
    ParentsOfRecords(rs, child, parent, Key(r, child));
    LeftAttachSpec(m, ParentPairs(rs, child, parent));
    assert Summarise(rs, child, Key(r, child)).key == Key(r, child);
  }

  /** In a nested hierarchy with distinct reference names, the attached table
      still lists each unit once, in sorted order. */
  lemma AttachSorted<R(!new)>(rs: seq<Record>, child: Level, parent: Level, refs: seq<R>, nameOf: R -> string)
    requires Nested(rs, child, parent) && NoDuplicates(Names(refs, nameOf))
    ensures var a := LeftAttach(InnerMerge(GroupBy(rs, child), refs, nameOf), ParentPairs(rs, child, parent));
            StrictlySorted(seq(|a|, i requires 0 <= i < |a| => a[i].0.key), Text.LexLess)
  {
    var m := InnerMerge(GroupBy(rs, child), refs, nameOf);
    var pairs := ParentPairs(rs, child, parent);
    forall i | 0 <= i < |m| ensures |ParentsOf(pairs, m[i].0.key)| == 1 {
      assert m[i] in m;
      MergedRow(rs, child, refs, nameOf, m[i]);
      var r :| r in rs && Key(r, child) == m[i].0.key;
      ParentsOfRecords(rs, child, parent, m[i].0.key);
    }
    LeftAttachOneParent(m, pairs);
    MergeSorted(rs, child, refs, nameOf);
    var a := LeftAttach(m, pairs);
    assert seq(|a|, i requires 0 <= i < |a| => a[i].0.key) == MergedKeys(m);
  }

  // ---------------------------------------------------------------------
  // Provincial and circle tables

  /** The province table of the provincial view before formatting. */
  function ProvinceIndicators(rs: seq<Record>, refs: seq<TargetRow>): seq<IndicatorRow> {
    var a := LeftAttach(InnerMerge(GroupBy(rs, ProvinceLevel), refs, TargetName),
                        ParentPairs(rs, ProvinceLevel, RegionLevel));
    seq(|a|, i requires 0 <= i < |a| => Indicator(a[i].0, a[i].1.target, a[i].2))
  }

  /** Every provincial row is the aggregate of a province present in the
      records and in the reference table, shown with a region that one of its
      records carries; every (province, region) pair of the records whose
      province has a reference row is shown. In a nested hierarchy with
      distinct reference names each province appears once, in sorted order. */
  lemma ProvinceIndicatorsSpec(rs: seq<Record>, refs: seq<TargetRow>)
    ensures forall i :: 0 <= i < |ProvinceIndicators(rs, refs)| ==>
              var row := ProvinceIndicators(rs, refs)[i];
              && row.parent.Some?
              && (exists r :: r in rs && r.province == row.key && r.region == row.parent.value)
              && TargetRow(row.key, row.target) in refs
              && row == Indicator(Summarise(rs, ProvinceLevel, row.key), row.target, row.parent)
    ensures forall r, t :: r in rs && t in refs && t.name == r.province ==>
              Indicator(Summarise(rs, ProvinceLevel, r.province), t.target, Some(r.region)) in ProvinceIndicators(rs, refs)
    ensures Nested(rs, ProvinceLevel, RegionLevel) && NoDuplicates(Names(refs, TargetName)) ==>
              StrictlySorted(IndicatorKeys(ProvinceIndicators(rs, refs)), Text.LexLess)
  {
    var a := LeftAttach(InnerMerge(GroupBy(rs, ProvinceLevel), refs, TargetName),
                        ParentPairs(rs, ProvinceLevel, RegionLevel));
    var out := ProvinceIndicators(rs, refs);
    forall i | 0 <= i < |out|
      ensures out[i].parent.Some?
              && (exists r :: r in rs && r.province == out[i].key && r.region == out[i].parent.value)
              && TargetRow(out[i].key, out[i].target) in refs
              && out[i] == Indicator(Summarise(rs, ProvinceLevel, out[i].key), out[i].target, out[i].parent)
    {
      assert a[i] in a;
      AttachedProvince(rs, refs, a[i]);
    }
    forall r, t | r in rs && t in refs && t.name == r.province
      ensures Indicator(Summarise(rs, ProvinceLevel, r.province), t.target, Some(r.region)) in out
    {
      ProvinceComplete(rs, refs, r, t);
    }
    if Nested(rs, ProvinceLevel, RegionLevel) && NoDuplicates(Names(refs, TargetName)) {
      AttachSorted(rs, ProvinceLevel, RegionLevel, refs, TargetName);
      assert seq(|a|, i requires 0 <= i < |a| => a[i].0.key) == IndicatorKeys(out);
    }
  }

  /** The provincial row made from one attached province. */
  lemma AttachedProvince(rs: seq<Record>, refs: seq<TargetRow>, x: (GroupRow, TargetRow, Option<string>))
    requires x in LeftAttach(InnerMerge(GroupBy(rs, ProvinceLevel), refs, TargetName),
                             ParentPairs(rs, ProvinceLevel, RegionLevel))
    ensures var row := Indicator(x.0, x.1.target, x.2);
            && row.parent.Some?
            && (exists r :: r in rs && r.province == row.key && r.region == row.parent.value)
            && TargetRow(row.key, row.target) in refs
            && row == Indicator(Summarise(rs, ProvinceLevel, row.key), row.target, row.parent)
  {
    AttachedRow(rs, ProvinceLevel, RegionLevel, refs, TargetName, x);
    assert x.1 == TargetRow(x.0.key, x.1.target);
  }

  lemma ProvinceComplete(rs: seq<Record>, refs: seq<TargetRow>, r: Record, t: TargetRow)
    requires r in rs && t in refs && t.name == r.province
    ensures Indicator(Summarise(rs, ProvinceLevel, r.province), t.target, Some(r.region)) in ProvinceIndicators(rs, refs)
  {
    var a := LeftAttach(InnerMerge(GroupBy(rs, ProvinceLevel), refs, TargetName),
                        ParentPairs(rs, ProvinceLevel, RegionLevel));
    var out := ProvinceIndicators(rs, refs);
    AttachComplete(rs, ProvinceLevel, RegionLevel, refs, TargetName, r, t);
    var i :| 0 <= i < |a| && a[i] == (Summarise(rs, ProvinceLevel, r.province), t, Some(r.region));
    assert out[i] in out;
  }

  /** The province column of the circle view: `province_label_x` (the
      reference table's) when `circles_data` has its own `province_label`,
      otherwise the one attached from the records. */
  function CircleParent(c: CircleRef, attached: Option<string>, hasProvince: bool): Option<string> {
    if hasProvince then Some(c.province) else attached
  }

  /** The circle table of the circle view before formatting (the records'
      circle labels already stripped). */
  function CircleIndicators(rs: seq<Record>, refs: CircleRefTable): seq<IndicatorRow> {
    var a := LeftAttach(InnerMerge(GroupBy(rs, CircleLevel), refs.rows, CircleName),
                        ParentPairs(rs, CircleLevel, ProvinceLevel));
    seq(|a|, i requires 0 <= i < |a| =>
      Indicator(a[i].0, a[i].1.target, CircleParent(a[i].1, a[i].2, refs.hasProvince)))
  }

  /** Every circle row is the aggregate of a circle present in the records
      and in the reference table; its province is the reference row's when
      the reference table has one, and otherwise a province one of the
      circle's records carries. Every (circle, province) pair of the records
      whose circle has a reference row yields a row. In a nested hierarchy
      with distinct reference names each circle appears once, in sorted order. */
  lemma CircleIndicatorsSpec(rs: seq<Record>, refs: CircleRefTable)
    ensures forall i :: 0 <= i < |CircleIndicators(rs, refs)| ==>
              var row := CircleIndicators(rs, refs)[i];
              && row.parent.Some?
              && (refs.hasProvince ==> CircleRef(row.key, row.target, row.parent.value) in refs.rows)
              && (!refs.hasProvince ==> exists r :: r in rs && r.circle == row.key && r.province == row.parent.value)
              && (exists c :: c in refs.rows && c.name == row.key && c.target == row.target)
              && row == Indicator(Summarise(rs, CircleLevel, row.key), row.target, row.parent)
    ensures forall r, c :: r in rs && c in refs.rows && c.name == r.circle ==>
              Indicator(Summarise(rs, CircleLevel, r.circle), c.target,
                        Some(if refs.hasProvince then c.province else r.province)) in CircleIndicators(rs, refs)
    ensures Nested(rs, CircleLevel, ProvinceLevel) && NoDuplicates(Names(refs.rows, CircleName)) ==>
              StrictlySorted(IndicatorKeys(CircleIndicators(rs, refs)), Text.LexLess)
  {
    var a := LeftAttach(InnerMerge(GroupBy(rs, CircleLevel), refs.rows, CircleName),
                        ParentPairs(rs, CircleLevel, ProvinceLevel));
    var out := CircleIndicators(rs, refs);
    forall i | 0 <= i < |out|
      ensures out[i].parent.Some?
              && (refs.hasProvince ==> CircleRef(out[i].key, out[i].target, out[i].parent.value) in refs.rows)
              && (!refs.hasProvince ==> exists r :: r in rs && r.circle == out[i].key && r.province == out[i].parent.value)
              && (exists c :: c in refs.rows && c.name == out[i].key && c.target == out[i].target)
              && out[i] == Indicator(Summarise(rs, CircleLevel, out[i].key), out[i].target, out[i].parent)
    {
      CircleRow(rs, refs, i);
    }
    forall r, c | r in rs && c in refs.rows && c.name == r.circle
      ensures Indicator(Summarise(rs, CircleLevel, r.circle), c.target,
                        Some(if refs.hasProvince then c.province else r.province)) in out
    {
      CircleComplete(rs, refs, r, c);
    }
    if Nested(rs, CircleLevel, ProvinceLevel) && NoDuplicates(Names(refs.rows, CircleName)) {
      CircleSorted(rs, refs);
    }
  }

  lemma CircleComplete(rs: seq<Record>, refs: CircleRefTable, r: Record, c: CircleRef)
    requires r in rs && c in refs.rows && c.name == r.circle
    ensures Indicator(Summarise(rs, CircleLevel, r.circle), c.target,
                      Some(if refs.hasProvince then c.province else r.province)) in CircleIndicators(rs, refs)
  {
    var a := LeftAttach(InnerMerge(GroupBy(rs, CircleLevel), refs.rows, CircleName),
                        ParentPairs(rs, CircleLevel, ProvinceLevel));
    var out := CircleIndicators(rs, refs);
    AttachComplete(rs, CircleLevel, ProvinceLevel, refs.rows, CircleName, r, c);
    var i :| 0 <= i < |a| && a[i] == (Summarise(rs, CircleLevel, r.circle), c, Some(r.province));
    assert out[i] in out;
  }

  lemma CircleSorted(rs: seq<Record>, refs: CircleRefTable)
    requires Nested(rs, CircleLevel, ProvinceLevel) && NoDuplicates(Names(refs.rows, CircleName))
    ensures StrictlySorted(IndicatorKeys(CircleIndicators(rs, refs)), Text.LexLess)
  {
    var a := LeftAttach(InnerMerge(GroupBy(rs, CircleLevel), refs.rows, CircleName),
                        ParentPairs(rs, CircleLevel, ProvinceLevel));
    AttachSorted(rs, CircleLevel, ProvinceLevel, refs.rows, CircleName);
    assert seq(|a|, i requires 0 <= i < |a| => a[i].0.key) == IndicatorKeys(CircleIndicators(rs, refs));
  }

  lemma CircleRow(rs: seq<Record>, refs: CircleRefTable, i: nat)
    requires i < |CircleIndicators(rs, refs)|
    ensures var row := CircleIndicators(rs, refs)[i];
            && row.parent.Some?
            && (refs.hasProvince ==> CircleRef(row.key, row.target, row.parent.value) in refs.rows)
            && (!refs.hasProvince ==> exists r :: r in rs && r.circle == row.key && r.province == row.parent.value)
            && (exists c :: c in refs.rows && c.name == row.key && c.target == row.target)
            && row == Indicator(Summarise(rs, CircleLevel, row.key), row.target, row.parent)
  {
    var a := LeftAttach(InnerMerge(GroupBy(rs, CircleLevel), refs.rows, CircleName),
                        ParentPairs(rs, CircleLevel, ProvinceLevel));
    var x := a[i];
    assert x in a;
    AttachedIndicator(rs, refs, x);
  }

  /** The indicator row made from one attached circle row. */
  lemma AttachedIndicator(rs: seq<Record>, refs: CircleRefTable, x: (GroupRow, CircleRef, Option<string>))
    requires x in LeftAttach(InnerMerge(GroupBy(rs, CircleLevel), refs.rows, CircleName),
                             ParentPairs(rs, CircleLevel, ProvinceLevel))
    ensures var row := Indicator(x.0, x.1.target, CircleParent(x.1, x.2, refs.hasProvince));
            && row.parent.Some?
            && (refs.hasProvince ==> CircleRef(row.key, row.target, row.parent.value) in refs.rows)
            && (!refs.hasProvince ==> exists r :: r in rs && r.circle == row.key && r.province == row.parent.value)
            && (exists c :: c in refs.rows && c.name == row.key && c.target == row.target)
            && row == Indicator(Summarise(rs, CircleLevel, row.key), row.target, row.parent)
  {
    AttachedRow(rs, CircleLevel, ProvinceLevel, refs.rows, CircleName, x);
    var row := Indicator(x.0, x.1.target, CircleParent(x.1, x.2, refs.hasProvince));
    if refs.hasProvince {
      assert x.1 == CircleRef(row.key, row.target, row.parent.value);
    }
    assert x.1 in refs.rows && x.1.name == row.key;
  }

  /** Reference rows with the circle label stripped and nothing else changed. */
  function StripNames(cs: seq<CircleRef>): (out: seq<CircleRef>)
    ensures |out| == |cs|
    ensures forall i :: 0 <= i < |cs| ==> out[i] == cs[i].(name := Text.Strip(cs[i].name))
  {
    seq(|cs|, i requires 0 <= i < |cs| => cs[i].(name := Text.Strip(cs[i].name)))
  }

  /** The table `circles_data`, whose circle labels the circle view rewrites
      in place. */
  class CircleTable {
    var rows: seq<CircleRef>
    var hasProvince: bool

    constructor (t: CircleRefTable)
      ensures Contents() == t
    {
      rows := t.rows;
      hasProvince := t.hasProvince;
    }

    function Contents(): CircleRefTable
      reads this
    {
      CircleRefTable(rows, hasProvince)
    }

    /** `circles_data['cldh_label'] = circles_data['cldh_label'].astype(str).str.strip()`. */
    method StripLabels()
      modifies this
      ensures hasProvince == old(hasProvince)
      ensures |rows| == |old(rows)|
      ensures forall i :: 0 <= i < |rows| ==> rows[i] == old(rows)[i].(name := Text.Strip(old(rows)[i].name))
    {
      rows := StripNames(rows);
    }
  }
}
