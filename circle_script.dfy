/** The scratch script test_cercles.py: the circle labels of both shared
    tables stripped in place, the records grouped by circle, the groups
    inner-merged with the circle reference table, and each merged circle
    given the provinces its records carry by a left merge with the distinct
    (circle, province) pairs. */
module CircleScript {
  import opened Wrappers
  import opened Order
  import opened Records
  import opened Aggregate
  import Text

  /** The script's final `circle_data`: one row per merged circle and
      attached province, holding the circle's counts, its reference row and
      the province. */
  function ScriptTable(rs: seq<Record>, cs: seq<CircleRef>): seq<(GroupRow, CircleRef, Option<string>)> {
    LeftAttach(InnerMerge(GroupBy(rs, CircleLevel), cs, CircleName), ParentPairs(rs, CircleLevel, ProvinceLevel))
  }

  /** Lines 23-37: the two strips rewrite the loaded tables in place, after
      which `circle_data` is reassigned by the grouping, the inner merge and
      the left merge. Its rows, with the two ratios added and the province
      chosen as main.py chooses it, are exactly the rows of the dashboard's
      circle table on the same two tables. */
  method RunScript(records: RecordTable, circles: CircleTable) returns (circleData: seq<(GroupRow, CircleRef, Option<string>)>)
    modifies records, circles
    ensures records.rows == StripCircles(old(records.rows))
    ensures circles.Contents() == CircleRefTable(StripNames(old(circles.rows)), old(circles.hasProvince))
    ensures circleData == ScriptTable(records.rows, circles.rows)
    ensures var main := CircleIndicators(records.rows, circles.Contents());
            && |main| == |circleData|
            && forall i :: 0 <= i < |main| ==>
                 main[i] == Indicator(circleData[i].0, circleData[i].1.target,
                                      CircleParent(circleData[i].1, circleData[i].2, circles.hasProvince))
  {
    ghost var rs0, cs0 := records.rows, circles.rows;
    records.StripCircleLabels();
    assert records.rows == StripCircles(rs0);
    circles.StripLabels();
    assert circles.rows == StripNames(cs0);
    var grouped := GroupBy(records.rows, CircleLevel);
    var merged := InnerMerge(grouped, circles.rows, CircleName);
    circleData := LeftAttach(merged, ParentPairs(records.rows, CircleLevel, ProvinceLevel));
  }

  /** Every row of the script's table is the aggregate of a circle present
      in the records, next to a reference row of that name and a province
      one of the circle's records carries (never a missing one). */
  lemma ScriptRows(rs: seq<Record>, cs: seq<CircleRef>)
    ensures forall x :: x in ScriptTable(rs, cs) ==>
              && x.0 == Summarise(rs, CircleLevel, x.0.key)
              && x.1 in cs && x.1.name == x.0.key
              && x.2.Some? && exists r :: r in rs && r.circle == x.0.key && r.province == x.2.value
  {
    forall x | x in ScriptTable(rs, cs)
      ensures && x.0 == Summarise(rs, CircleLevel, x.0.key)
              && x.1 in cs && x.1.name == x.0.key
              && x.2.Some? && exists r :: r in rs && r.circle == x.0.key && r.province == x.2.value
    {
      AttachedRow(rs, CircleLevel, ProvinceLevel, cs, CircleName, x);
    }
  }

  /** No circle present in both tables is lost: every record whose circle
      has a reference row contributes a row with that circle's counts and the
      record's province. */
  lemma ScriptComplete(rs: seq<Record>, cs: seq<CircleRef>)
    ensures forall r, c :: r in rs && c in cs && c.name == r.circle ==>
              (Summarise(rs, CircleLevel, r.circle), c, Some(r.province)) in ScriptTable(rs, cs)
  {
    forall r, c | r in rs && c in cs && c.name == r.circle
      ensures (Summarise(rs, CircleLevel, r.circle), c, Some(r.province)) in ScriptTable(rs, cs)
    {
      AttachComplete(rs, CircleLevel, ProvinceLevel, cs, CircleName, r, c);
    }
  }

  /** A circle with a reference row is shown with exactly the provinces its
      records carry: a circle whose records name several provinces gets one
      row for each of them. */
  lemma ProvincesOfCircle(rs: seq<Record>, cs: seq<CircleRef>, c: CircleRef)
    requires c in cs
    ensures (set x | x in ScriptTable(rs, cs) && x.0.key == c.name && x.2.Some? :: x.2.value)
            == (set r | r in rs && r.circle == c.name :: r.province)
  {
    var t := ScriptTable(rs, cs);
    var shown := set x | x in t && x.0.key == c.name && x.2.Some? :: x.2.value;
    var carried := set r | r in rs && r.circle == c.name :: r.province;
    ScriptRows(rs, cs);
    ScriptComplete(rs, cs);
    forall q | q in carried ensures q in shown {
      var r :| r in rs && r.circle == c.name && r.province == q;
      assert (Summarise(rs, CircleLevel, r.circle), c, Some(r.province)) in t;
    }
  }

  /** When every circle lies in one province and the reference names are
      distinct, the left merge keeps one row per merged circle and the table
      lists each circle once, in sorted label order. */
  lemma ScriptNested(rs: seq<Record>, cs: seq<CircleRef>)
    requires Nested(rs, CircleLevel, ProvinceLevel) && NoDuplicates(Names(cs, CircleName))
    ensures var t := ScriptTable(rs, cs);
            && |t| == |InnerMerge(GroupBy(rs, CircleLevel), cs, CircleName)|
            && StrictlySorted(seq(|t|, i requires 0 <= i < |t| => t[i].0.key), Text.LexLess)
  {
    var m := InnerMerge(GroupBy(rs, CircleLevel), cs, CircleName);
    var pairs := ParentPairs(rs, CircleLevel, ProvinceLevel);
    forall i | 0 <= i < |m| ensures |ParentsOf(pairs, m[i].0.key)| == 1 {
      assert m[i] in m;
      MergedRow(rs, CircleLevel, cs, CircleName, m[i]);
      var r :| r in rs && Key(r, CircleLevel) == m[i].0.key;
      ParentsOfRecords(rs, CircleLevel, ProvinceLevel, m[i].0.key);
    }
    LeftAttachOneParent(m, pairs);
    AttachSorted(rs, CircleLevel, ProvinceLevel, cs, CircleName);
  }

  /** Two records whose circle labels differ only by surrounding whitespace
      fall into the same circle group once the labels are stripped. */
  lemma PaddedLabelsShareGroup(rs: seq<Record>, i: nat, j: nat, p: string, q: string)
    requires i < |rs| && j < |rs| && Text.AllSpace(p) && Text.AllSpace(q)
    requires rs[j].circle == p + rs[i].circle + q
    ensures var s, k := StripCircles(rs), Text.Strip(rs[i].circle);
            s[i] in Members(s, CircleLevel, k) && s[j] in Members(s, CircleLevel, k)
  {
    Text.StripIgnoresPadding(p, rs[i].circle, q);
    var s := StripCircles(rs);
    assert s[i] in s && s[j] in s;
  }
}
