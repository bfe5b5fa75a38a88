/** Submission records (the rows of `combined_data`) and the counts every
    indicator is built from. */
module Records {
  import opened Order
  import Text

  /** A cluster (`grappe`) identifier. */
  type ClusterId = int

  /** One field visit: its submission day (a day number), its cluster, its
      survey flag (`expra`: 1 household survey, 0 census-only visit) and its
      region, province and circle (`cldh_label`) labels. */
  datatype Record = Record(date: int, grappe: ClusterId, expra: int,
                           region: string, province: string, circle: string)

  /** The three geographic levels the dashboard groups by. */
  datatype Level = RegionLevel | ProvinceLevel | CircleLevel

  /** The grouping column of a level: `region_label`, `province_label`, `cldh_label`. */
  function Key(r: Record, level: Level): string {
    match level
    case RegionLevel => r.region
    case ProvinceLevel => r.province
    case CircleLevel => r.circle
  }

  /** Every flag is 0 or 1, as the data collection promises. */
  predicate FlagsBinary(rs: seq<Record>) {
    forall i :: 0 <= i < |rs| ==> rs[i].expra == 0 || rs[i].expra == 1
  }

  /** `(x == flag).sum()`: the number of records whose `expra` equals `flag`. */
  function CountFlag(rs: seq<Record>, flag: int): (n: nat)
    ensures n <= |rs|
  {
    if rs == [] then 0
    else CountFlag(rs[..|rs| - 1], flag) + (if rs[|rs| - 1].expra == flag then 1 else 0)
  }

  /** Flag-1 and flag-0 records together are at most all the records. */
  lemma {:induction false} FlagCountsBound(rs: seq<Record>)
    ensures CountFlag(rs, 1) + CountFlag(rs, 0) <= |rs|
  {
    if rs != [] { FlagCountsBound(rs[..|rs| - 1]); }
  }

  /** `combined_data['expra'].sum()`. */
  function SumExpra(rs: seq<Record>): int {
    if rs == [] then 0 else SumExpra(rs[..|rs| - 1]) + rs[|rs| - 1].expra
  }

  /** With binary flags the sum of `expra` is the number of household surveys,
      and surveys plus census-only visits account for every record. */
  lemma {:induction false} SumIsSurveyCount(rs: seq<Record>)
    requires FlagsBinary(rs)
    ensures SumExpra(rs) == CountFlag(rs, 1)
    ensures CountFlag(rs, 1) + CountFlag(rs, 0) == |rs|
  {
    if rs != [] {
      var init := rs[..|rs| - 1];
      assert FlagsBinary(init) by {
        forall i | 0 <= i < |init| ensures init[i].expra == 0 || init[i].expra == 1 { assert init[i] == rs[i]; }
      }
      SumIsSurveyCount(init);
    }
  }

  /** The distinct clusters of a set of records: `nunique` of `grappe`. */
  function Grappes(rs: seq<Record>): set<ClusterId> {
    set r | r in rs :: r.grappe
  }

  /** The records of one group, in their original order. */
  function Members(rs: seq<Record>, level: Level, k: string): (m: seq<Record>)
    ensures |m| <= |rs|
    ensures forall r :: r in m <==> r in rs && Key(r, level) == k
  {
    if rs == [] then []
    else
      var init := rs[..|rs| - 1];
      var last := rs[|rs| - 1];
      assert rs == init + [last];
      Members(init, level, k) + (if Key(last, level) == k then [last] else [])
  }

  /** The group label of every record, in record order. */
  function Labels(rs: seq<Record>, level: Level): seq<string> {
    seq(|rs|, i requires 0 <= i < |rs| => Key(rs[i], level))
  }

  /** The group keys of `groupby(label)`: the distinct labels, sorted. */
  function GroupKeys(rs: seq<Record>, level: Level): seq<string> {
    SortedKeys(Labels(rs, level), Text.LexLess)
  }

  /** Every record's label is a group key exactly once, and no key lacks records. */
  lemma GroupKeysSpec(rs: seq<Record>, level: Level)
    ensures StrictlySorted(GroupKeys(rs, level), Text.LexLess)
    ensures NoDuplicates(GroupKeys(rs, level))
    ensures forall r :: r in rs ==> Key(r, level) in GroupKeys(rs, level)
    ensures forall k :: k in GroupKeys(rs, level) ==> Members(rs, level, k) != []
  {
    Text.LexIsStrictTotalOrder();
    SortedKeysSpec(Labels(rs, level), Text.LexLess);
    var ls := Labels(rs, level);
    forall r | r in rs ensures Key(r, level) in ls {
      var i :| 0 <= i < |rs| && rs[i] == r;
      assert ls[i] == Key(r, level);
    }
    forall k | k in GroupKeys(rs, level) ensures Members(rs, level, k) != [] {
      var i :| 0 <= i < |ls| && ls[i] == k;
      assert rs[i] in Members(rs, level, k);
    }
  }

  /** The summed count of `flag` records over the groups named by `keys`. */
  function SumOverKeys(rs: seq<Record>, level: Level, keys: seq<string>, flag: int): nat {
    if keys == [] then 0
    else CountFlag(Members(rs, level, keys[0]), flag) + SumOverKeys(rs, level, keys[1..], flag)
  }

  /** Appending a record adds it to its own group's count and no other. */
  lemma CountSnoc(rs: seq<Record>, r: Record, level: Level, k: string, flag: int)
    ensures CountFlag(Members(rs + [r], level, k), flag)
            == CountFlag(Members(rs, level, k), flag) + (if Key(r, level) == k && r.expra == flag then 1 else 0)
  {
    var rs' := rs + [r];
    assert rs'[..|rs'| - 1] == rs;
    var m := Members(rs, level, k);
    assert Members(rs', level, k) == m + (if Key(r, level) == k then [r] else []);
    if Key(r, level) == k {
      assert (m + [r])[..|m + [r]| - 1] == m;
    } else {
      assert m + [] == m;
    }
  }

  lemma {:induction false} SumOverKeysSnoc(rs: seq<Record>, r: Record, level: Level, keys: seq<string>, flag: int)
    requires NoDuplicates(keys)
    ensures SumOverKeys(rs + [r], level, keys, flag)
            == SumOverKeys(rs, level, keys, flag) + (if Key(r, level) in keys && r.expra == flag then 1 else 0)
  {
    if keys != [] {
      NoDuplicatesTail(keys);
      SumOverKeysSnoc(rs, r, level, keys[1..], flag);
      CountSnoc(rs, r, level, keys[0], flag);
    }
  }

  /** Grouping partitions the records: over a duplicate-free list of keys that
      covers every record's label, the per-group counts add up to the total. */
  lemma {:induction false} PartitionCount(rs: seq<Record>, level: Level, keys: seq<string>, flag: int)
    requires NoDuplicates(keys)
    requires forall r :: r in rs ==> Key(r, level) in keys
    ensures SumOverKeys(rs, level, keys, flag) == CountFlag(rs, flag)
  {
    if rs == [] {
      EmptySums(level, keys, flag);
    } else {
      var init, last := rs[..|rs| - 1], rs[|rs| - 1];
      assert rs == init + [last];
      PartitionCount(init, level, keys, flag);
      SumOverKeysSnoc(init, last, level, keys, flag);
    }
  }

  lemma {:induction false} EmptySums(level: Level, keys: seq<string>, flag: int)
    ensures SumOverKeys([], level, keys, flag) == 0
  {
    if keys != [] { EmptySums(level, keys[1..], flag); }
  }

  /** The table `combined_data`, whose columns the dashboard rewrites in place. */
  class RecordTable {
    var rows: seq<Record>

    constructor (rows: seq<Record>)
      ensures this.rows == rows
    {
      this.rows := rows;
    }

    /** `combined_data['cldh_label'] = combined_data['cldh_label'].astype(str).str.strip()`. */
    method StripCircleLabels()
      modifies this
      ensures |rows| == |old(rows)|
      ensures forall i :: 0 <= i < |rows| ==> rows[i] == old(rows)[i].(circle := Text.Strip(old(rows)[i].circle))
    {
      rows := StripCircles(rows);
    }
  }

  /** Records with the circle label stripped and every other field unchanged. */
  function StripCircles(rs: seq<Record>): (out: seq<Record>)
    ensures |out| == |rs|
    ensures forall i :: 0 <= i < |rs| ==> out[i] == rs[i].(circle := Text.Strip(rs[i].circle))
  {
    seq(|rs|, i requires 0 <= i < |rs| => rs[i].(circle := Text.Strip(rs[i].circle)))
  }

  /** The strip is idempotent, so a second pass over the shared table (the
      circle view shown again) finds nothing left to change. */
  lemma StripCirclesIdempotent(rs: seq<Record>)
    ensures StripCircles(StripCircles(rs)) == StripCircles(rs)
  {
    forall i | 0 <= i < |rs| ensures StripCircles(StripCircles(rs))[i] == StripCircles(rs)[i] {
      Text.StripIdempotent(rs[i].circle);
    }
  }
}
