/** Orders and duplicate removal, as pandas uses them when it groups rows
    (sorted distinct keys) and when it drops duplicate rows (first occurrence
    kept, original order). */
module Order {

  /** `lt` is irreflexive, transitive and total on distinct values. */
  ghost predicate IsStrictTotalOrder<T(!new)>(lt: (T, T) -> bool) {
    && (forall a :: !lt(a, a))
    && (forall a, b, c :: lt(a, b) && lt(b, c) ==> lt(a, c))
    && (forall a, b :: a != b ==> lt(a, b) || lt(b, a))
  }

  predicate StrictlySorted<T>(s: seq<T>, lt: (T, T) -> bool) {
    forall i, j :: 0 <= i < j < |s| ==> lt(s[i], s[j])
  }

  predicate NoDuplicates<T(==)>(s: seq<T>) {
    forall i, j :: 0 <= i < j < |s| ==> s[i] != s[j]
  }

  /** Adds `x` to a sorted sequence of distinct keys (nothing if present). */
  function Insert<T(==)>(s: seq<T>, x: T, lt: (T, T) -> bool): seq<T> {
    if s == [] then [x]
    else if x == s[0] then s
    else if lt(x, s[0]) then [x] + s
    else [s[0]] + Insert(s[1..], x, lt)
  }

  lemma {:induction false} InsertSorted<T(!new)>(s: seq<T>, x: T, lt: (T, T) -> bool)
    requires IsStrictTotalOrder(lt) && StrictlySorted(s, lt)
    ensures StrictlySorted(Insert(s, x, lt), lt)
    ensures forall y :: y in Insert(s, x, lt) <==> y in s || y == x
  {
    if s == [] || x == s[0] {
    } else if lt(x, s[0]) {
      var r := Insert(s, x, lt);
      forall i, j | 0 <= i < j < |r| ensures lt(r[i], r[j]) {
        if i > 0 {
          assert r[i] == s[i - 1] && r[j] == s[j - 1];
        } else {
          assert r[j] == s[j - 1];
          if j > 1 { assert lt(s[0], s[j - 1]); }
        }
      }
    } else {
      var t := s[1..];
      assert StrictlySorted(t, lt) by {
        forall i, j | 0 <= i < j < |t| ensures lt(t[i], t[j]) { assert t[i] == s[i + 1] && t[j] == s[j + 1]; }
      }
      InsertSorted(t, x, lt);
      var it := Insert(t, x, lt);
      assert lt(s[0], x);
      forall y | y in it ensures lt(s[0], y) {
        if y != x {
          var k :| 0 <= k < |t| && t[k] == y;
          assert s[k + 1] == y;
        }
      }
      var r := [s[0]] + it;
      forall i, j | 0 <= i < j < |r| ensures lt(r[i], r[j]) {
        if i > 0 {
          assert r[i] == it[i - 1] && r[j] == it[j - 1];
        } else {
          assert r[j] == it[j - 1] && r[j] in it;
        }
      }
      forall y ensures y in r <==> y in s || y == x {
        assert s == [s[0]] + t;
      }
    }
  }

  /** The distinct values of `xs` in increasing order, as the group keys of a
      pandas `groupby` (which sorts its keys by default). */
  function SortedKeys<T(==)>(xs: seq<T>, lt: (T, T) -> bool): seq<T> {
    if xs == [] then [] else Insert(SortedKeys(xs[..|xs| - 1], lt), xs[|xs| - 1], lt)
  }

  lemma {:induction false} SortedKeysSpec<T(!new)>(xs: seq<T>, lt: (T, T) -> bool)
    requires IsStrictTotalOrder(lt)
    ensures StrictlySorted(SortedKeys(xs, lt), lt)
    ensures NoDuplicates(SortedKeys(xs, lt))
    ensures forall y :: y in SortedKeys(xs, lt) <==> y in xs
  {
    if xs != [] {
      var init := xs[..|xs| - 1];
      SortedKeysSpec(init, lt);
      InsertSorted(SortedKeys(init, lt), xs[|xs| - 1], lt);
      assert xs == init + [xs[|xs| - 1]];
    }
    SortedIsDistinct(SortedKeys(xs, lt), lt);
  }

  lemma SortedIsDistinct<T(!new)>(s: seq<T>, lt: (T, T) -> bool)
    requires IsStrictTotalOrder(lt) && StrictlySorted(s, lt)
    ensures NoDuplicates(s)
  {
    forall i, j | 0 <= i < j < |s| ensures s[i] != s[j] {
      assert lt(s[i], s[j]);
    }
  }

  /** `drop_duplicates()`: the first occurrence of each value, in order. */
  function Distinct<T(==)>(s: seq<T>): seq<T> {
    if s == [] then []
    else
      var d := Distinct(s[..|s| - 1]);
      if s[|s| - 1] in d then d else d + [s[|s| - 1]]
  }

  /** A sequence without duplicates: its tail has none, and its head is not
      in its tail. */
  lemma NoDuplicatesTail<T>(keys: seq<T>)
    requires keys != [] && NoDuplicates(keys)
    ensures NoDuplicates(keys[1..]) && keys[0] !in keys[1..]
    ensures forall k :: k in keys <==> k == keys[0] || k in keys[1..]
  {
    var rest := keys[1..];
    forall i, j | 0 <= i < j < |rest| ensures rest[i] != rest[j] { assert rest[i] == keys[i + 1] && rest[j] == keys[j + 1]; }
    forall i | 0 <= i < |rest| ensures rest[i] != keys[0] { assert rest[i] == keys[i + 1]; }
    assert keys == [keys[0]] + rest;
  }

  lemma {:induction false} DistinctSpec<T>(s: seq<T>)
    ensures NoDuplicates(Distinct(s))
    ensures forall y :: y in Distinct(s) <==> y in s
  {
    if s != [] {
      var init := s[..|s| - 1];
      DistinctSpec(init);
      assert s == init + [s[|s| - 1]];
    }
  }

  /** The position of the first occurrence of `y` in `s`. */
  function FirstIndex<T(==)>(s: seq<T>, y: T): (i: nat)
    requires y in s
    ensures i < |s| && s[i] == y && y !in s[..i]
  {
    if s[0] == y then 0
    else
      assert y in s[1..] by { var k :| 0 <= k < |s| && s[k] == y; assert s[1..][k - 1] == y; }
      var j := FirstIndex(s[1..], y);
      assert s[..j + 1] == [s[0]] + s[1..][..j];
      j + 1
  }

  /** A position holding `y` with no earlier `y` is the first occurrence. */
  lemma FirstIndexUnique<T>(s: seq<T>, y: T, i: nat)
    requires i < |s| && s[i] == y && y !in s[..i]
    ensures FirstIndex(s, y) == i
  {
  }

  /** Appending a value leaves the first occurrences of earlier values. */
  lemma FirstIndexSnoc<T>(s: seq<T>, x: T, y: T)
    requires y in s
    ensures y in s + [x] && FirstIndex(s + [x], y) == FirstIndex(s, y)
  {
    var a := FirstIndex(s, y);
    assert (s + [x])[..a] == s[..a];
    FirstIndexUnique(s + [x], y, a);
  }

  /** `drop_duplicates()` lists the values in the order of their first
      occurrence; with DistinctSpec this determines `Distinct(s)` entirely. */
  lemma {:induction false} DistinctOrder<T>(s: seq<T>)
    ensures forall y :: y in Distinct(s) ==> y in s
    ensures forall i, j :: 0 <= i < j < |Distinct(s)| ==>
              FirstIndex(s, Distinct(s)[i]) < FirstIndex(s, Distinct(s)[j])
  {
    DistinctSpec(s);
    if s != [] {
      var init, x := s[..|s| - 1], s[|s| - 1];
      assert s == init + [x];
      var d := Distinct(init);
      DistinctOrder(init);
      DistinctSpec(init);
      forall i, j | 0 <= i < j < |Distinct(s)|
        ensures FirstIndex(s, Distinct(s)[i]) < FirstIndex(s, Distinct(s)[j])
      {
        assert Distinct(s)[i] == d[i];
        FirstIndexSnoc(init, x, d[i]);
        if j < |d| {
          assert Distinct(s)[j] == d[j];
          FirstIndexSnoc(init, x, d[j]);
        } else {
          assert Distinct(s)[j] == x && x !in init;
          assert s[..|s| - 1] == init;
          FirstIndexUnique(s, x, |s| - 1);
        }
      }
    }
  }

  /** A sequence without duplicates has as many elements as its set. */
  lemma {:induction false} DistinctCardinality<T>(s: seq<T>)
    requires NoDuplicates(s)
    ensures |set x | x in s| == |s|
  {
    if s != [] {
      var t := s[1..];
      assert NoDuplicates(t) by {
        forall i, j | 0 <= i < j < |t| ensures t[i] != t[j] { assert t[i] == s[i + 1] && t[j] == s[j + 1]; }
      }
      DistinctCardinality(t);
      assert s[0] !in t by {
        forall k | 0 <= k < |t| ensures t[k] != s[0] { assert t[k] == s[k + 1]; }
      }
      assert (set x | x in s) == (set x | x in t) + {s[0]} by {
        assert s == [s[0]] + t;
      }
    }
  }
}
