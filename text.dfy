/** The string operations the pipeline relies on: Python's `str.strip()`,
    the `in` substring test, `str.replace(c, '')` and the code-point order
    Python uses to compare (and pandas to sort) strings. */
module Text {
  import Order

  /** Python's `str.isspace()` for one character: the ASCII controls TAB to CR,
      the information separators 0x1C-0x1F, SPACE, NEL, NO-BREAK SPACE and the
      Unicode space separators and line/paragraph separators. */
  predicate IsSpace(c: char) {
    var n := c as int;
    (9 <= n <= 13) || (28 <= n <= 32) || n == 0x85 || n == 0xA0 || n == 0x1680
    || (0x2000 <= n <= 0x200A) || n == 0x2028 || n == 0x2029 || n == 0x202F
    || n == 0x205F || n == 0x3000
  }

  predicate AllSpace(s: string) {
    forall k :: 0 <= k < |s| ==> IsSpace(s[k])
  }

  /** `str.lstrip()`: drops leading whitespace; the result is a suffix of `s`. */
  function StripLeft(s: string): (r: string)
    ensures r == [] || !IsSpace(r[0])
    ensures |r| <= |s| && r == s[|s| - |r|..]
    ensures AllSpace(s[..|s| - |r|])
  {
    if s != [] && IsSpace(s[0]) then
      var r := StripLeft(s[1..]);
      assert s[1..][..|s[1..]| - |r|] == s[1..|s| - |r|];
      r
    else s
  }

  /** `str.rstrip()`: drops trailing whitespace; the result is a prefix of `s`. */
  function StripRight(s: string): (r: string)
    ensures r == [] || !IsSpace(r[|r| - 1])
    ensures |r| <= |s| && r == s[..|r|]
    ensures AllSpace(s[|r|..])
  {
    if s != [] && IsSpace(s[|s| - 1]) then
      var r := StripRight(s[..|s| - 1]);
      assert s[..|s| - 1][|r|..] + [s[|s| - 1]] == s[|r|..];
      r
    else s
  }

  /** `str.strip()`. */
  function Strip(s: string): (r: string)
    ensures r == [] || (!IsSpace(r[0]) && !IsSpace(r[|r| - 1]))
  {
    StripRight(StripLeft(s))
  }

  lemma {:induction false} StripLeftSpaces(p: string, t: string)
    requires AllSpace(p)
    ensures StripLeft(p + t) == StripLeft(t)
  {
    if p != [] {
      assert (p + t)[0] == p[0] && (p + t)[1..] == p[1..] + t;
      assert AllSpace(p[1..]) by {
        forall k | 0 <= k < |p| - 1 ensures IsSpace(p[1..][k]) { assert p[1..][k] == p[k + 1]; }
      }
      StripLeftSpaces(p[1..], t);
      assert IsSpace(p[0]);
      assert StripLeft(p + t) == StripLeft((p + t)[1..]);
    } else {
      assert p + t == t;
    }
  }

  lemma {:induction false} StripRightSpaces(t: string, q: string)
    requires AllSpace(q)
    ensures StripRight(t + q) == StripRight(t)
  {
    if q != [] {
      assert (t + q)[|t + q| - 1] == q[|q| - 1] && (t + q)[..|t + q| - 1] == t + q[..|q| - 1];
      assert AllSpace(q[..|q| - 1]) by {
        forall k | 0 <= k < |q| - 1 ensures IsSpace(q[k]) { }
      }
      StripRightSpaces(t, q[..|q| - 1]);
      assert IsSpace(q[|q| - 1]);
      assert StripRight(t + q) == StripRight((t + q)[..|t + q| - 1]);
    } else {
      assert t + q == t;
    }
  }

  /** Left stripping stops inside `s` once `s` holds a non-space character. */
  lemma {:induction false} StripLeftAppend(s: string, q: string)
    requires !AllSpace(s)
    ensures StripLeft(s + q) == StripLeft(s) + q
  {
    if IsSpace(s[0]) {
      assert (s + q)[1..] == s[1..] + q;
      assert !AllSpace(s[1..]) by {
        var k :| 0 <= k < |s| && !IsSpace(s[k]);
        assert s[1..][k - 1] == s[k];
      }
      StripLeftAppend(s[1..], q);
    }
  }

  lemma AllSpaceStripsToEmpty(s: string)
    requires AllSpace(s)
    ensures Strip(s) == []
  {
    StripLeftSpaces(s, []);
    assert s + [] == s;
  }

  /** Labels that differ only by surrounding whitespace strip to the same text,
      so after the strip they fall into the same group. */
  lemma StripIgnoresPadding(p: string, s: string, q: string)
    requires AllSpace(p) && AllSpace(q)
    ensures Strip(p + s + q) == Strip(s)
  {
    assert p + s + q == p + (s + q);
    StripLeftSpaces(p, s + q);
    if AllSpace(s) {
      StripLeftSpaces(s, q);
      AllSpaceStripsToEmpty(q);
      AllSpaceStripsToEmpty(s);
    } else {
      StripLeftAppend(s, q);
      StripRightSpaces(StripLeft(s), q);
    }
  }

  /** Stripping twice changes nothing more than stripping once. */
  lemma StripIdempotent(s: string)
    ensures Strip(Strip(s)) == Strip(s)
  {
    var r := Strip(s);
    if r != [] {
      assert StripLeft(r) == r;
      assert StripRight(r) == r;
    }
  }

  /** Python's `sub in s`. */
  predicate Contains(s: string, sub: string)
    decreases |s|
  {
    |sub| <= |s| && (s[..|sub|] == sub || Contains(s[1..], sub))
  }

  /** A text lacking the first character of `sub` does not contain `sub`. */
  lemma {:induction false} NoFirstCharNoSubstring(s: string, sub: string)
    requires sub != [] && sub[0] !in s
    ensures !Contains(s, sub)
    decreases |s|
  {
    if |sub| <= |s| {
      assert s[..|sub|][0] == s[0];
      NoFirstCharNoSubstring(s[1..], sub);
    }
  }

  /** `s.replace(c, '')`: every occurrence of `c` removed, the rest kept in order. */
  function RemoveChar(s: string, c: char): (r: string)
    ensures c !in r
    ensures c !in s ==> r == s
    ensures forall x :: x in r <==> x in s && x != c
  {
    if s == [] then []
    else (if s[0] == c then [] else [s[0]]) + RemoveChar(s[1..], c)
  }

  lemma {:induction false} RemoveCharAppend(s: string, t: string, c: char)
    ensures RemoveChar(s + t, c) == RemoveChar(s, c) + RemoveChar(t, c)
  {
    if s == [] {
      assert s + t == t;
    } else {
      var u := s + t;
      assert u[0] == s[0] && u[1..] == s[1..] + t;
      RemoveCharAppend(s[1..], t, c);
      var h := if s[0] == c then [] else [s[0]];
      calc {
        RemoveChar(u, c);
        h + RemoveChar(s[1..] + t, c);
        h + (RemoveChar(s[1..], c) + RemoveChar(t, c));
        (h + RemoveChar(s[1..], c)) + RemoveChar(t, c);
        RemoveChar(s, c) + RemoveChar(t, c);
      }
    }
  }

  /** Python's `<` on strings: code-point lexicographic order. */
  predicate LexLess(a: string, b: string) {
    if a == [] then b != []
    else if b == [] then false
    else if a[0] != b[0] then a[0] < b[0]
    else LexLess(a[1..], b[1..])
  }

  lemma {:induction false} LexIrreflexive(a: string)
    ensures !LexLess(a, a)
  {
    if a != [] { LexIrreflexive(a[1..]); }
  }

  lemma {:induction false} LexTransitive(a: string, b: string, c: string)
    requires LexLess(a, b) && LexLess(b, c)
    ensures LexLess(a, c)
  {
    if a != [] && b != [] && c != [] && a[0] == b[0] && b[0] == c[0] {
      LexTransitive(a[1..], b[1..], c[1..]);
    }
  }

  lemma {:induction false} LexTotal(a: string, b: string)
    requires a != b
    ensures LexLess(a, b) || LexLess(b, a)
  {
    if a != [] && b != [] && a[0] == b[0] {
      assert a == [a[0]] + a[1..] && b == [b[0]] + b[1..];
      LexTotal(a[1..], b[1..]);
    }
  }

  lemma LexIsStrictTotalOrder()
    ensures Order.IsStrictTotalOrder(LexLess)
  {
    forall a ensures !LexLess(a, a) { LexIrreflexive(a); }
    forall a, b, c | LexLess(a, b) && LexLess(b, c) ensures LexLess(a, c) { LexTransitive(a, b, c); }
    forall a, b | a != b ensures LexLess(a, b) || LexLess(b, a) { LexTotal(a, b); }
  }
}
