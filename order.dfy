/** The order in which the missing terms are written: Python's comparison of
    strings, which is lexicographic on code points with a proper prefix first. */
module Order {

  /** a < b as Python compares two strings. */
  predicate Less(a: string, b: string)
    decreases |a|
  {
    if a == [] then b != []
    else b != [] && (a[0] < b[0] || (a[0] == b[0] && Less(a[1..], b[1..])))
  }

  lemma {:induction false} LessIrreflexive(a: string)
    ensures !Less(a, a)
    decreases |a|
  {
    if a != [] {
      LessIrreflexive(a[1..]);
    }
  }

  lemma {:induction false} LessTransitive(a: string, b: string, c: string)
    requires Less(a, b) && Less(b, c)
    ensures Less(a, c)
    decreases |a|
  {
    if a != [] && a[0] == b[0] && b[0] == c[0] {
      LessTransitive(a[1..], b[1..], c[1..]);
    }
  }

  /** Any two distinct strings are ordered one way, and never both ways. */
  lemma {:induction false} LessTotal(a: string, b: string)
    ensures a == b || Less(a, b) || Less(b, a)
    ensures !(Less(a, b) && Less(b, a))
    decreases |a|
  {
    if a != [] && b != [] && a[0] == b[0] {
      LessTotal(a[1..], b[1..]);
      if a[1..] == b[1..] {
        assert a == [a[0]] + a[1..] && b == [b[0]] + b[1..];
      }
    }
  }

  /** Strictly increasing, which also means free of repeats. */
  predicate Sorted(s: seq<string>) {
    forall i, j :: 0 <= i < j < |s| ==> Less(s[i], s[j])
  }

  /** The least element of a non-empty set. */
  predicate IsLeast(m: string, s: set<string>) {
    m in s && forall y :: y in s && y != m ==> Less(m, y)
  }

  lemma {:induction false} LeastExists(s: set<string>)
    requires s != {}
    ensures exists m :: IsLeast(m, s)
    decreases |s|
  {
    var x :| x in s;
    if s == {x} {
      assert IsLeast(x, s);
    } else {
      var rest := s - {x};
      LeastExists(rest);
      var m :| IsLeast(m, rest);
      LessTotal(m, x);
      if Less(x, m) {
        forall y | y in s && y != x ensures Less(x, y) {
          if y != m {
            LessTransitive(x, m, y);
          }
        }
        assert IsLeast(x, s);
      } else {
        assert IsLeast(m, s);
      }
    }
  }

  /** The elements of a set in increasing order: what `sorted` returns for a set of
      strings. */
  ghost function SortedOf(s: set<string>): (r: seq<string>)
    decreases |s|
  {
    if s == {} then []
    else
      LeastExists(s);
      var m :| IsLeast(m, s);
      [m] + SortedOf(s - {m})
  }

  lemma {:induction false} SortedOfSpec(s: set<string>)
    ensures Sorted(SortedOf(s))
    ensures forall y :: y in SortedOf(s) <==> y in s
    ensures |SortedOf(s)| == |s|
    decreases |s|
  {
    if s != {} {
      var r := SortedOf(s);
      var m := r[0];
      var t := SortedOf(s - {m});
      assert IsLeast(m, s) && r == [m] + t;
      SortedOfSpec(s - {m});
      forall i, j | 0 <= i < j < |r| ensures Less(r[i], r[j]) {
        assert r[j] == t[j - 1];
        if i > 0 {
          assert r[i] == t[i - 1];
        } else {
          assert t[j - 1] in t;
          assert r[j] in s && r[j] != m;
        }
      }
      forall y ensures y in r <==> y in s {
        assert y in r <==> y == m || y in t;
      }
    }
  }

  /** Two increasing sequences with the same elements are equal: the sorted order of a
      set is unique. */
  lemma {:induction false} SortedUnique(a: seq<string>, b: seq<string>)
    requires Sorted(a) && Sorted(b)
    requires forall y :: y in a <==> y in b
    ensures a == b
    decreases |a|
  {
    assert a == [] || a[0] in a;
    assert b == [] || b[0] in b;
    if a != [] && b != [] {
      if a[0] != b[0] {
        assert a[0] in b;
        var j :| 0 <= j < |b| && b[j] == a[0];
        assert b[0] in a;
        var i :| 0 <= i < |a| && a[i] == b[0];
        assert Less(b[0], a[0]) && Less(a[0], b[0]);
        LessTotal(a[0], b[0]);
        assert false;
      }
      forall y ensures y in a[1..] <==> y in b[1..] {
        if y in a[1..] {
          var i :| 1 <= i < |a| && a[i] == y;
          assert Less(a[0], y);
          LessIrreflexive(y);
          assert y in b && y != b[0];
        }
        if y in b[1..] {
          var j :| 1 <= j < |b| && b[j] == y;
          assert Less(b[0], y);
          LessIrreflexive(y);
          assert y in a && y != a[0];
        }
      }
      SortedUnique(a[1..], b[1..]);
      assert a == [a[0]] + a[1..] && b == [b[0]] + b[1..];
    }
  }

  /** x put in its place in an increasing sequence that does not hold it. */
  function Insert(s: seq<string>, x: string): (r: seq<string>)
  {
    if s == [] || Less(x, s[0]) then [x] + s
    else [s[0]] + Insert(s[1..], x)
  }

  lemma {:induction false} InsertSpec(s: seq<string>, x: string)
    requires Sorted(s) && x !in s
    ensures Sorted(Insert(s, x))
    ensures forall y :: y in Insert(s, x) <==> y == x || y in s
    ensures |Insert(s, x)| == |s| + 1
  {
    var r := Insert(s, x);
    if s == [] {
    } else if Less(x, s[0]) {
      forall i, j | 0 <= i < j < |r| ensures Less(r[i], r[j]) {
        if i == 0 && j > 1 {
          LessTransitive(x, s[0], s[j - 1]);
        }
      }
    } else {
      var t := Insert(s[1..], x);
      InsertSpec(s[1..], x);
      assert r == [s[0]] + t;
      LessTotal(x, s[0]);
      forall y | y in t ensures Less(s[0], y) {
        if y != x {
          var k :| 1 <= k < |s| && s[k] == y;
        }
      }
      forall i, j | 0 <= i < j < |r| ensures Less(r[i], r[j]) {
        if i == 0 {
          assert r[j] == t[j - 1];
        } else {
          assert r[i] == t[i - 1] && r[j] == t[j - 1];
        }
      }
      forall y ensures y in r <==> y == x || y in s {
        assert s == [s[0]] + s[1..];
      }
    }
  }

  /** Lists the missing terms in the order the report writes them, one at a time
      into an increasing list. */
  method SortTerms(terms: set<string>) returns (out: seq<string>)
    ensures out == SortedOf(terms)
    ensures Sorted(out) && |out| == |terms|
    ensures forall y :: y in out <==> y in terms
  {
    out := [];
    var rest := terms;
    while rest != {}
      invariant Sorted(out)
      invariant rest <= terms
      invariant forall y :: y in out <==> y in terms && y !in rest
      decreases |rest|
    {
      var x :| x in rest;
      InsertSpec(out, x);
      out := Insert(out, x);
      rest := rest - {x};
    }
    SortedOfSpec(terms);
    SortedUnique(out, SortedOf(terms));
  }
}
