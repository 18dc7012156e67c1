/** The JavaScript array built-ins the viewer's `uniqueGroups` pipeline relies on:
    `Array.prototype.indexOf` and the default `Array.prototype.sort` on strings. */
module Arrays {

  // ---------------------------------------------------------------------------
  // indexOf

  /** `vs.indexOf(x)`: the first position of `x` in `vs`, or -1 when it is absent. */
  function IndexOf<T(==)>(vs: seq<T>, x: T): (r: int)
    ensures -1 <= r < |vs|
    ensures r == -1 <==> x !in vs
    ensures r >= 0 ==> vs[r] == x && forall j :: 0 <= j < r ==> vs[j] != x
  {
    if |vs| == 0 then -1
    else if vs[0] == x then 0
    else
      var r := IndexOf(vs[1..], x);
      if r == -1 then -1 else r + 1
  }

  // ---------------------------------------------------------------------------
  // The order of the default sort

  /** `a` sorts strictly before `b`: lexicographic order on characters, a proper prefix first. */
  predicate Below(a: string, b: string)
    decreases |a|
  {
    if |a| == 0 then |b| > 0
    else if |b| == 0 then false
    else if a[0] == b[0] then Below(a[1..], b[1..])
    else a[0] < b[0]
  }

  lemma {:induction false} BelowIrreflexive(a: string)
    ensures !Below(a, a)
    decreases |a|
  {
    if |a| > 0 {
      BelowIrreflexive(a[1..]);
    }
  }

  lemma {:induction false} BelowTransitive(a: string, b: string, c: string)
    requires Below(a, b) && Below(b, c)
    ensures Below(a, c)
    decreases |a|
  {
    if |a| > 0 && a[0] == b[0] && b[0] == c[0] {
      BelowTransitive(a[1..], b[1..], c[1..]);
    }
  }

  /** Two different strings are ordered one way or the other. */
  lemma {:induction false} BelowTotal(a: string, b: string)
    requires a != b
    ensures Below(a, b) || Below(b, a)
    decreases |a|
  {
    if |a| > 0 && |b| > 0 && a[0] == b[0] {
      assert a == [a[0]] + a[1..] && b == [b[0]] + b[1..];
      BelowTotal(a[1..], b[1..]);
    }
  }

  /** Only one of the two orders holds. */
  lemma {:induction false} BelowAsymmetric(a: string, b: string)
    requires Below(a, b)
    ensures !Below(b, a)
    decreases |a|
  {
    if |a| > 0 && a[0] == b[0] {
      BelowAsymmetric(a[1..], b[1..]);
    }
  }

  /** No element occurs twice. */
  predicate Distinct(s: seq<string>) {
    forall i, j :: 0 <= i < j < |s| ==> s[i] != s[j]
  }

  /** Every element is strictly below the elements after it. */
  ghost predicate Ascending(s: seq<string>) {
    forall i, j :: 0 <= i < j < |s| ==> Below(s[i], s[j])
  }

  // ---------------------------------------------------------------------------
  // sort

  /** `x` placed before the first element it sorts below. */
  function Insert(x: string, s: seq<string>): (r: seq<string>)
    ensures multiset(r) == multiset(s) + multiset{x}
    decreases |s|
  {
    if |s| == 0 || Below(x, s[0]) then [x] + s
    else
      assert s == [s[0]] + s[1..];
      [s[0]] + Insert(x, s[1..])
  }

  /** The default `sort()` of an array of strings, as an insertion sort. */
  function Sort(s: seq<string>): (r: seq<string>)
    ensures multiset(r) == multiset(s)
    decreases |s|
  {
    if |s| == 0 then []
    else
      assert s == [s[0]] + s[1..];
      Insert(s[0], Sort(s[1..]))
  }

  lemma InsertAscending(x: string, s: seq<string>)
    requires Ascending(s) && x !in s
    ensures Ascending(Insert(x, s))
    decreases |s|
  {
    if |s| > 0 && !Below(x, s[0]) {
      BelowTotal(x, s[0]);
      InsertAscending(x, s[1..]);
      var r := Insert(x, s);
      forall j | 0 < j < |r| ensures Below(r[0], r[j]) {
        assert r[j] in multiset(Insert(x, s[1..]));
        if r[j] != x {
          assert r[j] in s[1..];
        }
      }
    } else if |s| > 0 {
      forall j | 0 <= j < |s| ensures Below(x, s[j]) {
        if j > 0 {
          BelowTransitive(x, s[0], s[j]);
        }
      }
    }
  }

  /** Sorting strings that are pairwise different lists them in strictly ascending order. */
  lemma {:induction false} SortAscending(s: seq<string>)
    requires Distinct(s)
    ensures Ascending(Sort(s))
    decreases |s|
  {
    if |s| > 0 {
      SortAscending(s[1..]);
      assert s[0] !in multiset(s[1..]);
      InsertAscending(s[0], Sort(s[1..]));
    }
  }

  /** The strictly ascending order of a set of strings is unique. */
  lemma {:induction false} AscendingUnique(a: seq<string>, b: seq<string>)
    requires Ascending(a) && Ascending(b)
    requires forall x :: x in a <==> x in b
    ensures a == b
    decreases |a|
  {
    if |a| > 0 && |b| > 0 {
      if a[0] != b[0] {
        assert a[0] in b && b[0] in a;
        var i :| 0 <= i < |b| && b[i] == a[0];
        var j :| 0 <= j < |a| && a[j] == b[0];
        assert Below(b[0], a[0]) && Below(a[0], b[0]);
        BelowAsymmetric(b[0], a[0]);
        assert false;
      }
      forall x ensures x in a[1..] <==> x in b[1..] {
        if x in a[1..] {
          var i :| 1 <= i < |a| && a[i] == x;
          BelowIrreflexive(a[0]);
          assert x in b && x != b[0];
        }
        if x in b[1..] {
          var i :| 1 <= i < |b| && b[i] == x;
          BelowIrreflexive(b[0]);
          assert x in a && x != a[0];
        }
      }
      AscendingUnique(a[1..], b[1..]);
    } else {
      assert Members(a) == Members(b);
      MembersEmpty(a);
      MembersEmpty(b);
    }
  }

  /** The elements of `s`, as a set. */
  function Members(s: seq<string>): set<string> {
    set x | x in s
  }

  lemma MembersEmpty(s: seq<string>)
    ensures Members(s) == {} <==> s == []
  {
    if s != [] {
      assert s[0] in Members(s);
    }
  }
}
