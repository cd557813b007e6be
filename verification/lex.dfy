/**
 * Code-point lexicographic order on strings, as Python's `<` on `str`
 * compares them, and `sorted(set(...))` over that order: the unique
 * strictly increasing listing of a finite set of strings.
 */
module Lex {

  /** `a` sorts strictly before `b`: the first differing code point is smaller,
      or `a` is a proper prefix of `b`. */
  predicate Less(a: string, b: string)
    decreases |a|
  {
    if |a| == 0 then |b| > 0
    else if |b| == 0 then false
    else a[0] < b[0] || (a[0] == b[0] && Less(a[1..], b[1..]))
  }

  lemma {:induction false} LessIrreflexive(a: string)
    ensures !Less(a, a)
    decreases |a|
  {
    if |a| > 0 {
      LessIrreflexive(a[1..]);
    }
  }

  lemma {:induction false} LessAsymmetric(a: string, b: string)
    ensures Less(a, b) ==> !Less(b, a)
    decreases |a|
  {
    if |a| > 0 && |b| > 0 && a[0] == b[0] {
      LessAsymmetric(a[1..], b[1..]);
    }
  }

  lemma {:induction false} LessTransitive(a: string, b: string, c: string)
    ensures Less(a, b) && Less(b, c) ==> Less(a, c)
    decreases |a|
  {
    if |a| > 0 && |b| > 0 && |c| > 0 {
      LessTransitive(a[1..], b[1..], c[1..]);
    }
  }

  lemma {:induction false} LessTotal(a: string, b: string)
    ensures a == b || Less(a, b) || Less(b, a)
    decreases |a|
  {
    if |a| > 0 && |b| > 0 && a[0] == b[0] {
      LessTotal(a[1..], b[1..]);
      if a[1..] == b[1..] {
        assert a == [a[0]] + a[1..] && b == [b[0]] + b[1..];
      }
    }
  }

  /** Every element sorts strictly before every later one: sorted and free of duplicates. */
  predicate StrictlySorted(s: seq<string>)
  {
    forall i, j :: 0 <= i < j < |s| ==> Less(s[i], s[j])
  }

  /** `x` is the smallest element of `s`. */
  predicate IsLeast(x: string, s: set<string>)
  {
    x in s && forall y :: y in s && y != x ==> Less(x, y)
  }

  lemma LeastExists(s: set<string>)
    requires s != {}
    ensures exists x :: IsLeast(x, s)
    decreases |s|
  {
    var a :| a in s;
    if s != {a} {
      LeastExists(s - {a});
      var m :| IsLeast(m, s - {a});
      LessTotal(a, m);
      if Less(a, m) {
        forall y | y in s && y != a
          ensures Less(a, y)
        {
          if y != m {
            LessTransitive(a, m, y);
          }
        }
        assert IsLeast(a, s);
      } else {
        assert IsLeast(m, s);
      }
    } else {
      assert IsLeast(a, s);
    }
  }

  lemma LeastUnique(s: set<string>)
    ensures forall x, y :: IsLeast(x, s) && IsLeast(y, s) ==> x == y
  {
    forall x, y | IsLeast(x, s) && IsLeast(y, s)
      ensures x == y
    {
      LessAsymmetric(x, y);
    }
  }

  /** Python's `sorted(s)` for a set of strings. */
  function SortSet(s: set<string>): (r: seq<string>)
    ensures StrictlySorted(r)
    ensures forall x :: x in r <==> x in s
    ensures |r| == |s|
    decreases |s|
  {
    if s == {} then []
    else
      LeastExists(s);
      LeastUnique(s);
      var m :| IsLeast(m, s);
      var rest := SortSet(s - {m});
      assert forall i :: 0 <= i < |rest| ==> rest[i] in s - {m};
      SortedCons(m, rest);
      [m] + rest
  }

  lemma SortedCons(m: string, rest: seq<string>)
    requires StrictlySorted(rest)
    requires forall i :: 0 <= i < |rest| ==> Less(m, rest[i])
    ensures StrictlySorted([m] + rest)
  {
  }

  /** The elements of a strictly sorted sequence other than its head. */
  lemma {:induction false} TailElements(a: seq<string>)
    requires StrictlySorted(a) && |a| > 0
    ensures forall x :: x in a[1..] <==> x in a && x != a[0]
  {
    forall x | x in a[1..]
      ensures x != a[0]
    {
      var k :| 0 <= k < |a[1..]| && a[1..][k] == x;
      assert Less(a[0], a[k + 1]);
      LessIrreflexive(a[0]);
    }
  }

  lemma EmptyWithoutElements(s: seq<string>)
    ensures (forall x :: x !in s) ==> s == []
  {
    if |s| > 0 {
      assert s[0] in s;
    }
  }

  /** Two strictly sorted sequences with the same elements are equal. */
  lemma {:induction false} StrictlySortedUnique(a: seq<string>, b: seq<string>)
    requires StrictlySorted(a) && StrictlySorted(b)
    requires forall x :: x in a <==> x in b
    ensures a == b
    decreases |a|
  {
    if |a| == 0 {
      EmptyWithoutElements(b);
    } else {
      assert a[0] in a;
      assert |b| > 0 && b[0] in b;
      var k :| 0 <= k < |a| && a[k] == b[0];
      var l :| 0 <= l < |b| && b[l] == a[0];
      if k > 0 {
        if l == 0 {
          LessIrreflexive(a[0]);
        } else {
          LessAsymmetric(b[0], b[l]);
        }
        assert false;
      }
      TailElements(a);
      TailElements(b);
      StrictlySortedUnique(a[1..], b[1..]);
      assert a == [a[0]] + a[1..] && b == [b[0]] + b[1..];
    }
  }

  /** `sorted(set(...))` is characterised by its order alone: any strictly
      increasing listing of `s` is the one `SortSet` returns. */
  lemma SortSetIsTheSortedListing(s: set<string>, r: seq<string>)
    requires StrictlySorted(r)
    requires forall x :: x in r <==> x in s
    ensures r == SortSet(s)
  {
    StrictlySortedUnique(r, SortSet(s));
  }
}
