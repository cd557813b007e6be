/**
 * The preference rule: drop denied identifiers from the discovered
 * candidates, keeping their order, and fall back to a fixed list when
 * nothing is left.
 */
module Ranking {
  import Lex

  /** `a` is `b` with zero or more elements removed, order kept. */
  predicate IsSubseq(a: seq<string>, b: seq<string>)
    decreases |b|
  {
    if |a| == 0 then true
    else if |b| == 0 then false
    else (a[0] == b[0] && IsSubseq(a[1..], b[1..])) || IsSubseq(a, b[1..])
  }

  /** A subsequence holds each value at most as often as the whole does. */
  lemma {:induction false} SubseqCounts(a: seq<string>, b: seq<string>)
    requires IsSubseq(a, b)
    ensures forall x :: multiset(a)[x] <= multiset(b)[x]
    decreases |b|
  {
    if |a| > 0 {
      assert b == [b[0]] + b[1..];
      if a[0] == b[0] && IsSubseq(a[1..], b[1..]) {
        SubseqCounts(a[1..], b[1..]);
        assert a == [a[0]] + a[1..];
      } else {
        SubseqCounts(a, b[1..]);
      }
    }
  }

  /** `[m for m in candidates if m not in deny]`. */
  function Live(candidates: seq<string>, deny: set<string>): (r: seq<string>)
    ensures IsSubseq(r, candidates)
    ensures forall i :: 0 <= i < |r| ==> r[i] !in deny
    ensures forall x :: x !in deny ==> multiset(r)[x] == multiset(candidates)[x]
  {
    if |candidates| == 0 then []
    else
      var rest := Live(candidates[1..], deny);
      assert candidates == [candidates[0]] + candidates[1..];
      if candidates[0] in deny then rest
      else
        assert ([candidates[0]] + rest)[1..] == rest;
        [candidates[0]] + rest
  }

  /** The three properties of `Live` pin its result down: any subsequence of
      the candidates that avoids `deny` and keeps every other occurrence is it. */
  lemma {:induction false} LiveIsUnique(candidates: seq<string>, deny: set<string>, r: seq<string>)
    requires IsSubseq(r, candidates)
    requires forall i :: 0 <= i < |r| ==> r[i] !in deny
    requires forall x :: x !in deny ==> multiset(r)[x] == multiset(candidates)[x]
    ensures r == Live(candidates, deny)
    decreases |candidates|
  {
    if |candidates| == 0 {
      assert |r| == 0;
    } else {
      var h, t := candidates[0], candidates[1..];
      assert candidates == [h] + t;
      if h in deny {
        assert IsSubseq(r, t) by {
          if |r| > 0 {
            assert r[0] != h;
          }
        }
        LiveIsUnique(t, deny, r);
      } else {
        assert multiset(r)[h] == multiset(t)[h] + 1;
        assert |r| > 0 && r[0] == h && IsSubseq(r[1..], t) by {
          if |r| == 0 || r[0] != h || !IsSubseq(r[1..], t) {
            assert IsSubseq(r, t);
            SubseqCounts(r, t);
          }
        }
        assert r == [h] + r[1..];
        LiveIsUnique(t, deny, r[1..]);
      }
    }
  }

  /** Removing elements from a strictly sorted list leaves it strictly sorted. */
  lemma {:induction false} SubseqOfSorted(a: seq<string>, b: seq<string>)
    requires IsSubseq(a, b) && Lex.StrictlySorted(b)
    ensures Lex.StrictlySorted(a)
    ensures forall i :: 0 <= i < |a| ==> a[i] in b
    decreases |b|
  {
    if |a| > 0 {
      assert Lex.StrictlySorted(b[1..]) by {
        forall i, j | 0 <= i < j < |b[1..]|
          ensures Lex.Less(b[1..][i], b[1..][j])
        {
          assert b[1..][i] == b[i + 1] && b[1..][j] == b[j + 1];
        }
      }
      if a[0] == b[0] && IsSubseq(a[1..], b[1..]) {
        SubseqOfSorted(a[1..], b[1..]);
        forall i, j | 0 <= i < j < |a|
          ensures Lex.Less(a[i], a[j])
        {
          assert a[j] == a[1..][j - 1];
          var k :| 0 <= k < |b[1..]| && b[1..][k] == a[j];
          if i == 0 {
            assert b[k + 1] == a[j];
          } else {
            assert a[i] == a[1..][i - 1];
          }
        }
        forall i | 0 <= i < |a|
          ensures a[i] in b
        {
          if i > 0 {
            assert a[i] == a[1..][i - 1];
          }
        }
      } else {
        SubseqOfSorted(a, b[1..]);
      }
    }
  }

  /** `rank_prefer`: the live candidates when there are any, else `fallback`. */
  function RankPrefer(candidates: seq<string>, deny: set<string>, fallback: seq<string>): (r: seq<string>)
    ensures (exists i :: 0 <= i < |candidates| && candidates[i] !in deny) ==>
              && IsSubseq(r, candidates)
              && (forall i :: 0 <= i < |r| ==> r[i] !in deny)
              && (forall x :: x !in deny ==> multiset(r)[x] == multiset(candidates)[x])
    ensures (forall i :: 0 <= i < |candidates| ==> candidates[i] in deny) ==> r == fallback
    ensures |fallback| > 0 ==> |r| > 0
  {
    var live := Live(candidates, deny);
    if |live| > 0 then live else fallback
  }
}
