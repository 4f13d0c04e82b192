/**
 Sequence operations that stand in for the pandas primitives the dashboard uses on a column or
 a table: boolean-mask selection, counting, dropping missing values, and counting distinct values.
 */
module Seqs {
  import opened Options

  /** `a` is obtained from `b` by deleting elements: what remains keeps its relative order. */
  predicate IsSubsequence<T(==)>(a: seq<T>, b: seq<T>)
    decreases |b|
  {
    |a| == 0 || (|b| > 0 && ((a[0] == b[0] && IsSubsequence(a[1..], b[1..])) || IsSubsequence(a, b[1..])))
  }

  /** The number of elements of `s` that satisfy `p`. */
  function Count<T>(s: seq<T>, p: T -> bool): (n: nat)
    ensures n <= |s|
  {
    if |s| == 0 then 0 else (if p(s[0]) then 1 else 0) + Count(s[1..], p)
  }

  /** Boolean-mask selection `df[mask]`: the elements of `s` that satisfy `p`, in their original order. */
  function Where<T(==,!new)>(s: seq<T>, p: T -> bool): (r: seq<T>)
    ensures forall x :: x in r <==> x in s && p(x)
    ensures IsSubsequence(r, s)
    ensures |r| == Count(s, p)
    ensures (forall x :: x in s ==> p(x)) ==> r == s
    ensures (forall x :: x in s ==> !p(x)) ==> r == []
  {
    if |s| == 0 then []
    else if p(s[0]) then [s[0]] + Where(s[1..], p)
    else Where(s[1..], p)
  }

  /** The number of elements of `s` whose `f` value is present and equal to `k`. */
  function CountKey<T, K(==)>(s: seq<T>, f: T -> Option<K>, k: K): (n: nat)
    ensures n <= |s|
  {
    if |s| == 0 then 0 else (if f(s[0]) == Some(k) then 1 else 0) + CountKey(s[1..], f, k)
  }

  /** The number of elements of `s` whose `f` value is present. */
  function CountPresent<T, K>(s: seq<T>, f: T -> Option<K>): (n: nat)
    ensures n <= |s|
  {
    if |s| == 0 then 0 else (if f(s[0]).Some? then 1 else 0) + CountPresent(s[1..], f)
  }

  /** The non-missing values `f` reads from the elements of `s`, in order (a column after `dropna`). */
  function Column<T(==,!new), K(==,!new)>(s: seq<T>, f: T -> Option<K>): (c: seq<K>)
    ensures |c| == CountPresent(s, f)
    ensures forall k :: k in c <==> exists x :: x in s && f(x) == Some(k)
    ensures forall k :: multiset(c)[k] == CountKey(s, f, k)
  {
    if |s| == 0 then []
    else if f(s[0]).Some? then [f(s[0]).value] + Column(s[1..], f)
    else Column(s[1..], f)
  }

  /** The position of the first row whose value under `f` is `k`; `|s|` when no row has it. */
  function FirstRow<T, K(==)>(s: seq<T>, f: T -> Option<K>, k: K): (i: nat)
    ensures i <= |s|
    ensures i < |s| ==> f(s[i]) == Some(k)
    ensures forall j :: 0 <= j < i ==> f(s[j]) != Some(k)
  {
    if |s| == 0 then 0 else if f(s[0]) == Some(k) then 0 else 1 + FirstRow(s[1..], f, k)
  }

  /** pandas' `nunique`: the number of distinct values in `s`. */
  function NUnique<T(==)>(s: seq<T>): (n: nat)
    ensures n == |set x | x in s|
    ensures n <= |s|
  {
    if |s| == 0 then 0
    else
      var rest := set x | x in s[1..];
      assert (set x | x in s) == {s[0]} + rest;
      if s[0] in s[1..] then
        assert s[0] in rest;
        assert (set x | x in s) == rest;
        NUnique(s[1..])
      else 1 + NUnique(s[1..])
  }

  lemma {:induction false} SubsequenceReflexive<T>(s: seq<T>)
    ensures IsSubsequence(s, s)
  {
    if |s| > 0 {
      SubsequenceReflexive(s[1..]);
    }
  }

  lemma {:induction false} SubsequenceLength<T>(a: seq<T>, b: seq<T>)
    requires IsSubsequence(a, b)
    ensures |a| <= |b|
    decreases |b|
  {
    if |a| > 0 {
      if a[0] == b[0] && IsSubsequence(a[1..], b[1..]) {
        SubsequenceLength(a[1..], b[1..]);
      } else {
        SubsequenceLength(a, b[1..]);
      }
    }
  }

  lemma {:induction false} SubsequenceTransitive<T>(a: seq<T>, b: seq<T>, c: seq<T>)
    requires IsSubsequence(a, b) && IsSubsequence(b, c)
    ensures IsSubsequence(a, c)
    decreases |c|
  {
    if |a| > 0 {
      if b[0] == c[0] && IsSubsequence(b[1..], c[1..]) {
        if a[0] == b[0] && IsSubsequence(a[1..], b[1..]) {
          SubsequenceTransitive(a[1..], b[1..], c[1..]);
        } else {
          SubsequenceTransitive(a, b[1..], c[1..]);
        }
      } else {
        SubsequenceTransitive(a, b, c[1..]);
      }
    }
  }

  /** Two successive masks select what the conjoined mask selects. */
  lemma {:induction false} WhereWhere<T(!new)>(s: seq<T>, p: T -> bool, q: T -> bool, pq: T -> bool)
    requires forall x :: pq(x) == (p(x) && q(x))
    ensures Where(Where(s, p), q) == Where(s, pq)
  {
    if |s| > 0 {
      WhereWhere(s[1..], p, q, pq);
      if p(s[0]) {
        var w := Where(s[1..], p);
        assert ([s[0]] + w)[0] == s[0] && ([s[0]] + w)[1..] == w;
      }
    }
  }

  /** Four successive masks select what their conjunction selects. */
  lemma WhereFour<T(!new)>(s: seq<T>, p1: T -> bool, p2: T -> bool, p3: T -> bool, p4: T -> bool, all: T -> bool)
    requires forall x :: all(x) == (p1(x) && p2(x) && p3(x) && p4(x))
    ensures Where(Where(Where(Where(s, p1), p2), p3), p4) == Where(s, all)
  {
    var p12 := x => p1(x) && p2(x);
    var p123 := x => p12(x) && p3(x);
    WhereWhere(s, p1, p2, p12);
    WhereWhere(s, p12, p3, p123);
    WhereWhere(s, p123, p4, all);
  }

  /** Masks that agree on every element of `s` select the same elements. */
  lemma {:induction false} WhereCongruent<T(!new)>(s: seq<T>, p: T -> bool, q: T -> bool)
    requires forall x :: x in s ==> p(x) == q(x)
    ensures Where(s, p) == Where(s, q)
  {
    if |s| > 0 {
      WhereCongruent(s[1..], p, q);
    }
  }

  /** The order in which two masks are applied does not matter. */
  lemma WhereCommute<T(!new)>(s: seq<T>, p: T -> bool, q: T -> bool)
    ensures Where(Where(s, p), q) == Where(Where(s, q), p)
  {
    WhereWhere(s, p, q, x => p(x) && q(x));
    WhereWhere(s, q, p, x => q(x) && p(x));
    WhereCongruent(s, x => p(x) && q(x), x => q(x) && p(x));
  }

  /** A mask that implies another selects a subsequence of what the other selects. */
  lemma WhereNarrowing<T(!new)>(s: seq<T>, p: T -> bool, q: T -> bool)
    requires forall x :: x in s && p(x) ==> q(x)
    ensures IsSubsequence(Where(s, p), Where(s, q))
    ensures |Where(s, p)| <= |Where(s, q)|
  {
    WhereWhere(s, q, p, x => q(x) && p(x));
    WhereCongruent(s, x => q(x) && p(x), p);
    SubsequenceLength(Where(s, p), Where(s, q));
  }

  /** Predicates that agree on every element of `s` count the same number of elements. */
  lemma {:induction false} CountCongruent<T>(s: seq<T>, p: T -> bool, q: T -> bool)
    requires forall x :: x in s ==> p(x) == q(x)
    ensures Count(s, p) == Count(s, q)
  {
    if |s| > 0 {
      CountCongruent(s[1..], p, q);
    }
  }

  /** Counts of two predicates that never hold together add up to the count of their disjunction. */
  lemma {:induction false} CountDisjoint<T>(s: seq<T>, p: T -> bool, q: T -> bool, pq: T -> bool)
    requires forall x :: x in s ==> !(p(x) && q(x))
    requires forall x :: x in s ==> pq(x) == (p(x) || q(x))
    ensures Count(s, p) + Count(s, q) == Count(s, pq)
  {
    if |s| > 0 {
      CountDisjoint(s[1..], p, q, pq);
    }
  }

  /** A predicate that holds on every element counts all of them. */
  lemma {:induction false} CountAll<T>(s: seq<T>, p: T -> bool)
    requires forall x :: x in s ==> p(x)
    ensures Count(s, p) == |s|
  {
    if |s| > 0 {
      CountAll(s[1..], p);
    }
  }

  /** A predicate that holds on no element counts nothing. */
  lemma {:induction false} CountNone<T>(s: seq<T>, p: T -> bool)
    requires forall x :: x in s ==> !p(x)
    ensures Count(s, p) == 0
  {
    if |s| > 0 {
      CountNone(s[1..], p);
    }
  }

  /** A predicate that holds on some element has a positive count. */
  lemma {:induction false} CountPositive<T>(s: seq<T>, p: T -> bool, x: T)
    requires x in s && p(x)
    ensures Count(s, p) > 0
  {
    if s[0] != x {
      CountPositive(s[1..], p, x);
    }
  }

  /** Counting `q` among the elements selected by `p` counts `p && q` among all elements. */
  lemma {:induction false} CountWhere<T(!new)>(s: seq<T>, p: T -> bool, q: T -> bool, pq: T -> bool)
    requires forall x :: pq(x) == (p(x) && q(x))
    ensures Count(Where(s, p), q) == Count(s, pq)
  {
    if |s| > 0 {
      CountWhere(s[1..], p, q, pq);
      if p(s[0]) {
        var w := Where(s[1..], p);
        assert ([s[0]] + w)[0] == s[0] && ([s[0]] + w)[1..] == w;
      }
    }
  }

  /** `CountKey` is the count of any predicate that says "the value of `f` is `k`". */
  lemma {:induction false} CountKeyIsCount<T, K>(s: seq<T>, f: T -> Option<K>, k: K, p: T -> bool)
    requires forall x :: x in s ==> p(x) == (f(x) == Some(k))
    ensures CountKey(s, f, k) == Count(s, p)
  {
    if |s| > 0 {
      CountKeyIsCount(s[1..], f, k, p);
    }
  }

  /** `CountPresent` is the count of any predicate that says "the value of `f` is present". */
  lemma {:induction false} CountPresentIsCount<T, K>(s: seq<T>, f: T -> Option<K>, p: T -> bool)
    requires forall x :: x in s ==> p(x) == f(x).Some?
    ensures CountPresent(s, f) == Count(s, p)
  {
    if |s| > 0 {
      CountPresentIsCount(s[1..], f, p);
    }
  }
}
