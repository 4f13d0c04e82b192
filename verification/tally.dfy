/**
 Grouped counts. A count is a list of entries, one per distinct key. `GroupSizes` is
 `groupby(...).size()` (and `value_counts().sort_index()`), sorted by key; `ValueCounts` is
 `value_counts()`, sorted by descending count with ties in order of first appearance.
 */
module Tally {
  import opened Options
  import opened Seqs
  import opened Keys

  /** One group of a count: its key and how many rows carry it. */
  datatype Entry = Entry(key: Key, count: nat)

  function KeysOf(r: seq<Entry>): (ks: seq<Key>)
    ensures |ks| == |r|
    ensures forall i :: 0 <= i < |r| ==> ks[i] == r[i].key
  {
    if |r| == 0 then [] else [r[0].key] + KeysOf(r[1..])
  }

  /** No key labels two entries. */
  predicate DistinctKeys(r: seq<Entry>)
  {
    |r| == 0 || (r[0].key !in KeysOf(r[1..]) && DistinctKeys(r[1..]))
  }

  /** `counts.get(k, 0)`: the count stored for `k`, or 0 when `k` is not a group. */
  function CountOf(r: seq<Entry>, k: Key): nat
  {
    if |r| == 0 then 0 else if r[0].key == k then r[0].count else CountOf(r[1..], k)
  }

  /** The sum of all counts. */
  function Total(r: seq<Entry>): nat
  {
    if |r| == 0 then 0 else r[0].count + Total(r[1..])
  }

  /** pandas' `head(n)`: the first `n` entries, or all of them when there are fewer. */
  function Take(r: seq<Entry>, n: nat): seq<Entry>
  {
    if n <= |r| then r[..n] else r
  }

  /**
   In a list ranked by non-increasing count, a key the first `n` entries leave out means they
   are `n` entries, the last of them counting at least as much as the key left out.
   */
  lemma TakeOmits(r: seq<Entry>, n: nat, k: Key)
    requires DistinctKeys(r)
    requires forall i, j :: 0 <= i < j < |r| ==> r[i].count >= r[j].count
    requires k in KeysOf(r) && k !in KeysOf(Take(r, n))
    ensures |Take(r, n)| == n
    ensures n > 0 ==> CountOf(r, k) <= Take(r, n)[n - 1].count
  {
    var ks := KeysOf(r);
    var j :| 0 <= j < |ks| && ks[j] == k;
    if j < n {
      TakeKeeps(r, n, j);
      assert false;
    }
    CountOfEntry(r, j);
  }

  /** The first `n` entries keep the key of every entry before position `n`. */
  lemma TakeKeeps(r: seq<Entry>, n: nat, j: nat)
    requires j < |r| && j < n
    ensures r[j].key in KeysOf(Take(r, n))
  {
    assert KeysOf(Take(r, n))[j] == r[j].key;
  }

  /** Two counts with distinct keys hold the same entries when they agree on every key's count. */
  lemma SameEntries(a: seq<Entry>, b: seq<Entry>)
    requires DistinctKeys(a) && DistinctKeys(b)
    requires forall k :: k in KeysOf(a) <==> k in KeysOf(b)
    requires forall k :: CountOf(a, k) == CountOf(b, k)
    ensures multiset(a) == multiset(b)
  {
    forall e
      ensures multiset(a)[e] == multiset(b)[e]
    {
      EntryIn(a, e);
      EntryIn(b, e);
      EntryOnce(a, e);
      EntryOnce(b, e);
    }
  }

  /** With distinct keys, an entry is present exactly when its key is, holding its count. */
  lemma {:induction false} EntryIn(r: seq<Entry>, e: Entry)
    requires DistinctKeys(r)
    ensures e in r <==> e.key in KeysOf(r) && CountOf(r, e.key) == e.count
  {
    if |r| > 0 {
      EntryIn(r[1..], e);
      assert KeysOf(r) == [r[0].key] + KeysOf(r[1..]);
      if e in r[1..] {
        KeyOfMember(r[1..], e);
      }
    }
  }

  /** With distinct keys, no entry occurs twice. */
  lemma {:induction false} EntryOnce(r: seq<Entry>, e: Entry)
    requires DistinctKeys(r)
    ensures multiset(r)[e] <= 1
  {
    if |r| > 0 {
      EntryOnce(r[1..], e);
      assert r == [r[0]] + r[1..];
      if e in r[1..] {
        KeyOfMember(r[1..], e);
      }
    }
  }

  lemma KeyOfMember(r: seq<Entry>, e: Entry)
    requires e in r
    ensures e.key in KeysOf(r)
  {
    var i :| 0 <= i < |r| && r[i] == e;
    assert KeysOf(r)[i] == e.key;
  }

  /** The first `m` entries of the first `n` are the first `m`, when `m <= n`. */
  lemma TakeTake(r: seq<Entry>, m: nat, n: nat)
    requires m <= n
    ensures Take(Take(r, n), m) == Take(r, m)
  {
  }

  /** The position at which `k` first occurs in `keys`, or `|keys|` when it does not occur. */
  function FirstIndex(keys: seq<Key>, k: Key): (i: nat)
    ensures i <= |keys|
    ensures i < |keys| <==> k in keys
    ensures i < |keys| ==> keys[i] == k
  {
    if |keys| == 0 then 0 else if keys[0] == k then 0 else 1 + FirstIndex(keys[1..], k)
  }

  /** A value that appears earlier in a column than another first appears in an earlier row. */
  lemma {:induction false} FirstIndexFirstRow<T(!new)>(t: seq<T>, f: T -> Option<Key>, a: Key, b: Key)
    requires FirstIndex(Column(t, f), a) < FirstIndex(Column(t, f), b)
    ensures FirstRow(t, f, a) < FirstRow(t, f, b)
  {
    var col := Column(t, f);
    assert |col| > 0;
    if f(t[0]).Some? {
      assert col == [f(t[0]).value] + Column(t[1..], f);
      assert col[0] != b;
      if f(t[0]).value != a {
        assert col[1..] == Column(t[1..], f);
        FirstIndexFirstRow(t[1..], f, a, b);
      }
    } else {
      assert col == Column(t[1..], f);
      FirstIndexFirstRow(t[1..], f, a, b);
    }
  }

  lemma CountOfEntry(r: seq<Entry>, i: nat)
    requires DistinctKeys(r) && i < |r|
    ensures CountOf(r, r[i].key) == r[i].count
  {
    if i > 0 {
      CountOfEntry(r[1..], i - 1);
    }
  }

  lemma {:induction false} CountOfAbsent(r: seq<Entry>, k: Key)
    requires k !in KeysOf(r)
    ensures CountOf(r, k) == 0
  {
    if |r| > 0 {
      assert KeysOf(r)[0] == r[0].key;
      assert KeysOf(r[1..]) == KeysOf(r)[1..];
      CountOfAbsent(r[1..], k);
    }
  }

  /** Adds one occurrence of `k`: its count goes up by one and no other count changes. */
  function Bump(r: seq<Entry>, k: Key): (r': seq<Entry>)
    requires DistinctKeys(r)
    ensures DistinctKeys(r')
    ensures forall j :: j in KeysOf(r') <==> j == k || j in KeysOf(r)
    ensures forall j :: CountOf(r', j) == CountOf(r, j) + (if j == k then 1 else 0)
    ensures Total(r') == Total(r) + 1
  {
    if |r| == 0 then [Entry(k, 1)]
    else if r[0].key == k then
      assert KeysOf(r) == [k] + KeysOf(r[1..]);
      [Entry(k, r[0].count + 1)] + r[1..]
    else
      var b := Bump(r[1..], k);
      assert KeysOf(r) == [r[0].key] + KeysOf(r[1..]);
      assert r[0].key !in KeysOf(r[1..]);
      [r[0]] + b
  }

  /** Counts the occurrences of every key in `keys` (a hash-table count, before any sorting). */
  function Tally(keys: seq<Key>): (r: seq<Entry>)
    ensures DistinctKeys(r)
    ensures forall k :: k in KeysOf(r) <==> k in keys
    ensures forall k :: CountOf(r, k) == multiset(keys)[k]
    ensures Total(r) == |keys|
  {
    if |keys| == 0 then []
    else
      assert keys == [keys[0]] + keys[1..];
      Bump(Tally(keys[1..]), keys[0])
  }

  /** `before` relates any two entries with distinct keys, one way or the other. */
  ghost predicate Connected(before: (Entry, Entry) -> bool)
  {
    forall a: Entry, b: Entry :: a.key != b.key ==> before(a, b) || before(b, a)
  }

  /** `s` is ordered by `before`, stated on neighbours. */
  predicate SortedBy(s: seq<Entry>, before: (Entry, Entry) -> bool)
  {
    forall i :: 0 <= i < |s| - 1 ==> before(s[i], s[i + 1])
  }

  /** Inserts `e` in front of the first entry it comes `before`, or at the end. */
  function Insert(e: Entry, s: seq<Entry>, before: (Entry, Entry) -> bool): (r: seq<Entry>)
    ensures |r| == |s| + 1
  {
    if |s| == 0 || before(e, s[0]) then [e] + s else [s[0]] + Insert(e, s[1..], before)
  }

  /** `Insert` adds `e` and keeps every entry of `s`. */
  lemma {:induction false} InsertPermutes(e: Entry, s: seq<Entry>, before: (Entry, Entry) -> bool)
    ensures multiset(Insert(e, s, before)) == multiset(s) + multiset{e}
  {
    if |s| > 0 && !before(e, s[0]) {
      InsertPermutes(e, s[1..], before);
      assert s == [s[0]] + s[1..];
    }
  }

  /** Inserting a new key into a sorted list keeps it sorted; the head is `e` or the old head. */
  lemma {:induction false} InsertSorted(e: Entry, s: seq<Entry>, before: (Entry, Entry) -> bool)
    requires SortedBy(s, before)
    requires e.key !in KeysOf(s)
    requires Connected(before)
    ensures SortedBy(Insert(e, s, before), before)
    ensures Insert(e, s, before)[0] == e || (|s| > 0 && Insert(e, s, before)[0] == s[0])
  {
    if |s| == 0 || before(e, s[0]) {
      SortedCons(e, s, before);
    } else {
      assert KeysOf(s)[0] == s[0].key;
      assert KeysOf(s[1..]) == KeysOf(s)[1..];
      SortedTail(s, before);
      InsertSorted(e, s[1..], before);
      SortedCons(s[0], Insert(e, s[1..], before), before);
    }
  }

  /** The tail of a sorted list is sorted. */
  lemma SortedTail(s: seq<Entry>, before: (Entry, Entry) -> bool)
    requires SortedBy(s, before) && |s| > 0
    ensures SortedBy(s[1..], before)
  {
    forall i | 0 <= i < |s[1..]| - 1
      ensures before(s[1..][i], s[1..][i + 1])
    {
      assert s[1..][i] == s[i + 1] && s[1..][i + 1] == s[i + 2];
    }
  }

  /** An entry that comes before the head of a sorted list extends it. */
  lemma SortedCons(x: Entry, s: seq<Entry>, before: (Entry, Entry) -> bool)
    requires SortedBy(s, before)
    requires |s| > 0 ==> before(x, s[0])
    ensures SortedBy([x] + s, before)
  {
    var r := [x] + s;
    forall i | 0 <= i < |r| - 1
      ensures before(r[i], r[i + 1])
    {
      if i > 0 {
        assert r[i] == s[i - 1] && r[i + 1] == s[i];
      }
    }
  }

  /** `Insert` adds the group of `e` and keeps the groups of `s`, all distinct. */
  lemma {:induction false} InsertKeys(e: Entry, s: seq<Entry>, before: (Entry, Entry) -> bool)
    requires DistinctKeys(s) && e.key !in KeysOf(s)
    ensures DistinctKeys(Insert(e, s, before))
    ensures forall k :: k in KeysOf(Insert(e, s, before)) <==> k == e.key || k in KeysOf(s)
  {
    var r := Insert(e, s, before);
    if |s| == 0 || before(e, s[0]) {
      assert KeysOf([e] + s) == [e.key] + KeysOf(s);
    } else {
      assert KeysOf(s) == [s[0].key] + KeysOf(s[1..]);
      InsertKeys(e, s[1..], before);
      var rest := Insert(e, s[1..], before);
      assert r[1..] == rest;
      assert KeysOf(r) == [s[0].key] + KeysOf(rest);
    }
  }

  /** `Insert` stores the count of `e` and leaves every other count as it was. */
  lemma InsertCounts(e: Entry, s: seq<Entry>, before: (Entry, Entry) -> bool)
    requires e.key !in KeysOf(s)
    ensures forall k :: CountOf(Insert(e, s, before), k) == if k == e.key then e.count else CountOf(s, k)
    ensures Total(Insert(e, s, before)) == e.count + Total(s)
  {
    forall k
      ensures CountOf(Insert(e, s, before), k) == if k == e.key then e.count else CountOf(s, k)
    {
      InsertCountOf(e, s, before, k);
    }
    InsertTotal(e, s, before);
  }

  lemma {:induction false} InsertCountOf(e: Entry, s: seq<Entry>, before: (Entry, Entry) -> bool, k: Key)
    requires e.key !in KeysOf(s)
    ensures CountOf(Insert(e, s, before), k) == if k == e.key then e.count else CountOf(s, k)
  {
    var r := Insert(e, s, before);
    if |s| == 0 || before(e, s[0]) {
      assert r[1..] == s;
      if k == e.key {
        CountOfAbsent(s, k);
      }
    } else {
      assert KeysOf(s) == [s[0].key] + KeysOf(s[1..]);
      InsertCountOf(e, s[1..], before, k);
      assert r[1..] == Insert(e, s[1..], before);
    }
  }

  lemma {:induction false} InsertTotal(e: Entry, s: seq<Entry>, before: (Entry, Entry) -> bool)
    ensures Total(Insert(e, s, before)) == e.count + Total(s)
  {
    var r := Insert(e, s, before);
    if |s| == 0 || before(e, s[0]) {
      assert r[1..] == s;
    } else {
      InsertTotal(e, s[1..], before);
      assert r[1..] == Insert(e, s[1..], before);
    }
  }

  /** Insertion sort by `before`: a permutation of `s`. */
  function SortBy(s: seq<Entry>, before: (Entry, Entry) -> bool): (r: seq<Entry>)
    ensures multiset(r) == multiset(s)
  {
    if |s| == 0 then []
    else
      InsertPermutes(s[0], SortBy(s[1..], before), before);
      assert s == [s[0]] + s[1..];
      Insert(s[0], SortBy(s[1..], before), before)
  }

  /** Permuted entry lists have the same keys. */
  lemma KeysOfPermutation(a: seq<Entry>, b: seq<Entry>)
    requires multiset(a) == multiset(b)
    ensures forall k :: k in KeysOf(a) <==> k in KeysOf(b)
  {
    forall k | k in KeysOf(a)
      ensures k in KeysOf(b)
    {
      var j :| 0 <= j < |a| && KeysOf(a)[j] == k;
      assert a[j] in multiset(b);
      var m :| 0 <= m < |b| && b[m] == a[j];
      assert KeysOf(b)[m] == k;
    }
    forall k | k in KeysOf(b)
      ensures k in KeysOf(a)
    {
      var j :| 0 <= j < |b| && KeysOf(b)[j] == k;
      assert b[j] in multiset(a);
      var m :| 0 <= m < |a| && a[m] == b[j];
      assert KeysOf(a)[m] == k;
    }
  }

  /** The first key is not among the keys of the sorted rest. */
  lemma SortHeadFresh(s: seq<Entry>, before: (Entry, Entry) -> bool)
    requires DistinctKeys(s) && |s| > 0
    ensures s[0].key !in KeysOf(SortBy(s[1..], before))
  {
    KeysOfPermutation(SortBy(s[1..], before), s[1..]);
  }

  /** With distinct keys and a comparison that orders any two of them, the sort is ordered. */
  lemma {:induction false} SortSorted(s: seq<Entry>, before: (Entry, Entry) -> bool)
    requires DistinctKeys(s)
    requires Connected(before)
    ensures SortedBy(SortBy(s, before), before)
  {
    if |s| > 0 {
      SortSorted(s[1..], before);
      SortHeadFresh(s, before);
      InsertSorted(s[0], SortBy(s[1..], before), before);
    }
  }

  /** Sorting keeps the keys distinct. */
  lemma {:induction false} SortKeys(s: seq<Entry>, before: (Entry, Entry) -> bool)
    requires DistinctKeys(s)
    ensures DistinctKeys(SortBy(s, before))
  {
    if |s| > 0 {
      SortKeys(s[1..], before);
      SortHeadFresh(s, before);
      InsertKeys(s[0], SortBy(s[1..], before), before);
    }
  }

  /** Sorting keeps every group's count, and so the total. */
  lemma {:induction false} SortCounts(s: seq<Entry>, before: (Entry, Entry) -> bool)
    requires DistinctKeys(s)
    ensures forall k :: CountOf(SortBy(s, before), k) == CountOf(s, k)
    ensures Total(SortBy(s, before)) == Total(s)
  {
    if |s| > 0 {
      var rest := SortBy(s[1..], before);
      SortCounts(s[1..], before);
      SortHeadFresh(s, before);
      InsertCounts(s[0], rest, before);
    }
  }

  /** Ascending key order, as `groupby` and `sort_index` produce. */
  predicate ByKey(a: Entry, b: Entry)
  {
    KeyLess(a.key, b.key)
  }

  lemma ByKeyConnected()
    ensures Connected(ByKey)
  {
    forall a: Entry, b: Entry
      ensures a.key == b.key || ByKey(a, b) || ByKey(b, a)
    {
      KeyLessTotal(a.key, b.key);
    }
  }

  /** Keys sorted by `ByKey` on neighbours are strictly ascending throughout. */
  lemma {:induction false} ByKeyPairwise(s: seq<Entry>)
    requires SortedBy(s, ByKey)
    ensures forall i, j :: 0 <= i < j < |s| ==> KeyLess(s[i].key, s[j].key)
  {
    if |s| > 1 {
      ByKeyPairwise(s[1..]);
      forall i, j | 0 <= i < j < |s|
        ensures KeyLess(s[i].key, s[j].key)
      {
        if i == 0 && j > 1 {
          assert KeyLess(s[1..][0].key, s[1..][j - 1].key);
          KeyLessTransitive(s[0].key, s[1].key, s[j].key);
        } else if i > 0 {
          assert KeyLess(s[1..][i - 1].key, s[1..][j - 1].key);
        }
      }
    }
  }

  lemma {:induction false} DistinctKeysPairwise(r: seq<Entry>)
    requires DistinctKeys(r)
    ensures forall i, j :: 0 <= i < j < |r| ==> r[i].key != r[j].key
  {
    if |r| > 1 {
      DistinctKeysPairwise(r[1..]);
      forall i, j | 0 <= i < j < |r|
        ensures r[i].key != r[j].key
      {
        if i == 0 {
          assert KeysOf(r[1..])[j - 1] == r[j].key;
        } else {
          assert r[1..][i - 1].key != r[1..][j - 1].key;
        }
      }
    }
  }

  /**
   `value_counts` order: a larger count first; equal counts in order of first appearance in `col`.
   Two keys of a count of `col` never share a first appearance; the final `KeyLess` comparison only
   makes the order total on all entries.
   */
  predicate RankBefore(col: seq<Key>, a: Entry, b: Entry)
  {
    || a.count > b.count
    || (a.count == b.count && FirstIndex(col, a.key) < FirstIndex(col, b.key))
    || (a.count == b.count && FirstIndex(col, a.key) == FirstIndex(col, b.key) && KeyLess(a.key, b.key))
  }

  function RankOrder(col: seq<Key>): (Entry, Entry) -> bool
  {
    (a: Entry, b: Entry) => RankBefore(col, a, b)
  }

  lemma RankOrderConnected(col: seq<Key>)
    ensures Connected(RankOrder(col))
  {
    forall a: Entry, b: Entry
      ensures a.key == b.key || RankBefore(col, a, b) || RankBefore(col, b, a)
    {
      KeyLessTotal(a.key, b.key);
    }
  }

  lemma {:induction false} RankPairwise(s: seq<Entry>, col: seq<Key>)
    requires SortedBy(s, RankOrder(col))
    ensures forall i, j :: 0 <= i < j < |s| ==> RankBefore(col, s[i], s[j])
  {
    if |s| > 1 {
      RankPairwise(s[1..], col);
      forall i, j | 0 <= i < j < |s|
        ensures RankBefore(col, s[i], s[j])
      {
        if i == 0 && j > 1 {
          assert RankBefore(col, s[0], s[1]);
          assert RankBefore(col, s[1..][0], s[1..][j - 1]);
          if s[0].count == s[1].count == s[j].count
            && FirstIndex(col, s[0].key) == FirstIndex(col, s[1].key) == FirstIndex(col, s[j].key)
          {
            KeyLessTransitive(s[0].key, s[1].key, s[j].key);
          }
        } else if i > 0 {
          assert RankBefore(col, s[1..][i - 1], s[1..][j - 1]);
        }
      }
    }
  }

  /** A list sorted by `RankOrder` whose keys all occur in `col` is by descending count, ties by first appearance. */
  lemma RankedByCount(r: seq<Entry>, col: seq<Key>)
    requires SortedBy(r, RankOrder(col))
    requires DistinctKeys(r)
    requires forall k :: k in KeysOf(r) ==> k in col
    ensures forall i, j :: 0 <= i < j < |r| ==> r[i].count >= r[j].count
    ensures forall i, j :: 0 <= i < j < |r| && r[i].count == r[j].count ==>
      FirstIndex(col, r[i].key) < FirstIndex(col, r[j].key)
  {
    RankPairwise(r, col);
    DistinctKeysPairwise(r);
    forall i, j | 0 <= i < j < |r|
      ensures r[i].count >= r[j].count
      ensures r[i].count == r[j].count ==> FirstIndex(col, r[i].key) < FirstIndex(col, r[j].key)
    {
      assert KeysOf(r)[i] == r[i].key && KeysOf(r)[j] == r[j].key;
      RankedPair(col, r[i], r[j]);
    }
  }

  /** Of two ranked entries with different keys that both occur in `col`, the first ties only with a later first appearance. */
  lemma RankedPair(col: seq<Key>, a: Entry, b: Entry)
    requires RankBefore(col, a, b)
    requires a.key != b.key && a.key in col && b.key in col
    ensures a.count >= b.count
    ensures a.count == b.count ==> FirstIndex(col, a.key) < FirstIndex(col, b.key)
  {
  }

  /**
   `groupby(...).size()`: one entry per non-missing value of `f`, ascending by key, each holding
   the number of rows with that value.
   */
  function GroupSizes<T(==,!new)>(t: seq<T>, f: T -> Option<Key>): (r: seq<Entry>)
    ensures forall i, j :: 0 <= i < j < |r| ==> KeyLess(r[i].key, r[j].key)
    ensures forall k :: k in KeysOf(r) <==> exists x :: x in t && f(x) == Some(k)
    ensures forall k :: CountOf(r, k) == CountKey(t, f, k)
    ensures Total(r) == CountPresent(t, f)
    ensures DistinctKeys(r)
  {
    var tally := Tally(Column(t, f));
    ByKeyConnected();
    var r := SortBy(tally, ByKey);
    SortSorted(tally, ByKey);
    SortKeys(tally, ByKey);
    ByKeyPairwise(r);
    SortCounts(tally, ByKey);
    KeysOfPermutation(r, tally);
    r
  }

  /**
   `value_counts()`: one entry per non-missing value of `f`, by descending count, equal counts
   in order of first appearance, each holding the number of rows with that value.
   */
  function ValueCounts<T(==,!new)>(t: seq<T>, f: T -> Option<Key>): (r: seq<Entry>)
    ensures DistinctKeys(r)
    ensures forall k :: k in KeysOf(r) <==> exists x :: x in t && f(x) == Some(k)
    ensures forall k :: CountOf(r, k) == CountKey(t, f, k)
    ensures Total(r) == CountPresent(t, f)
    ensures forall i, j :: 0 <= i < j < |r| ==> r[i].count >= r[j].count
    ensures forall i, j :: 0 <= i < j < |r| && r[i].count == r[j].count ==>
      FirstRow(t, f, r[i].key) < FirstRow(t, f, r[j].key)
  {
    var col := Column(t, f);
    var tally := Tally(col);
    RankOrderConnected(col);
    var r := SortBy(tally, RankOrder(col));
    SortSorted(tally, RankOrder(col));
    SortKeys(tally, RankOrder(col));
    SortCounts(tally, RankOrder(col));
    KeysOfPermutation(r, tally);
    RankedByCount(r, col);
    forall i, j | 0 <= i < j < |r| && r[i].count == r[j].count
      ensures FirstRow(t, f, r[i].key) < FirstRow(t, f, r[j].key)
    {
      FirstIndexFirstRow(t, f, r[i].key, r[j].key);
    }
    r
  }
}
