/**
 The tables the dashboard's charts are drawn from, each computed from the filtered table:
 prizes per category, the leading birth countries, laureates per (year, sex), solo against
 shared prizes, prizes per decade, and categories within the five leading countries.
 */
module Views {
  import opened Options
  import opened Seqs
  import opened Keys
  import opened Tally
  import opened Records

  /** How many countries the bar chart, the geographic table and the category breakdown show. */
  const ChartedCountries: nat := 10
  const TabledCountries: nat := 20
  const BreakdownCountries: nat := 5

  function CategoryKey(x: Record): Option<Key>
  {
    Some(StrKey(x.category))
  }

  function CountryKey(x: Record): Option<Key>
  {
    if x.birthCountry.Some? then Some(StrKey(x.birthCountry.value)) else None
  }

  function DecadeKey(x: Record): Option<Key>
  {
    Some(IntKey(Decade(x.awardYear)))
  }

  function YearSexKey(x: Record): Option<Key>
  {
    if x.sex.Some? then Some(PairKey(IntKey(x.awardYear), StrKey(x.sex.value))) else None
  }

  function SharedKey(x: Record): Option<Key>
  {
    if x.isShared.Some? then Some(IntKey(x.isShared.value)) else None
  }

  function CountryCategoryKey(x: Record): Option<Key>
  {
    if x.birthCountry.Some? then Some(PairKey(StrKey(x.birthCountry.value), StrKey(x.category))) else None
  }

  /** `category.value_counts().sort_index()`: prizes per category, categories ascending. */
  function CategoryCounts(t: seq<Record>): (r: seq<Entry>)
    ensures forall i, j :: 0 <= i < j < |r| ==> KeyLess(r[i].key, r[j].key)
    ensures forall k :: k in KeysOf(r) <==> exists x :: x in t && k == StrKey(x.category)
    ensures forall c :: CountOf(r, StrKey(c)) == Count(t, (x: Record) => x.category == c)
    ensures Total(r) == |t|
  {
    var r := GroupSizes(t, CategoryKey);
    assert forall c :: CountOf(r, StrKey(c)) == Count(t, (x: Record) => x.category == c) by {
      forall c ensures CountOf(r, StrKey(c)) == Count(t, (x: Record) => x.category == c) {
        CountKeyIsCount(t, CategoryKey, StrKey(c), (x: Record) => x.category == c);
      }
    }
    CountPresentIsCount(t, CategoryKey, (x: Record) => true);
    CountAll(t, (x: Record) => true);
    r
  }

  /** Sorting by category reorders `value_counts()` and changes no entry. */
  lemma CategoryCountsReorderValueCounts(t: seq<Record>)
    ensures multiset(CategoryCounts(t)) == multiset(ValueCounts(t, CategoryKey))
  {
    SameEntries(CategoryCounts(t), ValueCounts(t, CategoryKey));
  }

  /** `(award_year // 10) * 10`: the decade a year falls in (floor division, also below zero). */
  function Decade(year: int): (d: int)
    ensures d <= year < d + 10
    ensures d % 10 == 0
  {
    (year / 10) * 10
  }

  /** A multiple of ten whose ten-year span holds `year` is that year's decade. */
  lemma DecadeUnique(year: int, d: int)
    requires d % 10 == 0 && d <= year < d + 10
    ensures Decade(year) == d
  {
    var e := Decade(year);
    assert (d - e) % 10 == 0;
    assert -10 < d - e < 10;
  }

  /** `groupby("decade").size()`: prizes per decade, decades ascending. */
  function DecadeCounts(t: seq<Record>): (r: seq<Entry>)
    ensures forall i :: 0 <= i < |r| ==> r[i].key.IntKey? && r[i].key.i % 10 == 0
    ensures forall i, j :: 0 <= i < j < |r| ==> r[i].key.i < r[j].key.i
    ensures forall k :: k in KeysOf(r) <==> exists x :: x in t && k == IntKey(Decade(x.awardYear))
    ensures forall d :: d % 10 == 0 ==>
      CountOf(r, IntKey(d)) == Count(t, (x: Record) => d <= x.awardYear < d + 10)
    ensures Total(r) == |t|
  {
    var r := GroupSizes(t, DecadeKey);
    forall i | 0 <= i < |r|
      ensures r[i].key.IntKey? && r[i].key.i % 10 == 0
    {
      assert r[i].key in KeysOf(r);
    }
    forall d | d % 10 == 0
      ensures CountOf(r, IntKey(d)) == Count(t, (x: Record) => d <= x.awardYear < d + 10)
    {
      forall x: Record | x in t
        ensures (d <= x.awardYear < d + 10) == (DecadeKey(x) == Some(IntKey(d)))
      {
        if d <= x.awardYear < d + 10 {
          DecadeUnique(x.awardYear, d);
        }
      }
      CountKeyIsCount(t, DecadeKey, IntKey(d), (x: Record) => d <= x.awardYear < d + 10);
    }
    CountPresentIsCount(t, DecadeKey, (x: Record) => true);
    CountAll(t, (x: Record) => true);
    r
  }

  /** `groupby(["award_year", "sex"]).size()`: laureates per (year, sex); rows without a sex drop out. */
  function GenderByYear(t: seq<Record>): (r: seq<Entry>)
    ensures forall i, j :: 0 <= i < j < |r| ==> KeyLess(r[i].key, r[j].key)
    ensures forall k :: k in KeysOf(r) <==>
      exists x :: x in t && x.sex.Some? && k == PairKey(IntKey(x.awardYear), StrKey(x.sex.value))
    ensures forall y, g :: CountOf(r, PairKey(IntKey(y), StrKey(g))) ==
                           Count(t, (x: Record) => x.awardYear == y && x.sex == Some(g))
    ensures Total(r) == Count(t, (x: Record) => x.sex.Some?)
  {
    var r := GroupSizes(t, YearSexKey);
    assert forall y, g :: CountOf(r, PairKey(IntKey(y), StrKey(g))) ==
                          Count(t, (x: Record) => x.awardYear == y && x.sex == Some(g)) by {
      forall y, g ensures CountOf(r, PairKey(IntKey(y), StrKey(g))) ==
        Count(t, (x: Record) => x.awardYear == y && x.sex == Some(g))
      {
        CountKeyIsCount(t, YearSexKey, PairKey(IntKey(y), StrKey(g)), (x: Record) => x.awardYear == y && x.sex == Some(g));
      }
    }
    CountPresentIsCount(t, YearSexKey, (x: Record) => x.sex.Some?);
    r
  }

  /** The two slices of the sharing pie: `shared_counts.get(0, 0)` and `shared_counts.get(1, 0)`. */
  datatype ShareSplit = ShareSplit(solo: nat, shared: nat)

  /** `is_shared.value_counts()` read at 0 and at 1; any other value is in neither slice. */
  function SharingSplit(t: seq<Record>): (s: ShareSplit)
    ensures s.solo == Count(t, (x: Record) => x.isShared == Some(0))
    ensures s.shared == Count(t, (x: Record) => x.isShared == Some(1))
    ensures s.solo + s.shared <= |t|
  {
    var counts := ValueCounts(t, SharedKey);
    CountKeyIsCount(t, SharedKey, IntKey(0), (x: Record) => x.isShared == Some(0));
    CountKeyIsCount(t, SharedKey, IntKey(1), (x: Record) => x.isShared == Some(1));
    CountDisjoint(t, (x: Record) => x.isShared == Some(0), (x: Record) => x.isShared == Some(1),
      (x: Record) => x.isShared == Some(0) || x.isShared == Some(1));
    ShareSplit(CountOf(counts, IntKey(0)), CountOf(counts, IntKey(1)))
  }

  /** When every row is marked 0 or 1, the two slices together are the whole table. */
  lemma SharingSplitCoversAll(t: seq<Record>)
    requires forall x :: x in t ==> x.isShared == Some(0) || x.isShared == Some(1)
    ensures SharingSplit(t).solo + SharingSplit(t).shared == |t|
  {
    CountDisjoint(t, (x: Record) => x.isShared == Some(0), (x: Record) => x.isShared == Some(1),
      (x: Record) => x.isShared == Some(0) || x.isShared == Some(1));
    CountAll(t, (x: Record) => x.isShared == Some(0) || x.isShared == Some(1));
  }

  /** The sharing pie and the decade bars, both drawn only when the table has an `is_shared` column. */
  datatype SharingPanels = SharingPanels(split: ShareSplit, decades: seq<Entry>)

  function SharingAndDecades(t: seq<Record>, hasSharedColumn: bool): (p: Option<SharingPanels>)
    ensures p.Some? <==> hasSharedColumn
    ensures p.Some? ==> p.value.split.solo == Count(t, (x: Record) => x.isShared == Some(0))
    ensures p.Some? ==> p.value.split.shared == Count(t, (x: Record) => x.isShared == Some(1))
    ensures p.Some? ==> Total(p.value.decades) == |t|
    ensures p.Some? ==> p.value.split == SharingSplit(t) && p.value.decades == DecadeCounts(t)
  {
    if hasSharedColumn then Some(SharingPanels(SharingSplit(t), DecadeCounts(t))) else None
  }

  /**
   `birth_country.value_counts().head(n)`: at most `n` countries, most laureates first, equal
   counts in order of first appearance; a country left off has no more laureates than the last
   one listed, and is only left off when the list is full.
   */
  function TopCountries(t: seq<Record>, n: nat): (r: seq<Entry>)
    ensures |r| <= n
    ensures forall i, j :: 0 <= i < j < |r| ==> r[i].key != r[j].key
    ensures forall i :: 0 <= i < |r| ==>
      r[i].key.StrKey? && 0 < r[i].count == Count(t, (x: Record) => x.birthCountry == Some(r[i].key.s))
    ensures forall i, j :: 0 <= i < j < |r| ==> r[i].count >= r[j].count
    ensures forall i, j :: 0 <= i < j < |r| && r[i].count == r[j].count ==>
      FirstRow(t, CountryKey, r[i].key) < FirstRow(t, CountryKey, r[j].key)
    ensures forall c :: (exists x :: x in t && x.birthCountry == Some(c)) && StrKey(c) !in KeysOf(r) ==>
      |r| == n && (n > 0 ==> Count(t, (x: Record) => x.birthCountry == Some(c)) <= r[n - 1].count)
  {
    var vc := ValueCounts(t, CountryKey);
    var r := Take(vc, n);
    TakePrefix(vc, n);
    DistinctKeysPairwise(vc);
    TopCountriesListed(t, n);
    TopCountriesUnlisted(t, n);
    r
  }

  /** The first `n` entries are a prefix. */
  lemma TakePrefix(r: seq<Entry>, n: nat)
    ensures |Take(r, n)| <= n && |Take(r, n)| <= |r|
    ensures forall i :: 0 <= i < |Take(r, n)| ==> Take(r, n)[i] == r[i]
    ensures |Take(r, n)| < n ==> Take(r, n) == r
  {
  }

  /** A shorter top list is the beginning of a longer one. */
  lemma TopCountriesPrefix(t: seq<Record>, m: nat, n: nat)
    requires m <= n
    ensures |TopCountries(t, m)| <= |TopCountries(t, n)|
    ensures forall i :: 0 <= i < |TopCountries(t, m)| ==> TopCountries(t, m)[i] == TopCountries(t, n)[i]
  {
    var vc := ValueCounts(t, CountryKey);
    TakeTake(vc, m, n);
    TakePrefix(Take(vc, n), m);
  }

  /** Every listed country occurs in the table, with its exact number of rows. */
  lemma TopCountriesListed(t: seq<Record>, n: nat)
    ensures forall i :: 0 <= i < |Take(ValueCounts(t, CountryKey), n)| ==>
      var e := Take(ValueCounts(t, CountryKey), n)[i];
      e.key.StrKey? && 0 < e.count == Count(t, (x: Record) => x.birthCountry == Some(e.key.s))
  {
    var vc := ValueCounts(t, CountryKey);
    TakePrefix(vc, n);
    forall i | 0 <= i < |Take(vc, n)|
      ensures vc[i].key.StrKey? && 0 < vc[i].count == Count(t, (x: Record) => x.birthCountry == Some(vc[i].key.s))
    {
      assert vc[i].key in KeysOf(vc);
      var x :| x in t && CountryKey(x) == Some(vc[i].key);
      CountOfEntry(vc, i);
      CountKeyIsCount(t, CountryKey, vc[i].key, (y: Record) => y.birthCountry == Some(vc[i].key.s));
      CountPositive(t, (y: Record) => y.birthCountry == Some(vc[i].key.s), x);
    }
  }

  /** A country that occurs but is not listed means the list is full and ends at least as high. */
  lemma TopCountriesUnlisted(t: seq<Record>, n: nat)
    ensures forall c :: (exists x :: x in t && x.birthCountry == Some(c)) &&
                        StrKey(c) !in KeysOf(Take(ValueCounts(t, CountryKey), n)) ==>
      |Take(ValueCounts(t, CountryKey), n)| == n &&
      (n > 0 ==> Count(t, (x: Record) => x.birthCountry == Some(c)) <= Take(ValueCounts(t, CountryKey), n)[n - 1].count)
  {
    var vc := ValueCounts(t, CountryKey);
    forall c | (exists x :: x in t && x.birthCountry == Some(c)) && StrKey(c) !in KeysOf(Take(vc, n))
      ensures |Take(vc, n)| == n &&
        (n > 0 ==> Count(t, (x: Record) => x.birthCountry == Some(c)) <= Take(vc, n)[n - 1].count)
    {
      var x :| x in t && x.birthCountry == Some(c);
      assert CountryKey(x) == Some(StrKey(c));
      TakeOmits(vc, n, StrKey(c));
      CountKeyIsCount(t, CountryKey, StrKey(c), (y: Record) => y.birthCountry == Some(c));
    }
  }

  /** Whether a row's birth country is one of the keys `top` lists. */
  predicate InTop(top: seq<Key>, x: Record)
  {
    x.birthCountry.Some? && StrKey(x.birthCountry.value) in top
  }

  /**
   The rows born in one of the five leading countries, grouped by (birth country, category):
   `groupby(["birth_country", "category"]).size()` of the `isin(top_5_countries)` rows.
   */
  function CategoryByTopCountries(t: seq<Record>): (r: seq<Entry>)
    ensures forall i, j :: 0 <= i < j < |r| ==> KeyLess(r[i].key, r[j].key)
    ensures forall k :: k in KeysOf(r) ==>
      k.PairKey? && k.fst in KeysOf(TopCountries(t, BreakdownCountries)) && k.snd.StrKey?
    ensures forall k :: k in KeysOf(r) <==>
      exists x :: x in t && InTop(KeysOf(TopCountries(t, BreakdownCountries)), x) &&
        k == PairKey(StrKey(x.birthCountry.value), StrKey(x.category))
    ensures forall c, g :: CountOf(r, PairKey(StrKey(c), StrKey(g))) ==
                           if StrKey(c) in KeysOf(TopCountries(t, BreakdownCountries))
                           then Count(t, (x: Record) => x.birthCountry == Some(c) && x.category == g)
                           else 0
    ensures Total(r) == Count(t, (x: Record) => InTop(KeysOf(TopCountries(t, BreakdownCountries)), x))
  {
    var top := KeysOf(TopCountries(t, BreakdownCountries));
    var rows := Where(t, (x: Record) => InTop(top, x));
    var r := GroupSizes(rows, CountryCategoryKey);
    forall k | k in KeysOf(r)
      ensures k.PairKey? && k.fst in top && k.snd.StrKey?
    {
      var x :| x in rows && CountryCategoryKey(x) == Some(k);
    }
    forall c, g
      ensures CountOf(r, PairKey(StrKey(c), StrKey(g))) ==
        if StrKey(c) in top then Count(t, (x: Record) => x.birthCountry == Some(c) && x.category == g) else 0
    {
      CountCategoryInTop(t, top, c, g);
    }
    CountPresentIsCount(rows, CountryCategoryKey, (x: Record) => true);
    CountAll(rows, (x: Record) => true);
    r
  }

  /** The count behind one bar of the category breakdown. */
  lemma CountCategoryInTop(t: seq<Record>, top: seq<Key>, c: string, g: string)
    ensures CountKey(Where(t, (x: Record) => InTop(top, x)), CountryCategoryKey, PairKey(StrKey(c), StrKey(g))) ==
      if StrKey(c) in top then Count(t, (x: Record) => x.birthCountry == Some(c) && x.category == g) else 0
  {
    var rows := Where(t, (x: Record) => InTop(top, x));
    var q := (x: Record) => x.birthCountry == Some(c) && x.category == g;
    var both := (x: Record) => InTop(top, x) && q(x);
    CountKeyIsCount(rows, CountryCategoryKey, PairKey(StrKey(c), StrKey(g)), q);
    CountWhere(t, (x: Record) => InTop(top, x), q, both);
    if StrKey(c) in top {
      CountCongruent(t, both, q);
    } else {
      CountNone(t, both);
    }
  }
}
