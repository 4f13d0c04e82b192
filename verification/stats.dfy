/**
 `calculate_stats`: the summary figures of a (filtered) table. Distinct counts ignore missing
 values; the gender split counts the rows of each non-missing `sex` value.
 */
module Stats {
  import opened Options
  import opened Seqs
  import opened Keys
  import opened Tally
  import opened Records

  datatype Stats = Stats(totalPrizes: nat, totalLaureates: nat, countriesCount: nat, genderSplit: seq<Entry>)

  function SexKey(x: Record): Option<Key>
  {
    if x.sex.Some? then Some(StrKey(x.sex.value)) else None
  }

  /** The distinct non-missing laureate ids of `t`. */
  ghost function LaureateIds(t: seq<Record>): set<int>
  {
    set x | x in t && x.laureateId.Some? :: x.laureateId.value
  }

  /** The distinct non-missing birth countries of `t`. */
  ghost function BirthCountries(t: seq<Record>): set<string>
  {
    set x | x in t && x.birthCountry.Some? :: x.birthCountry.value
  }

  /** `int(df["laureate_id"].nunique())`. */
  function TotalLaureates(t: seq<Record>): (n: nat)
    ensures n == |LaureateIds(t)| <= |t|
  {
    var ids := Column(t, (x: Record) => x.laureateId);
    assert (set k | k in ids) == LaureateIds(t);
    NUnique(ids)
  }

  /** `int(df["birth_country"].nunique())`. */
  function CountriesCount(t: seq<Record>): (n: nat)
    ensures n == |BirthCountries(t)| <= |t|
  {
    var countries := Column(t, (x: Record) => x.birthCountry);
    assert (set c | c in countries) == BirthCountries(t);
    NUnique(countries)
  }

  /** `df["sex"].value_counts().to_dict()`. */
  function GenderSplit(t: seq<Record>): (r: seq<Entry>)
    ensures forall g :: CountOf(r, StrKey(g)) == Count(t, (x: Record) => x.sex == Some(g))
    ensures DistinctKeys(r)
    ensures forall k :: k in KeysOf(r) <==> exists x :: x in t && x.sex.Some? && k == StrKey(x.sex.value)
    ensures Total(r) == Count(t, (x: Record) => x.sex.Some?)
    ensures |t| == 0 ==> r == []
  {
    var r := ValueCounts(t, SexKey);
    assert forall g :: CountOf(r, StrKey(g)) == Count(t, (x: Record) => x.sex == Some(g)) by {
      forall g ensures CountOf(r, StrKey(g)) == Count(t, (x: Record) => x.sex == Some(g)) {
        CountKeyIsCount(t, SexKey, StrKey(g), (x: Record) => x.sex == Some(g));
      }
    }
    CountPresentIsCount(t, SexKey, (x: Record) => x.sex.Some?);
    r
  }

  /** `calculate_stats`. */
  function CalculateStats(t: seq<Record>): (s: Stats)
    ensures s.totalPrizes == |t|
    ensures s.totalLaureates == |LaureateIds(t)| <= s.totalPrizes
    ensures s.countriesCount == |BirthCountries(t)| <= s.totalPrizes
    ensures DistinctKeys(s.genderSplit)
    ensures forall k :: k in KeysOf(s.genderSplit) <==>
      exists x :: x in t && x.sex.Some? && k == StrKey(x.sex.value)
    ensures forall g :: CountOf(s.genderSplit, StrKey(g)) == Count(t, (x: Record) => x.sex == Some(g))
    ensures Total(s.genderSplit) == Count(t, (x: Record) => x.sex.Some?)
    ensures |t| == 0 ==> s == Stats(0, 0, 0, [])
  {
    Stats(|t|, TotalLaureates(t), CountriesCount(t), GenderSplit(t))
  }
}
