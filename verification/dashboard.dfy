/**
 One render of the dashboard, without the widgets and charts: the selections filter the table once,
 and the summary figures and every chart's table are computed from the same filtered rows.
 */
module Dashboard {
  import opened Options
  import opened Seqs
  import opened Keys
  import opened Tally
  import opened Records
  import opened Filter
  import opened Stats
  import opened Views

  datatype Dashboard = Dashboard(
    rows: seq<Record>,                // the filtered table shown in the data tab
    stats: Stats,                     // the four overview metrics
    categories: seq<Entry>,           // prizes by category
    topCountries: seq<Entry>,         // the top-10 country bars
    genderByYear: seq<Entry>,         // the gender line chart
    sharing: Option<SharingPanels>,   // the sharing pie and decade bars, when `is_shared` exists
    countryTable: seq<Entry>,         // the top-20 country table
    breakdown: seq<Entry>             // categories within the top-5 countries
  )

  function Render(t: seq<Record>, spec: FilterSpec, hasSharedColumn: bool): (d: Dashboard)
    ensures forall x :: x in d.rows <==> x in t && Matches(spec, x)
    ensures IsSubsequence(d.rows, t)
    ensures |d.rows| == Count(t, (x: Record) => Matches(spec, x))
    ensures d.stats == CalculateStats(d.rows)
    ensures d.categories == CategoryCounts(d.rows)
    ensures d.topCountries == TopCountries(d.rows, ChartedCountries)
    ensures d.genderByYear == GenderByYear(d.rows)
    ensures d.sharing == SharingAndDecades(d.rows, hasSharedColumn)
    ensures d.countryTable == TopCountries(d.rows, TabledCountries)
    ensures d.breakdown == CategoryByTopCountries(d.rows)
    ensures d.stats.totalPrizes == |d.rows| == Total(d.categories)
    ensures Total(d.genderByYear) == Total(d.stats.genderSplit)
    ensures d.sharing.Some? <==> hasSharedColumn
    ensures d.sharing.Some? ==> Total(d.sharing.value.decades) == |d.rows|
    ensures Total(d.breakdown) <= |d.rows|
    ensures spec.gender != AllValues ==>
      forall k :: k in KeysOf(d.stats.genderSplit) ==> k == StrKey(Lower(spec.gender))
  {
    var rows := FilterData(t, spec);
    FilterIsConjunction(t, spec);
    Dashboard(
      rows,
      CalculateStats(rows),
      CategoryCounts(rows),
      TopCountries(rows, ChartedCountries),
      GenderByYear(rows),
      SharingAndDecades(rows, hasSharedColumn),
      TopCountries(rows, TabledCountries),
      CategoryByTopCountries(rows))
  }

  /** The top-10 bar chart lists the first ten countries of the top-20 table. */
  lemma RenderCountriesAgree(t: seq<Record>, spec: FilterSpec, hasSharedColumn: bool)
    ensures var d := Render(t, spec, hasSharedColumn);
      && |d.topCountries| <= ChartedCountries
      && |d.countryTable| <= TabledCountries
      && forall i :: 0 <= i < |d.topCountries| ==> i < |d.countryTable| && d.topCountries[i] == d.countryTable[i]
  {
    TopCountriesPrefix(FilterData(t, spec), ChartedCountries, TabledCountries);
  }

  /**
   The figures behind the "Female %" metric: women, and women and men together, read from the
   gender split with a default of 0. The percentage is the first over the second, or 0 when the
   second is 0.
   */
  function FemaleShare(t: seq<Record>): (r: (nat, nat))
    ensures r.0 == Count(t, (x: Record) => x.sex == Some("female"))
    ensures r.1 == Count(t, (x: Record) => x.sex == Some("male") || x.sex == Some("female"))
    ensures r.0 <= r.1
  {
    var split := GenderSplit(t);
    assert |"male"| != |"female"|;
    var male := CountOf(split, StrKey("male"));
    var female := CountOf(split, StrKey("female"));
    CountDisjoint(t, (x: Record) => x.sex == Some("male"), (x: Record) => x.sex == Some("female"),
      (x: Record) => x.sex == Some("male") || x.sex == Some("female"));
    (female, male + female)
  }
}
