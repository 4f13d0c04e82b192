/**
 The five-row sample table the unit tests run against, and what the filters, the summary and the
 sharing split give on it.
 */
module Scenarios {
  import opened Options
  import opened Seqs
  import opened Keys
  import opened Tally
  import opened Records
  import opened Filter
  import opened Stats
  import opened Views

  /** The sample table, row by row. */
  predicate IsSample(t: seq<Record>)
  {
    && |t| == 5
    && t[0] == Record(1901, "Physics", Some("male"), Some("Germany"), Some(1), Some(0))
    && t[1] == Record(1902, "Chemistry", Some("female"), Some("Poland"), Some(2), Some(1))
    && t[2] == Record(1903, "Physics", Some("male"), Some("France"), Some(3), Some(0))
    && t[3] == Record(1904, "Literature", Some("male"), Some("USA"), Some(4), Some(0))
    && t[4] == Record(1905, "Peace", Some("female"), Some("Sweden"), Some(5), Some(1))
  }

  /** A count over five elements, element by element. */
  lemma {:induction false} CountFive<T>(s: seq<T>, p: T -> bool)
    requires |s| == 5
    ensures Count(s, p) == (if p(s[0]) then 1 else 0) + (if p(s[1]) then 1 else 0) + (if p(s[2]) then 1 else 0)
                           + (if p(s[3]) then 1 else 0) + (if p(s[4]) then 1 else 0)
  {
    var s1, s2, s3, s4 := s[1..], s[2..], s[3..], s[4..];
    assert s1[0] == s[1] && s1[1..] == s2;
    assert s2[0] == s[2] && s2[1..] == s3;
    assert s3[0] == s[3] && s3[1..] == s4;
    assert s4[0] == s[4] && |s4[1..]| == 0;
    assert Count(s4, p) == if p(s[4]) then 1 else 0;
    assert Count(s3, p) == (if p(s[3]) then 1 else 0) + Count(s4, p);
    assert Count(s2, p) == (if p(s[2]) then 1 else 0) + Count(s3, p);
    assert Count(s1, p) == (if p(s[1]) then 1 else 0) + Count(s2, p);
  }

  /** The number of sample rows a filter keeps is the number of rows that match it. */
  lemma FilterSize(t: seq<Record>, spec: FilterSpec)
    requires IsSample(t)
    ensures |FilterData(t, spec)| ==
              (if Matches(spec, t[0]) then 1 else 0) + (if Matches(spec, t[1]) then 1 else 0)
              + (if Matches(spec, t[2]) then 1 else 0) + (if Matches(spec, t[3]) then 1 else 0)
              + (if Matches(spec, t[4]) then 1 else 0)
  {
    FilterIsConjunction(t, spec);
    CountFive(t, (x: Record) => Matches(spec, x));
  }

  /** Years 1902 to 1904 keep three rows, all inside the range. */
  lemma YearRangeScenario(t: seq<Record>)
    requires IsSample(t)
    ensures |FilterData(t, FilterSpec((1902, 1904), [], "All", "All"))| == 3
    ensures forall x :: x in FilterData(t, FilterSpec((1902, 1904), [], "All", "All")) ==>
      1902 <= x.awardYear <= 1904
  {
    var spec := FilterSpec((1902, 1904), [], "All", "All");
    FilterSize(t, spec);
    assert Matches(spec, t[1]) && Matches(spec, t[2]) && Matches(spec, t[3]);
    assert !Matches(spec, t[0]) && !Matches(spec, t[4]);
  }

  /** Physics keeps its two rows. */
  lemma CategoryScenario(t: seq<Record>)
    requires IsSample(t)
    ensures |FilterData(t, FilterSpec((1901, 1905), ["Physics"], "All", "All"))| == 2
    ensures forall x :: x in FilterData(t, FilterSpec((1901, 1905), ["Physics"], "All", "All")) ==>
      x.category == "Physics"
  {
    var spec := FilterSpec((1901, 1905), ["Physics"], "All", "All");
    FilterSize(t, spec);
    PhysicsRows(t, spec);
  }

  /** Which sample rows the Physics selection matches. */
  lemma PhysicsRows(t: seq<Record>, spec: FilterSpec)
    requires IsSample(t) && spec == FilterSpec((1901, 1905), ["Physics"], "All", "All")
    ensures Matches(spec, t[0]) && Matches(spec, t[2])
    ensures !Matches(spec, t[1]) && !Matches(spec, t[3]) && !Matches(spec, t[4])
  {
    assert !InCategories(["Physics"], t[1]) by { assert |t[1].category| == 9; }
    assert !InCategories(["Physics"], t[3]) by { assert |t[3].category| == 10; }
    assert !InCategories(["Physics"], t[4]) by { assert |t[4].category| == 5; }
  }

  /** The selector "Female" keeps the two rows whose sex is "female". */
  lemma GenderScenario(t: seq<Record>)
    requires IsSample(t)
    ensures |FilterData(t, FilterSpec((1901, 1905), [], "Female", "All"))| == 2
    ensures forall x :: x in FilterData(t, FilterSpec((1901, 1905), [], "Female", "All")) ==>
      x.sex == Some("female")
  {
    var spec := FilterSpec((1901, 1905), [], "Female", "All");
    GenderSelectorsLowercase();
    FilterSize(t, spec);
    assert Matches(spec, t[1]) && Matches(spec, t[4]);
    assert !Matches(spec, t[0]) && !Matches(spec, t[2]) && !Matches(spec, t[3]);
  }

  /** Germany keeps its one row. */
  lemma CountryScenario(t: seq<Record>)
    requires IsSample(t)
    ensures |FilterData(t, FilterSpec((1901, 1905), [], "All", "Germany"))| == 1
    ensures forall x :: x in FilterData(t, FilterSpec((1901, 1905), [], "All", "Germany")) ==>
      x.birthCountry == Some("Germany")
  {
    var spec := FilterSpec((1901, 1905), [], "All", "Germany");
    FilterSize(t, spec);
    assert Matches(spec, t[0]);
    assert !Matches(spec, t[1]) && !Matches(spec, t[2]) && !Matches(spec, t[3]) && !Matches(spec, t[4]);
  }

  /** A category no row has leaves nothing. */
  lemma AbsentCategoryScenario(t: seq<Record>)
    requires IsSample(t)
    ensures FilterData(t, FilterSpec((1901, 1905), ["Economics"], "All", "All")) == []
  {
    FilterAbsentCategory(t, FilterSpec((1901, 1905), ["Economics"], "All", "All"));
  }

  /** Selecting every category the sample has keeps the whole sample. */
  lemma AllCategoriesScenario(t: seq<Record>)
    requires IsSample(t)
    ensures FilterData(t, FilterSpec((1901, 1905), ["Physics", "Chemistry", "Literature", "Peace"], "All", "All"))
      == t
  {
    FilterIdentity(t, FilterSpec((1901, 1905), ["Physics", "Chemistry", "Literature", "Peace"], "All", "All"));
  }

  /** Five distinct laureate ids. */
  lemma SampleLaureates(t: seq<Record>)
    requires IsSample(t)
    ensures LaureateIds(t) == {1, 2, 3, 4, 5}
    ensures |LaureateIds(t)| == 5
  {
    assert t[0].laureateId.value == 1 && t[1].laureateId.value == 2 && t[2].laureateId.value == 3;
    assert t[3].laureateId.value == 4 && t[4].laureateId.value == 5;
  }

  /** Five distinct birth countries. */
  lemma SampleCountries(t: seq<Record>)
    requires IsSample(t)
    ensures BirthCountries(t) == {"Germany", "Poland", "France", "USA", "Sweden"}
    ensures |BirthCountries(t)| == 5
  {
    assert t[0].birthCountry.value == "Germany" && t[1].birthCountry.value == "Poland";
    assert t[2].birthCountry.value == "France" && t[3].birthCountry.value == "USA";
    assert t[4].birthCountry.value == "Sweden";
    assert "Poland"[0] != "France"[0] && "Poland"[0] != "Sweden"[0] && "France"[0] != "Sweden"[0];
  }

  /** Five prizes, five laureates, five countries; three men and two women. */
  lemma StatsScenario(t: seq<Record>)
    requires IsSample(t)
    ensures CalculateStats(t).totalPrizes == 5
    ensures CalculateStats(t).totalLaureates == 5
    ensures CalculateStats(t).countriesCount == 5
    ensures CountOf(CalculateStats(t).genderSplit, StrKey("male")) == 3
    ensures CountOf(CalculateStats(t).genderSplit, StrKey("female")) == 2
  {
    SampleLaureates(t);
    SampleCountries(t);
    CountFive(t, (x: Record) => x.sex == Some("male"));
    CountFive(t, (x: Record) => x.sex == Some("female"));
  }

  /** Three solo prizes and two shared ones, covering the whole sample. */
  lemma SharingScenario(t: seq<Record>)
    requires IsSample(t)
    ensures SharingSplit(t) == ShareSplit(3, 2)
  {
    CountFive(t, (x: Record) => x.isShared == Some(0));
    CountFive(t, (x: Record) => x.isShared == Some(1));
  }
}
