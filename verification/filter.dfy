/**
 The filter engine: `filter_data` narrows a table by an inclusive year range, a category list
 (empty meaning no restriction), a gender and a country (each with the sentinel "All"). It applies
 the four masks one after another; the result keeps the selected rows in their original order.
 */
module Filter {
  import opened Options
  import opened Seqs
  import opened Records

  /** The sentinel the gender and country selectors use for "no restriction". */
  const AllValues := "All"

  datatype FilterSpec = FilterSpec(yearRange: (int, int), categories: seq<string>, gender: string, country: string)

  predicate InYearRange(range: (int, int), x: Record)
  {
    range.0 <= x.awardYear <= range.1
  }

  /** An empty category list restricts nothing. */
  predicate InCategories(categories: seq<string>, x: Record)
  {
    |categories| == 0 || x.category in categories
  }

  /** The selector value is lowercased before it is compared; a missing sex never matches. */
  predicate MatchesGender(gender: string, x: Record)
  {
    gender == AllValues || x.sex == Some(Lower(gender))
  }

  /** Exact string match; a missing country never matches. */
  predicate MatchesCountry(country: string, x: Record)
  {
    country == AllValues || x.birthCountry == Some(country)
  }

  /** A row is kept exactly when it passes all four masks. */
  predicate Matches(spec: FilterSpec, x: Record)
  {
    && InYearRange(spec.yearRange, x)
    && InCategories(spec.categories, x)
    && MatchesGender(spec.gender, x)
    && MatchesCountry(spec.country, x)
  }

  function ByYear(t: seq<Record>, range: (int, int)): (r: seq<Record>)
    ensures forall x :: x in r <==> x in t && InYearRange(range, x)
    ensures IsSubsequence(r, t)
  {
    Where(t, (x: Record) => range.0 <= x.awardYear && x.awardYear <= range.1)
  }

  function ByCategory(t: seq<Record>, categories: seq<string>): (r: seq<Record>)
    ensures forall x :: x in r <==> x in t && InCategories(categories, x)
    ensures IsSubsequence(r, t)
  {
    if |categories| > 0 then Where(t, (x: Record) => x.category in categories) else SubsequenceReflexive(t); t
  }

  function ByGender(t: seq<Record>, gender: string): (r: seq<Record>)
    ensures forall x :: x in r <==> x in t && MatchesGender(gender, x)
    ensures IsSubsequence(r, t)
  {
    if gender != AllValues then Where(t, (x: Record) => x.sex == Some(Lower(gender))) else SubsequenceReflexive(t); t
  }

  function ByCountry(t: seq<Record>, country: string): (r: seq<Record>)
    ensures forall x :: x in r <==> x in t && MatchesCountry(country, x)
    ensures IsSubsequence(r, t)
  {
    if country != AllValues then Where(t, (x: Record) => x.birthCountry == Some(country)) else SubsequenceReflexive(t); t
  }

  /** `filter_data`: year range, then categories, then gender, then country. */
  function FilterData(t: seq<Record>, spec: FilterSpec): (r: seq<Record>)
    ensures forall x :: x in r <==> x in t && Matches(spec, x)
    ensures IsSubsequence(r, t)
    ensures |r| <= |t|
  {
    var years := ByYear(t, spec.yearRange);
    var cats := ByCategory(years, spec.categories);
    var genders := ByGender(cats, spec.gender);
    var r := ByCountry(genders, spec.country);
    SubsequenceTransitive(cats, years, t);
    SubsequenceTransitive(genders, cats, t);
    SubsequenceTransitive(r, genders, t);
    SubsequenceLength(r, t);
    r
  }

  /** Each stage is the mask of its own predicate, whether or not the source skips it. */
  lemma StagesAreMasks(t: seq<Record>, spec: FilterSpec)
    ensures ByYear(t, spec.yearRange) == Where(t, (x: Record) => InYearRange(spec.yearRange, x))
    ensures ByCategory(t, spec.categories) == Where(t, (x: Record) => InCategories(spec.categories, x))
    ensures ByGender(t, spec.gender) == Where(t, (x: Record) => MatchesGender(spec.gender, x))
    ensures ByCountry(t, spec.country) == Where(t, (x: Record) => MatchesCountry(spec.country, x))
  {
    WhereCongruent(t, (x: Record) => spec.yearRange.0 <= x.awardYear && x.awardYear <= spec.yearRange.1,
                      (x: Record) => InYearRange(spec.yearRange, x));
    if |spec.categories| > 0 {
      WhereCongruent(t, (x: Record) => x.category in spec.categories, (x: Record) => InCategories(spec.categories, x));
    }
    if spec.gender != AllValues {
      WhereCongruent(t, (x: Record) => x.sex == Some(Lower(spec.gender)), (x: Record) => MatchesGender(spec.gender, x));
    }
    if spec.country != AllValues {
      WhereCongruent(t, (x: Record) => x.birthCountry == Some(spec.country), (x: Record) => MatchesCountry(spec.country, x));
    }
  }

  /** The four successive masks select exactly what the single conjoined mask selects. */
  lemma FilterIsConjunction(t: seq<Record>, spec: FilterSpec)
    ensures FilterData(t, spec) == Where(t, (x: Record) => Matches(spec, x))
  {
    var years := ByYear(t, spec.yearRange);
    var cats := ByCategory(years, spec.categories);
    var genders := ByGender(cats, spec.gender);
    StagesAreMasks(t, spec);
    StagesAreMasks(years, spec);
    StagesAreMasks(cats, spec);
    StagesAreMasks(genders, spec);
    WhereFour(t, (x: Record) => InYearRange(spec.yearRange, x), (x: Record) => InCategories(spec.categories, x),
                 (x: Record) => MatchesGender(spec.gender, x), (x: Record) => MatchesCountry(spec.country, x),
                 (x: Record) => Matches(spec, x));
  }

  /** Applying the masks in the reverse order (country, gender, categories, years) changes nothing. */
  lemma FilterOrderIrrelevant(t: seq<Record>, spec: FilterSpec)
    ensures ByYear(ByCategory(ByGender(ByCountry(t, spec.country), spec.gender), spec.categories), spec.yearRange)
         == FilterData(t, spec)
  {
    var countries := ByCountry(t, spec.country);
    var genders := ByGender(countries, spec.gender);
    var cats := ByCategory(genders, spec.categories);
    StagesAreMasks(t, spec);
    StagesAreMasks(countries, spec);
    StagesAreMasks(genders, spec);
    StagesAreMasks(cats, spec);
    WhereFour(t, (x: Record) => MatchesCountry(spec.country, x), (x: Record) => MatchesGender(spec.gender, x),
                 (x: Record) => InCategories(spec.categories, x), (x: Record) => InYearRange(spec.yearRange, x),
                 (x: Record) => Matches(spec, x));
    FilterIsConjunction(t, spec);
  }

  /** An inverted year range selects nothing. */
  lemma FilterEmptyYearRange(t: seq<Record>, spec: FilterSpec)
    requires spec.yearRange.0 > spec.yearRange.1
    ensures FilterData(t, spec) == []
  {
    FilterIsConjunction(t, spec);
  }

  /** An empty category list selects the same rows as a list naming every category in the table. */
  lemma EmptyCategoriesMeanAll(t: seq<Record>, spec: FilterSpec, everyCategory: seq<string>)
    requires forall x :: x in t ==> x.category in everyCategory
    ensures FilterData(t, spec.(categories := [])) == FilterData(t, spec.(categories := everyCategory))
  {
    var none := spec.(categories := []);
    var every := spec.(categories := everyCategory);
    FilterIsConjunction(t, none);
    FilterIsConjunction(t, every);
    WhereCongruent(t, (x: Record) => Matches(none, x), (x: Record) => Matches(every, x));
  }

  /** A range covering every year, every category (or none), and "All" for gender and country keep the table as it is. */
  lemma FilterIdentity(t: seq<Record>, spec: FilterSpec)
    requires forall x :: x in t ==> InYearRange(spec.yearRange, x)
    requires forall x :: x in t ==> InCategories(spec.categories, x)
    requires spec.gender == AllValues && spec.country == AllValues
    ensures FilterData(t, spec) == t
  {
    FilterIsConjunction(t, spec);
  }

  /** A non-empty category list naming no category of the table selects nothing, without failing. */
  lemma FilterAbsentCategory(t: seq<Record>, spec: FilterSpec)
    requires |spec.categories| > 0
    requires forall x :: x in t ==> x.category !in spec.categories
    ensures FilterData(t, spec) == []
  {
    FilterIsConjunction(t, spec);
  }

  /** Gender selectors that lowercase alike ("Female", "FEMALE") select the same rows. */
  lemma GenderCaseInsensitive(t: seq<Record>, spec: FilterSpec, gender: string)
    requires spec.gender != AllValues && gender != AllValues
    requires Lower(gender) == Lower(spec.gender)
    ensures FilterData(t, spec.(gender := gender)) == FilterData(t, spec)
  {
    var other := spec.(gender := gender);
    FilterIsConjunction(t, spec);
    FilterIsConjunction(t, other);
    WhereCongruent(t, (x: Record) => Matches(other, x), (x: Record) => Matches(spec, x));
  }

  /** The dashboard's title-case selectors match the lowercase values stored in the table. */
  lemma GenderSelectorsLowercase()
    ensures Lower("Female") == "female"
    ensures Lower("Male") == "male"
  {
    assert Lower("Female") == [LowerChar('F')] + Lower("emale");
    assert Lower("Male") == [LowerChar('M')] + Lower("ale");
  }

  /** `narrow` restricts at least as much as `wide` in each of the four parameters. */
  predicate Narrows(narrow: FilterSpec, wide: FilterSpec)
  {
    && wide.yearRange.0 <= narrow.yearRange.0
    && narrow.yearRange.1 <= wide.yearRange.1
    && (|wide.categories| == 0 || (|narrow.categories| > 0 && forall c :: c in narrow.categories ==> c in wide.categories))
    && (wide.gender == AllValues || narrow.gender == wide.gender)
    && (wide.country == AllValues || narrow.country == wide.country)
  }

  /** Narrowing any parameter never adds rows: the narrower result is a subsequence of the wider one. */
  lemma FilterNarrowing(t: seq<Record>, narrow: FilterSpec, wide: FilterSpec)
    requires Narrows(narrow, wide)
    ensures IsSubsequence(FilterData(t, narrow), FilterData(t, wide))
    ensures |FilterData(t, narrow)| <= |FilterData(t, wide)|
  {
    FilterIsConjunction(t, narrow);
    FilterIsConjunction(t, wide);
    WhereNarrowing(t, (x: Record) => Matches(narrow, x), (x: Record) => Matches(wide, x));
  }
}
