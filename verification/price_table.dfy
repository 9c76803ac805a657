/**
 * The price table: prices fetched for one category (or all), grouped into a
 * section per category title, each price shown as a card with its duration,
 * rate unit, four features and the best-value / popular badges.
 */
module PriceTable {
  import opened Base
  import opened Text
  import opened Numerals
  import opened Specs
  import opened Grouping
  import opened Js

  datatype Category = Category(id: int, title: string, specs: Option<SpecList>)

  datatype Price = Price(id: int, labelText: Option<string>, hourlyHours: int, rateCents: int, category: Category)

  // ---------------------------------------------------------------------------
  // Fetching
  // ---------------------------------------------------------------------------

  /** The SWR key: filtered by category when the id is truthy (non-zero), else every price. */
  function PricesKey(categoryId: Option<int>): (r: string)
    ensures StartsWith(r, "/api/prices")
  {
    match categoryId
    case Some(n) =>
      if n != 0 then
        assert ("/api/prices?categoryId=" + IntToString(n))[..11] == "/api/prices";
        "/api/prices?categoryId=" + IntToString(n)
      else "/api/prices"
    case None => "/api/prices"
  }

  /** Different truthy category ids fetch under different keys. */
  lemma PricesKeyInjective(a: int, b: int)
    requires a != 0 && b != 0 && PricesKey(Some(a)) == PricesKey(Some(b))
    ensures a == b
  {
    var p := "/api/prices?categoryId=";
    assert (p + IntToString(a))[|p|..] == IntToString(a);
    assert (p + IntToString(b))[|p|..] == IntToString(b);
    ParseIntRoundTrip(a);
    ParseIntRoundTrip(b);
  }

  /** An absent or zero id fetches every price. */
  lemma PricesKeyUnfiltered()
    ensures PricesKey(None) == PricesKey(Some(0)) == "/api/prices"
  {
  }

  // ---------------------------------------------------------------------------
  // Features
  // ---------------------------------------------------------------------------

  /**
   * Every feature a card can list, in the order the card considers them: the
   * five spec-driven ones, the two perks, then the four fillers.
   */
  const Catalogue: seq<string> := [
    "Free WiFi", "Free Parking", "Air Conditioning", "Smart TV", "Hot Water",
    "Complimentary Breakfast", "Welcome Drink",
    "Room Service", "Fitness Center Access", "24/7 Security", "Laundry Service"]

  /** The spec keys behind the first five catalogue entries. */
  const SpecKeys: seq<string> := ["wifi", "parking", "ac", "tv", "geyser"]

  /** The catalogue entry at a position (`""` off the end). */
  function CatalogueName(i: int): string {
    if 0 <= i < |Catalogue| then Catalogue[i] else ""
  }

  const FillerPositions: seq<int> := [7, 8, 9, 10]

  const Fillers: seq<string> := ["Room Service", "Fitness Center Access", "24/7 Security", "Laundry Service"]

  lemma FillerNames()
    ensures Map(CatalogueName, FillerPositions) == Fillers
  {
  }

  /** Different catalogue positions hold different names. */
  lemma CatalogueInjective(i: int, j: int)
    requires 0 <= i < |Catalogue| && 0 <= j < |Catalogue| && CatalogueName(i) == CatalogueName(j)
    ensures i == j
  {
  }

  predicate Increasing(ix: seq<int>) {
    forall i, j :: 0 <= i < j < |ix| ==> ix[i] < ix[j]
  }

  lemma IncreasingConcat(a: seq<int>, b: seq<int>)
    requires Increasing(a) && Increasing(b)
    requires forall i, j :: 0 <= i < |a| && 0 <= j < |b| ==> a[i] < b[j]
    ensures Increasing(a + b)
  {
  }

  /** Names picked at increasing catalogue positions are all different. */
  lemma NamesDistinct(ix: seq<int>)
    requires Increasing(ix) && forall i :: 0 <= i < |ix| ==> 0 <= ix[i] < |Catalogue|
    ensures Distinct(Map(CatalogueName, ix))
  {
    forall i, j | 0 <= i < |ix| && 0 <= j < |ix| && CatalogueName(ix[i]) == CatalogueName(ix[j])
      ensures ix[i] == ix[j]
    {
      CatalogueInjective(ix[i], ix[j]);
    }
    MapDistinct(CatalogueName, ix);
  }

  /** The catalogue positions of the spec features among the first `n` keys. */
  function SpecPositions(specs: Option<SpecList>, n: nat): (r: seq<int>)
    requires n <= |SpecKeys|
    ensures forall i :: 0 <= i < |r| ==> 0 <= r[i] < n
    ensures Increasing(r)
    ensures |r| <= n
  {
    if n == 0 then []
    else SpecPositions(specs, n - 1) + (if Flag(specs, SpecKeys[n - 1]) then [n - 1] else [])
  }

  /** Position `k` is picked exactly when its spec is on. */
  lemma {:induction false} SpecPositionsIff(specs: Option<SpecList>, n: nat, k: int)
    requires n <= |SpecKeys| && 0 <= k < n
    ensures k in SpecPositions(specs, n) <==> Flag(specs, SpecKeys[k])
  {
    if k < n - 1 {
      SpecPositionsIff(specs, n - 1, k);
    }
  }

  /** The spec-driven features, in the fixed order wifi, parking, ac, tv, geyser. */
  function SpecFeatures(specs: Option<SpecList>): (r: seq<string>)
    ensures |r| <= 5
  {
    Map(CatalogueName, SpecPositions(specs, 5))
  }

  /** A spec feature is listed exactly when its spec is on. */
  lemma SpecFeaturesIff(specs: Option<SpecList>, k: nat)
    requires k < |SpecKeys|
    ensures CatalogueName(k) in SpecFeatures(specs) <==> Flag(specs, SpecKeys[k])
  {
    var ix := SpecPositions(specs, 5);
    SpecPositionsIff(specs, 5, k);
    if CatalogueName(k) in SpecFeatures(specs) {
      var i :| 0 <= i < |ix| && SpecFeatures(specs)[i] == CatalogueName(k);
      CatalogueInjective(ix[i], k);
    }
  }

  /** The catalogue position of the perk: breakfast for stays of 12 hours or more. */
  function PerkPosition(hourlyHours: int): int {
    if hourlyHours >= 12 then 5 else 6
  }

  /** Stays of 12 hours or more come with breakfast; shorter ones with a welcome drink. */
  function Perk(hourlyHours: int): (r: string)
    ensures r == "Complimentary Breakfast" <==> hourlyHours >= 12
    ensures r == "Welcome Drink" <==> hourlyHours < 12
  {
    CatalogueName(PerkPosition(hourlyHours))
  }

  /** Catalogue positions of everything a card may list, before the cut to four. */
  function Candidates(specs: Option<SpecList>, hourlyHours: int): seq<int> {
    SpecPositions(specs, 5) + [PerkPosition(hourlyHours)] + FillerPositions
  }

  lemma CandidatesIncreasing(specs: Option<SpecList>, hourlyHours: int)
    ensures Increasing(Candidates(specs, hourlyHours))
    ensures forall i :: 0 <= i < |Candidates(specs, hourlyHours)| ==> 0 <= Candidates(specs, hourlyHours)[i] < |Catalogue|
  {
    FillerPositionsFacts();
    IncreasingAround(SpecPositions(specs, 5), PerkPosition(hourlyHours), FillerPositions, |Catalogue|);
  }

  lemma FillerPositionsFacts()
    ensures Increasing(FillerPositions) && |Catalogue| == 11
    ensures forall j :: 0 <= j < |FillerPositions| ==> 6 < FillerPositions[j] < 11
  {
  }

  /** Increasing positions below `p`, then `p`, then increasing ones above it and below `bound`, are increasing. */
  lemma IncreasingAround(a: seq<int>, p: int, f: seq<int>, bound: int)
    requires Increasing(a) && Increasing(f) && 0 <= p < bound
    requires forall i :: 0 <= i < |a| ==> 0 <= a[i] < p
    requires forall j :: 0 <= j < |f| ==> p < f[j] < bound
    ensures Increasing(a + [p] + f)
    ensures forall i :: 0 <= i < |a + [p] + f| ==> 0 <= (a + [p] + f)[i] < bound
  {
    IncreasingConcat(a, [p]);
    IncreasingConcat(a + [p], f);
  }

  lemma CandidateNamesEq(specs: Option<SpecList>, hourlyHours: int)
    ensures Map(CatalogueName, Candidates(specs, hourlyHours)) == SpecFeatures(specs) + [Perk(hourlyHours)] + Fillers
  {
    var a := SpecPositions(specs, 5);
    MapSnoc(CatalogueName, a, PerkPosition(hourlyHours));
    MapConcat(CatalogueName, a + [PerkPosition(hourlyHours)], FillerPositions);
    FillerNames();
  }

  /** The spec features, the perk and the fillers never repeat a name. */
  lemma CandidateNames(specs: Option<SpecList>, hourlyHours: int)
    ensures Distinct(SpecFeatures(specs) + [Perk(hourlyHours)] + Fillers)
  {
    CandidateNamesEq(specs, hourlyHours);
    CandidatesIncreasing(specs, hourlyHours);
    NamesDistinct(Candidates(specs, hourlyHours));
  }

  /** The reference definition: spec features, the perk, then fillers, cut to four. */
  function FeatureList(specs: Option<SpecList>, hourlyHours: int): seq<string> {
    (SpecFeatures(specs) + [Perk(hourlyHours)] + Fillers)[..4]
  }

  /**
   * `getFeatures`, loop for loop: collect the spec features and the perk, then
   * top up from the fillers, skipping those already listed, until there are
   * four, and keep the first four.
   */
  method GetFeatures(specs: Option<SpecList>, hourlyHours: int) returns (features: seq<string>)
    ensures features == FeatureList(specs, hourlyHours)
  {
    var base := CollectSpecFeatures(specs);
    if hourlyHours >= 12 {
      base := base + ["Complimentary Breakfast"];
    } else {
      base := base + ["Welcome Drink"];
    }
    assert base == SpecFeatures(specs) + [Perk(hourlyHours)];
    CandidateNames(specs, hourlyHours);
    features := TopUp(base);
  }

  /** The five spec checks of `getFeatures`, in order. */
  method CollectSpecFeatures(specs: Option<SpecList>) returns (base: seq<string>)
    ensures base == SpecFeatures(specs)
  {
    base := [];
    for k := 0 to |SpecKeys|
      invariant base == Map(CatalogueName, SpecPositions(specs, k))
    {
      if Flag(specs, SpecKeys[k]) {
        MapSnoc(CatalogueName, SpecPositions(specs, k), k);
        base := base + [CatalogueName(k)];
      }
    }
  }

  /** A filler is not among the names before it. */
  lemma FillerNotListed(base: seq<string>, j: int)
    requires Distinct(base + Fillers) && 0 <= j < |Fillers|
    ensures Fillers[j] !in base + Fillers[..j]
  {
    var all := base + Fillers;
    assert base + Fillers[..j] == all[..|base| + j];
    DistinctNotInPrefix(all, |base| + j, |base| + j);
  }

  /**
   * The top-up loop of `getFeatures`: while fewer than four are listed, walk
   * the fillers and append each one not yet listed while there is room; then
   * keep the first four.
   */
  method TopUp(base: seq<string>) returns (features: seq<string>)
    requires Distinct(base + Fillers)
    ensures features == (base + Fillers)[..4]
  {
    features := base;
    while |features| < 4
      invariant features == base || (|base| < 4 && features == base + Fillers[..4 - |base|])
      decreases 4 - |features|
    {
      var j := 0;
      while j < |Fillers|
        invariant 0 <= j <= |Fillers|
        invariant features == base + Fillers[..Min(j, 4 - |base|)]
      {
        if |features| < 4 {
          FillerNotListed(base, j);
        }
        if Fillers[j] !in features && |features| < 4 {
          features := features + [Fillers[j]];
        }
        j := j + 1;
      }
    }
    if |base| < 4 {
      assert features == (base + Fillers)[..4];
    } else {
      assert features[..4] == (base + Fillers)[..4];
    }
    features := features[..4];
  }

  function Min(a: int, b: int): int {
    if a <= b then a else b
  }

  /**
   * Every card lists four different features: as many spec features as fit,
   * in their fixed order, then the perk when there is room, then fillers.
   */
  lemma FeatureListShape(specs: Option<SpecList>, hourlyHours: int)
    ensures |FeatureList(specs, hourlyHours)| == 4
    ensures Distinct(FeatureList(specs, hourlyHours))
    ensures var n := Min(|SpecFeatures(specs)|, 4);
      FeatureList(specs, hourlyHours)[..n] == SpecFeatures(specs)[..n]
    ensures Perk(hourlyHours) in FeatureList(specs, hourlyHours) <==> |SpecFeatures(specs)| < 4
  {
    CandidateNames(specs, hourlyHours);
    CutToFour(SpecFeatures(specs), Perk(hourlyHours), Fillers);
  }

  /** Cutting `s + [p] + f` to four, with `f` four long and nothing repeated. */
  lemma CutToFour(s: seq<string>, p: string, f: seq<string>)
    requires |f| == 4 && Distinct(s + [p] + f)
    ensures |(s + [p] + f)[..4]| == 4
    ensures Distinct((s + [p] + f)[..4])
    ensures var n := Min(|s|, 4); (s + [p] + f)[..4][..n] == s[..n]
    ensures p in (s + [p] + f)[..4] <==> |s| < 4
  {
    var all := s + [p] + f;
    if |s| < 4 {
      assert all[..4][|s|] == p;
    } else {
      DistinctNotInPrefix(all, 4, |s|);
    }
  }

  // ---------------------------------------------------------------------------
  // Cards and badges
  // ---------------------------------------------------------------------------

  /** The best-value card: the middle one (rounding up), none in a group of fewer than two. */
  function BestValueIndex(count: nat): (r: int)
    ensures count < 2 <==> r == -1
    ensures count >= 2 ==> 0 < r < count && count - 1 - r <= r <= count - r
  {
    if count < 2 then -1 else count / 2
  }

  /** `price.label || "<h> Hour(s)"`. */
  function DurationLabel(labelText: Option<string>, hourlyHours: int): (r: string)
    ensures labelText.Some? && labelText.value != "" ==> r == labelText.value
    ensures r != ""
  {
    if labelText.Some? && labelText.value != "" then labelText.value
    else IntToString(hourlyHours) + (if hourlyHours == 1 then " Hour" else " Hours")
  }

  /** Without a label, the number in front of the generated label is the stay length (a safe integer, so printed exactly). */
  lemma DurationLabelReadsBack(labelText: Option<string>, hourlyHours: int)
    requires labelText.None? || labelText.value == ""
    requires IsSafeInteger(hourlyHours)
    ensures ParseInt(DurationLabel(labelText, hourlyHours)) == Some(hourlyHours)
    ensures EndsWith(DurationLabel(labelText, hourlyHours), if hourlyHours == 1 then " Hour" else " Hours")
  {
    var unit := if hourlyHours == 1 then " Hour" else " Hours";
    ParseIntAfterIntToString(hourlyHours, unit);
    var r := IntToString(hourlyHours) + unit;
    assert r[|r| - |unit|..] == unit;
  }

  datatype PriceCard = PriceCard(
    price: Price, duration: string, subtitle: string, unit: string,
    features: seq<string>, bestValue: bool, popular: bool)

  /** The card for the price at `index` of a group of `count`. */
  function Card(p: Price, index: nat, count: nat): (c: PriceCard)
    ensures c.bestValue <==> index == BestValueIndex(count)
    ensures c.popular <==> p.hourlyHours == 24 && !c.bestValue
    ensures c.unit == "per day" <==> p.hourlyHours >= 24
    ensures c.subtitle == "Full Day Experience" <==> p.hourlyHours >= 24
    ensures c.duration == DurationLabel(p.labelText, p.hourlyHours)
    ensures c.features == FeatureList(p.category.specs, p.hourlyHours)
    ensures |c.features| == 4
  {
    FeatureListShape(p.category.specs, p.hourlyHours);
    var best := index == BestValueIndex(count);
    PriceCard(
      p,
      DurationLabel(p.labelText, p.hourlyHours),
      if p.hourlyHours >= 24 then "Full Day Experience" else "Hourly Rate",
      if p.hourlyHours >= 24 then "per day" else "per hour",
      FeatureList(p.category.specs, p.hourlyHours),
      best,
      p.hourlyHours == 24 && !best)
  }

  /** `"<n> pricing option(s) available"`. */
  function CountLabel(n: nat): (r: string)
    ensures EndsWith(r, if n == 1 then "option available" else "options available")
  {
    var tail := if n == 1 then "option available" else "options available";
    EndsWithConcat(IntToString(n) + " pricing ", tail);
    IntToString(n) + " pricing " + tail
  }

  datatype Section = Section(title: string, countLabel: string, cards: seq<PriceCard>)

  function Cards(prices: seq<Price>): (cs: seq<PriceCard>)
    ensures |cs| == |prices|
    ensures forall i :: 0 <= i < |prices| ==> cs[i] == Card(prices[i], i, |prices|)
  {
    seq(|prices|, i requires 0 <= i < |prices| => Card(prices[i], i, |prices|))
  }

  function TitleOf(p: Price): string {
    p.category.title
  }

  function SectionOf(g: Group<Price>): Section {
    Section(g.key, CountLabel(|g.items|), Cards(g.items))
  }

  function SectionTitle(s: Section): string {
    s.title
  }

  /**
   * The sections in the order `Object.entries` lists the grouped object, each
   * with its prices in fetch order.
   */
  function Sections(prices: seq<Price>): (ss: seq<Section>)
    ensures |ss| == |GroupBy(prices, TitleOf)|
  {
    var gs := GroupBy(prices, TitleOf);
    GroupByPartition(prices, TitleOf);
    DistinctKeysIff(gs);
    EntriesOrder(gs);
    var es := Entries(gs);
    seq(|es|, i requires 0 <= i < |es| => SectionOf(es[i]))
  }

  /**
   * Every fetched price is shown exactly in the section of its category title,
   * titles are not repeated, and each section holds its prices in fetch order.
   */
  lemma SectionsPartitionPrices(prices: seq<Price>)
    ensures var ss := Sections(prices);
      && (forall i, j :: 0 <= i < j < |ss| ==> ss[i].title != ss[j].title)
      && (forall i :: 0 <= i < |ss| ==>
           ss[i].cards == Cards(Select(prices, TitleOf, ss[i].title)))
      && (forall t :: (exists i :: 0 <= i < |ss| && ss[i].title == t) <==> HasKey(prices, TitleOf, t))
  {
    var es := Entries(GroupBy(prices, TitleOf));
    var ss := Sections(prices);
    EntriesPartition(prices, TitleOf);
    assert forall i :: 0 <= i < |ss| ==> ss[i].title == es[i].key && ss[i].cards == Cards(es[i].items);
  }

  /**
   * Section order: titles that are array indices ("0", "2", "10", ...) come
   * before all other titles and ascend numerically; the other titles follow
   * in the order their first price was fetched.
   */
  lemma SectionsOrder(prices: seq<Price>)
    ensures var ss := Sections(prices);
      && (forall i, j :: 0 <= i < j < |ss| && IsArrayIndex(ss[j].title) ==> IsArrayIndex(ss[i].title))
      && (forall i, j :: (0 <= i < j < |ss| && IsArrayIndex(ss[i].title) && IsArrayIndex(ss[j].title)) ==>
            IndexValue(ss[i].title) < IndexValue(ss[j].title))
      && OtherKeys(Map(SectionTitle, ss)) == OtherKeys(FirstOccurrences(Map(TitleOf, prices)))
  {
    var gs := GroupBy(prices, TitleOf);
    var es := Entries(gs);
    var ss := Sections(prices);
    GroupByPartition(prices, TitleOf);
    DistinctKeysIff(gs);
    EntriesOrder(gs);
    KeysOfIndex(es);
    assert Map(SectionTitle, ss) == KeysOf(es);
    OtherKeysOfGroups(es);
    OtherKeysOfGroups(gs);
    GroupByKeysInOrder(prices, TitleOf);
  }

  /** A "Suite" price fetched before a "2" price: the "2" section is still shown first. */
  lemma NumericTitleFirst(suite: Price, two: Price)
    requires TitleOf(suite) == "Suite" && TitleOf(two) == "2"
    ensures Map(SectionTitle, Sections([suite, two])) == ["2", "Suite"]
  {
    TwoTitles(suite, two);
    assert !IsArrayIndex("Suite") by {
      assert !IsDigit("Suite"[0]);
    }
    assert IsArrayIndex("2");
    EntriesOfTwo(Group("Suite", [suite]), Group("2", [two]));
  }

  lemma TwoTitles(suite: Price, two: Price)
    requires TitleOf(suite) == "Suite" && TitleOf(two) == "2"
    ensures GroupBy([suite, two], TitleOf) == [Group("Suite", [suite]), Group("2", [two])]
  {
    assert [suite, two][..1] == [suite];
    assert GroupBy([suite], TitleOf) == [Group("Suite", [suite])];
    assert GroupBy([suite, two], TitleOf)
        == Push([Group("Suite", [suite])], "2", two);
  }

  /** Each section has at most one best-value card, and none when it holds a single price. */
  lemma AtMostOneBestValue(prices: seq<Price>)
    ensures forall i, j :: 0 <= i < j < |prices| ==>
      !(Cards(prices)[i].bestValue && Cards(prices)[j].bestValue)
    ensures |prices| < 2 ==> forall i :: 0 <= i < |prices| ==> !Cards(prices)[i].bestValue
  {
  }

  /** The best-value pick ignores the rates: only the number of prices matters. */
  lemma BestValueIgnoresRates(a: seq<Price>, b: seq<Price>, i: nat)
    requires |a| == |b| && i < |a|
    ensures Cards(a)[i].bestValue == Cards(b)[i].bestValue
  {
  }

  // ---------------------------------------------------------------------------
  // The rendered state
  // ---------------------------------------------------------------------------

  /** What SWR reports: still loading, an error, and the response's `data` array when there is one. */
  datatype SwrState = SwrState(isLoading: bool, failed: bool, data: Option<seq<Price>>)

  datatype View =
    | Spinner
    | ErrorNotice
    | EmptyNotice
    | Table(sections: seq<Section>)

  /** Loading wins over an error, an error over missing data, and an empty list shows the notice. */
  function Render(s: SwrState): (v: View)
    ensures v.Table? <==> !s.isLoading && !s.failed && s.data.Some? && s.data.value != []
    ensures v.Table? ==> v.sections == Sections(s.data.value)
  {
    if s.isLoading then Spinner
    else if s.failed then ErrorNotice
    else if s.data.None? || s.data.value == [] then EmptyNotice
    else Table(Sections(s.data.value))
  }

  /** A non-empty table has at least one section. */
  lemma TableNotEmpty(prices: seq<Price>)
    requires prices != []
    ensures |Sections(prices)| >= 1
  {
    SectionsPartitionPrices(prices);
    assert HasKey(prices, TitleOf, TitleOf(prices[0])) by {
      SelectContains(prices, TitleOf, 0);
    }
  }
}
