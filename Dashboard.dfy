/** The data transforms of the tourism dashboard (visualization_app.py): the
    table is an already-loaded sequence of records, and each chart's input is
    a function of it. */
module Dashboard {
  import opened Sequences
  import opened RegionText

  datatype Option<T> = None | Some(value: T)

  /** One row of the table.  `restaurantExists` is the category in column
      "Existence of restaurants - exists" (0 or 1 in the data), `None` when the
      cell is missing. */
  datatype Record = Record(
    town: string,
    refArea: AreaValue,
    tourismIndex: real,
    hotels: int,
    restaurants: int,
    restaurantExists: Option<int>)

  type Dataset = seq<Record>

  // ---------------------------------------------------------------------------
  // Line 15: cleaning the refArea column
  // ---------------------------------------------------------------------------

  /** Every textual region value is free of slashes. */
  predicate RegionsCleaned(df: Dataset)
  {
    forall i :: 0 <= i < |df| ==> df[i].refArea.Text? ==> Slash !in df[i].refArea.s
  }

  /** `df["refArea"].apply(lambda x: x.split("/")[-1] if isinstance(x, str) else x)`. */
  function CleanRegions(raw: Dataset): (df: Dataset)
    ensures |df| == |raw|
    ensures RegionsCleaned(df)
    ensures forall i :: 0 <= i < |df| ==> df[i].(refArea := raw[i].refArea) == raw[i]
    ensures forall i :: 0 <= i < |df| ==> (df[i].refArea.Text? <==> raw[i].refArea.Text?)
    ensures forall i :: 0 <= i < |df| ==> df[i].refArea == CleanArea(raw[i].refArea)
    ensures RegionsCleaned(raw) ==> df == raw
  {
    var df := seq(|raw|, i requires 0 <= i < |raw| => raw[i].(refArea := CleanArea(raw[i].refArea)));
    assert RegionsCleaned(raw) ==> df == raw by {
      if RegionsCleaned(raw) {
        forall i | 0 <= i < |raw| ensures df[i] == raw[i] {
          assert CleanArea(raw[i].refArea) == raw[i].refArea;
        }
      }
    }
    df
  }

  /** Cleaning the column a second time changes nothing. */
  lemma CleanRegionsIdempotent(raw: Dataset)
    ensures CleanRegions(CleanRegions(raw)) == CleanRegions(raw)
  {
  }

  /** After line 15, the `split("/")[-1]` that lines 92, 120 and 129 apply to a
      textual region gives back the stored value. */
  lemma RecleaningAgrees(df: Dataset, i: nat)
    requires RegionsCleaned(df) && i < |df| && df[i].refArea.Text?
    ensures LastSegment(df[i].refArea.s) == df[i].refArea.s
  {
    NoSlashUnchanged(df[i].refArea.s);
  }

  // ---------------------------------------------------------------------------
  // Lines 27-32: towns ranked by their total number of hotels
  // ---------------------------------------------------------------------------

  /** The distinct town names of the table. */
  function Towns(df: Dataset): set<string>
  {
    if df == [] then {} else {df[0].town} + Towns(df[1..])
  }

  /** Sum of "Total number of hotels" over the rows of town `t`. */
  function TownHotels(df: Dataset, t: string): int
  {
    if df == [] then 0 else (if df[0].town == t then df[0].hotels else 0) + TownHotels(df[1..], t)
  }

  /** Sum of "Total number of hotels" over all rows. */
  function TotalHotels(df: Dataset): int
  {
    if df == [] then 0 else df[0].hotels + TotalHotels(df[1..])
  }

  /** The (Town, hotels) column pair that `groupby("Town")` works on. */
  function HotelColumn(df: Dataset): (col: seq<(string, int)>)
    ensures |col| == |df|
  {
    seq(|df|, i requires 0 <= i < |df| => (df[i].town, df[i].hotels))
  }

  lemma {:induction false} HotelColumnTotals(df: Dataset)
    ensures KeySet(HotelColumn(df)) == Towns(df)
    ensures forall t :: SumFor(HotelColumn(df), t) == TownHotels(df, t)
    ensures SumValues(HotelColumn(df)) == TotalHotels(df)
  {
    if df != [] {
      HotelColumnTotals(df[1..]);
      assert HotelColumn(df)[1..] == HotelColumn(df[1..]);
    }
  }

  lemma {:induction false} TownHotelsNonNegative(df: Dataset, t: string)
    requires forall i :: 0 <= i < |df| ==> df[i].hotels >= 0
    ensures TownHotels(df, t) >= 0
  {
    if df != [] { TownHotelsNonNegative(df[1..], t); }
  }

  /** What a prefix of a descending, duplicate-free ranking leaves out is
      ranked no higher than anything it keeps. */
  lemma PrefixOfRanking<K(!new)>(ranked: seq<(K, int)>, m: nat)
    requires Descending(ranked) && DistinctKeys(ranked) && m <= |ranked|
    ensures KeySet(ranked[..m]) <= KeySet(ranked)
    ensures m == |ranked| ==> KeySet(ranked[..m]) == KeySet(ranked)
    ensures forall k, i :: k in KeySet(ranked) && k !in KeySet(ranked[..m]) && 0 <= i < m ==>
                           SumFor(ranked, k) <= ranked[i].1
  {
    assert ranked == ranked[..m] + ranked[m..];
    forall k | k in KeySet(ranked[..m]) ensures k in KeySet(ranked) {
      var j := IndexOfKey(ranked[..m], k);
      KeyOfIndex(ranked, j);
    }
    if m == |ranked| {
      assert ranked[..m] == ranked;
    }
    forall k, i | k in KeySet(ranked) && k !in KeySet(ranked[..m]) && 0 <= i < m
      ensures SumFor(ranked, k) <= ranked[i].1
    {
      var j := IndexOfKey(ranked, k);
      if j < m {
        KeyOfIndex(ranked[..m], j);
      }
      EntryIsSumFor(ranked, j);
    }
  }

  /** `df.groupby("Town")["Total number of hotels"].sum().sort_values(ascending=False)`:
      every town once, with its total, highest total first. */
  function RankedTowns(df: Dataset): (ranked: seq<(string, int)>)
    ensures |ranked| == |Towns(df)|
    ensures DistinctKeys(ranked) && Descending(ranked)
    ensures KeySet(ranked) == Towns(df)
    ensures forall t :: SumFor(ranked, t) == TownHotels(df, t)
    ensures SumValues(ranked) == TotalHotels(df)
  {
    var ranked := SortDescending(Totals(HotelColumn(df)));
    HotelColumnTotals(df);
    SortKeepsTotals(Totals(HotelColumn(df)));
    DistinctKeysCount(ranked);
    ranked
  }

  /** `... .head(n)`: the `n` towns with the most hotels (all towns when there
      are fewer), each with the sum of its rows' hotels. */
  function TopTowns(df: Dataset, n: nat): (top: seq<(string, int)>)
    ensures |top| == if n <= |Towns(df)| then n else |Towns(df)|
    ensures DistinctKeys(top)
    ensures Descending(top)
    ensures forall i :: 0 <= i < |top| ==> top[i].0 in Towns(df) && top[i].1 == TownHotels(df, top[i].0)
    ensures n >= |Towns(df)| ==> KeySet(top) == Towns(df)
    ensures forall t, i :: t in Towns(df) && t !in KeySet(top) && 0 <= i < |top| ==>
                           TownHotels(df, t) <= top[i].1
  {
    var ranked := RankedTowns(df);
    var m := if n <= |ranked| then n else |ranked|;
    PrefixOfRanking(ranked, m);
    RankedEntries(df, m);
    ranked[..m]
  }

  lemma RankedEntries(df: Dataset, m: nat)
    requires m <= |RankedTowns(df)|
    ensures forall i :: 0 <= i < m ==>
              RankedTowns(df)[i].0 in Towns(df) && RankedTowns(df)[i].1 == TownHotels(df, RankedTowns(df)[i].0)
  {
    var ranked := RankedTowns(df);
    forall i | 0 <= i < m ensures ranked[i].0 in Towns(df) && ranked[i].1 == TownHotels(df, ranked[i].0) {
      KeyOfIndex(ranked, i);
      EntryIsSumFor(ranked, i);
    }
  }

  /** With non-negative hotel counts, the ranked towns hold at most all the
      hotels of the table. */
  lemma TopTownsSumBounded(df: Dataset, n: nat)
    requires forall i :: 0 <= i < |df| ==> df[i].hotels >= 0
    ensures SumValues(TopTowns(df, n)) <= TotalHotels(df)
  {
    var ranked := RankedTowns(df);
    RankedNonNegative(df);
    PrefixSumBounded(ranked, if n <= |ranked| then n else |ranked|);
  }

  lemma RankedNonNegative(df: Dataset)
    requires forall i :: 0 <= i < |df| ==> df[i].hotels >= 0
    ensures forall i :: 0 <= i < |RankedTowns(df)| ==> RankedTowns(df)[i].1 >= 0
  {
    var ranked := RankedTowns(df);
    forall i | 0 <= i < |ranked| ensures ranked[i].1 >= 0 {
      EntryIsSumFor(ranked, i);
      TownHotelsNonNegative(df, ranked[i].0);
    }
  }

  // ---------------------------------------------------------------------------
  // Lines 64-67 and 88: row filters
  // ---------------------------------------------------------------------------

  predicate HasHotels(r: Record)
  {
    r.hotels > 0
  }

  predicate HasHotelsOrRestaurants(r: Record)
  {
    r.hotels > 0 || r.restaurants > 0
  }

  /** The two choices of the "Choose data to display" box. */
  datatype RestaurantView = AllTowns | OnlyTownsWithHotels

  /** `df_rest` of lines 64-67. */
  function RestaurantBase(df: Dataset, view: RestaurantView): (sub: Dataset)
    ensures view == AllTowns ==> sub == df
    ensures view == OnlyTownsWithHotels ==>
              && IsSubsequence(sub, df)
              && (forall i :: 0 <= i < |sub| ==> sub[i].hotels > 0)
              && (forall x :: multiset(sub)[x] == if x.hotels > 0 then multiset(df)[x] else 0)
  {
    if view == OnlyTownsWithHotels then Filter(df, HasHotels) else df
  }

  /** `chart_df` of line 88: the towns with at least one hotel or restaurant. */
  function BubbleBase(df: Dataset): (chart: Dataset)
    ensures IsSubsequence(chart, df)
    ensures forall i :: 0 <= i < |chart| ==> chart[i].hotels > 0 || chart[i].restaurants > 0
    ensures forall x :: multiset(chart)[x] ==
                        if x.hotels > 0 || x.restaurants > 0 then multiset(df)[x] else 0
  {
    Filter(df, HasHotelsOrRestaurants)
  }

  // ---------------------------------------------------------------------------
  // Lines 70 and 74: restaurant value counts and pie labels
  // ---------------------------------------------------------------------------

  /** The present values of the flag column, each with weight 1. */
  function FlagColumn(df: Dataset): seq<(int, int)>
  {
    if df == [] then []
    else match df[0].restaurantExists
      case Some(c) => [(c, 1)] + FlagColumn(df[1..])
      case None => FlagColumn(df[1..])
  }

  /** Number of rows whose flag is `c`. */
  function FlagCount(df: Dataset, c: int): nat
  {
    if df == [] then 0 else (if df[0].restaurantExists == Some(c) then 1 else 0) + FlagCount(df[1..], c)
  }

  /** Number of rows whose flag is present. */
  function PresentFlags(df: Dataset): nat
  {
    if df == [] then 0 else (if df[0].restaurantExists.Some? then 1 else 0) + PresentFlags(df[1..])
  }

  /** The distinct flag values that occur. */
  function ObservedFlags(df: Dataset): set<int>
  {
    if df == [] then {}
    else (if df[0].restaurantExists.Some? then {df[0].restaurantExists.value} else {}) + ObservedFlags(df[1..])
  }

  lemma {:induction false} FlagColumnTotals(df: Dataset)
    ensures KeySet(FlagColumn(df)) == ObservedFlags(df)
    ensures forall c :: SumFor(FlagColumn(df), c) == FlagCount(df, c)
    ensures SumValues(FlagColumn(df)) == PresentFlags(df)
  {
    if df != [] {
      FlagColumnTotals(df[1..]);
      if df[0].restaurantExists.Some? {
        assert FlagColumn(df)[1..] == FlagColumn(df[1..]);
      }
    }
  }

  lemma {:induction false} ObservedFlagCounted(df: Dataset, c: int)
    requires c in ObservedFlags(df)
    ensures FlagCount(df, c) > 0
  {
    if df[0].restaurantExists != Some(c) {
      ObservedFlagCounted(df[1..], c);
    }
  }

  /** `df_rest["Existence of restaurants - exists"].value_counts()`: one entry
      per observed category with its number of rows, most frequent first
      (missing cells are not counted; the order among equal counts is not
      claimed). */
  function ValueCounts(df: Dataset): (counts: seq<(int, int)>)
    ensures DistinctKeys(counts)
    ensures Descending(counts)
    ensures KeySet(counts) == ObservedFlags(df)
    ensures |counts| == |ObservedFlags(df)|
    ensures forall i :: 0 <= i < |counts| ==> counts[i].1 == FlagCount(df, counts[i].0) && counts[i].1 > 0
    ensures SumValues(counts) == PresentFlags(df)
  {
    var counts := SortDescending(Totals(FlagColumn(df)));
    FlagColumnTotals(df);
    SortKeepsTotals(Totals(FlagColumn(df)));
    DistinctKeysCount(counts);
    assert forall i :: 0 <= i < |counts| ==> counts[i].1 == FlagCount(df, counts[i].0) && counts[i].1 > 0 by {
      forall i | 0 <= i < |counts|
        ensures counts[i].1 == FlagCount(df, counts[i].0) && counts[i].1 > 0
      {
        EntryIsSumFor(counts, i);
        KeyOfIndex(counts, i);
        ObservedFlagCounted(df, counts[i].0);
      }
    }
    counts
  }

  /** A slice name of the pie: a fixed text, or `str(category)`. */
  datatype Label = Named(text: string) | Raw(category: int)

  const NoRestaurants: string := "No Restaurants"
  const HasRestaurants: string := "Has Restaurants"

  /** Line 74 as written: with exactly two categories the names go by position
      in the count order, whatever the categories are. */
  function PositionalLabels(counts: seq<(int, int)>): (names: seq<Label>)
    ensures |names| == |counts|
    ensures |counts| == 2 ==> names == [Named(NoRestaurants), Named(HasRestaurants)]
    ensures |counts| != 2 ==> forall i :: 0 <= i < |names| ==> names[i] == Raw(counts[i].0)
  {
    if |counts| == 2 then [Named(NoRestaurants), Named(HasRestaurants)]
    else seq(|counts|, i requires 0 <= i < |counts| => Raw(counts[i].0))
  }

  /** The positional names mislabel the chart as soon as more towns have
      restaurants than not: two towns with a restaurant and one without give
      the "has" category the most rows, so it comes first and is named
      "No Restaurants". */
  lemma PositionalLabelsMislabel()
    ensures var df := [FlagRow("A", Some(1)), FlagRow("B", Some(1)), FlagRow("C", Some(0))];
            var counts := ValueCounts(df);
            |counts| == 2 && counts[0] == (1, 2) && PositionalLabels(counts)[0] == Named(NoRestaurants)
  {
    var df := [FlagRow("A", Some(1)), FlagRow("B", Some(1)), FlagRow("C", Some(0))];
    assert df[1..] == [FlagRow("B", Some(1)), FlagRow("C", Some(0))];
    assert df[1..][1..] == [FlagRow("C", Some(0))];
    assert ObservedFlags(df) == {0, 1};
    assert FlagCount(df, 1) == 2 && FlagCount(df, 0) == 1;
    MoreFrequentFirst(df);
  }

  /** With categories {0, 1} and more rows flagged 1, category 1 heads the counts. */
  lemma MoreFrequentFirst(df: Dataset)
    requires ObservedFlags(df) == {0, 1} && FlagCount(df, 1) > FlagCount(df, 0)
    ensures |ValueCounts(df)| == 2 && ValueCounts(df)[0] == (1, FlagCount(df, 1))
  {
    var counts := ValueCounts(df);
    KeyOfIndex(counts, 0);
    KeyOfIndex(counts, 1);
  }

  /** A row of the example above: only the town and its flag matter. */
  function FlagRow(name: string, flag: Option<int>): Record
  {
    Record(name, NotText, 0.0, 0, 0, flag)
  }

  /** Line 74 as intended: with exactly two categories, the greater one (1, a
      restaurant exists) is "Has Restaurants" and the other "No Restaurants",
      in whatever order the counts put them. */
  function PieLabels(counts: seq<(int, int)>): (names: seq<Label>)
    ensures |names| == |counts|
    ensures |counts| == 2 ==> forall i :: 0 <= i < 2 ==>
              names[i] == Named(if counts[i].0 > counts[1 - i].0 then HasRestaurants else NoRestaurants)
    ensures |counts| != 2 ==> forall i :: 0 <= i < |names| ==> names[i] == Raw(counts[i].0)
  {
    if |counts| == 2 then
      seq(2, i requires 0 <= i < 2 =>
        Named(if counts[i].0 > counts[1 - i].0 then HasRestaurants else NoRestaurants))
    else seq(|counts|, i requires 0 <= i < |counts| => Raw(counts[i].0))
  }

  /** With the two categories 0 and 1, PieLabels names each slice after its
      own category, whichever of the two is more frequent. */
  lemma PieLabelsFollowCategory(df: Dataset)
    requires ObservedFlags(df) == {0, 1}
    ensures |ValueCounts(df)| == 2
    ensures forall i :: 0 <= i < 2 ==>
              PieLabels(ValueCounts(df))[i] ==
              Named(if ValueCounts(df)[i].0 == 1 then HasRestaurants else NoRestaurants)
  {
    var counts := ValueCounts(df);
    KeyOfIndex(counts, 0);
    KeyOfIndex(counts, 1);
  }

  /** Pairs each name with the count at the same position, as `px.pie` pairs
      `names` with `values`. */
  function Slices(counts: seq<(int, int)>, names: seq<Label>): seq<(Label, int)>
    requires |names| == |counts|
  {
    seq(|counts|, i requires 0 <= i < |counts| => (names[i], counts[i].1))
  }

  /** The restaurant pie as drawn (lines 64-77): one slice per category in the
      order of value_counts, sized by the category's count, named by position
      with PositionalLabels. */
  function RestaurantPie(df: Dataset, view: RestaurantView): (slices: seq<(Label, int)>)
    ensures var base := RestaurantBase(df, view);
            && |slices| == |ObservedFlags(base)| == |ValueCounts(base)|
            && (forall i :: 0 <= i < |slices| ==>
                  slices[i].1 == FlagCount(base, ValueCounts(base)[i].0) && slices[i].1 > 0)
            && Descending(slices)
            && SumValues(slices) == PresentFlags(base)
    ensures |slices| == 2 ==> slices[0].0 == Named(NoRestaurants) && slices[1].0 == Named(HasRestaurants)
    ensures |slices| != 2 ==> forall i :: 0 <= i < |slices| ==>
              slices[i].0 == Raw(ValueCounts(RestaurantBase(df, view))[i].0)
  {
    var base := RestaurantBase(df, view);
    var counts := ValueCounts(base);
    var names := PositionalLabels(counts);
    SlicesSum(counts, names);
    Slices(counts, names)
  }

  /** On the rows of the example above the drawn pie gives its larger slice,
      the two towns with restaurants, the name "No Restaurants". */
  lemma RestaurantPieMislabel()
    ensures var df := [FlagRow("A", Some(1)), FlagRow("B", Some(1)), FlagRow("C", Some(0))];
            RestaurantPie(df, AllTowns)[0] == (Named(NoRestaurants), 2) &&
            FlagCount(df, 1) == 2
  {
    var df := [FlagRow("A", Some(1)), FlagRow("B", Some(1)), FlagRow("C", Some(0))];
    PositionalLabelsMislabel();
    assert df[1..] == [FlagRow("B", Some(1)), FlagRow("C", Some(0))];
    assert df[1..][1..] == [FlagRow("C", Some(0))];
  }

  /** The restaurant pie as intended: the same slices as RestaurantPie, named
      with PieLabels, so that each name follows its own category. */
  function IntendedRestaurantPie(df: Dataset, view: RestaurantView): (slices: seq<(Label, int)>)
    ensures var base := RestaurantBase(df, view);
            && |slices| == |ObservedFlags(base)| == |ValueCounts(base)|
            && (forall i :: 0 <= i < |slices| ==>
                  slices[i].1 == FlagCount(base, ValueCounts(base)[i].0) && slices[i].1 > 0)
            && SumValues(slices) == PresentFlags(base)
    ensures var base := RestaurantBase(df, view);
            ObservedFlags(base) == {0, 1} ==>
              forall i :: 0 <= i < |slices| ==>
                && slices[i].0 == Named(if ValueCounts(base)[i].0 == 1 then HasRestaurants else NoRestaurants)
                && slices[i].1 == FlagCount(base, if slices[i].0 == Named(HasRestaurants) then 1 else 0)
  {
    var base := RestaurantBase(df, view);
    var names := PieLabels(ValueCounts(base));
    PieSlices(base, names);
    TwoCategorySlices(base);
    Slices(ValueCounts(base), names)
  }

  /** Slices built on the value counts of `base`: one per observed category,
      each carrying its name and its category's row count. */
  lemma PieSlices(base: Dataset, names: seq<Label>)
    requires |names| == |ValueCounts(base)|
    ensures var slices := Slices(ValueCounts(base), names);
            && |slices| == |ObservedFlags(base)| == |ValueCounts(base)|
            && (forall i :: 0 <= i < |slices| ==>
                  && slices[i].0 == names[i]
                  && slices[i].1 == FlagCount(base, ValueCounts(base)[i].0) && slices[i].1 > 0)
            && SumValues(slices) == PresentFlags(base)
  {
    SlicesSum(ValueCounts(base), names);
  }

  /** With the intended names and categories {0, 1}, each slice is sized by
      the count of the category its name denotes. */
  lemma TwoCategorySlices(base: Dataset)
    ensures var slices := Slices(ValueCounts(base), PieLabels(ValueCounts(base)));
            ObservedFlags(base) == {0, 1} ==> forall i :: 0 <= i < |slices| ==>
              && slices[i].0 == Named(if ValueCounts(base)[i].0 == 1 then HasRestaurants else NoRestaurants)
              && slices[i].1 == FlagCount(base, if slices[i].0 == Named(HasRestaurants) then 1 else 0)
  {
    if ObservedFlags(base) == {0, 1} {
      var counts := ValueCounts(base);
      var slices := Slices(counts, PieLabels(counts));
      PieLabelsFollowCategory(base);
      forall i | 0 <= i < |slices|
        ensures slices[i].0 == Named(if counts[i].0 == 1 then HasRestaurants else NoRestaurants)
        ensures slices[i].1 == FlagCount(base, if slices[i].0 == Named(HasRestaurants) then 1 else 0)
      {
        KeyOfIndex(counts, i);
      }
    }
  }

  lemma {:induction false} SlicesSum(counts: seq<(int, int)>, names: seq<Label>)
    requires |names| == |counts|
    ensures SumValues(Slices(counts, names)) == SumValues(counts)
  {
    if counts != [] {
      SlicesSum(counts[1..], names[1..]);
      assert Slices(counts, names)[1..] == Slices(counts[1..], names[1..]);
    }
  }

  // ---------------------------------------------------------------------------
  // Line 92: the regions offered for the bubble chart
  // ---------------------------------------------------------------------------

  /** Calling `split` on a non-string cell raises (pandas NaN is a float). */
  datatype Error = SplitOnNonString

  datatype Result<T> = Ok(value: T) | Err(error: Error)

  /** Row `r` lies in region `x` (after `split("/")[-1]`). */
  predicate InRegion(r: Record, x: string)
  {
    r.refArea.Text? && LastSegment(r.refArea.s) == x
  }

  /** `chart["refArea"].apply(lambda x: x.split("/")[-1])`, which fails on the
      first non-string cell. */
  function RegionColumn(chart: Dataset): (col: Result<seq<string>>)
    ensures col.Err? <==> exists i :: 0 <= i < |chart| && chart[i].refArea.NotText?
    ensures col.Ok? ==> |col.value| == |chart|
    ensures col.Ok? ==> forall i :: 0 <= i < |chart| ==> InRegion(chart[i], col.value[i])
  {
    if chart == [] then Ok([])
    else match chart[0].refArea
      case NotText => Err(SplitOnNonString)
      case Text(s) =>
        match RegionColumn(chart[1..])
        case Err(e) =>
          assert exists i :: 0 <= i < |chart[1..]| && chart[1..][i].refArea.NotText?;
          Err(e)
        case Ok(rest) =>
          assert forall i :: 1 <= i < |chart| ==> chart[i] == chart[1..][i - 1];
          Ok([LastSegment(s)] + rest)
  }

  /** `available_regions`: the distinct regions of the chart rows, each once, in
      ascending order. */
  function AvailableRegions(chart: Dataset): (regions: Result<seq<string>>)
    ensures regions.Err? <==> exists i :: 0 <= i < |chart| && chart[i].refArea.NotText?
    ensures regions.Ok? ==> StrictlyAscending(regions.value)
    ensures regions.Ok? ==> forall x :: x in regions.value <==> exists i :: 0 <= i < |chart| && InRegion(chart[i], x)
  {
    match RegionColumn(chart)
    case Err(e) => Err(e)
    case Ok(col) =>
      var regions := SortedUnique(col);
      assert forall x :: x in regions <==> exists i :: 0 <= i < |chart| && InRegion(chart[i], x) by {
        forall x ensures x in regions <==> exists i :: 0 <= i < |chart| && InRegion(chart[i], x) {
          if x in regions {
            var i :| 0 <= i < |col| && col[i] == x;
            assert InRegion(chart[i], x);
          }
          if exists i :: 0 <= i < |chart| && InRegion(chart[i], x) {
            var i :| 0 <= i < |chart| && InRegion(chart[i], x);
            assert col[i] == x;
          }
        }
      }
      Ok(regions)
  }

  // ---------------------------------------------------------------------------
  // Line 120: rows of the selected regions
  // ---------------------------------------------------------------------------

  /** The mask of line 120: the row's region is one of `selected`. */
  predicate RegionSelected(r: Record, selected: seq<string>)
  {
    r.refArea.Text? && LastSegment(r.refArea.s) in selected
  }

  /** `chart[chart["refArea"].apply(lambda x: x.split("/")[-1]).isin(selected)]`. */
  function RegionFilter(chart: Dataset, selected: seq<string>): (view: Dataset)
    ensures IsSubsequence(view, chart)
    ensures forall i :: 0 <= i < |view| ==> RegionSelected(view[i], selected)
    ensures forall x :: multiset(view)[x] == if RegionSelected(x, selected) then multiset(chart)[x] else 0
  {
    Filter(chart, r => RegionSelected(r, selected))
  }

  /** Filtering again with the same selection changes nothing. */
  lemma RegionFilterIdempotent(chart: Dataset, selected: seq<string>)
    ensures RegionFilter(RegionFilter(chart, selected), selected) == RegionFilter(chart, selected)
  {
    FilterIdempotent(chart, r => RegionSelected(r, selected));
  }

  /** With every available region selected, the filter keeps every row. */
  lemma FullSelectionKeepsAll(chart: Dataset)
    requires AvailableRegions(chart).Ok?
    ensures RegionFilter(chart, AvailableRegions(chart).value) == chart
  {
    var regions := AvailableRegions(chart).value;
    forall i | 0 <= i < |chart| ensures RegionSelected(chart[i], regions) {
      assert chart[i].refArea.Text?;
      assert InRegion(chart[i], LastSegment(chart[i].refArea.s));
    }
    FilterAllPass(chart, r => RegionSelected(r, regions));
  }

  // ---------------------------------------------------------------------------
  // Lines 137-141: the insight under the bubble chart
  // ---------------------------------------------------------------------------

  function SumTourism(view: Dataset): real
  {
    if view == [] then 0.0 else view[0].tourismIndex + SumTourism(view[1..])
  }

  function SumHotels(view: Dataset): int
  {
    if view == [] then 0 else view[0].hotels + SumHotels(view[1..])
  }

  /** `view["Total number of hotels"].max()`. */
  function MaxHotels(view: Dataset): (m: int)
    requires view != []
    ensures forall j :: 0 <= j < |view| ==> view[j].hotels <= m
    ensures exists j :: 0 <= j < |view| && view[j].hotels == m
  {
    if |view| == 1 then view[0].hotels
    else
      var rest := MaxHotels(view[1..]);
      assert forall j :: 1 <= j < |view| ==> view[j] == view[1..][j - 1];
      if view[0].hotels >= rest then view[0].hotels else rest
  }

  /** `view["Total number of hotels"].idxmax()`: the position of the first row
      with the most hotels. */
  function ArgMaxHotels(view: Dataset): (k: nat)
    requires view != []
    ensures k < |view|
    ensures forall j :: 0 <= j < |view| ==> view[j].hotels <= view[k].hotels
    ensures forall j :: 0 <= j < k ==> view[j].hotels < view[k].hotels
  {
    if |view| == 1 then 0
    else
      var k := ArgMaxHotels(view[..|view| - 1]);
      if view[|view| - 1].hotels > view[k].hotels then |view| - 1 else k
  }

  /** `max()` is the hotels of the row `idxmax()` points at. */
  lemma MaxAtArgMax(view: Dataset)
    requires view != []
    ensures MaxHotels(view) == view[ArgMaxHotels(view)].hotels
  {
    var k := ArgMaxHotels(view);
    var j :| 0 <= j < |view| && view[j].hotels == MaxHotels(view);
    assert view[j].hotels <= view[k].hotels;
  }

  lemma {:induction false} SumHotelsBounded(view: Dataset, m: int)
    requires forall j :: 0 <= j < |view| ==> view[j].hotels <= m
    ensures SumHotels(view) <= |view| * m
  {
    if view != [] {
      SumHotelsBounded(view[1..], m);
    }
  }

  /** The arithmetic mean of `count` values adding up to `sum`. */
  function Mean(sum: real, count: nat): (r: real)
    requires count > 0
    ensures r * (count as real) == sum
  {
    sum / (count as real)
  }

  /** The mean of values that are all at most `m` is at most `m`. */
  lemma MeanAtMost(sum: int, count: nat, m: int)
    requires count > 0 && sum <= count * m
    ensures Mean(sum as real, count) <= m as real
  {
    assert (sum as real) <= (count as real) * (m as real);
  }

  /** The insight: nothing when no row is selected; otherwise the mean tourism
      index, the mean number of hotels, the first town with the most hotels
      and that number. */
  datatype Insight =
    | NoData
    | Stats(meanTourism: real, meanHotels: real, topTown: string, maxHotels: int)

  function BubbleInsight(view: Dataset): (r: Insight)
    ensures r.NoData? <==> view == []
    ensures r.Stats? ==> r.meanTourism * (|view| as real) == SumTourism(view)
    ensures r.Stats? ==> r.meanHotels * (|view| as real) == SumHotels(view) as real
    ensures r.Stats? ==> forall j :: 0 <= j < |view| ==> view[j].hotels <= r.maxHotels
    ensures r.Stats? ==> exists k :: 0 <= k < |view| && view[k].town == r.topTown &&
                                     view[k].hotels == r.maxHotels &&
                                     forall j :: 0 <= j < k ==> view[j].hotels < r.maxHotels
    ensures r.Stats? ==> r.meanHotels <= r.maxHotels as real
  {
    if view == [] then NoData
    else
      var k := ArgMaxHotels(view);
      SumHotelsBounded(view, view[k].hotels);
      MeanAtMost(SumHotels(view), |view|, view[k].hotels);
      Stats(Mean(SumTourism(view), |view|), Mean(SumHotels(view) as real, |view|),
            view[k].town, view[k].hotels)
  }

  /** The maximum the insight reports is `max()` of the hotel column (line 141). */
  lemma InsightMaxIsMax(view: Dataset)
    requires view != []
    ensures BubbleInsight(view).Stats? && BubbleInsight(view).maxHotels == MaxHotels(view)
  {
    MaxAtArgMax(view);
  }

  /** The rows behind the bubble chart and its insight (lines 88 and 120). */
  function BubbleView(df: Dataset, selected: seq<string>): (view: Dataset)
    ensures IsSubsequence(view, BubbleBase(df))
    ensures forall i :: 0 <= i < |view| ==>
              (view[i].hotels > 0 || view[i].restaurants > 0) && RegionSelected(view[i], selected)
    ensures forall x :: multiset(view)[x] ==
              if HasHotelsOrRestaurants(x) && RegionSelected(x, selected) then multiset(df)[x] else 0
  {
    var chart := BubbleBase(df);
    var view := RegionFilter(chart, selected);
    assert forall i :: 0 <= i < |view| ==> view[i].hotels > 0 || view[i].restaurants > 0 by {
      forall i | 0 <= i < |view| ensures view[i].hotels > 0 || view[i].restaurants > 0 {
        SubsequenceMember(view, chart, i);
      }
    }
    view
  }
}
