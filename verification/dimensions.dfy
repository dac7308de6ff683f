/**
 * build_dimensions: the Region, Country and ProductCategory inserts as pure functions of the
 * staged rows and the dimension tables, and what they leave in those tables.
 */
module Dimensions {
  import opened Wrappers
  import opened PgFunc
  import opened Upsert
  import opened Schema
  import opened Stages

  // ---------------------------------------------------------------- Region

  /** `SELECT DISTINCT Region FROM stage_customer WHERE Region IS NOT NULL AND Region <> ''` */
  function RegionCandidates(stage: seq<Row>): set<string> {
    set i | 0 <= i < |stage| && Present(Field(stage[i], RegionCol)) :: Field(stage[i], RegionCol).value
  }

  function RegionKey(name: string): string { name }

  function MkRegion(id: nat, name: string): RegionRow { RegionRow(id, name) }

  /** The Region rows `INSERT INTO Region(Region) ... ON CONFLICT (Region) DO NOTHING` adds. */
  function NewRegions(regions: seq<RegionRow>, next: nat, order: seq<string>): seq<RegionRow> {
    NewRows(regions, RegionName, order, RegionKey, MkRegion, next)
  }

  /** After the Region insert the names are the old ones plus every non-NULL, non-empty staged
      region; no name is duplicated and the ids stay serial. */
  lemma RegionInsert(stage: seq<Row>, regions: seq<RegionRow>, next: nat, order: seq<string>)
    requires Enumerates(order, RegionCandidates(stage))
    requires Keyed(regions, RegionName, RegionId, next)
    ensures var t := regions + NewRegions(regions, next, order);
      && Names(t, RegionName) == Names(regions, RegionName) + RegionCandidates(stage)
      && Keyed(t, RegionName, RegionId, next + |order|)
  {
    NewRowsSpec(regions, RegionName, RegionId, order, RegionKey, MkRegion, next);
    IdentityKeys(order, RegionCandidates(stage), RegionKey);
  }

  // ---------------------------------------------------------------- Country

  /** `SELECT DISTINCT s.Country, r.RegionID FROM stage_customer s JOIN Region r ON s.Region = r.Region
      WHERE s.Country IS NOT NULL AND s.Country <> ''` */
  function CountryCandidates(stage: seq<Row>, regions: seq<RegionRow>): set<(string, nat)> {
    set i, j | 0 <= i < |stage| && 0 <= j < |regions|
      && Present(Field(stage[i], CountryCol)) && Field(stage[i], RegionCol) == Some(regions[j].name)
      :: (Field(stage[i], CountryCol).value, regions[j].id)
  }

  /** The names among a set of (country, region id) pairs. */
  function CountryNames(pairs: set<(string, nat)>): set<string> {
    set p | p in pairs :: p.0
  }

  function CountryKey(p: (string, nat)): string { p.0 }

  function MkCountry(id: nat, p: (string, nat)): CountryRow { CountryRow(id, p.0, p.1) }

  /** The Country rows `INSERT INTO Country(Country, RegionID) ... ON CONFLICT (Country) DO NOTHING` adds. */
  function NewCountries(countries: seq<CountryRow>, next: nat, order: seq<(string, nat)>): seq<CountryRow> {
    NewRows(countries, CountryName, order, CountryKey, MkCountry, next)
  }

  /** A candidate pair names a staged, non-empty country and the id of an existing region. */
  lemma CountryCandidateSource(stage: seq<Row>, regions: seq<RegionRow>, p: (string, nat))
    requires p in CountryCandidates(stage, regions)
    ensures p.1 in Ids(regions, RegionId) && p.0 != ""
    ensures exists i :: 0 <= i < |stage| && Field(stage[i], CountryCol) == Some(p.0)
  {
    var i, j :| 0 <= i < |stage| && 0 <= j < |regions|
      && Present(Field(stage[i], CountryCol)) && Field(stage[i], RegionCol) == Some(regions[j].name)
      && p == (Field(stage[i], CountryCol).value, regions[j].id);
    assert Ids(regions, RegionId)[j] == p.1;
  }

  /** After the Country insert the names are the old ones plus every staged country whose region
      resolves; each new row is one of the selected (country, region id) pairs, so it references
      an existing region, and the old references are kept. */
  lemma CountryInsert(stage: seq<Row>, regions: seq<RegionRow>, countries: seq<CountryRow>, next: nat, order: seq<(string, nat)>)
    requires Enumerates(order, CountryCandidates(stage, regions))
    requires Keyed(countries, CountryName, CountryId, next)
    ensures var t := countries + NewCountries(countries, next, order);
      && Names(t, CountryName) == Names(countries, CountryName) + CountryNames(CountryCandidates(stage, regions))
      && Keyed(t, CountryName, CountryId, next + |order|)
      && (forall i :: |countries| <= i < |t| ==> (t[i].name, t[i].regionId) in CountryCandidates(stage, regions))
      && (CountriesReferenceRegions(countries, regions) ==> CountriesReferenceRegions(t, regions))
  {
    var cands := CountryCandidates(stage, regions);
    NewRowsSpec(countries, CountryName, CountryId, order, CountryKey, MkCountry, next);
    EnumeratedKeys(order, cands, CountryKey);
    var ins := Inserted(Names(countries, CountryName), order, CountryKey, next);
    var t := countries + NewCountries(countries, next, order);
    forall i | |countries| <= i < |t| ensures (t[i].name, t[i].regionId) in cands {
      var k := i - |countries|;
      assert t[i] == MkCountry(ins[k].0, ins[k].1);
      assert ins[k].1 in order;
    }
    forall i | |countries| <= i < |t| ensures t[i].regionId in Ids(regions, RegionId) {
      CountryCandidateSource(stage, regions, (t[i].name, t[i].regionId));
    }
  }

  // ---------------------------------------------------------------- ProductCategory

  const AutoGenerated: string := "Auto-generated"

  /** `SELECT DISTINCT LEFT(ProductName, 5), 'Auto-generated' FROM stage_customer
      WHERE ProductName IS NOT NULL AND ProductName <> ''`: LEFT applies to the whole raw list. */
  function CategoryCandidates(stage: seq<Row>): set<string> {
    set i | 0 <= i < |stage| && Present(Field(stage[i], ProductNameCol)) :: Left(Field(stage[i], ProductNameCol).value, 5)
  }

  function CategoryKey(name: string): string { name }

  function MkCategory(id: nat, name: string): CategoryRow { CategoryRow(id, name, Some(AutoGenerated)) }

  /** The rows `INSERT INTO ProductCategory ... ON CONFLICT (ProductCategory) DO NOTHING` adds. */
  function NewCategories(categories: seq<CategoryRow>, next: nat, order: seq<string>): seq<CategoryRow> {
    NewRows(categories, CategoryName, order, CategoryKey, MkCategory, next)
  }

  /** After the category insert the names are the old ones plus the first five characters of
      every staged product list; every new category is described as auto-generated. */
  lemma CategoryInsert(stage: seq<Row>, categories: seq<CategoryRow>, next: nat, order: seq<string>)
    requires Enumerates(order, CategoryCandidates(stage))
    requires Keyed(categories, CategoryName, CategoryId, next)
    ensures var t := categories + NewCategories(categories, next, order);
      && Names(t, CategoryName) == Names(categories, CategoryName) + CategoryCandidates(stage)
      && Keyed(t, CategoryName, CategoryId, next + |order|)
      && (forall i :: |categories| <= i < |t| ==> t[i].description == Some(AutoGenerated) && |t[i].name| <= 5)
  {
    NewRowsSpec(categories, CategoryName, CategoryId, order, CategoryKey, MkCategory, next);
    IdentityKeys(order, CategoryCandidates(stage), CategoryKey);
    var ins := Inserted(Names(categories, CategoryName), order, CategoryKey, next);
    var t := categories + NewCategories(categories, next, order);
    forall i | |categories| <= i < |t| ensures t[i].description == Some(AutoGenerated) && |t[i].name| <= 5 {
      var k := i - |categories|;
      assert t[i] == MkCategory(ins[k].0, ins[k].1);
      assert ins[k].1 in order;
      var j :| 0 <= j < |stage| && Present(Field(stage[j], ProductNameCol)) && ins[k].1 == Left(Field(stage[j], ProductNameCol).value, 5);
    }
  }

  // ---------------------------------------------------------------- build_dimensions

  /** The three dimension tables with the values their sequences stand at. */
  datatype DimensionTables = DimensionTables(
    regions: seq<RegionRow>, nextRegionId: nat,
    countries: seq<CountryRow>, nextCountryId: nat,
    categories: seq<CategoryRow>, nextCategoryId: nat)

  /** The orders in which the engine produces the rows of the three SELECTs. */
  datatype DimensionOrders = DimensionOrders(regions: seq<string>, countries: seq<(string, nat)>, categories: seq<string>)

  /** Each dimension table has unique names and serial ids. */
  predicate DimensionsKeyed(d: DimensionTables) {
    && Keyed(d.regions, RegionName, RegionId, d.nextRegionId)
    && Keyed(d.countries, CountryName, CountryId, d.nextCountryId)
    && Keyed(d.categories, CategoryName, CategoryId, d.nextCategoryId)
  }

  /** The Region table once the first statement of build_dimensions has run. */
  function RegionsAfter(d: DimensionTables, o: DimensionOrders): seq<RegionRow> {
    d.regions + NewRegions(d.regions, d.nextRegionId, o.regions)
  }

  /** The three statements of build_dimensions in order; the Country join sees the new regions. */
  function BuildDimensions(stage: seq<Row>, d: DimensionTables, o: DimensionOrders): DimensionTables {
    DimensionTables(
      RegionsAfter(d, o), d.nextRegionId + |o.regions|,
      d.countries + NewCountries(d.countries, d.nextCountryId, o.countries), d.nextCountryId + |o.countries|,
      d.categories + NewCategories(d.categories, d.nextCategoryId, o.categories), d.nextCategoryId + |o.categories|)
  }

  /** The orders list the rows each SELECT produces. */
  ghost predicate DimensionOrdersFit(stage: seq<Row>, d: DimensionTables, o: DimensionOrders) {
    && Enumerates(o.regions, RegionCandidates(stage))
    && Enumerates(o.countries, CountryCandidates(stage, RegionsAfter(d, o)))
    && Enumerates(o.categories, CategoryCandidates(stage))
  }

  /** build_dimensions keeps the keys of the dimension tables and extends their names exactly by
      the staged regions, the staged countries whose region resolves, and the staged categories. */
  lemma BuildDimensionsSpec(stage: seq<Row>, d: DimensionTables, o: DimensionOrders)
    requires DimensionsKeyed(d) && DimensionOrdersFit(stage, d, o)
    ensures var d' := BuildDimensions(stage, d, o);
      && DimensionsKeyed(d')
      && Names(d'.regions, RegionName) == Names(d.regions, RegionName) + RegionCandidates(stage)
      && Names(d'.countries, CountryName) == Names(d.countries, CountryName) + CountryNames(CountryCandidates(stage, d'.regions))
      && Names(d'.categories, CategoryName) == Names(d.categories, CategoryName) + CategoryCandidates(stage)
  {
    RegionInsert(stage, d.regions, d.nextRegionId, o.regions);
    CountryInsert(stage, RegionsAfter(d, o), d.countries, d.nextCountryId, o.countries);
    CategoryInsert(stage, d.categories, d.nextCategoryId, o.categories);
  }

  /** build_dimensions keeps Country's foreign key to Region: old countries keep their regions,
      new ones take the id of an existing region. */
  lemma BuildDimensionsReferences(stage: seq<Row>, d: DimensionTables, o: DimensionOrders)
    requires DimensionsKeyed(d) && DimensionOrdersFit(stage, d, o)
    requires CountriesReferenceRegions(d.countries, d.regions)
    ensures var d' := BuildDimensions(stage, d, o);
      CountriesReferenceRegions(d'.countries, d'.regions)
  {
    var regions := RegionsAfter(d, o);
    forall i | 0 <= i < |d.countries| ensures d.countries[i].regionId in Ids(regions, RegionId) {
      assert d.countries[i].regionId in Ids(d.regions, RegionId);
      var j :| 0 <= j < |d.regions| && Ids(d.regions, RegionId)[j] == d.countries[i].regionId;
      assert Ids(regions, RegionId)[j] == d.countries[i].regionId;
    }
    CountryInsert(stage, regions, d.countries, d.nextCountryId, o.countries);
  }

  /** An insert whose selected regions are all present adds nothing. */
  lemma RegionsSettled(stage: seq<Row>, regions: seq<RegionRow>, next: nat, order: seq<string>)
    requires Enumerates(order, RegionCandidates(stage))
    requires RegionCandidates(stage) <= Names(regions, RegionName)
    ensures NewRegions(regions, next, order) == [] && |order| == |RegionCandidates(stage)|
  {
    IdentityKeys(order, RegionCandidates(stage), RegionKey);
    InsertedNothingNew(Names(regions, RegionName), order, RegionKey, next);
    EnumerationLength(order, RegionCandidates(stage));
  }

  lemma CountriesSettled(stage: seq<Row>, regions: seq<RegionRow>, countries: seq<CountryRow>, next: nat, order: seq<(string, nat)>)
    requires Enumerates(order, CountryCandidates(stage, regions))
    requires CountryNames(CountryCandidates(stage, regions)) <= Names(countries, CountryName)
    ensures NewCountries(countries, next, order) == [] && |order| == |CountryCandidates(stage, regions)|
  {
    EnumeratedKeys(order, CountryCandidates(stage, regions), CountryKey);
    InsertedNothingNew(Names(countries, CountryName), order, CountryKey, next);
    EnumerationLength(order, CountryCandidates(stage, regions));
  }

  lemma CategoriesSettled(stage: seq<Row>, categories: seq<CategoryRow>, next: nat, order: seq<string>)
    requires Enumerates(order, CategoryCandidates(stage))
    requires CategoryCandidates(stage) <= Names(categories, CategoryName)
    ensures NewCategories(categories, next, order) == [] && |order| == |CategoryCandidates(stage)|
  {
    IdentityKeys(order, CategoryCandidates(stage), CategoryKey);
    InsertedNothingNew(Names(categories, CategoryName), order, CategoryKey, next);
    EnumerationLength(order, CategoryCandidates(stage));
  }

  /** Running build_dimensions a second time on the same staged rows adds no row to any
      dimension table; only the sequences advance, once per selected row. */
  lemma DimensionsRerun(stage: seq<Row>, d: DimensionTables, o1: DimensionOrders, o2: DimensionOrders)
    requires DimensionsKeyed(d) && DimensionOrdersFit(stage, d, o1)
    requires DimensionOrdersFit(stage, BuildDimensions(stage, d, o1), o2)
    ensures var d1 := BuildDimensions(stage, d, o1);
      var d2 := BuildDimensions(stage, d1, o2);
      && d2.regions == d1.regions && d2.countries == d1.countries && d2.categories == d1.categories
      && d2.nextRegionId == d1.nextRegionId + |RegionCandidates(stage)|
      && d2.nextCountryId == d1.nextCountryId + |CountryCandidates(stage, d1.regions)|
      && d2.nextCategoryId == d1.nextCategoryId + |CategoryCandidates(stage)|
  {
    var d1 := BuildDimensions(stage, d, o1);
    BuildDimensionsSpec(stage, d, o1);
    RegionsSettled(stage, d1.regions, d1.nextRegionId, o2.regions);
    assert RegionsAfter(d1, o2) == d1.regions;
    CountriesSettled(stage, d1.regions, d1.countries, d1.nextCountryId, o2.countries);
    CategoriesSettled(stage, d1.categories, d1.nextCategoryId, o2.categories);
  }
}
