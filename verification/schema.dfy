/**
 * The warehouse schema: the rows of the six warehouse tables, the staging row, the table
 * names in the order the schema reset drops them, the staging column layout and the
 * configuration of the source files.
 */
module Schema {
  import opened Wrappers
  import opened Upsert

  /** A staged row: the values of one source row in expected-column order (`None` is NULL). */
  type Row = seq<Option<string>>

  /** ProductUnitPrice (REAL). The pipeline draws it from random(), so the model takes it as a parameter. */
  type Price = real

  /** An order date (DATE); CURRENT_DATE is a parameter of the model. */
  type Date = nat

  datatype RegionRow = RegionRow(id: nat, name: string)
  datatype CountryRow = CountryRow(id: nat, name: string, regionId: nat)
  datatype CategoryRow = CategoryRow(id: nat, name: string, description: Option<string>)
  datatype ProductRow = ProductRow(id: nat, name: string, unitPrice: Price, categoryId: nat)
  datatype CustomerRow = CustomerRow(id: nat, firstName: string, lastName: string, address: string, city: string, countryId: nat)
  datatype OrderRow = OrderRow(id: nat, customerId: nat, productId: nat, orderDate: Date, quantity: int)

  /** The errors a statement can raise. `StatementFailed` stands for any other error, such as a
      statement timeout or a missing privilege. A lock timeout (`LockNotAvailable`) is not among
      them: the only statements that meet it in the pipeline are the drops, where it is the
      `LockBusy` outcome. */
  datatype DbError =
    | UndefinedTable(table: string)
    | NotNullViolation(table: string)
    | ForeignKeyViolation(table: string)
    | StatementFailed(table: string)

  const RegionTable := "Region"
  const CountryTable := "Country"
  const CustomerTable := "Customer"
  const CategoryTable := "ProductCategory"
  const ProductTable := "Product"
  const OrderDetailTable := "OrderDetail"
  const StageCustomerTable := "stage_customer"

  /** The tables of DROP_TABLES_SQL, in the order the schema reset drops them
      (each entry stands for `DROP TABLE IF EXISTS <name> CASCADE`). */
  const DropTablesSql: seq<string> := [
    OrderDetailTable, ProductTable, CategoryTable, CustomerTable, CountryTable, RegionTable,
    "stage_orderdetail", "stage_product", "stage_product_category", StageCustomerTable,
    "stage_country", "stage_region"
  ]

  const WarehouseTables: set<string> :=
    {RegionTable, CountryTable, CustomerTable, CategoryTable, ProductTable, OrderDetailTable}

  const StageTables: set<string> :=
    {"stage_region", "stage_country", StageCustomerTable, "stage_product_category", "stage_product", "stage_orderdetail"}

  /** The columns of stage_customer in declaration order, which is also the expected-column
      order of the configured source file; staged rows hold their values at these positions. */
  const StageCustomerColumns: seq<string> := ["Name", "Address", "City", "Country", "Region", "ProductName"]
  const NameCol: nat := 0
  const AddressCol: nat := 1
  const CityCol: nat := 2
  const CountryCol: nat := 3
  const RegionCol: nat := 4
  const ProductNameCol: nat := 5

  /** The value of a staged row in a column; a column the row does not carry reads as NULL. */
  function Field(r: Row, col: nat): Option<string> {
    if col < |r| then r[col] else None
  }

  /** One entry of FILES; the `None` fields fall back to the loader's defaults. */
  datatype FileConfig = FileConfig(name: string, filename: string, batchSize: Option<int>, stageTable: Option<string>)

  const DefaultBatchSize: int := 5000

  const Files: seq<FileConfig> := [FileConfig("data", "data.csv", Some(5000), Some(StageCustomerTable))]

  const ExpectedColumns: map<string, seq<string>> := map["data" := StageCustomerColumns]

  /** `meta.get("stage_table", f"stage_{name}")` */
  function StageTableOf(f: FileConfig): string {
    match f.stageTable
    case Some(t) => t
    case None => "stage_" + f.name
  }

  /** `meta.get("batch_size", 5000)` */
  function BatchSizeOf(f: FileConfig): int {
    match f.batchSize
    case Some(b) => b
    case None => DefaultBatchSize
  }

  // Accessors of the id and the natural key of each table.

  function RegionId(r: RegionRow): nat { r.id }
  function CountryId(r: CountryRow): nat { r.id }
  function CategoryId(r: CategoryRow): nat { r.id }
  function ProductId(r: ProductRow): nat { r.id }
  function CustomerId(r: CustomerRow): nat { r.id }
  function OrderId(r: OrderRow): nat { r.id }

  function RegionName(r: RegionRow): string { r.name }
  function CountryName(r: CountryRow): string { r.name }
  function CategoryName(r: CategoryRow): string { r.name }
  function ProductName(r: ProductRow): string { r.name }

  // The foreign keys of the schema.

  predicate CountriesReferenceRegions(countries: seq<CountryRow>, regions: seq<RegionRow>) {
    forall i :: 0 <= i < |countries| ==> countries[i].regionId in Ids(regions, RegionId)
  }

  predicate ProductsReferenceCategories(products: seq<ProductRow>, categories: seq<CategoryRow>) {
    forall i :: 0 <= i < |products| ==> products[i].categoryId in Ids(categories, CategoryId)
  }

  predicate CustomersReferenceCountries(customers: seq<CustomerRow>, countries: seq<CountryRow>) {
    forall i :: 0 <= i < |customers| ==> customers[i].countryId in Ids(countries, CountryId)
  }

  predicate OrdersReferenceCustomersAndProducts(orders: seq<OrderRow>, customers: seq<CustomerRow>, products: seq<ProductRow>) {
    forall i :: 0 <= i < |orders| ==>
      orders[i].customerId in Ids(customers, CustomerId) && orders[i].productId in Ids(products, ProductId)
  }
}
