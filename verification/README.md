# Warehouse loader and query helpers, modelled in Dafny

This project models the batch loader `populate_db.py`. The loader resets a PostgreSQL schema. It then stages a
tab-separated extract into `stage_customer` in batches, and builds a small star schema from the staged rows:
Region, Country, ProductCategory, Customer, Product and OrderDetail. The project also models two string helpers of the
query page `streamlit_app.py`:

- `_ensure_limit` appends `LIMIT 500` to a query that has no `limit` word;
- `extract_sql_from_response` removes Markdown code fences from a generated query.

The database is one value, `Pipeline.Store`. It records:

- which tables exist;
- the rows of the stage tables;
- the rows of the six warehouse tables, with the values their SERIAL sequences stand at;
- whether Product still carries its foreign key to ProductCategory.

Every SQL statement is a function on that value. Each statement follows PostgreSQL's behaviour:

- `DROP TABLE IF EXISTS … CASCADE`;
- `CREATE TABLE IF NOT EXISTS`;
- `INSERT … SELECT … ON CONFLICT DO NOTHING`. Every selected candidate draws a sequence value, including the ones that
  conflict. The first candidate of a given key wins.
- one transaction per build step. A failing step changes nothing.

The class `Warehouse.Database` holds the same state in fields. Its methods perform the statements in place, with the
loops the loader has:

- the drop loop;
- the staging loop, which buffers rows, flushes at `batch_size` and flushes a final remainder;
- the loop over the configured files.

Each method is proved against the functions in `Pipeline` and `Staging`. The properties of those functions are proved
as lemmas.

The SQL leaves some choices to the database engine: the order of `DISTINCT` and join results, and the values of
`random()` and `CURRENT_DATE`. The model takes these as parameters. An order parameter is any duplicate-free listing
of the selected rows (`Stages.Enumerates`). The postconditions hold for every such listing.

Module layout:

- `Wrappers`: `Option`, `Result`, `Outcome`.
- `PyStr`: Python's `str.isspace`, `strip`, `rstrip`, the `\w` class, and `sorted(set(...))` on strings.
- `PgFunc`: `SPLIT_PART`, `STRING_TO_ARRAY`/`UNNEST`, `LEFT`, `NULLIF`, `COALESCE`.
- `Upsert`: `ON CONFLICT (key) DO NOTHING` with SERIAL numbering.
- `Schema`: rows, table names, `DROP_TABLES_SQL`, `FILES` and `EXPECTED_COLUMNS`.
- `Stages`: unspecified engine order, and the NULL-or-empty test.
- `Staging`: the staging loader as functions.
- `Dimensions`, `Entities`, `Facts`: the three build stages.
- `Pipeline`: the whole store, and the drop, create and build steps.
- `Warehouse`: the imperative database class.
- `QueryText`: the two query-page helpers.

Behaviour of the loader a reader may not expect:

- **Category key.** The comment at populate_db.py:243 speaks of the product names' first tokens, but the insert at
  populate_db.py:246 takes `LEFT(ProductName, 5)` of the whole `;`-separated list; the model follows the insert.
- **Re-runs duplicate Customer and OrderDetail rows.** Neither table has a unique key besides its id, so
  `ON CONFLICT DO NOTHING` never fires on them. `Entities.CustomersRerun` and `Facts.FactsRerun` state what a re-run
  adds.
- **Duplicate prices are not avoided.** A product listed with several `random()` prices is selected several times,
  because `DISTINCT` applies to the (name, price) pair. The first selected pair wins, and the others still consume
  sequence values.
- **Every new product is in category 1.** The id is hard-coded, so the insert fails if that category does not exist
  while the foreign key is enforced.

## Model

| member | source | states |
|---|---|---|
| PyStr.Strip | streamlit_app.py:196 | `str.strip()`: the result is the input with its leading and trailing whitespace runs cut off; it is empty or starts and ends with a non-space |
| PyStr.RStrip | streamlit_app.py:198 | `rstrip(";")`: the result is a prefix of the input, every removed character is `;`, and the result does not end in `;` |
| PyStr.StripIdempotent | streamlit_app.py:196 | stripping a stripped string changes nothing |
| PyStr.StripSpacePadded | streamlit_app.py:227 | whitespace added around a string does not change its strip |
| PyStr.NonSpaceInsideStrip | streamlit_app.py:196 | a non-space character lies inside the part `strip()` keeps |
| PyStr.InsertSorted | populate_db.py:173 | inserting into a strictly sorted list keeps it strictly sorted and adds exactly that element |
| PyStr.SortedDistinct | populate_db.py:173 | `sorted(set(xs))`: strictly increasing, with exactly the elements of xs |
| PyStr.StrictlySortedUnique | populate_db.py:173 | two strictly sorted lists with the same elements are equal, so the sorted missing-column list is determined |
| PyStr.LexLessTotal | populate_db.py:173 | Python's string order is total on distinct strings |
| PyStr.LexLessTransitive | populate_db.py:173 | Python's string order is transitive |
| PgFunc.Split | populate_db.py:278 | the fields of a split contain no delimiter and join back to the input |
| PgFunc.SplitJoin | populate_db.py:278 | splitting the join of delimiter-free fields gives back the fields (round trip) |
| PgFunc.SplitFreePrefix | populate_db.py:278 | a delimiter-free prefix only extends the first field |
| PgFunc.SplitPartFirst | populate_db.py:264 | `SPLIT_PART(s, ' ', 1)` is the prefix of s up to the first space, or all of s |
| PgFunc.StringToArray | populate_db.py:278 | `STRING_TO_ARRAY`: NULL for NULL, an empty array for `''`, otherwise delimiter-free elements that join back to the input |
| Upsert.Inserted | populate_db.py:226-250 | `ON CONFLICT DO NOTHING`: new rows take their candidate's sequence value; ids increase; keys are distinct; the new keys are exactly the candidate keys not already taken |
| Upsert.InsertedExactly | populate_db.py:226-250 | candidate k is inserted with id next+k iff its key is neither taken nor used by an earlier candidate |
| Upsert.InsertedNothingNew | populate_db.py:226-250 | when every candidate key is taken, nothing is inserted |
| Upsert.NewRowsSpec | populate_db.py:70-104 | after the insert the names are the old names plus the candidate keys, and names stay unique with ids below the advanced sequence |
| Stages.EnumerationLength | populate_db.py:228 | a duplicate-free listing of a selection has as many entries as the selection |
| Stages.EnumeratedKeys | populate_db.py:228 | the keys of a listing are the keys of the set it lists |
| Staging.Project | populate_db.py:187 | a projected row has one value per expected column |
| Staging.ProjectAt | populate_db.py:187 | position k of a projected row is `row.get(cols[k], None)` |
| Staging.ProjectIgnoresExtra | populate_db.py:187 | columns outside the expected list do not affect the projection |
| Staging.StageRows | populate_db.py:186-187 | one staged row per data row |
| Staging.Absent | populate_db.py:173 | the expected columns absent from the header, as a set |
| Staging.MissingColumnsOf | populate_db.py:173 | the missing-column list is strictly sorted and holds exactly the expected columns absent from the header |
| Staging.CheckFileSpec | populate_db.py:167-175 | the file check fails with MissingFile iff the path does not exist; with a header, it succeeds iff every expected column is present; on success it returns the file; a MissingColumns error lists the missing columns, non-empty and sorted |
| Staging.BatchSizesSum | populate_db.py:186-199 | the flushed batches add up to the number of data rows |
| Staging.BatchSizesShape | populate_db.py:188-199 | there are no batches iff there are no rows; every batch but the last has batch_size rows; the last has 1..batch_size |
| Staging.BatchSizesDivMod | populate_db.py:186-199 | n = q*b + r rows give q full batches followed by one batch of r rows when r > 0 |
| Staging.RunningTotals | populate_db.py:191 | one running total per flush |
| Staging.RunningTotalsAppend | populate_db.py:191 | a further flush adds its size to the previous total |
| Staging.BatchTotals | populate_db.py:191-198 | the running total after flush k is (k+1)*batch_size, and after the last flush it is the number of data rows |
| Staging.BatchedFlush | populate_db.py:188-193 | a full buffer is flushed and the totals advance by batch_size |
| Staging.BatchedLast | populate_db.py:195-199 | the final remainder completes the batch list and the totals |
| Staging.BatchedDone | populate_db.py:195 | with no remainder the flushed batches are already complete |
| Staging.StageAllSkipsAbsent | populate_db.py:205-210 | configured files that are all absent are skipped without a failure and without change |
| Staging.ConfiguredLoad | populate_db.py:115-132 | with the configured FILES: an absent `data.csv` is skipped; otherwise it is loaded into stage_customer with the six expected columns, and its error is propagated |
| Dimensions.RegionInsert | populate_db.py:226-231 | the Region names become old names plus the distinct non-NULL, non-empty staged regions; names stay unique, ids serial |
| Dimensions.CountryCandidateSource | populate_db.py:234-241 | every selected (country, RegionID) pair has a non-empty staged country and an existing Region id |
| Dimensions.CountryInsert | populate_db.py:234-241 | the Country names grow by exactly the selected countries; every new row is a selected pair; names stay unique; Country→Region references are kept |
| Dimensions.CategoryInsert | populate_db.py:244-250 | the category names grow by exactly the LEFT-5 keys of the non-empty staged lists; every new row has description 'Auto-generated' and a name of at most 5 characters |
| Dimensions.BuildDimensionsSpec | populate_db.py:222-254 | build_dimensions keeps all three tables keyed, and each name set grows by exactly its candidates |
| Dimensions.BuildDimensionsReferences | populate_db.py:234-241 | every Country still references an existing Region afterwards |
| Dimensions.RegionsSettled | populate_db.py:226-231 | when every staged region exists, no Region row is added |
| Dimensions.CountriesSettled | populate_db.py:234-241 | when every selected country exists, no Country row is added |
| Dimensions.CategoriesSettled | populate_db.py:244-250 | when every category key exists, no category is added |
| Dimensions.DimensionsRerun | populate_db.py:222-254 | a second build_dimensions leaves all three tables unchanged; only the sequences advance, by the number of candidates |
| Entities.JoinRowOnce | populate_db.py:270 | since Country names are unique, each staged row joins at most one country |
| Entities.CustomerInsertFails | populate_db.py:261-272 | the Customer insert fails iff some staged row with an existing country has a NULL name, address or city |
| Entities.CustomerInsert | populate_db.py:261-272 | one customer per staged row whose country exists, with ids next, next+1, …; first name is the text before the first space, last name the second token or 'Unknown'; address, city and CountryID come from the row |
| Entities.CustomersRerun | populate_db.py:261-272 | a re-run inserts as many customers again; whatever order the engine joins in on either run, each customer of the re-run equals a customer of the first run for the same staged row and country, with only its id changed |
| Entities.UnitPrice | populate_db.py:279 | the price drawn is in [1, 101] |
| Entities.ProductInsert | populate_db.py:275-283 | Product names become old names plus every staged `;`-element; names stay unique; new products are in category 1 with a price in [1, 101] |
| Entities.ProductPrice | populate_db.py:277-282 | each new product's price is the one drawn for the first selected candidate of its name |
| Entities.NewProductsCategory | populate_db.py:280 | every new product has ProductCategoryID 1 |
| Entities.NewProductsEmpty | populate_db.py:275-283 | the Product insert adds nothing iff every staged element is already a product |
| Entities.JoinCountry | populate_db.py:268-270 | a joined CountryID is the id of an existing country |
| Entities.CustomerCountries | populate_db.py:88 | every Customer still references an existing Country |
| Entities.LoadEntitiesFails | populate_db.py:280 | load_entities fails on Product's foreign key iff customers insert, some staged element is new, category 1 is missing and the key is enforced |
| Entities.LoadEntitiesSpec | populate_db.py:257-287 | on success customer ids stay serial, product names stay unique, and they grow by exactly the staged elements |
| Entities.LoadEntitiesReferences | populate_db.py:257-287 | on success Customer→Country holds, and Product→ProductCategory holds when the key is enforced or category 1 exists |
| Facts.Quantity | populate_db.py:300 | `FLOOR(random() * 10 + 1)` is in 1..10 |
| Facts.FactJoinSource | populate_db.py:301-303 | a joined triple names an existing customer, whose first name is the row's first token, and an existing product listed by the row |
| Facts.FactInsert | populate_db.py:294-305 | one fact per joined triple; ids serial; dated today with quantity 1..10; references to Customer and Product are kept |
| Facts.FactsMatchJoin | populate_db.py:294-305 | a triple is joined iff some new fact carries its customer and product |
| Facts.NewFactPairs | populate_db.py:301-303 | the (customer, product) pairs of the new facts are exactly those of the join |
| Facts.FactsRerun | populate_db.py:294-305 | a re-run adds the same number of facts with the same (customer, product) pairs again |
| Pipeline.Attempted | populate_db.py:146-155 | the number of drops that run before the first one that fails with an error other than a busy lock |
| Pipeline.DropTableValid | populate_db.py:17-28 | one committed drop removes exactly that table and keeps the schema guarantees |
| Pipeline.DropAllSpec | populate_db.py:144-156 | drop_existing_tables skips every lock-busy drop (`LockBusy`) and removes exactly the tables of the committed drops before the first `Failed` outcome; it fails iff such an outcome occurs, with its error; the schema guarantees hold |
| Pipeline.DropAllKeeps | populate_db.py:144-156 | every table left standing keeps its rows and sequence |
| Pipeline.DropTablesCover | populate_db.py:16-29 | the drop list names exactly the tables the schema creates |
| Pipeline.DropAllClears | populate_db.py:16-29 | when every drop commits, the reset succeeds and no table is left |
| Pipeline.AllAttempted | populate_db.py:146-149 | when every drop commits, all twelve are attempted |
| Pipeline.AllDropped | populate_db.py:16-29 | when every drop commits, every existing table is among the dropped |
| Pipeline.DroppedEvery | populate_db.py:146-149 | when every drop commits, every listed table is among the dropped |
| Pipeline.CreateAllSpec | populate_db.py:159-163 | afterwards every table exists; existing ones are unchanged and new stage tables are empty; running it again changes nothing |
| Pipeline.ResetEmpties | populate_db.py:144-163 | a reset whose drops all commit, followed by create_tables, gives empty tables, sequences at 1, enforced foreign keys and a consistent warehouse |
| Pipeline.StagesValid | populate_db.py:182-199 | rewriting the rows of existing stage tables keeps the schema guarantees |
| Pipeline.DimensionsStepSpec | populate_db.py:222-254 | build_dimensions fails iff one of its four tables is missing; otherwise only the dimensions change, as BuildDimensions says, keeping the guarantees and every foreign key |
| Pipeline.DimensionsKeepValid | populate_db.py:222-254 | with its tables present, build_dimensions keeps the schema guarantees |
| Pipeline.DimensionsKeepConsistent | populate_db.py:222-254 | build_dimensions keeps every foreign key of the warehouse |
| Pipeline.EntitiesOrders | populate_db.py:108-109 | appending customers and products keeps the facts' references |
| Pipeline.EntitiesStepSpec | populate_db.py:257-287 | load_entities reports a missing table iff Customer, stage_customer or Country is missing, or Product is missing once customers insert; on success only Customer and Product change, with the guarantees and foreign keys kept |
| Pipeline.FactsStepSpec | populate_db.py:290-309 | build_facts fails iff one of its four tables is missing; otherwise it adds one fact per joined row and keeps the guarantees and every foreign key |
| Warehouse.Database.constructor | populate_db.py:31-113 | a database in which none of the pipeline's tables exists |
| Warehouse.Database.DropOne | populate_db.py:147-149 | one committed DROP … CASCADE |
| Warehouse.Database.DropExistingTables | populate_db.py:144-156 | the drop loop leaves the state and outcome that DropAll gives for the injected per-statement outcomes |
| Warehouse.Database.CreateTables | populate_db.py:159-163 | the state becomes CreateAll of the old state |
| Warehouse.Database.Clear | populate_db.py:182 | `DELETE FROM stage_table` empties that stage table only |
| Warehouse.Database.Flush | populate_db.py:189-191 | a batch insert appends the buffer to that stage table only |
| Warehouse.Database.LoadTsvToStage | populate_db.py:166-202 | on a failed check nothing changes; otherwise the stage table holds exactly the projected rows, the batches are BatchSizes and the reported totals their running sums |
| Warehouse.Database.Reload | populate_db.py:182-199 | clear, then batched insert: the stage table holds the projected rows |
| Warehouse.Database.InsertBatches | populate_db.py:186-199 | from an empty stage table, the loop and the final flush leave the projected rows with the batch sizes and totals |
| Warehouse.Database.ReadRows | populate_db.py:186-193 | the loop leaves the flushed prefix in the table, the rest (fewer than batch_size rows) in the buffer, and the batches so far |
| Warehouse.Database.LoadAllStaging | populate_db.py:205-219 | the loop over FILES gives the stage tables and outcome of StageAll and changes nothing else |
| Warehouse.Database.BuildDimensions | populate_db.py:222-254 | the state becomes DimensionsStep's result, or is unchanged when it fails |
| Warehouse.Database.LoadEntities | populate_db.py:257-287 | the state becomes EntitiesStep's result, or is unchanged when it fails |
| Warehouse.Database.BuildFacts | populate_db.py:290-309 | the state becomes FactsStep's result, or is unchanged when it fails |
| QueryText.StripKeepsLimitWord | streamlit_app.py:194-196 | a whole-word `limit` survives stripping |
| QueryText.AppendedLimitWord | streamlit_app.py:199 | the appended clause contains a whole-word `limit` |
| QueryText.EnsureLimitKeeps | streamlit_app.py:191-196 | with a whole-word `limit` in any letter case anywhere, the result is the input stripped, and is its own strip |
| QueryText.EnsureLimitAppends | streamlit_app.py:197-199 | with the default limit, the appended form ends in `\nLIMIT 500;`, and its prefix is the stripped query minus only trailing `;`, never itself ending in `;` |
| QueryText.EnsureLimitLimits | streamlit_app.py:194-199 | every result contains a whole-word `limit` |
| QueryText.EnsureLimitIdempotent | streamlit_app.py:194-199 | a second application only strips, so it never appends a second LIMIT, and it changes nothing when the query was not just semicolons and whitespace |
| QueryText.LimitNeedsWordBoundaries | streamlit_app.py:194 | `unlimited` and `limit_rows` do not count as the word; `Limit` does |
| QueryText.SpaceRun | streamlit_app.py:226 | `\s*` consumes exactly the whitespace run from i |
| QueryText.MatchEnd | streamlit_app.py:226 | a match of the fence pattern is non-empty and ends within the text |
| QueryText.SubstituteCopies | streamlit_app.py:226 | characters where no match starts are copied unchanged |
| QueryText.SubstituteNoFence | streamlit_app.py:226 | text with no three backticks in a row passes `re.sub` unchanged |
| QueryText.ExtractWithoutFence | streamlit_app.py:225-227 | a response without a fence comes back only stripped |
| QueryText.SubstituteFramed | streamlit_app.py:226 | for a fenced response, `re.sub` leaves exactly the body without its surrounding whitespace |
| QueryText.ExtractFramed | streamlit_app.py:225-227 | a fenced response, character by character, gives its body stripped |
| QueryText.ExtractFenced | streamlit_app.py:225-227 | for a response fenced with a `sql` tag in any letter case and a fence-free body, the result is the body stripped |

## Left out

- Connections, autocommit, lock and statement timeouts (`get_connection`, populate_db.py:135-141) are I/O. Commit and rollback appear only as step boundaries. A busy lock is one of the injected drop outcomes.
- CSV reading is left out: the delimiter, quoting, the `utf-8-sig` BOM and `field_size_limit`. A file is given as its parsed header and rows. A file without a header (`fieldnames` is None) makes the check fail with `NoHeader`, where Python would raise a TypeError.
- `Path.exists` is modelled as membership in a map from paths to parsed files.
- `random()` and `CURRENT_DATE` are parameters: one `Draw` per selected row, and a `Date`.
- Floating point is left out. The `REAL` column's single precision is not modelled, and the price is exact rounding to cents of a real number.
- Python `re` is modelled for ASCII only. Case folding and `\w` use ASCII letters, digits and `_`, not Unicode classification.
- Only Product's foreign key to ProductCategory is tracked through CASCADE. The other foreign keys that CASCADE removes are not tracked. `Pipeline.Consistent` states them as properties of the rows.
- DDL column types other than NOT NULL and UNIQUE are not modelled. `CREATE_TABLE_SQL` is one step, which cannot fail.
- A failing `execute_batch` is not modelled: the batch inserts into a stage table always succeed. In the loader each batch is committed (populate_db.py:189-190), so such a failure would leave the earlier batches in the table.
- Sequence values consumed by a step that rolls back are not modelled: a failing step leaves the sequences unchanged.
- Logging (`print`), the `__main__` sequencing and its timing (populate_db.py:312-345) are I/O and orchestration. The totals that the loader prints are returned instead.
- The rest of `streamlit_app.py` is left out: login and bcrypt checks, session state, layout, `run_query` (a pandas read) and `generate_sql_with_gpt` (a network call).
