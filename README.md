# Translation2 storage back ends, modelled in Dafny

This project models two storage back ends of the Translation2 package.

**The relational admin container** (`Admin/Container/mdb2.php`) keeps translated strings in database tables. One table may hold the columns of several languages.

- The model groups a language set by its physical table: `_tableLangs`, `_getLangTables`, `_getLangCols`, `_filterStringsByTable` and `_getLangsInTable`.
- It issues the write paths `add`, `update` and `remove`, with the existence check `_recordExists` and the NULL page id rule.
- It reads page names with `getPageNames`.
- It runs the schema paths `createNewLang`, `addLangToAvailList` and `removeLang`.

**The store.** The database is an abstract store (module `Store`). It holds named tables of rows, where a row maps columns to values and an absent column is NULL.

- It keeps a log of every statement issued.
- A fault plan says which statement, by its position in the log, the database refuses. A refused statement yields either a plain `false` or an error object.
- Statements are values of a `Stmt` datatype, not SQL text.

**The admin class.** `AdminMdb2.Container` is a class with the database, the cached registered language ids and the `strings_tables` option as a map.

- Every method issues its statements one by one through `Query`, in the order the source does, and follows the code as written.
- Each method is proved equal to a specification function on values. Those functions are in `AdminGroups`, `AdminWrites` and `AdminSchema`.
- Two methods are modelled with the source's defects (see Findings). `createNewLang` stops its create statements only at a plain `false` (`AdminSchema.CreateNewLangAsWritten`). `removeLang` tests `count($langs) > 1` after the registry row is gone (`AdminSchema.RemoveLangAsWritten`).
- For each of those two, a corrected function is stated and proved beside it: `AdminSchema.CreateNewLangSpec` and `AdminSchema.RemoveLangSpec`. No method uses them.
- Lemmas about the specification functions state:
  - which statements are issued, in what order;
  - when the run stops;
  - what the store holds afterwards.

**The XML container** (`Container/xml.php`) normalises an unserialised document tree in memory.

- The tree is a `Node` (`Null | Str | Map`). A PHP array, including the list the unserialiser builds for a repeated element, is a `Dict`: a key order plus a map (module `Dicts`).
- `fixEmptySets`, `_fixDuplicateEntries` with `_merge`, and the defaults block of `_loadFile` work on that tree.
- `_fixDuplicateEntries` is modelled as written: a duplicated entry is merged without the last fragment, which `array_pop` removed (`XmlTree.MergeEntryAsWritten`, see Findings). The merge of all fragments, `XmlTree.MergeEntry`, is stated and proved beside it as the corrected reference.
- The tree is then read into a typed `Doc`: languages mapped to fields, and pages mapped to string ids, then to language ids, then to text.
- `_convertEncodings` and `_convertLangEncodings` run their charset passes through a generic fold, `XmlEncoding.Fold`. It stops at the first failed conversion and keeps what it has already rewritten.
- `iconv` is an uninterpreted partial function, passed in as a parameter.
- `XmlContainer.Container` is a class holding the document and the `fetchLangs` result, with the lookups `getPage`, `getOne` and `getStringID`.

## Model

| member | source | states |
|---|---|---|
| AdminMdb2.Container.Query | Admin/Container/mdb2.php:121-121 | One statement through the connection: it is logged and applied or refused as `Store.Exec` says, and nothing else in the object changes |
| AdminMdb2.Container.TableLangs | Admin/Container/mdb2.php:452-460 | The table -> languages array built by the loop is `AdminGroups.Groups` of the input languages |
| AdminGroups.GroupsKeys | Admin/Container/mdb2.php:452-460 | The group keys are the distinct tables of the languages, in first-occurrence order |
| AdminGroups.GroupsValues | Admin/Container/mdb2.php:452-460 | Each group holds exactly the input languages of that table, in input order |
| AdminGroups.GroupsCover | Admin/Container/mdb2.php:452-460 | Every input language is in the group keyed by its table, and every grouped language is an input language of that table |
| AdminGroups.GroupsOneTable | Admin/Container/mdb2.php:452-460 | Languages that all live in table `t` form the single group `t`, holding them all |
| AdminMdb2.Container.GetLangTables | Admin/Container/mdb2.php:476-484 | The result is the de-duplicated list of the given languages' tables, or of the registered languages' tables when none are given |
| AdminGroups.Unique | Admin/Container/mdb2.php:483-483 | `array_unique` keeps the same elements, without repeats, and is never longer |
| AdminGroups.UniqueFirstOccurrences | Admin/Container/mdb2.php:483-483 | `array_unique` keeps first occurrences in first-occurrence order: a kept value was seen before the first occurrence of every value kept after it |
| AdminGroups.UniqueOfDistinct | Admin/Container/mdb2.php:483-483 | `array_unique` of a list without repeats is that list |
| AdminMdb2.Container.GetLangCols | Admin/Container/mdb2.php:501-508 | The language -> column array is `AdminGroups.LangCols` of the languages |
| AdminGroups.LangColsProps | Admin/Container/mdb2.php:501-508 | The column array has the distinct languages as keys in first-occurrence order, and each maps to its column |
| AdminMdb2.Container.FilterStringsByTable | Admin/Container/mdb2.php:553-562 | The filtered strings are `AdminGroups.FilterStrings`: the entries of the languages stored in `t` |
| AdminGroups.FilterStringsProps | Admin/Container/mdb2.php:553-562 | The filtered array keeps exactly the entries of languages in table `t`, with their values and in their order |
| AdminGroups.InTable | Admin/Container/mdb2.php:573-583 | The languages of table `t` are exactly the listed languages stored there, and never more than the list |
| AdminGroups.RegisteredInTable | Admin/Container/mdb2.php:260-263 | Keeping registered keys and then filtering by table gives the same list as the other order |
| AdminGroups.Registered | Admin/Container/mdb2.php:260-263 | The languages kept by `array_intersect` are the keys that are also registered ids |
| AdminMdb2.Container.FetchLangs | Admin/Container/mdb2.php:575-575 | The language cache is re-read from the registry's id column as `AdminSchema.FetchLangsSpec` says; a failed read keeps the old cache |
| AdminSchema.Present | Admin/Container/mdb2.php:575-575 | The cached ids are exactly the non-NULL values of the registry's id column |
| AdminMdb2.Container.GetLangsInTable | Admin/Container/mdb2.php:573-583 | The cache is refreshed first, then the result is the refreshed registered languages stored in `t` |
| AdminMdb2.Container.RecordExists | Admin/Container/mdb2.php:523-540 | One COUNT over the rows with the string id and page id; an error object is returned as the failure |
| AdminWrites.RecordExistsCounts | Admin/Container/mdb2.php:523-540 | The check changes no table and logs one COUNT. A refused COUNT or a missing table is a failure; otherwise the answer is whether some row matches |
| AdminWrites.WhereMatches | Admin/Container/mdb2.php:524-532 | A row matches the string id / page id test iff its string id is equal and its page id is NULL for a null page id, or equal otherwise |
| AdminWrites.NullPageNeverMatchesEmpty | Admin/Container/mdb2.php:395-399 | A null page id never matches a row whose page id is `''`, and `''` never matches a NULL page id |
| Store.NullRule | Admin/Container/mdb2.php:395-399 | `IS NULL` holds iff the column is absent, `= v` holds iff it is present and equal, so `''` and NULL are never confused |
| AdminMdb2.Container.UpdateGroup | Admin/Container/mdb2.php:341-363 | The statement issued for the i-th table group is the i-th statement of `AdminWrites.UpdateStmts` |
| AdminMdb2.Container.UpdateAll | Admin/Container/mdb2.php:341-365 | The loop issues the UPDATE of each group in order and returns the first error object, or true after all of them |
| AdminMdb2.Container.Update | Admin/Container/mdb2.php:327-366 | `update` changes the store and answers as `AdminWrites.UpdateSpec` says |
| AdminWrites.UpdateNothingRegistered | Admin/Container/mdb2.php:329-337 | With no registered language among the keys, `update` issues nothing and returns true |
| AdminWrites.UpdateStatements | Admin/Container/mdb2.php:341-360 | `update` issues one UPDATE per distinct table of the registered keys, in order. The k-th sets the k-th table's registered languages, with that table's group as its SET list |
| AdminWrites.UpdateStmtsOfAt | Admin/Container/mdb2.php:341-360 | The k-th UPDATE built from a list of tables is the UPDATE of the k-th table |
| AdminWrites.SetList | Admin/Container/mdb2.php:346-348 | The SET list has one assignment per language of the group |
| AdminMdb2.Container.SetListOf | Admin/Container/mdb2.php:346-348 | The `$langSet` loop yields `AdminWrites.SetList`: the pair of each language's column and its string, in group order |
| AdminMdb2.Container.InsertValuesOf | Admin/Container/mdb2.php:292-295 | The INSERT's language part pairs each language's column with its string, in group order |
| AdminWrites.InsertValues | Admin/Container/mdb2.php:292-295 | The INSERT has one value per language of the group |
| AdminMdb2.Container.InsertGroup | Admin/Container/mdb2.php:296-306 | One INSERT carrying the string id, the page id and the group's language values |
| AdminMdb2.Container.AddGroup | Admin/Container/mdb2.php:279-310 | For one group: a failed COUNT or INSERT stops `add` with that result. An existing row runs the nested `update` with the table's strings, and its result is ignored |
| AdminMdb2.Container.AddAll | Admin/Container/mdb2.php:278-312 | The group loop of `add` ends in the state and answer `AdminWrites.AddFrom` gives |
| AdminMdb2.Container.Add | Admin/Container/mdb2.php:258-313 | `add` changes the store and answers as `AdminWrites.AddSpec` says |
| AdminWrites.AddNothingRegistered | Admin/Container/mdb2.php:260-268 | With no registered language among the keys, `add` issues nothing and returns true |
| AdminWrites.AddStatements | Admin/Container/mdb2.php:258-313 | `add` keeps the earlier log and appends, per table group in order, one COUNT and then the INSERT or that table's UPDATE. It stops with the error of the first refused COUNT or INSERT, and a refused UPDATE does not stop it. A run through every group returns true (which of the two follows the COUNT is fixed by the next three rows) |
| AdminWrites.AddFromCountFails | Admin/Container/mdb2.php:280-283 | A group whose COUNT is refused ends `add` with that COUNT's error, in the store the COUNT left |
| AdminWrites.AddFromUpdates | Admin/Container/mdb2.php:284-288 | A group whose record exists gets exactly that table's UPDATE of the nested `update` call, whatever it answers, and the loop goes on with the next group |
| AdminWrites.AddFromInserts | Admin/Container/mdb2.php:290-309 | A group without the record gets its INSERT. An error from the INSERT ends `add` with that error; otherwise the loop goes on with the next group |
| AdminWrites.AddWritesRows | Admin/Container/mdb2.php:278-312 | With no refusal planned, an `add` without error leaves every table outside the groups unchanged. A group table with no row for the string id and page id gets exactly one new row, the one its INSERT builds |
| AdminWrites.InsertRow | Admin/Container/mdb2.php:292-306 | The row an INSERT of `add` builds holds the string id, holds the page id iff it is not null, and holds each language's string in that language's column |
| AdminWrites.NestedUpdateRun | Admin/Container/mdb2.php:284-289 | The nested `update` for an existing record leaves the store as its table's single UPDATE does |
| AdminWrites.RecordExistsNoMatch | Admin/Container/mdb2.php:523-540 | `_recordExists` does not report a record when no row matches the string id and page id |
| AdminWrites.AddNestedUpdate | Admin/Container/mdb2.php:284-289 | For an existing row, the nested `update` with `_filterStringsByTable`'s strings issues exactly one UPDATE. It is the UPDATE of that table's group with the full strings |
| AdminWrites.NestedGroup | Admin/Container/mdb2.php:284-289 | The registered languages of the filtered strings are exactly the table's group, which is non-empty and lies in the table |
| AdminWrites.SetListFiltered | Admin/Container/mdb2.php:553-562 | The SET list of a group of table `t` is the same whether built from all strings or from the strings filtered to `t` |
| AdminMdb2.Container.Remove | Admin/Container/mdb2.php:378-409 | `remove` changes the store and answers as `AdminWrites.RemoveSpec` says |
| AdminWrites.DeleteStmts | Admin/Container/mdb2.php:385-402 | Each DELETE targets a language table that is in the listing, with the string id / page id test |
| AdminWrites.DeleteStmtsOnce | Admin/Container/mdb2.php:385-402 | No table is deleted from twice, and every listed language table gets its DELETE |
| AdminWrites.DeleteStmtsUnlisted | Admin/Container/mdb2.php:386-388 | With an empty listing, no DELETE is issued |
| AdminWrites.RemoveListingFails | Admin/Container/mdb2.php:381-384 | When listing the tables fails, the listing is empty, nothing is deleted, and `remove` returns true |
| AdminWrites.DeletesClear | Admin/Container/mdb2.php:385-408 | When the DELETEs all succeed, no deleted-from table keeps a matching row |
| AdminWrites.RemoveClears | Admin/Container/mdb2.php:378-409 | After a successful `remove`, no language table present in the store holds a row with that string id and page id |
| AdminMdb2.Container.GetPageNames | Admin/Container/mdb2.php:419-435 | `getPageNames` reads each language table's distinct page ids as `AdminWrites.GetPageNamesSpec` says |
| AdminWrites.PageNamesCollected | Admin/Container/mdb2.php:422-433 | The page loop changes no table, and on success yields the page ids of each table in order |
| AdminWrites.GetPageNamesUnion | Admin/Container/mdb2.php:419-435 | On success the names have no two equal as PHP strings, all come from the language tables, and cover every page id found there |
| AdminWrites.PhpUniqueProps | Admin/Container/mdb2.php:434-434 | `array_unique` keeps the first of values that compare equal as strings, and drops none of their string forms |
| AdminWrites.PhpUniqueFirstOccurrences | Admin/Container/mdb2.php:434-434 | Each kept page id is the first value with its string, and the kept values come in the order their strings first occur |
| AdminWrites.NullAndEmptyCollapse | Admin/Container/mdb2.php:434-434 | `array_unique` treats a NULL page id and `''` as one value, and keeps whichever comes first |
| AdminMdb2.Container.CreateNewLang | Admin/Container/mdb2.php:71-127 | `createNewLang` changes the store and answers as `AdminSchema.CreateNewLangAsWritten` says: the create statements stop only at a plain `false` |
| AdminSchema.CreateNewLangAsWrittenStatements | Admin/Container/mdb2.php:71-127 | The tables are listed first, and a failed listing is returned. An existing table gets exactly one ADD COLUMN. Otherwise the four create statements run in order and stop only at a plain `false`, which is returned; a run not stopped issues all four and returns true. When no position is planned to return `false`, all four are issued and true is returned, whatever errors come back |
| Store.RunUntilFalseLog | Admin/Container/mdb2.php:119-124 | A loop checked with `$res == false` either issues every statement and returns true, or stops at the statement that returned `false`, having issued exactly the statements up to it |
| Store.RunUntilFalseIgnoresErrors | Admin/Container/mdb2.php:119-124 | When no statement of the run returns a plain `false`, every statement is issued and the run returns true, even if all of them fail with error objects |
| AdminSchema.CreateNewLangStatements | Admin/Container/mdb2.php:119-124 | Corrected reference, checking for error objects: after the listing, CREATE TABLE and the three CREATE INDEX run in order up to the first error, which is returned; without an error all four run and true is returned |
| AdminSchema.CreateNewLangSchema | Admin/Container/mdb2.php:80-126 | Without refusals, the as-written and corrected versions give the same result. A new table is created with the page id, string id and language columns; an existing table gains the language column |
| AdminSchema.CreateNewLangIgnoresErrors | Admin/Container/mdb2.php:119-124 | As written, an error object from CREATE TABLE does not stop the loop and the call still returns true |
| AdminSchema.CreateNewLangStopsAtError | Admin/Container/mdb2.php:119-124 | With the check on error objects, the same refused CREATE TABLE stops the run and is returned |
| AdminMdb2.Container.AddLangToAvailList | Admin/Container/mdb2.php:144-200 | `addLangToAvailList` changes the store, answers and updates `strings_tables` as `AdminSchema.AddLangSpec` says |
| AdminSchema.AddLangStatements | Admin/Container/mdb2.php:144-200 | A listed registry gets only the INSERT. An absent one is first created with its index. `strings_tables[lang_id] = table_name` is set exactly when the INSERT was reached, whatever it returned |
| AdminSchema.EnsureRegistryReady | Admin/Container/mdb2.php:151-180 | Without refusals, the registry table exists afterwards with every column the INSERT names |
| AdminSchema.AddLangRegisters | Admin/Container/mdb2.php:144-200 | Without refusals, the call returns true, records the table in `strings_tables`, and the registry's last row carries the id, name, meta, error text and encoding |
| AdminSchema.RegistryRow | Admin/Container/mdb2.php:182-196 | The inserted registry row maps each registry column to the matching metadata field |
| AdminMdb2.Container.RemoveLang | Admin/Container/mdb2.php:215-244 | `removeLang` changes the store, answers and refreshes the cache as `AdminSchema.RemoveLangAsWritten` says |
| AdminSchema.RemoveLangAsWrittenStatements | Admin/Container/mdb2.php:215-244 | The registry row is deleted first; if that fails, its error is returned and the cache is kept. Otherwise the registry is re-read, then only the column is dropped when `count($langs) > 1` on the refreshed list and `force` is false, else the table. With a cache without repeats, the column is dropped iff two different languages of the refreshed list are stored in the table |
| AdminSchema.TwoInTable | Admin/Container/mdb2.php:230-231 | `count($langs) > 1` holds when two different listed languages are stored in the table, and for a list without repeats only then |
| AdminSchema.InTableDistinct | Admin/Container/mdb2.php:573-583 | `_getLangsInTable` of a list without repeats has no repeats |
| AdminSchema.FetchLangsDistinct | Admin/Container/mdb2.php:575-575 | The refreshed language list has no repeats when the old cache has none |
| AdminSchema.RemoveLangStatements | Admin/Container/mdb2.php:224-243 | Corrected reference: after the registry delete and re-read, only the column is dropped when another registered language shares the table and `force` is false, else the table |
| AdminSchema.SharedTable | Admin/Container/mdb2.php:230-231 | Corrected test: the list of the table's languages other than the removed one is non-empty iff another listed language is stored in the table |
| AdminSchema.Except | Admin/Container/mdb2.php:230-231 | The list keeps exactly the languages other than the removed one |
| AdminSchema.RemoveLangDropsSharedTable | Admin/Container/mdb2.php:224-243 | As written, from an empty cache: "en" and "fr" share "i18n"; removing "en" without force re-reads only "fr", so the count is 1 and the whole shared table is dropped |
| AdminSchema.RemoveLangKeepsSharedTable | Admin/Container/mdb2.php:224-243 | Counting the other languages, from the same empty cache: the removal drops only the "en" column and keeps "i18n" with "fr"'s column |
| Store.Exec | Admin/Container/mdb2.php:121-121 | A statement is always logged. A refused statement changes no table and its error names the statement. A read never changes a table and never returns a plain `false` |
| Store.RunUntilErrorLog | Admin/Container/mdb2.php:173-179 | A run that stops at error objects either issues all statements and returns true, or issues a prefix whose last statement's error is returned |
| Store.NotMatchingIsComplement | Admin/Container/mdb2.php:389-402 | DELETE keeps exactly the rows that do not match, and COUNT counts exactly those that do |
| XmlTree.FixEmptySets | Container/xml.php:314-335 | The in-place pass computes `XmlTree.FixEmptySetsSpec` of the tree |
| XmlTree.FixEmptySetsShape | Container/xml.php:314-335 | A blank `languages` or `pages` becomes an empty array. Under `pages`, a string page becomes an empty array and a blank string entry becomes an empty array. All other members are unchanged |
| XmlTree.FixEmptySetsIdempotent | Container/xml.php:314-335 | Running `fixEmptySets` twice gives what running it once does |
| XmlTree.FixPageIdempotent | Container/xml.php:322-333 | Fixing one page twice equals fixing it once |
| XmlTree.FixEachPage | Container/xml.php:322-333 | The loop over pages rewrites each page as `XmlTree.FixPage` does, keeping the page order |
| XmlTree.FixPageEntries | Container/xml.php:327-331 | The loop over a page's entries rewrites each entry as `XmlTree.FixEntry` does, keeping the entry order |
| XmlTree.Merge | Container/xml.php:344-351 | The loop over the arguments computes `XmlTree.MergeSpec`: `array_merge` folded left to right from an empty array, undefined once an argument is not an array |
| XmlTree.MergeDefined | Container/xml.php:344-351 | The merge is defined iff every fragment is an array, and then yields a well-formed array |
| XmlTree.MergeKeys | Container/xml.php:344-351 | A key is in the merge iff some fragment holds it |
| XmlTree.MergeLaterWins | Container/xml.php:344-351 | For a key held by several fragments, the merge holds the value of the last fragment that has it |
| XmlTree.MergeEntryAsWrittenKeeps | Container/xml.php:293-297 | As written, a duplicated entry's merge is a well-formed array, and a language is in it iff some fragment before the popped last one holds it |
| XmlTree.MergeEntryAsWrittenWins | Container/xml.php:293-297 | As written, a language takes the value of the last fragment before the popped one that holds it |
| XmlTree.MergeEntryRestoresLast | Container/xml.php:290-299 | Merging all fragments is the as-written merge overridden by the popped last fragment, so the two differ exactly by what that fragment holds |
| XmlTree.MergeEntryKeepsAll | Container/xml.php:290-299 | Corrected reference: merging all fragments keeps every fragment's keys, and the last holder's value wins |
| XmlTree.FixDuplicateEntries | Container/xml.php:290-299 | The in-place pass rewrites every page as `XmlTree.FixDuplicatesSpec` does: each duplicated entry becomes the as-written merge |
| XmlTree.MergePageEntries | Container/xml.php:293-297 | The loop over a page's entries rewrites each entry as `XmlTree.MergeEntryAsWritten` does: the fragments without the popped last one are merged |
| XmlTree.DuplicateEntryLosesLastFragment | Container/xml.php:294-296 | As written, an entry repeated with "fr" then "en" fragments merges to the "fr" fragment only, because `array_pop` removed "en" before the merge |
| XmlTree.DuplicateEntryKeepsBothFragments | Container/xml.php:294-296 | Merging all fragments, the same entry keeps both the "fr" and the "en" translation |
| XmlDoc.WithDefaultsFills | Container/xml.php:164-178 | Afterwards every language has name, meta, error_text and encoding. Empty settings become exactly the defaults, supplied fields win, and a missing encoding is `iso-8859-1` |
| XmlDoc.ApplyDefaults | Container/xml.php:171-178 | The loop rewrites every language's settings as `XmlDoc.WithDefaults` does, keeping the language order |
| XmlDoc.FixEmptySetsValid | Container/xml.php:314-335 | `fixEmptySets` keeps a well-formed tree well formed |
| XmlDoc.FixDuplicatesValid | Container/xml.php:290-299 | `_fixDuplicateEntries` turns a well-formed page level into well-formed entries |
| XmlDoc.ToDocValid | Container/xml.php:154-156 | Reading a well-formed tree into the typed document gives well-formed arrays at every level |
| XmlEncoding.ConvertText | Container/xml.php:217-221 | Equal charsets leave the text unchanged. Otherwise `iconv`'s result replaces it, and an `iconv` failure leaves it and reports the failure |
| XmlEncoding.Upper | Container/xml.php:212-215 | `strtoupper` upper-cases each character and keeps the length |
| XmlEncoding.FoldOutcome | Container/xml.php:207-234 | A pass returns the first failed step's error, or success when no step fails |
| XmlEncoding.FoldAt | Container/xml.php:207-234 | Every value up to the first failure is rewritten, and every value after it is untouched. Every step before it passed |
| XmlEncoding.FoldIdentity | Container/xml.php:217-217 | When every step is the identity, the pass changes nothing and succeeds |
| XmlEncoding.FoldMember | Container/xml.php:207-234 | Each value is either untouched or rewritten by its step, and on overall success it is rewritten |
| XmlEncoding.ConvertTranslations | Container/xml.php:209-231 | The innermost loop converts one string's translations as the fold specifies |
| XmlEncoding.ConvertPage | Container/xml.php:208-232 | The middle loop converts one page's strings as the fold specifies |
| XmlEncoding.ConvertEncodings | Container/xml.php:199-235 | `_convertEncodings` rewrites the pages as `XmlEncoding.ConvertPagesSpec` says |
| XmlEncoding.ConvertPagesCell | Container/xml.php:199-235 | Every translation keeps its place and is either unchanged or converted with its own language's encoding. On success all are converted, and the languages are untouched |
| XmlEncoding.ConvertPagesFailure | Container/xml.php:219-225 | A failed pass names a translation whose conversion failed |
| XmlEncoding.ConvertPagesIdentity | Container/xml.php:217-217 | When every language in use is UTF-8, the pass changes nothing and succeeds |
| XmlEncoding.ConvertPagesValid | Container/xml.php:199-235 | The pass keeps the document well formed |
| XmlEncoding.ConvFields | Container/xml.php:264-278 | The field loop keeps the keys, never touches a field outside the list or an empty one, and with equal charsets changes nothing |
| XmlEncoding.ConvFieldsAt | Container/xml.php:264-278 | A listed non-empty field is unchanged or converted, and on success converted |
| XmlEncoding.ConvFieldsFailure | Container/xml.php:267-273 | A failed field loop names a listed non-empty field whose conversion failed |
| XmlEncoding.ConvertLangFields | Container/xml.php:257-279 | The loop over one language's fields computes `XmlEncoding.ConvertLang` |
| XmlEncoding.ConvertLangEncodings | Container/xml.php:247-282 | `_convertLangEncodings` rewrites the languages as `XmlEncoding.ConvertLangsSpec` says |
| XmlEncoding.ConvertLangsField | Container/xml.php:247-282 | Only non-empty name, meta and error_text may change, each converted with its language's own encoding, and `encoding` is never touched. The pages are untouched |
| XmlEncoding.ConvertLangsFailure | Container/xml.php:265-273 | A failed pass names a language and descriptive field whose conversion failed |
| XmlEncoding.ConvertLangsValid | Container/xml.php:247-282 | The pass keeps the document well formed |
| XmlContainer.NormalisedComplete | Container/xml.php:154-178 | After the tidy passes and defaults, the document is well formed and every language has the four fields |
| XmlContainer.LoadedComplete | Container/xml.php:180-186 | The two charset passes keep the document well formed, the four fields present and every encoding as it was |
| XmlContainer.LoadSpecComplete | Container/xml.php:154-186 | After loading, every language has the four fields and the encoding it had after the defaults |
| XmlContainer.Normalise | Container/xml.php:154-178 | Tidying and defaults computed step by step give the normalised document |
| XmlContainer.RunPasses | Container/xml.php:180-186 | The language pass runs first, and an error from it skips the pages pass |
| XmlContainer.Container.Load | Container/xml.php:154-186 | The container's document and outcome are those of `XmlContainer.LoadSpec` |
| XmlContainer.IdentifiedProps | Container/xml.php:374-382 | `fetchLangs` keeps the language keys; each entry gains `id` equal to its key, and its other fields are unchanged |
| XmlContainer.Container.FetchLangs | Container/xml.php:374-382 | The cache becomes `XmlContainer.Identified` of the languages, and the document is unchanged |
| XmlContainer.PageKey | Container/xml.php:397-398 | A null page id reads page `#NULL`, an empty one `#EMPTY`, any other itself |
| XmlContainer.ReadPage | Container/xml.php:400-407 | The result has exactly the page's string ids, in order, each mapped to its translation or null |
| XmlContainer.Container.GetPage | Container/xml.php:394-408 | `getPage` reads the page `PageKey` names. Its keys are that page's string ids, in order, each mapped to the translation or null. For a non-empty page id, each equals `getOne` |
| XmlContainer.Container.GetOne | Container/xml.php:421-429 | A translation is returned iff the page, string and language levels all exist. Only a null page id becomes `#NULL` |
| XmlContainer.Container.GetStringID | Container/xml.php:441-452 | The result is the first string id, in page order, whose translations contain the text, or `''` when none does |
| Dicts.ArrayMergeProps | Container/xml.php:348-348 | `array_merge` gives a well-formed array that starts with the first array's keys in order, holds the keys of both, and takes the second's value for a shared key |

## Left out

- File I/O, locking and `XML_Unserializer` in `_loadFile` (Container/xml.php:142-151) are not modelled: the model takes the unserialised tree as its input.
- The tree has a `Null` leaf where the unserialiser may produce other scalar types. Non-string leaves are dropped when the tree is read into the typed document.
- PHP integer keys and the renumbering `array_merge` does for them are not modelled: every key is a string.
- `array_search` in `getStringID` uses plain string equality, not PHP loose comparison.
- `strtoupper` maps ASCII letters only, since the source's locale is not known.
- `iconv` is a parameter: a partial function with no charset semantics.
- The base-class helpers `_getLangTable`, `_getLangCol`, `getLangs` and `_getLangID` are not part of this model. The table and column of a language are functions in `Store.Config` / `AdminGroups.TableOf`; the registered ids are the cached `langs`; the language id of the XML lookups is passed in.
- The base-class `fetchLangs` of the relational container is not part of this model. It is modelled as one read of the registry's id column (`AdminSchema.FetchLangsSpec`), keeping the old cache when the read fails. The removeLang finding needs only that the re-read list does not still hold the removed language; its demo starts from an empty cache, so that it also holds for a base method that adds the registry rows to the cache instead of replacing it.
- `_fetchTableNames` / `listTables` (Admin/Container/mdb2.php:54-58) is the `ListTables` statement, answering the store's table names.
- The `_queries` counter is bookkeeping with no effect on results; it is not modelled.
- Statements are values, not SQL text. Index names, quoting and types are not modelled, so the fourth `createNewLang` statement reusing the index name of the second (Admin/Container/mdb2.php:101-118) is not detected.
- The store does not enforce UNIQUE indexes, so a second INSERT with the same string id and page id is accepted.
- SQL DISTINCT order and MDB2 result objects are simplified: answers are `Done`, a number, a column or a set of table names.
- Container/dataobjectsimple.php and Decorator/Iconv.php are not part of this model.
- AdminSchema.CreateNewLangSpec: the corrected reference stops at error objects only, so a plain `false` from a create statement does not stop it. MDB2's `query` reports failure with an error object. The method follows `AdminSchema.CreateNewLangAsWritten`.
- `array_unique` keeps the original integer keys, so the arrays of `getPageNames` (Admin/Container/mdb2.php:434) and `_getLangTables` (Admin/Container/mdb2.php:483) can have gaps in their keys. The model returns plain lists, which keep only the values and their order.
- Table names are compared with PHP's loose `==` and `in_array` (Admin/Container/mdb2.php:80, 386, 578). The model uses string equality, so two numeric strings that PHP compares as equal, such as "1" and "01", are distinct names here.
- A language setting that is a non-empty string rather than an array makes `array_merge` (Container/xml.php:175-176) return null. The model reads such a setting as an empty array, so `XmlDoc.ToDoc` and the defaults give that language the default fields.
- `array_search` on a string entry that is not an array (Container/xml.php:446) returns null, which `!== false` accepts, so the source's `getStringID` returns that entry's string id. The model reads non-array entries as empty, so they never match.

## Findings

| source | as written | input that shows it | evidently intended | confidence | as-written member | corrected member |
|---|---|---|---|---|---|---|
| Container/xml.php:294-296 | `array_pop($stringvalues)` removes the last fragment from the list that is then merged | an entry given twice, first with "fr" and then with "en" | merge all fragments, so every translation survives | not executed | XmlTree.DuplicateEntryLosesLastFragment | XmlTree.DuplicateEntryKeepsBothFragments |
| Admin/Container/mdb2.php:119-124 | `$res == false` is never true for an error object, so a failed create statement does not stop the loop and true is returned | a store refusing CREATE TABLE with an error | stop at the first error and return it | not executed | AdminSchema.CreateNewLangIgnoresErrors | AdminSchema.CreateNewLangStopsAtError |
| Admin/Container/mdb2.php:224-243 | the registry row is deleted before `_getLangsInTable`, so `count($langs) > 1` needs two other languages in the table | "en" and "fr" sharing table "i18n", removing "en" without force from a cache that does not list "en" (an empty one); the re-read must not bring "en" back, which holds for the `fetchLangs` modelled under Left out | drop only the column while another language shares the table | not executed; depends on the base-class `fetchLangs`, which is not part of this model | AdminSchema.RemoveLangDropsSharedTable | AdminSchema.RemoveLangKeepsSharedTable |

The container methods and the XML passes follow the code as written. Each corrected member is proved beside its as-written partner, and no method uses it. The general as-written lemmas are `XmlTree.MergeEntryAsWrittenKeeps`, `AdminSchema.CreateNewLangAsWrittenStatements` and `AdminSchema.RemoveLangAsWrittenStatements`. Their corrected counterparts are `XmlTree.MergeEntryKeepsAll`, `AdminSchema.CreateNewLangStatements` and `AdminSchema.RemoveLangStatements`.
