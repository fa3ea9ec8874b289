# Tiangong research database to Notion: a verified model

The tiangong repository keeps a CSV table of planned experiments aboard the
Tiangong space station. Two scripts connect it to a Notion database.

- `sync_to_notion.py` maps each CSV row to the nine Notion page properties.
  It reads every existing page through the paginated `databases.query` and
  indexes the pages by title. Then it updates the page of each named row, or
  creates one, counting what was created, what was updated and what failed.
  It exits with failure when the CSV has rows but nothing at all was
  created or updated.
- `validate_notion.py` checks the configuration. It then checks that the
  database has the nine properties with the right types, and that its
  Station select offers the options Tiangong and ISS.

This project models both scripts in Dafny and proves what they promise.

- `wrappers.dfy`: `Option`, `Result`, Python truthiness of an optional
  string, and small sequence facts.
- `notion_store.dfy`: the Notion database as an in-memory `Store` class.
  - It holds the pages in query order and answers queries in batches of
    `pageSize`.
  - It records every create and update call it receives.
  - A `rejection` map decides which calls raise: `rejection[k]` is the text
    of the exception raised by call number `k`; every other call succeeds.
  - A successful create appends a page with a fresh id, so the new page comes
    after every existing page in query order. This placement is an assumption
    of the model (see "## Left out"). A successful update merges the given
    properties into the page with that id.
- `notion_sync.dfy`: the sync script.
  - The mapper `PageProperties`.
  - The index `IndexOf` and the pagination loop `ExistingPages`.
  - The upsert loop `UpsertRows`, specified by `Plan` (the calls issued) and
    `Tally` (the counters and the error list).
  - The exit rule `Conclude`.
  - What a run leaves in the database. Suppose the pages start with distinct
    ids and none of the run's calls raises. Then every named row's name is
    indexed afterwards, and its page carries the mapped properties of the
    last row with that name. A second run on the same rows then only updates.
  - The index is built once, before the loop. So two rows that share a name
    not yet in the database both take the create path, and one run creates
    two pages with that title.
- `notion_validation.dfy`: the validator.
  - `ValidateConfig` and the token mask.
  - `CheckDatabaseProperties`, a loop specified by `SchemaIssues`, with the
    laws of the issue list.
  - `ValidateDatabase`.
- `schema_agreement.dfy`: what the two scripts agree on. The pages the sync
  writes carry exactly the properties and types the validator requires, and
  both scripts check the configuration in the same order.

The environment reads and the outcomes of remote calls are parameters:
- the token and the database id (`Option<string>`, absent or set);
- whether the CSV file exists;
- the rows already parsed (`seq<map<string, string>>`);
- for the validator, the access probe's outcome and the retrieved database.

## Model

| member | source | states |
|---|---|---|
| `NotionSync.CheckConfig` | sync_to_notion.py:32-46 | the script goes on exactly when token, database id and CSV file are all there; the first missing one, in the order token, id, file, is the one reported |
| `NotionSync.Cell` | sync_to_notion.py:63 | definition of `row.get(column, "")`: the cell, or "" for a column the row lacks |
| `NotionSync.ExperimentName` | sync_to_notion.py:194 | definition: the row's `Experiment_Name` cell, "" when absent |
| `NotionSync.PageProperties` | sync_to_notion.py:56-138 | definition of the mapper; its properties are stated by `PagePropertiesKeys`, `PagePropertiesKinds` and `PagePropertiesCopyColumns` |
| `NotionSync.PagePropertiesKeys` | sync_to_notion.py:56-138 | the mapper's output has exactly the nine properties Name, Station, Discipline, Country/Institution, Timeline Status, Objectives, Expected Outcomes, Principal Investigator, Mission Module |
| `NotionSync.PagePropertiesKinds` | sync_to_notion.py:56-136 | every property of the table is present with the type the table gives it: Name a title, Station a select, the other seven rich text |
| `NotionSync.PagePropertiesCopyColumns` | sync_to_notion.py:56-136 | each property holds exactly one text, the row's value for its source column, and "" when the row lacks that column; the mapper is total |
| `NotionSync.MappedPropertyContents` | sync_to_notion.py:56-136 | proof step: one table entry's property holds exactly the one text of its column |
| `NotionSync.TitleOf` | sync_to_notion.py:156-158 | definition: a page is indexed under the content of the first segment of its non-empty Name title, and not at all otherwise |
| `NotionSync.IndexOf` | sync_to_notion.py:154-159 | definition of the fold over the pages in order; its meaning is stated by `IndexOfLastWins` |
| `NotionSync.IndexOfLastWins` | sync_to_notion.py:154-159 | a name is in the index iff some page has a non-empty Name title whose first segment is that name; it then maps to the id of the last such page in query order |
| `NotionSync.IndexOfSnoc` | sync_to_notion.py:154-159 | proof step (one step of the definition, used by the loop proofs): folding one more page sets its title, when it has one, to its id and leaves the index unchanged otherwise |
| `NotionSync.IndexBatch` | sync_to_notion.py:154-159 | folding a batch of results into the index of the earlier pages gives the index of the earlier pages followed by the batch |
| `NotionSync.ExistingPages` | sync_to_notion.py:141-164 | the pagination loop terminates and returns the index of all the store's pages, each folded once, in order |
| `NotionSync.CallFor` | sync_to_notion.py:198-218 | a named row becomes an update of the indexed page iff its name is in the index, otherwise a create under the configured database; both send the mapped properties |
| `NotionSync.Plan` | sync_to_notion.py:193-225 | the loop issues one call per row with a non-empty name and none for the others |
| `NotionSync.Tally` | sync_to_notion.py:188-225 | created + updated + errors equals the number of named rows, and the error list has one entry per error counted |
| `NotionSync.Record` | sync_to_notion.py:205-224 | definition of one call's effect on the counters; stated by `RecordKeepsErrors` and `RecordCounted` |
| `NotionSync.RecordKeepsErrors` | sync_to_notion.py:205-225 | counting a call keeps the earlier error entries; a failed call adds exactly one entry, and a successful one adds none |
| `NotionSync.SkipSnoc` | sync_to_notion.py:194-196 | proof step (one step of the definition, used by the loop proofs): a row with an empty name issues no call and touches no counter |
| `NotionSync.PlanSnoc` | sync_to_notion.py:198-218 | proof step (one step of the definition, used by the loop proofs): a named row adds exactly its own call after those of the rows before it |
| `NotionSync.TallySnoc` | sync_to_notion.py:200-225 | proof step (one step of the definition, used by the loop proofs): a named row's call comes right after the calls of the rows before it, and its outcome moves exactly one counter |
| `NotionSync.UpsertSnoc` | sync_to_notion.py:198-225 | proof step (one step of the definition, used by the loop proofs): one upserted row takes the pages and counters from their state after the rows before it to their state after it |
| `NotionSync.PlanCallOfRow` | sync_to_notion.py:193-218 | named row i issues call number "named rows before i", and that call is the one its route chooses; the index is never changed inside the loop |
| `NotionSync.NamedCountGrows` | sync_to_notion.py:193-196 | a named row adds one to the count of named rows: the rows before it have fewer than the whole list |
| `NotionSync.SharedNewNameCreatesTwice` | sync_to_notion.py:198-218 | two rows sharing a name the index lacks each issue a create, at two different places in the plan; the index is not refreshed during the loop, so one run creates two pages with that title |
| `NotionSync.RecordCounted` | sync_to_notion.py:203-225 | proof step: a call moves the counter of its own operation by one when it succeeds, and no other counter |
| `NotionSync.NoneCountedIffAllRoutedFail` | sync_to_notion.py:200-225 | the updated counter is 0 iff every update raised, and the created counter is 0 iff every create raised: a successful call is counted under the operation its route chose |
| `NotionSync.NoSuccessIffAllCallsFail` | sync_to_notion.py:203-225 | nothing was created or updated iff every call the loop issued raised |
| `NotionSync.FailedRowIsReported` | sync_to_notion.py:203-225 | a named row whose call raised has an error entry with its name, its operation and the exception's text |
| `NotionSync.ReportedErrorIsFailedRow` | sync_to_notion.py:203-225 | every error entry comes from a named row whose call raised, and carries that row's name, its operation and the exception's text |
| `NotionSync.MappedTitle` | sync_to_notion.py:59-67 | proof step: a page written from a row's mapped properties, alone or merged over earlier ones, is indexed under the row's name |
| `NotionSync.IndexOfSameTitles` | sync_to_notion.py:154-159 | proof step: the index depends only on each page's id and title, in order |
| `NotionSync.IndexOfInjective` | sync_to_notion.py:154-159 | with distinct page ids, two different names are never indexed under the same page |
| `NotionSync.RunSnoc` | sync_to_notion.py:193-225 | proof step (one step of the definition, used by the loop proofs): with no call raising, a skipped row leaves the pages as they were and a named row's call has its effect |
| `NotionSync.CreateGrows` | sync_to_notion.py:214-218 | a successful create for a name not indexed before the run appends one page titled with that name under an id no page has; that name now maps to the new page, and every other index entry is unchanged |
| `NotionSync.SameTitlesGrow` | sync_to_notion.py:154-159 | proof step: pages with the same ids and titles as pages that grew from the start have the same index and grew from the start too |
| `NotionSync.MergedGrows` | sync_to_notion.py:203-204 | proof step: merging title-keeping properties into one page from before the run changes that page alone and leaves the index as it was |
| `NotionSync.UpdateKeepsIndex` | sync_to_notion.py:200-204 | a successful update of the page a name was indexed under merges the row's properties into that page alone; no title and no index entry changes |
| `NotionSync.NamedStep` | sync_to_notion.py:198-218 | after one row's successful call, no name leaves the index, the row's name is in it, and the pages still grew from those before the run |
| `NotionSync.RunGrowsPages` | sync_to_notion.py:193-225 | from pages with distinct ids, a run whose calls all succeed keeps ids distinct, keeps each earlier page's place, id and title, and keeps every earlier index entry |
| `NotionSync.AllIndexedSnoc` | sync_to_notion.py:193-196 | proof step: rows already indexed stay indexed when no name leaves the index, and a named last row is indexed when its name is added |
| `NotionSync.RunIndexesEveryRow` | sync_to_notion.py:5-6 | each row becomes a page: from pages with distinct ids, after a run whose calls all succeed, every named row's name is in the index of the resulting pages |
| `NotionSync.NamedStepKeepsWritten` | sync_to_notion.py:198-218 | a row's successful call leaves the page that another name is indexed under, and the properties it carries, as they were |
| `NotionSync.NamedStepWritesRow` | sync_to_notion.py:198-218 | after a row's successful call, the page its name is indexed under carries each of the row's mapped properties with its value |
| `NotionSync.LastOfNameSnoc` | sync_to_notion.py:193-196 | proof step: a row that is last of its name, and is not the last row, is last of its name among the earlier rows and differs in name from the last row |
| `NotionSync.RunWritesLastRows` | sync_to_notion.py:5-6 | each row's page has the row's properties: under the same conditions, the page each named row's name is indexed under after the run carries all nine mapped properties of the last row with that name |
| `NotionSync.PlanOnlyUpdates` | sync_to_notion.py:198-204 | under an index that holds every named row's name, every call the loop issues is an update |
| `NotionSync.RerunOnlyUpdates` | sync_to_notion.py:198-218 | running again on the same rows from the pages a fully successful run left issues only updates and counts no create |
| `NotionSync.Conclude` | sync_to_notion.py:234-260 | exit 1 iff created = updated = 0 with at least one CSV row, listing the first min(3, errors) errors; otherwise exit 0, warning with the first min(5, errors) errors when some call failed |
| `NotionSync.ExitFailsIffEveryCallFails` | sync_to_notion.py:235-252 | the run fails iff the CSV has a row and every issued call raised; a CSV whose rows all lack a name fails with no error listed |
| `NotionSync.UpsertRow` | sync_to_notion.py:198-225 | one named row: the store receives the row's call, the pages change only if it succeeded, and exactly one counter moves |
| `NotionSync.ProcessRow` | sync_to_notion.py:193-225 | one loop iteration takes calls, pages and counters from their state after rows[..i] to their state after rows[..i + 1] |
| `NotionSync.UpsertRows` | sync_to_notion.py:187-225 | after the loop, the store received exactly the planned calls, its pages are those calls applied in order, and the counters are the tally |
| `NotionSync.SyncToNotion` | sync_to_notion.py:167-260 | a missing setting exits 1 before any call; otherwise the store gets the planned calls for the index of its own pages, and the exit code and listed errors follow the exit rule |
| `NotionStore.Batch` | sync_to_notion.py:147-162 | a query answer is the next at most pageSize pages from the cursor; it reports more pages, and carries the next cursor, iff pages remain after the batch |
| `NotionStore.Store.Query` | sync_to_notion.py:152 | `databases.query` on the store's current pages: the `Batch` at the cursor |
| `NotionStore.Store.Create` | sync_to_notion.py:214-218 | the call is logged; it raises iff the rejection map names its number, and only a call that does not raise adds the page |
| `NotionStore.Store.Update` | sync_to_notion.py:203-204 | the call is logged; it raises iff the rejection map names its number, and only a call that does not raise merges the properties into the page |
| `NotionStore.AppliedSnoc` | sync_to_notion.py:203-225 | proof step (one step of the definition, used by the loop proofs): issuing one more call changes the pages by that call's effect exactly when it does not raise |
| `NotionValidation.MaskToken` | validate_notion.py:56 | a token longer than 10 is shown as its first 10 characters and "...", a shorter one in full |
| `NotionValidation.ValidateConfig` | validate_notion.py:43-58 | succeeds iff token and database id are both present and non-empty; the token is checked first; on success the token is shown masked |
| `NotionValidation.RequiredTablesDistinct` | validate_notion.py:27-40 | no required property is listed twice (they are a dictionary's keys) and the two required options differ |
| `NotionValidation.SchemaOf` | validate_notion.py:65 | definition of `database.get("properties", {})`: a database without properties has an empty schema |
| `NotionValidation.PropertyIssue` | validate_notion.py:71-79 | definition of one property's check: missing, or present with another type; stated by `MissingPropertyListed` and `WrongTypeListed` |
| `NotionValidation.PropertyIssues` | validate_notion.py:70-79 | at most one issue per required property, each a missing or wrong-type issue |
| `NotionValidation.OptionIssues` | validate_notion.py:87-91 | at most one issue per required option, each a missing-option issue |
| `NotionValidation.StationIssues` | validate_notion.py:82-91 | definition of the Station option check; stated by `StationIssuesInOrder` and `OptionIssuesListed` |
| `NotionValidation.SchemaIssues` | validate_notion.py:27-93 | a retrieved schema has at most 9 + 2 issues |
| `NotionValidation.PropertyIssuesAppend` | validate_notion.py:70-79 | the issues of properties checked earlier come before those of properties checked later |
| `NotionValidation.PropertyIssuesOneEach` | validate_notion.py:70-79 | each required property contributes its own issue, or none, at its place in the table's order |
| `NotionValidation.PropertyIssueListed` | validate_notion.py:71-79 | a required property that is missing or has the wrong type has its issue in the list |
| `NotionValidation.ListedIssueIsOfProperty` | validate_notion.py:71-79 | every listed property issue belongs to a required property that is missing or has the wrong type |
| `NotionValidation.MissingPropertyListed` | validate_notion.py:70-72 | "missing property p" is reported iff p is required and absent |
| `NotionValidation.WrongTypeListed` | validate_notion.py:73-79 | "p has type a, expected e" is reported iff p is required with type e and present with a type a other than e |
| `NotionValidation.OptionIssuesAreOptions` | validate_notion.py:81-91 | the Station check adds only option issues, so every other issue in the list is a property issue |
| `NotionValidation.OptionIssuesListed` | validate_notion.py:85-91 | "missing option o" is reported iff o is required and not among the option names |
| `NotionValidation.StationIssuesInOrder` | validate_notion.py:40-91 | options are checked only when Station exists and is a select; a missing Tiangong is then reported before a missing ISS |
| `NotionValidation.PropertyIssuesBeforeOptionIssues` | validate_notion.py:69-91 | no property issue comes after an option issue |
| `NotionValidation.NoPropertyIssues` | validate_notion.py:70-79 | no property issue is listed iff every required property is present with its expected type |
| `NotionValidation.NoIssuesIffConformant` | validate_notion.py:27-93 | a schema has no issue iff all nine properties have their types and Station offers Tiangong and ISS |
| `NotionValidation.CheckDatabaseProperties` | validate_notion.py:61-96 | a retrieval failure gives failure with one issue; otherwise the issues are exactly the schema's issues in order, and success iff there is none |
| `NotionValidation.ValidateDatabase` | validate_notion.py:109-177 | exit 0 iff the configuration is complete, the database is accessible and its schema has no issue; 1 otherwise; the issues listed are the schema's, or the single retrieval error |
| `SchemaAgreement.TablesAgree` | validate_notion.py:27-37 | the mapper's table and the validator's required properties list the same names, in the same order, with the same types |
| `SchemaAgreement.MappedPageHasRequiredProperties` | sync_to_notion.py:56-138 | every page the sync writes has each property the validator requires, with the required type |
| `SchemaAgreement.ConfigChecksAgree` | validate_notion.py:43-58 | when the CSV file exists, the validator accepts a configuration iff the sync does, and both report a missing token before a missing database id |

## Left out

- `NotionSync.ExistingPages`: its contract states only that every page of the store is folded once, in order. It does not state the sequence of queries, with each answer's cursor passed to the next query.
- A cursor is an offset into the store's page list. The real one is an opaque string, and an empty string would restart at the first page.
- An exception from `databases.query` is not modelled. The script does not catch it, so such a failure ends the run.
- Title segments are modelled as text segments only: `Title` holds each segment's content. A page whose title starts with a mention or an equation segment has no `text` entry there. On such a page, the lookup at sync_to_notion.py:158 raises `KeyError`, and nothing catches it. That ends `get_existing_pages` and the run before any upsert, and this error path is not modelled.
- `NotionSync.RunWritesLastRows`: a created page is assumed to come after every existing page in query order, because the store appends it. The query sets no sort (sync_to_notion.py:148-152), so Notion does not promise this order. For a name that only one row carries, the result does not depend on the order. For a new name that several rows share, one run creates several pages with that title. Which of them the index picks, and so whose properties the indexed page carries, rests on this assumption.
- The messages are structured values, not Python's f-string text. This covers the error entries, the issue texts, and everything printed.
- `print` output, the banners and the troubleshooting text are left out. `sys.exit` becomes a returned exit code.
- `csv.DictReader` parsing is left out; the rows are given as maps.
- `load_dotenv`, `os.getenv` and `os.path.exists` are left out; their results are parameters.
- `Client(auth=...)` construction is left out, along with its failure path in `validate_database`.
- `test_database_access` is a single foreign query. Its outcome is the `accessible` parameter of `ValidateDatabase`.
- Only a failing retrieval is modelled as a failure of `check_database_properties`. Other exceptions its `except` clause would catch, such as a malformed property description, are not.
- `KeyboardInterrupt` and traceback handling are left out.
- The page id of a created page is one fixed id not yet in the store, the
  shortest run of `p` longer than every existing id. The `store.pages` results of
  `UpsertRows` and `SyncToNotion`, and the lemmas about the pages after a run,
  hold for that choice; Notion's own id generation is not modelled.
- `NotionSync.RunIndexesEveryRow`, `NotionSync.RunWritesLastRows` and `NotionSync.RerunOnlyUpdates` assume that no call of the run raises. When some call raises, they say nothing about the pages; the error list covers that row instead.
- A create or update that raises has no effect on the store. A call that Notion
  applied before raising (a timeout after the write, say) is not modelled, and the
  `store.pages` results of `UpsertRows` and `SyncToNotion` rest on this.
- The code has no truncation of long texts, no "Unknown" or "Other" defaults, no trimming, no pipe-delimited input and no per-record lookup. The model follows the code.
