/**
 * The sync script: map each CSV row to Notion page properties, index the
 * database's existing pages by title, create or update one page per named
 * row while counting successes and failures, and decide the exit code.
 */
module NotionSync {
  import opened Wrappers
  import opened NotionStore

  /** One CSV row as `csv.DictReader` yields it: column name to cell text. */
  type Row = map<string, string>

  /** `row.get(column, "")`. */
  function Cell(row: Row, column: string): string {
    if column in row then row[column] else ""
  }

  function ExperimentName(row: Row): string {
    Cell(row, "Experiment_Name")
  }

  // ---------------------------------------------------------------------
  // Configuration

  datatype ConfigError = MissingToken | MissingDatabaseId | MissingCsvFile

  /**
   * `validate_config`: the token, then the database id, then the CSV file;
   * the first one missing stops the script.
   */
  function CheckConfig(token: Option<string>, databaseId: Option<string>, csvExists: bool): (r: Option<ConfigError>)
    ensures r.None? <==> Truthy(token) && Truthy(databaseId) && csvExists
    ensures r == Some(MissingToken) <==> !Truthy(token)
    ensures r == Some(MissingDatabaseId) <==> Truthy(token) && !Truthy(databaseId)
    ensures r == Some(MissingCsvFile) <==> Truthy(token) && Truthy(databaseId) && !csvExists
  {
    if !Truthy(token) then Some(MissingToken)
    else if !Truthy(databaseId) then Some(MissingDatabaseId)
    else if !csvExists then Some(MissingCsvFile)
    else None
  }

  // ---------------------------------------------------------------------
  // Row to page properties

  /**
   * `create_notion_page_properties`: the page's nine properties, each taken
   * from one column of the row, an absent column giving the empty string.
   */
  function PageProperties(row: Row): Properties {
    map[
      "Name" := Title([Cell(row, "Experiment_Name")]),
      "Station" := Select(Cell(row, "Station")),
      "Discipline" := RichText([Cell(row, "Discipline")]),
      "Country/Institution" := RichText([Cell(row, "Country_Institution")]),
      "Timeline Status" := RichText([Cell(row, "Timeline_Status")]),
      "Objectives" := RichText([Cell(row, "Objectives")]),
      "Expected Outcomes" := RichText([Cell(row, "Expected_Outcomes")]),
      "Principal Investigator" := RichText([Cell(row, "Principal_Investigator")]),
      "Mission Module" := RichText([Cell(row, "Mission_Module")])
    ]
  }

  /** Each page property, the CSV column it is filled from, and the property's type. */
  const MappedProperties: seq<(string, string, string)> := [
    ("Name", "Experiment_Name", "title"),
    ("Station", "Station", "select"),
    ("Discipline", "Discipline", "rich_text"),
    ("Country/Institution", "Country_Institution", "rich_text"),
    ("Timeline Status", "Timeline_Status", "rich_text"),
    ("Objectives", "Objectives", "rich_text"),
    ("Expected Outcomes", "Expected_Outcomes", "rich_text"),
    ("Principal Investigator", "Principal_Investigator", "rich_text"),
    ("Mission Module", "Mission_Module", "rich_text")
  ]

  /** The mapper's output has exactly the nine properties of the table. */
  lemma PagePropertiesKeys(row: Row)
    ensures PageProperties(row).Keys == {
      "Name", "Station", "Discipline", "Country/Institution", "Timeline Status",
      "Objectives", "Expected Outcomes", "Principal Investigator", "Mission Module"
    }
  {
  }

  /**
   * Each property has the type the table gives it: Name a title, Station a
   * select and the other seven rich text.
   */
  lemma PagePropertiesKinds(row: Row)
    ensures forall k :: 0 <= k < |MappedProperties| ==>
      MappedProperties[k].0 in PageProperties(row) && PageProperties(row)[MappedProperties[k].0].Kind() == MappedProperties[k].2
  {
  }

  /**
   * Every property holds exactly one text, the row's value for its column, or
   * "" when the row has no such column; the mapper never fails on a missing field.
   */
  lemma PagePropertiesCopyColumns(row: Row)
    ensures forall k :: 0 <= k < |MappedProperties| ==>
      MappedProperties[k].0 in PageProperties(row) &&
      PageProperties(row)[MappedProperties[k].0].Contents() == [Cell(row, MappedProperties[k].1)]
    ensures forall k :: 0 <= k < |MappedProperties| && MappedProperties[k].1 !in row ==>
      PageProperties(row)[MappedProperties[k].0].Contents() == [""]
  {
    var p := PageProperties(row);
    forall k | 0 <= k < |MappedProperties|
      ensures MappedProperties[k].0 in p && p[MappedProperties[k].0].Contents() == [Cell(row, MappedProperties[k].1)]
    {
      MappedPropertyContents(row, k);
    }
  }

  /** One entry of the table: its property holds the single text of its column. */
  lemma MappedPropertyContents(row: Row, k: nat)
    requires k < |MappedProperties|
    ensures MappedProperties[k].0 in PageProperties(row)
    ensures PageProperties(row)[MappedProperties[k].0].Contents() == [Cell(row, MappedProperties[k].1)]
  {
  }

  // ---------------------------------------------------------------------
  // Existing pages

  /**
   * The name a fetched page is indexed under: the content of the first segment
   * of its "Name" title, when it has a title property of that name that is not empty.
   */
  function TitleOf(page: Page): Option<string> {
    if "Name" in page.properties && page.properties["Name"].Title? && |page.properties["Name"].texts| > 0
    then Some(page.properties["Name"].texts[0])
    else None
  }

  /** The name to id index folded over `pages` in order, a later page overriding an earlier one. */
  function IndexOf(pages: seq<Page>): map<string, PageId>
    decreases |pages|
  {
    if pages == [] then map[]
    else
      var index := IndexOf(pages[..|pages| - 1]);
      var page := pages[|pages| - 1];
      match TitleOf(page)
      case Some(name) => index[name := page.id]
      case None => index
  }

  /**
   * A name is in the index exactly when some page carries it as title, and it
   * then maps to the id of the last such page: last write wins.
   */
  lemma {:induction false} IndexOfLastWins(pages: seq<Page>, name: string)
    ensures name in IndexOf(pages) <==> exists i :: 0 <= i < |pages| && TitleOf(pages[i]) == Some(name)
    ensures name in IndexOf(pages) ==>
      exists i :: 0 <= i < |pages| && TitleOf(pages[i]) == Some(name) && IndexOf(pages)[name] == pages[i].id &&
        forall j :: i < j < |pages| ==> TitleOf(pages[j]) != Some(name)
    decreases |pages|
  {
    if pages != [] {
      var n := |pages| - 1;
      var init := pages[..n];
      IndexOfLastWins(init, name);
      assert forall i :: 0 <= i < n ==> init[i] == pages[i];
      if TitleOf(pages[n]) == Some(name) {
        assert IndexOf(pages)[name] == pages[n].id;
      } else if name in IndexOf(init) {
        var i :| 0 <= i < n && TitleOf(init[i]) == Some(name) && IndexOf(init)[name] == init[i].id &&
          forall j :: i < j < n ==> TitleOf(init[j]) != Some(name);
        assert TitleOf(pages[i]) == Some(name);
      } else {
        assert forall i :: 0 <= i < n ==> TitleOf(pages[i]) != Some(name);
      }
    }
  }

  /** One more page: its title, when it has one, now maps to its id. */
  lemma IndexOfSnoc(pages: seq<Page>, page: Page)
    ensures IndexOf(pages + [page]) ==
      match TitleOf(page)
      case Some(name) => IndexOf(pages)[name := page.id]
      case None => IndexOf(pages)
  {
    var longer := pages + [page];
    assert longer[..|longer| - 1] == pages;
    assert longer[|longer| - 1] == page;
  }

  /**
   * The inner `for page in response["results"]` loop: fold a batch of pages
   * into the index built from the pages before it.
   */
  method IndexBatch(index: map<string, PageId>, batch: seq<Page>, ghost earlier: seq<Page>)
    returns (index': map<string, PageId>)
    requires index == IndexOf(earlier)
    ensures index' == IndexOf(earlier + batch)
  {
    index' := index;
    assert earlier + batch[..0] == earlier;
    for j := 0 to |batch|
      invariant index' == IndexOf(earlier + batch[..j])
    {
      var page := batch[j];
      assert earlier + batch[..j + 1] == (earlier + batch[..j]) + [page];
      IndexOfSnoc(earlier + batch[..j], page);
      match TitleOf(page)
      case Some(name) =>
        index' := index'[name := page.id];
      case None =>
    }
    assert batch[..|batch|] == batch;
  }

  /**
   * `get_existing_pages`: query the database from the first page on,
   * following each answer's cursor, until an answer says there is no more,
   * and fold every page's title into the index: every page is folded once,
   * in the database's order.
   */
  method ExistingPages(store: Store) returns (index: map<string, PageId>)
    ensures index == IndexOf(store.pages)
  {
    ghost var pages := store.pages;
    index := map[];
    var hasMore := true;
    var cursor: Option<nat> := None;
    ghost var seen: nat := 0;
    while hasMore
      invariant seen <= |pages|
      invariant index == IndexOf(pages[..seen])
      invariant hasMore ==> Start(pages, cursor) == seen
      invariant !hasMore ==> seen == |pages|
      decreases |pages| - seen + (if hasMore then 1 else 0)
    {
      var response := store.Query(cursor);
      ghost var next := seen + |response.results|;
      assert pages[..next] == pages[..seen] + response.results;
      index := IndexBatch(index, response.results, pages[..seen]);
      seen := next;
      hasMore := response.hasMore;
      cursor := response.nextCursor;
    }
    assert pages[..seen] == pages;
  }

  // ---------------------------------------------------------------------
  // Create or update

  datatype Op = Creating | Updating

  /** One entry of the error list: the failing row's name, the operation, and the exception's text. */
  datatype SyncError = SyncError(op: Op, name: string, reason: string)

  /** The counters and the error list the loop keeps. */
  datatype SyncOutcome = SyncOutcome(created: nat, updated: nat, errorCount: nat, errors: seq<SyncError>)

  /** How many rows have a non-empty name, that is, are not skipped. */
  function NamedCount(rows: seq<Row>): nat
    decreases |rows|
  {
    if rows == [] then 0
    else NamedCount(rows[..|rows| - 1]) + (if ExperimentName(rows[|rows| - 1]) == "" then 0 else 1)
  }

  function RouteOf(name: string, index: map<string, PageId>): Op {
    if name in index then Updating else Creating
  }

  /**
   * The call a named row issues: an update of the indexed page when its name
   * is in the index, otherwise a create under the configured database, with
   * the row's mapped properties either way.
   */
  function CallFor(row: Row, index: map<string, PageId>, parent: string): (c: Call)
    ensures c.properties == PageProperties(row)
    ensures c.UpdatePage? <==> ExperimentName(row) in index
    ensures c.UpdatePage? ==> c.pageId == index[ExperimentName(row)]
    ensures c.CreatePage? ==> c.parent == parent
  {
    var name := ExperimentName(row);
    if name in index then UpdatePage(index[name], PageProperties(row))
    else CreatePage(parent, PageProperties(row))
  }

  /** The calls the loop issues, in order: one per named row, none for a skipped one. */
  function Plan(rows: seq<Row>, index: map<string, PageId>, parent: string): (plan: seq<Call>)
    ensures |plan| == NamedCount(rows)
    decreases |rows|
  {
    if rows == [] then []
    else
      var init := Plan(rows[..|rows| - 1], index, parent);
      var row := rows[|rows| - 1];
      if ExperimentName(row) == "" then init else init + [CallFor(row, index, parent)]
  }

  /** The counters after one more call, given whether it raised. */
  function Record(t: SyncOutcome, op: Op, name: string, failure: Option<string>): SyncOutcome {
    match failure
    case None =>
      if op == Updating then t.(updated := t.updated + 1) else t.(created := t.created + 1)
    case Some(e) =>
      t.(errorCount := t.errorCount + 1, errors := t.errors + [SyncError(op, name, e)])
  }

  /**
   * The counters and error list after the loop over `rows`, the j-th issued
   * call being the store's call number `base + j`.
   * Every named row adds one to exactly one counter, so the three add up to
   * the number of named rows, and there is one error entry per error counted.
   */
  function Tally(rows: seq<Row>, index: map<string, PageId>, base: nat, rejection: map<nat, string>): (t: SyncOutcome)
    ensures t.created + t.updated + t.errorCount == NamedCount(rows)
    ensures |t.errors| == t.errorCount
    decreases |rows|
  {
    if rows == [] then SyncOutcome(0, 0, 0, [])
    else
      var init := rows[..|rows| - 1];
      var t := Tally(init, index, base, rejection);
      var name := ExperimentName(rows[|rows| - 1]);
      if name == "" then t
      else Record(t, RouteOf(name, index), name, RaisedAt(rejection, base + NamedCount(init)))
  }

  /** Recording a call keeps the earlier error entries, and adds one for a call that raised. */
  lemma RecordKeepsErrors(t: SyncOutcome, op: Op, name: string, failure: Option<string>)
    ensures t.errors <= Record(t, op, name, failure).errors
    ensures failure.Some? ==> Record(t, op, name, failure).errors == t.errors + [SyncError(op, name, failure.value)]
    ensures failure.None? ==> Record(t, op, name, failure).errors == t.errors
  {
  }

  /** A row without a name adds no call and leaves the counters as they were. */
  lemma SkipSnoc(init: seq<Row>, row: Row, index: map<string, PageId>, parent: string, base: nat, rejection: map<nat, string>)
    requires ExperimentName(row) == ""
    ensures Plan(init + [row], index, parent) == Plan(init, index, parent)
    ensures Tally(init + [row], index, base, rejection) == Tally(init, index, base, rejection)
  {
    var longer := init + [row];
    assert longer[..|longer| - 1] == init;
    assert longer[|longer| - 1] == row;
  }

  /** A named row adds its call to the plan. */
  lemma PlanSnoc(init: seq<Row>, row: Row, index: map<string, PageId>, parent: string)
    requires ExperimentName(row) != ""
    ensures Plan(init + [row], index, parent) == Plan(init, index, parent) + [CallFor(row, index, parent)]
  {
    var longer := init + [row];
    assert longer[..|longer| - 1] == init;
    assert longer[|longer| - 1] == row;
  }

  /** A named row's call is call number `k`, one past the calls of the rows before it, and its outcome is recorded. */
  lemma TallySnoc(init: seq<Row>, row: Row, index: map<string, PageId>, base: nat, rejection: map<nat, string>, k: nat)
    requires ExperimentName(row) != "" && k == base + NamedCount(init)
    ensures Tally(init + [row], index, base, rejection) ==
      Record(Tally(init, index, base, rejection), RouteOf(ExperimentName(row), index), ExperimentName(row), RaisedAt(rejection, k))
  {
    var longer := init + [row];
    assert longer[..|longer| - 1] == init;
    assert longer[|longer| - 1] == row;
  }

  /**
   * When a named row's call is call number `k` and takes the pages from
   * `before` to `after` and the counters from `t` to `t'`, those are the
   * pages and counters of the loop after that row.
   */
  lemma UpsertSnoc(init: seq<Row>, row: Row, index: map<string, PageId>, parent: string, base: nat,
                   rejection: map<nat, string>, pages0: seq<Page>, k: nat, before: seq<Page>, after: seq<Page>,
                   t: SyncOutcome, t': SyncOutcome)
    requires ExperimentName(row) != "" && k == base + NamedCount(init)
    requires before == Applied(pages0, Plan(init, index, parent), base, rejection)
    requires t == Tally(init, index, base, rejection)
    requires after == AfterCall(before, CallFor(row, index, parent), RaisedAt(rejection, k))
    requires t' == Record(t, RouteOf(ExperimentName(row), index), ExperimentName(row), RaisedAt(rejection, k))
    ensures after == Applied(pages0, Plan(init + [row], index, parent), base, rejection)
    ensures t' == Tally(init + [row], index, base, rejection)
  {
    PlanSnoc(init, row, index, parent);
    TallySnoc(init, row, index, base, rejection, k);
    AppliedSnoc(pages0, Plan(init, index, parent), CallFor(row, index, parent), base, rejection, k);
  }

  /** Named row i issues call number NamedCount(rows[..i]) of the plan, and that call is CallFor(rows[i]). */
  lemma {:induction false} PlanCallOfRow(rows: seq<Row>, index: map<string, PageId>, parent: string, i: nat)
    requires i < |rows| && ExperimentName(rows[i]) != ""
    ensures NamedCount(rows[..i]) < |Plan(rows, index, parent)|
    ensures Plan(rows, index, parent)[NamedCount(rows[..i])] == CallFor(rows[i], index, parent)
    decreases |rows|
  {
    var n := |rows| - 1;
    var init := rows[..n];
    var plan := Plan(init, index, parent);
    var last := rows[n];
    if ExperimentName(last) == "" {
      assert Plan(rows, index, parent) == plan;
    } else {
      assert Plan(rows, index, parent) == plan + [CallFor(last, index, parent)];
    }
    if i < n {
      PrefixOfPrefix(rows, i, n);
      PlanCallOfRow(init, index, parent, i);
    } else {
      assert rows[..i] == init;
    }
  }

  /**
   * The index is not changed inside the loop, so two rows sharing a name the
   * index lacks both issue a create, at two different places in the plan.
   */
  lemma SharedNewNameCreatesTwice(rows: seq<Row>, index: map<string, PageId>, parent: string, i: nat, j: nat)
    requires i < j < |rows| && ExperimentName(rows[i]) != "" && ExperimentName(rows[j]) == ExperimentName(rows[i])
    requires ExperimentName(rows[i]) !in index
    ensures NamedCount(rows[..i]) < NamedCount(rows[..j]) < |Plan(rows, index, parent)|
    ensures Plan(rows, index, parent)[NamedCount(rows[..i])].CreatePage?
    ensures Plan(rows, index, parent)[NamedCount(rows[..j])].CreatePage?
  {
    PlanCallOfRow(rows, index, parent, i);
    PlanCallOfRow(rows, index, parent, j);
    NamedCountGrows(rows[..j], i);
    assert rows[..j][..i] == rows[..i];
  }

  /** A named row at `i` adds to the count of the rows before any later point. */
  lemma {:induction false} NamedCountGrows(rows: seq<Row>, i: nat)
    requires i < |rows| && ExperimentName(rows[i]) != ""
    ensures NamedCount(rows[..i]) < NamedCount(rows)
    decreases |rows|
  {
    var n := |rows| - 1;
    if i < n {
      PrefixOfPrefix(rows, i, n);
      NamedCountGrows(rows[..n], i);
    } else {
      assert rows[..i] == rows[..n];
    }
  }

  /** Whether every call the loop issues over `rows` raises. */
  ghost predicate AllCallsFail(rows: seq<Row>, base: nat, rejection: map<nat, string>) {
    forall j :: base <= j < base + NamedCount(rows) ==> RaisedAt(rejection, j).Some?
  }

  /** Nothing was created or updated exactly when every issued call raised. */
  lemma {:induction false} NoSuccessIffAllCallsFail(rows: seq<Row>, index: map<string, PageId>, base: nat, rejection: map<nat, string>)
    ensures var t := Tally(rows, index, base, rejection);
      t.created + t.updated == 0 <==> AllCallsFail(rows, base, rejection)
    decreases |rows|
  {
    if rows != [] {
      var init := rows[..|rows| - 1];
      NoSuccessIffAllCallsFail(init, index, base, rejection);
      var k := NamedCount(init);
      if ExperimentName(rows[|rows| - 1]) == "" {
        assert NamedCount(rows) == k;
      } else {
        assert NamedCount(rows) == k + 1;
        assert AllCallsFail(rows, base, rejection) <==> AllCallsFail(init, base, rejection) && RaisedAt(rejection, base + k).Some?;
      }
    }
  }

  /** The counter a successful call of operation `op` moves. */
  function Counted(t: SyncOutcome, op: Op): nat {
    if op == Updating then t.updated else t.created
  }

  /** Recording a call moves the counter of `op` by one exactly when the call was of `op` and did not raise. */
  lemma RecordCounted(t: SyncOutcome, callOp: Op, name: string, failure: Option<string>, op: Op)
    ensures Counted(Record(t, callOp, name, failure), op) == Counted(t, op) + (if callOp == op && failure.None? then 1 else 0)
  {
  }

  /** Row `i`, when it is named and routed to operation `op`, issued a call that raised. */
  ghost predicate RoutedCallFails(rows: seq<Row>, index: map<string, PageId>, base: nat, rejection: map<nat, string>, op: Op, i: nat)
    requires i < |rows|
  {
    ExperimentName(rows[i]) != "" && RouteOf(ExperimentName(rows[i]), index) == op ==>
      RaisedAt(rejection, base + NamedCount(rows[..i])).Some?
  }

  /** Every call of operation `op` the loop issues over `rows` raises. */
  ghost predicate AllRoutedCallsFail(rows: seq<Row>, index: map<string, PageId>, base: nat, rejection: map<nat, string>, op: Op) {
    forall i :: 0 <= i < |rows| ==> RoutedCallFails(rows, index, base, rejection, op, i)
  }

  /**
   * The updated counter stays 0 exactly when every update raised, and the
   * created counter exactly when every create raised: a successful call is
   * counted under the operation its row's route chose.
   */
  lemma {:induction false} NoneCountedIffAllRoutedFail(rows: seq<Row>, index: map<string, PageId>, base: nat, rejection: map<nat, string>, op: Op)
    ensures Counted(Tally(rows, index, base, rejection), op) == 0 <==> AllRoutedCallsFail(rows, index, base, rejection, op)
    decreases |rows|
  {
    if rows != [] {
      var n := |rows| - 1;
      var init := rows[..n];
      NoneCountedIffAllRoutedFail(init, index, base, rejection, op);
      var name := ExperimentName(rows[n]);
      var t0 := Tally(init, index, base, rejection);
      if name == "" {
        assert Tally(rows, index, base, rejection) == t0;
      } else {
        var failure := RaisedAt(rejection, base + NamedCount(init));
        assert Tally(rows, index, base, rejection) == Record(t0, RouteOf(name, index), name, failure);
        RecordCounted(t0, RouteOf(name, index), name, failure, op);
      }
      AllRoutedSnoc(rows, index, base, rejection, op);
    }
  }

  /** Every routed call over `rows` fails exactly when every one over its rows but the last does, and the last one's does. */
  lemma AllRoutedSnoc(rows: seq<Row>, index: map<string, PageId>, base: nat, rejection: map<nat, string>, op: Op)
    requires rows != []
    ensures AllRoutedCallsFail(rows, index, base, rejection, op) <==>
      AllRoutedCallsFail(rows[..|rows| - 1], index, base, rejection, op) && RoutedCallFails(rows, index, base, rejection, op, |rows| - 1)
  {
    var n := |rows| - 1;
    forall i | 0 <= i < n
      ensures RoutedCallFails(rows, index, base, rejection, op, i) == RoutedCallFails(rows[..n], index, base, rejection, op, i)
    {
      PrefixOfPrefix(rows, i, n);
    }
  }

  /**
   * A named row whose call raised has an entry in the error list, with that
   * row's name, the operation its route chose and the exception's text.
   */
  lemma {:induction false} FailedRowIsReported(rows: seq<Row>, index: map<string, PageId>, base: nat, rejection: map<nat, string>, i: nat)
    requires i < |rows| && ExperimentName(rows[i]) != ""
    requires RaisedAt(rejection, base + NamedCount(rows[..i])).Some?
    ensures SyncError(RouteOf(ExperimentName(rows[i]), index), ExperimentName(rows[i]), RaisedAt(rejection, base + NamedCount(rows[..i])).value)
      in Tally(rows, index, base, rejection).errors
    decreases |rows|
  {
    var n := |rows| - 1;
    var init := rows[..n];
    var row := rows[n];
    var t0 := Tally(init, index, base, rejection);
    var name := ExperimentName(row);
    var e := SyncError(RouteOf(ExperimentName(rows[i]), index), ExperimentName(rows[i]), RaisedAt(rejection, base + NamedCount(rows[..i])).value);
    if i < n {
      PrefixOfPrefix(rows, i, n);
      FailedRowIsReported(init, index, base, rejection, i);
      assert e in t0.errors;
    } else {
      assert rows[..i] == init;
    }
    if name != "" {
      var failure := RaisedAt(rejection, base + NamedCount(init));
      assert Tally(rows, index, base, rejection) == Record(t0, RouteOf(name, index), name, failure);
      RecordKeepsErrors(t0, RouteOf(name, index), name, failure);
    } else {
      assert Tally(rows, index, base, rejection) == t0;
    }
  }

  /** Error entry `e` is the one named row `i` of `rows` produces when its call raises. */
  ghost predicate ReportsRow(rows: seq<Row>, index: map<string, PageId>, base: nat, rejection: map<nat, string>, e: SyncError, i: int) {
    && 0 <= i < |rows| && ExperimentName(rows[i]) == e.name && e.name != ""
    && e.op == RouteOf(e.name, index) && RaisedAt(rejection, base + NamedCount(rows[..i])) == Some(e.reason)
  }

  /**
   * Every entry of the error list comes from a named row whose call raised,
   * and carries that row's name, its route's operation and the exception's text.
   */
  lemma {:induction false} ReportedErrorIsFailedRow(rows: seq<Row>, index: map<string, PageId>, base: nat, rejection: map<nat, string>, e: SyncError)
    requires e in Tally(rows, index, base, rejection).errors
    ensures exists i :: ReportsRow(rows, index, base, rejection, e, i)
    decreases |rows|
  {
    var n := |rows| - 1;
    var init := rows[..n];
    var row := rows[n];
    var t0 := Tally(init, index, base, rejection);
    if e in t0.errors {
      ReportedErrorIsFailedRow(init, index, base, rejection, e);
      var i :| ReportsRow(init, index, base, rejection, e, i);
      PrefixOfPrefix(rows, i, n);
      assert ReportsRow(rows, index, base, rejection, e, i);
    } else {
      assert ReportsRow(rows, index, base, rejection, e, n);
    }
  }

  // ---------------------------------------------------------------------
  // Pages after the run

  /** No two pages share an id. */
  ghost predicate DistinctIds(pages: seq<Page>) {
    forall i, j :: 0 <= i < j < |pages| ==> pages[i].id != pages[j].id
  }

  /**
   * `pages` grew from `pages0` by successful calls: no two pages share an id,
   * each earlier page keeps its place, its id and its title, and every name
   * indexed before still maps to the same page.
   */
  ghost predicate GrewFrom(pages0: seq<Page>, pages: seq<Page>) {
    && DistinctIds(pages)
    && |pages0| <= |pages|
    && (forall i :: 0 <= i < |pages0| ==> pages[i].id == pages0[i].id && TitleOf(pages[i]) == TitleOf(pages0[i]))
    && (forall name :: name in IndexOf(pages0) ==> name in IndexOf(pages) && IndexOf(pages)[name] == IndexOf(pages0)[name])
  }

  /** None of the store's calls numbered `base` up to `base + count - 1` raises. */
  ghost predicate NoneRaise(rejection: map<nat, string>, base: nat, count: nat) {
    forall j :: base <= j < base + count ==> RaisedAt(rejection, j).None?
  }

  /** The page a named row's call writes is titled with the row's name, whatever properties it held before. */
  lemma MappedTitle(row: Row, id: PageId, earlier: Properties)
    ensures TitleOf(Page(id, PageProperties(row))) == Some(ExperimentName(row))
    ensures TitleOf(Page(id, earlier + PageProperties(row))) == Some(ExperimentName(row))
  {
  }

  /** Two page sequences with the same ids and titles, place by place, have the same index. */
  lemma {:induction false} IndexOfSameTitles(p: seq<Page>, q: seq<Page>)
    requires |p| == |q|
    requires forall i :: 0 <= i < |p| ==> p[i].id == q[i].id && TitleOf(p[i]) == TitleOf(q[i])
    ensures IndexOf(p) == IndexOf(q)
    decreases |p|
  {
    if p != [] {
      var n := |p| - 1;
      IndexOfSameTitles(p[..n], q[..n]);
    }
  }

  /**
   * One more row, when none of the run's calls raise: a skipped row leaves
   * the pages as they were, a named row's call has its effect.
   */
  lemma RunSnoc(pages0: seq<Page>, rows: seq<Row>, index: map<string, PageId>, parent: string, base: nat, rejection: map<nat, string>)
    requires rows != [] && NoneRaise(rejection, base, NamedCount(rows))
    ensures NoneRaise(rejection, base, NamedCount(rows[..|rows| - 1]))
    ensures var before := Applied(pages0, Plan(rows[..|rows| - 1], index, parent), base, rejection);
      Applied(pages0, Plan(rows, index, parent), base, rejection) ==
        if ExperimentName(rows[|rows| - 1]) == "" then before else Perform(before, CallFor(rows[|rows| - 1], index, parent))
  {
    var n := |rows| - 1;
    var plan := Plan(rows[..n], index, parent);
    if ExperimentName(rows[n]) != "" {
      assert Plan(rows, index, parent) == plan + [CallFor(rows[n], index, parent)];
      AppliedSnoc(pages0, plan, CallFor(rows[n], index, parent), base, rejection, base + |plan|);
    }
  }

  /** A successful create, for a name not indexed before the run, appends one page, titled with it, under a fresh id. */
  lemma CreateGrows(pages0: seq<Page>, p: seq<Page>, row: Row, parent: string)
    requires GrewFrom(pages0, p) && ExperimentName(row) != "" && ExperimentName(row) !in IndexOf(pages0)
    ensures Perform(p, CallFor(row, IndexOf(pages0), parent)) == p + [Page(FreshId(p), PageProperties(row))]
    ensures GrewFrom(pages0, p + [Page(FreshId(p), PageProperties(row))])
    ensures IndexOf(p + [Page(FreshId(p), PageProperties(row))]) == IndexOf(p)[ExperimentName(row) := FreshId(p)]
  {
    var page := Page(FreshId(p), PageProperties(row));
    MappedTitle(row, page.id, map[]);
    IndexOfSnoc(p, page);
  }

  /** Pages with the same ids and titles, place by place, as pages that grew from `pages0` grew from it too, with the same index. */
  lemma SameTitlesGrow(pages0: seq<Page>, p: seq<Page>, q: seq<Page>)
    requires GrewFrom(pages0, p) && |p| == |q|
    requires forall i :: 0 <= i < |p| ==> q[i].id == p[i].id && TitleOf(q[i]) == TitleOf(p[i])
    ensures GrewFrom(pages0, q) && IndexOf(q) == IndexOf(p)
  {
    IndexOfSameTitles(q, p);
  }

  /**
   * Merging properties that keep its title into the page `p[i0]`, one of the
   * pages from before the run, changes that page alone and no title, hence
   * not the index.
   */
  lemma MergedGrows(pages0: seq<Page>, p: seq<Page>, properties: Properties, i0: nat)
    requires GrewFrom(pages0, p) && i0 < |pages0|
    requires TitleOf(Page(p[i0].id, p[i0].properties + properties)) == TitleOf(p[i0])
    ensures var after := Merged(p, p[i0].id, properties);
      && GrewFrom(pages0, after)
      && IndexOf(after) == IndexOf(p)
      && after[i0] == Page(p[i0].id, p[i0].properties + properties)
      && forall j :: 0 <= j < |p| && j != i0 ==> after[j] == p[j]
  {
    var after := Merged(p, p[i0].id, properties);
    forall j | 0 <= j < |p|
      ensures (j != i0 ==> after[j] == p[j]) && TitleOf(after[j]) == TitleOf(p[j])
    {
      if j != i0 {
        assert p[j].id != p[i0].id;
      }
    }
    SameTitlesGrow(pages0, p, after);
  }

  /**
   * A successful update of the page `pages0[i0]` that a name was indexed
   * under before the run merges the row's properties into that page alone,
   * and leaves every title, hence the index, as it was.
   */
  lemma UpdateKeepsIndex(pages0: seq<Page>, p: seq<Page>, row: Row, parent: string, i0: nat)
    requires GrewFrom(pages0, p) && ExperimentName(row) in IndexOf(pages0)
    requires i0 < |pages0| && pages0[i0].id == IndexOf(pages0)[ExperimentName(row)]
    requires TitleOf(pages0[i0]) == Some(ExperimentName(row))
    ensures var after := Perform(p, CallFor(row, IndexOf(pages0), parent));
      && GrewFrom(pages0, after)
      && IndexOf(after) == IndexOf(p)
      && after[i0] == Page(p[i0].id, p[i0].properties + PageProperties(row))
      && forall j :: 0 <= j < |p| && j != i0 ==> after[j] == p[j]
  {
    MappedTitle(row, p[i0].id, p[i0].properties);
    assert Perform(p, CallFor(row, IndexOf(pages0), parent)) == Merged(p, p[i0].id, PageProperties(row));
    MergedGrows(pages0, p, PageProperties(row), i0);
  }

  /**
   * A named row's successful call, issued under the index from before the
   * run: the pages still grew from those before the run, every name indexed
   * before is still indexed, and so is the row's name.
   */
  lemma NamedStep(pages0: seq<Page>, p: seq<Page>, row: Row, parent: string)
    requires GrewFrom(pages0, p) && ExperimentName(row) != ""
    ensures var after := Perform(p, CallFor(row, IndexOf(pages0), parent));
      && GrewFrom(pages0, after)
      && IndexOf(p).Keys <= IndexOf(after).Keys
      && ExperimentName(row) in IndexOf(after)
  {
    var name := ExperimentName(row);
    if name in IndexOf(pages0) {
      IndexOfLastWins(pages0, name);
      var i0 :| 0 <= i0 < |pages0| && TitleOf(pages0[i0]) == Some(name) && IndexOf(pages0)[name] == pages0[i0].id;
      UpdateKeepsIndex(pages0, p, row, parent, i0);
    } else {
      CreateGrows(pages0, p, row, parent);
    }
  }

  /**
   * When the pages start with distinct ids and none of the run's calls
   * raises, the pages after the run grew from those before it.
   */
  lemma {:induction false} RunGrowsPages(pages0: seq<Page>, rows: seq<Row>, parent: string, base: nat, rejection: map<nat, string>)
    requires DistinctIds(pages0) && NoneRaise(rejection, base, NamedCount(rows))
    ensures GrewFrom(pages0, Applied(pages0, Plan(rows, IndexOf(pages0), parent), base, rejection))
    decreases |rows|
  {
    if rows != [] {
      var n := |rows| - 1;
      RunSnoc(pages0, rows, IndexOf(pages0), parent, base, rejection);
      RunGrowsPages(pages0, rows[..n], parent, base, rejection);
      if ExperimentName(rows[n]) != "" {
        NamedStep(pages0, Applied(pages0, Plan(rows[..n], IndexOf(pages0), parent), base, rejection), rows[n], parent);
      }
    }
  }

  /** Every named row of `rows` has its name in `index`. */
  ghost predicate AllIndexed(rows: seq<Row>, index: map<string, PageId>) {
    forall i :: 0 <= i < |rows| && ExperimentName(rows[i]) != "" ==> ExperimentName(rows[i]) in index
  }

  /** One more row: the earlier rows stay indexed when no name leaves the index, and the last one is when it is named and added. */
  lemma AllIndexedSnoc(rows: seq<Row>, index: map<string, PageId>, index': map<string, PageId>)
    requires rows != [] && AllIndexed(rows[..|rows| - 1], index) && index.Keys <= index'.Keys
    requires ExperimentName(rows[|rows| - 1]) != "" ==> ExperimentName(rows[|rows| - 1]) in index'
    ensures AllIndexed(rows, index')
  {
    var n := |rows| - 1;
    forall i | 0 <= i < n && ExperimentName(rows[i]) != ""
      ensures ExperimentName(rows[i]) in index'
    {
      PrefixOfPrefix(rows, i, n);
    }
  }

  /**
   * Each row becomes a page: when the pages start with distinct ids and none
   * of the run's calls raises, every named row's name is indexed in the
   * pages after the run.
   */
  lemma {:induction false} RunIndexesEveryRow(pages0: seq<Page>, rows: seq<Row>, parent: string, base: nat, rejection: map<nat, string>)
    requires DistinctIds(pages0) && NoneRaise(rejection, base, NamedCount(rows))
    ensures AllIndexed(rows, IndexOf(Applied(pages0, Plan(rows, IndexOf(pages0), parent), base, rejection)))
    decreases |rows|
  {
    if rows != [] {
      var n := |rows| - 1;
      var before := Applied(pages0, Plan(rows[..n], IndexOf(pages0), parent), base, rejection);
      var after := Applied(pages0, Plan(rows, IndexOf(pages0), parent), base, rejection);
      RunSnoc(pages0, rows, IndexOf(pages0), parent, base, rejection);
      RunIndexesEveryRow(pages0, rows[..n], parent, base, rejection);
      if ExperimentName(rows[n]) != "" {
        RunGrowsPages(pages0, rows[..n], parent, base, rejection);
        NamedStep(pages0, before, rows[n], parent);
      }
      AllIndexedSnoc(rows, IndexOf(before), IndexOf(after));
    }
  }

  /** Each of `properties` is held by `page`, with the same value. */
  ghost predicate Carries(page: Page, properties: Properties) {
    forall key :: key in properties ==> key in page.properties && page.properties[key] == properties[key]
  }

  /** The page at `q` is the one `name` is indexed under, and it carries `properties`. */
  ghost predicate WrittenAt(pages: seq<Page>, name: string, properties: Properties, q: int) {
    0 <= q < |pages| && name in IndexOf(pages) && pages[q].id == IndexOf(pages)[name] && Carries(pages[q], properties)
  }

  /** The page `name` is indexed under carries `properties`. */
  ghost predicate Written(pages: seq<Page>, name: string, properties: Properties) {
    exists q :: WrittenAt(pages, name, properties, q)
  }

  /** Row `i` is named, and no later row carries the same name. */
  ghost predicate LastOfName(rows: seq<Row>, i: int) {
    0 <= i < |rows| && ExperimentName(rows[i]) != "" &&
    forall j :: i < j < |rows| ==> ExperimentName(rows[j]) != ExperimentName(rows[i])
  }

  /** With distinct ids, two names are never indexed under the same page. */
  lemma IndexOfInjective(pages: seq<Page>, a: string, b: string)
    requires DistinctIds(pages) && a in IndexOf(pages) && b in IndexOf(pages) && a != b
    ensures IndexOf(pages)[a] != IndexOf(pages)[b]
  {
    IndexOfLastWins(pages, a);
    IndexOfLastWins(pages, b);
  }

  /** Another name's call leaves the page a name is indexed under, and what it carries, as it was. */
  lemma NamedStepKeepsWritten(pages0: seq<Page>, p: seq<Page>, row: Row, parent: string, name: string, properties: Properties, q: int)
    requires GrewFrom(pages0, p) && ExperimentName(row) != "" && name != ExperimentName(row)
    requires WrittenAt(p, name, properties, q)
    ensures WrittenAt(Perform(p, CallFor(row, IndexOf(pages0), parent)), name, properties, q)
  {
    var other := ExperimentName(row);
    if other in IndexOf(pages0) {
      IndexOfLastWins(pages0, other);
      var i0 :| 0 <= i0 < |pages0| && TitleOf(pages0[i0]) == Some(other) && IndexOf(pages0)[other] == pages0[i0].id;
      UpdateKeepsIndex(pages0, p, row, parent, i0);
      IndexOfInjective(p, name, other);
    } else {
      CreateGrows(pages0, p, row, parent);
    }
  }

  /** A named row's successful call leaves the page its name is indexed under carrying the row's mapped properties. */
  lemma NamedStepWritesRow(pages0: seq<Page>, p: seq<Page>, row: Row, parent: string)
    requires GrewFrom(pages0, p) && ExperimentName(row) != ""
    ensures Written(Perform(p, CallFor(row, IndexOf(pages0), parent)), ExperimentName(row), PageProperties(row))
  {
    var name := ExperimentName(row);
    var after := Perform(p, CallFor(row, IndexOf(pages0), parent));
    if name in IndexOf(pages0) {
      IndexOfLastWins(pages0, name);
      var i0 :| 0 <= i0 < |pages0| && TitleOf(pages0[i0]) == Some(name) && IndexOf(pages0)[name] == pages0[i0].id;
      UpdateKeepsIndex(pages0, p, row, parent, i0);
      assert WrittenAt(after, name, PageProperties(row), i0);
    } else {
      CreateGrows(pages0, p, row, parent);
      assert WrittenAt(after, name, PageProperties(row), |p|);
    }
  }

  /** A row last of its name, other than the last row, is last of its name among the rows before the last, and differs from the last row in name. */
  lemma LastOfNameSnoc(rows: seq<Row>, i: int)
    requires LastOfName(rows, i) && i < |rows| - 1
    ensures LastOfName(rows[..|rows| - 1], i) && rows[..|rows| - 1][i] == rows[i]
    ensures ExperimentName(rows[i]) != ExperimentName(rows[|rows| - 1])
  {
  }

  /**
   * Each row's page has the row's properties: when the pages start with
   * distinct ids and none of the run's calls raises, the page each named
   * row's name is indexed under after the run carries the mapped properties
   * of the last row with that name.
   */
  lemma {:induction false} RunWritesLastRows(pages0: seq<Page>, rows: seq<Row>, parent: string, base: nat, rejection: map<nat, string>)
    requires DistinctIds(pages0) && NoneRaise(rejection, base, NamedCount(rows))
    ensures forall i :: LastOfName(rows, i) ==>
      Written(Applied(pages0, Plan(rows, IndexOf(pages0), parent), base, rejection), ExperimentName(rows[i]), PageProperties(rows[i]))
    decreases |rows|
  {
    if rows != [] {
      var n := |rows| - 1;
      var before := Applied(pages0, Plan(rows[..n], IndexOf(pages0), parent), base, rejection);
      var after := Applied(pages0, Plan(rows, IndexOf(pages0), parent), base, rejection);
      RunSnoc(pages0, rows, IndexOf(pages0), parent, base, rejection);
      RunWritesLastRows(pages0, rows[..n], parent, base, rejection);
      RunGrowsPages(pages0, rows[..n], parent, base, rejection);
      forall i | LastOfName(rows, i)
        ensures Written(after, ExperimentName(rows[i]), PageProperties(rows[i]))
      {
        if i == n {
          NamedStepWritesRow(pages0, before, rows[n], parent);
        } else {
          LastOfNameSnoc(rows, i);
          var q :| WrittenAt(before, ExperimentName(rows[i]), PageProperties(rows[i]), q);
          if ExperimentName(rows[n]) != "" {
            NamedStepKeepsWritten(pages0, before, rows[n], parent, ExperimentName(rows[i]), PageProperties(rows[i]), q);
          }
        }
      }
    }
  }

  /** Under an index holding every named row's name, the loop issues only updates. */
  lemma {:induction false} PlanOnlyUpdates(rows: seq<Row>, index: map<string, PageId>, parent: string)
    requires AllIndexed(rows, index)
    ensures forall j :: 0 <= j < |Plan(rows, index, parent)| ==> Plan(rows, index, parent)[j].UpdatePage?
    decreases |rows|
  {
    if rows != [] {
      var n := |rows| - 1;
      forall i | 0 <= i < n && ExperimentName(rows[..n][i]) != ""
        ensures ExperimentName(rows[..n][i]) in index
      {
        PrefixOfPrefix(rows, i, n);
      }
      PlanOnlyUpdates(rows[..n], index, parent);
    }
  }

  /**
   * Re-running on the same rows creates nothing: when the first run's calls
   * all succeed from pages with distinct ids, the second run, indexing the
   * pages the first one left, issues only updates and counts no create.
   */
  lemma RerunOnlyUpdates(pages0: seq<Page>, rows: seq<Row>, parent: string, base: nat, rejection: map<nat, string>,
                         base2: nat, rejection2: map<nat, string>)
    requires DistinctIds(pages0) && NoneRaise(rejection, base, NamedCount(rows))
    ensures var index := IndexOf(Applied(pages0, Plan(rows, IndexOf(pages0), parent), base, rejection));
      && (forall j :: 0 <= j < |Plan(rows, index, parent)| ==> Plan(rows, index, parent)[j].UpdatePage?)
      && Tally(rows, index, base2, rejection2).created == 0
  {
    var index := IndexOf(Applied(pages0, Plan(rows, IndexOf(pages0), parent), base, rejection));
    RunIndexesEveryRow(pages0, rows, parent, base, rejection);
    PlanOnlyUpdates(rows, index, parent);
    NoneCountedIffAllRoutedFail(rows, index, base2, rejection2, Creating);
  }

  // ---------------------------------------------------------------------
  // Outcome

  /** How the run ends, and which errors the summary lists. */
  datatype Verdict =
    | TotalFailure(shown: seq<SyncError>)
    | PartialFailure(failed: nat, shown: seq<SyncError>)
    | Clean
  {
    function ExitCode(): nat {
      if TotalFailure? then 1 else 0
    }
  }

  /**
   * The end of `sync_to_notion`: when nothing was created or updated from a
   * non-empty CSV (skipped rows count towards its size) the run fails and
   * lists at most the first 3 errors; otherwise it succeeds, warning with at
   * most the first 5 errors when some call raised.
   */
  function Conclude(t: SyncOutcome, rowCount: nat): (v: Verdict)
    requires |t.errors| == t.errorCount
    ensures v.ExitCode() == 1 <==> t.created == 0 && t.updated == 0 && rowCount > 0
    ensures v.ExitCode() == 0 && t.errorCount > 0 ==> v.PartialFailure? && v.failed == t.errorCount
    ensures v.Clean? <==> v.ExitCode() == 0 && t.errorCount == 0
    ensures !v.Clean? ==> v.shown <= t.errors && |v.shown| <= (if v.TotalFailure? then 3 else 5)
    ensures !v.Clean? ==> |v.shown| == Min(|t.errors|, if v.TotalFailure? then 3 else 5)
  {
    if t.created == 0 && t.updated == 0 && rowCount > 0 then TotalFailure(t.errors[..Min(3, |t.errors|)])
    else if t.errorCount > 0 then PartialFailure(t.errorCount, t.errors[..Min(5, |t.errors|)])
    else Clean
  }

  /**
   * The run fails exactly when the CSV has a row and every call it issued
   * raised; in particular a CSV whose rows all have empty names fails with
   * no error listed.
   */
  lemma ExitFailsIffEveryCallFails(rows: seq<Row>, index: map<string, PageId>, base: nat, rejection: map<nat, string>)
    ensures var t := Tally(rows, index, base, rejection);
      Conclude(t, |rows|).ExitCode() == 1 <==> |rows| > 0 && AllCallsFail(rows, base, rejection)
    ensures |rows| > 0 && NamedCount(rows) == 0 ==>
      Conclude(Tally(rows, index, base, rejection), |rows|) == TotalFailure([])
  {
    NoSuccessIffAllCallsFail(rows, index, base, rejection);
  }

  /**
   * The body of the `for row` loop for a row with a non-empty name: update the
   * indexed page when the name is in the index, otherwise create a page under
   * `parent`, and count the call's outcome.
   */
  method UpsertRow(store: Store, row: Row, index: map<string, PageId>, parent: string, t: SyncOutcome)
    returns (t': SyncOutcome)
    requires ExperimentName(row) != ""
    modifies store
    ensures store.calls == old(store.calls) + [CallFor(row, index, parent)]
    ensures store.pages == AfterCall(old(store.pages), CallFor(row, index, parent), RaisedAt(store.rejection, |old(store.calls)|))
    ensures t' == Record(t, RouteOf(ExperimentName(row), index), ExperimentName(row), RaisedAt(store.rejection, |old(store.calls)|))
  {
    var experimentName := ExperimentName(row);
    var properties := PageProperties(row);
    if experimentName in index {
      var pageId := index[experimentName];
      var failure := store.Update(pageId, properties);
      match failure
      case None =>
        t' := t.(updated := t.updated + 1);
      case Some(e) =>
        t' := t.(errorCount := t.errorCount + 1, errors := t.errors + [SyncError(Updating, experimentName, e)]);
    } else {
      var failure := store.Create(parent, properties);
      match failure
      case None =>
        t' := t.(created := t.created + 1);
      case Some(e) =>
        t' := t.(errorCount := t.errorCount + 1, errors := t.errors + [SyncError(Creating, experimentName, e)]);
    }
  }

  /**
   * One iteration of the `for row` loop over `rows[i]`: skip it when its name
   * is empty, otherwise upsert it; the store and the counters move from their
   * state after `rows[..i]` to their state after `rows[..i + 1]`.
   */
  method ProcessRow(store: Store, rows: seq<Row>, i: nat, index: map<string, PageId>, parent: string,
                    t: SyncOutcome, ghost calls0: seq<Call>, ghost pages0: seq<Page>)
    returns (t': SyncOutcome)
    requires i < |rows|
    requires store.calls == calls0 + Plan(rows[..i], index, parent)
    requires store.pages == Applied(pages0, Plan(rows[..i], index, parent), |calls0|, store.rejection)
    requires t == Tally(rows[..i], index, |calls0|, store.rejection)
    modifies store
    ensures store.calls == calls0 + Plan(rows[..i + 1], index, parent)
    ensures store.pages == Applied(pages0, Plan(rows[..i + 1], index, parent), |calls0|, store.rejection)
    ensures t' == Tally(rows[..i + 1], index, |calls0|, store.rejection)
  {
    ghost var init := rows[..i];
    var row := rows[i];
    PrefixSnoc(rows, i);
    if ExperimentName(row) == "" {
      SkipSnoc(init, row, index, parent, |calls0|, store.rejection);
      return t;
    }
    ghost var before := store.pages;
    ghost var k := |store.calls|;
    assert k == |calls0| + NamedCount(init);
    t' := UpsertRow(store, row, index, parent, t);
    PlanSnoc(init, row, index, parent);
    UpsertSnoc(init, row, index, parent, |calls0|, store.rejection, pages0, k, before, store.pages, t, t');
    AppendAssoc(calls0, Plan(init, index, parent), [CallFor(row, index, parent)]);
  }

  /**
   * The `for row` loop of `sync_to_notion`: skip rows without a name, upsert
   * the others in order. The index is only read.
   */
  method UpsertRows(store: Store, rows: seq<Row>, index: map<string, PageId>, parent: string) returns (t: SyncOutcome)
    modifies store
    ensures store.calls == old(store.calls) + Plan(rows, index, parent)
    ensures store.pages == Applied(old(store.pages), Plan(rows, index, parent), |old(store.calls)|, store.rejection)
    ensures t == Tally(rows, index, |old(store.calls)|, store.rejection)
  {
    ghost var calls0 := store.calls;
    ghost var pages0 := store.pages;
    t := SyncOutcome(0, 0, 0, []);
    for i := 0 to |rows|
      invariant store.calls == calls0 + Plan(rows[..i], index, parent)
      invariant store.pages == Applied(pages0, Plan(rows[..i], index, parent), |calls0|, store.rejection)
      invariant t == Tally(rows[..i], index, |calls0|, store.rejection)
    {
      t := ProcessRow(store, rows, i, index, parent, t, calls0, pages0);
    }
    assert rows[..|rows|] == rows;
  }

  /**
   * `sync_to_notion` from start to end, the CSV already read into `rows`;
   * returns the exit code and the errors the summary lists.
   */
  method SyncToNotion(store: Store, token: Option<string>, databaseId: Option<string>, csvExists: bool, rows: seq<Row>)
    returns (exitCode: nat, shown: seq<SyncError>)
    modifies store
    ensures CheckConfig(token, databaseId, csvExists).Some? ==>
      exitCode == 1 && shown == [] && store.pages == old(store.pages) && store.calls == old(store.calls)
    ensures CheckConfig(token, databaseId, csvExists).None? ==>
      var index := IndexOf(old(store.pages));
      var plan := Plan(rows, index, databaseId.value);
      var verdict := Conclude(Tally(rows, index, |old(store.calls)|, store.rejection), |rows|);
      && store.calls == old(store.calls) + plan
      && store.pages == Applied(old(store.pages), plan, |old(store.calls)|, store.rejection)
      && exitCode == verdict.ExitCode()
      && shown == (if verdict.Clean? then [] else verdict.shown)
  {
    if CheckConfig(token, databaseId, csvExists).Some? {
      return 1, [];
    }
    var existingPages := ExistingPages(store);
    var t := UpsertRows(store, rows, existingPages, databaseId.value);
    var verdict := Conclude(t, |rows|);
    exitCode := verdict.ExitCode();
    shown := if verdict.Clean? then [] else verdict.shown;
  }
}
