/**
 * The validation script: check that the configuration is present, then that
 * the database's schema has the properties the sync writes, each of the right
 * type, and that its Station select offers the two station options; every
 * problem found is one issue, in a fixed order.
 */
module NotionValidation {
  import opened Wrappers

  // ---------------------------------------------------------------------
  // Configuration

  /**
   * What `validate_config` concludes: the first missing setting, or the
   * token as it is shown (masked) and the database id.
   */
  datatype ConfigCheck =
    | TokenMissing
    | DatabaseIdMissing
    | Found(shownToken: string, databaseId: string)

  /** How the token is shown: its first 10 characters and "..." when it is longer than 10, otherwise in full. */
  function MaskToken(token: string): (shown: string)
    ensures |token| <= 10 ==> shown == token
    ensures |token| > 10 ==> |shown| == 13 && shown[..10] == token[..10] && shown[10..] == "..."
  {
    if |token| > 10 then token[..10] + "..." else token
  }

  /**
   * `validate_config`: the token is checked first and then the database id, an
   * absent or empty one failing; when both are there the token is shown masked.
   */
  function ValidateConfig(token: Option<string>, databaseId: Option<string>): (r: ConfigCheck)
    ensures r.Found? <==> Truthy(token) && Truthy(databaseId)
    ensures r.TokenMissing? <==> !Truthy(token)
    ensures r.DatabaseIdMissing? <==> Truthy(token) && !Truthy(databaseId)
    ensures r.Found? ==> r.shownToken == MaskToken(token.value) && r.databaseId == databaseId.value
  {
    if !Truthy(token) then TokenMissing
    else if !Truthy(databaseId) then DatabaseIdMissing
    else Found(MaskToken(token.value), databaseId.value)
  }

  // ---------------------------------------------------------------------
  // Schema

  /**
   * One property of the database as `databases.retrieve` describes it: its
   * `type`, absent when the description has none, and the `name` of each
   * option of its `select` configuration (an absent configuration or option
   * list giving no options).
   */
  datatype PropertySchema = PropertySchema(kind: Option<string>, options: seq<Option<string>>)

  type Schema = map<string, PropertySchema>

  /** The retrieved database; its `properties` may be absent. */
  datatype Database = Database(properties: Option<Schema>)

  /** `database.get("properties", {})`. */
  function SchemaOf(db: Database): Schema {
    if db.properties.Some? then db.properties.value else map[]
  }

  /** Each required property and its expected type, in the order they are checked. */
  const RequiredProperties: seq<(string, string)> := [
    ("Name", "title"),
    ("Station", "select"),
    ("Discipline", "rich_text"),
    ("Country/Institution", "rich_text"),
    ("Timeline Status", "rich_text"),
    ("Objectives", "rich_text"),
    ("Expected Outcomes", "rich_text"),
    ("Principal Investigator", "rich_text"),
    ("Mission Module", "rich_text")
  ]

  /** The options the Station select must offer, in the order they are checked. */
  const RequiredStationOptions: seq<string> := ["Tiangong", "ISS"]

  /**
   * The two tables are well formed: no required property is listed twice, as
   * the keys of a dictionary, and the two required options differ.
   */
  lemma RequiredTablesDistinct()
    ensures forall i, j :: 0 <= i < j < |RequiredProperties| ==> RequiredProperties[i].0 != RequiredProperties[j].0
    ensures forall i, j :: 0 <= i < j < |RequiredStationOptions| ==> RequiredStationOptions[i] != RequiredStationOptions[j]
  {
  }

  /** One problem with the database. */
  datatype Issue =
    | MissingProperty(name: string)
    | WrongType(name: string, expected: string, actual: Option<string>)
    | MissingOption(option: string)
    | RetrievalFailed(reason: string)

  /** The issue a required property has: it is missing, or its type is not the expected one. */
  function PropertyIssue(schema: Schema, name: string, expected: string): Option<Issue> {
    if name !in schema then Some(MissingProperty(name))
    else if schema[name].kind != Some(expected) then Some(WrongType(name, expected, schema[name].kind))
    else None
  }

  /**
   * The issues of the required properties, in their order: at most one each,
   * and every one of them about a property, not an option.
   */
  function PropertyIssues(schema: Schema, required: seq<(string, string)>): (issues: seq<Issue>)
    ensures |issues| <= |required|
    ensures forall j :: 0 <= j < |issues| ==> issues[j].MissingProperty? || issues[j].WrongType?
    decreases |required|
  {
    if required == [] then []
    else
      var init := PropertyIssues(schema, required[..|required| - 1]);
      var last := required[|required| - 1];
      match PropertyIssue(schema, last.0, last.1)
      case Some(issue) => init + [issue]
      case None => init
  }

  /**
   * One issue per required option absent from the option names, in the order
   * of `required`; every one of them about an option.
   */
  function OptionIssues(names: seq<Option<string>>, required: seq<string>): (issues: seq<Issue>)
    ensures |issues| <= |required|
    ensures forall j :: 0 <= j < |issues| ==> issues[j].MissingOption?
    decreases |required|
  {
    if required == [] then []
    else
      var init := OptionIssues(names, required[..|required| - 1]);
      var option := required[|required| - 1];
      if Some(option) !in names then init + [MissingOption(option)] else init
  }

  /** Whether the options of Station are checked: it exists and is a select. */
  predicate StationIsSelect(schema: Schema) {
    "Station" in schema && schema["Station"].kind == Some("select")
  }

  function StationIssues(schema: Schema): seq<Issue> {
    if StationIsSelect(schema) then OptionIssues(schema["Station"].options, RequiredStationOptions) else []
  }

  /**
   * Every issue `check_database_properties` finds in a retrieved schema: the
   * property issues first, then the Station option issues; at most 9 + 2.
   */
  function SchemaIssues(schema: Schema): (issues: seq<Issue>)
    ensures |issues| <= |RequiredProperties| + |RequiredStationOptions|
  {
    PropertyIssues(schema, RequiredProperties) + StationIssues(schema)
  }

  // ---------------------------------------------------------------------
  // Properties of the issue list

  /** The issues of a concatenation of requirement lists: those of the first list come first. */
  lemma {:induction false} PropertyIssuesAppend(schema: Schema, a: seq<(string, string)>, b: seq<(string, string)>)
    ensures PropertyIssues(schema, a + b) == PropertyIssues(schema, a) + PropertyIssues(schema, b)
    decreases |b|
  {
    if b == [] {
      assert a + b == a;
    } else {
      var ab := a + b;
      var binit := b[..|b| - 1];
      assert ab[..|ab| - 1] == a + binit;
      assert ab[|ab| - 1] == b[|b| - 1];
      PropertyIssuesAppend(schema, a, binit);
    }
  }

  /**
   * Each required property contributes its own issue, or none, at its place
   * in the list: after the issues of the properties before it and before
   * those of the properties after it.
   */
  lemma PropertyIssuesOneEach(schema: Schema, a: seq<(string, string)>, r: (string, string), b: seq<(string, string)>)
    ensures PropertyIssues(schema, a + [r] + b) ==
      PropertyIssues(schema, a) +
      (match PropertyIssue(schema, r.0, r.1) case Some(issue) => [issue] case None => []) +
      PropertyIssues(schema, b)
  {
    PropertyIssuesAppend(schema, a + [r], b);
    PropertyIssuesAppend(schema, a, [r]);
    assert [r][..0] == [];
  }

  /** The issue of required property `k`, when it has one, is in the list. */
  lemma {:induction false} PropertyIssueListed(schema: Schema, required: seq<(string, string)>, k: nat)
    requires k < |required| && PropertyIssue(schema, required[k].0, required[k].1).Some?
    ensures PropertyIssue(schema, required[k].0, required[k].1).value in PropertyIssues(schema, required)
    decreases |required|
  {
    var n := |required| - 1;
    var init := required[..n];
    var last := required[n];
    var shorter := PropertyIssues(schema, init);
    var lastIssue := PropertyIssue(schema, last.0, last.1);
    if lastIssue.Some? {
      assert PropertyIssues(schema, required) == shorter + [lastIssue.value];
    } else {
      assert PropertyIssues(schema, required) == shorter;
    }
    if k < n {
      assert init[k] == required[k];
      PropertyIssueListed(schema, init, k);
    }
  }

  /** Issue `issue` is the one of required property `k`. */
  ghost predicate IssueOf(schema: Schema, required: seq<(string, string)>, issue: Issue, k: int) {
    0 <= k < |required| && PropertyIssue(schema, required[k].0, required[k].1) == Some(issue)
  }

  /** Every listed issue is the issue of some required property. */
  lemma {:induction false} ListedIssueIsOfProperty(schema: Schema, required: seq<(string, string)>, issue: Issue)
    requires issue in PropertyIssues(schema, required)
    ensures exists k :: IssueOf(schema, required, issue, k)
    decreases |required|
  {
    var n := |required| - 1;
    var init := required[..n];
    var last := required[n];
    var shorter := PropertyIssues(schema, init);
    if issue in shorter {
      ListedIssueIsOfProperty(schema, init, issue);
      var k :| IssueOf(schema, init, issue, k);
      assert init[k] == required[k];
      assert IssueOf(schema, required, issue, k);
    } else {
      assert IssueOf(schema, required, issue, n);
    }
  }

  /** A property is reported missing exactly when it is required and absent from the schema. */
  lemma MissingPropertyListed(schema: Schema, name: string)
    ensures MissingProperty(name) in SchemaIssues(schema) <==>
      (exists k :: 0 <= k < |RequiredProperties| && RequiredProperties[k].0 == name) && name !in schema
  {
    var issues := PropertyIssues(schema, RequiredProperties);
    if MissingProperty(name) in SchemaIssues(schema) {
      OptionIssuesAreOptions(schema, MissingProperty(name));
      ListedIssueIsOfProperty(schema, RequiredProperties, MissingProperty(name));
      var k :| IssueOf(schema, RequiredProperties, MissingProperty(name), k);
      assert RequiredProperties[k].0 == name;
    }
    if exists k :: 0 <= k < |RequiredProperties| && RequiredProperties[k].0 == name {
      var k :| 0 <= k < |RequiredProperties| && RequiredProperties[k].0 == name;
      if name !in schema {
        PropertyIssueListed(schema, RequiredProperties, k);
      }
    }
  }

  /**
   * A property is reported with a wrong type exactly when it is required with
   * that expected type, present, and of another type, which the issue names.
   */
  lemma WrongTypeListed(schema: Schema, name: string, expected: string, actual: Option<string>)
    ensures WrongType(name, expected, actual) in SchemaIssues(schema) <==>
      && (exists k :: 0 <= k < |RequiredProperties| && RequiredProperties[k] == (name, expected))
      && name in schema && schema[name].kind == actual && actual != Some(expected)
  {
    var issue := WrongType(name, expected, actual);
    if issue in SchemaIssues(schema) {
      OptionIssuesAreOptions(schema, issue);
      ListedIssueIsOfProperty(schema, RequiredProperties, issue);
      var k :| IssueOf(schema, RequiredProperties, issue, k);
      assert RequiredProperties[k] == (name, expected);
    }
    if exists k :: 0 <= k < |RequiredProperties| && RequiredProperties[k] == (name, expected) {
      var k :| 0 <= k < |RequiredProperties| && RequiredProperties[k] == (name, expected);
      if name in schema && schema[name].kind == actual && actual != Some(expected) {
        PropertyIssueListed(schema, RequiredProperties, k);
      }
    }
  }

  /** An issue found among the whole list that is not about an option is a property issue. */
  lemma OptionIssuesAreOptions(schema: Schema, issue: Issue)
    requires issue in SchemaIssues(schema) && !issue.MissingOption?
    ensures issue in PropertyIssues(schema, RequiredProperties)
  {
  }

  /** An option is reported missing exactly when it is required and not among the option names. */
  lemma {:induction false} OptionIssuesListed(names: seq<Option<string>>, required: seq<string>, option: string)
    ensures MissingOption(option) in OptionIssues(names, required) <==> option in required && Some(option) !in names
    decreases |required|
  {
    if required != [] {
      var n := |required| - 1;
      var init := required[..n];
      OptionIssuesListed(names, init, option);
      assert required == init + [required[n]];
    }
  }

  /**
   * Station's options are checked only when Station exists and is a select;
   * then Tiangong, if absent, is reported before ISS, if absent.
   */
  lemma StationIssuesInOrder(schema: Schema)
    ensures !StationIsSelect(schema) ==> StationIssues(schema) == []
    ensures StationIsSelect(schema) ==>
      var names := schema["Station"].options;
      StationIssues(schema) ==
        (if Some("Tiangong") !in names then [MissingOption("Tiangong")] else []) +
        (if Some("ISS") !in names then [MissingOption("ISS")] else [])
  {
  }

  /**
   * The issue list is the property issues followed by the option issues:
   * no option issue comes before a property issue.
   */
  lemma PropertyIssuesBeforeOptionIssues(schema: Schema, a: nat, b: nat)
    requires a < b < |SchemaIssues(schema)|
    requires SchemaIssues(schema)[a].MissingOption?
    ensures SchemaIssues(schema)[b].MissingOption?
  {
  }

  /**
   * A schema conforms when every required property is present with its
   * expected type and Station offers every required option.
   */
  ghost predicate Conformant(schema: Schema) {
    && (forall k :: 0 <= k < |RequiredProperties| ==>
          RequiredProperties[k].0 in schema && schema[RequiredProperties[k].0].kind == Some(RequiredProperties[k].1))
    && "Station" in schema
    && (forall option :: option in RequiredStationOptions ==> Some(option) in schema["Station"].options)
  }

  /** No property issue is listed exactly when every required property is present with its type. */
  lemma {:induction false} NoPropertyIssues(schema: Schema, required: seq<(string, string)>)
    ensures PropertyIssues(schema, required) == [] <==>
      forall k :: 0 <= k < |required| ==> PropertyIssue(schema, required[k].0, required[k].1).None?
  {
    if PropertyIssues(schema, required) == [] {
      forall k | 0 <= k < |required|
        ensures PropertyIssue(schema, required[k].0, required[k].1).None?
      {
        if PropertyIssue(schema, required[k].0, required[k].1).Some? {
          PropertyIssueListed(schema, required, k);
        }
      }
    } else {
      var issue := PropertyIssues(schema, required)[0];
      ListedIssueIsOfProperty(schema, required, issue);
    }
  }

  /** The schema has no issue exactly when it conforms. */
  lemma NoIssuesIffConformant(schema: Schema)
    ensures SchemaIssues(schema) == [] <==> Conformant(schema)
  {
    NoPropertyIssues(schema, RequiredProperties);
    assert RequiredProperties[1] == ("Station", "select");
    if "Station" in schema {
      var names := schema["Station"].options;
      OptionIssuesListed(names, RequiredStationOptions, "Tiangong");
      OptionIssuesListed(names, RequiredStationOptions, "ISS");
      var optionIssues := OptionIssues(names, RequiredStationOptions);
      if optionIssues != [] {
        assert optionIssues[0].MissingOption?;
        OptionIssuesListed(names, RequiredStationOptions, optionIssues[0].option);
      }
    }
  }

  // ---------------------------------------------------------------------
  // The checks

  /**
   * `check_database_properties`: a database that could not be retrieved
   * gives failure and a single issue; otherwise the required properties are
   * checked in order, then the Station options when Station is a select, and
   * the check succeeds exactly when no issue was found.
   */
  method CheckDatabaseProperties(retrieved: Result<Database>) returns (ok: bool, issues: seq<Issue>)
    ensures retrieved.Err? ==> !ok && issues == [RetrievalFailed(retrieved.error)]
    ensures retrieved.Ok? ==> issues == SchemaIssues(SchemaOf(retrieved.value)) && (ok <==> issues == [])
  {
    if retrieved.Err? {
      return false, [RetrievalFailed(retrieved.error)];
    }
    var properties := SchemaOf(retrieved.value);
    issues := [];
    for k := 0 to |RequiredProperties|
      invariant issues == PropertyIssues(properties, RequiredProperties[..k])
    {
      var (propName, expectedType) := RequiredProperties[k];
      assert RequiredProperties[..k + 1][..k] == RequiredProperties[..k];
      if propName !in properties {
        issues := issues + [MissingProperty(propName)];
      } else {
        var actualType := properties[propName].kind;
        if actualType != Some(expectedType) {
          issues := issues + [WrongType(propName, expectedType, actualType)];
        }
      }
    }
    assert RequiredProperties[..|RequiredProperties|] == RequiredProperties;
    ghost var propertyIssues := issues;
    if "Station" in properties && properties["Station"].kind == Some("select") {
      var optionNames := properties["Station"].options;
      for j := 0 to |RequiredStationOptions|
        invariant issues == propertyIssues + OptionIssues(optionNames, RequiredStationOptions[..j])
      {
        var requiredOption := RequiredStationOptions[j];
        assert RequiredStationOptions[..j + 1][..j] == RequiredStationOptions[..j];
        if Some(requiredOption) !in optionNames {
          issues := issues + [MissingOption(requiredOption)];
        }
      }
      assert RequiredStationOptions[..|RequiredStationOptions|] == RequiredStationOptions;
    }
    ok := |issues| == 0;
  }

  /**
   * `validate_database`: exit code 1 when the configuration is incomplete,
   * when the access probe failed, or when the property check found an issue;
   * 0 when the database is ready for the sync. The outcome of the access probe
   * and of the retrieval are given.
   */
  method ValidateDatabase(token: Option<string>, databaseId: Option<string>, accessible: bool, retrieved: Result<Database>)
    returns (exitCode: nat, issues: seq<Issue>)
    ensures exitCode == 0 <==>
      ValidateConfig(token, databaseId).Found? && accessible && retrieved.Ok? && SchemaIssues(SchemaOf(retrieved.value)) == []
    ensures exitCode == 0 || exitCode == 1
    ensures ValidateConfig(token, databaseId).Found? && accessible && retrieved.Ok? ==>
      issues == SchemaIssues(SchemaOf(retrieved.value))
    ensures ValidateConfig(token, databaseId).Found? && accessible && retrieved.Err? ==>
      issues == [RetrievalFailed(retrieved.error)]
  {
    if !ValidateConfig(token, databaseId).Found? {
      return 1, [];
    }
    if !accessible {
      return 1, [];
    }
    var ok;
    ok, issues := CheckDatabaseProperties(retrieved);
    exitCode := if ok then 0 else 1;
  }
}
