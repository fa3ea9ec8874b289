/**
 * What the two scripts agree on: the properties the sync writes are the ones
 * the validator requires, with the types it requires, and both scripts check
 * the token and the database id in the same order.
 */
module SchemaAgreement {
  import opened Wrappers
  import opened NotionStore
  import NotionSync
  import NotionValidation

  /** The mapper's table lists the validator's required properties in the same order, with the same types. */
  lemma TablesAgree()
    ensures |NotionSync.MappedProperties| == |NotionValidation.RequiredProperties|
    ensures forall k :: 0 <= k < |NotionSync.MappedProperties| ==>
      NotionSync.MappedProperties[k].0 == NotionValidation.RequiredProperties[k].0 &&
      NotionSync.MappedProperties[k].2 == NotionValidation.RequiredProperties[k].1
  {
  }

  /** Every page the sync writes carries each required property, with the type the validator expects. */
  lemma MappedPageHasRequiredProperties(row: NotionSync.Row)
    ensures forall k :: 0 <= k < |NotionValidation.RequiredProperties| ==>
      var (name, expected) := NotionValidation.RequiredProperties[k];
      name in NotionSync.PageProperties(row) && NotionSync.PageProperties(row)[name].Kind() == expected
  {
    NotionSync.PagePropertiesKinds(row);
    TablesAgree();
  }

  /**
   * The validator accepts a configuration exactly when the sync does (its CSV
   * file being there), and both report the token before the database id.
   */
  lemma ConfigChecksAgree(token: Option<string>, databaseId: Option<string>)
    ensures NotionValidation.ValidateConfig(token, databaseId).Found? <==> NotionSync.CheckConfig(token, databaseId, true).None?
    ensures NotionValidation.ValidateConfig(token, databaseId).TokenMissing? <==>
      NotionSync.CheckConfig(token, databaseId, true) == Some(NotionSync.MissingToken)
    ensures NotionValidation.ValidateConfig(token, databaseId).DatabaseIdMissing? <==>
      NotionSync.CheckConfig(token, databaseId, true) == Some(NotionSync.MissingDatabaseId)
  {
  }
}
