/** The values the field mappers read and produce: a Jira revision, the mapping configuration,
    the exceptions the mappers can throw and the warnings they log. */
module MigrationModel {
  import opened Wrappers

  /** RevisionChangeType of an attachment action. */
  datatype ChangeType = Added | Removed

  /** An attachment action of a revision; url is the attachment's Url, which may be null. */
  datatype AttachmentAction = AttachmentAction(changeType: ChangeType, url: Option<string>)

  /** A JiraRevision as the mappers see it. fields maps a field name to the text of its value
      (value.ToString()); itemKey is ParentItem.Key, the key of the issue the revision belongs to. */
  datatype Revision = Revision(
    originId: string,
    itemType: string,
    itemKey: string,
    fields: map<string, string>,
    attachmentActions: seq<AttachmentAction>)

  /** A (Source, Target) pair of the configuration: an entry of TypeMap.Types or of a rule's
      Mapping.Values. */
  datatype SourceTarget = SourceTarget(source: string, target: string)

  /** An entry of FieldMap.Fields. forTypes and notFor are the For and NotFor strings (either may be
      null); mapping is Mapping?.Values, None when Mapping or its Values is null. */
  datatype FieldRule = FieldRule(
    source: string,
    target: string,
    forTypes: Option<string>,
    notFor: Option<string>,
    mapping: Option<seq<SourceTarget>>)

  /** The part of ConfigJson the mappers read: TypeMap.Types and FieldMap.Fields, in file order. */
  datatype Config = Config(types: seq<SourceTarget>, fields: seq<FieldRule>)

  /** The exceptions the mappers can throw. */
  datatype Fault =
    | ArgumentNull(param: string)  // ArgumentNullException
    | NullReference                // NullReferenceException
    | IndexOutOfRange              // IndexOutOfRangeException
    | DuplicateKey                 // ArgumentException of Dictionary.Add

  /** The warnings the mappers log, one constructor per message. */
  datatype Warning =
    | MissingMappingValue(value: string, field: string, itemType: string)
    | MissingRenderedMappingValue(value: string, field: string)
    | MissingStyles(originId: string)
    | DuplicateRank
    | DuplicateRankForDifferentValues

  /** The (bool, object) pair a field mapper returns, with the warnings it logged on the way:
      found is false when the source field is absent; value None is a null object. */
  datatype Mapped = Mapped(found: bool, value: Option<string>, warnings: seq<Warning>)
}
