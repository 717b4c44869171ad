/** FieldMapperUtils: the mappers that turn a Jira revision's field values into Azure DevOps field
    values (src/WorkItemMigrator/JiraExport/RevisionUtils/FieldMapperUtils.cs). */
module FieldMapperUtils {
  import opened Wrappers
  import opened Strings
  import opened MigrationModel
  import opened RuleResolution

  /** MapTitle: "[<key>] <summary>" when the revision has a summary. */
  function MapTitle(r: Revision): (m: Mapped)
    ensures m.found <==> "summary" in r.fields
    ensures m.found ==> m.value == Some("[" + r.itemKey + "] " + r.fields["summary"])
    ensures !m.found ==> m.value == None
    ensures m.warnings == []
  {
    if "summary" in r.fields then Mapped(true, Some("[" + r.itemKey + "] " + r.fields["summary"]), [])
    else Mapped(false, None, [])
  }

  /** MapTitleWithoutKey: the summary itself when the revision has one. */
  function MapTitleWithoutKey(r: Revision): (m: Mapped)
    ensures m.found <==> "summary" in r.fields
    ensures m.found ==> m.value == Some(r.fields["summary"])
    ensures !m.found ==> m.value == None
    ensures m.warnings == []
  {
    if "summary" in r.fields then Mapped(true, Some(r.fields["summary"]), [])
    else Mapped(false, None, [])
  }

  /** MapValue: the revision's value of itemSource, substituted by the first applicable rule's
      table; Err is the exception a rule's condition throws. */
  function MapValue(r: Revision, itemSource: string, itemTarget: string, config: Config): (res: Result<Mapped, Fault>)
    ensures itemSource !in r.fields ==> res == Ok(Mapped(false, None, []))
    ensures itemSource in r.fields && res.Ok? ==> res.value.found
  {
    var targetWit := FirstTarget(config.types, r.itemType);
    if itemSource !in r.fields then Ok(Mapped(false, None, []))
    else
      var value := r.fields[itemSource];
      match FindRule(config.fields, itemSource, Some(itemTarget), targetWit)
      case Err(e) => Err(e)
      case Ok(None) => Ok(Mapped(true, Some(value), []))
      case Ok(Some(rule)) =>
        Ok(Substitute(rule.mapping.value, value, MissingMappingValue(value, itemSource, r.itemType)))
  }

  /** When the first rule whose condition does not evaluate to false applies, MapValue returns the
      target of the first entry of its table for the value's text (null if none, with one warning
      when that target is null or empty), whatever the later rules say. */
  lemma MapValueUsesFirstApplicableRule(r: Revision, itemSource: string, itemTarget: string, config: Config, i: nat)
    requires itemSource in r.fields
    requires i < |config.fields|
    requires forall j | 0 <= j < i ::
      RuleApplies(config.fields[j], itemSource, Some(itemTarget), FirstTarget(config.types, r.itemType)) == Ok(false)
    requires RuleApplies(config.fields[i], itemSource, Some(itemTarget), FirstTarget(config.types, r.itemType)) == Ok(true)
    ensures config.fields[i].mapping.Some?
    ensures var value := r.fields[itemSource];
      var table := config.fields[i].mapping.value;
      && MapValue(r, itemSource, itemTarget, config).Ok?
      && MapValue(r, itemSource, itemTarget, config).value.found
      && MapValue(r, itemSource, itemTarget, config).value.value == FirstTarget(table, value)
      && MapValue(r, itemSource, itemTarget, config).value.warnings ==
           if IsNullOrEmpty(FirstTarget(table, value)) then [MissingMappingValue(value, itemSource, r.itemType)] else []
  {
    FirstDecidingRuleWins(config.fields, itemSource, Some(itemTarget), FirstTarget(config.types, r.itemType), i);
  }

  /** When the first rule whose condition does not evaluate to false throws, MapValue throws the
      same exception, whatever the later rules say. */
  lemma MapValueThrowsFirstFault(r: Revision, itemSource: string, itemTarget: string, config: Config, i: nat, e: Fault)
    requires itemSource in r.fields
    requires i < |config.fields|
    requires forall j | 0 <= j < i ::
      RuleApplies(config.fields[j], itemSource, Some(itemTarget), FirstTarget(config.types, r.itemType)) == Ok(false)
    requires RuleApplies(config.fields[i], itemSource, Some(itemTarget), FirstTarget(config.types, r.itemType)) == Err(e)
    ensures MapValue(r, itemSource, itemTarget, config) == Err(e)
  {
    FirstDecidingRuleWins(config.fields, itemSource, Some(itemTarget), FirstTarget(config.types, r.itemType), i);
  }

  /** When no rule's condition holds, MapValue returns the revision's value unchanged. */
  lemma MapValueWithoutRuleIsIdentity(r: Revision, itemSource: string, itemTarget: string, config: Config)
    requires itemSource in r.fields
    requires forall j | 0 <= j < |config.fields| ::
      RuleApplies(config.fields[j], itemSource, Some(itemTarget), FirstTarget(config.types, r.itemType)) == Ok(false)
    ensures MapValue(r, itemSource, itemTarget, config) == Ok(Mapped(true, Some(r.fields[itemSource]), []))
  {
    NoRuleApplies(config.fields, itemSource, Some(itemTarget), FirstTarget(config.types, r.itemType));
  }

  /** SetCustomFieldName: the custom field's name replaces the source field's name when the field
      is a custom one. */
  function SetCustomFieldName(sourceField: string, isCustomField: bool, customFieldName: string): (name: string)
    ensures isCustomField ==> name == customFieldName
    ensures !isCustomField ==> name == sourceField
  {
    if isCustomField then customFieldName else sourceField
  }

  /** The field MapRenderedValue reads: the (custom) field name with the "$Rendered" suffix. */
  function RenderedFieldName(sourceField: string, isCustomField: bool, customFieldName: string): (name: string)
    ensures isCustomField ==> name == customFieldName + "$Rendered"
    ensures !isCustomField ==> name == sourceField + "$Rendered"
  {
    SetCustomFieldName(sourceField, isCustomField, customFieldName) + "$Rendered"
  }

  /** The style block CorrectRenderedHtmlvalue puts in front of the markup: empty when the style
      sheet is blank. */
  function StyleBlock(css: string): string {
    if IsBlank(css) then "" else "<style>" + css + "</style>"
  }

  /** CorrectRenderedHtmlvalue. replaceHtmlElements stands for RevisionUtility.ReplaceHtmlElements
      and css for the embedded jirastyles.css resource (empty when it cannot be read). */
  method CorrectRenderedHtmlvalue(value: Option<string>, revision: Revision,
                                  replaceHtmlElements: string -> string, css: string)
    returns (r: Result<string, Fault>, warnings: seq<Warning>)
    ensures value.None? ==> r == Err(ArgumentNull("value")) && warnings == []
    ensures value.Some? && IsBlank(value.value) ==> r == Ok(value.value) && warnings == []
    ensures value.Some? && !IsBlank(value.value) ==>
      && r == Ok(StyleBlock(css) + replaceHtmlElements(value.value))
      && warnings == if IsBlank(css) then [MissingStyles(revision.originId)] else []
  {
    if value.None? {
      return Err(ArgumentNull("value")), [];
    }
    var htmlValue := value.value;
    if IsBlank(htmlValue) {
      return Ok(htmlValue), [];
    }
    var actions := revision.attachmentActions;
    var i := 0;
    while i < |actions|
      invariant 0 <= i <= |actions|
      invariant htmlValue == value.value
    {
      var url := actions[i].url;
      if actions[i].changeType == Added && !IsNullOrWhiteSpace(url) && Contains(htmlValue, url.value) {
        ReplaceBySelf(htmlValue, url.value);
        htmlValue := Replace(htmlValue, url.value, url.value);
      }
      i := i + 1;
    }
    htmlValue := replaceHtmlElements(htmlValue);
    if IsBlank(css) {
      assert StyleBlock(css) + htmlValue == htmlValue;
      warnings := [MissingStyles(revision.originId)];
    } else {
      warnings := [];
      htmlValue := "<style>" + css + "</style>" + htmlValue;
    }
    r := Ok(htmlValue);
  }

  /** MapRenderedValue: the "$Rendered" variant of the field, substituted by the first rule whose
      Source is that name and whose For or NotFor admits the target work item type (the rule's
      Target is never compared), or otherwise passed through CorrectRenderedHtmlvalue. */
  method MapRenderedValue(r: Revision, sourceField: string, isCustomField: bool, customFieldName: string,
                          config: Config, replaceHtmlElements: string -> string, css: string)
    returns (res: Result<Mapped, Fault>)
    ensures var fieldName := RenderedFieldName(sourceField, isCustomField, customFieldName);
      fieldName !in r.fields ==> res == Ok(Mapped(false, None, []))
    ensures var fieldName := RenderedFieldName(sourceField, isCustomField, customFieldName);
      fieldName in r.fields ==>
        var value := r.fields[fieldName];
        match FindRule(config.fields, fieldName, None, FirstTarget(config.types, r.itemType))
        case Err(e) => res == Err(e)
        case Ok(Some(rule)) =>
          res == Ok(Substitute(rule.mapping.value, value, MissingRenderedMappingValue(value, fieldName)))
        case Ok(None) =>
          && res.Ok? && res.value.found
          && res.value.value == Some(if IsBlank(value) then value else StyleBlock(css) + replaceHtmlElements(value))
          && res.value.warnings == if !IsBlank(value) && IsBlank(css) then [MissingStyles(r.originId)] else []
  {
    var fieldName := RenderedFieldName(sourceField, isCustomField, customFieldName);
    var targetWit := FirstTarget(config.types, r.itemType);
    if fieldName !in r.fields {
      return Ok(Mapped(false, None, []));
    }
    var value := r.fields[fieldName];
    var rule := FindRule(config.fields, fieldName, None, targetWit);
    match rule
    case Err(e) => res := Err(e);
    case Ok(Some(rule)) =>
      res := Ok(Substitute(rule.mapping.value, value, MissingRenderedMappingValue(value, fieldName)));
    case Ok(None) =>
      var html, warnings := CorrectRenderedHtmlvalue(Some(value), r, replaceHtmlElements, css);
      res := Ok(Mapped(true, Some(html.value), warnings));
  }

  /** MapTags: the labels with every ' ' replaced by ';' (empty segments kept), "" for blank input. */
  function MapTags(labels: Option<string>): (r: Result<string, Fault>)
    ensures labels.None? ==> r == Err(ArgumentNull("labels"))
    ensures labels.Some? && IsBlank(labels.value) ==> r == Ok("")
    ensures labels.Some? && !IsBlank(labels.value) ==> r == Ok(ReplaceChar(labels.value, ' ', ';'))
  {
    if labels.None? then Err(ArgumentNull("labels"))
    else if IsNullOrWhiteSpace(labels) then Ok("")
    else
      var tags := Split(labels.value, ' ');
      if |tags| == 0 then Ok("")
      else
        JoinSplit(labels.value, ' ', ';');
        Ok(Join(";", tags))
  }

  /** MapArray: the text with every ',' replaced by ';', null for blank input. */
  function MapArray(field: Option<string>): (r: Result<Option<string>, Fault>)
    ensures field.None? ==> r == Err(ArgumentNull("field"))
    ensures field.Some? && IsBlank(field.value) ==> r == Ok(None)
    ensures field.Some? && !IsBlank(field.value) ==> r == Ok(Some(ReplaceChar(field.value, ',', ';')))
  {
    if field.None? then Err(ArgumentNull("field"))
    else if IsNullOrWhiteSpace(field) then Ok(None)
    else
      var values := Split(field.value, ',');
      if |values| == 0 then Ok(None)
      else
        JoinSplit(field.value, ',', ';');
        Ok(Some(Join(";", values)))
  }

  /** k is where the text after the last sep of s begins (0 when s has no sep). */
  predicate StartsLastSegment(s: string, sep: char, k: int) {
    && 0 <= k <= |s|
    && (k == 0 || s[k - 1] == sep)
    && sep !in s[k..]
  }

  /** s.Split(sep).Last() */
  function LastSegmentOf(s: string, sep: char): string {
    var parts := Split(s, sep);
    parts[|parts| - 1]
  }

  /** MapSprint: null for null or blank input, otherwise the trimmed text after the last ','. */
  function MapSprint(iterationPathsString: Option<string>): (r: Option<string>)
    ensures r.None? <==> IsNullOrWhiteSpace(iterationPathsString)
    ensures r.Some? ==> ',' !in r.value
    ensures r.Some? ==> exists k :: StartsLastSegment(iterationPathsString.value, ',', k)
                                    && r.value == Trim(iterationPathsString.value[k..])
  {
    if IsNullOrWhiteSpace(iterationPathsString) then None
    else
      var s := iterationPathsString.value;
      SprintSegment(s);
      Some(Trim(LastSegmentOf(s, ',')))
  }

  /** The trimmed last segment holds no ',' and is the trimmed text after the last ','. */
  lemma SprintSegment(s: string)
    ensures ',' !in Trim(LastSegmentOf(s, ','))
    ensures exists k :: StartsLastSegment(s, ',', k) && Trim(LastSegmentOf(s, ',')) == Trim(s[k..])
  {
    var last := LastSegmentOf(s, ',');
    LastSegmentStarts(s, ',');
    TrimKeepsCharactersOut(last, ',');
    var k := |s| - |last|;
    assert StartsLastSegment(s, ',', k) && Trim(last) == Trim(s[k..]);
  }

  /** The last segment has no separator and is the text from its start to the end. */
  lemma LastSegmentStarts(s: string, sep: char)
    ensures var last := LastSegmentOf(s, sep);
      && sep !in last
      && |last| <= |s| && last == s[|s| - |last|..]
      && StartsLastSegment(s, sep, |s| - |last|)
  {
    LastSegment(s, sep);
  }
}
