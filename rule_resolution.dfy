/** How MapValue and MapRenderedValue pick the configuration rule for a field and apply its
    value table (FieldMapperUtils.cs, lines 57-77 and 94-113). */
module RuleResolution {
  import opened Wrappers
  import opened Strings
  import opened MigrationModel

  /** i is the position of the first entry whose source is key. */
  predicate FirstWithSource(entries: seq<SourceTarget>, key: string, i: int) {
    && 0 <= i < |entries|
    && entries[i].source == key
    && forall j | 0 <= j < i :: entries[j].source != key
  }

  /** (from e in entries where e.Source == key select e.Target).FirstOrDefault(): the target of
      the first entry for key, null when there is none. Used for the work item type lookup and for
      the value substitution tables. */
  function FirstTarget(entries: seq<SourceTarget>, key: string): (r: Option<string>)
    ensures r.None? <==> forall i | 0 <= i < |entries| :: entries[i].source != key
    ensures forall i | FirstWithSource(entries, key, i) :: r == Some(entries[i].target)
    decreases |entries|
  {
    if entries == [] then None
    else if entries[0].source == key then Some(entries[0].target)
    else
      var r := FirstTarget(entries[1..], key);
      assert forall i | FirstWithSource(entries, key, i) :: FirstWithSource(entries[1..], key, i - 1);
      r
  }

  /** receiver.Contains(argument) where either may be null. */
  function ContainsOrThrow(receiver: Option<string>, argument: Option<string>): (r: Result<bool, Fault>)
    ensures receiver.None? ==> r == Err(NullReference)
    ensures receiver.Some? && argument.None? ==> r == Err(ArgumentNull("value"))
    ensures r.Ok? <==> receiver.Some? && argument.Some?
    ensures r.Ok? ==> (r.value <==> exists i :: OccursAt(receiver.value, argument.value, i))
  {
    if receiver.Some? && argument.Some? then
      ContainsIsSubstring(receiver.value, argument.value);
      Ok(Contains(receiver.value, argument.value))
    else if receiver.None? then Err(NullReference)
    else Err(ArgumentNull("value"))
  }

  /** The condition a rule must meet to be used, evaluated with C#'s short-circuit order; Err is the
      exception its evaluation throws. targetField is Some(itemTarget) for MapValue and None for
      MapRenderedValue, which never compares the rule's target. */
  function RuleApplies(rule: FieldRule, sourceField: string, targetField: Option<string>,
                       targetWit: Option<string>): (r: Result<bool, Fault>)
    ensures rule.source != sourceField ==> r == Ok(false)
    ensures r == Ok(true) ==> rule.mapping.Some?
    ensures rule.forTypes.Some? && targetWit.Some? ==> r.Ok?
  {
    var forClause :=
      if rule.source == sourceField && (targetField.None? || rule.target == targetField.value) then
        match ContainsOrThrow(rule.forTypes, targetWit)
        case Err(e) => Err(e)
        case Ok(c) => Ok(c || rule.forTypes == Some("All"))
      else Ok(false);
    match forClause
    case Err(e) => Err(e)
    case Ok(true) => Ok(rule.mapping.Some?)
    case Ok(false) =>
      if rule.source == sourceField && !IsNullOrWhiteSpace(rule.notFor) then
        match ContainsOrThrow(rule.notFor, targetWit)
        case Err(e) => Err(e)
        case Ok(c) => Ok(!c && rule.mapping.Some?)
      else Ok(false)
  }

  /** The foreach over FieldMap.Fields: the first rule whose condition holds, None when no rule's
      does, Err when evaluating a condition throws before a rule is found. */
  function FindRule(rules: seq<FieldRule>, sourceField: string, targetField: Option<string>,
                    targetWit: Option<string>): (r: Result<Option<FieldRule>, Fault>)
    ensures r.Ok? && r.value.Some? ==>
      r.value.value in rules && RuleApplies(r.value.value, sourceField, targetField, targetWit) == Ok(true)
    decreases |rules|
  {
    if rules == [] then Ok(None)
    else
      match RuleApplies(rules[0], sourceField, targetField, targetWit)
      case Err(e) => Err(e)
      case Ok(true) => Ok(Some(rules[0]))
      case Ok(false) => FindRule(rules[1..], sourceField, targetField, targetWit)
  }

  /** The first rule whose condition does not evaluate to false decides the scan: it is used if its
      condition holds, and its exception is thrown if evaluating the condition throws. */
  lemma {:induction false} FirstDecidingRuleWins(rules: seq<FieldRule>, sourceField: string,
      targetField: Option<string>, targetWit: Option<string>, i: nat)
    requires i < |rules|
    requires forall j | 0 <= j < i :: RuleApplies(rules[j], sourceField, targetField, targetWit) == Ok(false)
    requires RuleApplies(rules[i], sourceField, targetField, targetWit) != Ok(false)
    ensures FindRule(rules, sourceField, targetField, targetWit) ==
      match RuleApplies(rules[i], sourceField, targetField, targetWit)
      case Ok(_) => Ok(Some(rules[i]))
      case Err(e) => Err(e)
    decreases i
  {
    if i > 0 {
      FirstDecidingRuleWins(rules[1..], sourceField, targetField, targetWit, i - 1);
    }
  }

  /** The scan finds no rule exactly when every rule's condition evaluates to false. */
  lemma {:induction false} NoRuleApplies(rules: seq<FieldRule>, sourceField: string,
      targetField: Option<string>, targetWit: Option<string>)
    ensures FindRule(rules, sourceField, targetField, targetWit) == Ok(None) <==>
      forall j | 0 <= j < |rules| :: RuleApplies(rules[j], sourceField, targetField, targetWit) == Ok(false)
    decreases |rules|
  {
    if rules != [] {
      NoRuleApplies(rules[1..], sourceField, targetField, targetWit);
      assert forall j | 1 <= j < |rules| :: rules[j] == rules[1..][j - 1];
    }
  }

  /** Once the scan has decided (a rule or an exception), rules after it are never examined;
      when it has not, the scan continues with the rules that follow. */
  lemma {:induction false} LaterRulesIgnored(rules: seq<FieldRule>, more: seq<FieldRule>,
      sourceField: string, targetField: Option<string>, targetWit: Option<string>)
    ensures FindRule(rules + more, sourceField, targetField, targetWit) ==
      if FindRule(rules, sourceField, targetField, targetWit) == Ok(None)
      then FindRule(more, sourceField, targetField, targetWit)
      else FindRule(rules, sourceField, targetField, targetWit)
    decreases |rules|
  {
    if rules == [] {
      assert rules + more == more;
    } else {
      assert (rules + more)[1..] == rules[1..] + more;
      LaterRulesIgnored(rules[1..], more, sourceField, targetField, targetWit);
    }
  }

  /** A rule for the field with For == "All" and a value table applies whatever the (mapped) target
      work item type, provided the type is mapped at all. */
  lemma ForAllMatchesEveryType(rule: FieldRule, sourceField: string, targetField: Option<string>, wit: string)
    requires rule.source == sourceField && (targetField.None? || rule.target == targetField.value)
    requires rule.forTypes == Some("All") && rule.mapping.Some?
    ensures RuleApplies(rule, sourceField, targetField, Some(wit)) == Ok(true)
  {
  }

  /** A rule for the field with a non-blank NotFor and a value table applies to every target work
      item type that is not a substring of NotFor, whatever the rule's For and Target say. */
  lemma NotForMatchesOtherTypes(rule: FieldRule, sourceField: string, targetField: Option<string>, wit: string)
    requires rule.source == sourceField && rule.forTypes.Some? && rule.mapping.Some?
    requires rule.notFor.Some? && !IsBlank(rule.notFor.value) && !Contains(rule.notFor.value, wit)
    ensures RuleApplies(rule, sourceField, targetField, Some(wit)) == Ok(true)
  {
  }

  /** A type named in NotFor is excluded unless the rule's own Target and For select it. */
  lemma NotForExcludesListedTypes(rule: FieldRule, sourceField: string, targetField: Option<string>, wit: string)
    requires rule.notFor.Some? && Contains(rule.notFor.value, wit)
    requires rule.forTypes.Some? && !Contains(rule.forTypes.value, wit) && rule.forTypes != Some("All")
    ensures RuleApplies(rule, sourceField, targetField, Some(wit)) == Ok(false)
  {
  }

  /** NotFor is tested with string.Contains, so a rule with NotFor "Bug" excludes "Bug" and also
      every substring of it, such as "Bu". */
  lemma NotForIsSubstringTest(rule: FieldRule)
    requires rule == FieldRule("priority", "Priority", Some(""), Some("Bug"), Some([]))
    ensures RuleApplies(rule, "priority", None, Some("Bug")) == Ok(false)
    ensures RuleApplies(rule, "priority", None, Some("Bu")) == Ok(false)
    ensures RuleApplies(rule, "priority", None, Some("Task")) == Ok(true)
  {
    assert "Bug"[1..][1..] == "g";
    assert !IsWhiteSpace("Bug"[0]);
    assert !Contains("Bug", "Task");
    assert !Contains("", "Task");
  }

  /** Without a mapped target work item type, the first condition that reaches a Contains call
      throws ArgumentNullException. */
  lemma UnmappedTypeThrows(rule: FieldRule, sourceField: string, targetField: Option<string>)
    requires rule.source == sourceField && (targetField.None? || rule.target == targetField.value)
    requires rule.forTypes.Some?
    ensures RuleApplies(rule, sourceField, targetField, None) == Err(ArgumentNull("value"))
  {
  }

  /** MapRenderedValue's condition does not depend on the rule's Target. */
  lemma RenderedConditionIgnoresTarget(rule: FieldRule, sourceField: string, targetWit: Option<string>, otherTarget: string)
    ensures RuleApplies(rule, sourceField, None, targetWit) ==
            RuleApplies(rule.(target := otherTarget), sourceField, None, targetWit)
  {
  }

  /** The winning rule's table applied to the value's text: found, with the first matching target
      (null when the table has none), and one warning when that target is null or empty. */
  function Substitute(values: seq<SourceTarget>, text: string, warning: Warning): (m: Mapped)
    ensures m.found
    ensures m.value.None? <==> forall i | 0 <= i < |values| :: values[i].source != text
    ensures forall i | FirstWithSource(values, text, i) :: m.value == Some(values[i].target)
    ensures m.warnings == if m.value.None? || m.value.value == "" then [warning] else []
  {
    var mappedValue := FirstTarget(values, text);
    Mapped(true, mappedValue, if IsNullOrEmpty(mappedValue) then [warning] else [])
  }
}
