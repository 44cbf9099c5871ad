/** One applied criterion of a custom filter (`CriterionInstance.kt`): which
    catalog criterion, how it combines with the criteria before it, which
    value the user picked, and the match-count bookkeeping shown beside it. */
module Criteria {
  import opened Base
  import opened Strings

  /** The four combination codes. */
  const TYPE_ADD: int := 0
  const TYPE_SUBTRACT: int := 1
  const TYPE_INTERSECT: int := 2
  const TYPE_UNIVERSE: int := 3

  /** The placeholder a criterion's text and SQL template carry. */
  const PLACEHOLDER: char := '?'

  /** The three criterion classes of the catalog, as a closed variant. */
  datatype Kind =
    | MultipleSelect(entryTitles: Option<seq<string>>, entryValues: Option<seq<string>>)
    | TextInput(hint: string)
    | Boolean

  /** A catalog criterion (`CustomFilterCriterion`). `sql` is the template of
      the `Task.ID IN (...)` subquery, absent for the all-tasks universe;
      `valuesForNewTasks` lists the key/value templates a task created in
      the filter receives, in the map's iteration order. */
  datatype CustomFilterCriterion = CustomFilterCriterion(
    identifier: string,
    name: string,
    text: string,
    sql: Option<string>,
    valuesForNewTasks: Option<seq<(string, string)>>,
    kind: Kind)

  /** One criterion instance. `typeCode` is the Kotlin field `type`. */
  datatype CriterionInstance = CriterionInstance(
    criterion: CustomFilterCriterion,
    selectedIndex: int,
    selectedText: Option<string>,
    typeCode: int,
    end: int,
    start: int,
    max: int,
    id: string)

  /** The no-argument constructor followed by `criterion = c`: nothing
      selected, intersect, zero counts, and the freshly generated `id`. */
  function NewInstance(c: CustomFilterCriterion, id: string): (r: CriterionInstance)
    ensures r.criterion == c && r.id == id
    ensures r.typeCode == TYPE_INTERSECT
    ensures r.selectedIndex == -1 && r.selectedText.None?
    ensures r.start == 0 && r.end == 0 && r.max == 0
  {
    CriterionInstance(c, -1, None, TYPE_INTERSECT, 0, 0, 0, id)
  }

  /** The copy constructor: every field, the identity `id` included, is taken
      from `other`, so the copy equals the original. */
  function Copy(other: CriterionInstance): (r: CriterionInstance)
    ensures r == other
  {
    CriterionInstance(
      other.criterion, other.selectedIndex, other.selectedText, other.typeCode,
      other.end, other.start, other.max, other.id)
  }

  /** `equals`: field-by-field comparison of criterion, selection, type,
      counts and id, which is exactly structural equality. */
  function Equals(a: CriterionInstance, b: CriterionInstance): (r: bool)
    ensures r <==> a == b
  {
    && a.criterion == b.criterion
    && a.selectedIndex == b.selectedIndex
    && a.selectedText == b.selectedText
    && a.typeCode == b.typeCode
    && a.end == b.end
    && a.start == b.start
    && a.max == b.max
    && a.id == b.id
  }

  /** `selectedIndex` points into the (non-null) list `entries`. */
  predicate IndexIn(i: int, entries: Option<seq<string>>) {
    i >= 0 && entries.Some? && i < |entries.value|
  }

  /** `titleFromCriterion`: the line shown for the instance. */
  function TitleFromCriterion(x: CriterionInstance): string {
    var c := x.criterion;
    match c.kind
    case MultipleSelect(titles, _) =>
      if IndexIn(x.selectedIndex, titles)
      then ReplaceAll(c.text, [PLACEHOLDER], titles.value[x.selectedIndex])
      else c.text
    case TextInput(_) =>
      if x.selectedText.None? then c.text
      else ReplaceAll(c.text, [PLACEHOLDER], x.selectedText.value)
    case Boolean => c.name
  }

  /** `valueFromCriterion`: the value substituted into the SQL template and
      persisted; null for the universe and for an unanswered text input. */
  function ValueFromCriterion(x: CriterionInstance): (r: Option<string>)
    ensures r.None? <==>
      x.typeCode == TYPE_UNIVERSE || (x.criterion.kind.TextInput? && x.selectedText.None?)
  {
    if x.typeCode == TYPE_UNIVERSE then None
    else
      var c := x.criterion;
      match c.kind
      case MultipleSelect(_, values) =>
        Some(if IndexIn(x.selectedIndex, values) then values.value[x.selectedIndex] else c.text)
      case TextInput(_) => x.selectedText
      case Boolean => Some(c.name)
  }

  /** The title is the criterion text with every placeholder replaced by the
      selected label, the raw text when nothing valid is selected, and the
      criterion's name for a boolean criterion. */
  lemma TitleSpec(x: CriterionInstance)
    ensures x.criterion.kind.MultipleSelect? && IndexIn(x.selectedIndex, x.criterion.kind.entryTitles) ==>
      TitleFromCriterion(x)
        == ReplaceChar(x.criterion.text, PLACEHOLDER, x.criterion.kind.entryTitles.value[x.selectedIndex])
    ensures x.criterion.kind.MultipleSelect? && !IndexIn(x.selectedIndex, x.criterion.kind.entryTitles) ==>
      TitleFromCriterion(x) == x.criterion.text
    ensures x.criterion.kind.TextInput? && x.selectedText.Some? ==>
      TitleFromCriterion(x) == ReplaceChar(x.criterion.text, PLACEHOLDER, x.selectedText.value)
    ensures x.criterion.kind.TextInput? && x.selectedText.None? ==>
      TitleFromCriterion(x) == x.criterion.text
    ensures x.criterion.kind.Boolean? ==> TitleFromCriterion(x) == x.criterion.name
  {
    var c := x.criterion;
    match c.kind
    case MultipleSelect(titles, _) =>
      if IndexIn(x.selectedIndex, titles) {
        ReplaceAllChar(c.text, PLACEHOLDER, titles.value[x.selectedIndex]);
      }
    case TextInput(_) =>
      if x.selectedText.Some? {
        ReplaceAllChar(c.text, PLACEHOLDER, x.selectedText.value);
      }
    case Boolean =>
  }

  /** A substituted title keeps no placeholder when the substituted label has
      none, and a text without placeholder is shown unchanged. */
  lemma TitlePlaceholders(x: CriterionInstance)
    requires !x.criterion.kind.Boolean?
    ensures PLACEHOLDER !in x.criterion.text ==> TitleFromCriterion(x) == x.criterion.text
    ensures x.criterion.kind.MultipleSelect? && IndexIn(x.selectedIndex, x.criterion.kind.entryTitles)
      && PLACEHOLDER !in x.criterion.kind.entryTitles.value[x.selectedIndex]
      ==> PLACEHOLDER !in TitleFromCriterion(x)
    ensures x.criterion.kind.TextInput? && x.selectedText.Some? && PLACEHOLDER !in x.selectedText.value
      ==> PLACEHOLDER !in TitleFromCriterion(x)
  {
    TitleSpec(x);
  }

  /** The value of a multiple-select instance is the selected entry value when
      the index is in range and the raw text otherwise; text input yields the
      typed text; boolean yields the criterion's name. */
  lemma ValueSpec(x: CriterionInstance)
    requires x.typeCode != TYPE_UNIVERSE
    ensures x.criterion.kind.MultipleSelect? && IndexIn(x.selectedIndex, x.criterion.kind.entryValues) ==>
      ValueFromCriterion(x) == Some(x.criterion.kind.entryValues.value[x.selectedIndex])
    ensures x.criterion.kind.MultipleSelect? && !IndexIn(x.selectedIndex, x.criterion.kind.entryValues) ==>
      ValueFromCriterion(x) == Some(x.criterion.text)
    ensures x.criterion.kind.TextInput? ==> ValueFromCriterion(x) == x.selectedText
    ensures x.criterion.kind.Boolean? ==> ValueFromCriterion(x) == Some(x.criterion.name)
  {
  }
}
