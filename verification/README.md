# Custom-filter criterion engine

A Dafny model of the part of the Tasks app that builds custom filters. A
custom filter is an ordered list of *criterion instances*. Each instance
applies one catalog criterion with a combination code: ADD (0), SUBTRACT
(1), INTERSECT (2) or UNIVERSE (3). The model covers:

- **Criteria** (`criteria.dfy`): the instance record, its copy constructor
  and `equals`, and the title and value derived from the criterion kind
  (multiple-select, text input, boolean).
- **Codec** (`codec.dfy`): `serialize` and `fromString`. Each instance is
  written as one line of five separator-joined fields,
  identifier | value | text | type | sql. Separators are escaped in the
  first three fields only. Decoding is all-or-nothing: the first line with
  a field count other than 4 or 5 empties the result, and a four-field line,
  an unknown criterion or a non-numeric type throws.
- **Composer** (`composer.dfy`): the `sql` getter, which folds the list into
  an unparenthesised WHERE clause, and the `values` getter for new tasks.
  The file also gives a reference reading of the emitted clause under SQL
  precedence.
- **Counter** (`counter.dfy`): `updateList`. It runs one count query per
  prefix of the list, then fills in `start`, `end` and the common `max`.
- **FilterSettings** (`settings.dfy`): the editor's list operations:
  - the starting universe and `setCriteria`;
  - `onDelete`, `onMove` and the connective toggle;
  - the checks `save` makes before it stores a filter.
- **FilterPreferences** (`prefs.dfy`): the `"<type>:<key>"` preference text
  of `DefaultFilterProvider`, its lookup with fallback to a default, and the
  startup filter.
- **Tasks** (`task.dfy`): date and flag predicates of `Task.java`, plus the
  switch structure of `createDueDate` and `createHideUntil`.
- **FileNames** (`files.dfy`): the `base`, `base-1`, `base-2`, … rule of
  `FileHelper.getNonCollidingFileName`, and `uri2String`.

Supporting modules: `base.dfy` holds `Option`, `Result` and the exceptions
the code can throw. `strings.dfy` and `numbers.dfy` hold the Kotlin string
and number functions the code relies on: `trim`, `split`, `replace`,
`joinToString`, `toInt`, `toLong` and `indexOf`.

Exceptions are values. An operation that can throw returns
`Result.Failure(e)`, where `e` names the exception: `NullPointerException`
for a `!!` on null, `IndexOutOfBoundsException(i)`,
`NumberFormatException(s)`, `IllegalArgumentException(setting)`, or
`RuntimeException(message)`.

Several collaborators have bodies outside this model, so they are
parameters:

- `activeAndVisible()`, `Task.ID`, the `SELECT COUNT(*)` prefix,
  `UnaryCriterion.sanitize`, `PermaSql.replacePlaceholdersForQuery`,
  `QueryUtils.showHiddenAndCompleted` and the row count of a query are
  fields of `Composer.Services`.
- The criteria catalog and the UUID generator are functions.
- The DAOs are maps.
- The preference store is a pair of maps.
- The clock and the time-zone dependent `java.util.Date` adjustments are a
  `Tasks.Calendar` value.
- The folder listing is a finite set of names.

Three behaviours of the code that are easy to misread:

- The emitted WHERE clause has no parentheses. A list such as
  `[universe, ADD a, INTERSECT b]` therefore means `universe OR (a AND b)`,
  not the left fold `(universe OR a) AND b`. `Composer.EvalIsGroups` states
  what the text means; `Composer.PrecedenceIsNotLeftFold` shows a task on
  which the two readings differ.
- A blank line in the persisted text is not skipped. It is a one-field row,
  so it empties the whole decoded list.
- The sql field is written unescaped. An sql template that contains the
  separator therefore gives a record with more than five fields.

## Model

| member | source | states |
|---|---|---|
| Criteria.NewInstance | app/src/main/java/com/todoroo/astrid/core/CriterionInstance.kt:14-25 | A new instance has nothing selected (index -1, no text), type INTERSECT, zero start, end and max, and the freshly generated id. |
| Criteria.Copy | app/src/main/java/com/todoroo/astrid/core/CriterionInstance.kt:27-36 | The copy constructor takes every field, including `id`, so the copy equals the original. |
| Criteria.Equals | app/src/main/java/com/todoroo/astrid/core/CriterionInstance.kt:90-104 | `equals` holds exactly when all eight fields agree, i.e. it is structural equality including id and the three counts. |
| Criteria.ValueFromCriterion | app/src/main/java/com/todoroo/astrid/core/CriterionInstance.kt:58-73 | The value is null exactly for a UNIVERSE instance (of any kind) and for a text input with no text. |
| Codec.ValueRestores | app/src/main/java/com/todoroo/astrid/core/CriterionInstance.kt:58-150 | The value an instance persists restores its selection on decoding: the typed text of a text input; nothing for a boolean or for a multiple-select without entry values; for a multiple-select with an in-range index, an entry with the same value at or before the selected one. |
| Criteria.TitleSpec | app/src/main/java/com/todoroo/astrid/core/CriterionInstance.kt:39-55 | The title is the text with every `?` replaced by the selected label when the index is in range, and the raw text otherwise. A text input gets the text with `?` replaced by the typed text, or the raw text when there is none. A boolean gets its name. |
| Criteria.TitlePlaceholders | app/src/main/java/com/todoroo/astrid/core/CriterionInstance.kt:41-50 | A text without `?` is shown unchanged. A substituted title keeps no `?` when the substituted label has none. |
| Codec.Escape | app/src/main/java/com/todoroo/astrid/core/CriterionInstance.kt:159-163 | `escape(null)` is "". An escaped field holds no separator and no line break that was not already there, and starts with the field's first character unless that is the separator. |
| Codec.UnescapeAbsent | app/src/main/java/com/todoroo/astrid/core/CriterionInstance.kt:165-170 | A field without the escape token is left unchanged by `unescape`. |
| Codec.EscapeRoundTrip | app/src/main/java/com/todoroo/astrid/core/CriterionInstance.kt:159-170 | `unescape(escape(s)) == s` for every `s` that does not contain the escape token, for separator/token pairs that satisfy `ValidTokens`. |
| Codec.BorderedEscapeBreaksRoundTrip | app/src/main/java/com/todoroo/astrid/core/CriterionInstance.kt:159-170 | The token must not overlap itself. With separator `\|` and token `!PIPE!`, the field `!PIPE\|` holds no token, yet escapes to `!PIPE!PIPE!` and unescapes to `\|PIPE!`. |
| Codec.Serialize | app/src/main/java/com/todoroo/astrid/core/CriterionInstance.kt:172-176 | The list text has no whitespace at either end, and the empty list serializes to "". |
| Codec.RecordFieldCount | app/src/main/java/com/todoroo/astrid/core/CriterionInstance.kt:75-84 | A record splits into exactly the five fields identifier, value, text, type, sql, in that order, with null written as "". If the unescaped sql contains the separator, the record splits into more than five. |
| Codec.RestoredSelection | app/src/main/java/com/todoroo/astrid/core/CriterionInstance.kt:140-150 | A persisted value restores the typed text of a text input. For a multiple-select it restores the first index of the value among the entry values, -1 when absent, and nothing when there are no entry values. A boolean restores nothing. |
| Codec.DecodeRow | app/src/main/java/com/todoroo/astrid/core/CriterionInstance.kt:131-154 | A line is rejected exactly when its field count is not 4 or 5. A four-field line always throws. A decoded line has 5 fields and: the catalog criterion with `sql = split[4]`; the type parsed from `split[3]`; the restored selection; the given fresh id; zero counts. An unknown identifier or a non-numeric type is the exception raised. |
| Codec.Collect | app/src/main/java/com/todoroo/astrid/core/CriterionInstance.kt:130-156 | The row loop succeeds only when every line decodes, and then yields one instance per line, in line order. |
| Codec.FromString | app/src/main/java/com/todoroo/astrid/core/CriterionInstance.kt:124-157 | A non-empty result comes from non-empty text, has one instance per trimmed line, and instance `i` is what line `i` decodes to with the `i`-th id. |
| Codec.FirstBadRowDecides | app/src/main/java/com/todoroo/astrid/core/CriterionInstance.kt:130-137 | The first line that does not decode decides the outcome: a bad field count gives the empty list, an exception escapes. |
| Codec.CorruptLineEmptiesResult | app/src/main/java/com/todoroo/astrid/core/CriterionInstance.kt:126-154 | All-or-nothing: if every line before line `k` decodes and line `k` has a field count other than 4 or 5, `fromString` returns the empty list, never a partial one. A four-field line `k` makes it fail. |
| Codec.BlankDecodesEmpty | app/src/main/java/com/todoroo/astrid/core/CriterionInstance.kt:126-137 | Empty or blank text decodes to the empty list. |
| Codec.Persisted | app/src/main/java/com/todoroo/astrid/core/CriterionInstance.kt:138-154 | What an instance comes back as: the same type, the criterion with its sql (absent sql as ""), zero counts and the new id. |
| Codec.RecordsShape | app/src/main/java/com/todoroo/astrid/core/CriterionInstance.kt:172-176 | The joined records of encodable instances are non-empty, so `trim` leaves them unchanged, and no record holds a line break. |
| Codec.RecordAvoidsRowSeparator | app/src/main/java/com/todoroo/astrid/core/CriterionInstance.kt:75-84 | The record of an encodable instance holds no line break. |
| Codec.SerializedLines | app/src/main/java/com/todoroo/astrid/core/CriterionInstance.kt:130-176 | The lines `fromString` reads from the serialized text of a non-empty encodable list are exactly the records of its instances. |
| Codec.RecordRoundTrip | app/src/main/java/com/todoroo/astrid/core/CriterionInstance.kt:75-154 | One encodable record decodes to the persisted form of its instance. |
| Codec.DecodeRecords | app/src/main/java/com/todoroo/astrid/core/CriterionInstance.kt:130-156 | The records of encodable instances decode, line by line, to their persisted forms. |
| Codec.ListRoundTrip | app/src/main/java/com/todoroo/astrid/core/CriterionInstance.kt:124-176 | `fromString(serialize(l))` succeeds and returns the persisted form of every instance of `l`, in order, with the generator's ids. |
| Codec.PersistedRestorable | app/src/main/java/com/todoroo/astrid/core/CriterionInstance.kt:90-104 | A restorable instance comes back equal to itself except for id, start, end and max, which `equals` compares but the text does not carry. |
| Codec.RoundTripUpToIdentity | app/src/main/java/com/todoroo/astrid/core/CriterionInstance.kt:124-176 | A list of restorable, encodable instances decodes back to the same instances, in order, with fresh ids and zero counts. |
| Composer.GetValue | app/src/main/java/org/tasks/activities/FilterSettingsActivity.kt:360-366 | `getValue` is the instance value when there is one. A null value becomes "" exactly when the criterion sql contains `?`; otherwise it stays null. |
| Composer.OpOf | app/src/main/java/org/tasks/activities/FilterSettingsActivity.kt:374-378 | ADD maps to OR, SUBTRACT to AND NOT and INTERSECT to AND. Every other code, UNIVERSE included, gets no connective. |
| Composer.Connective | app/src/main/java/org/tasks/activities/FilterSettingsActivity.kt:374-378 | The connective text is empty exactly for "no connective", and otherwise starts and ends with a space. |
| Composer.Substitution | app/src/main/java/org/tasks/activities/FilterSettingsActivity.kt:384-386 | Every `?` of the criterion sql is replaced by the sanitized value. A missing value throws a NullPointerException (`value!!`). |
| Composer.Clause | app/src/main/java/org/tasks/activities/FilterSettingsActivity.kt:380-388 | The universe, and a criterion without sql, give `activeAndVisible()`. Every other instance gives `Task.ID IN (<trimmed substituted sql>)`, and throws exactly when `getValue` is null. |
| Composer.Fragment | app/src/main/java/org/tasks/activities/FilterSettingsActivity.kt:373-388 | An instance contributes its connective followed by its clause, and throws when its clause does. |
| Composer.Sql | app/src/main/java/org/tasks/activities/FilterSettingsActivity.kt:369-391 | The composed text starts with " WHERE ", and the only exception it raises is a NullPointerException. |
| Composer.SqlThrowsIff | app/src/main/java/org/tasks/activities/FilterSettingsActivity.kt:369-391 | The getter throws if and only if some instance's clause dereferences a missing value. |
| Composer.ClauseFailureThrows | app/src/main/java/org/tasks/activities/FilterSettingsActivity.kt:384-385 | One throwing clause anywhere in the list makes the whole getter throw. |
| Composer.Fragments | app/src/main/java/org/tasks/activities/FilterSettingsActivity.kt:372-389 | One fragment per instance, in list order, each the fragment its instance contributes. |
| Composer.SqlIsConcatenation | app/src/main/java/org/tasks/activities/FilterSettingsActivity.kt:369-391 | When no clause throws, the text is " WHERE " followed by every instance's connective and clause, in list order. |
| Composer.SqlAppend | app/src/main/java/org/tasks/activities/FilterSettingsActivity.kt:372-389 | Appending an instance appends its connective and clause, and leaves the text for the earlier instances unchanged. |
| Composer.UniverseAlone | app/src/main/java/org/tasks/activities/FilterSettingsActivity.kt:371-382 | The universe alone composes to exactly " WHERE " followed by `activeAndVisible()`. |
| Composer.WellFormedConnectives | app/src/main/java/org/tasks/activities/FilterSettingsActivity.kt:374-378 | In a list that starts with the universe and continues with ADD, SUBTRACT or INTERSECT instances, every instance but the first is preceded by a connective, and the first is not. |
| Composer.EvalStateSpec | app/src/main/java/org/tasks/activities/FilterSettingsActivity.kt:369-391 | Scanning the clauses left to right under SQL precedence leaves the value of the last AND-group open, and the disjunction of the earlier groups closed. |
| Composer.EvalIsGroups | app/src/main/java/org/tasks/activities/FilterSettingsActivity.kt:369-391 | The emitted clause selects a task if and only if, in some group starting at the first or at an ADD instance, it satisfies every member's clause (for SUBTRACT members, it fails the clause). |
| Composer.AppendNarrowsOrWidens | app/src/main/java/org/tasks/activities/FilterSettingsActivity.kt:374-378 | Appending an INTERSECT or SUBTRACT instance only narrows the selection. Appending an ADD instance only widens it, and selects every task the new clause selects. |
| Composer.PrecedenceIsNotLeftFold | app/src/main/java/org/tasks/activities/FilterSettingsActivity.kt:369-391 | `[universe, ADD a, INTERSECT b]` selects a task that is in the universe but in neither `a` nor `b`, which the strict left fold rejects. |
| Composer.Fill | app/src/main/java/org/tasks/activities/FilterSettingsActivity.kt:401 | `replace("?", v)`, done as a substring replacement, equals replacing each `?` character of the binding template by the value, character by character. |
| Composer.PutAll | app/src/main/java/org/tasks/activities/FilterSettingsActivity.kt:400-402 | Writing the filled pairs keeps every earlier key, and every filled key is present afterwards. |
| Composer.PutAllKeys | app/src/main/java/org/tasks/activities/FilterSettingsActivity.kt:400-402 | Every new key is the filled key of one of the pairs. |
| Composer.PutAllLastWins | app/src/main/java/org/tasks/activities/FilterSettingsActivity.kt:400-402 | A key gets the filled value of the last pair that writes it: a later pair overwrites an earlier one. |
| Composer.PutAllKeeps | app/src/main/java/org/tasks/activities/FilterSettingsActivity.kt:400-402 | A key that no pair writes keeps its value. |
| Composer.Contribute | app/src/main/java/org/tasks/activities/FilterSettingsActivity.kt:396-403 | Only INTERSECT instances with bindings contribute. Such an instance throws exactly when its value is null, and otherwise puts its filled pairs over the map. |
| Composer.Values | app/src/main/java/org/tasks/activities/FilterSettingsActivity.kt:393-406 | The `values` getter throws if and only if some contributing instance has a null value. It is the empty map when no instance contributes. |
| Composer.ValuesAppend | app/src/main/java/org/tasks/activities/FilterSettingsActivity.kt:393-406 | A later instance overwrites the bindings of earlier ones. A non-contributing instance changes nothing. |
| Counter.CountConnective | app/src/main/java/org/tasks/activities/FilterSettingsActivity.kt:331-335 | The count query's connective is empty exactly when the instance gets none. |
| Counter.CountClause | app/src/main/java/org/tasks/activities/FilterSettingsActivity.kt:337-344 | The count query's clause is either `activeAndVisible()` followed by a space, or `Task.ID IN (...)` with the untrimmed substituted sql passed through `PermaSql`. It throws exactly when the value is null. |
| Counter.CountQuery | app/src/main/java/org/tasks/activities/FilterSettingsActivity.kt:324-344 | Each count query starts with the `SELECT COUNT(*)` prefix and " WHERE ". |
| Counter.CountQueryAppend | app/src/main/java/org/tasks/activities/FilterSettingsActivity.kt:326-344 | The query for one more instance extends the previous query by that instance's connective and clause. |
| Counter.CountQueryTotal | app/src/main/java/org/tasks/activities/FilterSettingsActivity.kt:326-344 | The query can be built if and only if no clause throws. |
| Counter.CountOne | app/src/main/java/org/tasks/activities/FilterSettingsActivity.kt:326-352 | One loop step extends the query to the next prefix. It counts that prefix, and records the count as `end` and the previous count (for the first instance, the same count) as `start`. |
| Counter.CountPrefixes | app/src/main/java/org/tasks/activities/FilterSettingsActivity.kt:321-353 | The counting loop succeeds if and only if no clause throws, and then records every instance's prefix counts. |
| Counter.UpdateList | app/src/main/java/org/tasks/activities/FilterSettingsActivity.kt:321-358 | `updateList` succeeds if and only if no clause throws. Its result is the list annotated with prefix counts and the common maximum. |
| Counter.AnnotatedCounts | app/src/main/java/org/tasks/activities/FilterSettingsActivity.kt:346-356 | After the pass: `end[i]` is the count for prefix `0..i`; `start[0] == end[0]` and `start[i] == end[i-1]`; every `max` is at least every end and is 0 or one of them; all other fields are unchanged. |
| Counter.LargestEnd | app/src/main/java/org/tasks/activities/FilterSettingsActivity.kt:322-351 | The running maximum, starting from 0, is the largest end count. |
| FilterSettings.Universe | app/src/main/java/org/tasks/activities/FilterSettingsActivity.kt:107-110 | `universe()` is a one-element list: a new instance of the starting-universe criterion with type UNIVERSE. |
| FilterSettings.Initial | app/src/main/java/org/tasks/activities/FilterSettingsActivity.kt:112-115 | `setCriteria` keeps a non-empty list and replaces an empty one with the universe alone. |
| FilterSettings.UniverseComposes | app/src/main/java/org/tasks/activities/FilterSettingsActivity.kt:107-119 | The starting universe composes to " WHERE " followed by `activeAndVisible()`, and its count clause does not throw. |
| FilterSettings.SetCriteria | app/src/main/java/org/tasks/activities/FilterSettingsActivity.kt:112-120 | For an empty list, `setCriteria` never throws and leaves one UNIVERSE instance. It succeeds if and only if no count clause of the kept list throws, and the result is that list annotated by `updateList`. |
| FilterSettings.Remove | app/src/main/java/org/tasks/activities/FilterSettingsActivity.kt:123 | Removing element `i` keeps the elements before it, shifts those after it down by one, and removes exactly one copy of `l[i]` from the multiset. |
| FilterSettings.Insert | app/src/main/java/org/tasks/activities/FilterSettingsActivity.kt:130 | Inserting at `i` puts the element at `i`, shifts the later elements up by one, and adds exactly it to the multiset. |
| FilterSettings.RemoveAt | app/src/main/java/org/tasks/activities/FilterSettingsActivity.kt:123 | `removeAt(i)` succeeds if and only if `i` is an index, and otherwise throws IndexOutOfBoundsException(i). |
| FilterSettings.OnDelete | app/src/main/java/org/tasks/activities/FilterSettingsActivity.kt:122-126 | `onDelete(i)` removes exactly element `i` and recounts the rest; a bad index throws. |
| FilterSettings.OnMove | app/src/main/java/org/tasks/activities/FilterSettingsActivity.kt:128-133 | `onMove` succeeds if and only if both indices are valid, and otherwise throws for the first bad one. The result is a permutation with the moved element at `to`. Taking it out again gives the list without it. |
| FilterSettings.MoveShifts | app/src/main/java/org/tasks/activities/FilterSettingsActivity.kt:128-133 | A move keeps every other instance in its original relative order: it shifts only the instances between `from` and `to`, by one. |
| FilterSettings.InsertRemoved | app/src/main/java/org/tasks/activities/FilterSettingsActivity.kt:129-130 | Putting a removed element back where it was restores the list. |
| FilterSettings.MoveBack | app/src/main/java/org/tasks/activities/FilterSettingsActivity.kt:128-133 | Moving from `to` back to `from` undoes a move. |
| FilterSettings.GetSelected | app/src/main/java/org/tasks/activities/FilterSettingsActivity.kt:154-160 | ADD checks the OR button, SUBTRACT the NOT button, and every other code (UNIVERSE included) the AND button. |
| FilterSettings.GetType | app/src/main/java/org/tasks/activities/FilterSettingsActivity.kt:162-168 | The OR button gives ADD, the NOT button SUBTRACT, and any other id INTERSECT. |
| FilterSettings.ToggleRoundTrip | app/src/main/java/org/tasks/activities/FilterSettingsActivity.kt:139-146 | `getType(getSelected(t)) == t` for ADD, SUBTRACT and INTERSECT. Every other code, UNIVERSE included, becomes INTERSECT. |
| FilterSettings.FindId | app/src/main/java/org/tasks/activities/FilterSettingsActivity.kt:136 | `find` returns the first instance with the id, or nothing when no instance has it. |
| FilterSettings.ApplyToggle | app/src/main/java/org/tasks/activities/FilterSettingsActivity.kt:135-148 | Confirming the toggle sets the type of the first instance with the id, and changes nothing else. A missing id throws at `!!`. |
| FilterSettings.TrimControl | app/src/main/java/org/tasks/activities/FilterSettingsActivity.kt:277-278 | `trim { it <= ' ' }` returns the slice of the text left after dropping control and space characters at both ends: every dropped character is one, the slice has none at either end, and it is empty exactly when every character is one. |
| FilterSettings.Save | app/src/main/java/org/tasks/activities/FilterSettingsActivity.kt:243-275 | `save` asks for a name if and only if the trimmed name is empty, and stores nothing if and only if there are no changes. It fails only when the values, the blank check or the sql fails, with "Criterion cannot be empty" only for a blank serialized list. A named, changed filter whose values and sql succeed and whose list is not blank is stored. A stored filter carries the trimmed name, the values, the non-blank serialized list and the composed sql. |
| FilterSettings.BlankCriterionIffEmpty | app/src/main/java/org/tasks/activities/FilterSettingsActivity.kt:254-258 | For a named, changed filter of encodable instances, the blank check throws if and only if the list is empty. |
| FilterPreferences.FilterType | app/src/main/java/org/tasks/preferences/DefaultFilterProvider.kt:123-130 | Tag maps to 2, Google Tasks to 3, custom to 1, CalDAV to 4 and place to 5, each if and only if; every other filter maps to 0. |
| FilterPreferences.BuiltInFilterId | app/src/main/java/org/tasks/preferences/DefaultFilterProvider.kt:138-145 | Today gives 1 and Recently-modified gives 3, each if and only if; everything else gives 0 (My Tasks). |
| FilterPreferences.BuiltInFilter | app/src/main/java/org/tasks/preferences/DefaultFilterProvider.kt:132-136 | Id 1 gives Today and id 3 gives Recently-modified; every other id gives My Tasks. |
| FilterPreferences.BuiltInRoundTrip | app/src/main/java/org/tasks/preferences/DefaultFilterProvider.kt:132-145 | Encoding then decoding a built-in filter round-trips. Any other plain filter comes back as My Tasks. |
| FilterPreferences.PreferenceValue | app/src/main/java/org/tasks/preferences/DefaultFilterProvider.kt:111-121 | The text's first segment parses back to `getFilterType(f)`. There is always a second segment, and it is the key whenever the key holds no colon. |
| FilterPreferences.Lookup | app/src/main/java/org/tasks/preferences/DefaultFilterProvider.kt:95-103 | A filter found for a type has that type. A missing key segment is the exception raised. |
| FilterPreferences.LoadFilter | app/src/main/java/org/tasks/preferences/DefaultFilterProvider.kt:92-106 | A non-numeric type throws, and a type outside 0..5 gives null. A filter found has the parsed type. The only exceptions are NumberFormatException and IndexOutOfBoundsException. |
| FilterPreferences.FromPreference | app/src/main/java/org/tasks/preferences/DefaultFilterProvider.kt:85-90 | A null text, a null lookup or any exception gives the default; otherwise the result is the loaded filter. |
| FilterPreferences.FilterFromPreference | app/src/main/java/org/tasks/preferences/DefaultFilterProvider.kt:75-76 | The public lookup uses My Tasks as the default, so a filter always results. |
| FilterPreferences.PreferenceRoundTrip | app/src/main/java/org/tasks/preferences/DefaultFilterProvider.kt:92-121 | A stored filter whose key holds no colon is loaded back from its preference text unchanged. |
| FilterPreferences.MissingFallsBack | app/src/main/java/org/tasks/preferences/DefaultFilterProvider.kt:85-106 | A filter whose row is gone, or a tag that is gone or has no name, loads as null and falls back to the default. |
| FilterPreferences.MissingSegmentFallsBack | app/src/main/java/org/tasks/preferences/DefaultFilterProvider.kt:85-106 | A text with a valid type but no key segment throws at `split[1]` and falls back to the default. |
| FilterPreferences.SetFilterPreference | app/src/main/java/org/tasks/preferences/DefaultFilterProvider.kt:108-109 | Remembering a filter writes its preference text under the key and changes no other preference. |
| FilterPreferences.FilterFromKey | app/src/main/java/org/tasks/preferences/DefaultFilterProvider.kt:72-76 | An unset preference gives My Tasks. |
| FilterPreferences.SetThenGet | app/src/main/java/org/tasks/preferences/DefaultFilterProvider.kt:72-121 | Reading a key back after remembering a stored filter under it gives that filter. |
| FilterPreferences.StartupFilter | app/src/main/java/org/tasks/preferences/DefaultFilterProvider.kt:59-65 | The startup filter is the last-viewed filter when "open last viewed list" is on (the default), and the default-open filter when it is off. |
| FilterPreferences.StartupAfterViewing | app/src/main/java/org/tasks/preferences/DefaultFilterProvider.kt:59-65 | With the setting at its default, startup opens the filter last remembered as viewed. With it off, remembering a viewed filter does not change the startup filter. |
| Tasks.WrapLong | api/src/com/todoroo/astrid/data/Task.java:383-392 | `long` addition wraps modulo 2^64 and is exact within range. |
| Tasks.JavaRem | api/src/com/todoroo/astrid/data/Task.java:490 | Java's `%` agrees with the mathematical remainder for non-negative operands and is never positive for negative ones. |
| Tasks.HasDueTimeSpec | api/src/com/todoroo/astrid/data/Task.java:489-491 | `hasDueTime(d)` holds if and only if `d > 0` and `d` is not a whole minute. |
| Tasks.HasDueTime | api/src/com/todoroo/astrid/data/Task.java:468-472 | A task has a due time only if it has a due date, and exactly when its due date has a time part. |
| Tasks.IsCompletedFrame | api/src/com/todoroo/astrid/data/Task.java:318-320 | `isCompleted` reads the completion date and nothing else: tasks with equal completion dates agree. |
| Tasks.IsDeletedFrame | api/src/com/todoroo/astrid/data/Task.java:323-330 | `isDeleted` reads the deletion date (absent when not loaded) and nothing else: tasks with equal deletion dates agree. |
| Tasks.HiddenUntil | api/src/com/todoroo/astrid/data/Task.java:333-335 | `isHidden` reads only the hide-until date and the clock. A task hidden at some time was hidden at every earlier time, and it is visible once the clock reaches its hide-until date. |
| Tasks.DueDateFrame | api/src/com/todoroo/astrid/data/Task.java:338-340 | `hasDueDate` and `hasDueTime()` read the due date and nothing else. |
| Tasks.IsEditable | api/src/com/todoroo/astrid/data/Task.java:481-484 | Read-only is not editable, and public with another owner is not editable. A task that is neither read-only nor public is editable, and so is a task that is not read-only and is owned by SELF. |
| Tasks.ReadOnlyNotEditable | api/src/com/todoroo/astrid/data/Task.java:481-484 | Setting the read-only bit always makes a task uneditable. |
| Tasks.PrivateWritableEditable | api/src/com/todoroo/astrid/data/Task.java:481-484 | Clearing the read-only and public bits always makes a task editable. |
| Tasks.RepeatFlagIrrelevant | api/src/com/todoroo/astrid/data/Task.java:481-484 | The repeat-after-completion bit does not affect editability. |
| Tasks.FlagsAreDistinctBits | api/src/com/todoroo/astrid/data/Task.java:184-218 | The task flags and the notification flags are each single bits, pairwise distinct within their group. |
| Tasks.WholeSeconds | api/src/com/todoroo/astrid/data/Task.java:408 | `date / 1000 * 1000` on a positive date drops less than a second and leaves a whole number of seconds. |
| Tasks.Finish | api/src/com/todoroo/astrid/data/Task.java:405-416 | A date that is not positive is returned unchanged. |
| Tasks.DueDateBase | api/src/com/todoroo/astrid/data/Task.java:375-403 | URGENCY_NONE gives 0 and the specific settings give the custom date. Every setting outside 0..8 throws IllegalArgumentException. |
| Tasks.CreateDueDate | api/src/com/todoroo/astrid/data/Task.java:372-417 | `createDueDate` throws exactly for an unknown setting. URGENCY_NONE gives 0, and a computed date that is not positive is returned unchanged. |
| Tasks.DueDateMarksTime | api/src/com/todoroo/astrid/data/Task.java:405-416 | For a positive picked date, the created due date has a time part if and only if a specific time was picked, assuming whole-minute time-zone offsets (`Sane`): noon and midnight fall on a whole minute. |
| Tasks.HideUntilBase | api/src/com/todoroo/astrid/data/Task.java:431-449 | HIDE_UNTIL_DUE gives the due date and the specific settings give the custom date. Any other setting but NONE throws IllegalArgumentException. |
| Tasks.CreateHideUntil | api/src/com/todoroo/astrid/data/Task.java:428-463 | `createHideUntil` throws exactly for an unknown setting. NONE returns 0 straight away, and a picked date that is not positive is returned unchanged. |
| Tasks.HideUntilBeforeDue | api/src/com/todoroo/astrid/data/Task.java:437-442 | DAY_BEFORE and WEEK_BEFORE subtract exactly one day and one week from any due date at least a week above the smallest `long`. |
| Tasks.HideUntilMarksTime | api/src/com/todoroo/astrid/data/Task.java:451-462 | For a positive picked date, the created hide-until date has a time part if and only if a specific time was picked, assuming whole-minute time-zone offsets (`Sane`): noon and midnight fall on a whole minute. |
| FileNames.NormalizeExtension | app/src/main/java/org/tasks/files/FileHelper.kt:212-216 | The extension gets a leading "." when it lacks one and is otherwise unchanged. |
| FileNames.Candidate | app/src/main/java/org/tasks/files/FileHelper.kt:223-236 | Every candidate name starts with the base name and ends with the extension. |
| FileNames.CandidateInjective | app/src/main/java/org/tasks/files/FileHelper.kt:225-236 | Different attempts try different names. |
| FileNames.TriedSize | app/src/main/java/org/tasks/files/FileHelper.kt:222-238 | The first `n` attempts try `n` distinct names, none of which a later attempt repeats. |
| FileNames.GetNonCollidingFileName | app/src/main/java/org/tasks/files/FileHelper.kt:210-242 | A null extension throws. For content and file uris the result is the first of base, base-1, base-2, … (plus extension) that is not an existing name. For other schemes it is base plus extension, unchecked. |
| FileNames.FirstFreeShape | app/src/main/java/org/tasks/files/FileHelper.kt:218-241 | The chosen name is `base + ext` whenever that is free, and always starts with the base name and ends with the extension. |
| FileNames.FirstFreeUnique | app/src/main/java/org/tasks/files/FileHelper.kt:222-238 | The rule picks exactly one name: two first-free names are equal. |
| FileNames.Uri2StringFrame | app/src/main/java/org/tasks/files/FileHelper.kt:244-251 | The text of a file uri depends on its path alone, and the text of any other uri on its own text alone. |
| Strings.Trim | app/src/main/java/com/todoroo/astrid/core/CriterionInstance.kt:175 | `trim()` returns the slice of the text left after dropping whitespace at both ends: every dropped character is whitespace, the slice has none at either end, and text without edge whitespace comes back unchanged. |
| Strings.TrimEmptyIffBlank | app/src/main/java/org/tasks/activities/FilterSettingsActivity.kt:255-256 | `trim()` of a text is empty if and only if the text is blank, which is what `isNullOrBlank` tests on the serialized list. |
| Strings.ReplaceCharRoundTrip | app/src/main/java/com/todoroo/astrid/core/CriterionInstance.kt:159-170 | Replacing a character by a token that does not overlap itself, and that the text does not contain, then replacing the token back, restores the text. |
| Strings.SplitJoin | app/src/main/java/com/todoroo/astrid/core/CriterionInstance.kt:130-133 | Splitting a join of separator-free pieces gives the pieces back. |
| Strings.IndexOf | app/src/main/java/com/todoroo/astrid/core/CriterionInstance.kt:146 | `indexOf` is the first position of the value, and -1 exactly when it is absent. |
| Numbers.ToIntOfToString | app/src/main/java/com/todoroo/astrid/core/CriterionInstance.kt:151 | `toInt()` parses back every `Int` the record wrote. |
| Numbers.ToLongOfToString | app/src/main/java/org/tasks/preferences/DefaultFilterProvider.kt:96 | `toLong()` parses back every `Long` the preference text wrote. |

## Left out

- The separator and escape constants (`SERIALIZATION_SEPARATOR`, `SEPARATOR_ESCAPE`) are not part of this model. They are the parameters `Codec.Tokens`, constrained by `ValidTokens`.
- Codec.Tokens: the separator is one character. Kotlin's `split`, `replace` and `joinToString` at CriterionInstance.kt:83, 132, 161 and 169 accept separators of any length; a longer separator is not modelled.
- Codec.RoundTripUpToIdentity and Codec.EscapeRoundTrip do not cover an escape token that overlaps itself. `AndroidUtilities` is not part of this model, but if its constants are `|` and `!PIPE!`, that token overlaps itself (it starts and ends with `!`), so the pair fails `ValidTokens`. `Codec.BorderedEscapeBreaksRoundTrip` shows a field that does not survive the round trip under that pair.
- Codec.EscapeRoundTrip: proved only for an escape token that does not overlap itself (`Unbordered`). `Codec.BorderedEscapeBreaksRoundTrip` shows the promise fails for a token that does.
- Codec.RoundTripUpToIdentity: holds only for encodable, restorable instances. Otherwise the round trip loses information: a separator inside the sql, a line break, the escape token inside a field, or a multiple-select value that is not the first with that text.
- The `UnsupportedOperationException` branches of `titleFromCriterion` and `valueFromCriterion` are unreachable here, because the criterion kind is a closed datatype.
- `fromString` writes `split[4]` into the shared catalog criterion object. The model gives the decoded instance its own criterion with that sql; the aliasing between instances of one catalog criterion is not modelled.
- The Android UI is left out: the adapter, dialogs, `addCriteria`, `showOptionsFor`, `help`, `finish`, and the DAO insert/update and result intent in `save`.
- `hasChanges()` is the parameter `changed` of `FilterSettings.Save`.
- `AndroidUtilities.mapToSerializedString` is not modelled; `Save` keeps the map itself.
- Counter.UpdateList: when a clause throws mid-loop, the source has already written `start` and `end` of the earlier instances. The model returns only the failure, not the partially updated list.
- FilterSettings.OnMove: the source removes the element at `from` before it inserts at `to`, so a bad `to` leaves the list one element shorter when the exception escapes. The model returns only the failure, not that shortened list.
- FilterSettings.OnDelete and FilterSettings.SetCriteria: the exception of a throwing recount is returned as a failure of the whole call, and the list is left as the failure's only result.
- `PermaSql`, `sanitize`, `activeAndVisible`, `showHiddenAndCompleted`, `Task.ID`, the count query prefix and the database count are opaque parameters, because their bodies are not part of this model. The SQL text is not evaluated, except through the `holds` oracle of the precedence reading.
- `getDefaultList`, `getAnyList`, `getList`, the badge and dashclock accessors, and `getFilterFromPreferenceBlocking` are left out. They are DAO-driven fallbacks and thin wrappers around the modelled lookup.
- The `else -> null` branch of `getFilterPreferenceValue` is unreachable, because `getFilterType` always returns 0..5.
- Tasks.CreateDueDate and Tasks.CreateHideUntil: `DateUtilities.now()`, `oneMonthFromNow()` and the `java.util.Date` setters depend on the clock and time zone. They are the fields of `Tasks.Calendar`. Only the switch, the wrap-around of `long` arithmetic, the non-positive shortcut and the seconds convention are modelled.
- `isHidden` compares against an explicit `now`. `isOverdue` and the other getters of `Task` are left out.
- `AbstractModel.getFlag` is not part of this model. It is taken to be a bit test on the 32-bit flags.
- FileNames.GetNonCollidingFileName: `tries` is a Kotlin `Int`, but the model counts with an unbounded natural. After 2^31 collisions the source would wrap; the model does not.
- The folder listing and `File.exists` are read as one fixed set of names, with no concurrent file creation. The `dir!!` and `listFiles()` null cases of the content branch are not modelled.
- Kotlin `trim()` is modelled with the Java whitespace and space-separator characters listed in `Strings.IsWhitespace`. Unicode categories beyond that list are not modelled.
- Numbers.ToInt and Numbers.ToLong: ASCII digits only. Java's `parseInt` and `parseLong` use `Character.digit`, which also accepts other Unicode decimal digits (`"٢".toInt()` is 2). The model rejects such a type field or preference type with NumberFormatException. The app itself only writes ASCII digits.
- Tasks.DueDateMarksTime and Tasks.HideUntilMarksTime: hold under `Sane`, i.e. for time zones whose offset is a whole number of minutes. A zone with a sub-minute offset (Africa/Monrovia before 1972) can put noon or midnight off the minute.
