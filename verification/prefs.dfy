/** How a selected filter is remembered in the preferences
    (`DefaultFilterProvider`): the text `"<type>:<key>"`, and the lookup that
    turns it back into a filter, falling back to a default whenever the text
    is missing, names nothing, or cannot be parsed. The DAOs are maps. */
module FilterPreferences {
  import opened Base
  import opened Strings
  import opened Numbers

  const TYPE_FILTER: int := 0
  const TYPE_CUSTOM_FILTER: int := 1
  const TYPE_TAG: int := 2
  const TYPE_GOOGLE_TASKS: int := 3
  const TYPE_CALDAV: int := 4
  const TYPE_LOCATION: int := 5

  const FILTER_MY_TASKS: int := 0
  const FILTER_TODAY: int := 1
  const FILTER_RECENTLY_MODIFIED: int := 3

  /** The preference text separates type and key with a colon. */
  const COLON: char := ':'

  /** The plain filters: the three built-in ones and any other (a search,
      say), which is remembered as "my tasks". */
  datatype BuiltIn = MyTasks | Today | RecentlyModified | OtherBuiltIn(title: string)

  /** The stored rows a filter can stand for. */
  datatype StoredFilter = StoredFilter(id: int, title: string)
  datatype TagData = TagData(remoteId: string, name: Option<string>)
  datatype GoogleTaskList = GoogleTaskList(id: int, title: string)
  datatype CaldavCalendar = CaldavCalendar(uuid: string, name: string)
  datatype Place = Place(uid: string, name: string)

  /** The filter classes the provider distinguishes. */
  datatype Filter =
    | Plain(builtIn: BuiltIn)
    | CustomFilter(row: StoredFilter)
    | TagFilter(tag: TagData)
    | GtasksFilter(list: GoogleTaskList)
    | CaldavFilter(calendar: CaldavCalendar)
    | PlaceFilter(place: Place)

  /** The DAO lookups `loadFilter` uses, keyed as it keys them. */
  datatype Stores = Stores(
    filters: map<int, StoredFilter>,
    tags: map<string, TagData>,
    googleTaskLists: map<int, GoogleTaskList>,
    calendars: map<string, CaldavCalendar>,
    places: map<string, Place>)

  /** `getFilterType`. */
  function FilterType(f: Filter): (r: int)
    ensures TYPE_FILTER <= r <= TYPE_LOCATION
    ensures r == TYPE_TAG <==> f.TagFilter?
    ensures r == TYPE_GOOGLE_TASKS <==> f.GtasksFilter?
    ensures r == TYPE_CUSTOM_FILTER <==> f.CustomFilter?
    ensures r == TYPE_CALDAV <==> f.CaldavFilter?
    ensures r == TYPE_LOCATION <==> f.PlaceFilter?
    ensures r == TYPE_FILTER <==> f.Plain?
  {
    match f
    case TagFilter(_) => TYPE_TAG
    case GtasksFilter(_) => TYPE_GOOGLE_TASKS
    case CustomFilter(_) => TYPE_CUSTOM_FILTER
    case CaldavFilter(_) => TYPE_CALDAV
    case PlaceFilter(_) => TYPE_LOCATION
    case Plain(_) => TYPE_FILTER
  }

  /** `getBuiltInFilterId`: today and recently-modified have their own ids;
      every other plain filter is "my tasks". */
  function BuiltInFilterId(b: BuiltIn): (r: int)
    ensures r in {FILTER_MY_TASKS, FILTER_TODAY, FILTER_RECENTLY_MODIFIED}
    ensures r == FILTER_TODAY <==> b == Today
    ensures r == FILTER_RECENTLY_MODIFIED <==> b == RecentlyModified
  {
    if b == Today then FILTER_TODAY
    else if b == RecentlyModified then FILTER_RECENTLY_MODIFIED
    else FILTER_MY_TASKS
  }

  /** `getBuiltInFilter`: ids 1 and 3 name today and recently-modified; any
      other id, 2 ("uncategorized") included, gives "my tasks". */
  function BuiltInFilter(id: int): (r: BuiltIn)
    ensures r != MyTasks <==> id == FILTER_TODAY || id == FILTER_RECENTLY_MODIFIED
    ensures !r.OtherBuiltIn?
  {
    if id == FILTER_TODAY then Today
    else if id == FILTER_RECENTLY_MODIFIED then RecentlyModified
    else MyTasks
  }

  /** Remembering a plain filter and reading it back gives it again, except
      that a plain filter other than the three built-in ones comes back as
      "my tasks". */
  lemma BuiltInRoundTrip(b: BuiltIn)
    ensures !b.OtherBuiltIn? ==> BuiltInFilter(BuiltInFilterId(b)) == b
    ensures b.OtherBuiltIn? ==> BuiltInFilter(BuiltInFilterId(b)) == MyTasks
  {
  }

  /** The key written after the type: the built-in id, the custom filter's
      row id, the tag's uuid, the Google list's store id, the calendar's
      uuid or the place's uid. */
  function Key(f: Filter): string {
    match f
    case Plain(b) => IntToString(BuiltInFilterId(b))
    case CustomFilter(row) => IntToString(row.id)
    case TagFilter(tag) => tag.remoteId
    case GtasksFilter(list) => IntToString(list.id)
    case CaldavFilter(calendar) => calendar.uuid
    case PlaceFilter(place) => place.uid
  }

  /** A decimal text holds no colon. */
  lemma NoColonInNumber(n: int)
    ensures COLON !in IntToString(n)
  {
    var s := IntToString(n);
    assert forall i :: 0 <= i < |s| ==> s[i] != COLON;
  }

  /** `getFilterPreferenceValue`: `"<type>:<key>"`. The first colon-separated
      segment always parses back to the filter's type, and the second is the
      key whenever the key holds no colon. */
  function PreferenceValue(f: Filter): (r: string)
    ensures ToInt(Split(r, COLON)[0]) == Success(FilterType(f))
    ensures |Split(r, COLON)| >= 2
    ensures COLON !in Key(f) ==> Split(r, COLON) == [IntToString(FilterType(f)), Key(f)]
  {
    SplitTypeAndKey(FilterType(f), Key(f));
    IntToString(FilterType(f)) + [COLON] + Key(f)
  }

  /** A number, a colon and a key split into the number and the pieces of
      the key. */
  lemma SplitTypeAndKey(t: int, key: string)
    requires INT_MIN <= t <= INT_MAX
    ensures var s := Split(IntToString(t) + [COLON] + key, COLON);
      && |s| >= 2 && ToInt(s[0]) == Success(t)
      && (COLON !in key ==> s == [IntToString(t), key])
  {
    NoColonInNumber(t);
    SplitFirstDelimiter(IntToString(t), key, COLON);
    ToIntOfToString(t);
    if COLON !in key {
      SplitNoDelimiter(key, COLON);
    }
  }

  /** `split[1]`, which throws when the text has no colon. */
  function Second(split: seq<string>): (r: Result<string>)
    ensures r.Success? <==> |split| >= 2
    ensures r.Success? ==> r.value == split[1]
    ensures r.Failure? ==> r.error == IndexOutOfBoundsException(1)
  {
    if |split| >= 2 then Success(split[1]) else Failure(IndexOutOfBoundsException(1))
  }

  /** The filter of a type and key, absent when the lookup finds nothing or
      the tag has no name; the numeric keys must parse. */
  function Lookup(t: int, key: Result<string>, stores: Stores): (r: Result<Option<Filter>>)
    requires TYPE_FILTER <= t <= TYPE_LOCATION
    ensures r.Success? && r.value.Some? ==> FilterType(r.value.value) == t
    ensures key.Failure? ==> r == Failure(key.error)
  {
    var k :- key;
    if t == TYPE_FILTER then
      var id :- ToInt(k);
      Success(Some(Plain(BuiltInFilter(id))))
    else if t == TYPE_CUSTOM_FILTER then
      var id :- ToLong(k);
      Success(if id in stores.filters then Some(CustomFilter(stores.filters[id])) else None)
    else if t == TYPE_TAG then
      if k !in stores.tags then Success(None)
      else
        var tag := stores.tags[k];
        if tag.name.None? || |tag.name.value| == 0 then Success(None) else Success(Some(TagFilter(tag)))
    else if t == TYPE_GOOGLE_TASKS then
      var id :- ToLong(k);
      Success(if id in stores.googleTaskLists then Some(GtasksFilter(stores.googleTaskLists[id])) else None)
    else if t == TYPE_CALDAV then
      Success(if k in stores.calendars then Some(CaldavFilter(stores.calendars[k])) else None)
    else
      Success(if k in stores.places then Some(PlaceFilter(stores.places[k])) else None)
  }

  /** `loadFilter`: split at the colons, parse the first segment as the type
      and look the second up by that type. A type outside 0..5 gives no
      filter without reading the second segment; a non-numeric type, a
      missing segment or a non-numeric id throws. */
  function LoadFilter(preferenceValue: string, stores: Stores): (r: Result<Option<Filter>>)
    ensures ToInt(Split(preferenceValue, COLON)[0]).Failure? ==> r.Failure?
    ensures ToInt(Split(preferenceValue, COLON)[0]).Success? ==>
      var t := ToInt(Split(preferenceValue, COLON)[0]).value;
      && (!(TYPE_FILTER <= t <= TYPE_LOCATION) ==> r == Success(None))
      && (r.Success? && r.value.Some? ==> FilterType(r.value.value) == t)
    ensures r.Failure? ==> r.error.NumberFormatException? || r.error.IndexOutOfBoundsException?
  {
    var split := Split(preferenceValue, COLON);
    var t :- ToInt(split[0]);
    if TYPE_FILTER <= t <= TYPE_LOCATION then Lookup(t, Second(split), stores)
    else Success(None)
  }

  /** The private `getFilterFromPreference(value, def)`: the loaded filter,
      or `def` when there is no text, nothing is found, or loading throws. */
  function FromPreference(preferenceValue: Option<string>, def: Option<Filter>, stores: Stores)
    : (r: Option<Filter>)
    ensures preferenceValue.None? ==> r == def
    ensures preferenceValue.Some? ==>
      var loaded := LoadFilter(preferenceValue.value, stores);
      r == if loaded.Success? && loaded.value.Some? then loaded.value else def
  {
    match preferenceValue
    case None => def
    case Some(v) =>
      match LoadFilter(v, stores)
      case Success(Some(f)) => Some(f)
      case _ => def
  }

  /** The public `getFilterFromPreference(prefString)`: the same with "my
      tasks" as the default, so a filter always results. */
  function FilterFromPreference(preferenceValue: Option<string>, stores: Stores): (r: Filter)
    ensures preferenceValue.None? ==> r == Plain(MyTasks)
    ensures FromPreference(preferenceValue, Some(Plain(MyTasks)), stores) == Some(r)
  {
    FromPreference(preferenceValue, Some(Plain(MyTasks)), stores).value
  }

  /** A filter the stores can give back: its row is stored under its key,
      within the id type's range, and a tag has a non-empty name. */
  predicate Stored(f: Filter, stores: Stores) {
    match f
    case Plain(b) => !b.OtherBuiltIn?
    case CustomFilter(row) =>
      LONG_MIN <= row.id <= LONG_MAX && row.id in stores.filters && stores.filters[row.id] == row
    case TagFilter(tag) =>
      tag.remoteId in stores.tags && stores.tags[tag.remoteId] == tag
      && tag.name.Some? && |tag.name.value| > 0
    case GtasksFilter(list) =>
      LONG_MIN <= list.id <= LONG_MAX && list.id in stores.googleTaskLists
      && stores.googleTaskLists[list.id] == list
    case CaldavFilter(calendar) =>
      calendar.uuid in stores.calendars && stores.calendars[calendar.uuid] == calendar
    case PlaceFilter(place) => place.uid in stores.places && stores.places[place.uid] == place
  }

  /** Remembering a stored filter whose key holds no colon and loading the
      text back gives the same filter. */
  lemma PreferenceRoundTrip(f: Filter, stores: Stores)
    requires Stored(f, stores)
    requires COLON !in Key(f)
    ensures LoadFilter(PreferenceValue(f), stores) == Success(Some(f))
    ensures FilterFromPreference(Some(PreferenceValue(f)), stores) == f
  {
    var split := Split(PreferenceValue(f), COLON);
    assert split == [IntToString(FilterType(f)), Key(f)];
    ToIntOfToString(FilterType(f));
    match f
    case Plain(b) =>
      ToIntOfToString(BuiltInFilterId(b));
    case CustomFilter(row) =>
      ToLongOfToString(row.id);
    case GtasksFilter(list) =>
      ToLongOfToString(list.id);
    case _ =>
  }

  /** A remembered filter whose row has gone (or whose tag lost its name)
      falls back to the default. */
  lemma MissingFallsBack(f: Filter, stores: Stores, def: Option<Filter>)
    requires !f.Plain?
    requires COLON !in Key(f)
    requires match f
      case CustomFilter(row) => LONG_MIN <= row.id <= LONG_MAX && row.id !in stores.filters
      case TagFilter(tag) =>
        tag.remoteId !in stores.tags
        || stores.tags[tag.remoteId].name.None? || |stores.tags[tag.remoteId].name.value| == 0
      case GtasksFilter(list) => LONG_MIN <= list.id <= LONG_MAX && list.id !in stores.googleTaskLists
      case CaldavFilter(calendar) => calendar.uuid !in stores.calendars
      case PlaceFilter(place) => place.uid !in stores.places
      case Plain(_) => false
    ensures LoadFilter(PreferenceValue(f), stores) == Success(None)
    ensures FromPreference(Some(PreferenceValue(f)), def, stores) == def
  {
    var split := Split(PreferenceValue(f), COLON);
    assert split == [IntToString(FilterType(f)), Key(f)];
    ToIntOfToString(FilterType(f));
    match f
    case CustomFilter(row) =>
      ToLongOfToString(row.id);
    case GtasksFilter(list) =>
      ToLongOfToString(list.id);
    case _ =>
  }

  /** A text without a colon whose type is a known one throws on the missing
      segment, and the default results. */
  lemma MissingSegmentFallsBack(t: int, stores: Stores, def: Option<Filter>)
    requires TYPE_FILTER <= t <= TYPE_LOCATION
    ensures LoadFilter(IntToString(t), stores) == Failure(IndexOutOfBoundsException(1))
    ensures FromPreference(Some(IntToString(t)), def, stores) == def
  {
    NoColonInNumber(t);
    SplitNoDelimiter(IntToString(t), COLON);
    ToIntOfToString(t);
  }

  /** The preferences the provider reads. */
  datatype PrefKey = OpenLastViewedList | LastViewedList | DefaultOpenFilter | DashclockFilter | BadgeList | DefaultList

  /** String and boolean preferences; a missing key reads as null. */
  datatype Preferences = Preferences(strings: map<PrefKey, string>, booleans: map<PrefKey, bool>)

  /** `getStringValue`. */
  function StringValue(prefs: Preferences, key: PrefKey): (r: Option<string>)
    ensures r.Some? <==> key in prefs.strings
    ensures r.Some? ==> r.value == prefs.strings[key]
  {
    if key in prefs.strings then Some(prefs.strings[key]) else None
  }

  /** `setFilterPreference`: store the filter's preference text. */
  function SetFilterPreference(prefs: Preferences, f: Filter, key: PrefKey): (r: Preferences)
    ensures StringValue(r, key) == Some(PreferenceValue(f))
    ensures forall k :: k != key ==> StringValue(r, k) == StringValue(prefs, k)
    ensures r.booleans == prefs.booleans
  {
    prefs.(strings := prefs.strings[key := PreferenceValue(f)])
  }

  /** `getFilterFromPreference(resId)`: read the text and load it. */
  function FilterFromKey(prefs: Preferences, key: PrefKey, stores: Stores): (r: Filter)
    ensures key !in prefs.strings ==> r == Plain(MyTasks)
  {
    FilterFromPreference(StringValue(prefs, key), stores)
  }

  /** Storing a filter under a preference and reading that preference gives
      the filter back, for a stored filter whose key holds no colon. */
  lemma SetThenGet(prefs: Preferences, f: Filter, key: PrefKey, stores: Stores)
    requires Stored(f, stores) && COLON !in Key(f)
    ensures FilterFromKey(SetFilterPreference(prefs, f, key), key, stores) == f
  {
    PreferenceRoundTrip(f, stores);
  }

  /** `getStartupFilter`: the last viewed filter when "open last viewed
      list" is on, which it is unless set otherwise, and the default open
      filter when it is off. */
  function StartupFilter(prefs: Preferences, stores: Stores): (r: Filter)
    ensures (OpenLastViewedList !in prefs.booleans || prefs.booleans[OpenLastViewedList]) ==>
      r == FilterFromKey(prefs, LastViewedList, stores)
    ensures (OpenLastViewedList in prefs.booleans && !prefs.booleans[OpenLastViewedList]) ==>
      r == FilterFromKey(prefs, DefaultOpenFilter, stores)
  {
    var openLastViewed := if OpenLastViewedList in prefs.booleans then prefs.booleans[OpenLastViewedList] else true;
    if openLastViewed then FilterFromKey(prefs, LastViewedList, stores)
    else FilterFromKey(prefs, DefaultOpenFilter, stores)
  }

  /** With "open last viewed list" left at its default, the app starts in
      the filter last remembered as viewed; with it off, the last viewed
      filter plays no part. */
  lemma StartupAfterViewing(prefs: Preferences, f: Filter, stores: Stores)
    requires Stored(f, stores) && COLON !in Key(f)
    ensures OpenLastViewedList !in prefs.booleans ==>
      StartupFilter(SetFilterPreference(prefs, f, LastViewedList), stores) == f
    ensures OpenLastViewedList in prefs.booleans && !prefs.booleans[OpenLastViewedList] ==>
      StartupFilter(SetFilterPreference(prefs, f, LastViewedList), stores) == StartupFilter(prefs, stores)
  {
    SetThenGet(prefs, f, LastViewedList, stores);
  }
}
