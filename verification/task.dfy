/** The date and flag predicates of a task (`Task.java`) and the way a due
    date or a hide-until date is created from a picker setting. Times are
    epoch milliseconds held in a Java `long`. */
module Tasks {
  import opened Base
  import opened Numbers

  /** Milliseconds in a minute, a day and a week. */
  const ONE_MINUTE: int := 60000
  const ONE_DAY: int := 86400000
  const ONE_WEEK: int := 7 * ONE_DAY

  /** Task flags. */
  const FLAG_REPEAT_AFTER_COMPLETION: bv32 := 1 << 1
  const FLAG_IS_READONLY: bv32 := 1 << 2
  const FLAG_PUBLIC: bv32 := 1 << 3

  /** Notification flags. */
  const NOTIFY_AT_DEADLINE: bv32 := 1 << 1
  const NOTIFY_AFTER_DEADLINE: bv32 := 1 << 2
  const NOTIFY_MODE_NONSTOP: bv32 := 1 << 3
  const NOTIFY_MODE_FIVE: bv32 := 1 << 4

  /** The user id of the device's own user. */
  const USER_ID_SELF: int := 0

  /** Due-date picker settings. */
  const URGENCY_NONE: int := 0
  const URGENCY_TODAY: int := 1
  const URGENCY_TOMORROW: int := 2
  const URGENCY_DAY_AFTER: int := 3
  const URGENCY_NEXT_WEEK: int := 4
  const URGENCY_IN_TWO_WEEKS: int := 5
  const URGENCY_NEXT_MONTH: int := 6
  const URGENCY_SPECIFIC_DAY: int := 7
  const URGENCY_SPECIFIC_DAY_TIME: int := 8

  /** Hide-until picker settings. */
  const HIDE_UNTIL_NONE: int := 0
  const HIDE_UNTIL_DUE: int := 1
  const HIDE_UNTIL_DAY_BEFORE: int := 2
  const HIDE_UNTIL_WEEK_BEFORE: int := 3
  const HIDE_UNTIL_SPECIFIC_DAY: int := 4
  const HIDE_UNTIL_SPECIFIC_DAY_TIME: int := 5

  /** The columns the predicates read. `deletionDate` is absent when the
      column was not loaded. */
  datatype Task = Task(
    dueDate: int,
    completionDate: int,
    deletionDate: Option<int>,
    hideUntil: int,
    flags: bv32,
    userId: int)

  /** Java `long` arithmetic: the result wraps into the 64-bit range. */
  function WrapLong(x: int): (r: int)
    ensures LONG_MIN <= r <= LONG_MAX
    ensures LONG_MIN <= x <= LONG_MAX ==> r == x
    ensures (x - r) % 0x1_0000_0000_0000_0000 == 0
  {
    (x - LONG_MIN) % 0x1_0000_0000_0000_0000 + LONG_MIN
  }

  /** Java's `%`: the remainder takes the sign of the dividend. */
  function JavaRem(a: int, b: int): (r: int)
    requires b > 0
    ensures a >= 0 ==> r == a % b
    ensures a < 0 ==> -b < r <= 0
  {
    if a >= 0 then a % b else -((-a) % b)
  }

  /** Static `hasDueTime(dueDate)`: a positive date that is not on a whole
      minute carries a time of day; a whole minute means "date only". */
  predicate HasDueTimeAt(dueDate: int) {
    dueDate > 0 && JavaRem(dueDate, ONE_MINUTE) > 0
  }

  /** A due date carries a time exactly when it is positive and not a
      multiple of a minute. */
  lemma HasDueTimeSpec(dueDate: int)
    ensures HasDueTimeAt(dueDate) <==> dueDate > 0 && dueDate % ONE_MINUTE != 0
  {
  }

  /** `hasDueDate`. */
  predicate HasDueDate(t: Task) {
    t.dueDate > 0
  }

  /** `hasDueTime()`: only a task with a due date can have a due time. */
  function HasDueTime(t: Task): (r: bool)
    ensures r ==> HasDueDate(t)
    ensures r <==> HasDueTimeAt(t.dueDate)
  {
    if !HasDueDate(t) then false else HasDueTimeAt(t.dueDate)
  }

  /** `isCompleted`. */
  predicate IsCompleted(t: Task) {
    t.completionDate > 0
  }

  /** `isDeleted`: false when the deletion date was not loaded. */
  function IsDeleted(t: Task): (r: bool)
    ensures t.deletionDate.None? ==> !r
    ensures t.deletionDate.Some? ==> (r <==> t.deletionDate.value > 0)
  {
    match t.deletionDate
    case None => false
    case Some(d) => d > 0
  }

  /** `isHidden`, with the clock as a parameter. */
  predicate IsHidden(t: Task, now: int) {
    t.hideUntil > now
  }

  /** `getFlag`: whether the flag's bit is set. */
  predicate HasFlag(flags: bv32, flag: bv32) {
    flags & flag != 0
  }

  /** `isEditable`: not read-only, and not someone else's public task. */
  function IsEditable(t: Task): (r: bool)
    ensures HasFlag(t.flags, FLAG_IS_READONLY) ==> !r
    ensures HasFlag(t.flags, FLAG_PUBLIC) && t.userId != USER_ID_SELF ==> !r
    ensures !HasFlag(t.flags, FLAG_IS_READONLY) && !HasFlag(t.flags, FLAG_PUBLIC) ==> r
    ensures !HasFlag(t.flags, FLAG_IS_READONLY) && t.userId == USER_ID_SELF ==> r
  {
    !HasFlag(t.flags, FLAG_IS_READONLY)
      && !(HasFlag(t.flags, FLAG_PUBLIC) && t.userId != USER_ID_SELF)
  }

  /** Marking a task read-only makes it uneditable. */
  lemma ReadOnlyNotEditable(t: Task)
    ensures !IsEditable(t.(flags := t.flags | FLAG_IS_READONLY))
  {
    assert (t.flags | FLAG_IS_READONLY) & FLAG_IS_READONLY != 0;
  }

  /** Clearing the read-only and public bits makes a task editable. */
  lemma PrivateWritableEditable(t: Task)
    ensures IsEditable(t.(flags := t.flags & !(FLAG_IS_READONLY | FLAG_PUBLIC)))
  {
    assert (t.flags & !(FLAG_IS_READONLY | FLAG_PUBLIC)) & FLAG_IS_READONLY == 0;
  }

  /** The repeat flag plays no part in whether a task is editable. */
  lemma RepeatFlagIrrelevant(t: Task)
    ensures IsEditable(t.(flags := t.flags ^ FLAG_REPEAT_AFTER_COMPLETION)) == IsEditable(t)
  {
    assert (t.flags ^ FLAG_REPEAT_AFTER_COMPLETION) & FLAG_IS_READONLY == t.flags & FLAG_IS_READONLY;
    assert (t.flags ^ FLAG_REPEAT_AFTER_COMPLETION) & FLAG_PUBLIC == t.flags & FLAG_PUBLIC;
  }

  /** `isCompleted` reads the completion date and nothing else. */
  lemma IsCompletedFrame(t: Task, u: Task)
    requires t.completionDate == u.completionDate
    ensures IsCompleted(t) == IsCompleted(u)
  {
  }

  /** `isDeleted` reads the deletion date and nothing else; in particular
      the completion date does not make a task deleted. */
  lemma IsDeletedFrame(t: Task, u: Task)
    requires t.deletionDate == u.deletionDate
    ensures IsDeleted(t) == IsDeleted(u)
  {
  }

  /** `hasDueDate` and `hasDueTime()` read the due date and nothing else. */
  lemma DueDateFrame(t: Task, u: Task)
    requires t.dueDate == u.dueDate
    ensures HasDueDate(t) == HasDueDate(u)
    ensures HasDueTime(t) == HasDueTime(u)
  {
  }

  /** `isHidden` reads only the hide-until date and the clock. A task hidden
      at some time was hidden at every earlier time, and is visible once
      the clock reaches its hide-until date. */
  lemma HiddenUntil(t: Task, u: Task, now: int, later: int)
    ensures t.hideUntil == u.hideUntil ==> IsHidden(t, now) == IsHidden(u, now)
    ensures now <= later && IsHidden(t, later) ==> IsHidden(t, now)
    ensures !IsHidden(t, t.hideUntil)
  {
  }

  /** A single bit. */
  predicate SingleBit(b: bv32) {
    b != 0 && b & (b - 1) == 0
  }

  /** The task flags are distinct single bits, and so are the notification
      flags. */
  lemma FlagsAreDistinctBits()
    ensures SingleBit(FLAG_REPEAT_AFTER_COMPLETION) && SingleBit(FLAG_IS_READONLY) && SingleBit(FLAG_PUBLIC)
    ensures FLAG_REPEAT_AFTER_COMPLETION & FLAG_IS_READONLY == 0
    ensures FLAG_REPEAT_AFTER_COMPLETION & FLAG_PUBLIC == 0
    ensures FLAG_IS_READONLY & FLAG_PUBLIC == 0
    ensures SingleBit(NOTIFY_AT_DEADLINE) && SingleBit(NOTIFY_AFTER_DEADLINE)
    ensures SingleBit(NOTIFY_MODE_NONSTOP) && SingleBit(NOTIFY_MODE_FIVE)
    ensures NOTIFY_AT_DEADLINE & NOTIFY_AFTER_DEADLINE == 0
    ensures NOTIFY_AT_DEADLINE & NOTIFY_MODE_NONSTOP == 0
    ensures NOTIFY_AT_DEADLINE & NOTIFY_MODE_FIVE == 0
    ensures NOTIFY_AFTER_DEADLINE & NOTIFY_MODE_NONSTOP == 0
    ensures NOTIFY_AFTER_DEADLINE & NOTIFY_MODE_FIVE == 0
    ensures NOTIFY_MODE_NONSTOP & NOTIFY_MODE_FIVE == 0
  {
  }

  /** The clock and the time-zone dependent `java.util.Date` adjustments:
      the current time, one month from now, and, for a time already cut to
      whole seconds, that day at noon, that day at midnight, and that minute
      with the seconds set to one. */
  datatype Calendar = Calendar(
    now: int,
    oneMonthFromNow: int,
    atNoon: int -> int,
    atMidnight: int -> int,
    withOneSecond: int -> int)

  /** What the date-only/date-and-time convention relies on, for times
      from the epoch on: noon and midnight fall on a whole minute, and "one
      second past the minute" is a positive time that does not. */
  ghost predicate Sane(cal: Calendar) {
    && (forall t :: t >= 0 ==> cal.atNoon(t) % ONE_MINUTE == 0)
    && (forall t :: t >= 0 ==> cal.atMidnight(t) % ONE_MINUTE == 0)
    && (forall t :: t >= 0 ==> cal.withOneSecond(t) > 0 && cal.withOneSecond(t) % ONE_MINUTE == 1000)
  }

  /** `date / 1000L * 1000L` on a positive date: drop the milliseconds. */
  function WholeSeconds(date: int): (r: int)
    requires date > 0
    ensures 0 <= r <= date && date - r < 1000 && r % 1000 == 0
  {
    date / 1000 * 1000
  }

  /** The tail shared by both creators: a date that is not positive is
      returned as it is; otherwise the milliseconds are dropped and the
      time is either set to one second past the minute (an explicit time)
      or moved to the given anchor of its day. */
  function Finish(date: int, explicitTime: bool, anchor: int -> int, cal: Calendar): (r: int)
    ensures date <= 0 ==> r == date
  {
    if date <= 0 then date
    else if explicitTime then cal.withOneSecond(WholeSeconds(date))
    else anchor(WholeSeconds(date))
  }

  /** The date a due-date setting picks before it is finished: none, today,
      tomorrow, the day after, next week, in two weeks, next month, or the
      custom date; any other setting throws. */
  function DueDateBase(setting: int, customDate: int, cal: Calendar): (r: Result<int>)
    ensures r.Failure? <==> !(URGENCY_NONE <= setting <= URGENCY_SPECIFIC_DAY_TIME)
    ensures r.Failure? ==> r.error == IllegalArgumentException(setting)
    ensures setting == URGENCY_NONE ==> r == Success(0)
    ensures setting == URGENCY_SPECIFIC_DAY || setting == URGENCY_SPECIFIC_DAY_TIME ==> r == Success(customDate)
  {
    if setting == URGENCY_NONE then Success(0)
    else if setting == URGENCY_TODAY then Success(cal.now)
    else if setting == URGENCY_TOMORROW then Success(WrapLong(cal.now + ONE_DAY))
    else if setting == URGENCY_DAY_AFTER then Success(WrapLong(cal.now + 2 * ONE_DAY))
    else if setting == URGENCY_NEXT_WEEK then Success(WrapLong(cal.now + ONE_WEEK))
    else if setting == URGENCY_IN_TWO_WEEKS then Success(WrapLong(cal.now + 2 * ONE_WEEK))
    else if setting == URGENCY_NEXT_MONTH then Success(cal.oneMonthFromNow)
    else if setting == URGENCY_SPECIFIC_DAY || setting == URGENCY_SPECIFIC_DAY_TIME then Success(customDate)
    else Failure(IllegalArgumentException(setting))
  }

  /** `createDueDate`: the picked date, returned unchanged when it is not
      positive, otherwise at noon of its day unless a specific time was
      picked, which is kept with the seconds set to one. */
  function CreateDueDate(setting: int, customDate: int, cal: Calendar): (r: Result<int>)
    ensures r.Failure? <==> !(URGENCY_NONE <= setting <= URGENCY_SPECIFIC_DAY_TIME)
    ensures r.Failure? ==> r.error == IllegalArgumentException(setting)
    ensures setting == URGENCY_NONE ==> r == Success(0)
    ensures r.Success? && DueDateBase(setting, customDate, cal).value <= 0 ==>
      r.value == DueDateBase(setting, customDate, cal).value
  {
    var date :- DueDateBase(setting, customDate, cal);
    Success(Finish(date, setting == URGENCY_SPECIFIC_DAY_TIME, cal.atNoon, cal))
  }

  /** A created due date carries a time of day exactly when a specific time
      was picked (for a date that is positive at all), so "date only" and
      "date and time" can be told apart afterwards. */
  lemma DueDateMarksTime(setting: int, customDate: int, cal: Calendar)
    requires Sane(cal)
    requires URGENCY_NONE <= setting <= URGENCY_SPECIFIC_DAY_TIME
    ensures var date := DueDateBase(setting, customDate, cal).value;
      date > 0 ==> (HasDueTimeAt(CreateDueDate(setting, customDate, cal).value) <==> setting == URGENCY_SPECIFIC_DAY_TIME)
  {
    var date := DueDateBase(setting, customDate, cal).value;
    if date > 0 {
      var w := WholeSeconds(date);
      assert cal.atNoon(w) % ONE_MINUTE == 0;
      assert cal.withOneSecond(w) > 0 && cal.withOneSecond(w) % ONE_MINUTE == 1000;
    }
  }

  /** The date a hide-until setting picks before it is finished: the due
      date, a day or a week before it, or the custom date; any setting but
      these and "none" throws. */
  function HideUntilBase(t: Task, setting: int, customDate: int): (r: Result<int>)
    requires setting != HIDE_UNTIL_NONE
    ensures r.Failure? <==> !(HIDE_UNTIL_DUE <= setting <= HIDE_UNTIL_SPECIFIC_DAY_TIME)
    ensures r.Failure? ==> r.error == IllegalArgumentException(setting)
    ensures setting == HIDE_UNTIL_DUE ==> r == Success(t.dueDate)
    ensures setting == HIDE_UNTIL_SPECIFIC_DAY || setting == HIDE_UNTIL_SPECIFIC_DAY_TIME ==> r == Success(customDate)
  {
    if setting == HIDE_UNTIL_DUE then Success(t.dueDate)
    else if setting == HIDE_UNTIL_DAY_BEFORE then Success(WrapLong(t.dueDate - ONE_DAY))
    else if setting == HIDE_UNTIL_WEEK_BEFORE then Success(WrapLong(t.dueDate - ONE_WEEK))
    else if setting == HIDE_UNTIL_SPECIFIC_DAY || setting == HIDE_UNTIL_SPECIFIC_DAY_TIME then Success(customDate)
    else Failure(IllegalArgumentException(setting))
  }

  /** `createHideUntil`: "none" is 0 straight away; otherwise the picked
      date, returned unchanged when not positive, else at midnight of its
      day unless a specific time was picked. */
  function CreateHideUntil(t: Task, setting: int, customDate: int, cal: Calendar): (r: Result<int>)
    ensures r.Failure? <==> !(HIDE_UNTIL_NONE <= setting <= HIDE_UNTIL_SPECIFIC_DAY_TIME)
    ensures r.Failure? ==> r.error == IllegalArgumentException(setting)
    ensures setting == HIDE_UNTIL_NONE ==> r == Success(0)
    ensures r.Success? && setting != HIDE_UNTIL_NONE && HideUntilBase(t, setting, customDate).value <= 0 ==>
      r.value == HideUntilBase(t, setting, customDate).value
  {
    if setting == HIDE_UNTIL_NONE then Success(0)
    else
      var date :- HideUntilBase(t, setting, customDate);
      Success(Finish(date, setting == HIDE_UNTIL_SPECIFIC_DAY_TIME, cal.atMidnight, cal))
  }

  /** For a due date in the `long` range, "a day before" and "a week
      before" subtract exactly a day and a week: the wrap-around only
      touches due dates within a week of the smallest `long`. */
  lemma HideUntilBeforeDue(t: Task, customDate: int)
    requires LONG_MIN + ONE_WEEK <= t.dueDate <= LONG_MAX
    ensures HideUntilBase(t, HIDE_UNTIL_DAY_BEFORE, customDate) == Success(t.dueDate - ONE_DAY)
    ensures HideUntilBase(t, HIDE_UNTIL_WEEK_BEFORE, customDate) == Success(t.dueDate - ONE_WEEK)
  {
  }

  /** A created hide-until date carries a time of day exactly when a
      specific time was picked, for a picked date that is positive. */
  lemma HideUntilMarksTime(t: Task, setting: int, customDate: int, cal: Calendar)
    requires Sane(cal)
    requires HIDE_UNTIL_DUE <= setting <= HIDE_UNTIL_SPECIFIC_DAY_TIME
    ensures var date := HideUntilBase(t, setting, customDate).value;
      date > 0 ==> (HasDueTimeAt(CreateHideUntil(t, setting, customDate, cal).value) <==> setting == HIDE_UNTIL_SPECIFIC_DAY_TIME)
  {
    var date := HideUntilBase(t, setting, customDate).value;
    if date > 0 {
      var w := WholeSeconds(date);
      assert cal.atMidnight(w) % ONE_MINUTE == 0;
      assert cal.withOneSecond(w) > 0 && cal.withOneSecond(w) % ONE_MINUTE == 1000;
    }
  }
}
