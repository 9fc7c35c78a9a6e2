/**
 The windows in which usage is metered: signup anniversaries, UTC months, the paid period, and
 the floor that a downgrade puts under them.
 */
module UsageWindows {
  import opened Results
  import opened Calendar

  /** `datetime` raises ValueError for a year outside 1..9999. */
  datatype CalendarError = YearOutOfRange

  /** A half-open window: it contains its start and not its end. */
  datatype Window = Window(start: Instant, end: Instant)

  predicate In(t: Instant, w: Window) {
    AtOrBefore(w.start, t) && !AtOrBefore(w.end, t)
  }

  function Later(a: Instant, b: Instant): Instant {
    if AtOrBefore(a, b) then b else a
  }

  // The window functions.

  function AnniversaryInMonth(month: Month, signupDay: int): Result<Instant, CalendarError> {
    if MIN_YEAR <= month.year <= MAX_YEAR then
      Ok(Instant(month.year, month.number, if signupDay <= LastDay(month) then signupDay else LastDay(month), 0))
    else Err(YearOutOfRange)
  }

  function SignupAnniversaryWindow(createdAt: Instant, now: Instant): Result<Window, CalendarError> {
    var thisAnniversary :- AnniversaryInMonth(MonthOf(now), createdAt.day);
    if AtOrBefore(thisAnniversary, now) then
      var nextYear := if now.month == 12 then now.year + 1 else now.year;
      var nextMonth := if now.month == 12 then 1 else now.month + 1;
      var end :- AnniversaryInMonth(Month(nextYear, nextMonth), createdAt.day);
      Ok(Window(thisAnniversary, end))
    else
      var prevYear := if now.month == 1 then now.year - 1 else now.year;
      var prevMonth := if now.month == 1 then 12 else now.month - 1;
      var start :- AnniversaryInMonth(Month(prevYear, prevMonth), createdAt.day);
      Ok(Window(start, thisAnniversary))
  }

  function UtcMonthWindow(now: Instant): Result<Window, CalendarError> {
    var monthStart := Instant(now.year, now.month, 1, 0);
    if now.month == 12 then
      if now.year + 1 <= MAX_YEAR then Ok(Window(monthStart, Instant(now.year + 1, 1, 1, 0)))
      else Err(YearOutOfRange)
    else Ok(Window(monthStart, Instant(now.year, now.month + 1, 1, 0)))
  }

  /** The fields of a `User` row that metering reads. */
  datatype Account = Account(
    isPremium: bool,
    subscriptionStart: Option<Instant>,
    subscriptionEnd: Option<Instant>,
    createdAt: Option<Instant>,
    freeUsageEpoch: Option<Instant>,
    workflowPickRequired: bool)

  predicate ValidOption(t: Option<Instant>) {
    t.Some? ==> Valid(t.value)
  }

  predicate ValidAccount(a: Account) {
    ValidOption(a.subscriptionStart) && ValidOption(a.subscriptionEnd)
    && ValidOption(a.createdAt) && ValidOption(a.freeUsageEpoch)
  }

  function StripePeriodCurrent(a: Account, now: Instant): Option<Window> {
    if !a.isPremium || a.subscriptionStart.None? || a.subscriptionEnd.None? then None
    else
      var w := Window(a.subscriptionStart.value, a.subscriptionEnd.value);
      if In(now, w) then Some(w) else None
  }

  function AnniversaryOrMonth(createdAt: Option<Instant>, now: Instant): Result<Window, CalendarError> {
    if createdAt.Some? then SignupAnniversaryWindow(createdAt.value, now) else UtcMonthWindow(now)
  }

  function UsagePeriodWindow(enforced: bool, a: Account, now: Instant): Result<Window, CalendarError> {
    var stripePeriod := StripePeriodCurrent(a, now);
    if stripePeriod.Some? then Ok(stripePeriod.value)
    else if a.isPremium then UtcMonthWindow(now)
    else if enforced && a.workflowPickRequired then
      var w :- AnniversaryOrMonth(a.createdAt, now);
      Ok(Window(now, w.end))
    else
      var anchor := if a.createdAt.Some? && a.freeUsageEpoch.Some? then Later(a.freeUsageEpoch.value, now) else now;
      var w :- AnniversaryOrMonth(a.createdAt, anchor);
      if a.freeUsageEpoch.Some? && !AtOrBefore(a.freeUsageEpoch.value, w.start) then
        Ok(w.(start := a.freeUsageEpoch.value))
      else Ok(w)
  }

  // Signup anniversaries cut the timeline into periods, one starting in each month.

  /** The anniversary in month `m`. */
  function Boundary(m: Month, day: int): Instant {
    Instant(m.year, m.number, if day <= LastDay(m) then day else LastDay(m), 0)
  }

  /** The month in which the period that contains `t` starts. */
  function PeriodMonth(t: Instant, day: int): Month {
    if AtOrBefore(Boundary(MonthOf(t), day), t) then MonthOf(t) else Prev(MonthOf(t))
  }

  function Period(m: Month, day: int): Window {
    Window(Boundary(m, day), Boundary(Next(m), day))
  }

  lemma InPeriodIffMonth(t: Instant, day: int, m: Month)
    requires Valid(t) && IsMonth(m) && 1 <= day <= 31
    ensures In(t, Period(m, day)) <==> PeriodMonth(t, day) == m
  {
  }

  predicate Representable(m: Month) {
    MIN_YEAR <= m.year <= MAX_YEAR
  }

  /** The branches of the function find the period, or fail at either end of the calendar. */
  lemma SignupWindowIsPeriod(createdAt: Instant, now: Instant)
    requires Valid(createdAt) && Valid(now)
    ensures var m := PeriodMonth(now, createdAt.day);
      SignupAnniversaryWindow(createdAt, now)
      == if Representable(m) && Representable(Next(m)) then Ok(Period(m, createdAt.day)) else Err(YearOutOfRange)
  {
  }

  /** The only instants without a window lie in the first and the last month of the calendar. */
  lemma AnniversaryWindowUndefinedIff(createdAt: Instant, now: Instant)
    requires Valid(createdAt) && Valid(now)
    ensures SignupAnniversaryWindow(createdAt, now).Err? <==>
      var reached := AtOrBefore(Boundary(MonthOf(now), createdAt.day), now);
      (MonthOf(now) == Month(MAX_YEAR, 12) && reached) || (MonthOf(now) == Month(MIN_YEAR, 1) && !reached)
  {
  }

  /**
   The windows partition the timeline: each contains the instant it was computed for, every
   instant in it computes the same window, and the window at its end starts there.
   */
  lemma AnniversaryWindowsPartition(createdAt: Instant, now: Instant)
    requires Valid(createdAt) && Valid(now)
    ensures SignupAnniversaryWindow(createdAt, now).Ok? ==>
      var w := SignupAnniversaryWindow(createdAt, now).value;
      && Valid(w.start) && Valid(w.end) && In(now, w)
      && (forall t :: Valid(t) && In(t, w) ==> SignupAnniversaryWindow(createdAt, t) == Ok(w))
      && (SignupAnniversaryWindow(createdAt, w.end).Ok? ==>
            SignupAnniversaryWindow(createdAt, w.end).value.start == w.end)
  {
    var day, m := createdAt.day, PeriodMonth(now, createdAt.day);
    SignupWindowIsPeriod(createdAt, now);
    InPeriodIffMonth(now, day, m);
    if SignupAnniversaryWindow(createdAt, now).Ok? {
      forall t | Valid(t) && In(t, Period(m, day))
        ensures SignupAnniversaryWindow(createdAt, t) == Ok(Period(m, day))
      {
        InPeriodIffMonth(t, day, m);
        SignupWindowIsPeriod(createdAt, t);
      }
      SignupWindowIsPeriod(createdAt, Period(m, day).end);
    }
  }

  /** Every anniversary window lasts 28 to 31 whole days, for every signup day. */
  lemma AnniversaryWindowLength(createdAt: Instant, now: Instant)
    requires Valid(createdAt) && Valid(now) && SignupAnniversaryWindow(createdAt, now).Ok?
    ensures var w := SignupAnniversaryWindow(createdAt, now).value;
      IsMonth(MonthOf(w.start)) && IsMonth(MonthOf(w.end)) &&
      var length := Micros(w.end) - Micros(w.start);
      28 * MICROS_PER_DAY <= length <= 31 * MICROS_PER_DAY && length % MICROS_PER_DAY == 0
  {
    SignupWindowIsPeriod(createdAt, now);
    var day, m := createdAt.day, PeriodMonth(now, createdAt.day);
    assert Prev(Next(m)) == m;
    var days := LastDay(m) - Boundary(m, day).day + Boundary(Next(m), day).day;
    assert Micros(Boundary(Next(m), day)) - Micros(Boundary(m, day)) == days * MICROS_PER_DAY;
  }

  // The same for UTC months.

  lemma MonthWindowPartition(now: Instant, t: Instant)
    requires Valid(now) && Valid(t)
    ensures UtcMonthWindow(now).Err? <==> now.year == MAX_YEAR && now.month == 12
    ensures UtcMonthWindow(now).Ok? ==>
      var w := UtcMonthWindow(now).value;
      && Valid(w.start) && Valid(w.end) && In(now, w)
      && (In(t, w) ==> UtcMonthWindow(t) == Ok(w))
      && (UtcMonthWindow(w.end).Ok? ==> UtcMonthWindow(w.end).value.start == w.end)
  {
  }

  lemma BaseWindowContains(createdAt: Option<Instant>, now: Instant)
    requires ValidOption(createdAt) && Valid(now) && AnniversaryOrMonth(createdAt, now).Ok?
    ensures In(now, AnniversaryOrMonth(createdAt, now).value)
  {
  }

  lemma BaseWindowStable(createdAt: Option<Instant>, now: Instant, t: Instant)
    requires ValidOption(createdAt) && Valid(now) && Valid(t) && AnniversaryOrMonth(createdAt, now).Ok?
    requires In(t, AnniversaryOrMonth(createdAt, now).value)
    ensures AnniversaryOrMonth(createdAt, t) == AnniversaryOrMonth(createdAt, now)
  {
  }

  // Free metering: no paid plan, and no workflow pick pending.

  predicate MetersFree(enforced: bool, a: Account) {
    ValidAccount(a) && !a.isPremium && !(enforced && a.workflowPickRequired)
  }

  /** Where the metered window starts, for an account with a signup date and a downgrade epoch. */
  lemma EpochFloorsStart(enforced: bool, a: Account, now: Instant)
    requires MetersFree(enforced, a) && Valid(now) && a.createdAt.Some? && a.freeUsageEpoch.Some?
    requires UsagePeriodWindow(enforced, a, now).Ok?
    ensures var w, epoch := UsagePeriodWindow(enforced, a, now).value, a.freeUsageEpoch.value;
      if AtOrBefore(epoch, now)
      then SignupAnniversaryWindow(a.createdAt.value, now).Ok?
        && w.start == Later(SignupAnniversaryWindow(a.createdAt.value, now).value.start, epoch)
        && w.end == SignupAnniversaryWindow(a.createdAt.value, now).value.end
      else w.start == epoch && !AtOrBefore(w.end, epoch)
  {
  }

  /** Two readings of the clock that see a common instant in their windows see the same window. */
  lemma FreeWindowStable(enforced: bool, a: Account, now: Instant, t: Instant)
    requires MetersFree(enforced, a) && Valid(now) && Valid(t)
    requires UsagePeriodWindow(enforced, a, now).Ok? && In(t, UsagePeriodWindow(enforced, a, now).value)
    ensures UsagePeriodWindow(enforced, a, t) == UsagePeriodWindow(enforced, a, now)
  {
    var anchor := if a.createdAt.Some? && a.freeUsageEpoch.Some? then Later(a.freeUsageEpoch.value, now) else now;
    BaseWindowStable(a.createdAt, anchor, t);
  }

  /**
   Usage is conserved under a downgrade epoch: a row from the epoch on counts in exactly one
   window, the one computed at the row's own time, and a row from before it counts in none.
   */
  lemma MeteringConservesUsage(enforced: bool, a: Account, row: Instant)
    requires MetersFree(enforced, a) && Valid(row)
    ensures a.freeUsageEpoch.Some? && !AtOrBefore(a.freeUsageEpoch.value, row) ==>
      forall now :: Valid(now) && UsagePeriodWindow(enforced, a, now).Ok? ==>
        !In(row, UsagePeriodWindow(enforced, a, now).value)
    ensures !(a.freeUsageEpoch.Some? && !AtOrBefore(a.freeUsageEpoch.value, row)) && UsagePeriodWindow(enforced, a, row).Ok? ==>
      && In(row, UsagePeriodWindow(enforced, a, row).value)
      && forall now :: Valid(now) && UsagePeriodWindow(enforced, a, now).Ok? && In(row, UsagePeriodWindow(enforced, a, now).value) ==>
           UsagePeriodWindow(enforced, a, now) == UsagePeriodWindow(enforced, a, row)
  {
    forall now | Valid(now) && UsagePeriodWindow(enforced, a, now).Ok? && In(row, UsagePeriodWindow(enforced, a, now).value)
      ensures UsagePeriodWindow(enforced, a, now) == UsagePeriodWindow(enforced, a, row)
    {
      FreeWindowStable(enforced, a, now, row);
    }
    if UsagePeriodWindow(enforced, a, row).Ok? && !(a.freeUsageEpoch.Some? && !AtOrBefore(a.freeUsageEpoch.value, row)) {
      BaseWindowContains(a.createdAt, row);
    }
  }

  /**
   While a pick is pending a free account's window opens at the reading itself: nothing used before
   it counts, and it closes where the window without a pick or an epoch would.
   */
  lemma PickPendingForgetsUsage(a: Account, now: Instant)
    requires ValidAccount(a) && Valid(now) && !a.isPremium && a.workflowPickRequired
    ensures var r, base := UsagePeriodWindow(true, a, now), UsagePeriodWindow(true, a.(workflowPickRequired := false, freeUsageEpoch := None), now);
      && (r.Ok? <==> base.Ok?)
      && (r.Ok? ==> r.value.start == now && r.value.end == base.value.end && In(now, r.value))
      && (r.Ok? ==> forall t :: Valid(t) && !AtOrBefore(now, t) ==> !In(t, r.value))
  {
    if AnniversaryOrMonth(a.createdAt, now).Ok? {
      BaseWindowContains(a.createdAt, now);
    }
  }

  // A paid plan falls back to UTC months outside its stored period, and then windows can overlap.

  ghost predicate EachInstantInOneWindow(enforced: bool, a: Account) {
    forall now, t | Valid(now) && Valid(t) && UsagePeriodWindow(enforced, a, now).Ok?
      && In(t, UsagePeriodWindow(enforced, a, now).value) ::
      UsagePeriodWindow(enforced, a, t) == UsagePeriodWindow(enforced, a, now)
  }

  predicate AtMonthStart(t: Instant) {
    UtcMonthWindow(t).Ok? ==> UtcMonthWindow(t).value.start == t
  }

  /**
   A paid account's usage counts once each exactly when its stored period, if it has one, starts
   and ends at the start of a UTC month.
   */
  lemma PaidWindowsDisjointIff(enforced: bool, a: Account)
    requires ValidAccount(a) && a.isPremium
    ensures EachInstantInOneWindow(enforced, a) <==>
      (a.subscriptionStart.Some? && a.subscriptionEnd.Some? && !AtOrBefore(a.subscriptionEnd.value, a.subscriptionStart.value) ==>
         AtMonthStart(a.subscriptionStart.value) && AtMonthStart(a.subscriptionEnd.value))
  {
    if a.subscriptionStart.Some? && a.subscriptionEnd.Some? && !AtOrBefore(a.subscriptionEnd.value, a.subscriptionStart.value) {
      var start, end := a.subscriptionStart.value, a.subscriptionEnd.value;
      if AtMonthStart(start) && AtMonthStart(end) {
        AlignedPeriodDisjoint(enforced, a, start, end);
      } else {
        MisalignedPeriodOverlaps(enforced, a, start, end);
      }
    } else {
      forall now, t | Valid(now) && Valid(t) && UsagePeriodWindow(enforced, a, now).Ok?
        && In(t, UsagePeriodWindow(enforced, a, now).value)
        ensures UsagePeriodWindow(enforced, a, t) == UsagePeriodWindow(enforced, a, now)
      {
        MonthWindowPartition(now, t);
      }
    }
  }

  lemma MisalignedPeriodOverlaps(enforced: bool, a: Account, start: Instant, end: Instant)
    requires ValidAccount(a) && a.isPremium && a.subscriptionStart == Some(start) && a.subscriptionEnd == Some(end)
    requires !AtOrBefore(end, start) && !(AtMonthStart(start) && AtMonthStart(end))
    ensures !EachInstantInOneWindow(enforced, a)
  {
    if !AtMonthStart(start) {
      var early := UtcMonthWindow(start).value.start;
      assert In(start, UsagePeriodWindow(enforced, a, early).value);
      assert UsagePeriodWindow(enforced, a, start) != UsagePeriodWindow(enforced, a, early);
    } else {
      var early := UtcMonthWindow(end).value.start;
      assert UsagePeriodWindow(enforced, a, end) == UtcMonthWindow(end);
      assert In(early, UsagePeriodWindow(enforced, a, end).value);
      assert UsagePeriodWindow(enforced, a, early) != UsagePeriodWindow(enforced, a, end);
    }
  }

  lemma AlignedPeriodDisjoint(enforced: bool, a: Account, start: Instant, end: Instant)
    requires ValidAccount(a) && a.isPremium && a.subscriptionStart == Some(start) && a.subscriptionEnd == Some(end)
    requires !AtOrBefore(end, start) && AtMonthStart(start) && AtMonthStart(end)
    ensures EachInstantInOneWindow(enforced, a)
  {
  }
}
