/** The cap theorem of the quota protocol, for the windows the calendar computes for an account. */
module QuotaCalendar {
  import opened Results
  import opened Calendar
  import opened QuotaProtocol
  import opened UsageWindows

  /** The account's window at a position of the clock; empty where the code raises an error. */
  function SpanAt(enforced: bool, a: Account, micros: int): Span {
    var now := InstantAt(micros);
    if Valid(now) && UsagePeriodWindow(enforced, a, now).Ok? then
      var w := UsagePeriodWindow(enforced, a, now).value;
      if Valid(w.start) && Valid(w.end) then Span(Micros(w.start), Micros(w.end)) else Span(0, 0)
    else Span(0, 0)
  }

  function MeteringSpans(enforced: bool, a: Account): int -> Span {
    micros => SpanAt(enforced, a, micros)
  }

  lemma TimelineInRange(micros: int, start: Instant, end: Instant)
    requires Valid(start) && Valid(end) && Micros(start) <= micros < Micros(end)
    ensures Valid(InstantAt(micros))
  {
    var t := InstantAt(micros);
    DayNumberPositive(MonthOf(start));
    assert micros / MICROS_PER_DAY >= 1;
    if t.year > MAX_YEAR {
      MonthsInOrder(MonthOf(end), MonthOf(t));
    }
  }

  /** The windows of an account as the protocol needs them, stated on datetimes. */
  ghost predicate ReachBack(enforced: bool, a: Account) {
    forall now, t | Valid(now) && Valid(t) && UsagePeriodWindow(enforced, a, now).Ok?
      && In(t, UsagePeriodWindow(enforced, a, now).value) ::
      && UsagePeriodWindow(enforced, a, t).Ok? && In(t, UsagePeriodWindow(enforced, a, t).value)
      && AtOrBefore(UsagePeriodWindow(enforced, a, t).value.start, UsagePeriodWindow(enforced, a, now).value.start)
  }

  lemma WindowEndsValid(enforced: bool, a: Account, now: Instant)
    requires ValidAccount(a) && Valid(now) && UsagePeriodWindow(enforced, a, now).Ok?
    ensures Valid(UsagePeriodWindow(enforced, a, now).value.start) && Valid(UsagePeriodWindow(enforced, a, now).value.end)
  {
    var anchor := if a.createdAt.Some? && a.freeUsageEpoch.Some? then Later(a.freeUsageEpoch.value, now) else now;
    MonthWindowPartition(now, now);
    if a.createdAt.Some? {
      AnniversaryWindowsPartition(a.createdAt.value, now);
      AnniversaryWindowsPartition(a.createdAt.value, anchor);
    }
  }

  lemma SpanIsWindow(enforced: bool, a: Account, micros: int, t: Instant)
    requires ValidAccount(a) && Valid(InstantAt(micros)) && Valid(t)
    requires UsagePeriodWindow(enforced, a, InstantAt(micros)).Ok?
    ensures var w := UsagePeriodWindow(enforced, a, InstantAt(micros)).value;
      Valid(w.start) && Valid(w.end) && SpanAt(enforced, a, micros) == Span(Micros(w.start), Micros(w.end))
      && (In(t, w) <==> Within(Micros(t), SpanAt(enforced, a, micros)))
  {
    var w := UsagePeriodWindow(enforced, a, InstantAt(micros)).value;
    WindowEndsValid(enforced, a, InstantAt(micros));
    ComparisonIsTimeline(w.start, t);
    ComparisonIsTimeline(w.end, t);
  }

  lemma SpansReachBack(enforced: bool, a: Account)
    requires ValidAccount(a) && ReachBack(enforced, a)
    ensures WindowsReachBack(MeteringSpans(enforced, a))
  {
    var spans := MeteringSpans(enforced, a);
    forall t, x | Within(t, spans(x))
      ensures spans(t).start <= spans(x).start && t < spans(t).end
    {
      var now, at := InstantAt(x), InstantAt(t);
      var w := UsagePeriodWindow(enforced, a, now).value;
      WindowEndsValid(enforced, a, now);
      TimelineInRange(t, w.start, w.end);
      SpanIsWindow(enforced, a, x, at);
      assert In(at, w);
      SpanIsWindow(enforced, a, t, at);
      ComparisonIsTimeline(UsagePeriodWindow(enforced, a, at).value.start, w.start);
    }
  }

  /** Reserved usage stays within every cap, in every window the account ever computes, over every run. */
  ghost predicate AlwaysWithinCap(a: Account) {
    forall cap: nat, s, events, micros | Quiet(Policy(true, cap, MeteringSpans(true, a)), s) ::
      ReservedIn(Run(Policy(true, cap, MeteringSpans(true, a)), s, events).rows, SpanAt(true, a, micros)) <= cap
  }

  lemma ReachBackWithinCap(a: Account)
    requires ValidAccount(a) && ReachBack(true, a)
    ensures AlwaysWithinCap(a)
  {
    SpansReachBack(true, a);
    forall cap: nat, s, events, micros | Quiet(Policy(true, cap, MeteringSpans(true, a)), s)
      ensures ReservedIn(Run(Policy(true, cap, MeteringSpans(true, a)), s, events).rows, SpanAt(true, a, micros)) <= cap
    {
      ReservedUsageWithinCap(Policy(true, cap, MeteringSpans(true, a)), s, events, micros);
    }
  }

  /**
   A Free account's reservations stay within its cap in every window its calendar ever computes,
   whatever its callers, their crashes and their flushes do, across signup anniversaries and a
   downgrade epoch.
   */
  lemma FreeAccountWithinCap(a: Account)
    requires MetersFree(true, a)
    ensures AlwaysWithinCap(a)
  {
    forall now, t | Valid(now) && Valid(t) && UsagePeriodWindow(true, a, now).Ok? && In(t, UsagePeriodWindow(true, a, now).value)
      ensures UsagePeriodWindow(true, a, t) == UsagePeriodWindow(true, a, now)
    {
      FreeWindowStable(true, a, now, t);
    }
    ReachBackWithinCap(a);
  }

  predicate HasStoredPeriod(a: Account) {
    a.subscriptionStart.Some? && a.subscriptionEnd.Some? && !AtOrBefore(a.subscriptionEnd.value, a.subscriptionStart.value)
  }

  lemma AlignedStartReachesBack(a: Account)
    requires ValidAccount(a) && a.isPremium && (HasStoredPeriod(a) ==> AtMonthStart(a.subscriptionStart.value))
    ensures ReachBack(true, a)
  {
  }

  /** A stored period that starts inside a UTC month does not reach back to the month's start, and the month reaches over its start. */
  lemma MisalignedWindows(a: Account) returns (first: int, second: int)
    requires ValidAccount(a) && a.isPremium && HasStoredPeriod(a) && !AtMonthStart(a.subscriptionStart.value)
    ensures first <= second && !Within(first, SpanAt(true, a, second))
    ensures Within(first, SpanAt(true, a, first)) && Within(second, SpanAt(true, a, first))
  {
    hide Micros, SpanAt;
    var start := a.subscriptionStart.value;
    var month := UtcMonthWindow(start).value.start;
    first, second := Micros(month), Micros(start);
    TimelineInverse(month);
    TimelineInverse(start);
    ComparisonIsTimeline(month, start);
    SpanIsWindow(true, a, first, start);
    SpanIsWindow(true, a, first, month);
    SpanIsWindow(true, a, second, month);
  }

  lemma EmptyStateIsQuiet(p: Policy, clock: int)
    ensures Quiet(p, State(clock, None, [], map[]))
  {
  }

  /**
   With a stored period that starts inside a UTC month, one call before it and one call at its
   start both count in that month, and are checked against different windows.
   */
  lemma MisalignedStartExceedsCap(a: Account) returns (s: State, events: seq<Event>, micros: int)
    requires ValidAccount(a) && a.isPremium && HasStoredPeriod(a) && !AtMonthStart(a.subscriptionStart.value)
    ensures Quiet(Policy(true, 100, MeteringSpans(true, a)), s)
    ensures ReservedIn(Run(Policy(true, 100, MeteringSpans(true, a)), s, events).rows, SpanAt(true, a, micros)) > 100
  {
    hide SpanAt, Run, ReservedIn, Quiet, Within, TwoCalls;
    var first, second := MisalignedWindows(a);
    var p := Policy(true, 100, MeteringSpans(true, a));
    EmptyStateIsQuiet(p, first);
    TwoCallsExceedCap(p, first, second, first);
    s, events, micros := State(first, None, [], map[]), TwoCalls(first, second), first;
  }

  /** A paid account is always within its cap exactly when its stored period, if any, starts with a UTC month. */
  lemma PaidAccountWithinCapIff(a: Account)
    requires ValidAccount(a) && a.isPremium
    ensures AlwaysWithinCap(a) <==> (HasStoredPeriod(a) ==> AtMonthStart(a.subscriptionStart.value))
  {
    if HasStoredPeriod(a) && !AtMonthStart(a.subscriptionStart.value) {
      var s, events, micros := MisalignedStartExceedsCap(a);
      assert !(ReservedIn(Run(Policy(true, 100, MeteringSpans(true, a)), s, events).rows, SpanAt(true, a, micros)) <= 100);
    } else {
      AlignedStartReachesBack(a);
      ReachBackWithinCap(a);
    }
  }
}
