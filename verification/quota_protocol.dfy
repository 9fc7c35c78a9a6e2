/**
 Metering of MCP calls as a protocol between concurrent callers of one account: reserve a row
 under a try-lock, run the tool, and rewrite the row's weight afterwards without the lock.
 Times are microseconds on the timeline; weights are hundredths, the column's NUMERIC(6, 2).
 */
module QuotaProtocol {
  import opened Results

  // Weights.

  const DEFAULT_QUOTA_WEIGHT_BY_TOOL: map<string, nat> := map[
    "smeme_reasoning_capabilities" := 0,
    "smeme_reasoning_list" := 0,
    "smeme_reasoning_validate_answers" := 100,
    "smeme_reasoning_evaluate" := 100,
    "smeme_reasoning_evaluate_continue" := 100,
    "smeme_reasoning_evaluate_answers" := 100,
    "smeme_reasoning_what_if" := 200,
    "smeme_reasoning_how_to_reach" := 250,
    "smeme_reasoning_decisive_support" := 200,
    "smeme_reasoning_edit_affects_path" := 200,
    "smeme_reasoning_list_conclusions" := 0,
    "smeme_reasoning_template_check" := 0,
    "smeme_reasoning_template_get" := 0,
    "smeme_reasoning_guidance_check" := 0,
    "smeme_reasoning_guidance_get" := 0,
    "smeme_authoring_design_guidance" := 0,
    "smeme_authoring_validate_graph" := 0,
    "smeme_authoring_create_draft" := 0,
    "smeme_authoring_get_draft" := 0,
    "smeme_authoring_update_draft" := 0,
    "smeme_inquire_guidance_check" := 0,
    "smeme_inquire_guidance_get" := 0,
    "smeme_inquire_start" := 100,
    "smeme_inquire_next" := 0,
    "smeme_inquire_get_task" := 0,
    "smeme_inquire_admit" := 100,
    "smeme_inquire_verify" := 100]

  const MCP_CLIENT_ERROR_OUTCOMES: set<string> := {
    "invalid_decision_tree_id", "invalid_answers_json", "invalid_evidence_blob_json", "not_found",
    "not_discoverable", "no_reasoning_artifact", "no_compiled_theory", "account_downgrade_pending",
    "payload_too_large", "graph_conflict", "draft_not_editable",
    "ingest_malformed", "ingest_cap_exceeded", "ingest_unknown_question_id", "ingest_invalid_answer_option",
    "ingest_dangling_evidence_ref", "ingest_duplicate_evidence_item_id", "ingest_invalid_timestamp",
    "ingest_invalid_evidence_id", "ingest_grounding_failed"}

  function QuotaWeightForTool(tool: string): nat {
    if tool in DEFAULT_QUOTA_WEIGHT_BY_TOOL then DEFAULT_QUOTA_WEIGHT_BY_TOOL[tool] else 0
  }

  function EffectiveQuotaWeight(tool: string, outcome: string): (weight: nat)
    ensures weight <= QuotaWeightForTool(tool)
    ensures QuotaWeightForTool(tool) > 0 ==> (weight == 0 <==> outcome in MCP_CLIENT_ERROR_OUTCOMES)
    ensures weight == 0 || weight == QuotaWeightForTool(tool)
  {
    if outcome in MCP_CLIENT_ERROR_OUTCOMES then 0 else QuotaWeightForTool(tool)
  }

  // The rows of one account, and the windows that sum them.

  /** `reserved`: inserted by a reservation; `flushed`: rewritten by the recorder of its call. */
  datatype Row = Row(createdAt: int, tool: string, weight: nat, reserved: bool, flushed: bool)

  /** A half-open stretch of the timeline. */
  datatype Span = Span(start: int, end: int)

  predicate Within(t: int, w: Span) {
    w.start <= t < w.end
  }

  /** `sum_mcp_weighted_month`: every row of the account in the window. */
  function UsageIn(rows: seq<Row>, w: Span): nat {
    if rows == [] then
      0
    else
      var row := rows[|rows| - 1];
      UsageIn(rows[..|rows| - 1], w) + (if Within(row.createdAt, w) then row.weight else 0)
  }

  /** The part of the usage that went through reservations. */
  function ReservedIn(rows: seq<Row>, w: Span): nat {
    if rows == [] then
      0
    else
      var row := rows[|rows| - 1];
      ReservedIn(rows[..|rows| - 1], w) + (if row.reserved && Within(row.createdAt, w) then row.weight else 0)
  }

  /** Enforcement on or off, the plan's cap, and the window computed at each time. */
  datatype Policy = Policy(enforced: bool, cap: nat, window: int -> Span)

  /** A time inside a window computes a window that reaches back at least as far, and has not ended. */
  ghost predicate WindowsReachBack(window: int -> Span) {
    forall t, x :: Within(t, window(x)) ==> window(t).start <= window(x).start && t < window(t).end
  }

  // The protocol.

  datatype Phase =
    | Idle
    | Refreshed(tool: string)             // billing refreshed, lock not yet tried
    | Locked(tool: string)                // the account's lock is held from here on
    | Windowed(tool: string, at: int)     // the check has read the clock
    | Checked(tool: string, at: int)      // the check has summed the rows and allowed the call
    | Denied(tool: string)                // the check has refused the call
    | Stamped(row: Row)                   // the row has its timestamp and is not yet committed

  datatype State = State(clock: int, holder: Option<nat>, rows: seq<Row>, workers: map<nat, Phase>)

  datatype Event =
    | Tick(now: int)
    | Start(worker: nat, tool: string)
    | TryLock(worker: nat)
    | ReadClock(worker: nat)
    | Check(worker: nat)
    | Stamp(worker: nat)
    | Commit(worker: nat)
    | Abort(worker: nat)                        // crash, rollback or end of the session
    | Flush(index: nat, outcome: string)        // the recorder's UPDATE of a reserved row
    | Persist(tool: string, outcome: string, createdAt: int)  // its INSERT when nothing was reserved

  function PhaseOf(s: State, worker: nat): Phase {
    if worker in s.workers then s.workers[worker] else Idle
  }

  function SetPhase(s: State, worker: nat, p: Phase): State {
    s.(workers := s.workers[worker := p])
  }

  function Release(s: State, worker: nat): State {
    SetPhase(s, worker, Idle).(holder := if s.holder == Some(worker) then None else s.holder)
  }

  function FlushedRow(row: Row, outcome: string): Row {
    row.(weight := EffectiveQuotaWeight(row.tool, outcome), flushed := true)
  }

  /** One atomic step; an event that is not enabled changes nothing. */
  function Apply(p: Policy, s: State, e: Event): State {
    match e
    case Tick(now) => if s.clock <= now then s.(clock := now) else s
    case Start(w, tool) => if PhaseOf(s, w).Idle? then SetPhase(s, w, Refreshed(tool)) else s
    case TryLock(w) =>
      if !PhaseOf(s, w).Refreshed? then s
      else if s.holder.None? then SetPhase(s, w, Locked(PhaseOf(s, w).tool)).(holder := Some(w))
      else SetPhase(s, w, Idle)
    case ReadClock(w) =>
      if PhaseOf(s, w).Locked? then SetPhase(s, w, Windowed(PhaseOf(s, w).tool, s.clock)) else s
    case Check(w) =>
      if !PhaseOf(s, w).Windowed? then s
      else
        var Windowed(tool, at) := PhaseOf(s, w);
        if p.enforced && UsageIn(s.rows, p.window(at)) + QuotaWeightForTool(tool) > p.cap then SetPhase(s, w, Denied(tool))
        else SetPhase(s, w, Checked(tool, at))
    case Stamp(w) =>
      if !PhaseOf(s, w).Checked? then s
      else
        var tool := PhaseOf(s, w).tool;
        SetPhase(s, w, Stamped(Row(s.clock, tool, QuotaWeightForTool(tool), true, false)))
    case Commit(w) =>
      if PhaseOf(s, w).Stamped? then Release(s, w).(rows := s.rows + [PhaseOf(s, w).row]) else s
    case Abort(w) => Release(s, w)
    case Flush(i, outcome) =>
      if i < |s.rows| && s.rows[i].reserved && !s.rows[i].flushed
      then s.(rows := s.rows[i := FlushedRow(s.rows[i], outcome)])
      else s
    case Persist(tool, outcome, createdAt) =>
      s.(rows := s.rows + [Row(createdAt, tool, EffectiveQuotaWeight(tool, outcome), false, true)])
  }

  function Run(p: Policy, s: State, events: seq<Event>): State {
    if events == [] then s else Apply(p, Run(p, s, events[..|events| - 1]), events[|events| - 1])
  }

  // What every step keeps.

  predicate HoldsLock(p: Phase) {
    !p.Idle? && !p.Refreshed?
  }

  predicate RowsWellFormed(s: State) {
    forall i :: 0 <= i < |s.rows| && s.rows[i].reserved ==>
      && s.rows[i].createdAt <= s.clock
      && (!s.rows[i].flushed ==> s.rows[i].weight == QuotaWeightForTool(s.rows[i].tool))
  }

  predicate NoReservedAfter(rows: seq<Row>, at: int) {
    forall i :: 0 <= i < |rows| && rows[i].reserved ==> rows[i].createdAt <= at
  }

  /** What the lock holder may rely on, and owes to the cap. */
  ghost predicate HolderOk(p: Policy, s: State, phase: Phase) {
    match phase
    case Windowed(tool, at) => at <= s.clock && NoReservedAfter(s.rows, at)
    case Checked(tool, at) =>
      && at <= s.clock && NoReservedAfter(s.rows, at)
      && ReservedIn(s.rows, p.window(at)) + QuotaWeightForTool(tool) <= p.cap
    case Stamped(row) =>
      && row.reserved && row.createdAt <= s.clock && !row.flushed && row.weight == QuotaWeightForTool(row.tool)
      && forall x :: Within(row.createdAt, p.window(x)) ==> ReservedIn(s.rows, p.window(x)) + row.weight <= p.cap
    case _ => true
  }

  ghost predicate Inv(p: Policy, s: State) {
    && RowsWellFormed(s)
    && (forall w: nat :: HoldsLock(PhaseOf(s, w)) <==> s.holder == Some(w))
    && (s.holder.Some? ==> HolderOk(p, s, PhaseOf(s, s.holder.value)))
    && forall x :: ReservedIn(s.rows, p.window(x)) <= p.cap
  }

  lemma UsageCountsReserved(rows: seq<Row>, w: Span)
    ensures ReservedIn(rows, w) <= UsageIn(rows, w)
  {
  }

  lemma {:induction false} NoneReservedLater(rows: seq<Row>, w: Span, at: int)
    requires NoReservedAfter(rows, at) && at < w.start
    ensures ReservedIn(rows, w) == 0
  {
    if rows != [] {
      NoneReservedLater(rows[..|rows| - 1], w, at);
    }
  }

  lemma {:induction false} WiderWindow(rows: seq<Row>, inner: Span, outer: Span, at: int)
    requires NoReservedAfter(rows, at) && outer.start <= inner.start && at < outer.end
    ensures ReservedIn(rows, inner) <= ReservedIn(rows, outer)
  {
    if rows != [] {
      WiderWindow(rows[..|rows| - 1], inner, outer, at);
    }
  }

  /** Rewriting one row's weight moves a window's sum by the difference, if the row is in it. */
  lemma {:induction false} RewriteRow(rows: seq<Row>, i: nat, row: Row, w: Span)
    requires i < |rows| && row.createdAt == rows[i].createdAt && row.reserved && rows[i].reserved
    ensures ReservedIn(rows[i := row], w)
      == ReservedIn(rows, w) + (if Within(row.createdAt, w) then row.weight - rows[i].weight else 0)
  {
    var last := |rows| - 1;
    if i < last {
      assert rows[i := row][..last] == rows[..last][i := row];
      RewriteRow(rows[..last], i, row, w);
    } else {
      assert rows[i := row][..last] == rows[..last];
    }
  }

  lemma AppendRow(rows: seq<Row>, row: Row, w: Span)
    ensures ReservedIn(rows + [row], w)
      == ReservedIn(rows, w) + (if row.reserved && Within(row.createdAt, w) then row.weight else 0)
  {
  }

  /**
   The row stamped after the check keeps the cap, also when the clock has moved into another
   window since: the lock holder's row is then the only reserved row there.
   */
  lemma StampKeepsCap(p: Policy, s: State, w: nat)
    requires WindowsReachBack(p.window) && Inv(p, s) && PhaseOf(s, w).Checked?
    ensures forall x :: Within(s.clock, p.window(x)) ==>
      ReservedIn(s.rows, p.window(x)) + QuotaWeightForTool(PhaseOf(s, w).tool) <= p.cap
  {
    var Checked(tool, at) := PhaseOf(s, w);
    assert s.holder == Some(w);
    forall x | Within(s.clock, p.window(x))
      ensures ReservedIn(s.rows, p.window(x)) + QuotaWeightForTool(tool) <= p.cap
    {
      if at < p.window(x).start {
        NoneReservedLater(s.rows, p.window(x), at);
      } else {
        assert Within(at, p.window(x));
        WiderWindow(s.rows, p.window(x), p.window(at), at);
      }
    }
  }

  lemma CheckKeepsInv(p: Policy, s: State, w: nat)
    requires p.enforced && Inv(p, s)
    ensures Inv(p, Apply(p, s, Check(w)))
  {
    if PhaseOf(s, w).Windowed? {
      UsageCountsReserved(s.rows, p.window(PhaseOf(s, w).at));
    }
  }

  lemma CommitKeepsInv(p: Policy, s: State, w: nat)
    requires Inv(p, s)
    ensures Inv(p, Apply(p, s, Commit(w)))
  {
    if PhaseOf(s, w).Stamped? {
      assert s.holder == Some(w);
      var row := PhaseOf(s, w).row;
      forall x ensures ReservedIn(s.rows + [row], p.window(x)) <= p.cap {
        AppendRow(s.rows, row, p.window(x));
      }
    }
  }

  /** An append of an unreserved row, or a rewrite to a smaller weight, leaves every promise intact. */
  lemma WeakerRowsKeepInv(p: Policy, s: State, rows: seq<Row>)
    requires Inv(p, s)
    requires RowsWellFormed(s.(rows := rows))
    requires forall at :: NoReservedAfter(s.rows, at) ==> NoReservedAfter(rows, at)
    requires forall w :: ReservedIn(rows, w) <= ReservedIn(s.rows, w)
    ensures Inv(p, s.(rows := rows))
  {
  }

  lemma FlushKeepsInv(p: Policy, s: State, i: nat, outcome: string)
    requires Inv(p, s)
    ensures Inv(p, Apply(p, s, Flush(i, outcome)))
  {
    if i < |s.rows| && s.rows[i].reserved && !s.rows[i].flushed {
      var row := FlushedRow(s.rows[i], outcome);
      forall w ensures ReservedIn(s.rows[i := row], w) <= ReservedIn(s.rows, w) {
        RewriteRow(s.rows, i, row, w);
      }
      WeakerRowsKeepInv(p, s, s.rows[i := row]);
    }
  }

  lemma PersistKeepsInv(p: Policy, s: State, tool: string, outcome: string, createdAt: int)
    requires Inv(p, s)
    ensures Inv(p, Apply(p, s, Persist(tool, outcome, createdAt)))
  {
    var row := Row(createdAt, tool, EffectiveQuotaWeight(tool, outcome), false, true);
    forall w ensures ReservedIn(s.rows + [row], w) == ReservedIn(s.rows, w) {
      AppendRow(s.rows, row, w);
    }
    WeakerRowsKeepInv(p, s, s.rows + [row]);
  }

  lemma LockStepsKeepInv(p: Policy, s: State, e: Event)
    requires e.Start? || e.TryLock? || e.ReadClock? || e.Abort?
    requires Inv(p, s)
    ensures Inv(p, Apply(p, s, e))
  {
    hide QuotaWeightForTool, EffectiveQuotaWeight, UsageIn, ReservedIn;
  }

  lemma StampKeepsInv(p: Policy, s: State, w: nat)
    requires WindowsReachBack(p.window) && Inv(p, s)
    ensures Inv(p, Apply(p, s, Stamp(w)))
  {
    if PhaseOf(s, w).Checked? {
      StampKeepsCap(p, s, w);
    }
  }

  lemma StepKeepsInv(p: Policy, s: State, e: Event)
    requires p.enforced && WindowsReachBack(p.window) && Inv(p, s)
    ensures Inv(p, Apply(p, s, e))
  {
    match e
    case Tick(now) =>
    case Check(w) => CheckKeepsInv(p, s, w);
    case Stamp(w) => StampKeepsInv(p, s, w);
    case Commit(w) => CommitKeepsInv(p, s, w);
    case Flush(i, outcome) => FlushKeepsInv(p, s, i, outcome);
    case Persist(tool, outcome, createdAt) => PersistKeepsInv(p, s, tool, outcome, createdAt);
    case _ => LockStepsKeepInv(p, s, e);
  }

  /** No call in progress, and past reservations within the cap in every window. */
  ghost predicate Quiet(p: Policy, s: State) {
    && RowsWellFormed(s) && s.holder.None?
    && (forall w: nat :: PhaseOf(s, w).Idle?)
    && forall x :: ReservedIn(s.rows, p.window(x)) <= p.cap
  }

  lemma {:induction false} RunKeepsInv(p: Policy, s: State, events: seq<Event>)
    requires p.enforced && WindowsReachBack(p.window) && Quiet(p, s)
    ensures Inv(p, Run(p, s, events))
  {
    if events != [] {
      var before := events[..|events| - 1];
      RunKeepsInv(p, s, before);
      StepKeepsInv(p, Run(p, s, before), events[|events| - 1]);
    }
  }

  /**
   Under every interleaving of reservations, flushes, unreserved inserts and crashes, the weight
   reserved inside any usage window stays within the cap, and a finished or crashed caller never
   keeps the lock.
   */
  lemma ReservedUsageWithinCap(p: Policy, s: State, events: seq<Event>, x: int)
    requires p.enforced && WindowsReachBack(p.window) && Quiet(p, s)
    ensures ReservedIn(Run(p, s, events).rows, p.window(x)) <= p.cap
    ensures Run(p, s, events).holder.Some? ==>
      HoldsLock(PhaseOf(Run(p, s, events), Run(p, s, events).holder.value))
  {
    RunKeepsInv(p, s, events);
  }

  // One call by itself, as the code writes it.

  datatype Reservation = Granted(index: nat) | PickPending | ConcurrencyLimit | QuotaExceeded

  /** The steps of one reservation with no other caller's step between them, to the end of its session. */
  function ReserveAlone(p: Policy, s: State, w: nat, tool: string, checkTime: int, stampTime: int): State {
    UnderLock(p, Apply(p, Apply(p, s, Start(w, tool)), TryLock(w)), w, checkTime, stampTime)
  }

  function UnderLock(p: Policy, s: State, w: nat, checkTime: int, stampTime: int): State {
    var s := Apply(p, Apply(p, Apply(p, s, Tick(checkTime)), ReadClock(w)), Check(w));
    var s := Apply(p, Apply(p, Apply(p, s, Tick(stampTime)), Stamp(w)), Commit(w));
    Apply(p, s, Abort(w))
  }

  lemma WithoutLock(p: Policy, s: State, w: nat, checkTime: int, stampTime: int)
    requires w in s.workers && s.workers[w].Idle? && s.holder != Some(w) && s.clock <= checkTime <= stampTime
    ensures UnderLock(p, s, w, checkTime, stampTime) == s.(clock := stampTime)
  {
  }

  function OutcomeAlone(p: Policy, s: State, tool: string, checkTime: int): Reservation {
    if s.holder.Some? then ConcurrencyLimit
    else if p.enforced && UsageIn(s.rows, p.window(checkTime)) + QuotaWeightForTool(tool) > p.cap then QuotaExceeded
    else Granted(|s.rows|)
  }

  /**
   A refused call leaves the rows as they were; a granted one appends exactly its reserved row.
   Neither keeps the lock.
   */
  lemma ReserveAloneOutcome(p: Policy, s: State, w: nat, tool: string, checkTime: int, stampTime: int)
    requires PhaseOf(s, w).Idle? && s.holder != Some(w) && s.clock <= checkTime <= stampTime
    ensures var s' := ReserveAlone(p, s, w, tool, checkTime, stampTime);
      && s'.rows == s.rows
           + (if OutcomeAlone(p, s, tool, checkTime).Granted? then [Row(stampTime, tool, QuotaWeightForTool(tool), true, false)] else [])
      && s'.holder == s.holder && PhaseOf(s', w).Idle? && s'.clock == stampTime
  {
  }

  function ReserveEvents(w: nat, tool: string, checkTime: int, stampTime: int): seq<Event> {
    [Start(w, tool), TryLock(w), Tick(checkTime), ReadClock(w), Check(w), Tick(stampTime), Stamp(w), Commit(w), Abort(w)]
  }

  lemma RunSnoc(p: Policy, s: State, events: seq<Event>, e: Event)
    ensures Run(p, s, events + [e]) == Apply(p, Run(p, s, events), e)
  {
  }

  /** A call by itself is one of the runs. */
  lemma ReserveAloneIsRun(p: Policy, s: State, before: seq<Event>, w: nat, tool: string, checkTime: int, stampTime: int)
    ensures Run(p, s, before + ReserveEvents(w, tool, checkTime, stampTime))
      == ReserveAlone(p, Run(p, s, before), w, tool, checkTime, stampTime)
  {
    hide Apply, Run;
    var es := ReserveEvents(w, tool, checkTime, stampTime);
    forall k | 0 <= k < 9
      ensures Run(p, s, before + es[..k + 1]) == Apply(p, Run(p, s, before + es[..k]), es[k])
    {
      assert before + es[..k + 1] == (before + es[..k]) + [es[k]];
      RunSnoc(p, s, before + es[..k], es[k]);
    }
    assert before + es[..0] == before && es[..9] == es;
    assert es[0] == Start(w, tool) && es[1] == TryLock(w) && es[2] == Tick(checkTime) && es[3] == ReadClock(w)
      && es[4] == Check(w) && es[5] == Tick(stampTime) && es[6] == Stamp(w) && es[7] == Commit(w) && es[8] == Abort(w);
  }

  const ONE_UNIT_TOOL := "smeme_reasoning_evaluate"

  function OneUnitRow(createdAt: int): Row {
    Row(createdAt, ONE_UNIT_TOOL, 100, true, false)
  }

  function TwoCalls(first: int, second: int): seq<Event> {
    ReserveEvents(0, ONE_UNIT_TOOL, first, first) + ReserveEvents(0, ONE_UNIT_TOOL, second, second)
  }

  lemma CallAlone(p: Policy, s: State, before: seq<Event>, at: int)
    requires p.cap == 100 && Run(p, s, before).holder.None?
    requires PhaseOf(Run(p, s, before), 0).Idle? && Run(p, s, before).clock <= at
    requires UsageIn(Run(p, s, before).rows, p.window(at)) == 0
    ensures var s' := Run(p, s, before + ReserveEvents(0, ONE_UNIT_TOOL, at, at));
      && s'.rows == Run(p, s, before).rows + [OneUnitRow(at)]
      && s'.holder.None? && PhaseOf(s', 0).Idle? && s'.clock == at
  {
    hide Run, Apply, UsageIn;
    ReserveAloneIsRun(p, s, before, 0, ONE_UNIT_TOOL, at, at);
    ReserveAloneOutcome(p, Run(p, s, before), 0, ONE_UNIT_TOOL, at, at);
  }

  /** Two calls that count in one window, the second checked against a window without the first. */
  lemma TwoCallsExceedCap(p: Policy, first: int, second: int, x: int)
    requires p.cap == 100 && first <= second && !Within(first, p.window(second))
    requires Within(first, p.window(x)) && Within(second, p.window(x))
    ensures ReservedIn(Run(p, State(first, None, [], map[]), TwoCalls(first, second)).rows, p.window(x)) == 200
  {
    var s := State(first, None, [], map[]);
    var before := ReserveEvents(0, ONE_UNIT_TOOL, first, first);
    assert [] + before == before;
    CallAlone(p, s, [], first);
    assert Run(p, s, before).rows == [OneUnitRow(first)];
    CallAlone(p, s, before, second);
    AppendRow([OneUnitRow(first)], OneUnitRow(second), p.window(x));
  }

  /** The rows and locks of one account, as its callers' sessions see them. */
  class QuotaDb {
    var clock: int
    var holder: Option<nat>
    var rows: seq<Row>
    var workers: map<nat, Phase>

    ghost function View(): State
      reads this
    {
      State(clock, holder, rows, workers)
    }

    /** `pg_try_advisory_xact_lock`: does not wait for another holder. */
    method TryAdvisoryLock(ghost p: Policy, w: nat) returns (acquired: bool)
      requires w in workers && workers[w].Refreshed?
      modifies this
      ensures View() == Apply(p, old(View()), TryLock(w))
      ensures acquired <==> old(holder).None?
    {
      acquired := holder.None?;
      if acquired {
        workers, holder := workers[w := Locked(workers[w].tool)], Some(w);
      } else {
        workers := workers[w := Idle];
      }
    }

    method CheckQuota(p: Policy, w: nat, now: int) returns (allowed: bool)
      requires w in workers && workers[w].Locked? && clock <= now
      modifies this
      ensures View() == Apply(p, Apply(p, Apply(p, old(View()), Tick(now)), ReadClock(w)), Check(w))
      ensures allowed <==> !p.enforced || UsageIn(rows, p.window(now)) + QuotaWeightForTool(old(workers)[w].tool) <= p.cap
    {
      var tool := workers[w].tool;
      clock := now;
      workers := workers[w := Windowed(tool, now)];
      allowed := !p.enforced || UsageIn(rows, p.window(now)) + QuotaWeightForTool(tool) <= p.cap;
      workers := workers[w := if allowed then Checked(tool, now) else Denied(tool)];
    }

    /** The INSERT and the commit that releases the lock. */
    method InsertReserved(ghost p: Policy, w: nat, now: int) returns (index: nat)
      requires w in workers && workers[w].Checked? && clock <= now && holder == Some(w)
      modifies this
      ensures View() == Apply(p, Apply(p, Apply(p, old(View()), Tick(now)), Stamp(w)), Commit(w))
      ensures index == |old(rows)|
    {
      var tool := workers[w].tool;
      clock, index := now, |rows|;
      ghost var stamped := workers[w := Stamped(Row(now, tool, QuotaWeightForTool(tool), true, false))];
      rows := rows + [Row(now, tool, QuotaWeightForTool(tool), true, false)];
      workers, holder := workers[w := Idle], None;
      assert workers == stamped[w := Idle];
    }

    method EndSession(ghost p: Policy, w: nat)
      modifies this
      ensures View() == Apply(p, old(View()), Abort(w))
    {
      workers := workers[w := Idle];
      if holder == Some(w) {
        holder := None;
      }
    }

    method ReserveUnderLock(p: Policy, w: nat, checkTime: int, stampTime: int) returns (r: Reservation)
      requires w in workers && workers[w].Locked? && holder == Some(w)
      requires clock <= checkTime <= stampTime
      modifies this
      ensures View() == UnderLock(p, old(View()), w, checkTime, stampTime)
      ensures r ==
        if p.enforced && UsageIn(old(rows), p.window(checkTime)) + QuotaWeightForTool(old(workers)[w].tool) > p.cap
        then QuotaExceeded else Granted(|old(rows)|)
    {
      hide QuotaWeightForTool, EffectiveQuotaWeight, UsageIn;
      var allowed := CheckQuota(p, w, checkTime);
      if allowed {
        var index := InsertReserved(p, w, stampTime);
        r := Granted(index);
      } else {
        clock, r := stampTime, QuotaExceeded;
      }
      EndSession(p, w);
    }

    /** Refresh, try the lock, re-check, insert and commit; a refused call ends its session. */
    method ReserveMcpQuota(p: Policy, w: nat, tool: string, pickRequired: bool, checkTime: int, stampTime: int)
      returns (r: Reservation)
      requires w !in workers || workers[w].Idle?
      requires holder != Some(w) && clock <= checkTime <= stampTime
      modifies this
      ensures if p.enforced && pickRequired then
          r == PickPending && View() == old(View())
        else
          r == OutcomeAlone(p, old(View()), tool, checkTime) && View() == ReserveAlone(p, old(View()), w, tool, checkTime, stampTime)
    {
      if p.enforced && pickRequired {
        return PickPending;
      }
      workers := workers[w := Refreshed(tool)];
      var acquired := TryAdvisoryLock(p, w);
      if acquired {
        r := ReserveUnderLock(p, w, checkTime, stampTime);
      } else {
        WithoutLock(p, View(), w, checkTime, stampTime);
        clock, r := stampTime, ConcurrencyLimit;
      }
    }
  }

  /** Per-request collector; its one flush rewrites the reserved row, or inserts a row if none was reserved. */
  class McpInvocationRecorder {
    const toolName: string
    var userBound: bool
    var invocationId: Option<nat>
    var outcome: Option<string>

    constructor (toolName: string)
      ensures this.toolName == toolName && !userBound && invocationId.None? && outcome.None?
    {
      this.toolName, userBound, invocationId, outcome := toolName, false, None, None;
    }

    method Flush(db: QuotaDb, ghost p: Policy, enabled: bool, persist: bool)
      requires invocationId.Some? ==>
        && invocationId.value < |db.rows|
        && db.rows[invocationId.value].reserved && !db.rows[invocationId.value].flushed
        && db.rows[invocationId.value].tool == toolName
      modifies db
      ensures var stored := if outcome.Some? && outcome.value != "" then outcome.value else "unknown";
        db.View() ==
          if !userBound || !enabled || !persist then old(db.View())
          else if invocationId.Some? then Apply(p, old(db.View()), Event.Flush(invocationId.value, stored))
          else Apply(p, old(db.View()), Persist(toolName, stored, old(db.clock)))
    {
      if !userBound || !enabled {
        return;
      }
      var stored := if outcome.Some? && outcome.value != "" then outcome.value else "unknown";
      var weight := EffectiveQuotaWeight(toolName, stored);
      if !persist {
        return;
      }
      if invocationId.Some? {
        var i := invocationId.value;
        db.rows := db.rows[i := db.rows[i].(weight := weight, flushed := true)];
      } else {
        db.rows := db.rows + [Row(db.clock, toolName, weight, false, true)];
      }
    }
  }
}
