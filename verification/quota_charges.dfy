/** What a metered call is charged from its reservation to its flush, and that a refunded one counts for nothing. */
module QuotaCharges {
  import opened Results
  import opened QuotaProtocol

  lemma UsageOfAppend(rows: seq<Row>, row: Row, w: Span)
    ensures UsageIn(rows + [row], w) == UsageIn(rows, w) + (if Within(row.createdAt, w) then row.weight else 0)
  {
  }

  lemma {:induction false} UsageOfRewrite(rows: seq<Row>, i: nat, row: Row, w: Span)
    requires i < |rows| && row.createdAt == rows[i].createdAt
    ensures UsageIn(rows[i := row], w)
      == UsageIn(rows, w) + (if Within(row.createdAt, w) then row.weight - rows[i].weight else 0)
  {
    var last := |rows| - 1;
    if i < last {
      assert rows[i := row][..last] == rows[..last][i := row];
      UsageOfRewrite(rows[..last], i, row, w);
    } else {
      assert rows[i := row][..last] == rows[..last];
    }
  }

  lemma {:induction false} UsageWithout(rows: seq<Row>, i: nat, w: Span)
    requires i < |rows|
    ensures UsageIn(rows[..i] + rows[i + 1..], w)
      == UsageIn(rows, w) - (if Within(rows[i].createdAt, w) then rows[i].weight else 0)
  {
    var last := |rows| - 1;
    if i < last {
      UsageWithout(rows[..last], i, w);
      assert (rows[..i] + rows[i + 1..])[..last - 1] == rows[..last][..i] + rows[..last][i + 1..];
    } else {
      assert rows[..i] + rows[i + 1..] == rows[..last];
    }
  }

  /** Settling a reserved row: it keeps the weight reserved, unless the outcome is the client's error. */
  lemma FlushSettlesWeight(p: Policy, s: State, i: nat, outcome: string)
    requires RowsWellFormed(s) && i < |s.rows| && s.rows[i].reserved && !s.rows[i].flushed
    ensures var settled := if outcome in MCP_CLIENT_ERROR_OUTCOMES then 0 else s.rows[i].weight;
      Apply(p, s, Flush(i, outcome)) == s.(rows := s.rows[i := s.rows[i].(weight := settled, flushed := true)])
  {
  }

  /** The tables without one row, as if its call had never been made. */
  function WithoutRow(s: State, i: nat): State
    requires i < |s.rows|
  {
    s.(rows := s.rows[..i] + s.rows[i + 1..])
  }

  /** A call refunded at its flush leaves no usage in any window, and no later call is refused because of it. */
  lemma RefundLeavesNoTrace(p: Policy, s: State, i: nat, outcome: string, tool: string, checkTime: int)
    requires RowsWellFormed(s) && i < |s.rows| && s.rows[i].reserved && !s.rows[i].flushed && outcome in MCP_CLIENT_ERROR_OUTCOMES
    ensures var z, never := Apply(p, s, Flush(i, outcome)), WithoutRow(s, i);
      && (forall w :: UsageIn(z.rows, w) == UsageIn(never.rows, w))
      && match OutcomeAlone(p, never, tool, checkTime)
         case Granted(n) => OutcomeAlone(p, z, tool, checkTime) == Granted(n + 1)
         case refusal => OutcomeAlone(p, z, tool, checkTime) == refusal
  {
    hide UsageIn, QuotaWeightForTool, EffectiveQuotaWeight;
    FlushSettlesWeight(p, s, i, outcome);
    var row := s.rows[i].(weight := 0, flushed := true);
    forall w ensures UsageIn(s.rows[i := row], w) == UsageIn(WithoutRow(s, i).rows, w) {
      UsageOfRewrite(s.rows, i, row, w);
      UsageWithout(s.rows, i, w);
    }
  }

  /**
   What one call costs from start to flush, in every window: its tool's weight, once, in the windows
   that contain the moment its row was stamped, and nothing when it was refused or ended in the
   client's error. Tools without a listed weight cost nothing.
   */
  lemma CallCharges(p: Policy, s: State, w: nat, tool: string, checkTime: int, stampTime: int, outcome: string, span: Span)
    requires PhaseOf(s, w).Idle? && s.holder != Some(w) && s.clock <= checkTime <= stampTime
    ensures var granted := OutcomeAlone(p, s, tool, checkTime).Granted?;
      var z := Apply(p, ReserveAlone(p, s, w, tool, checkTime, stampTime), Flush(|s.rows|, outcome));
      UsageIn(z.rows, span) == UsageIn(s.rows, span)
        + (if granted && outcome !in MCP_CLIENT_ERROR_OUTCOMES && Within(stampTime, span) && tool in DEFAULT_QUOTA_WEIGHT_BY_TOOL
           then DEFAULT_QUOTA_WEIGHT_BY_TOOL[tool] else 0)
  {
    hide UsageIn, ReserveAlone, OutcomeAlone;
    ReserveAloneOutcome(p, s, w, tool, checkTime, stampTime);
    if OutcomeAlone(p, s, tool, checkTime).Granted? {
      var row := Row(stampTime, tool, QuotaWeightForTool(tool), true, false);
      var settled := FlushedRow(row, outcome);
      assert (s.rows + [row])[|s.rows| := settled] == s.rows + [settled];
      UsageOfAppend(s.rows, settled, span);
    } else {
      assert s.rows + [] == s.rows;
    }
  }

  /** A call that was never reserved is metered from its flush on, in the windows of its own time, and reserves nothing. */
  lemma PersistCharges(p: Policy, s: State, tool: string, outcome: string, createdAt: int, span: Span)
    ensures var z := Apply(p, s, Persist(tool, outcome, createdAt));
      && |z.rows| == |s.rows| + 1 && z.rows[|s.rows|].flushed && ReservedIn(z.rows, span) == ReservedIn(s.rows, span)
      && UsageIn(z.rows, span) == UsageIn(s.rows, span)
        + (if outcome !in MCP_CLIENT_ERROR_OUTCOMES && Within(createdAt, span) then QuotaWeightForTool(tool) else 0)
  {
    var row := Row(createdAt, tool, EffectiveQuotaWeight(tool, outcome), false, true);
    UsageOfAppend(s.rows, row, span);
    AppendRow(s.rows, row, span);
  }
}
