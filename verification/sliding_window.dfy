/**
 One bucket of a sliding-window limiter: a deque of admission times, pruned from the front on each
 call. `history` is every admission there ever was; times are in seconds, as exact numbers.
 */
module SlidingWindow {
  const WINDOW := 60.0

  function Prune(bucket: seq<real>, cutoff: real): seq<real> {
    if bucket != [] && bucket[0] <= cutoff then Prune(bucket[1..], cutoff) else bucket
  }

  function Max(a: int, b: int): int {
    if a < b then b else a
  }

  datatype Verdict = Verdict(allowed: bool, retryAfter: int, bucket: seq<real>)

  function Consume(bucket: seq<real>, limit: int, now: real): Verdict {
    if limit <= 0 then Verdict(true, 0, bucket)
    else
      var kept := Prune(bucket, now - WINDOW);
      if |kept| >= limit then Verdict(false, Max(1, (kept[0] + WINDOW - now).Floor), kept)
      else Verdict(true, 0, kept + [now])
  }

  // The bucket as a part of the history.

  predicate Sorted(h: seq<real>) {
    forall i, j :: 0 <= i < j < |h| ==> h[i] <= h[j]
  }

  /** The bucket is the end of the history; what it dropped was a window old at `latest`, the latest time of any call. */
  predicate Tracks(bucket: seq<real>, h: seq<real>, latest: real) {
    && |bucket| <= |h| && bucket == h[|h| - |bucket|..]
    && (forall i :: 0 <= i < |h| - |bucket| ==> h[i] <= latest - WINDOW)
    && forall i :: 0 <= i < |h| ==> h[i] <= latest
  }

  /** Admissions after `lo` and up to `hi`. */
  function CountIn(h: seq<real>, lo: real, hi: real): nat {
    if h == [] then 0
    else CountIn(h[..|h| - 1], lo, hi) + (if lo < h[|h| - 1] <= hi then 1 else 0)
  }

  /** An admission comes at least `gap` after the one `limit` places before it. */
  predicate SpacedBy(h: seq<real>, limit: int, gap: real) {
    forall i, j :: 0 <= i < j < |h| && j - i >= limit ==> h[i] + gap <= h[j]
  }

  function Later(a: real, b: real): real {
    if a < b then b else a
  }

  lemma {:induction false} PruneDropsOld(bucket: seq<real>, cutoff: real)
    ensures var kept := Prune(bucket, cutoff);
      && |kept| <= |bucket| && kept == bucket[|bucket| - |kept|..]
      && (forall i :: 0 <= i < |bucket| - |kept| ==> bucket[i] <= cutoff)
      && (kept != [] ==> kept[0] > cutoff)
  {
    if bucket != [] && bucket[0] <= cutoff {
      PruneDropsOld(bucket[1..], cutoff);
    }
  }

  lemma PruneKeepsTrack(bucket: seq<real>, h: seq<real>, latest: real, now: real)
    requires Tracks(bucket, h, latest)
    ensures Tracks(Prune(bucket, now - WINDOW), h, Later(latest, now))
  {
    hide Prune;
    var dropped, kept := |h| - |bucket|, Prune(bucket, now - WINDOW);
    PruneDropsOld(bucket, now - WINDOW);
    forall i | 0 <= i < |h| - |kept| ensures h[i] <= Later(latest, now) - WINDOW {
      if i >= dropped {
        assert bucket[i - dropped] == h[i];
      }
    }
  }

  lemma AppendKeepsTrack(kept: seq<real>, h: seq<real>, latest: real, now: real)
    requires Tracks(kept, h, latest) && now <= latest
    ensures Tracks(kept + [now], h + [now], latest)
  {
    var h' := h + [now];
    assert h'[|h'| - |kept + [now]|..] == kept + [now];
  }

  lemma AppendKeepsSpacing(kept: seq<real>, h: seq<real>, limit: int, latest: real, lag: real, now: real)
    requires Tracks(kept, h, latest) && |kept| < limit && latest - lag <= now && SpacedBy(h, limit, WINDOW - lag)
    ensures SpacedBy(h + [now], limit, WINDOW - lag)
  {
    var h' := h + [now];
    forall i, j | 0 <= i < j < |h'| && j - i >= limit ensures h'[i] + (WINDOW - lag) <= h'[j] {
      if j == |h| {
        assert i < |h| - |kept|;
      }
    }
  }

  /** A call at most `lag` behind the latest keeps the bucket a part of its history, and the spacing. */
  lemma ConsumeKeepsSpacing(bucket: seq<real>, h: seq<real>, limit: int, latest: real, lag: real, now: real)
    requires limit > 0 && lag >= 0.0 && Tracks(bucket, h, latest) && SpacedBy(h, limit, WINDOW - lag) && latest - lag <= now
    ensures var v := Consume(bucket, limit, now);
      var h' := if v.allowed then h + [now] else h;
      Tracks(v.bucket, h', Later(latest, now)) && SpacedBy(h', limit, WINDOW - lag)
  {
    hide Prune, Tracks, SpacedBy;
    var kept := Prune(bucket, now - WINDOW);
    PruneKeepsTrack(bucket, h, latest, now);
    if |kept| < limit {
      AppendKeepsTrack(kept, h, Later(latest, now), now);
      AppendKeepsSpacing(kept, h, limit, Later(latest, now), lag, now);
    }
  }

  /** Under a limit of one the bucket holds the last admission, so admissions stay a window apart in any order of calls. */
  lemma ConsumeKeepsSingle(bucket: seq<real>, h: seq<real>, latest: real, now: real)
    requires Tracks(bucket, h, latest) && (h != [] ==> bucket != []) && |bucket| <= 1 && SpacedBy(h, 1, WINDOW)
    ensures var v := Consume(bucket, 1, now);
      var h' := if v.allowed then h + [now] else h;
      (h' != [] ==> v.bucket != []) && |v.bucket| <= 1 && SpacedBy(h', 1, WINDOW)
  {
    PruneDropsOld(bucket, now - WINDOW);
    var v := Consume(bucket, 1, now);
    if v.allowed {
      var h' := h + [now];
      forall i, j | 0 <= i < j < |h'| && j - i >= 1 ensures h'[i] + WINDOW <= h'[j] {
        if j == |h| {
          assert h[|h| - 1] == bucket[0];
          assert i == |h| - 1 || h[i] + WINDOW <= h[|h| - 1];
        }
      }
    }
  }

  lemma {:induction false} CountOfTail(h: seq<real>, k: nat, lo: real, hi: real)
    requires k <= |h| && (forall i :: 0 <= i < k ==> h[i] <= lo)
    ensures CountIn(h, lo, hi) <= |h| - k
    ensures (forall i :: k <= i < |h| ==> lo < h[i] <= hi) ==> CountIn(h, lo, hi) == |h| - k
  {
    if h != [] {
      if k == |h| {
        CountOfTail(h[..|h| - 1], k - 1, lo, hi);
      } else {
        CountOfTail(h[..|h| - 1], k, lo, hi);
      }
    }
  }

  lemma {:induction false} SpacingBoundsWindows(h: seq<real>, limit: int, gap: real, lo: real, length: real)
    requires limit > 0 && SpacedBy(h, limit, gap) && length <= gap
    ensures CountIn(h, lo, lo + length) <= limit
  {
    if h != [] {
      var n := |h| - 1;
      if lo < h[n] <= lo + length {
        CountOfTail(h, if |h| > limit then |h| - limit else 0, lo, lo + length);
      } else {
        SpacingBoundsWindows(h[..n], limit, gap, lo, length);
      }
    }
  }

  /** When no call was late, the call is denied exactly when the limit's worth of admissions lies in its window. */
  lemma DeniedIffWindowFull(bucket: seq<real>, h: seq<real>, limit: int, latest: real, now: real)
    requires limit > 0 && Tracks(bucket, h, latest) && Sorted(h) && SpacedBy(h, limit, WINDOW) && latest <= now
    ensures Consume(bucket, limit, now).allowed <==> CountIn(h, now - WINDOW, now) < limit
    ensures !Consume(bucket, limit, now).allowed <==> CountIn(h, now - WINDOW, now) == limit
  {
    hide CountIn;
    PruneKeepsTrack(bucket, h, latest, now);
    PruneDropsOld(bucket, now - WINDOW);
    var kept := Prune(bucket, now - WINDOW);
    forall i | |h| - |kept| <= i < |h| ensures now - WINDOW < h[i] <= now {
      assert kept[0] == h[|h| - |kept|];
      assert i == |h| - |kept| || h[|h| - |kept|] <= h[i];
    }
    CountOfTail(h, |h| - |kept|, now - WINDOW, now);
    SpacingBoundsWindows(h, limit, WINDOW, now - WINDOW, WINDOW);
    assert now - WINDOW + WINDOW == now;
  }

  // Whole runs of calls on one key.

  datatype Run = Run(bucket: seq<real>, history: seq<real>)

  function Calls(limit: int, times: seq<real>): Run {
    if times == [] then Run([], [])
    else
      var r, now := Calls(limit, times[..|times| - 1]), times[|times| - 1];
      var v := Consume(r.bucket, limit, now);
      Run(v.bucket, if v.allowed then r.history + [now] else r.history)
  }

  /** Each call is at most `lag` earlier than any call before it. */
  predicate Lagged(times: seq<real>, lag: real) {
    forall i, j :: 0 <= i < j < |times| ==> times[i] - lag <= times[j]
  }

  function Latest(times: seq<real>): real
    requires times != []
  {
    if |times| == 1 then times[0] else Later(Latest(times[..|times| - 1]), times[|times| - 1])
  }

  lemma {:induction false} LatestOf(times: seq<real>)
    requires times != []
    ensures (forall i :: 0 <= i < |times| ==> times[i] <= Latest(times)) && Latest(times) in times
  {
    if |times| > 1 {
      LatestOf(times[..|times| - 1]);
    }
  }

  lemma NothingTracks(limit: int, latest: real, gap: real)
    ensures Tracks([], [], latest) && SpacedBy([], limit, gap)
  {
  }

  lemma {:induction false} RunsKeepSpacing(limit: int, times: seq<real>, lag: real)
    requires limit > 0 && lag >= 0.0 && Lagged(times, lag)
    ensures var r := Calls(limit, times);
      SpacedBy(r.history, limit, WINDOW - lag) && (if times == [] then r == Run([], []) else Tracks(r.bucket, r.history, Latest(times)))
  {
    hide Consume, Tracks, SpacedBy;
    if times == [] {
      NothingTracks(limit, 0.0, WINDOW - lag);
    } else {
      var before, now := times[..|times| - 1], times[|times| - 1];
      RunsKeepSpacing(limit, before, lag);
      var r := Calls(limit, before);
      if before == [] {
        NothingTracks(limit, now, WINDOW - lag);
        ConsumeKeepsSpacing(r.bucket, r.history, limit, now, lag, now);
      } else {
        LatestOf(before);
        ConsumeKeepsSpacing(r.bucket, r.history, limit, Latest(before), lag, now);
      }
    }
  }

  lemma {:induction false} SingleKeepsSpacing(times: seq<real>)
    ensures var r := Calls(1, times);
      && SpacedBy(r.history, 1, WINDOW) && |r.bucket| <= 1 && (r.history != [] ==> r.bucket != [])
      && exists latest :: Tracks(r.bucket, r.history, latest)
  {
    hide Consume, Tracks, SpacedBy;
    if times == [] {
      NothingTracks(1, 0.0, WINDOW);
    } else {
      var before, now := times[..|times| - 1], times[|times| - 1];
      SingleKeepsSpacing(before);
      var r := Calls(1, before);
      var latest :| Tracks(r.bucket, r.history, latest);
      ConsumeKeepsSingle(r.bucket, r.history, latest, now);
      SingleKeepsTrack(r.bucket, r.history, latest, now);
    }
  }

  lemma SingleKeepsTrack(bucket: seq<real>, h: seq<real>, latest: real, now: real)
    requires Tracks(bucket, h, latest)
    ensures var v := Consume(bucket, 1, now); Tracks(v.bucket, if v.allowed then h + [now] else h, Later(latest, now))
  {
    hide Prune, Tracks;
    PruneKeepsTrack(bucket, h, latest, now);
    if Consume(bucket, 1, now).allowed {
      AppendKeepsTrack(Prune(bucket, now - WINDOW), h, Later(latest, now), now);
    }
  }

  /**
   For every run of calls at nondecreasing times: no window of 60 seconds ever holds more than
   `limit` admissions, and the next call is denied exactly when `limit` of them lie in its window.
   */
  lemma WindowBound(limit: int, times: seq<real>, lo: real, now: real)
    requires limit > 0 && Sorted(times + [now])
    ensures CountIn(Calls(limit, times).history, lo, lo + WINDOW) <= limit
    ensures !Consume(Calls(limit, times).bucket, limit, now).allowed <==> CountIn(Calls(limit, times).history, now - WINDOW, now) == limit
  {
    hide CountIn, Consume, Tracks;
    var r := Calls(limit, times);
    forall i | 0 <= i < |times| ensures times[i] <= now {
      assert (times + [now])[i] == times[i] && (times + [now])[|times|] == now;
    }
    assert Lagged(times, 0.0) by {
      forall i, j | 0 <= i < j < |times| ensures times[i] - 0.0 <= times[j] {
        assert (times + [now])[i] <= (times + [now])[j];
      }
    }
    RunsKeepSpacing(limit, times, 0.0);
    SortedCallsSortHistory(limit, times);
    SpacingBoundsWindows(r.history, limit, WINDOW, lo, WINDOW);
    if times == [] {
      NothingTracks(limit, now, WINDOW);
      DeniedIffWindowFull([], [], limit, now, now);
    } else {
      LatestOf(times);
      DeniedIffWindowFull(r.bucket, r.history, limit, Latest(times), now);
    }
  }

  lemma {:induction false} SortedCallsSortHistory(limit: int, times: seq<real>)
    requires Lagged(times, 0.0)
    ensures Sorted(Calls(limit, times).history)
    ensures forall t :: t in Calls(limit, times).history ==> t in times
  {
    hide Consume;
    if times != [] {
      var before, now := times[..|times| - 1], times[|times| - 1];
      SortedCallsSortHistory(limit, before);
      forall t | t in Calls(limit, before).history ensures t in times && t <= now {
        assert t in before;
        var i :| 0 <= i < |before| && before[i] == t;
        assert times[i] - 0.0 <= times[|times| - 1];
      }
      var h := Calls(limit, before).history;
      forall i | 0 <= i < |h| ensures h[i] <= now {
        assert h[i] in h;
      }
    }
  }

  // Late calls: the exact length of window that stays within the limit.

  predicate WithinLimit(limit: int, times: seq<real>, lo: real, length: real) {
    CountIn(Calls(limit, times).history, lo, lo + length) <= limit
  }

  /** Every window of this length stays within the limit, in every run whose calls are at most `lag` late. */
  ghost predicate Bounded(limit: int, lag: real, length: real) {
    forall times, lo | Lagged(times, lag) :: WithinLimit(limit, times, lo, length)
  }

  function SafeLength(limit: int, lag: real): real {
    if limit == 1 then WINDOW else if lag < WINDOW then WINDOW - lag else 0.0
  }

  /** `n` calls at zero, one a window later, and one late by `lag`. */
  function Burst(n: nat, lag: real): seq<real> {
    Zeros(n) + [WINDOW] + [WINDOW - lag]
  }

  function Zeros(n: nat): (zeros: seq<real>)
    ensures |zeros| == n && forall i :: 0 <= i < n ==> zeros[i] == 0.0
  {
    seq(n, _ => 0.0)
  }

  lemma CallsOneMore(limit: int, times: seq<real>, now: real)
    ensures var r := Calls(limit, times);
      var v := Consume(r.bucket, limit, now);
      Calls(limit, times + [now]) == Run(v.bucket, if v.allowed then r.history + [now] else r.history)
  {
    assert (times + [now])[..|times|] == times;
  }

  lemma {:induction false} ZerosAreAdmitted(limit: int, n: nat)
    requires n <= limit
    ensures Calls(limit, Zeros(n)) == Run(Zeros(n), Zeros(n))
  {
    if n > 0 {
      hide Calls, Prune, Zeros;
      assert Zeros(n) == Zeros(n - 1) + [0.0];
      ZerosAreAdmitted(limit, n - 1);
      CallsOneMore(limit, Zeros(n - 1), 0.0);
      NoneOld(Zeros(n - 1), -WINDOW);
    }
  }

  lemma {:induction false} PruneAll(bucket: seq<real>, cutoff: real)
    requires forall i :: 0 <= i < |bucket| ==> bucket[i] <= cutoff
    ensures Prune(bucket, cutoff) == []
  {
    if bucket != [] {
      PruneAll(bucket[1..], cutoff);
    }
  }

  lemma NoneOld(bucket: seq<real>, cutoff: real)
    requires bucket != [] ==> bucket[0] > cutoff
    ensures Prune(bucket, cutoff) == bucket
  {
  }

  lemma CountOneMore(h: seq<real>, t: real, lo: real, hi: real)
    ensures CountIn(h + [t], lo, hi) == CountIn(h, lo, hi) + (if lo < t <= hi then 1 else 0)
  {
    assert (h + [t])[..|h|] == h;
  }

  lemma BurstIsAdmitted(limit: int, lag: real)
    requires limit >= 2 && 0.0 <= lag <= WINDOW
    ensures Calls(limit, Burst(limit, lag)).history == Burst(limit, lag)
  {
    hide Calls, Prune;
    var zeros, late := Zeros(limit), WINDOW - lag;
    ZerosAreAdmitted(limit, limit);
    CallsOneMore(limit, zeros, WINDOW);
    PruneAll(zeros, 0.0);
    assert Calls(limit, zeros + [WINDOW]) == Run([WINDOW], zeros + [WINDOW]);
    CallsOneMore(limit, zeros + [WINDOW], late);
    NoneOld([WINDOW], late - WINDOW);
  }

  /** The run that puts one hit too many into any longer window. */
  lemma BurstExceeds(limit: int, lag: real, length: real)
    requires limit >= 2 && 0.0 <= lag <= WINDOW && length > WINDOW - lag && length > 0.0
    ensures Lagged(Burst(limit, lag), lag) && !WithinLimit(limit, Burst(limit, lag), WINDOW - lag - length, length)
  {
    hide CountIn, Calls;
    var zeros, late := Zeros(limit), WINDOW - lag;
    BurstIsAdmitted(limit, lag);
    var lo := late - length;
    CountOfTail(zeros, 0, lo, late);
    CountOneMore(zeros, WINDOW, lo, late);
    CountOneMore(zeros + [WINDOW], late, lo, late);
    assert lo + length == late;
  }

  lemma PairExceeds(length: real)
    requires length > WINDOW
    ensures Lagged([0.0, WINDOW], 0.0) && !WithinLimit(1, [0.0, WINDOW], WINDOW - length, length)
  {
    assert [] + [0.0] == [0.0] && [0.0] + [WINDOW] == [0.0, WINDOW];
    CallsOneMore(1, [], 0.0);
    CallsOneMore(1, [0.0], WINDOW);
    PruneAll([0.0], 0.0);
    hide Calls;
    CountOneMore([], 0.0, WINDOW - length, WINDOW);
    CountOneMore([0.0], WINDOW, WINDOW - length, WINDOW);
    assert WINDOW - length + length == WINDOW;
  }

  lemma SafeWindowsHold(limit: int, lag: real, length: real, times: seq<real>, lo: real)
    requires limit > 0 && lag >= 0.0 && Lagged(times, lag) && (length <= 0.0 || length <= SafeLength(limit, lag))
    ensures WithinLimit(limit, times, lo, length)
  {
    hide Calls, SpacedBy, CountIn;
    var h := Calls(limit, times).history;
    RunsKeepSpacing(limit, times, lag);
    if length <= 0.0 {
      EmptyWindow(h, lo, lo + length);
    } else if limit == 1 {
      SingleKeepsSpacing(times);
      SpacingBoundsWindows(h, 1, WINDOW, lo, length);
    } else {
      SpacingBoundsWindows(h, limit, WINDOW - lag, lo, length);
    }
  }

  lemma {:induction false} EmptyWindow(h: seq<real>, lo: real, hi: real)
    requires hi <= lo
    ensures CountIn(h, lo, hi) == 0
  {
    if h != [] {
      EmptyWindow(h[..|h| - 1], lo, hi);
    }
  }

  /**
   With calls up to `lag` late: windows up to the safe length, 60 seconds less the lag, stay within
   the limit in every run, and no longer ones do. Under a limit of one lateness costs nothing.
   */
  lemma BoundedIff(limit: int, lag: real, length: real)
    requires limit > 0 && lag >= 0.0
    ensures Bounded(limit, lag, length) <==> length <= 0.0 || length <= SafeLength(limit, lag)
  {
    hide WithinLimit, SafeLength, Lagged;
    if length <= 0.0 || length <= SafeLength(limit, lag) {
      forall times, lo | Lagged(times, lag) ensures WithinLimit(limit, times, lo, length) {
        SafeWindowsHold(limit, lag, length, times, lo);
      }
    } else {
      LongWindowsFail(limit, lag, length);
    }
  }

  lemma LongWindowsFail(limit: int, lag: real, length: real)
    requires limit > 0 && lag >= 0.0 && length > 0.0 && length > SafeLength(limit, lag)
    ensures !Bounded(limit, lag, length)
  {
    hide WithinLimit, Burst;
    if limit == 1 {
      PairExceeds(length);
      assert Lagged([0.0, WINDOW], lag);
    } else {
      var late := if lag < WINDOW then lag else WINDOW;
      BurstExceeds(limit, late, length);
      assert Lagged(Burst(limit, late), lag);
    }
  }

  /** The 60-second bound survives calls up to `lag` late exactly under a limit of one, or without lateness. */
  lemma FullWindowIff(limit: int, lag: real)
    requires limit > 0 && lag >= 0.0
    ensures Bounded(limit, lag, WINDOW) <==> limit == 1 || lag == 0.0
  {
    hide Bounded;
    BoundedIff(limit, lag, WINDOW);
  }

  // Retry-After.

  /**
   A denied caller that waits one second longer than told, with no other call on the key, is
   admitted. Waiting exactly as long as told is enough if and only if the oldest admission leaves
   the window within a second or after a whole number of seconds.
   */
  lemma RetryAfterIsEnough(bucket: seq<real>, limit: int, now: real, later: real)
    requires |bucket| <= limit && !Consume(bucket, limit, now).allowed
    ensures var v := Consume(bucket, limit, now);
      var left := v.bucket[0] + WINDOW - now;
      && v.retryAfter >= 1 && left > 0.0
      && (later >= now + v.retryAfter as real + 1.0 ==> Consume(v.bucket, limit, later).allowed)
      && (Consume(v.bucket, limit, now + v.retryAfter as real).allowed <==> left <= 1.0 || left == left.Floor as real)
  {
    PruneDropsOld(bucket, now - WINDOW);
    var v := Consume(bucket, limit, now);
    assert v.bucket == bucket;
    if later >= now + v.retryAfter as real + 1.0 {
      FreedByOldest(bucket, limit, later);
    }
    FreedByOldest(bucket, limit, now + v.retryAfter as real);
  }

  lemma FreedByOldest(bucket: seq<real>, limit: int, now: real)
    requires limit > 0 && |bucket| == limit
    ensures Consume(bucket, limit, now).allowed <==> bucket[0] <= now - WINDOW
  {
    if bucket[0] <= now - WINDOW {
      PruneDropsOld(bucket[1..], now - WINDOW);
    }
  }
}
