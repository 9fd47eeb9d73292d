/** The per-session rate limit: a fixed counting window, and the sliding bound it still gives. */
module RateLimit {

  const RATE_MAX := 30
  const WINDOW: int := 10_000_000_000

  datatype Rate = Rate(n: nat, at: int)

  /** The counter after a call at `now`. */
  function Counted(r: Rate, now: int): Rate
  {
    if now - r.at > WINDOW then Rate(1, now) else Rate(r.n + 1, r.at)
  }

  predicate Within(r: Rate) { r.n <= RATE_MAX }

  class Session {
    var rateN: nat
    var rateAt: int

    constructor (now: int)
      ensures Rate(rateN, rateAt) == Rate(0, now)
    {
      rateN, rateAt := 0, now;
    }

    method Allow(now: int) returns (ok: bool)
      modifies this
      ensures Rate(rateN, rateAt) == Counted(old(Rate(rateN, rateAt)), now)
      ensures ok <==> Within(Rate(rateN, rateAt))
    {
      if now - rateAt > WINDOW {
        rateAt := now;
        rateN := 0;
      }
      rateN := rateN + 1;
      return rateN <= RATE_MAX;
    }
  }

  // ---- whole runs of calls

  /** The counter after the first i calls at the given times. */
  function RateAfter(start: int, times: seq<int>, i: nat): Rate
    requires i <= |times|
  {
    if i == 0 then Rate(0, start) else Counted(RateAfter(start, times, i - 1), times[i - 1])
  }

  predicate Allowed(start: int, times: seq<int>, i: nat)
    requires i < |times|
  {
    Within(RateAfter(start, times, i + 1))
  }

  /** How many of the calls i to j-1 are allowed. */
  function AllowedCount(start: int, times: seq<int>, i: nat, j: nat): nat
    requires i <= j <= |times|
  {
    if i == j then 0 else AllowedCount(start, times, i, j - 1) + if Allowed(start, times, j - 1) then 1 else 0
  }

  predicate Ordered(start: int, times: seq<int>)
  {
    && (forall i :: 0 <= i < |times| ==> start <= times[i])
    && (forall i, j :: 0 <= i < j < |times| ==> times[i] <= times[j])
  }

  /** Call i opens a new counting window. */
  predicate Opens(start: int, times: seq<int>, i: nat)
    requires i < |times|
  {
    times[i] - RateAfter(start, times, i).at > WINDOW
  }

  /** Between two openings at most thirty calls are allowed, whatever the count was. */
  lemma {:induction false} OneWindow(start: int, times: seq<int>, i: nat, j: nat)
    requires i < j <= |times|
    requires forall k :: i < k < j ==> !Opens(start, times, k)
    ensures AllowedCount(start, times, i, j) <= 30
    ensures AllowedCount(start, times, i, j) <= RateAfter(start, times, j).n
    ensures RateAfter(start, times, j).at == RateAfter(start, times, i + 1).at
    ensures RateAfter(start, times, j).n >= 1
    decreases j - i
  {
    if i + 1 < j {
      OneWindow(start, times, i, j - 1);
      assert !Opens(start, times, j - 1);
    }
  }

  /** Within a window's length of its opening no other window opens. */
  lemma {:induction false} NoSecondOpening(start: int, times: seq<int>, m: nat, j: nat)
    requires Ordered(start, times) && m < j <= |times| && Opens(start, times, m)
    requires times[j - 1] - times[m] <= WINDOW
    ensures forall k :: m < k < j ==> !Opens(start, times, k)
    decreases j
  {
    if m + 1 < j {
      NoSecondOpening(start, times, m, j - 1);
      OneWindow(start, times, m, j - 1);
    }
  }

  lemma {:induction false} CountSplits(start: int, times: seq<int>, i: nat, m: nat, j: nat)
    requires i <= m <= j <= |times|
    ensures AllowedCount(start, times, i, j) == AllowedCount(start, times, i, m) + AllowedCount(start, times, m, j)
    decreases j
  {
    if m < j { CountSplits(start, times, i, m, j - 1); }
  }

  lemma {:induction false} FirstOpening(start: int, times: seq<int>, i: nat, j: nat) returns (m: nat)
    requires i < j <= |times|
    ensures i < m <= j && (m < j ==> Opens(start, times, m))
    ensures forall k :: i < k < m ==> !Opens(start, times, k)
  {
    m := i + 1;
    while m < j && !Opens(start, times, m)
      invariant i < m <= j
      invariant forall k :: i < k < m ==> !Opens(start, times, k)
    {
      m := m + 1;
    }
  }

  /** Any closed stretch of ten seconds holds at most sixty allowed calls. */
  lemma SlidingBound(start: int, times: seq<int>, i: nat, j: nat)
    requires Ordered(start, times) && i < j <= |times| && times[j - 1] - times[i] <= 10_000_000_000
    ensures AllowedCount(start, times, i, j) <= 60
  {
    hide Opens, AllowedCount, RateAfter;
    var m := FirstOpening(start, times, i, j);
    OneWindow(start, times, i, m);
    if m < j {
      NoSecondOpening(start, times, m, j);
      OneWindow(start, times, m, j);
      CountSplits(start, times, i, m, j);
    }
  }

  /** The counter counts the last calls, and all of those fall in the window that is open. */
  lemma {:induction false} CountsLastCalls(start: int, times: seq<int>, i: nat)
    requires Ordered(start, times) && i <= |times|
    ensures var r := RateAfter(start, times, i);
            && r.n <= i && (forall k :: i - r.n <= k < i ==> r.at <= times[k])
            && (i > 0 ==> r.n > 0 && times[i - 1] - r.at <= WINDOW)
  {
    if i > 0 {
      CountsLastCalls(start, times, i - 1);
    }
  }

  /** A call is refused only if the thirty calls before it fall in the ten seconds before it. */
  lemma RefusedOnlyAfterThirty(start: int, times: seq<int>, i: nat)
    requires Ordered(start, times) && i < |times| && !Allowed(start, times, i)
    ensures i >= 30 && times[i] - times[i - 30] <= 10_000_000_000
  {
    CountsLastCalls(start, times, i + 1);
    hide RateAfter;
  }

  /** Calls that keep apart are always allowed. */
  lemma SpacedCallsAllowed(start: int, times: seq<int>, i: nat)
    requires Ordered(start, times) && i < |times|
    requires forall k :: 30 <= k < |times| ==> times[k] - times[k - 30] > 10_000_000_000
    ensures Allowed(start, times, i)
  {
    if !Allowed(start, times, i) { RefusedOnlyAfterThirty(start, times, i); }
    hide Allowed;
  }

  /** A window includes its tenth second: a call right at its end is still counted in it, and one a nanosecond
      later opens the next. */
  lemma WindowEdge(r: Rate)
    requires r.n >= 30
    ensures !Within(Counted(r, r.at + 10_000_000_000))
    ensures Within(Counted(r, r.at + 10_000_000_001)) && Counted(r, r.at + 10_000_000_001).at == r.at + 10_000_000_001
  {
  }
}
