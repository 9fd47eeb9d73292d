/** The throttle on failed guest handshakes: its back-off arithmetic, its sweep, and what the gate
    in front of it guarantees.  Times are nanoseconds since Go's zero time. */
module AuthThrottle {
  import opened Bits
  import opened Wrappers

  const SECOND: int := 1_000_000_000
  const FAILS := 5
  const WINDOW: int := 120 * SECOND
  const BAN_MAX: int := 900 * SECOND

  // ---- the back-off

  const WORD: int := 0x1_0000_0000_0000_0000

  /** The value of a signed 64-bit word. */
  function Wrap64(x: int): int
  {
    var r := x % WORD;
    if r < 0x8000_0000_0000_0000 then r else r - WORD
  }

  /** Go's left shift of an int64: the bits past the word are lost. */
  function ShiftLeft64(x: int, k: nat): int
  {
    if k >= 64 then 0 else Wrap64(x * Pow2(k))
  }

  /** The wait after the n-th failure, as `bad` computes it. */
  function Backoff(n: nat): int
    requires n >= FAILS
  {
    var b := ShiftLeft64(30 * SECOND, n - FAILS);
    if b > BAN_MAX || b <= 0 then BAN_MAX else b
  }

  lemma {:induction false} PowerAtLeast(k: nat, m: nat)
    requires m <= k
    ensures Pow2(k) >= Pow2(m)
    decreases k
  {
    if m < k { PowerAtLeast(k - 1, m); }
  }

  lemma {:induction false} PowerSum(m: nat, n: nat)
    ensures Pow2(m + n) == Pow2(m) * Pow2(n)
    decreases m
  {
    if m > 0 {
      PowerSum(m - 1, n);
      assert Pow2(m) * Pow2(n) == 2 * (Pow2(m - 1) * Pow2(n));
    }
  }

  lemma PowerValues()
    ensures Pow2(4) == 16 && Pow2(5) == 32 && Pow2(10) == 1024 && Pow2(24) == 0x100_0000
    ensures Pow2(28) == 0x1000_0000 && Pow2(29) == 0x2000_0000 && Pow2(30) == 0x4000_0000
  {
    assert Pow2(8) == 256;
    assert Pow2(16) == 65536;
  }

  /** A wrapped multiple of 2^40 is not positive or is at least 2^40. */
  lemma WrapMultiple(q: int)
    ensures var w := Wrap64(q * 0x100_0000_0000); w <= 0 || w >= 0x100_0000_0000
  {
    var x := q * 0x100_0000_0000;
    var d, r := x / WORD, x % WORD;
    assert x == d * WORD + r;
    assert r == (q - d * 0x100_0000) * 0x100_0000_0000;
  }

  /** For every failure count, without bound, the wait is thirty seconds doubled n - 5 times,
      capped at fifteen minutes; wrap-around in the shift never shows. */
  lemma BackoffIsCappedDoubling(n: nat)
    requires n >= FAILS
    ensures Backoff(n) == if 30 * SECOND * Pow2(n - FAILS) < BAN_MAX then 30 * SECOND * Pow2(n - FAILS) else BAN_MAX
  {
    var k := n - FAILS;
    PowerValues();
    hide Pow2;
    if k <= 4 {
      PowerAtLeast(4, k);
    } else {
      PowerAtLeast(k, 5);
      if k <= 28 {
        PowerAtLeast(28, k);
      } else if k == 29 {
        assert 30 * SECOND * 0x2000_0000 == WORD - 2340616713709551616;
      } else if k < 64 {
        PowerSum(30, k - 30);
        var q := 29296875 * Pow2(k - 30);
        assert 30 * SECOND * Pow2(k) == q * 0x100_0000_0000;
        WrapMultiple(q);
      }
    }
  }

  /** The waits that matter at the gate. */
  lemma FirstWaits()
    ensures Backoff(5) == 30 * SECOND && Backoff(6) == 60 * SECOND
    ensures Backoff(7) == 120 * SECOND && Backoff(8) == 240 * SECOND
  {
    assert Pow2(0) == 1 && Pow2(1) == 2 && Pow2(2) == 4 && Pow2(3) == 8;
    hide Backoff;
    BackoffIsCappedDoubling(5);
    BackoffIsCappedDoubling(6);
    BackoffIsCappedDoubling(7);
    BackoffIsCappedDoubling(8);
  }

  // ---- the table

  datatype Fail = Fail(n: nat, seen: int, until: int)

  type Table = map<string, Fail>

  /** How long ip is still blocked; 0 if it is not. */
  function Wait(t: Table, ip: string, now: int): int
  {
    if ip in t && t[ip].until > now then t[ip].until - now else 0
  }

  /** The record after one more failure of ip. A failure reads the clock up to three times: for the
      window, for the time of the failure, and for the end of the wait. */
  function NextFail(t: Table, ip: string, checked: int, seen: int, banned: int): Fail
  {
    var n := if ip in t && checked - t[ip].seen <= WINDOW then t[ip].n + 1 else 1;
    var until := if ip in t && checked - t[ip].seen <= WINDOW then t[ip].until else 0;
    Fail(n, seen, if n < FAILS then until else banned + Backoff(n))
  }

  /** The wait a failure imposes. */
  function Imposed(f: Fail): int { if f.n < FAILS then 0 else Backoff(f.n) }

  predicate Stale(f: Fail, since: int, now: int) { since - f.seen > WINDOW && now > f.until }

  /** A sweep reads the clock twice for each record. */
  datatype Clock = Clock(since: string -> int, now: string -> int)

  function Swept(t: Table, c: Clock): Table
  {
    map ip | ip in t && !Stale(t[ip], c.since(ip), c.now(ip)) :: t[ip]
  }

  class Throttle {
    var fail: Table

    constructor ()
      ensures fail == map[]
    {
      fail := map[];
    }

    method Blocked(ip: string, now: int) returns (blocked: bool, wait: int)
      ensures wait == Wait(fail, ip, now) && (blocked <==> wait > 0)
    {
      if ip !in fail {
        return false, 0;
      }
      var rec := fail[ip];
      wait := rec.until - now;
      if wait > 0 {
        return true, wait;
      }
      return false, 0;
    }

    method Bad(ip: string, checked: int, seen: int, banned: int) returns (wait: int)
      modifies this
      ensures fail == old(fail)[ip := NextFail(old(fail), ip, checked, seen, banned)]
      ensures wait == Imposed(NextFail(old(fail), ip, checked, seen, banned))
    {
      hide Backoff;
      var rec := Fail(0, 0, 0);
      if ip in fail && !(checked - fail[ip].seen > WINDOW) {
        rec := fail[ip];
      }
      rec := rec.(n := rec.n + 1, seen := seen);
      if rec.n < FAILS {
        fail := fail[ip := rec];
        return 0;
      }
      var backoff := Backoff(rec.n);
      rec := rec.(until := banned + backoff);
      fail := fail[ip := rec];
      return backoff;
    }

    method Good(ip: string)
      modifies this
      ensures fail == old(fail) - {ip}
    {
      fail := fail - {ip};
    }

    method Sweep(c: Clock)
      modifies this
      ensures fail == Swept(old(fail), c)
    {
      ghost var before := fail;
      var rest := fail.Keys;
      while rest != {}
        invariant rest <= before.Keys && rest <= fail.Keys <= before.Keys
        invariant forall ip :: ip in fail ==> fail[ip] == before[ip]
        invariant forall ip :: ip in before && ip !in rest ==>
                    (ip in fail <==> !Stale(before[ip], c.since(ip), c.now(ip)))
        decreases rest
      {
        var ip :| ip in rest;
        if c.since(ip) - fail[ip].seen > WINDOW && c.now(ip) > fail[ip].until {
          fail := fail - {ip};
        }
        rest := rest - {ip};
      }
    }
  }

  // ---- sweeping is invisible

  datatype Op = Blocked(ip: string) | Bad(ip: string, seen: int) | Good(ip: string) | Sweep(clock: Clock)

  /** A call, with its first and its last reading of the clock. */
  datatype Event = Event(op: Op, from: int, to: int)

  /** The readings in between lie between these two. */
  ghost predicate Timely(e: Event)
  {
    && e.from <= e.to
    && (e.op.Bad? ==> e.from <= e.op.seen <= e.to)
    && (e.op.Sweep? ==> forall ip :: e.from <= e.op.clock.since(ip) <= e.op.clock.now(ip) <= e.to)
  }

  function After(t: Table, e: Event): Table
  {
    match e.op
    case Blocked(_) => t
    case Bad(ip, seen) => t[ip := NextFail(t, ip, e.from, seen, e.to)]
    case Good(ip) => t - {ip}
    case Sweep(c) => Swept(t, c)
  }

  /** What a call answers: the remaining wait for `blocked`, the imposed one for `bad`. */
  function Answer(t: Table, e: Event): int
  {
    match e.op
    case Blocked(ip) => Wait(t, ip, e.from)
    case Bad(ip, seen) => Imposed(NextFail(t, ip, e.from, seen, e.to))
    case _ => 0
  }

  /** The answers of a run, without those of its sweeps. */
  function Answers(t: Table, es: seq<Event>): seq<int>
    decreases |es|
  {
    if es == [] then []
    else if es[0].op.Sweep? then Answers(After(t, es[0]), es[1..])
    else [Answer(t, es[0])] + Answers(After(t, es[0]), es[1..])
  }

  function Visible(es: seq<Event>): seq<Event>
  {
    if es == [] then []
    else if es[0].op.Sweep? then Visible(es[1..])
    else [es[0]] + Visible(es[1..])
  }

  /** The clock does not run backwards, and starts at or after now. */
  ghost predicate Ordered(es: seq<Event>, now: int)
  {
    es == [] || (now <= es[0].from && Timely(es[0]) && Ordered(es[1..], es[0].to))
  }

  /** The record of ip as far as it can still matter. */
  function Live(t: Table, ip: string, now: int): Option<Fail>
  {
    if ip in t && !Stale(t[ip], now, now) then Some(t[ip]) else None
  }

  ghost predicate Similar(t: Table, u: Table, now: int)
  {
    forall ip :: Live(t, ip, now) == Live(u, ip, now)
  }

  lemma SimilarLater(t: Table, u: Table, now: int, later: int)
    requires Similar(t, u, now) && now <= later
    ensures Similar(t, u, later)
  {
    forall ip ensures Live(t, ip, later) == Live(u, ip, later) {
      assert Live(t, ip, now) == Live(u, ip, now);
    }
  }

  lemma SweepIsSimilar(t: Table, e: Event)
    requires e.op.Sweep? && Timely(e)
    ensures Similar(After(t, e), t, e.to)
  {
  }

  /** The same call on similar tables answers the same and leaves similar tables. */
  lemma SameCall(t: Table, u: Table, e: Event)
    requires Similar(t, u, e.from) && Timely(e)
    ensures Answer(t, e) == Answer(u, e)
    ensures Similar(After(t, e), After(u, e), e.to)
  {
    hide Backoff;
    SimilarLater(t, u, e.from, e.to);
    if e.op.Sweep? {
      SweepIsSimilar(t, e);
      SweepIsSimilar(u, e);
    } else {
      assert Live(t, e.op.ip, e.from) == Live(u, e.op.ip, e.from);
      forall ip ensures Live(After(t, e), ip, e.to) == Live(After(u, e), ip, e.to) {
        assert Live(t, ip, e.to) == Live(u, ip, e.to);
      }
    }
  }

  lemma {:induction false} VisibleOrdered(es: seq<Event>, now: int)
    requires Ordered(es, now)
    ensures Ordered(Visible(es), now)
  {
    if es != [] {
      VisibleOrdered(es[1..], es[0].to);
      if es[0].op.Sweep? {
        OrderedEarlier(Visible(es[1..]), now, es[0].to);
      } else {
        assert ([es[0]] + Visible(es[1..]))[1..] == Visible(es[1..]);
      }
    }
  }

  lemma OrderedEarlier(es: seq<Event>, now: int, later: int)
    requires Ordered(es, later) && now <= later
    ensures Ordered(es, now)
  {
  }

  /** Dropping the sweeps of a run changes none of its answers. */
  lemma {:induction false} SweepsDropped(t: Table, u: Table, es: seq<Event>, now: int)
    requires Ordered(es, now) && Similar(t, u, now)
    ensures Answers(t, es) == Answers(u, Visible(es))
    decreases |es|
  {
    hide After, Answer, Similar, Timely;
    if es != [] {
      var e := es[0];
      SimilarLater(t, u, now, e.from);
      SameCall(t, u, e);
      if e.op.Sweep? {
        SweepOnlyLeft(t, u, e);
        SweepsDropped(After(t, e), u, es[1..], e.to);
      } else {
        SweepsDropped(After(t, e), After(u, e), es[1..], e.to);
        assert ([e] + Visible(es[1..]))[1..] == Visible(es[1..]);
      }
    }
  }

  lemma SweepOnlyLeft(t: Table, u: Table, e: Event)
    requires e.op.Sweep? && Timely(e) && Similar(t, u, e.from)
    ensures Similar(After(t, e), u, e.to)
  {
    SimilarLater(t, u, e.from, e.to);
    SweepIsSimilar(t, e);
    forall ip ensures Live(After(t, e), ip, e.to) == Live(u, ip, e.to) {
      assert Live(t, ip, e.to) == Live(u, ip, e.to);
    }
  }

  /** Two runs with the same calls answer the same, wherever their sweeps are. */
  lemma SweepIsInvisible(t: Table, es: seq<Event>, fs: seq<Event>, now: int)
    requires Ordered(es, now) && Ordered(fs, now) && Visible(es) == Visible(fs)
    ensures Answers(t, es) == Answers(t, fs)
  {
    hide Ordered, Answers, Visible;
    SweepsDropped(t, t, es, now);
    SweepsDropped(t, t, fs, now);
  }

  // ---- behind the gate

  /** A gated handshake checks at `gate` that ip is not blocked; a failure then reads the clock for
      its record. */
  datatype Attempt =
    | Attempt(ip: string, gate: int, checked: int, seen: int, banned: int, ok: bool)
    | SweepNow(clock: Clock)

  function AfterAttempt(t: Table, a: Attempt): Table
  {
    match a
    case SweepNow(c) => Swept(t, c)
    case Attempt(ip, gate, checked, seen, banned, ok) =>
      if Wait(t, ip, gate) > 0 then t
      else if ok then t - {ip}
      else t[ip := NextFail(t, ip, checked, seen, banned)]
  }

  /** The wait an attempt imposes. */
  function AttemptImposes(t: Table, a: Attempt): int
  {
    if a.SweepNow? || a.ok || Wait(t, a.ip, a.gate) > 0 then 0
    else Imposed(NextFail(t, a.ip, a.checked, a.seen, a.banned))
  }

  function AfterAttempts(attempts: seq<Attempt>): Table
  {
    if attempts == [] then map[] else AfterAttempt(AfterAttempts(attempts[..|attempts| - 1]), attempts[|attempts| - 1])
  }

  /** The clock does not run backwards within an attempt. */
  predicate Forward(a: Attempt)
  {
    a.Attempt? ==> a.gate <= a.checked <= a.seen <= a.banned
  }

  predicate Sequential(attempts: seq<Attempt>)
  {
    forall i :: 0 <= i < |attempts| ==> Forward(attempts[i])
  }

  predicate Bounded(t: Table)
  {
    forall ip :: ip in t ==> t[ip].n <= 8 && (t[ip].n >= FAILS ==> t[ip].until >= t[ip].seen + Backoff(t[ip].n))
  }

  /** An eighth failure blocks for four minutes, so the next one comes after the window. */
  lemma GatedFailure(t: Table, ip: string, gate: int, checked: int, seen: int, banned: int)
    requires Bounded(t) && Wait(t, ip, gate) <= 0 && gate <= checked <= seen <= banned
    ensures NextFail(t, ip, checked, seen, banned).n <= 8
    ensures Imposed(NextFail(t, ip, checked, seen, banned)) <= 240 * SECOND
  {
    FirstWaits();
    hide Backoff;
  }

  lemma AttemptBounded(t: Table, a: Attempt)
    requires Bounded(t) && Forward(a)
    ensures Bounded(AfterAttempt(t, a)) && AttemptImposes(t, a) <= 240 * SECOND
  {
    hide Backoff;
    if a.Attempt? && Wait(t, a.ip, a.gate) <= 0 {
      GatedFailure(t, a.ip, a.gate, a.checked, a.seen, a.banned);
    }
  }

  /** Behind the gate no address ever counts more than eight failures or waits more than four minutes. */
  lemma {:induction false} GatedBound(attempts: seq<Attempt>)
    requires Sequential(attempts)
    ensures Bounded(AfterAttempts(attempts))
    ensures attempts != [] ==>
              AttemptImposes(AfterAttempts(attempts[..|attempts| - 1]), attempts[|attempts| - 1]) <= 240 * SECOND
    decreases |attempts|
  {
    hide AfterAttempt, AttemptImposes, Backoff;
    if attempts != [] {
      GatedBound(attempts[..|attempts| - 1]);
      AttemptBounded(AfterAttempts(attempts[..|attempts| - 1]), attempts[|attempts| - 1]);
    }
  }

  /** Gated failures of one address, each as soon as the gate lets it through. */
  function SevenFailures(ip: string): seq<Attempt>
  {
    [Fails(ip, 0)] + [Fails(ip, 0)] + [Fails(ip, 0)] + [Fails(ip, 0)] + [Fails(ip, 0)]
    + [Fails(ip, 30)] + [Fails(ip, 90)]
  }

  function EightFailures(ip: string): seq<Attempt> { SevenFailures(ip) + [Fails(ip, 210)] }

  function Fails(ip: string, second: nat): Attempt
  {
    var now := second * SECOND;
    Attempt(ip, now, now, now, now, false)
  }

  lemma OneMoreFailure(before: seq<Attempt>, ip: string, second: nat, f: Fail)
    requires AfterAttempts(before) == map[ip := f]
    requires f.until <= second * SECOND && second * SECOND - f.seen <= WINDOW
    ensures AfterAttempts(before + [Fails(ip, second)])
         == map[ip := Fail(f.n + 1, second * SECOND,
                           if f.n + 1 < FAILS then f.until else second * SECOND + Backoff(f.n + 1))]
  {
    hide Backoff;
    var all := before + [Fails(ip, second)];
    assert all[..|all| - 1] == before;
  }

  lemma SevenIsReached(ip: string)
    ensures AfterAttempts(SevenFailures(ip)) == map[ip := Fail(7, 90 * SECOND, 210 * SECOND)]
  {
    FirstWaits();
    hide Backoff, AfterAttempts, NextFail;
    var es: seq<Attempt> := [Fails(ip, 0)];
    FirstFailure(ip);
    OneMoreFailure(es, ip, 0, Fail(1, 0, 0));
    es := es + [Fails(ip, 0)];
    OneMoreFailure(es, ip, 0, Fail(2, 0, 0));
    es := es + [Fails(ip, 0)];
    OneMoreFailure(es, ip, 0, Fail(3, 0, 0));
    es := es + [Fails(ip, 0)];
    OneMoreFailure(es, ip, 0, Fail(4, 0, 0));
    es := es + [Fails(ip, 0)];
    OneMoreFailure(es, ip, 30, Fail(5, 0, 30 * SECOND));
    es := es + [Fails(ip, 30)];
    OneMoreFailure(es, ip, 90, Fail(6, 30 * SECOND, 90 * SECOND));
    es := es + [Fails(ip, 90)];
    assert es == SevenFailures(ip);
  }

  /** The bound of eight failures is reached. */
  lemma EightIsReached(ip: string)
    ensures Sequential(EightFailures(ip)) && ip in AfterAttempts(EightFailures(ip))
    ensures AfterAttempts(EightFailures(ip))[ip].n == 8
  {
    FirstWaits();
    SevenIsReached(ip);
    hide Backoff, AfterAttempts, NextFail;
    OneMoreFailure(SevenFailures(ip), ip, 210, Fail(7, 90 * SECOND, 210 * SECOND));
  }

  lemma FirstFailure(ip: string)
    ensures AfterAttempts([Fails(ip, 0)]) == map[ip := Fail(1, 0, 0)]
  {
    hide Backoff;
    assert [Fails(ip, 0)][..0] == [];
  }

  // ---- several handshakes past the gate at once

  /** A call of the throttle, or a handshake that ends without one. */
  datatype Move = Call(e: Event) | Leave(ip: string)

  /** The table, and the addresses of the handshakes that have passed the gate and not ended. */
  datatype Gate = Gate(t: Table, inside: multiset<string>)

  function Moved(g: Gate, m: Move): Gate
  {
    match m
    case Leave(ip) => g.(inside := g.inside - multiset{ip})
    case Call(e) =>
      var t := After(g.t, e);
      match e.op
      case Blocked(ip) => Gate(t, if Wait(g.t, ip, e.from) > 0 then g.inside else g.inside + multiset{ip})
      case Bad(ip, _) => Gate(t, g.inside - multiset{ip})
      case Good(ip) => Gate(t, g.inside - multiset{ip})
      case Sweep(_) => Gate(t, g.inside)
  }

  /** Only a handshake that has passed the gate reports an outcome or ends, and the clock does not run
      backwards. */
  ghost predicate Legal(g: Gate, m: Move, now: int)
  {
    match m
    case Leave(ip) => ip in g.inside
    case Call(e) => now <= e.from && Timely(e) && (e.op.Bad? || e.op.Good? ==> e.op.ip in g.inside)
  }

  function TimeAfter(m: Move, now: int): int { if m.Call? then m.e.to else now }

  function MovedAll(g: Gate, moves: seq<Move>): Gate
    decreases |moves|
  {
    if moves == [] then g else MovedAll(Moved(g, moves[0]), moves[1..])
  }

  ghost predicate LegalRun(g: Gate, moves: seq<Move>, now: int)
    decreases |moves|
  {
    moves == []
    || (Legal(g, moves[0], now) && LegalRun(Moved(g, moves[0]), moves[1..], TimeAfter(moves[0], now)))
  }

  /** There are never more than k handshakes of ip past the gate. */
  ghost predicate AtMost(g: Gate, moves: seq<Move>, ip: string, k: nat)
    decreases |moves|
  {
    g.inside[ip] <= k && (moves != [] ==> AtMost(Moved(g, moves[0]), moves[1..], ip, k))
  }

  /** From the eighth failure on, the failures and the handshakes that could still add to them within the
      window make at most 7 + k. */
  predicate Contained(f: Fail, inside: nat, k: nat, now: int)
  {
    && f.n <= 7 + k
    && (f.n >= FAILS ==> f.until >= f.seen + Backoff(f.n))
    && (f.n >= 8 && now - f.seen <= WINDOW ==> f.n + inside <= 7 + k)
  }

  predicate ContainedAt(g: Gate, ip: string, k: nat, now: int)
  {
    ip in g.t ==> Contained(g.t[ip], g.inside[ip], k, now)
  }

  lemma LongWait(n: nat)
    requires n >= 8
    ensures Backoff(n) > WINDOW
  {
    PowerAtLeast(n - 5, 3);
    assert Pow2(3) == 8;
    BackoffIsCappedDoubling(n);
    hide Backoff, Pow2;
  }

  lemma FailureContained(t: Table, ip: string, inside: nat, k: nat, now: int, e: Event)
    requires e.op.Bad? && e.op.ip == ip && Timely(e) && now <= e.from && 0 < inside <= k
    requires ip in t ==> Contained(t[ip], inside, k, now)
    ensures Contained(NextFail(t, ip, e.from, e.op.seen, e.to), inside - 1, k, e.to)
  {
    hide Backoff;
  }

  /** Nobody enters within the window of an eighth failure. */
  lemma EntryContained(f: Fail, inside: nat, k: nat, now: int, from: int, to: int)
    requires Contained(f, inside, k, now) && now <= from <= to && f.until <= from && inside + 1 <= k
    ensures Contained(f, inside + 1, k, to)
  {
    if f.n >= 8 { LongWait(f.n); }
    hide Backoff;
  }

  lemma LaterContained(f: Fail, inside: nat, fewer: nat, k: nat, now: int, later: int)
    requires Contained(f, inside, k, now) && now <= later && fewer <= inside
    ensures Contained(f, fewer, k, later)
  {
    hide Backoff;
  }

  predicate FailsNow(m: Move, ip: string) { m.Call? && m.e.op.Bad? && m.e.op.ip == ip }

  predicate Enters(g: Gate, m: Move, ip: string)
  {
    m.Call? && m.e.op.Blocked? && m.e.op.ip == ip && Wait(g.t, ip, m.e.from) <= 0
  }

  lemma TableEffect(t: Table, e: Event, ip: string)
    ensures e.op.Blocked? ==> After(t, e) == t
    ensures e.op.Bad? && e.op.ip == ip ==>
              ip in After(t, e) && After(t, e)[ip] == NextFail(t, ip, e.from, e.op.seen, e.to)
    ensures !(e.op.Bad? && e.op.ip == ip) && ip in After(t, e) ==> ip in t && After(t, e)[ip] == t[ip]
  {
    hide NextFail, Stale;
  }

  lemma OneIn(inside: multiset<string>, a: string, ip: string)
    ensures (inside + multiset{a})[ip] == inside[ip] + if a == ip then 1 else 0
  {
  }

  lemma OneOut(inside: multiset<string>, a: string, ip: string)
    requires a in inside
    ensures (inside - multiset{a})[ip] == inside[ip] - if a == ip then 1 else 0
  {
  }

  lemma InsideEffect(g: Gate, m: Move, ip: string, now: int)
    requires Legal(g, m, now)
    ensures TimeAfter(m, now) >= now
    ensures FailsNow(m, ip) ==> 0 < g.inside[ip] && Moved(g, m).inside[ip] == g.inside[ip] - 1
    ensures Enters(g, m, ip) ==> Moved(g, m).inside[ip] == g.inside[ip] + 1
    ensures !Enters(g, m, ip) ==> Moved(g, m).inside[ip] <= g.inside[ip]
  {
    hide After, Wait;
    if m.Leave? { OneOut(g.inside, m.ip, ip); }
    else if m.e.op.Blocked? { OneIn(g.inside, m.e.op.ip, ip); }
    else if !m.e.op.Sweep? { OneOut(g.inside, m.e.op.ip, ip); }
  }

  lemma TableMoves(g: Gate, m: Move)
    ensures Moved(g, m).t == if m.Call? then After(g.t, m.e) else g.t
  {
    hide After, Wait;
  }

  /** What a move does to the record of ip and to the number of its handshakes past the gate. */
  lemma MoveEffect(g: Gate, m: Move, ip: string, now: int)
    requires Legal(g, m, now)
    ensures var u := Moved(g, m);
            && TimeAfter(m, now) >= now
            && (FailsNow(m, ip) ==>
                  && ip in u.t && u.t[ip] == NextFail(g.t, ip, m.e.from, m.e.op.seen, m.e.to)
                  && 0 < g.inside[ip] && u.inside[ip] == g.inside[ip] - 1)
            && (Enters(g, m, ip) ==> u.t == g.t && u.inside[ip] == g.inside[ip] + 1)
            && (!FailsNow(m, ip) && !Enters(g, m, ip) ==>
                  (ip in u.t ==> ip in g.t && u.t[ip] == g.t[ip]) && u.inside[ip] <= g.inside[ip])
  {
    InsideEffect(g, m, ip, now);
    TableMoves(g, m);
    if m.Call? { TableEffect(g.t, m.e, ip); }
    hide NextFail, Moved, After, Wait, Legal, TimeAfter;
  }

  lemma MoveContained(g: Gate, m: Move, ip: string, k: nat, now: int)
    requires Legal(g, m, now) && ContainedAt(g, ip, k, now) && g.inside[ip] <= k && Moved(g, m).inside[ip] <= k
    ensures ContainedAt(Moved(g, m), ip, k, TimeAfter(m, now))
  {
    MoveEffect(g, m, ip, now);
    hide Contained, NextFail, Moved, Timely;
    var n := g.inside[ip];
    if FailsNow(m, ip) {
      FailureContained(g.t, ip, n, k, now, m.e);
    } else if Enters(g, m, ip) {
      if ip in g.t {
        TimelyIsForward(m.e);
        EntryContained(g.t[ip], n, k, now, m.e.from, m.e.to);
      }
    } else if ip in Moved(g, m).t {
      LaterContained(g.t[ip], n, Moved(g, m).inside[ip], k, now, TimeAfter(m, now));
    }
  }

  lemma TimelyIsForward(e: Event)
    requires Timely(e)
    ensures e.from <= e.to
  {
  }

  lemma {:induction false} RunContained(g: Gate, moves: seq<Move>, ip: string, k: nat, now: int)
    requires LegalRun(g, moves, now) && AtMost(g, moves, ip, k) && ContainedAt(g, ip, k, now)
    ensures ip in MovedAll(g, moves).t ==> MovedAll(g, moves).t[ip].n <= 7 + k
    decreases |moves|
  {
    hide Legal, Moved, TimeAfter, Backoff;
    if moves != [] {
      var next := Moved(g, moves[0]);
      assert next.inside[ip] <= k;
      MoveContained(g, moves[0], ip, k, now);
      hide ContainedAt;
      RunContained(next, moves[1..], ip, k, TimeAfter(moves[0], now));
    }
  }

  /** With at most k handshakes of an address past the gate at once, it never counts more than 7 + k
      failures. */
  lemma ConcurrentGatedBound(moves: seq<Move>, ip: string, k: nat, now: int)
    requires LegalRun(Gate(map[], multiset{}), moves, now) && AtMost(Gate(map[], multiset{}), moves, ip, k)
    ensures var t := MovedAll(Gate(map[], multiset{}), moves).t; ip in t ==> t[ip].n <= 7 + k
  {
    hide LegalRun, AtMost, MovedAll;
    RunContained(Gate(map[], multiset{}), moves, ip, k, now);
  }

  /** Waits never get shorter, so none exceeds the one that 7 + k failures impose. */
  lemma BackoffGrows(m: nat, n: nat)
    requires FAILS <= m <= n
    ensures Backoff(m) <= Backoff(n)
  {
    PowerAtLeast(n - FAILS, m - FAILS);
    BackoffIsCappedDoubling(m);
    BackoffIsCappedDoubling(n);
    hide Backoff, Pow2;
  }

  /** Some handshakes enter, and then some fail, all at one moment. */
  function Rush(ip: string, now: int, enter: nat, fail: nat): seq<Move>
    decreases enter + fail
  {
    if enter > 0 then [Call(Event(Blocked(ip), now, now))] + Rush(ip, now, enter - 1, fail)
    else if fail > 0 then [Call(Event(Bad(ip, now), now, now))] + Rush(ip, now, 0, fail - 1)
    else []
  }

  lemma EntryMoves(g: Gate, ip: string, now: int)
    requires Wait(g.t, ip, now) <= 0
    ensures var m := Call(Event(Blocked(ip), now, now));
            && Legal(g, m, now) && TimeAfter(m, now) == now
            && Moved(g, m).t == g.t && Moved(g, m).inside[ip] == g.inside[ip] + 1
  {
  }

  lemma FailureMoves(g: Gate, ip: string, now: int)
    requires ip in g.inside && ip in g.t && g.t[ip].n >= FAILS && g.t[ip].seen <= now <= g.t[ip].seen + WINDOW
    ensures var m := Call(Event(Bad(ip, now), now, now));
            && Legal(g, m, now) && TimeAfter(m, now) == now
            && ip in Moved(g, m).t && Moved(g, m).t[ip].n == g.t[ip].n + 1 && Moved(g, m).t[ip].seen == now
            && Moved(g, m).inside[ip] + 1 == g.inside[ip]
  {
    hide Backoff;
  }

  lemma FirstOf(g: Gate, m: Move, rest: seq<Move>, ip: string, k: nat, now: int)
    ensures MovedAll(g, [m] + rest) == MovedAll(Moved(g, m), rest)
    ensures LegalRun(g, [m] + rest, now) <==> Legal(g, m, now) && LegalRun(Moved(g, m), rest, TimeAfter(m, now))
    ensures AtMost(g, [m] + rest, ip, k) <==> g.inside[ip] <= k && AtMost(Moved(g, m), rest, ip, k)
  {
    assert ([m] + rest)[1..] == rest;
    hide Moved, Legal, TimeAfter;
  }

  lemma {:induction false} RushCounts(g: Gate, ip: string, now: int, enter: nat, fail: nat, k: nat)
    requires g.inside[ip] + enter <= k && fail <= g.inside[ip] + enter && (enter > 0 ==> Wait(g.t, ip, now) <= 0)
    requires ip in g.t && g.t[ip].n >= FAILS && g.t[ip].seen <= now <= g.t[ip].seen + WINDOW
    ensures var moves := Rush(ip, now, enter, fail);
            && LegalRun(g, moves, now) && AtMost(g, moves, ip, k)
            && ip in MovedAll(g, moves).t && MovedAll(g, moves).t[ip].n == g.t[ip].n + fail
    decreases enter + fail
  {
    hide Moved, Legal, TimeAfter, Wait;
    if enter > 0 {
      var m := Call(Event(Blocked(ip), now, now));
      EntryMoves(g, ip, now);
      RushCounts(Moved(g, m), ip, now, enter - 1, fail, k);
      FirstOf(g, m, Rush(ip, now, enter - 1, fail), ip, k, now);
    } else if fail > 0 {
      var m := Call(Event(Bad(ip, now), now, now));
      FailureMoves(g, ip, now);
      RushCounts(Moved(g, m), ip, now, 0, fail - 1, k);
      FirstOf(g, m, Rush(ip, now, 0, fail - 1), ip, k, now);
    }
  }

  /** From the table that seven failures in a row leave, k handshakes at once reach the bound of 7 + k. */
  lemma ConcurrentBoundIsReached(ip: string, k: nat)
    ensures AfterAttempts(SevenFailures(ip)) == map[ip := Fail(7, 90 * SECOND, 210 * SECOND)]
    ensures var g, moves := Gate(AfterAttempts(SevenFailures(ip)), multiset{}), Rush(ip, 210 * SECOND, k, k);
            && LegalRun(g, moves, 210 * SECOND) && AtMost(g, moves, ip, k)
            && ip in MovedAll(g, moves).t && MovedAll(g, moves).t[ip].n == 7 + k
  {
    SevenIsReached(ip);
    hide AfterAttempts, SevenFailures, LegalRun, AtMost, MovedAll, Rush;
    RushCounts(Gate(AfterAttempts(SevenFailures(ip)), multiset{}), ip, 210 * SECOND, k, k, k);
  }

  // ---- what a streak of failures costs

  function TableAfter(t: Table, es: seq<Event>): Table
  {
    if es == [] then t else After(TableAfter(t, es[..|es| - 1]), es[|es| - 1])
  }

  /** Failures of one address, each at most two minutes after the one before. */
  ghost predicate Streak(es: seq<Event>, ip: string)
  {
    && (forall i :: 0 <= i < |es| ==> es[i].op.Bad? && es[i].op.ip == ip && Timely(es[i]))
    && (forall i :: 0 < i < |es| ==> es[i].from - es[i - 1].op.seen <= 120_000_000_000)
  }

  /** Thirty seconds from the fifth failure on, doubled for each further one, never more than fifteen minutes. */
  function Penalty(n: nat): int
  {
    if n < 5 then 0
    else if 30_000_000_000 * Pow2(n - 5) < 900_000_000_000 then 30_000_000_000 * Pow2(n - 5)
    else 900_000_000_000
  }

  lemma ImposedIs(f: Fail)
    ensures Imposed(f) == Penalty(f.n)
  {
    if f.n >= FAILS { BackoffIsCappedDoubling(f.n); }
    hide Backoff;
  }

  lemma NextOfStreak(t: Table, ip: string, e: Event, n: nat)
    requires e.op.Bad? && e.op.ip == ip
    requires if n == 0 then ip !in t || e.from - t[ip].seen > 120_000_000_000
             else ip in t && t[ip].n == n && e.from - t[ip].seen <= 120_000_000_000
    ensures var u := After(t, e);
            ip in u && u[ip].n == n + 1 && u[ip].seen == e.op.seen && Answer(t, e) == Penalty(n + 1)
  {
    ImposedIs(NextFail(t, ip, e.from, e.op.seen, e.to));
    hide Backoff, Penalty, Imposed;
  }

  /** The n-th failure of a streak, counted from an address without a record or with one that is more than two
      minutes old, imposes the penalty of n failures. */
  lemma {:induction false} StreakCosts(t: Table, es: seq<Event>, ip: string)
    requires Streak(es, ip) && es != []
    requires ip !in t || es[0].from - t[ip].seen > 120_000_000_000
    ensures var u := TableAfter(t, es); ip in u && u[ip].n == |es| && u[ip].seen == es[|es| - 1].op.seen
    ensures Answer(TableAfter(t, es[..|es| - 1]), es[|es| - 1]) == Penalty(|es|)
    decreases |es|
  {
    hide After, Answer, Penalty;
    var front, last := es[..|es| - 1], es[|es| - 1];
    if front == [] {
      assert TableAfter(t, front) == t;
      NextOfStreak(t, ip, last, 0);
    } else {
      StreakCosts(t, front, ip);
      NextOfStreak(TableAfter(t, front), ip, last, |front|);
    }
  }

  /** From the moment it is imposed a wait runs down to nothing. */
  lemma WaitRunsDown(t: Table, e: Event, now: int)
    requires e.op.Bad? && Answer(t, e) > 0
    ensures Wait(After(t, e), e.op.ip, now) == if now - e.to < Answer(t, e) then Answer(t, e) - (now - e.to) else 0
  {
    hide Backoff;
  }

  /** A success wipes the slate: no wait, and the next failure counts as the first. */
  lemma SuccessForgets(t: Table, e: Event, next: Event, now: int, other: string)
    requires e.op.Good? && next.op.Bad? && next.op.ip == e.op.ip
    ensures Wait(After(t, e), e.op.ip, now) == 0 && After(After(t, e), next)[e.op.ip].n == 1
    ensures other != e.op.ip ==>
              (other in After(t, e) <==> other in t) && Wait(After(t, e), other, now) == Wait(t, other, now)
  {
    hide Backoff;
  }

  /** A sweep drops a record exactly if its last failure is more than two minutes old and its wait is over. */
  lemma SweepDrops(t: Table, c: Clock, ip: string)
    requires ip in t
    ensures ip !in Swept(t, c) <==> c.since(ip) - t[ip].seen > 120_000_000_000 && c.now(ip) - t[ip].until > 0
    ensures ip in Swept(t, c) ==> Swept(t, c)[ip] == t[ip]
  {
  }
}
