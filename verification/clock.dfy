/** A clock under manual control: one-shot waiters, periodic tickers and their one-place channels.
    `State` is what a clock holds, `Apply` is the meaning of each operation, and the class `Fake` is the
    mutable clock itself, every method of which is proved to carry out its operation.
 */
module Clock {
  import opened Text

  /** A pending one-shot delivery on channel ch at time at. */
  datatype Waiter = Waiter(at: int, ch: nat)

  /** A periodic delivery on channel ch, next due at next. */
  datatype Tick = Tick(ch: nat, interval: int, next: int)

  /** Channels are numbered in the order they are made. full holds the channels whose single place is
      taken, and log records every delivery that was not dropped.
   */
  datatype State = State(now: int, waiters: seq<Waiter>, tickers: seq<Tick>, full: set<nat>, nextCh: nat,
                         log: seq<nat>)

  datatype Op =
    | Set(t: int)
    | Advance(d: int)
    | After(d: int)
    | NewTicker(d: int)
    | Stop(ch: nat)
    | Receive(ch: nat)

  // ---------- what one sweep collects ----------

  function Remaining(ws: seq<Waiter>, now: int): seq<Waiter> {
    if |ws| == 0 then []
    else
      var w := ws[|ws| - 1];
      var kept := Remaining(ws[..|ws| - 1], now);
      if w.at > now then kept + [w] else kept
  }

  function DueWaiters(ws: seq<Waiter>, now: int): seq<nat> {
    if |ws| == 0 then []
    else
      var w := ws[|ws| - 1];
      var due := DueWaiters(ws[..|ws| - 1], now);
      if w.at > now then due else due + [w.ch]
  }

  lemma RemainingMore(ws: seq<Waiter>, i: nat, now: int)
    requires i < |ws|
    ensures var w := ws[i];
            && Remaining(ws[..i + 1], now) == Remaining(ws[..i], now) + (if w.at > now then [w] else [])
            && DueWaiters(ws[..i + 1], now) == DueWaiters(ws[..i], now) + (if w.at > now then [] else [w.ch])
  {
    assert ws[..i + 1][..i] == ws[..i];
  }

  /** The times at which a ticker next due at next comes due up to now. */
  function FireTimes(next: int, interval: int, now: int): seq<int>
    decreases if interval <= 0 then 0 else now - next
  {
    if interval <= 0 || next > now then [] else [next] + FireTimes(next + interval, interval, now)
  }

  function CaughtUp(t: Tick, now: int): Tick
    decreases if t.interval <= 0 then 0 else now - t.next
  {
    if t.interval <= 0 || t.next > now then t else CaughtUp(t.(next := t.next + t.interval), now)
  }

  function Repeat(ch: nat, n: nat): (s: seq<nat>)
    ensures |s| == n && forall i | 0 <= i < n :: s[i] == ch
  {
    seq(n, _ => ch)
  }

  function Entries(t: Tick, now: int): seq<nat> {
    Repeat(t.ch, |FireTimes(t.next, t.interval, now)|)
  }

  function DueTicks(ts: seq<Tick>, now: int): seq<nat> {
    if |ts| == 0 then [] else DueTicks(ts[..|ts| - 1], now) + Entries(ts[|ts| - 1], now)
  }

  lemma DueTicksMore(ts: seq<Tick>, j: nat, now: int, before: seq<nat>)
    requires j < |ts|
    ensures before + DueTicks(ts[..j + 1], now) == (before + DueTicks(ts[..j], now)) + Entries(ts[j], now)
  {
    assert ts[..j + 1][..j] == ts[..j];
  }

  function AllCaughtUp(ts: seq<Tick>, now: int): seq<Tick> {
    seq(|ts|, i requires 0 <= i < |ts| => CaughtUp(ts[i], now))
  }

  function Due(s: State, t: int): seq<nat> {
    DueWaiters(s.waiters, t) + DueTicks(s.tickers, t)
  }

  /** One non-blocking send on each channel in turn: a channel that is already full drops it. */
  function Fired(s: State, chans: seq<nat>): State {
    if |chans| == 0 then s
    else
      var r := Fired(s, chans[..|chans| - 1]);
      var ch := chans[|chans| - 1];
      if ch in r.full then r else r.(full := r.full + {ch}, log := r.log + [ch])
  }

  function Collected(s: State, t: int): State {
    s.(now := t, waiters := Remaining(s.waiters, t), tickers := AllCaughtUp(s.tickers, t))
  }

  function Moved(s: State, t: int): State {
    Fired(Collected(s, t), Due(s, t))
  }

  // ---------- the operations ----------

  function IndexOf(ts: seq<Tick>, ch: nat): (i: nat)
    ensures i <= |ts|
    ensures i < |ts| ==> ts[i].ch == ch
    ensures forall j | 0 <= j < i :: ts[j].ch != ch
  {
    if |ts| == 0 || ts[0].ch == ch then 0 else 1 + IndexOf(ts[1..], ch)
  }

  /** Moves the last element into place i and drops the last place. */
  function SwapRemoved<T>(ts: seq<T>, i: nat): (r: seq<T>)
    requires i < |ts|
    ensures |r| == |ts| - 1
    ensures forall j | 0 <= j < |r| && j != i :: r[j] == ts[j]
    ensures i < |r| ==> r[i] == ts[|ts| - 1]
  {
    ts[i := ts[|ts| - 1]][..|ts| - 1]
  }

  function Stopped(ts: seq<Tick>, ch: nat): seq<Tick> {
    var i := IndexOf(ts, ch);
    if i == |ts| then ts else SwapRemoved(ts, i)
  }

  function Apply(s: State, op: Op): State {
    match op
    case Set(t) => Moved(s, t)
    case Advance(d) => Moved(s, s.now + d)
    case After(d) =>
      var made := s.(nextCh := s.nextCh + 1);
      if d <= 0 then made.(full := s.full + {s.nextCh}, log := s.log + [s.nextCh])
      else made.(waiters := s.waiters + [Waiter(s.now + d, s.nextCh)])
    case NewTicker(d) => s.(nextCh := s.nextCh + 1, tickers := s.tickers + [Tick(s.nextCh, d, s.now + d)])
    case Stop(ch) => s.(tickers := Stopped(s.tickers, ch))
    case Receive(ch) => s.(full := s.full - {ch})
  }

  function Run(s: State, ops: seq<Op>): State {
    if |ops| == 0 then s else Apply(Run(s, ops[..|ops| - 1]), ops[|ops| - 1])
  }

  // ---------- the invariant ----------

  /** Nothing pending is overdue, every channel belongs to one waiter or one ticker, and the channel of
      a pending waiter has never been sent to.
   */
  ghost predicate Inv(s: State) {
    && WaitersWell(s.waiters, s.now, s.nextCh)
    && TickersWell(s.tickers, s.now, s.nextCh)
    && Apart(s.waiters, s.tickers)
    && Unsent(s.waiters, s.full, s.log)
    && Made(s.full, s.log, s.nextCh)
  }

  ghost predicate WaitersWell(ws: seq<Waiter>, now: int, nextCh: nat) {
    && (forall w | w in ws :: w.at > now && w.ch < nextCh)
    && (forall i, j | 0 <= i < j < |ws| :: ws[i].ch != ws[j].ch)
  }

  ghost predicate TickersWell(ts: seq<Tick>, now: int, nextCh: nat) {
    && (forall t | t in ts :: t.ch < nextCh && (t.interval > 0 ==> t.next > now))
    && (forall i, j | 0 <= i < j < |ts| :: ts[i].ch != ts[j].ch)
  }

  ghost predicate Apart(ws: seq<Waiter>, ts: seq<Tick>) {
    forall w, t | w in ws && t in ts :: w.ch != t.ch
  }

  ghost predicate Unsent(ws: seq<Waiter>, full: set<nat>, log: seq<nat>) {
    forall w | w in ws :: w.ch !in full && w.ch !in log
  }

  ghost predicate Made(full: set<nat>, log: seq<nat>, nextCh: nat) {
    && (forall ch | ch in full :: ch < nextCh)
    && (forall ch | ch in log :: ch < nextCh)
  }

  lemma {:induction false} RemainingIn(ws: seq<Waiter>, now: int)
    ensures forall w :: w in Remaining(ws, now) <==> w in ws && w.at > now
    ensures forall ch :: ch in DueWaiters(ws, now) <==> exists w :: w in ws && w.at <= now && w.ch == ch
  {
    if |ws| > 0 {
      var front, last := ws[..|ws| - 1], ws[|ws| - 1];
      RemainingIn(front, now);
      assert forall w :: w in ws <==> w in front || w == last;
    }
  }

  lemma SameWaiter(ws: seq<Waiter>, was: int, nextCh: nat)
    requires WaitersWell(ws, was, nextCh)
    ensures forall w, x | w in ws && x in ws && w.ch == x.ch :: w == x
  {
    forall w, x | w in ws && x in ws && w.ch == x.ch
      ensures w == x
    {
      var i :| 0 <= i < |ws| && ws[i] == w;
      var j :| 0 <= j < |ws| && ws[j] == x;
    }
  }

  lemma {:induction false} RemainingDistinct(ws: seq<Waiter>, was: int, nextCh: nat, now: int)
    requires WaitersWell(ws, was, nextCh)
    ensures WaitersWell(Remaining(ws, now), now, nextCh)
  {
    if |ws| > 0 {
      var front, last := ws[..|ws| - 1], ws[|ws| - 1];
      RemainingDistinct(front, was, nextCh, now);
      RemainingIn(front, now);
      forall w | w in Remaining(front, now)
        ensures w.ch != last.ch
      {
        var i :| 0 <= i < |front| && front[i] == w;
        assert ws[i] == w;
      }
    }
  }

  lemma RemainingWell(ws: seq<Waiter>, was: int, nextCh: nat, now: int)
    requires WaitersWell(ws, was, nextCh)
    ensures WaitersWell(Remaining(ws, now), now, nextCh)
    ensures forall w | w in ws && w.at > now :: w.ch !in DueWaiters(ws, now)
    ensures forall ch | ch in DueWaiters(ws, now) :: ch < nextCh
  {
    RemainingDistinct(ws, was, nextCh, now);
    RemainingIn(ws, now);
    SameWaiter(ws, was, nextCh);
  }

  lemma {:induction false} CaughtUpShape(t: Tick, now: int)
    ensures var u := CaughtUp(t, now); u.ch == t.ch && u.interval == t.interval && u.next >= t.next
    ensures t.interval > 0 ==> CaughtUp(t, now).next > now
    ensures t.interval <= 0 ==> CaughtUp(t, now) == t
    decreases if t.interval <= 0 then 0 else now - t.next
  {
    if t.interval > 0 && t.next <= now {
      CaughtUpShape(t.(next := t.next + t.interval), now);
    }
  }

  lemma {:induction false} DueTicksIn(ts: seq<Tick>, now: int)
    ensures forall ch | ch in DueTicks(ts, now) :: exists t :: t in ts && t.ch == ch
  {
    if |ts| > 0 {
      var front, last := ts[..|ts| - 1], ts[|ts| - 1];
      DueTicksIn(front, now);
      assert forall t :: t in ts <==> t in front || t == last;
      forall ch | ch in DueTicks(ts, now)
        ensures exists t :: t in ts && t.ch == ch
      {
        if ch !in DueTicks(front, now) {
          assert ch in Entries(last, now);
        }
      }
    }
  }

  lemma CaughtUpWell(ts: seq<Tick>, was: int, nextCh: nat, now: int)
    requires TickersWell(ts, was, nextCh)
    ensures TickersWell(AllCaughtUp(ts, now), now, nextCh)
    ensures forall u | u in AllCaughtUp(ts, now) :: exists t :: t in ts && t.ch == u.ch
  {
    forall i | 0 <= i < |ts|
      ensures var u := AllCaughtUp(ts, now)[i]; u.ch == ts[i].ch && (u.interval > 0 ==> u.next > now)
    {
      CaughtUpShape(ts[i], now);
    }
  }

  /** Firing only touches the fired channels, and leaves each of them full. */
  lemma {:induction false} FiredShape(s: State, chans: seq<nat>)
    ensures var r := Fired(s, chans);
            r == s.(full := r.full, log := r.log)
    ensures Fired(s, chans).full == s.full + set ch | ch in chans
    ensures forall ch :: ch in Fired(s, chans).log <==> ch in s.log || (ch in chans && ch !in s.full)
  {
    if |chans| > 0 {
      FiredShape(s, chans[..|chans| - 1]);
      assert chans == chans[..|chans| - 1] + [chans[|chans| - 1]];
    }
  }

  /** A channel is delivered to once if it had room and was fired at all, and otherwise not at all. */
  lemma {:induction false} FiredCount(s: State, chans: seq<nat>, ch: nat)
    ensures multiset(Fired(s, chans).log)[ch]
         == multiset(s.log)[ch] + if ch in chans && ch !in s.full then 1 else 0
  {
    if |chans| > 0 {
      var front, last := chans[..|chans| - 1], chans[|chans| - 1];
      FiredShape(s, front);
      FiredCount(s, front, ch);
      assert ch in chans <==> ch in front || ch == last;
    }
  }

  lemma MovedInv(s: State, t: int)
    requires Inv(s)
    ensures Inv(Moved(s, t))
  {
    RemainingIn(s.waiters, t);
    RemainingWell(s.waiters, s.now, s.nextCh, t);
    DueTicksIn(s.tickers, t);
    CaughtUpWell(s.tickers, s.now, s.nextCh, t);
    FiredShape(Collected(s, t), Due(s, t));
    assert forall w | w in Remaining(s.waiters, t) :: w.ch !in Due(s, t);
    assert forall ch | ch in Due(s, t) :: ch < s.nextCh;
  }

  lemma StoppedWell(ts: seq<Tick>, now: int, nextCh: nat, ch: nat)
    requires TickersWell(ts, now, nextCh)
    ensures TickersWell(Stopped(ts, ch), now, nextCh)
    ensures forall t :: t in Stopped(ts, ch) <==> t in ts && t.ch != ch
  {
    var i, n := IndexOf(ts, ch), |ts|;
    if i < n {
      var r := SwapRemoved(ts, i);
      forall t | t in ts && t.ch != ch
        ensures t in r
      {
        var j :| 0 <= j < n && ts[j] == t;
        assert r[if j == n - 1 then i else j] == t;
      }
    }
  }

  lemma AfterInv(s: State, d: int)
    requires Inv(s)
    ensures Inv(Apply(s, After(d)))
  {
  }

  lemma NewTickerInv(s: State, d: int)
    requires Inv(s)
    ensures Inv(Apply(s, NewTicker(d)))
  {
  }

  lemma StopInv(s: State, ch: nat)
    requires Inv(s)
    ensures Inv(Apply(s, Stop(ch)))
  {
    StoppedWell(s.tickers, s.now, s.nextCh, ch);
  }

  /** Every operation, backwards moves included, keeps the invariant. */
  lemma ApplyInv(s: State, op: Op)
    requires Inv(s)
    ensures Inv(Apply(s, op))
  {
    match op
    case Set(t) => MovedInv(s, t);
    case Advance(d) =>
      MovedInv(s, s.now + d);
      AdvanceTo(s, d, s.now + d);
    case After(d) => AfterInv(s, d);
    case NewTicker(d) => NewTickerInv(s, d);
    case Stop(ch) => StopInv(s, ch);
    case Receive(ch) =>
  }

  lemma {:induction false} RunInv(s: State, ops: seq<Op>)
    requires Inv(s)
    ensures Inv(Run(s, ops))
  {
    if |ops| > 0 {
      RunInv(s, ops[..|ops| - 1]);
      ApplyInv(Run(s, ops[..|ops| - 1]), ops[|ops| - 1]);
    }
  }

  // ---------- two advances are one ----------

  lemma {:induction false} RemainingTwice(ws: seq<Waiter>, t1: int, t2: int)
    requires t1 <= t2
    ensures Remaining(Remaining(ws, t1), t2) == Remaining(ws, t2)
    ensures multiset(DueWaiters(ws, t1)) + multiset(DueWaiters(Remaining(ws, t1), t2)) == multiset(DueWaiters(ws, t2))
  {
    if |ws| > 0 {
      var front, last := ws[..|ws| - 1], ws[|ws| - 1];
      RemainingTwice(front, t1, t2);
      if last.at > t1 {
        assert Remaining(ws, t1)[..|Remaining(front, t1)|] == Remaining(front, t1);
      }
    }
  }

  lemma {:induction false} FireTwice(t: Tick, t1: int, t2: int)
    requires t1 <= t2
    ensures CaughtUp(CaughtUp(t, t1), t2) == CaughtUp(t, t2)
    ensures FireTimes(t.next, t.interval, t1) + FireTimes(CaughtUp(t, t1).next, t.interval, t2)
         == FireTimes(t.next, t.interval, t2)
    decreases if t.interval <= 0 then 0 else t1 - t.next
  {
    if t.interval > 0 && t.next <= t1 {
      FireTwice(t.(next := t.next + t.interval), t1, t2);
    }
  }

  lemma {:induction false} TicksTwice(ts: seq<Tick>, t1: int, t2: int)
    requires t1 <= t2
    ensures AllCaughtUp(AllCaughtUp(ts, t1), t2) == AllCaughtUp(ts, t2)
  {
    forall i | 0 <= i < |ts|
      ensures CaughtUp(CaughtUp(ts[i], t1), t2) == CaughtUp(ts[i], t2)
    {
      FireTwice(ts[i], t1, t2);
    }
  }

  lemma {:induction false} DueTicksTwice(ts: seq<Tick>, t1: int, t2: int)
    requires t1 <= t2
    ensures multiset(DueTicks(ts, t1)) + multiset(DueTicks(AllCaughtUp(ts, t1), t2)) == multiset(DueTicks(ts, t2))
  {
    if |ts| > 0 {
      var front, last := ts[..|ts| - 1], ts[|ts| - 1];
      DueTicksTwice(front, t1, t2);
      EntriesTwice(last, t1, t2);
      assert AllCaughtUp(ts, t1)[..|ts| - 1] == AllCaughtUp(front, t1);
      assert AllCaughtUp(ts, t1)[|ts| - 1] == CaughtUp(last, t1);
    }
  }

  lemma EntriesTwice(t: Tick, t1: int, t2: int)
    requires t1 <= t2
    ensures multiset(Entries(t, t1)) + multiset(Entries(CaughtUp(t, t1), t2)) == multiset(Entries(t, t2))
  {
    FireTwice(t, t1, t2);
    CaughtUpShape(t, t1);
    assert Entries(t, t1) + Entries(CaughtUp(t, t1), t2) == Entries(t, t2);
  }

  /** The same clock apart from the order in which the deliveries were logged. */
  ghost predicate Alike(s: State, r: State) {
    && s.now == r.now && s.waiters == r.waiters && s.tickers == r.tickers
    && s.full == r.full && s.nextCh == r.nextCh
    && multiset(s.log) == multiset(r.log)
  }

  /** Advancing by a and then by b leaves the clock as advancing by a + b does, and delivers to the same
      channels.
   */
  lemma AdvanceComposes(s: State, a: int, b: nat)
    ensures Alike(Apply(Apply(s, Advance(a)), Advance(b)), Apply(s, Advance(a + b)))
  {
    var t1, t2 := s.now + a, s.now + a + b;
    MovesState(s, t1, t2);
    MovesLog(s, t1, t2);
    AdvanceTwice(s, a, b, t1, t2);
  }

  lemma AdvanceTwice(s: State, a: int, b: int, t1: int, t2: int)
    requires t1 == s.now + a && t2 == t1 + b
    ensures Apply(Apply(s, Advance(a)), Advance(b)) == Moved(Moved(s, t1), t2)
    ensures Apply(s, Advance(a + b)) == Moved(s, t2)
  {
    AdvanceTo(s, a, t1);
    AdvanceTo(Moved(s, t1), b, t2);
  }

  lemma AdvanceIs(s: State, d: int, t: int)
    requires t == s.now + d
    ensures Apply(s, Advance(d)) == Moved(s, t)
  {
  }

  lemma AdvanceTo(s: State, d: int, t: int)
    requires t == s.now + d
    ensures Apply(s, Advance(d)) == Moved(s, t) && Moved(s, t).now == t
  {
    FiredShape(Collected(s, t), Due(s, t));
  }

  lemma MovesState(s: State, t1: int, t2: int)
    requires t1 <= t2
    ensures Moved(s, t1).now == t1
    ensures var s2, s3 := Moved(Moved(s, t1), t2), Moved(s, t2);
            && s2.now == s3.now && s2.waiters == s3.waiters && s2.tickers == s3.tickers
            && s2.full == s3.full && s2.nextCh == s3.nextCh
  {
    var s1 := Moved(s, t1);
    FiredShape(Collected(s, t1), Due(s, t1));
    FiredShape(Collected(s1, t2), Due(s1, t2));
    FiredShape(Collected(s, t2), Due(s, t2));
    RemainingTwice(s.waiters, t1, t2);
    TicksTwice(s.tickers, t1, t2);
    DueTwice(s, t1, t2);
    SameMembers(Due(s, t1), Due(s1, t2), Due(s, t2));
    assert Moved(s1, t2).full == Moved(s, t2).full;
  }

  lemma MovesLog(s: State, t1: int, t2: int)
    requires t1 <= t2
    ensures multiset(Moved(Moved(s, t1), t2).log) == multiset(Moved(s, t2).log)
  {
    var s1 := Moved(s, t1);
    DueTwice(s, t1, t2);
    SameMembers(Due(s, t1), Due(s1, t2), Due(s, t2));
    FiredShape(Collected(s, t1), Due(s, t1));
    forall ch: nat
      ensures multiset(Moved(s1, t2).log)[ch] == multiset(Moved(s, t2).log)[ch]
    {
      FiredCount(Collected(s, t1), Due(s, t1), ch);
      FiredCount(Collected(s1, t2), Due(s1, t2), ch);
      FiredCount(Collected(s, t2), Due(s, t2), ch);
    }
  }

  /** Moving to t1 and then to t2 collects each channel as often as moving straight to t2 does. */
  lemma DueTwice(s: State, t1: int, t2: int)
    requires t1 <= t2
    ensures multiset(Due(s, t1)) + multiset(Due(Moved(s, t1), t2)) == multiset(Due(s, t2))
  {
    FiredShape(Collected(s, t1), Due(s, t1));
    RemainingTwice(s.waiters, t1, t2);
    DueTicksTwice(s.tickers, t1, t2);
  }

  lemma SameMembers(a: seq<nat>, b: seq<nat>, c: seq<nat>)
    requires multiset(a) + multiset(b) == multiset(c)
    ensures forall ch :: ch in c <==> ch in a || ch in b
  {
    forall ch
      ensures ch in c <==> ch in a || ch in b
    {
      assert ch in c <==> ch in multiset(c);
      assert ch in a <==> ch in multiset(a);
      assert ch in b <==> ch in multiset(b);
    }
  }

  // ---------- a waiter fires exactly once ----------

  /** The latest time the clock has shown during a run. */
  function Highest(s: State, ops: seq<Op>): int {
    if |ops| == 0 then s.now
    else
      var before, now := Highest(s, ops[..|ops| - 1]), Run(s, ops).now;
      if before < now then now else before
  }

  ghost predicate Spent(s: State, ch: nat) {
    && ch < s.nextCh
    && (forall w | w in s.waiters :: w.ch != ch)
    && (forall t | t in s.tickers :: t.ch != ch)
    && multiset(s.log)[ch] == 1
  }

  lemma MovedPast(s: State, t: int, w: Waiter)
    requires Inv(s) && w in s.waiters
    ensures Moved(s, t).now == t
    ensures t < w.at ==> w in Moved(s, t).waiters
    ensures t >= w.at ==> Spent(Moved(s, t), w.ch)
  {
    FiredShape(Collected(s, t), Due(s, t));
    FiredCount(Collected(s, t), Due(s, t), w.ch);
    RemainingIn(s.waiters, t);
    CaughtUpWell(s.tickers, s.now, s.nextCh, t);
    if t >= w.at {
      assert w.ch in DueWaiters(s.waiters, t);
      forall x | x in Remaining(s.waiters, t)
        ensures x.ch != w.ch
      {
        var i :| 0 <= i < |s.waiters| && s.waiters[i] == w;
        var j :| 0 <= j < |s.waiters| && s.waiters[j] == x;
      }
    }
  }

  lemma SpentStays(s: State, op: Op, ch: nat)
    requires Inv(s) && Spent(s, ch)
    ensures Spent(Apply(s, op), ch)
  {
    match op
    case Set(t) => SpentMoved(s, t, ch);
    case Advance(d) => SpentMoved(s, s.now + d, ch);
    case After(d) => SpentAfter(s, d, ch);
    case NewTicker(d) => SpentNewTicker(s, d, ch);
    case Stop(c) => SpentStop(s, c, ch);
    case Receive(c) =>
  }

  lemma SpentAfter(s: State, d: int, ch: nat)
    requires Spent(s, ch)
    ensures Spent(Apply(s, After(d)), ch)
  {
  }

  lemma SpentNewTicker(s: State, d: int, ch: nat)
    requires Spent(s, ch)
    ensures Spent(Apply(s, NewTicker(d)), ch)
  {
  }

  lemma SpentStop(s: State, c: nat, ch: nat)
    requires Inv(s) && Spent(s, ch)
    ensures Spent(Apply(s, Stop(c)), ch)
  {
    StoppedWell(s.tickers, s.now, s.nextCh, c);
  }

  lemma SpentMoved(s: State, t: int, ch: nat)
    requires Inv(s) && Spent(s, ch)
    ensures Spent(Moved(s, t), ch)
  {
    FiredShape(Collected(s, t), Due(s, t));
    FiredCount(Collected(s, t), Due(s, t), ch);
    RemainingIn(s.waiters, t);
    DueTicksIn(s.tickers, t);
    CaughtUpWell(s.tickers, s.now, s.nextCh, t);
  }

  /** Whatever is done after After(d), its channel receives exactly one value from the first move that
      reaches its time, that value is never dropped, and until then it receives none.
   */
  lemma {:induction false} AfterFiresOnce(s: State, d: int, ops: seq<Op>)
    requires Inv(s) && d > 0
    ensures var s1 := Apply(s, After(d));
            && multiset(Run(s1, ops).log)[s.nextCh] == (if Highest(s1, ops) >= s.now + d then 1 else 0)
            && (Waiter(s.now + d, s.nextCh) in Run(s1, ops).waiters <==> Highest(s1, ops) < s.now + d)
  {
    AfterFollowed(s, d, ops);
    ApplyInv(s, After(d));
    RunInv(Apply(s, After(d)), ops);
  }

  /** After(d) with nothing to wait for delivers at once, and never again whatever is done next. */
  lemma {:induction false} AfterNowFires(s: State, d: int, ops: seq<Op>)
    requires Inv(s) && d <= 0
    ensures s.nextCh in Apply(s, After(d)).full
    ensures Spent(Run(Apply(s, After(d)), ops), s.nextCh)
  {
    ApplyInv(s, After(d));
    if |ops| == 0 {
      assert s.nextCh !in s.log && s.nextCh !in multiset(s.log);
    } else {
      var front := ops[..|ops| - 1];
      AfterNowFires(s, d, front);
      RunInv(Apply(s, After(d)), front);
      SpentStays(Run(Apply(s, After(d)), front), ops[|ops| - 1], s.nextCh);
    }
  }

  lemma {:induction false} AfterFollowed(s: State, d: int, ops: seq<Op>)
    requires Inv(s) && d > 0
    ensures var s1, w := Apply(s, After(d)), Waiter(s.now + d, s.nextCh);
            if Highest(s1, ops) < w.at then w in Run(s1, ops).waiters else Spent(Run(s1, ops), w.ch)
  {
    var s1, w := Apply(s, After(d)), Waiter(s.now + d, s.nextCh);
    if |ops| > 0 {
      var front, op := ops[..|ops| - 1], ops[|ops| - 1];
      AfterFollowed(s, d, front);
      ApplyInv(s, After(d));
      RunInv(s1, front);
      var r := Run(s1, front);
      if Highest(s1, front) >= w.at {
        SpentStays(r, op, w.ch);
      } else {
        HighestNow(s1, front);
        PendingStep(r, op, w);
      }
    }
  }

  lemma PendingStep(s: State, op: Op, w: Waiter)
    requires Inv(s) && w in s.waiters
    ensures if Apply(s, op).now < w.at then w in Apply(s, op).waiters else Spent(Apply(s, op), w.ch)
  {
    match op
    case Set(t) => MovedPast(s, t, w);
    case Advance(d) => MovedPast(s, s.now + d, w);
    case After(d) =>
    case NewTicker(d) =>
    case Stop(c) =>
    case Receive(c) =>
  }

  lemma HighestNow(s: State, ops: seq<Op>)
    ensures Highest(s, ops) >= Run(s, ops).now
  {
  }

  // ---------- a ticker keeps to its grid ----------

  function Point(start: int, interval: int, k: int): int {
    start + k * interval
  }

  ghost predicate OnGrid(start: int, interval: int, g: int) {
    exists k :: g == Point(start, interval, k)
  }

  lemma GridStep(start: int, interval: int, g: int)
    requires OnGrid(start, interval, g)
    ensures OnGrid(start, interval, g + interval)
  {
    var k :| g == Point(start, interval, k);
    assert g + interval == Point(start, interval, k + 1);
  }

  /** Two points of one grid that are less than an interval apart upwards are in order. */
  lemma GridGap(start: int, interval: int, g: int, h: int)
    requires interval > 0 && OnGrid(start, interval, g) && OnGrid(start, interval, h)
    requires g - interval < h
    ensures g <= h
  {
    var j :| g == Point(start, interval, j);
    var k :| h == Point(start, interval, k);
    assert (j - k) * interval == g - h;
    if j - k >= 1 {
      AtLeast(j - k, interval);
    } else {
      AtLeast(k - j + 1, interval);
    }
  }

  lemma AtLeast(m: int, d: int)
    requires m >= 1 && d > 0
    ensures m * d >= d
    ensures (m - 1) * d >= 0 && (1 - m) * d <= 0
  {
  }

  /** The state of one ticker among others: its next time is the least point of its grid past high. */
  ghost predicate Gridded(t: Tick, start: int, d: int, high: int) {
    && t.interval == d
    && OnGrid(start, d, t.next)
    && t.next - d <= high < t.next
  }

  ghost predicate AllGridded(ts: seq<Tick>, ch: nat, start: int, d: int, high: int) {
    forall t | t in ts && t.ch == ch :: Gridded(t, start, d, high)
  }

  lemma {:induction false} CaughtUpGrid(t: Tick, start: int, d: int, high: int, now: int)
    requires d > 0 && Gridded(t, start, d, high)
    ensures Gridded(CaughtUp(t, now), start, d, if high < now then now else high)
    decreases now - t.next
  {
    if t.next <= now {
      GridStep(start, d, t.next);
      CaughtUpGrid(t.(next := t.next + d), start, d, t.next, now);
    }
  }

  /** However the clock is moved, the next time of a live ticker is the least point of the grid
      start + k * d past every time the clock has shown since the ticker was made.
   */
  lemma {:induction false} TickerGrid(s: State, d: int, ops: seq<Op>)
    requires Inv(s) && d > 0
    ensures var s1 := Apply(s, NewTicker(d));
            && s.nextCh < Run(s1, ops).nextCh
            && AllGridded(Run(s1, ops).tickers, s.nextCh, s.now, d, Highest(s1, ops))
  {
    var s1 := Apply(s, NewTicker(d));
    if |ops| == 0 {
      assert Point(s.now, d, 1) == s.now + d;
    } else {
      var front, op := ops[..|ops| - 1], ops[|ops| - 1];
      TickerGrid(s, d, front);
      ApplyInv(s, NewTicker(d));
      RunInv(s1, front);
      var r := Run(s1, front);
      HighestNow(s1, front);
      GridKept(r, op, s.nextCh, s.now, d, Highest(s1, front));
    }
  }

  /** The tickers of this channel keep to the grid through one more operation. */
  lemma GridKept(s: State, op: Op, ch: nat, start: int, d: int, high: int)
    requires Inv(s) && d > 0 && ch < s.nextCh && s.now <= high
    requires AllGridded(s.tickers, ch, start, d, high)
    ensures var r := Apply(s, op);
            ch < r.nextCh && AllGridded(r.tickers, ch, start, d, if high < r.now then r.now else high)
  {
    match op
    case Set(t) => GridMoved(s, ch, start, d, high, t);
    case Advance(e) => GridMoved(s, ch, start, d, high, s.now + e);
    case After(e) =>
    case NewTicker(e) =>
    case Stop(c) => StoppedWell(s.tickers, s.now, s.nextCh, c);
    case Receive(c) =>
  }

  lemma GridMoved(s: State, ch: nat, start: int, d: int, high: int, now: int)
    requires d > 0
    requires AllGridded(s.tickers, ch, start, d, high)
    ensures Moved(s, now).now == now && Moved(s, now).nextCh == s.nextCh
    ensures AllGridded(Moved(s, now).tickers, ch, start, d, if high < now then now else high)
  {
    FiredShape(Collected(s, now), Due(s, now));
    forall i | 0 <= i < |s.tickers| && CaughtUp(s.tickers[i], now).ch == ch
      ensures Gridded(CaughtUp(s.tickers[i], now), start, d, if high < now then now else high)
    {
      CaughtUpShape(s.tickers[i], now);
      assert s.tickers[i] in s.tickers;
      CaughtUpGrid(s.tickers[i], start, d, high, now);
    }
  }

  lemma {:induction false} FireTimesAre(start: int, d: int, next: int, now: int)
    requires d > 0 && OnGrid(start, d, next)
    ensures forall g :: g in FireTimes(next, d, now) <==> OnGrid(start, d, g) && next <= g <= now
    ensures Increasing(FireTimes(next, d, now))
    decreases now - next
  {
    if next <= now {
      GridStep(start, d, next);
      FireTimesAre(start, d, next + d, now);
      forall g | OnGrid(start, d, g) && next < g
        ensures next + d <= g
      {
        GridGap(start, d, next + d, g);
      }
      var rest := FireTimes(next + d, d, now);
      forall i | 0 <= i < |rest|
        ensures next < rest[i]
      {
        assert rest[i] in rest;
        assert OnGrid(start, d, rest[i]) && next + d <= rest[i] <= now;
      }
      assert FireTimes(next, d, now) == [next] + rest;
    }
  }

  lemma {:induction false} RepeatCount(ch: nat, n: nat)
    ensures multiset(Repeat(ch, n))[ch] == n
  {
    if n > 0 {
      RepeatCount(ch, n - 1);
      assert Repeat(ch, n) == Repeat(ch, n - 1) + [ch];
    }
  }

  lemma {:induction false} DueTicksCount(ts: seq<Tick>, now: int, t: Tick)
    requires t in ts
    requires forall i, j | 0 <= i < j < |ts| :: ts[i].ch != ts[j].ch
    ensures multiset(DueTicks(ts, now))[t.ch] == |FireTimes(t.next, t.interval, now)|
  {
    var front, last := ts[..|ts| - 1], ts[|ts| - 1];
    DueTicksIn(front, now);
    if t == last {
      RepeatCount(t.ch, |FireTimes(t.next, t.interval, now)|);
      forall x | x in front
        ensures x.ch != t.ch
      {
        var i :| 0 <= i < |front| && front[i] == x;
        assert ts[i] == x;
      }
      assert t.ch !in DueTicks(front, now);
    } else {
      DueTicksCount(front, now, t);
      var i :| 0 <= i < |ts| && ts[i] == t;
      assert t.ch !in Entries(last, now);
    }
  }

  /** A move to now collects a live ticker exactly once for each point of its grid that lies past every
      time shown so far and at or before now.
   */
  lemma TickerEntries(s: State, d: int, ops: seq<Op>, t: Tick, now: int) returns (points: seq<int>)
    requires Inv(s) && d > 0
    requires t in Run(Apply(s, NewTicker(d)), ops).tickers && t.ch == s.nextCh
    ensures var s1 := Apply(s, NewTicker(d));
            && multiset(Due(Run(s1, ops), now))[t.ch] == |points|
            && Increasing(points)
            && (forall g :: g in points <==> OnGrid(s.now, d, g) && Highest(s1, ops) < g <= now)
  {
    var s1 := Apply(s, NewTicker(d));
    var r := Run(s1, ops);
    points := FireTimes(t.next, t.interval, now);
    ApplyInv(s, NewTicker(d));
    RunInv(s1, ops);
    TickerGrid(s, d, ops);
    FireTimesAre(s.now, d, t.next, now);
    forall g | OnGrid(s.now, d, g) && Highest(s1, ops) < g
      ensures t.next <= g
    {
      GridGap(s.now, d, t.next, g);
    }
    DueTicksCount(r.tickers, now, t);
    RemainingIn(r.waiters, now);
    assert t.ch !in DueWaiters(r.waiters, now);
  }

  // ---------- what single operations do ----------

  /** Set shows the time it is given, Advance the one before and so much more, and nothing else moves it. */
  lemma ShownTime(s: State, op: Op)
    ensures op.Set? ==> Apply(s, op).now == op.t
    ensures op.Advance? ==> Apply(s, op).now == s.now + op.d
    ensures !op.Set? && !op.Advance? ==> Apply(s, op).now == s.now
  {
    match op
    case Set(t) => FiredShape(Collected(s, t), Due(s, t));
    case Advance(d) => AdvanceTo(s, d, s.now + d);
    case _ =>
  }

  /** After any operations, Set(t) shows t, also when that is earlier, and Advance(d) so much more than before. */
  lemma RunShows(s: State, ops: seq<Op>, t: int, d: int)
    ensures Run(s, ops + [Set(t)]).now == t
    ensures Run(s, ops + [Advance(d)]).now == Run(s, ops).now + d
  {
    assert (ops + [Set(t)])[..|ops|] == ops && (ops + [Advance(d)])[..|ops|] == ops;
    ShownTime(Run(s, ops), Set(t));
    ShownTime(Run(s, ops), Advance(d));
  }

  /** Set(t) delivers to a pending waiter, once, exactly when its time is at or before t, whether t is ahead of
      the time shown or behind it; and otherwise the waiter stays pending.
   */
  lemma SetDelivers(s: State, w: Waiter, t: int)
    requires Inv(s) && w in s.waiters
    ensures multiset(Apply(s, Set(t)).log)[w.ch] == if w.at <= t then 1 else 0
    ensures w.ch in Apply(s, Set(t)).full <==> w.at <= t
    ensures w in Apply(s, Set(t)).waiters <==> w.at > t
  {
    var c := Collected(s, t);
    FiredShape(c, Due(s, t));
    FiredCount(c, Due(s, t), w.ch);
    RemainingIn(s.waiters, t);
    WaiterDue(s, w, t);
  }

  lemma WaiterDue(s: State, w: Waiter, t: int)
    requires Inv(s) && w in s.waiters
    ensures w.ch in Due(s, t) <==> w.at <= t
    ensures w.ch !in s.full && w.ch !in s.log && multiset(s.log)[w.ch] == 0
  {
    RemainingIn(s.waiters, t);
    SameWaiter(s.waiters, s.now, s.nextCh);
    DueTicksIn(s.tickers, t);
    assert w.ch !in multiset(s.log);
  }

  /** A receive empties the channel's place and does nothing else. */
  lemma ReceiveEmpties(s: State, ch: nat)
    ensures var r := Apply(s, Receive(ch));
            && ch !in r.full && (forall c | c != ch :: c in r.full <==> c in s.full)
            && r == s.(full := r.full)
  {
  }

  /** Sends are made one after another. */
  lemma {:induction false} FiredThen(s: State, a: seq<nat>, b: seq<nat>)
    ensures Fired(s, a + b) == Fired(Fired(s, a), b)
  {
    if |b| > 0 {
      FiredThen(s, a, b[..|b| - 1]);
      assert (a + b)[..|a + b| - 1] == a + b[..|b| - 1];
    } else {
      assert a + b == a;
    }
  }

  lemma FiredOne(s: State, ch: nat)
    ensures Fired(s, [ch]) == if ch in s.full then s else s.(full := s.full + {ch}, log := s.log + [ch])
  {
    assert [ch][..0] == [];
  }

  /** Waiters are kept and collected in the order they were made. */
  lemma {:induction false} WaitersInOrder(a: seq<Waiter>, b: seq<Waiter>, now: int)
    ensures Remaining(a + b, now) == Remaining(a, now) + Remaining(b, now)
    ensures DueWaiters(a + b, now) == DueWaiters(a, now) + DueWaiters(b, now)
  {
    if |b| > 0 {
      WaitersInOrder(a, b[..|b| - 1], now);
      assert (a + b)[..|a + b| - 1] == a + b[..|b| - 1];
    } else {
      assert a + b == a;
    }
  }

  lemma OneWaiter(w: Waiter, now: int)
    ensures Remaining([w], now) == if w.at > now then [w] else []
    ensures DueWaiters([w], now) == if w.at > now then [] else [w.ch]
  {
    assert [w][..0] == [];
  }

  /** So are the tickers' channels. */
  lemma {:induction false} TickersInOrder(a: seq<Tick>, b: seq<Tick>, now: int)
    ensures DueTicks(a + b, now) == DueTicks(a, now) + DueTicks(b, now)
  {
    if |b| > 0 {
      TickersInOrder(a, b[..|b| - 1], now);
      assert (a + b)[..|a + b| - 1] == a + b[..|b| - 1];
    } else {
      assert a + b == a;
    }
  }

  lemma OneTicker(t: Tick, now: int)
    ensures DueTicks([t], now) == Repeat(t.ch, |FireTimes(t.next, t.interval, now)|)
  {
    assert [t][..0] == [];
  }

  /** The channels of waiters come before those of tickers. */
  lemma WaitersFirst(s: State, t: int, i: nat, j: nat, w: Waiter)
    requires Inv(s) && i < j < |Due(s, t)| && w in s.waiters && w.ch == Due(s, t)[j]
    ensures exists x :: x in s.waiters && x.ch == Due(s, t)[i]
  {
    RemainingIn(s.waiters, t);
    DueTicksIn(s.tickers, t);
    var n := |DueWaiters(s.waiters, t)|;
    if j >= n {
      assert DueTicks(s.tickers, t)[j - n] in DueTicks(s.tickers, t);
    }
    assert DueWaiters(s.waiters, t)[i] in DueWaiters(s.waiters, t);
  }
}
