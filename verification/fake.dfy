/** The mutable clock. Each method is proved to carry out its operation of `Clock.Apply`, with the
    waiters filtered into their own backing array and the tickers caught up in place.
 */
module FakeClock {
  import opened Clock

  class FakeTicker {
    const ch: nat
    const interval: int
    var next: int

    constructor (ch: nat, interval: int, next: int)
      ensures this.ch == ch && this.interval == interval && this.next == next
    {
      this.ch, this.interval, this.next := ch, interval, next;
    }

    ghost function View(): Tick
      reads this
    {
      Tick(ch, interval, next)
    }

    /** Steps past now, collecting the channel once a step. */
    method CatchUp(now: int, before: seq<nat>) returns (due: seq<nat>)
      modifies this
      ensures View() == CaughtUp(old(View()), now)
      ensures due == before + Entries(old(View()), now)
    {
      due := before;
      if interval > 0 {
        ghost var n := 0;
        while next <= now
          invariant due == before + Repeat(ch, n)
          invariant n + |FireTimes(next, interval, now)| == |FireTimes(old(next), interval, now)|
          invariant CaughtUp(View(), now) == CaughtUp(old(View()), now)
          decreases now - next
        {
          assert Repeat(ch, n + 1) == Repeat(ch, n) + [ch];
          due := due + [ch];
          next := next + interval;
          n := n + 1;
        }
      }
    }
  }

  ghost function Views(ts: seq<FakeTicker>): (v: seq<Tick>)
    reads ts
    ensures |v| == |ts| && forall i | 0 <= i < |ts| :: v[i] == ts[i].View()
  {
    seq(|ts|, i requires 0 <= i < |ts| reads ts => ts[i].View())
  }

  /** Dropping a ticker by identity drops the one entry that has its channel. */
  lemma StopsAt(ts: seq<FakeTicker>, i: nat)
    requires i < |ts|
    requires forall j, k | 0 <= j < k < |ts| :: Views(ts)[j].ch != Views(ts)[k].ch
    ensures Views(SwapRemoved(ts, i)) == Stopped(Views(ts), ts[i].ch)
    ensures ts[i] !in SwapRemoved(ts, i)
    ensures forall j, k | 0 <= j < k < |ts| - 1 :: SwapRemoved(ts, i)[j] != SwapRemoved(ts, i)[k]
  {
    var v, n := Views(ts), |ts|;
    var k := IndexOf(v, ts[i].ch);
    assert v[i].ch == ts[i].ch;
    assert k == i;
    var r := SwapRemoved(ts, i);
    assert Views(r) == SwapRemoved(v, i);
    forall j, k | 0 <= j < k < n
      ensures ts[j] != ts[k]
    {
      assert v[j].ch != v[k].ch;
    }
  }

  class Fake {
    var now: int
    // The pending waiters are buf[..count].
    var buf: array<Waiter>
    var count: nat
    var tickers: seq<FakeTicker>
    var full: set<nat>
    var nextCh: nat
    ghost var log: seq<nat>

    ghost predicate Shape()
      reads this
    {
      && count <= buf.Length
      && (forall i, j | 0 <= i < j < |tickers| :: tickers[i] != tickers[j])
    }

    ghost function View(): State
      reads this, buf, tickers
      requires Shape()
    {
      State(now, buf[..count], Views(tickers), full, nextCh, log)
    }

    ghost predicate Valid()
      reads this, buf, tickers
    {
      Shape() && Inv(View())
    }

    constructor (t: int)
      ensures Valid() && fresh(buf)
      ensures View() == State(t, [], [], {}, 0, [])
    {
      now := t;
      buf := new Waiter[0];
      count, tickers, full, nextCh, log := 0, [], {}, 0, [];
    }

    /** Keeps the waiters still pending, in order, in the front of the array they came from. */
    method CollectWaiters() returns (due: seq<nat>)
      requires Shape()
      modifies this`count, buf
      ensures Shape() && buf[..count] == Remaining(old(buf[..count]), now)
      ensures due == DueWaiters(old(buf[..count]), now)
    {
      ghost var ws := buf[..count];
      due := [];
      var kept, i := 0, 0;
      while i < count
        invariant 0 <= kept <= i <= count == |ws|
        invariant forall k | i <= k < count :: buf[k] == ws[k]
        invariant buf[..kept] == Remaining(ws[..i], now)
        invariant due == DueWaiters(ws[..i], now)
      {
        var w := buf[i];
        RemainingMore(ws, i, now);
        ghost var front := buf[..kept];
        if w.at <= now {
          due := due + [w.ch];
        } else {
          buf[kept] := w;
          kept := kept + 1;
          assert buf[..kept] == front + [w];
        }
        i := i + 1;
      }
      assert ws[..i] == ws;
      count := kept;
    }

    /** Catches every ticker up in place. */
    method CollectTickers(before: seq<nat>) returns (due: seq<nat>)
      requires Shape()
      modifies tickers
      ensures Views(tickers) == AllCaughtUp(old(Views(tickers)), now)
      ensures due == before + DueTicks(old(Views(tickers)), now)
    {
      ghost var ticks := Views(tickers);
      due := before;
      var j := 0;
      while j < |tickers|
        invariant 0 <= j <= |tickers|
        invariant forall k | 0 <= k < j :: tickers[k].View() == CaughtUp(ticks[k], now)
        invariant forall k | j <= k < |tickers| :: tickers[k].View() == ticks[k]
        invariant due == before + DueTicks(ticks[..j], now)
      {
        DueTicksMore(ticks, j, now, before);
        due := tickers[j].CatchUp(now, due);
        j := j + 1;
      }
      assert ticks[..j] == ticks;
    }

    /** The channels now due, with the waiters and tickers brought up to the present. */
    method CollectDue() returns (due: seq<nat>)
      requires Shape()
      modifies this`count, buf, tickers
      ensures Shape() && View() == Collected(old(View()), now) && due == Due(old(View()), now)
    {
      due := CollectWaiters();
      due := CollectTickers(due);
    }

    /** Sends on each channel without blocking. */
    method Fire(chans: seq<nat>)
      requires Shape()
      modifies this`full, this`log
      ensures Shape() && View() == Fired(old(View()), chans)
    {
      var i := 0;
      while i < |chans|
        invariant 0 <= i <= |chans|
        invariant Shape() && View() == Fired(old(View()), chans[..i])
      {
        assert chans[..i + 1][..i] == chans[..i];
        if chans[i] !in full {
          full := full + {chans[i]};
          log := log + [chans[i]];
        }
        i := i + 1;
      }
      assert chans[..i] == chans;
    }

    /** What Set and Advance share: the time changes, and then everything due is collected and sent to. */
    method MoveTo(t: int)
      requires Valid()
      modifies this, buf, tickers
      ensures Valid() && View() == Moved(old(View()), t) && now == t
      ensures buf == old(buf) && tickers == old(tickers)
    {
      ghost var before := View();
      now := t;
      var due := CollectDue();
      assert due == Due(before, t) && View() == Collected(before, t);
      Fire(due);
      assert View() == Moved(before, t);
      MovedInv(before, t);
    }

    method Set(t: int)
      requires Valid()
      modifies this, buf, tickers
      ensures Valid() && View() == Apply(old(View()), Op.Set(t)) && now == t
      ensures buf == old(buf) && tickers == old(tickers)
    {
      MoveTo(t);
    }

    method Advance(d: int)
      requires Valid()
      modifies this, buf, tickers
      ensures Valid() && View() == Apply(old(View()), Op.Advance(d)) && now == old(now) + d
      ensures buf == old(buf) && tickers == old(tickers)
    {
      AdvanceIs(View(), d, now + d);
      MoveTo(now + d);
    }

    /** Appends to the waiters, in a larger array when the old one is full. */
    method AddWaiter(w: Waiter)
      requires Shape()
      modifies this`buf, this`count, buf
      ensures Shape() && buf[..count] == old(buf[..count]) + [w]
      ensures buf == old(buf) || fresh(buf)
    {
      if count == buf.Length {
        var larger := new Waiter[2 * count + 1];
        forall i | 0 <= i < count {
          larger[i] := buf[i];
        }
        assert larger[..count] == buf[..count];
        buf := larger;
      }
      buf[count] := w;
      count := count + 1;
    }

    method After(d: int) returns (ch: nat)
      requires Valid()
      modifies this, buf
      ensures Valid() && View() == Apply(old(View()), Op.After(d)) && ch == old(nextCh)
      ensures (buf == old(buf) || fresh(buf)) && tickers == old(tickers)
    {
      ghost var before := View();
      ch := nextCh;
      nextCh := nextCh + 1;
      if d <= 0 {
        full := full + {ch};
        log := log + [ch];
      } else {
        AddWaiter(Waiter(now + d, ch));
      }
      assert View() == Apply(before, Op.After(d));
      AfterInv(before, d);
    }

    method NewTicker(d: int) returns (t: FakeTicker)
      requires Valid()
      modifies this
      ensures Valid() && View() == Apply(old(View()), Op.NewTicker(d)) && t.ch == old(nextCh)
      ensures fresh(t) && buf == old(buf) && tickers == old(tickers) + [t]
    {
      ghost var before := View();
      t := new FakeTicker(nextCh, d, now + d);
      nextCh := nextCh + 1;
      tickers := tickers + [t];
      assert View() == Apply(before, Op.NewTicker(d));
      NewTickerInv(before, d);
    }

    /** Moves the last ticker into place i and drops the last place. */
    method RemoveAt(i: nat)
      requires Valid() && i < |tickers|
      modifies this`tickers
      ensures Valid() && View() == Apply(old(View()), Stop(old(tickers[i]).ch))
      ensures old(tickers[i]) !in tickers
    {
      ghost var before, ch := View(), tickers[i].ch;
      StopsAt(tickers, i);
      tickers := SwapRemoved(tickers, i);
      assert View() == Apply(before, Stop(ch));
      StopInv(before, ch);
    }

    /** Stop on a ticker this clock no longer drives changes nothing. */
    method DropTicker(t: FakeTicker)
      requires Valid()
      modifies this`tickers
      ensures Valid()
      ensures t in old(tickers) ==> View() == Apply(old(View()), Stop(t.ch)) && t !in tickers
      ensures t !in old(tickers) ==> View() == old(View())
    {
      for i := 0 to |tickers|
        invariant Valid() && View() == old(View()) && tickers == old(tickers)
        invariant forall k | 0 <= k < i :: tickers[k] != t
      {
        if tickers[i] == t {
          RemoveAt(i);
          return;
        }
      }
    }

    method Receive(ch: nat) returns (got: bool)
      requires Valid()
      modifies this`full
      ensures Valid() && View() == Apply(old(View()), Op.Receive(ch)) && got == (ch in old(full))
    {
      got := ch in full;
      full := full - {ch};
    }
  }
}
