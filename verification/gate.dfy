/** The gate that bounds how many password derivations run at once, as the interleaved atomic steps of
    any number of callers of `do`.
 */
module Gate {
  import opened Text

  /** Where a caller is. A refused caller has yet to undo its addition while Refusing; an admitted one
      waits for a slot, runs fn and finishes it holding the slot, gives the slot back, and leaves.
   */
  datatype Phase = Idle | Refusing | Refused | Admitted | Running | Ran | Released | Done

  /** runs counts how often the caller's fn has been run to its end. */
  datatype Caller = Caller(phase: Phase, runs: nat)

  /** limit is the capacity of the slots channel; slots is how many places of it are taken. */
  datatype State = State(limit: nat, maxWait: int, waiting: int, slots: nat, callers: seq<Caller>)

  /** The gate newGate makes, with n callers that have not called yet. */
  function New(limit: int, queue: int, n: nat): State {
    var l := if limit < 1 then 1 else limit;
    var q := if queue < 0 then 0 else queue;
    State(l, l + q, 0, 0, seq(n, _ => Caller(Idle, 0)))
  }

  predicate Returned(p: Phase) {
    p == Refused || p == Done
  }

  /** Every step can be taken at once, except that sending to a full channel and receiving from an empty
      one block.
   */
  predicate Enabled(s: State, i: nat)
    requires i < |s.callers|
  {
    var p := s.callers[i].phase;
    !Returned(p) && (p == Admitted ==> s.slots < s.limit) && (p == Ran ==> s.slots > 0)
  }

  function NextPhase(s: State, p: Phase): Phase {
    match p
    case Idle => if s.waiting + 1 > s.maxWait then Refusing else Admitted
    case Refusing => Refused
    case Admitted => Running
    case Running => Ran
    case Ran => Released
    case Released => Done
    case Refused => Refused
    case Done => Done
  }

  /** One atomic step of caller i. */
  function Next(s: State, i: nat): State
    requires i < |s.callers| && Enabled(s, i)
  {
    var c := s.callers[i];
    var c' := Caller(NextPhase(s, c.phase), c.runs + if c.phase == Running then 1 else 0);
    var moved := s.(callers := s.callers[i := c']);
    match c.phase
    case Idle => moved.(waiting := s.waiting + 1)
    case Refusing => moved.(waiting := s.waiting - 1)
    case Admitted => moved.(slots := s.slots + 1)
    case Running => moved
    case Ran => moved.(slots := s.slots - 1)
    case Released => moved.(waiting := s.waiting - 1)
    case Refused => s
    case Done => s
  }

  /** The state after a schedule, which names the caller that takes each step; None if one of them
      could not take its step.
   */
  function Run(s: State, schedule: seq<nat>): Option<State> {
    if |schedule| == 0 then Some(s)
    else
      match Run(s, schedule[..|schedule| - 1])
      case None => None
      case Some(r) =>
        var i := schedule[|schedule| - 1];
        if i < |r.callers| && Enabled(r, i) then Some(Next(r, i)) else None
  }

  // ---------- counting callers ----------

  function Count(cs: seq<Caller>, ps: set<Phase>): nat {
    if |cs| == 0 then 0 else Count(cs[..|cs| - 1], ps) + if cs[|cs| - 1].phase in ps then 1 else 0
  }

  const HOLDING: set<Phase> := {Running, Ran}
  const ADMITTED: set<Phase> := {Admitted, Running, Ran, Released}
  const IN_FLIGHT: set<Phase> := {Refusing, Admitted, Running, Ran, Released}

  lemma {:induction false} CountUpdate(cs: seq<Caller>, i: nat, c: Caller, ps: set<Phase>)
    requires i < |cs|
    ensures Count(cs[i := c], ps)
         == Count(cs, ps) - (if cs[i].phase in ps then 1 else 0) + if c.phase in ps then 1 else 0
  {
    var n := |cs| - 1;
    if i < n {
      CountUpdate(cs[..n], i, c, ps);
      assert cs[i := c][..n] == cs[..n][i := c];
    } else {
      assert cs[i := c][..n] == cs[..n];
    }
  }

  lemma {:induction false} CountSplit(cs: seq<Caller>, ps: set<Phase>, qs: set<Phase>)
    requires ps !! qs
    ensures Count(cs, ps + qs) == Count(cs, ps) + Count(cs, qs)
  {
    if |cs| > 0 {
      CountSplit(cs[..|cs| - 1], ps, qs);
    }
  }

  lemma {:induction false} CountZero(cs: seq<Caller>, ps: set<Phase>)
    ensures Count(cs, ps) == 0 <==> forall i | 0 <= i < |cs| :: cs[i].phase !in ps
  {
    if |cs| > 0 {
      CountZero(cs[..|cs| - 1], ps);
      assert forall i | 0 <= i < |cs| - 1 :: cs[i] == cs[..|cs| - 1][i];
    }
  }

  // ---------- safety ----------

  /** The counter is the admitted callers plus the refusals not yet undone, so it may pass its bound, but
      the admitted callers alone never do; slot occupancy is the slot holders.
   */
  ghost predicate Inv(s: State) {
    && s.limit >= 1 && s.maxWait >= s.limit
    && s.waiting == Count(s.callers, ADMITTED) + Count(s.callers, {Refusing})
    && Count(s.callers, ADMITTED) <= s.maxWait
    && s.slots == Count(s.callers, HOLDING) <= s.limit
    && forall i | 0 <= i < |s.callers| :: RunsAsMarked(s.callers[i])
  }

  /** fn has run exactly once past Running, and never before it nor for a refused caller. */
  predicate RunsAsMarked(c: Caller) {
    c.runs == if c.phase in {Ran, Released, Done} then 1 else 0
  }

  lemma NewInv(limit: int, queue: int, n: nat)
    ensures Inv(New(limit, queue, n))
  {
    var s := New(limit, queue, n);
    CountZero(s.callers, ADMITTED);
    CountZero(s.callers, {Refusing});
    CountZero(s.callers, HOLDING);
  }

  lemma NextInv(s: State, i: nat)
    requires i < |s.callers| && Enabled(s, i) && Inv(s)
    ensures Inv(Next(s, i))
  {
    var c := Next(s, i).callers[i];
    CountUpdate(s.callers, i, c, ADMITTED);
    CountUpdate(s.callers, i, c, {Refusing});
    CountUpdate(s.callers, i, c, HOLDING);
    assert RunsAsMarked(s.callers[i]);
  }

  /** In every interleaving the invariant holds and the bounds stay as they were made. */
  lemma {:induction false} RunInv(s: State, schedule: seq<nat>)
    requires Inv(s) && Run(s, schedule).Some?
    ensures Inv(Run(s, schedule).value)
    ensures var r := Run(s, schedule).value;
            r.limit == s.limit && r.maxWait == s.maxWait && |r.callers| == |s.callers|
  {
    if |schedule| > 0 {
      RunInv(s, schedule[..|schedule| - 1]);
      NextInv(Run(s, schedule[..|schedule| - 1]).value, schedule[|schedule| - 1]);
    }
  }

  /** From a new gate, at most limit callers are inside fn and at most limit + queue are admitted. */
  lemma GateSafety(limit: int, queue: int, n: nat, schedule: seq<nat>)
    requires Run(New(limit, queue, n), schedule).Some?
    ensures var l, q := if limit < 1 then 1 else limit, if queue < 0 then 0 else queue;
            var r := Run(New(limit, queue, n), schedule).value;
            && Count(r.callers, {Running}) <= l
            && Count(r.callers, ADMITTED) <= l + q
            && r.waiting == Count(r.callers, IN_FLIGHT)
            && r.slots == Count(r.callers, HOLDING)
  {
    NewInv(limit, queue, n);
    RunInv(New(limit, queue, n), schedule);
    var cs := Run(New(limit, queue, n), schedule).value.callers;
    CountSplit(cs, {Running}, {Ran});
    assert {Running} + {Ran} == HOLDING;
    InFlight(cs);
  }

  lemma InFlight(cs: seq<Caller>)
    ensures Count(cs, IN_FLIGHT) == Count(cs, ADMITTED) + Count(cs, {Refusing})
  {
    CountSplit(cs, ADMITTED, {Refusing});
    assert ADMITTED + {Refusing} == IN_FLIGHT;
  }

  /** A call is refused exactly when limit + queue calls are already in flight, counting the refused ones
      that have not yet undone their addition.
   */
  lemma RefusedIff(s: State, i: nat)
    requires Inv(s) && i < |s.callers| && s.callers[i].phase == Idle
    ensures Next(s, i).callers[i].phase == Refusing <==> Count(s.callers, IN_FLIGHT) >= s.maxWait
    ensures Next(s, i).callers[i].phase != Refusing ==> Next(s, i).callers[i].phase == Admitted
  {
    InFlight(s.callers);
  }

  /** In no state of the run are more than limit + queue calls in flight. */
  ghost predicate Within(s: State, schedule: seq<nat>) {
    && Run(s, schedule).Some?
    && Count(Run(s, schedule).value.callers, IN_FLIGHT) <= s.maxWait
    && (|schedule| > 0 ==> Within(s, schedule[..|schedule| - 1]))
  }

  lemma StepUnrefused(s: State, i: nat)
    requires Inv(s) && i < |s.callers| && Enabled(s, i)
    requires Count(s.callers, {Refusing, Refused}) == 0 && Count(Next(s, i).callers, IN_FLIGHT) <= s.maxWait
    ensures Count(Next(s, i).callers, {Refusing, Refused}) == 0
  {
    var c := Next(s, i).callers[i];
    CountZero(s.callers, {Refusing, Refused});
    CountUpdate(s.callers, i, c, {Refusing, Refused});
    CountUpdate(s.callers, i, c, IN_FLIGHT);
    if s.callers[i].phase == Idle {
      RefusedIff(s, i);
    }
  }

  /** If no more than limit + queue calls are ever in flight, nobody is refused. */
  lemma {:induction false} NobodyRefused(s: State, schedule: seq<nat>)
    requires Inv(s) && Within(s, schedule)
    requires Count(s.callers, {Refusing, Refused}) == 0
    ensures Count(Run(s, schedule).value.callers, {Refusing, Refused}) == 0
  {
    if |schedule| > 0 {
      var front, i := schedule[..|schedule| - 1], schedule[|schedule| - 1];
      NobodyRefused(s, front);
      RunInv(s, front);
      StepUnrefused(Run(s, front).value, i);
    }
  }

  lemma RoomOf(limit: int, queue: int, n: nat)
    ensures New(limit, queue, n).limit == AtLeast(limit, 1)
    ensures New(limit, queue, n).maxWait == AtLeast(limit, 1) + AtLeast(queue, 0)
    ensures |New(limit, queue, n).callers| == n
  {
  }

  ghost function AtLeast(v: int, least: int): int {
    if v < least then least else v
  }

  /** A gate made for a limit and a queue has room for both: whatever has gone on, a caller is turned away by
      its addition exactly when limit + queue calls are in flight already, and waits otherwise.
   */
  lemma RefusedAtBound(limit: int, queue: int, n: nat, schedule: seq<nat>, i: nat)
    requires Run(New(limit, queue, n), schedule).Some?
    requires i < |Run(New(limit, queue, n), schedule).value.callers|
    requires Run(New(limit, queue, n), schedule).value.callers[i].phase == Idle
    ensures var r := Run(New(limit, queue, n), schedule).value;
            var moved := Next(r, i).callers[i].phase;
            && (moved == Refusing <==> Count(r.callers, IN_FLIGHT) >= AtLeast(limit, 1) + AtLeast(queue, 0))
            && (moved == Admitted <==> Count(r.callers, IN_FLIGHT) < AtLeast(limit, 1) + AtLeast(queue, 0))
  {
    NewInv(limit, queue, n);
    RunInv(New(limit, queue, n), schedule);
    RoomOf(limit, queue, n);
    RefusedIff(Run(New(limit, queue, n), schedule).value, i);
  }

  /** And an admitted caller can go in exactly when fewer than limit callers hold a slot. */
  lemma SlotAtLimit(limit: int, queue: int, n: nat, schedule: seq<nat>, i: nat)
    requires Run(New(limit, queue, n), schedule).Some?
    requires i < |Run(New(limit, queue, n), schedule).value.callers|
    requires Run(New(limit, queue, n), schedule).value.callers[i].phase == Admitted
    ensures var r := Run(New(limit, queue, n), schedule).value;
            Enabled(r, i) <==> Count(r.callers, {Running, Ran}) < AtLeast(limit, 1)
  {
    NewInv(limit, queue, n);
    RunInv(New(limit, queue, n), schedule);
    RoomOf(limit, queue, n);
    assert {Running, Ran} == HOLDING;
  }

  /** In no state of the run are more than so many calls in flight. */
  ghost predicate NeverMore(s: State, schedule: seq<nat>, most: int) {
    && Run(s, schedule).Some?
    && Count(Run(s, schedule).value.callers, IN_FLIGHT) <= most
    && (|schedule| > 0 ==> NeverMore(s, schedule[..|schedule| - 1], most))
  }

  lemma {:induction false} NeverMoreWithin(s: State, schedule: seq<nat>, most: int)
    requires NeverMore(s, schedule, most) && most <= s.maxWait
    ensures Within(s, schedule)
  {
    if |schedule| > 0 {
      NeverMoreWithin(s, schedule[..|schedule| - 1], most);
    }
  }

  lemma NewUnrefused(limit: int, queue: int, n: nat)
    ensures Count(New(limit, queue, n).callers, {Refusing, Refused}) == 0
  {
    CountZero(New(limit, queue, n).callers, {Refusing, Refused});
  }

  lemma NewWithin(limit: int, queue: int, n: nat, schedule: seq<nat>)
    requires NeverMore(New(limit, queue, n), schedule, AtLeast(limit, 1) + AtLeast(queue, 0))
    ensures Within(New(limit, queue, n), schedule)
  {
    RoomOf(limit, queue, n);
    NeverMoreWithin(New(limit, queue, n), schedule, AtLeast(limit, 1) + AtLeast(queue, 0));
  }

  /** From a new gate: while calls in flight stay within limit + queue, nobody is refused. */
  lemma NobodyRefusedWithin(limit: int, queue: int, n: nat, schedule: seq<nat>)
    requires NeverMore(New(limit, queue, n), schedule, AtLeast(limit, 1) + AtLeast(queue, 0))
    ensures Count(Run(New(limit, queue, n), schedule).value.callers, {Refusing, Refused}) == 0
  {
    NewInv(limit, queue, n);
    NewUnrefused(limit, queue, n);
    NewWithin(limit, queue, n, schedule);
    NobodyRefused(New(limit, queue, n), schedule);
  }

  /** A refusal that is not yet undone can turn a caller away from a gate nobody is inside: caller 0 enters,
      caller 1 is refused, and caller 0 leaves before caller 1 undoes its addition.
   */
  lemma RefusedFromEmptyGate()
    ensures exists schedule ::
              var r := Run(New(1, 0, 3), schedule);
              && r.Some? && |r.value.callers| == 3 && Count(r.value.callers, ADMITTED) == 0
              && r.value.callers[2].phase == Idle && Next(r.value, 2).callers[2].phase == Refusing
  {
    var schedule := ReachEmptyGate();
    CountZero(Run(New(1, 0, 3), schedule).value.callers, ADMITTED);
  }

  lemma ReachEmptyGate() returns (schedule: seq<nat>)
    ensures Run(New(1, 0, 3), schedule)
         == Some(State(1, 1, 1, 0, [Caller(Done, 1), Caller(Refusing, 0), Caller(Idle, 0)]))
  {
    var s0 := New(1, 0, 3);
    var idle, refusing := Caller(Idle, 0), Caller(Refusing, 0);
    assert s0.callers == [idle, idle, idle];
    var s1 := State(1, 1, 1, 0, [Caller(Admitted, 0), idle, idle]);
    var s2 := State(1, 1, 2, 0, [Caller(Admitted, 0), refusing, idle]);
    var s3 := State(1, 1, 2, 1, [Caller(Running, 0), refusing, idle]);
    schedule := Extend(s0, [], s0, 0, s1);
    schedule := Extend(s0, schedule, s1, 1, s2);
    schedule := Extend(s0, schedule, s2, 0, s3);
    schedule := LeaveGate(s0, schedule, s3);
  }

  lemma LeaveGate(s0: State, before: seq<nat>, s3: State) returns (schedule: seq<nat>)
    requires s3 == State(1, 1, 2, 1, [Caller(Running, 0), Caller(Refusing, 0), Caller(Idle, 0)])
    requires Run(s0, before) == Some(s3)
    ensures Run(s0, schedule) == Some(State(1, 1, 1, 0, [Caller(Done, 1), Caller(Refusing, 0), Caller(Idle, 0)]))
  {
    var idle, refusing := Caller(Idle, 0), Caller(Refusing, 0);
    var s4 := State(1, 1, 2, 1, [Caller(Ran, 1), refusing, idle]);
    var s5 := State(1, 1, 2, 0, [Caller(Released, 1), refusing, idle]);
    schedule := Extend(s0, before, s3, 0, s4);
    schedule := Extend(s0, schedule, s4, 0, s5);
    schedule := Extend(s0, schedule, s5, 0, State(1, 1, 1, 0, [Caller(Done, 1), refusing, idle]));
  }

  lemma Extend(s: State, schedule: seq<nat>, r: State, i: nat, next: State) returns (longer: seq<nat>)
    requires Run(s, schedule) == Some(r)
    requires i < |r.callers| && Enabled(r, i) && next == Next(r, i)
    ensures Run(s, longer) == Some(next)
  {
    longer := schedule + [i];
    assert longer[..|schedule|] == schedule;
  }

  // ---------- progress ----------

  /** How many steps a caller still has to take, at most. */
  function Rank(p: Phase): nat {
    match p
    case Idle => 6
    case Admitted => 5
    case Running => 4
    case Ran => 3
    case Released => 2
    case Refusing => 1
    case Refused => 0
    case Done => 0
  }

  function Remaining(cs: seq<Caller>): nat {
    if |cs| == 0 then 0 else Remaining(cs[..|cs| - 1]) + Rank(cs[|cs| - 1].phase)
  }

  lemma {:induction false} RemainingUpdate(cs: seq<Caller>, i: nat, c: Caller)
    requires i < |cs|
    ensures Remaining(cs[i := c]) == Remaining(cs) - Rank(cs[i].phase) + Rank(c.phase)
  {
    var n := |cs| - 1;
    if i < n {
      RemainingUpdate(cs[..n], i, c);
      assert cs[i := c][..n] == cs[..n][i := c];
    } else {
      assert cs[i := c][..n] == cs[..n];
    }
  }

  lemma StepDecreases(s: State, i: nat)
    requires i < |s.callers| && Enabled(s, i)
    ensures Remaining(Next(s, i).callers) < Remaining(s.callers)
  {
    RemainingUpdate(s.callers, i, Next(s, i).callers[i]);
  }

  /** No schedule is longer than the steps left at its start, so every run of finitely many callers ends. */
  lemma {:induction false} RunBounded(s: State, schedule: seq<nat>)
    requires Run(s, schedule).Some?
    ensures |schedule| + Remaining(Run(s, schedule).value.callers) <= Remaining(s.callers)
  {
    if |schedule| > 0 {
      var front := schedule[..|schedule| - 1];
      RunBounded(s, front);
      StepDecreases(Run(s, front).value, schedule[|schedule| - 1]);
    }
  }

  /** While a caller has not returned, some caller can take a step. */
  lemma NeverStuck(s: State) returns (i: nat)
    requires Inv(s)
    requires exists j :: 0 <= j < |s.callers| && !Returned(s.callers[j].phase)
    ensures i < |s.callers| && Enabled(s, i)
  {
    var j :| 0 <= j < |s.callers| && !Returned(s.callers[j].phase);
    i := j;
    CountZero(s.callers, HOLDING);
    if !Enabled(s, j) {
      i :| 0 <= i < |s.callers| && s.callers[i].phase in HOLDING;
    }
  }

  /** When everybody has returned the counter is back at zero and no slot is held; whoever was admitted
      ran fn exactly once and whoever was refused never did.
   */
  lemma CompleteRun(s: State)
    requires Inv(s)
    requires forall i | 0 <= i < |s.callers| :: Returned(s.callers[i].phase)
    ensures s.waiting == 0 && s.slots == 0
    ensures forall i | 0 <= i < |s.callers| :: s.callers[i].runs == if s.callers[i].phase == Done then 1 else 0
  {
    CountZero(s.callers, ADMITTED);
    CountZero(s.callers, {Refusing});
    CountZero(s.callers, HOLDING);
    assert forall i | 0 <= i < |s.callers| :: RunsAsMarked(s.callers[i]);
  }
}

/** The gate as the shared object its callers change one atomic operation at a time. */
module GateObject {
  import opened Gate

  class SharedGate {
    const limit: nat
    const maxWait: int
    var waiting: int
    var slots: nat
    var callers: seq<Caller>

    ghost function View(): State
      reads this
    {
      State(limit, maxWait, waiting, slots, callers)
    }

    constructor (limit: int, queue: int, n: nat)
      ensures View() == New(limit, queue, n) && Inv(View())
      ensures this.limit == AtLeast(limit, 1) && maxWait == AtLeast(limit, 1) + AtLeast(queue, 0)
    {
      var admitted := if limit < 1 then 1 else limit;
      var queued := if queue < 0 then 0 else queue;
      this.limit, maxWait := admitted, admitted + queued;
      waiting, slots, callers := 0, 0, seq(n, _ => Caller(Idle, 0));
      new;
      NewInv(limit, queue, n);
    }

    /** The next atomic operation caller i performs in `do`. */
    method Step(i: nat)
      requires i < |callers| && Enabled(View(), i) && Inv(View())
      modifies this
      ensures View() == Next(old(View()), i) && Inv(View())
    {
      NextInv(View(), i);
      var c := callers[i];
      match c.phase {
        case Idle =>
          waiting := waiting + 1;
          if waiting > maxWait {
            callers := callers[i := c.(phase := Refusing)];
          } else {
            callers := callers[i := c.(phase := Admitted)];
          }
        case Refusing =>
          waiting := waiting - 1;
          callers := callers[i := c.(phase := Refused)];
        case Admitted =>
          slots := slots + 1;
          callers := callers[i := c.(phase := Running)];
        case Running =>
          callers := callers[i := Caller(Ran, c.runs + 1)];
        case Ran =>
          slots := slots - 1;
          callers := callers[i := c.(phase := Released)];
        case Released =>
          waiting := waiting - 1;
          callers := callers[i := c.(phase := Done)];
      }
    }

    /** However the steps are interleaved, every caller returns and the gate is left as it was made. */
    method RunAll()
      requires Inv(View())
      modifies this
      ensures Inv(View()) && |callers| == |old(callers)|
      ensures forall i | 0 <= i < |callers| :: Returned(callers[i].phase)
      ensures waiting == 0 && slots == 0
    {
      while exists i :: 0 <= i < |callers| && !Returned(callers[i].phase)
        invariant Inv(View()) && |callers| == |old(callers)|
        decreases Remaining(callers)
      {
        ghost var able := NeverStuck(View());
        var now := State(limit, maxWait, waiting, slots, callers);
        var i: nat :| i < |callers| && Enabled(now, i);
        StepDecreases(View(), i);
        Step(i);
      }
      CompleteRun(View());
    }
  }
}
