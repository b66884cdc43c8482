/** The verification state of one enrolment: what single calls do, and what holds over whole runs of them. */
module Attempts {
  import opened Text
  import opened Decimal
  import opened Totp

  /** The highest step accepted, the failures in a row, and until when verification is refused. */
  datatype Standing = Standing(lastStep: int, failures: int, lockedUntil: Option<int>)

  datatype Answer = Accepted(step: int) | Invalid | TooMany(until: int)

  /** The secret of one enrolment, as the codes it gives. */
  datatype Enrolment = Enrolment(codes: Option<Codes>)

  /** The enrolment of a key; None for a secret that cannot be read. */
  function Enrolled(hmac: Hmac, key: Option<Bytes>): Enrolment {
    Enrolment(if key.Some? then Some(CodesOf(hmac, key.value)) else None)
  }

  datatype Call = Call(code: string, now: int)

  predicate Locked(s: Standing, now: int) {
    s.lockedUntil.Some? && s.lockedUntil.value > now
  }

  function Failed(s: Standing, now: int): Standing {
    var counted := s.(failures := s.failures + 1);
    if counted.failures >= MAX_FAILURES then counted.(lockedUntil := Some(now + LOCK_WINDOW)) else counted
  }

  function Succeeded(s: Standing, step: int): Standing {
    Standing(if step > s.lastStep then step else s.lastStep, 0, None)
  }

  function Verified(e: Enrolment, s: Standing, c: Call): (Standing, Answer) {
    if Locked(s, c.now) then (s, TooMany(s.lockedUntil.value))
    else
      match Match(e.codes, c.code, c.now)
      case Some(step) =>
        if step > s.lastStep then (Succeeded(s, step), Accepted(step)) else (Failed(s, c.now), Invalid)
      case None => (Failed(s, c.now), Invalid)
  }

  class Attempt {
    var lastStep: int
    var failures: int
    var lockedUntil: Option<int>

    ghost function View(): Standing
      reads this
    {
      Standing(lastStep, failures, lockedUntil)
    }

    constructor (s: Standing)
      ensures View() == s
    {
      lastStep, failures, lockedUntil := s.lastStep, s.failures, s.lockedUntil;
    }

    method Verify(e: Enrolment, code: string, now: int) returns (answer: Answer)
      modifies this
      ensures (View(), answer) == Verified(e, old(View()), Call(code, now))
    {
      if lockedUntil.Some? && lockedUntil.value > now {
        return TooMany(lockedUntil.value);
      }
      var step, ok := MatchCode(e.codes, code, now);
      if !ok || step <= lastStep {
        Fail(now);
        return Invalid;
      }
      Succeed(step);
      return Accepted(step);
    }

    method Succeed(step: int)
      modifies this
      ensures View() == Succeeded(old(View()), step)
    {
      if step > lastStep {
        lastStep := step;
      }
      failures := 0;
      lockedUntil := None;
    }

    /** Counts a failure, a rejected recovery code included, and locks from the fifth on. */
    method Fail(now: int)
      modifies this
      ensures View() == Failed(old(View()), now)
    {
      failures := failures + 1;
      if failures >= MAX_FAILURES {
        lockedUntil := Some(now + LOCK_WINDOW);
      }
    }
  }

  // ---------- one call ----------

  ghost predicate InWindow(step: int, now: int) {
    Step(now) - 1 <= step <= Step(now) + 1
  }

  ghost predicate Matches(e: Enrolment, code: string, step: int) {
    e.codes.Some? && |Normalize(code)| == 6 && e.codes.value(step) == Normalize(code)
  }

  /** A match is the least step of the three-step window whose code has the digits of the entry. */
  lemma MatchIsLeast(e: Enrolment, c: Call)
    ensures match Match(e.codes, c.code, c.now)
            case Some(m) => InWindow(m, c.now) && Matches(e, c.code, m)
                            && forall k | InWindow(k, c.now) && Matches(e, c.code, k) :: m <= k
            case None => forall k | InWindow(k, c.now) :: !Matches(e, c.code, k)
  {
    if e.codes.Some? && |Normalize(c.code)| == DIGITS {
      LeastFromIs(e.codes.value, Normalize(c.code), Step(c.now) - SKEW, Step(c.now) + SKEW);
    }
  }

  /** An unlocked attempt accepts exactly when some step of the window has the code and no such step is at
      or below the high-water mark; the step accepted is then the least of them.
   */
  lemma AcceptsIff(e: Enrolment, s: Standing, c: Call)
    requires !Locked(s, c.now)
    ensures Verified(e, s, c).1.Accepted? <==>
            && (exists k :: InWindow(k, c.now) && Matches(e, c.code, k))
            && (forall k | InWindow(k, c.now) && Matches(e, c.code, k) :: k > s.lastStep)
    ensures Verified(e, s, c).1.Accepted? ==>
            var step := Verified(e, s, c).1.step;
            && InWindow(step, c.now) && Matches(e, c.code, step)
            && Verified(e, s, c).0 == Standing(step, 0, None)
    ensures !Verified(e, s, c).1.Accepted? ==>
            && Verified(e, s, c).1 == Invalid
            && Verified(e, s, c).0.lastStep == s.lastStep && Verified(e, s, c).0.failures == s.failures + 1
            && Verified(e, s, c).0.lockedUntil
               == if s.failures + 1 >= 5 then Some(c.now + 900_000_000_000) else s.lockedUntil
  {
    MatchIsLeast(e, c);
  }

  /** A locked attempt answers the end of its lock, whatever the code, and changes nothing; the lock holds up to
      its end and not at it.
   */
  lemma LockedIff(e: Enrolment, s: Standing, c: Call)
    ensures Verified(e, s, c).1.TooMany? <==> s.lockedUntil.Some? && c.now < s.lockedUntil.value
    ensures Verified(e, s, c).1.TooMany? ==> Verified(e, s, c) == (s, TooMany(s.lockedUntil.value))
  {
  }

  // ---------- whole runs ----------

  /** The standing after a run of calls, and their answers. */
  function Run(e: Enrolment, s: Standing, calls: seq<Call>): (r: (Standing, seq<Answer>))
    ensures |r.1| == |calls|
  {
    if |calls| == 0 then (s, [])
    else
      var (before, answers) := Run(e, s, calls[..|calls| - 1]);
      var (after, answer) := Verified(e, before, calls[|calls| - 1]);
      (after, answers + [answer])
  }

  function AcceptedSteps(answers: seq<Answer>): seq<int> {
    if |answers| == 0 then []
    else
      var before, answer := AcceptedSteps(answers[..|answers| - 1]), answers[|answers| - 1];
      if answer.Accepted? then before + [answer.step] else before
  }

  function Failures(answers: seq<Answer>): nat {
    if |answers| == 0 then 0
    else Failures(answers[..|answers| - 1]) + if answers[|answers| - 1] == Invalid then 1 else 0
  }

  /** Over any run, at any times, the accepted steps strictly increase above the starting mark, and the
      mark ends at the last of them.
   */
  lemma {:induction false} SingleUse(e: Enrolment, s: Standing, calls: seq<Call>)
    ensures var (r, answers) := Run(e, s, calls);
            var steps := AcceptedSteps(answers);
            && Increasing(steps)
            && (forall i | 0 <= i < |steps| :: s.lastStep < steps[i] <= r.lastStep)
            && r.lastStep == if |steps| == 0 then s.lastStep else steps[|steps| - 1]
  {
    if |calls| > 0 {
      var front := calls[..|calls| - 1];
      SingleUse(e, s, front);
      var answers := Run(e, s, calls).1;
      assert answers[..|calls| - 1] == Run(e, s, front).1;
    }
  }

  ghost predicate StepsWithin(calls: seq<Call>, a: int, b: int) {
    forall i | 0 <= i < |calls| :: a <= Step(calls[i].now) <= b
  }

  ghost predicate Between(s: seq<int>, lo: int, hi: int) {
    forall i | 0 <= i < |s| :: lo <= s[i] <= hi
  }

  lemma {:induction false} AcceptedWithin(e: Enrolment, s: Standing, calls: seq<Call>, a: int, b: int)
    requires StepsWithin(calls, a, b)
    ensures Between(AcceptedSteps(Run(e, s, calls).1), a - SKEW, b + SKEW)
  {
    if |calls| > 0 {
      var front, last := calls[..|calls| - 1], calls[|calls| - 1];
      AcceptedWithin(e, s, front, a, b);
      MatchIsLeast(e, last);
      assert a <= Step(last.now) <= b;
      assert Run(e, s, calls).1[..|calls| - 1] == Run(e, s, front).1;
    }
  }

  lemma {:induction false} IncreasingFits(s: seq<int>, lo: int, hi: int)
    requires Increasing(s) && lo <= hi + 1 && Between(s, lo, hi)
    ensures |s| <= hi - lo + 1
  {
    if |s| > 0 {
      IncreasingFits(s[..|s| - 1], lo, s[|s| - 1] - 1);
    }
  }

  /** Calls whose time steps lie in [a, b] accept at most b - a + 3 codes in all. */
  lemma AcceptedBound(e: Enrolment, s: Standing, calls: seq<Call>, a: int, b: int)
    requires StepsWithin(calls, a, b) && a <= b
    ensures |AcceptedSteps(Run(e, s, calls).1)| <= b - a + 3
  {
    SingleUse(e, s, calls);
    AcceptedWithin(e, s, calls, a, b);
    IncreasingFits(AcceptedSteps(Run(e, s, calls).1), a - SKEW, b + SKEW);
  }

  /** How many failures in a row are possible before each further one waits out the lock. */
  function Quick(s: Standing): int {
    if s.failures < MAX_FAILURES - 1 then MAX_FAILURES - s.failures else 1
  }

  /** The time k lock windows after start. */
  function Later(start: int, k: nat): int {
    if k == 0 then start else Later(start, k - 1) + LOCK_WINDOW
  }

  lemma {:induction false} LaterIs(start: int, k: nat)
    ensures Later(start, k) == start + k * LOCK_WINDOW
  {
    if k > 0 {
      LaterIs(start, k - 1);
    }
  }

  /** n failures into a run that began in s at start: past the quick ones, each further failure has moved
      the end of the lock on by a whole window.
   */
  ghost predicate Paced(s: Standing, r: Standing, n: nat, start: int, span: int) {
    && r.failures == s.failures + n
    && (n >= Quick(s) ==>
          && r.lockedUntil.Some?
          && Later(start, n - Quick(s) + 1) <= r.lockedUntil.value <= start + span + LOCK_WINDOW)
  }

  lemma PacedStep(e: Enrolment, s: Standing, r: Standing, n: nat, start: int, span: int, c: Call)
    requires Paced(s, r, n, start, span) && start <= c.now <= start + span
    ensures match Verified(e, r, c)
            case (r', Invalid) => Paced(s, r', n + 1, start, span)
            case (r', TooMany(_)) => Paced(s, r', n, start, span)
            case (_, Accepted(_)) => true
  {
  }

  /** Each failure past the quick ones has moved the end of the lock on by a window, counted from the start. */
  lemma {:induction false} LockAdvances(e: Enrolment, s: Standing, calls: seq<Call>, start: int, span: int)
    requires forall i | 0 <= i < |calls| :: start <= calls[i].now <= start + span
    requires |AcceptedSteps(Run(e, s, calls).1)| == 0
    ensures var (r, answers) := Run(e, s, calls);
            Paced(s, r, Failures(answers), start, span)
  {
    if |calls| > 0 {
      var front, last := calls[..|calls| - 1], calls[|calls| - 1];
      assert Run(e, s, calls).1[..|calls| - 1] == Run(e, s, front).1;
      LockAdvances(e, s, front, start, span);
      PacedStep(e, s, Run(e, s, front).0, Failures(Run(e, s, front).1), start, span, last);
    }
  }

  /** The standing before call i of a run. */
  function Before(e: Enrolment, s: Standing, calls: seq<Call>, i: nat): Standing
    requires i <= |calls|
  {
    Run(e, s, calls[..i]).0
  }

  /** Since the failure at call i nothing was accepted, and it has locked until a whole window after it, or a
      later failure until later still.
   */
  ghost predicate LockedSince(e: Enrolment, s: Standing, calls: seq<Call>, i: nat, j: nat)
    requires i < j <= |calls|
  {
    var r := Before(e, s, calls, j);
    r.failures >= MAX_FAILURES && r.lockedUntil.Some? && r.lockedUntil.value >= calls[i].now + LOCK_WINDOW
  }

  lemma {:induction false} AnswersSoFar(e: Enrolment, s: Standing, calls: seq<Call>, j: nat)
    requires j < |calls|
    ensures var (after, answer) := Verified(e, Before(e, s, calls, j), calls[j]);
            Before(e, s, calls, j + 1) == after && Run(e, s, calls).1[j] == answer
    decreases |calls|
  {
    assert calls[..j + 1][..j] == calls[..j];
    if j + 1 < |calls| {
      var front := calls[..|calls| - 1];
      AnswersSoFar(e, s, front, j);
      assert front[..j] == calls[..j] && front[..j + 1] == calls[..j + 1];
    } else {
      assert calls[..j + 1] == calls;
    }
  }

  lemma {:induction false} LockHolds(e: Enrolment, s: Standing, calls: seq<Call>, i: nat, j: nat)
    requires i < j <= |calls|
    requires forall k | i < k < j :: !Run(e, s, calls).1[k].Accepted?
    requires Run(e, s, calls).1[i] == Invalid && Before(e, s, calls, i).failures >= MAX_FAILURES - 1
    ensures LockedSince(e, s, calls, i, j)
  {
    AnswersSoFar(e, s, calls, j - 1);
    if i + 1 < j {
      LockHolds(e, s, calls, i, j - 1);
    }
  }

  /** From the fifth failure on, the next one is at least a lock window later by the times of the two calls,
      even when the clock went backwards in between.
   */
  lemma FailuresApart(e: Enrolment, s: Standing, calls: seq<Call>, i: nat, j: nat)
    requires i < j < |calls|
    requires forall k | i < k < j :: !Run(e, s, calls).1[k].Accepted?
    requires Before(e, s, calls, i).failures >= 4
    requires Run(e, s, calls).1[i] == Invalid && Run(e, s, calls).1[j] == Invalid
    ensures calls[j].now >= calls[i].now + 900_000_000_000
  {
    LockHolds(e, s, calls, i, j);
    AnswersSoFar(e, s, calls, j);
  }

  /** A digest of one value only, so that every step has the code "000000". */
  function Constant(key: Bytes, message: Bytes): Digest {
    seq(20, _ => '\0')
  }

  lemma ConstantCode(key: Bytes, step: int)
    ensures Code(Constant, key, step) == "000000"
  {
    ZeroDigest(Constant(key, Counter(step)));
    AllZeros(Code(Constant, key, step));
  }

  lemma ZeroDigest(sum: Digest)
    requires forall i | 0 <= i < |sum| :: sum[i] == '\0'
    ensures Truncate(sum) == 0
  {
  }

  lemma {:induction false} AllZeros(code: string)
    requires AllDigits(code) && DigitsValue(code) == 0
    ensures code == seq(|code|, _ => '0')
  {
    if |code| > 0 {
      AllZeros(code[..|code| - 1]);
      assert code == code[..|code| - 1] + [code[|code| - 1]];
    }
  }

  /** A code of the present step that was never used is refused when the step before, already used, happens
      to have the same code.
   */
  lemma FreshCodeRefused(key: Bytes, now: int)
    ensures var e, s, c := Enrolled(Constant, Some(key)), Standing(Step(now) - 1, 0, None), Call("000000", now);
            && Matches(e, c.code, Step(now)) && Step(now) > s.lastStep && !Locked(s, now)
            && Verified(e, s, c) == (Failed(s, now), Invalid)
  {
    var e, s, c := Enrolled(Constant, Some(key)), Standing(Step(now) - 1, 0, None), Call("000000", now);
    NormalizeKeepsDigits(c.code, "");
    ConstantCode(key, Step(now));
    ConstantCode(key, Step(now) - 1);
    assert InWindow(Step(now) - 1, now) && Matches(e, c.code, Step(now) - 1);
    AcceptsIff(e, s, c);
  }

  /** Guess-rate bound: a run without a success whose times span at most span counts at most five failures
      and one more per whole lock window, and only one and one more per window once five are on record.
   */
  lemma GuessRate(e: Enrolment, s: Standing, calls: seq<Call>, start: int, span: nat)
    requires forall i | 0 <= i < |calls| :: start <= calls[i].now <= start + span
    requires |AcceptedSteps(Run(e, s, calls).1)| == 0
    ensures s.failures >= 0 ==> Failures(Run(e, s, calls).1) <= 5 + span / 900_000_000_000
    ensures s.failures >= 5 ==> Failures(Run(e, s, calls).1) <= 1 + span / 900_000_000_000
    ensures s.failures <= 4 ==> Failures(Run(e, s, calls).1) <= 5 - s.failures + span / 900_000_000_000
  {
    LockAdvances(e, s, calls, start, span);
    PacedFew(s, Run(e, s, calls).0, Failures(Run(e, s, calls).1), start, span);
  }

  lemma PacedFew(s: Standing, r: Standing, n: nat, start: int, span: nat)
    requires Paced(s, r, n, start, span)
    ensures n <= Quick(s) + span / LOCK_WINDOW
  {
    if n >= Quick(s) {
      LaterIs(start, n - Quick(s));
      WholeParts(n - Quick(s), LOCK_WINDOW, span);
    }
  }

  lemma WholeParts(k: nat, width: nat, span: nat)
    requires width > 0 && k * width <= span
    ensures k <= span / width
  {
    if k > span / width {
      LessParts(span / width, k, width);
    }
  }

  lemma LessParts(j: nat, k: nat, width: nat)
    requires j < k
    ensures (j + 1) * width <= k * width
  {
  }
}
