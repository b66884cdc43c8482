/** Time-based one-time codes (RFC 6238 over section 5.3 of RFC 4226): the step of a time, the code of a step,
    and the search of the window around now. Times are nanoseconds since the Unix epoch.
 */
module Totp {
  import opened Text
  import opened Decimal
  import opened Times

  const PERIOD: int := 30
  const SKEW: int := 1
  const DIGITS: nat := 6
  const MAX_FAILURES: int := 5
  const LOCK_WINDOW: int := 15 * 60 * SECOND

  /** The output of HMAC-SHA1. */
  type Digest = d: Bytes | |d| == 20 witness seq(20, _ => '\0')

  /** HMAC-SHA1 as a function of the key and the message. */
  type Hmac = (Bytes, Bytes) -> Digest

  /** Whole seconds since the epoch, rounded down. */
  function Unix(t: int): int {
    t / SECOND
  }

  /** Division that rounds toward zero. */
  function Quotient(n: int, d: int): int
    requires d > 0
  {
    if n >= 0 then n / d else -(-n / d)
  }

  function Step(t: int): int {
    Quotient(Unix(t), PERIOD)
  }

  /** The last bytes of a step, most significant first; a negative step wraps. */
  function LastBytes(step: int, width: nat): (c: Bytes)
    ensures |c| == width
    decreases width
  {
    if width == 0 then [] else LastBytes(step / 256, width - 1) + [(step % 256) as char]
  }

  function Counter(step: int): (c: Bytes)
    ensures |c| == 8
  {
    LastBytes(step, 8)
  }

  /** Section 5.3 of RFC 4226: the low four bits of the last byte pick four bytes, whose top bit is cleared. */
  function Truncate(sum: Digest): (v: nat)
    ensures v < 0x8000_0000
  {
    var offset := sum[|sum| - 1] as int % 16;
    var b0, b1, b2, b3 := sum[offset] as int, sum[offset + 1] as int, sum[offset + 2] as int, sum[offset + 3] as int;
    (b0 * 0x100_0000 + b1 * 0x1_0000 + b2 * 0x100 + b3) % 0x8000_0000
  }

  /** The number some bytes denote, most significant first. */
  function BigEndian(bytes: Bytes): nat {
    if |bytes| == 0 then 0 else BigEndian(bytes[..|bytes| - 1]) * 256 + bytes[|bytes| - 1] as int
  }

  function Pow256(k: nat): (p: nat)
    ensures p > 0
  {
    if k == 0 then 1 else 256 * Pow256(k - 1)
  }

  lemma {:induction false} LastBytesAre(step: int, width: nat)
    ensures BigEndian(LastBytes(step, width)) == step % Pow256(width)
    decreases width
  {
    if width > 0 {
      var front := LastBytes(step / 256, width - 1);
      LastBytesAre(step / 256, width - 1);
      assert LastBytes(step, width)[..width - 1] == front;
      WrapDigit(step, Pow256(width - 1));
    }
  }

  /** The counter denotes the step modulo 2^64, a negative step included. */
  lemma CounterValue(step: int)
    ensures BigEndian(Counter(step)) == step % 0x1_0000_0000_0000_0000
  {
    LastBytesAre(step, 8);
    assert Pow256(8) == 0x1_0000_0000_0000_0000;
  }

  lemma WrapDigit(n: int, p: nat)
    requires p > 0
    ensures n % (256 * p) == n / 256 % p * 256 + n % 256
  {
    var q, d := n / 256, n % 256;
    var h, r := q / p, q % p;
    assert n == 256 * q + d && q == p * h + r;
    assert n == (256 * p) * h + (256 * r + d) by {
      assert 256 * (p * h) == (256 * p) * h;
    }
    assert 0 <= 256 * r + d < 256 * p;
    Remainder(n, 256 * p, h, 256 * r + d);
  }

  lemma Remainder(n: int, m: nat, h: int, r: int)
    requires m > 0 && n == m * h + r && 0 <= r < m
    ensures n % m == r
  {
    var h', r' := n / m, n % m;
    assert n == m * h' + r';
    if h > h' {
      Multiple(m, h - h');
    } else if h < h' {
      Multiple(m, h' - h);
    }
  }

  lemma Multiple(m: nat, k: int)
    requires m > 0 && k >= 1
    ensures m * k >= m
  {
  }

  /** The truncation is the low 31 bits of the four bytes at the offset, which never passes the digest's end. */
  lemma TruncateIs(sum: Digest)
    ensures var offset := sum[19] as int % 16;
            offset + 4 <= |sum| && Truncate(sum) == BigEndian(sum[offset..offset + 4]) % 0x8000_0000
  {
    var offset := sum[19] as int % 16;
    var four := sum[offset..offset + 4];
    BigEndianMore([], four[0]);
    BigEndianMore(four[..1], four[1]);
    BigEndianMore(four[..2], four[2]);
    BigEndianMore(four[..3], four[3]);
    assert [] + [four[0]] == four[..1] && four[..1] + [four[1]] == four[..2];
    assert four[..2] + [four[2]] == four[..3] && four[..3] + [four[3]] == four;
  }

  lemma BigEndianMore(front: Bytes, last: Byte)
    ensures BigEndian(front + [last]) == BigEndian(front) * 256 + last as int
  {
    assert (front + [last])[..|front|] == front;
  }

  /** A step is the whole periods since the epoch, rounded toward zero: the periods on both sides of the epoch
      are step zero.
   */
  lemma StepRounds(t: int)
    ensures t >= 0 ==> 30 * Step(t) <= Unix(t) < 30 * Step(t) + 30
    ensures t < 0 ==> 30 * Step(t) - 30 < Unix(t) <= 30 * Step(t) <= 0
    ensures Unix(t) * 1_000_000_000 <= t < Unix(t) * 1_000_000_000 + 1_000_000_000
  {
  }

  /** The code of one step: six digits that denote the truncated digest modulo a million. */
  function Code(hmac: Hmac, key: Bytes, step: int): (code: string)
    ensures |code| == 6 && AllDigits(code)
    ensures DigitsValue(code) == Truncate(hmac(key, Counter(step))) % 1_000_000
  {
    var n := Truncate(hmac(key, Counter(step))) % 1_000_000;
    assert Pow10(DIGITS) == 1_000_000;
    PaddedValue(n, DIGITS);
    Padded(n, DIGITS)
  }

  /** Keeps only the digits. */
  function Normalize(code: string): (digits: string)
    ensures AllDigits(digits)
  {
    if |code| == 0 then ""
    else
      var rest := Normalize(code[..|code| - 1]);
      var c := code[|code| - 1];
      if IsDigit(c) then rest + [c] else rest
  }

  /** Two six-digit codes are equal exactly when they denote the same number. */
  lemma {:induction false} SameCode(a: string, b: string)
    requires AllDigits(a) && AllDigits(b) && |a| == |b|
    ensures a == b <==> DigitsValue(a) == DigitsValue(b)
  {
    var n := |a|;
    if n > 0 {
      SameCode(a[..n - 1], b[..n - 1]);
      assert a == a[..n - 1] + [a[n - 1]] && b == b[..n - 1] + [b[n - 1]];
    }
  }

  /** Digits stay, anything else goes, and what is around it does not matter. */
  lemma {:induction false} NormalizeKeepsDigits(a: string, b: string)
    ensures Normalize(a + b) == Normalize(a) + Normalize(b)
    ensures AllDigits(a) ==> Normalize(a) == a
    ensures (forall i | 0 <= i < |a| :: !IsDigit(a[i])) ==> Normalize(a) == ""
    decreases |a| + |b|
  {
    if |b| > 0 {
      NormalizeKeepsDigits(a, b[..|b| - 1]);
      assert (a + b)[..|a + b| - 1] == a + b[..|b| - 1];
    } else {
      assert a + b == a;
      if |a| > 0 {
        NormalizeKeepsDigits(a[..|a| - 1], "");
        assert a == a[..|a| - 1] + [a[|a| - 1]];
      }
    }
  }

  /** The code of each step under one secret. */
  type Codes = int -> string

  function CodesOf(hmac: Hmac, key: Bytes): Codes {
    step => Code(hmac, key, step)
  }

  /** Six digits are the code of a step exactly when they denote its truncated digest modulo a million. */
  lemma CodesAre(hmac: Hmac, key: Bytes, digits: string, step: int)
    requires AllDigits(digits) && |digits| == 6
    ensures CodesOf(hmac, key)(step) == digits
        <==> DigitsValue(digits) == Truncate(hmac(key, Counter(step))) % 1_000_000
  {
    SameCode(Code(hmac, key, step), digits);
  }

  /** The least of the steps from lo to hi whose code has these digits. */
  function LeastFrom(codes: Codes, digits: string, lo: int, hi: int): Option<int>
    decreases hi - lo + 1
  {
    if hi < lo then None
    else
      var before := LeastFrom(codes, digits, lo, hi - 1);
      if before.None? && codes(hi) == digits then Some(hi) else before
  }

  lemma {:induction false} LeastFromIs(codes: Codes, digits: string, lo: int, hi: int)
    ensures match LeastFrom(codes, digits, lo, hi)
            case Some(m) => lo <= m <= hi && codes(m) == digits && forall k | lo <= k < m :: codes(k) != digits
            case None => forall k | lo <= k <= hi :: codes(k) != digits
    decreases hi - lo + 1
  {
    if lo <= hi {
      LeastFromIs(codes, digits, lo, hi - 1);
    }
  }

  /** The least step of the window whose code was entered; none without six digits or a usable secret. */
  function Match(codes: Option<Codes>, code: string, now: int): (m: Option<int>) {
    if |Normalize(code)| != DIGITS || codes.None? then None
    else LeastFrom(codes.value, Normalize(code), Step(now) - SKEW, Step(now) + SKEW)
  }

  function Found(found: bool, matched: int): Option<int> {
    if found then Some(matched) else None
  }

  /** The search as a loop, which goes on to the end of the window after a match. */
  method MatchCode(codes: Option<Codes>, code: string, now: int) returns (matched: int, found: bool)
    ensures Found(found, matched) == Match(codes, code, now)
  {
    var digits := Normalize(code);
    if |digits| != DIGITS {
      return 0, false;
    }
    var current := Step(now);
    matched, found := 0, false;
    var delta := -SKEW;
    while delta <= SKEW
      invariant -SKEW <= delta <= SKEW + 1
      invariant codes.None? ==> delta == -SKEW
      invariant codes.Some? ==>
                  Found(found, matched) == LeastFrom(codes.value, digits, current - SKEW, current + delta - 1)
    {
      var step := current + delta;
      if codes.None? {
        return 0, false;
      }
      var want := codes.value(step);
      if want == digits && !found {
        matched, found := step, true;
      }
      delta := delta + 1;
    }
  }
}
