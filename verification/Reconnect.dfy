/** The control client's reconnect backoff, in 64-bit durations. */
module Reconnect {

  const TWO_63 := 0x8000_0000_0000_0000
  const TWO_64 := 0x1_0000_0000_0000_0000

  type Duration = d: int | -TWO_63 <= d < TWO_63

  /** Two's-complement doubling. */
  function Doubled(d: Duration): Duration {
    var n := 2 * d;
    if n >= TWO_63 then n - TWO_64 else if n < -TWO_63 then n + TWO_64 else n
  }

  /** reconnectSchedule: how long to wait now, and the delay to start from next time. */
  function Schedule(current: Duration, minimum: Duration, maximum: Duration, established: bool): (Duration, Duration) {
    var wait := if established || current < minimum then minimum else current;
    var next := Doubled(wait);
    (wait, if wait >= maximum || next < wait || next > maximum then maximum else next)
  }

  function Power2(k: nat): nat {
    if k == 0 then 1 else 2 * Power2(k - 1)
  }

  function Min(a: int, b: int): int {
    if a <= b then a else b
  }

  /** The wait after `k` further attempts without an established session. */
  function Backoff(minimum: int, maximum: int, k: nat): int {
    Min(maximum, minimum * Power2(k))
  }

  /** Wrap-around included, the next delay is twice the wait, capped. */
  lemma ScheduleDoubles(current: Duration, minimum: Duration, maximum: Duration)
    requires 0 < minimum <= current <= maximum
    ensures Schedule(current, minimum, maximum, false).0 == current
    ensures Schedule(current, minimum, maximum, false).1 == Min(maximum, 2 * current)
    ensures Schedule(current, minimum, maximum, true) == (minimum, Min(maximum, 2 * minimum) as Duration)
  {}

  lemma {:induction false} BackoffDoubles(minimum: int, maximum: int, k: nat)
    requires 0 < minimum <= maximum
    ensures minimum <= Backoff(minimum, maximum, k) <= maximum
    ensures Backoff(minimum, maximum, k + 1) == Min(maximum, 2 * Backoff(minimum, maximum, k))
  {
    PowerAtLeastOne(k);
    var p := Power2(k);
    assert minimum * Power2(k + 1) == 2 * (minimum * p);
    assert minimum * p >= minimum;
  }

  lemma {:induction false} PowerAtLeastOne(k: nat)
    ensures Power2(k) >= 1
  {
    if k > 0 { PowerAtLeastOne(k - 1); }
  }

  /** Sessions since the last established one, or since the start. */
  function Streak(established: seq<bool>, n: nat): nat
    requires n < |established|
  {
    if n == 0 || established[n] then 0 else Streak(established, n - 1) + 1
  }

  /** The streak reaches back exactly to the last established session, or to the first one if none was since. */
  lemma {:induction false} StreakExactly(established: seq<bool>, n: nat)
    requires n < |established|
    ensures var k := Streak(established, n);
            && k <= n && (forall j :: n - k < j <= n ==> !established[j])
            && (k < n ==> established[n - k])
  {
    if n > 0 && !established[n] {
      StreakExactly(established, n - 1);
    }
  }

  /**
   Run: after session n the client waits min(maximum, minimum * 2^k), where k counts the sessions since the last
   established one, or since the start.
   */
  method Run(minimum: Duration, maximum: Duration, established: seq<bool>) returns (waits: seq<Duration>)
    requires 0 < minimum <= maximum
    ensures |waits| == |established|
    ensures forall n :: 0 <= n < |waits| ==> waits[n] == Backoff(minimum, maximum, Streak(established, n))
  {
    waits := [];
    var delay := minimum;
    for n := 0 to |established|
      invariant |waits| == n && forall i :: 0 <= i < n ==> waits[i] == Backoff(minimum, maximum, Streak(established, i))
      invariant delay == if n == 0 then minimum else Backoff(minimum, maximum, Streak(established, n - 1) + 1)
    {
      var k := Streak(established, n);
      BackoffDoubles(minimum, maximum, k);
      BackoffDoubles(minimum, maximum, 0);
      assert Backoff(minimum, maximum, 0) == minimum;
      if n > 0 {
        BackoffDoubles(minimum, maximum, Streak(established, n - 1) + 1);
      }
      ScheduleDoubles(delay, minimum, maximum);
      var (wait, next) := Schedule(delay, minimum, maximum, established[n]);
      waits := waits + [wait];
      delay := next;
    }
  }

  /** Long enough without an established session, every wait is the maximum. */
  lemma BackoffReachesMaximum(minimum: int, maximum: int, k: nat)
    requires 0 < minimum <= maximum && k >= maximum
    ensures Backoff(minimum, maximum, k) == maximum
  {
    PowerExceeds(k);
    ScaleUp(minimum, Power2(k));
  }

  lemma ScaleUp(factor: int, n: nat)
    requires factor >= 1
    ensures factor * n >= n
  {}

  lemma {:induction false} PowerExceeds(k: nat)
    ensures Power2(k) > k
  {
    if k > 0 { PowerExceeds(k - 1); }
  }
}
