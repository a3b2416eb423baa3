/**
 The clock of the version 3.0 timers (version3.0/net/Timer.cpp): milliseconds that wrap around every 10,000 seconds,
 compared with deadlines that do not.
 */
module TimerClock {
  const WINDOW: nat := 10_000_000

  /** What a reading of gettimeofday at millisecond `t` is reduced to. */
  function Stamp(t: nat): nat {
    ((t / 1000) % 10000) * 1000 + t % 1000
  }

  /** expiredTime_ of a node made at `t0`. */
  function ExpiryOf(t0: nat, timeout: nat): nat {
    Stamp(t0) + timeout
  }

  /** The negation of isValid() at `t`. */
  predicate TestsExpired(expiry: nat, t: nat) {
    !(Stamp(t) < expiry)
  }

  lemma StampIs(t: nat)
    ensures Stamp(t) == t % WINDOW
  {
    var s := t / 1000;
    assert t == 1000 * s + t % 1000;
    assert s == 10000 * (s / 10000) + s % 10000;
    assert t == WINDOW * (s / 10000) + Stamp(t);
    assert 0 <= Stamp(t) < WINDOW;
    Remainder(t, s / 10000, Stamp(t));
  }

  lemma Remainder(t: nat, q: nat, r: nat)
    requires t == WINDOW * q + r && r < WINDOW
    ensures t % WINDOW == r && t / WINDOW == q
  {
  }

  /** A node never tests expired early, however often the clock has wrapped in between. */
  lemma {:induction false} NeverEarly(t0: nat, timeout: nat, t: nat)
    requires t0 <= t && TestsExpired(ExpiryOf(t0, timeout), t)
    ensures t - t0 >= timeout
  {
    StampIs(t0);
    StampIs(t);
    assert t0 / WINDOW <= t / WINDOW;
    assert t - t0 == WINDOW * (t / WINDOW - t0 / WINDOW) + t % WINDOW - t0 % WINDOW;
  }

  /** Within the window it was made in, a node tests expired exactly from its deadline on. */
  lemma ExactWithinWindow(t0: nat, timeout: nat, t: nat)
    requires t0 / WINDOW == t / WINDOW
    ensures TestsExpired(ExpiryOf(t0, timeout), t) <==> t >= t0 + timeout
  {
    StampIs(t0);
    StampIs(t);
    assert t - t0 == t % WINDOW - t0 % WINDOW;
  }

  /**
   The comparison only ever comes true for deadlines inside the window the node was made in. A node whose deadline
   crosses the wrap is never found expired, by any later reading of the clock.
   */
  lemma ExpiresAtAllIff(t0: nat, timeout: nat)
    ensures (exists t :: t >= t0 && TestsExpired(ExpiryOf(t0, timeout), t)) <==> t0 % WINDOW + timeout < WINDOW
  {
    StampIs(t0);
    if t0 % WINDOW + timeout < WINDOW {
      var t := t0 + timeout;
      Remainder(t, t0 / WINDOW, t0 % WINDOW + timeout);
      ExactWithinWindow(t0, timeout, t);
      assert TestsExpired(ExpiryOf(t0, timeout), t);
    } else {
      forall t: nat | t >= t0
        ensures !TestsExpired(ExpiryOf(t0, timeout), t)
      {
        StampIs(t);
      }
    }
  }

  /** For example a keep-alive connection armed one minute before the wrap: its five minutes never end. */
  lemma NeverExpires(t: nat)
    ensures !TestsExpired(ExpiryOf(9_940_000, 300_000), t)
  {
    hide Stamp;
    StampIs(t);
    StampIs(9_940_000);
  }
}
