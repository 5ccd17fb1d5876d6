/** The expiry test of src/ntable.c in 32-bit arithmetic, against the time that really passed. */
module BprdExpiry {
  import opened Basics

  /** struct timeval */
  datatype Time = Time(sec: int, usec: int)

  function Micros(t: Time): int { t.sec * 1000000 + t.usec }

  /** The two assignments to elapsed, a uint32_t, in cond_n_expired. */
  function Elapsed(now: Time, seen: Time): (e: nat)
    ensures e < WRAP
  {
    var e := ((now.sec - seen.sec) * 1000000) % WRAP;
    (e + (now.usec - seen.usec)) % WRAP
  }

  /** cond_n_expired */
  predicate Expired(now: Time, seen: Time, timeout: nat) {
    Elapsed(now, seen) > timeout
  }

  /** The time that passed, as the clock tells it. */
  function Passed(now: Time, seen: Time): int { Micros(now) - Micros(seen) }

  lemma {:induction false} ModAgain(x: int, y: int)
    ensures (x % WRAP + y) % WRAP == (x + y) % WRAP
  {
    var q := x / WRAP;
    assert x == q * WRAP + x % WRAP;
    ModShift(x % WRAP + y, q);
  }

  lemma {:induction false} ModShift(z: int, q: int)
    ensures (z + q * WRAP) % WRAP == z % WRAP
    decreases if q >= 0 then q else -q
  {
    if q > 0 {
      ModShift(z, q - 1);
    } else if q < 0 {
      ModShift(z, q + 1);
    }
  }

  /** The 32-bit arithmetic computes the passed time modulo 2^32. */
  lemma {:induction false} ElapsedIsPassed(now: Time, seen: Time)
    ensures Elapsed(now, seen) == Passed(now, seen) % WRAP
  {
    ModAgain((now.sec - seen.sec) * 1000000, now.usec - seen.usec);
  }

  /** The test tells the truth if and only if the elapsed time fits 32 bits or wraps around to the
      right answer; a clock that was set back counts as wrapped. */
  lemma {:induction false} ExpiredExactly(now: Time, seen: Time, timeout: nat)
    requires timeout < WRAP
    ensures (Expired(now, seen, timeout) <==> Passed(now, seen) > timeout)
       <==> if Passed(now, seen) < 0 then Passed(now, seen) % WRAP <= timeout
            else Passed(now, seen) < WRAP || Passed(now, seen) % WRAP > timeout
  {
    ElapsedIsPassed(now, seen);
  }

  /** In particular it is right for 71 minutes. */
  lemma {:induction false} ExpiredInTime(now: Time, seen: Time, timeout: nat)
    requires 0 <= Passed(now, seen) < WRAP
    ensures Expired(now, seen, timeout) <==> Passed(now, seen) > timeout
  {
    ElapsedIsPassed(now, seen);
  }

  /** Microseconds in their range. */
  predicate Normal(t: Time) { 0 <= t.usec < 1000000 }

  /** 2^32 microseconds after seen. */
  function WrapLater(seen: Time): Time {
    if seen.usec < 32704 then Time(seen.sec + 4294, seen.usec + 967296) else Time(seen.sec + 4295, seen.usec - 32704)
  }

  /** A neighbour heard 2^32 microseconds ago looks as fresh as one heard just now, for every timeout. */
  lemma {:induction false} StaleLooksFresh(seen: Time, timeout: nat)
    requires Normal(seen)
    ensures var now := WrapLater(seen);
            Normal(now) && Passed(now, seen) == WRAP && !Expired(now, seen, timeout)
  {
    ElapsedIsPassed(WrapLater(seen), seen);
  }
}
