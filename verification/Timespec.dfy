/** Deadlines in seconds and nanoseconds: lib/mysql/my_global.h, with struct timespec available and
    an 8-byte time_t (lib/mysql/my_config.h). */
module Timespec {
  import opened Basics

  const NANOS := 1_000_000_000
  const TICKS := 10_000_000

  datatype TimeValue = TimeValue(sec: int, nsec: int)

  class Timespec {
    var tvSec: int
    var tvNsec: int

    constructor (sec: int, nsec: int)
      ensures tvSec == sec && tvNsec == nsec
    {
      tvSec, tvNsec := sec, nsec;
    }

    function Get(): TimeValue
      reads this
    {
      TimeValue(tvSec, tvNsec)
    }
  }

  /** Total nanoseconds. */
  function Total(t: TimeValue): int {
    t.sec * NANOS + t.nsec
  }

  predicate Normalised(t: TimeValue) {
    0 <= t.nsec < NANOS
  }

  /** The clock counts 100 ns ticks; all arithmetic is on 64-bit unsigned integers. */
  function Deadline(systime: nat, nsec: nat): TimeValue {
    var now := (systime + nsec / 100) % TWO64;
    TimeValue(now / TICKS, (now % TICKS) * 100 + nsec % 100)
  }

  /** set_timespec_nsec; `systime` is what my_getsystime returned. */
  method SetTimespecNsec(abstime: Timespec, systime: nat, nsec: nat)
    requires systime < TWO64 && nsec < TWO64
    modifies abstime
    ensures abstime.Get() == Deadline(systime, nsec)
    ensures Normalised(abstime.Get())
    ensures Total(abstime.Get()) == 100 * systime + nsec - if systime + nsec / 100 < TWO64 then 0 else 100 * TWO64
  {
    DeadlineIsExactIff(systime, nsec);
    var now := (systime + nsec / 100) % TWO64;
    var tvSec := now / TICKS;
    abstime.tvSec := tvSec;
    abstime.tvNsec := (now % TICKS) * 100 + nsec % 100;
  }

  /** set_timespec: whole seconds; the product wraps. */
  method SetTimespec(abstime: Timespec, systime: nat, sec: nat)
    requires systime < TWO64 && sec < TWO64
    modifies abstime
    ensures abstime.Get() == Deadline(systime, (sec * NANOS) % TWO64)
  {
    SetTimespecNsec(abstime, systime, (sec * NANOS) % TWO64);
  }

  /** cmp_timespec. */
  function Cmp(a: TimeValue, b: TimeValue): int {
    if a.sec > b.sec || (a.sec == b.sec && a.nsec > b.nsec) then 1
    else if a.sec < b.sec || (a.sec == b.sec && a.nsec < b.nsec) then -1
    else 0
  }

  /** diff_timespec: everything is converted to 64-bit unsigned. */
  function Diff(a: TimeValue, b: TimeValue): nat {
    ((a.sec - b.sec) * NANOS + a.nsec - b.nsec) % TWO64
  }

  method CmpTimespec(a: Timespec, b: Timespec) returns (r: int)
    ensures r == Cmp(a.Get(), b.Get())
    ensures Normalised(a.Get()) && Normalised(b.Get()) ==>
              && (r == 1 <==> Total(a.Get()) > Total(b.Get()))
              && (r == 0 <==> Total(a.Get()) == Total(b.Get()))
              && (r == -1 <==> Total(a.Get()) < Total(b.Get()))
  {
    if a.tvSec > b.tvSec || (a.tvSec == b.tvSec && a.tvNsec > b.tvNsec) {
      return 1;
    }
    if a.tvSec < b.tvSec || (a.tvSec == b.tvSec && a.tvNsec < b.tvNsec) {
      return -1;
    }
    return 0;
  }

  /** A deadline is always normalised, and it is the clock plus the offset to the nanosecond exactly
      when the tick sum does not overflow; on overflow it is short by 2^64 ticks. */
  lemma DeadlineIsExactIff(systime: nat, nsec: nat)
    requires systime < TWO64 && nsec < TWO64
    ensures Normalised(Deadline(systime, nsec))
    ensures Total(Deadline(systime, nsec)) == 100 * systime + nsec <==> systime + nsec / 100 < TWO64
    ensures systime + nsec / 100 >= TWO64 ==> Total(Deadline(systime, nsec)) == 100 * systime + nsec - 100 * TWO64
  {
    var ticks := systime + nsec / 100;
    var now := ticks % TWO64;
    assert now == if ticks < TWO64 then ticks else ticks - TWO64;
    assert nsec == 100 * (nsec / 100) + nsec % 100;
    assert now == TICKS * (now / TICKS) + now % TICKS;
  }

  /** On normalised values the comparison is the order of the totals. */
  lemma CmpIsTotalOrder(a: TimeValue, b: TimeValue)
    requires Normalised(a) && Normalised(b)
    ensures Cmp(a, b) == 1 <==> Total(a) > Total(b)
    ensures Cmp(a, b) == -1 <==> Total(a) < Total(b)
    ensures Cmp(a, b) == 0 <==> a == b
  {
  }

  lemma DiffIsTotalDifference(a: TimeValue, b: TimeValue)
    ensures Diff(a, b) == (Total(a) - Total(b)) % TWO64
  {
  }

  /** Two deadlines set from one clock value differ by the difference of their offsets modulo 2^64,
      even when a tick sum overflows.  They compare like their offsets exactly when both tick sums
      overflow or neither does; otherwise the one that overflows is the earlier one. */
  lemma DeadlinesFromOneClock(systime: nat, m: nat, n: nat)
    requires systime < TWO64 && m < TWO64 && n < TWO64
    ensures var a, b := Deadline(systime, m), Deadline(systime, n);
            && Diff(a, b) == (m - n) % TWO64
            && ((Cmp(a, b) == 1 <==> m > n) && (Cmp(a, b) == -1 <==> m < n)
                <==> (systime + m / 100 < TWO64 <==> systime + n / 100 < TWO64))
            && (systime + m / 100 >= TWO64 > systime + n / 100 ==> m > n && Cmp(a, b) == -1)
  {
    var a, b := Deadline(systime, m), Deadline(systime, n);
    DeadlineIsExactIff(systime, m);
    DeadlineIsExactIff(systime, n);
    CmpIsTotalOrder(a, b);
    DiffIsTotalDifference(a, b);
  }

  /** Whole-second deadlines are exact exactly when neither the product nor the tick sum overflows. */
  lemma SecondsAreExactIff(systime: nat, sec: nat)
    requires systime < TWO64 && sec < TWO64
    ensures Total(Deadline(systime, (sec * NANOS) % TWO64)) == 100 * systime + sec * NANOS
            <==> sec * NANOS < TWO64 && systime + sec * TICKS < TWO64
  {
    var nanos := sec * NANOS;
    assert nanos / 100 == sec * TICKS;
    assert nanos % TWO64 <= nanos && (nanos % TWO64 == nanos <==> nanos < TWO64);
    DeadlineIsExactIff(systime, nanos % TWO64);
  }
}
