/** The clock arithmetic of transfer timeouts: deadlines in microseconds cut from a nanosecond clock,
    whose microsecond part may be exactly one million. */
module Timeouts {

  const NS_PER_SEC := 1_000_000_000
  const US_PER_SEC := 1_000_000
  const INT_MAX := 0x7FFF_FFFF

  datatype TimeSpec = TimeSpec(sec: int, nsec: int)
  {
    predicate Ok() { 0 <= sec && 0 <= nsec < NS_PER_SEC }
    function Ns(): int { sec * NS_PER_SEC + nsec }
  }

  datatype TimeVal = TimeVal(sec: int, usec: int)
  {
    /** What a deadline may be: its microseconds may come to a whole second. */
    predicate Almost() { 0 <= sec && 0 <= usec <= US_PER_SEC }

    /** timerisset: an all-zero deadline stands for an infinite timeout. */
    predicate IsSet() { sec != 0 || usec != 0 }
    function Us(): int { sec * US_PER_SEC + usec }
  }

  /** TIMESPEC_TO_TIMEVAL. */
  function ToTimeVal(ts: TimeSpec): TimeVal { TimeVal(ts.sec, ts.nsec / 1000) }

  /** calculate_timeout for a finite timeout in milliseconds. */
  function Deadline(now: TimeSpec, timeout: nat): TimeVal {
    var sec, nsec := now.sec + timeout / 1000, now.nsec + timeout % 1000 * 1_000_000;
    if nsec > 1_000_000_000 then ToTimeVal(TimeSpec(sec + 1, nsec - 1_000_000_000))
    else ToTimeVal(TimeSpec(sec, nsec))
  }

  /** The comparison the list code makes: seconds first, then microseconds. */
  predicate After(a: TimeVal, b: TimeVal) {
    a.sec > b.sec || (a.sec == b.sec && a.usec > b.usec)
  }

  predicate Expired(deadline: TimeVal, now: TimeSpec) {
    !After(deadline, ToTimeVal(now))
  }

  /** A finite deadline is the due time rounded down to a microsecond, and it is never all zero. */
  lemma DeadlineIsDueTime(now: TimeSpec, timeout: nat)
    requires now.Ok() && timeout > 0
    ensures var d := Deadline(now, timeout);
            d.Almost() && d.IsSet() && d.Us() == (now.Ns() + timeout * 1_000_000) / 1000
  {
    var d := Deadline(now, timeout);
    var nsec := now.nsec + timeout % 1000 * 1_000_000;
    assert timeout * 1_000_000 == timeout / 1000 * NS_PER_SEC + timeout % 1000 * 1_000_000;
    assert now.Ns() + timeout * 1_000_000 == (now.sec + timeout / 1000) * NS_PER_SEC + nsec;
    assert (now.sec + timeout / 1000) * NS_PER_SEC == (now.sec + timeout / 1000) * US_PER_SEC * 1000;
  }

  /** A microsecond part of one million does occur: the carry test lets exactly one second through, and nothing
      else. */
  lemma FullSecondIsNotCarried(now: TimeSpec, timeout: nat)
    requires now.Ok()
    ensures Deadline(now, timeout).usec == 1_000_000 <==> now.nsec + timeout % 1000 * 1_000_000 == 1_000_000_000
    ensures Deadline(TimeSpec(5, 0), 1000) == TimeVal(6, 0)
    ensures Deadline(TimeSpec(5, 1_000_000), 999) == TimeVal(5, 1_000_000)
  {
  }

  /** Even so the lexicographic order agrees with real time: it never contradicts it, and it separates two
      deadlines of the same instant only if one is the uncarried form of the other. */
  lemma OrderAgreesWithTime(a: TimeVal, b: TimeVal)
    requires a.Almost() && b.Almost()
    ensures a.Us() < b.Us() ==> After(b, a)
    ensures After(b, a) ==> a.Us() <= b.Us()
    ensures After(b, a) && a.Us() == b.Us() <==> a.usec == US_PER_SEC && b == TimeVal(a.sec + 1, 0)
  {
  }

  /** Against the clock there is no ambiguity at all. */
  lemma ExpiryIsExact(deadline: TimeVal, now: TimeSpec)
    requires deadline.Almost() && now.Ok()
    ensures Expired(deadline, now) <==> deadline.Us() <= now.Ns() / 1000
  {
    assert now.Ns() / 1000 == ToTimeVal(now).Us();
    OrderAgreesWithTime(deadline, ToTimeVal(now));
    OrderAgreesWithTime(ToTimeVal(now), deadline);
  }

  /** Main result: a transfer is never timed out a microsecond or more before its time, and always from
      its time on. */
  lemma NeverEarlyNeverMissed(submitted: TimeSpec, timeout: nat, now: TimeSpec)
    requires submitted.Ok() && now.Ok() && timeout > 0
    ensures var (due, d) := (submitted.Ns() + timeout * 1_000_000, Deadline(submitted, timeout));
            && (Expired(d, now) ==> due - now.Ns() < 1000)
            && (due <= now.Ns() ==> Expired(d, now))
  {
    DeadlineIsDueTime(submitted, timeout);
    ExpiryIsExact(Deadline(submitted, timeout), now);
    hide Deadline, Expired;
  }

  // ---- how long to poll ----

  /** timercmp(a, b, <). */
  predicate TimerLess(a: TimeVal, b: TimeVal) {
    if a.sec == b.sec then a.usec < b.usec else a.sec < b.sec
  }

  /** timersub. */
  function TimerSub(a: TimeVal, b: TimeVal): TimeVal {
    if a.usec - b.usec < 0 then TimeVal(a.sec - b.sec - 1, a.usec - b.usec + US_PER_SEC)
    else TimeVal(a.sec - b.sec, a.usec - b.usec)
  }

  /** Of proper times the difference is a proper time. */
  lemma TimerSubIsProper(a: TimeVal, b: TimeVal)
    requires 0 <= a.usec < 1_000_000 && 0 <= b.usec < 1_000_000
    ensures TimerSub(a, b).Us() == a.Us() - b.Us() && 0 <= TimerSub(a, b).usec < 1_000_000
    ensures TimerLess(a, b) <==> a.Us() < b.Us()
  {
  }

  /** The time from now to a deadline; zero if it has expired. */
  function Remaining(deadline: TimeVal, now: TimeSpec): TimeVal {
    if !TimerLess(ToTimeVal(now), deadline) then TimeVal(0, 0) else TimerSub(deadline, ToTimeVal(now))
  }

  lemma RemainingIsDifference(deadline: TimeVal, now: TimeSpec)
    requires deadline.Almost() && now.Ok()
    ensures var r := Remaining(deadline, now);
            && r.Almost()
            && (Expired(deadline, now) <==> !r.IsSet())
            && (!Expired(deadline, now) ==> r.Us() == deadline.Us() - now.Ns() / 1000 > 0)
  {
    assert now.Ns() / 1000 == ToTimeVal(now).Us();
  }

  /** The poll timeout in milliseconds, rounded up; the assignment to an int may wrap. */
  function PollMs(tv: TimeVal): int {
    tv.sec * 1000 + tv.usec / 1000 + if tv.usec % 1000 != 0 then 1 else 0
  }

  function ToInt32(x: int): int {
    var r := x % 0x1_0000_0000;
    if r > INT_MAX then r - 0x1_0000_0000 else r
  }

  /** An int has 32 bits: what does not fit wraps. */
  lemma Int32Wraps(x: int)
    ensures -0x8000_0000 <= ToInt32(x) <= 0x7FFF_FFFF && (x - ToInt32(x)) % 0x1_0000_0000 == 0
  {
    var r := x % 0x1_0000_0000;
    assert x - r == x / 0x1_0000_0000 * 0x1_0000_0000;
    Multiple(x / 0x1_0000_0000);
    Multiple(x / 0x1_0000_0000 + 1);
  }

  lemma Multiple(k: int)
    ensures k * 0x1_0000_0000 % 0x1_0000_0000 == 0
  {
  }

  /** Rounding up costs less than a millisecond. */
  lemma PollMsRoundsUp(tv: TimeVal)
    requires tv.Almost()
    ensures 0 <= PollMs(tv) * 1000 - tv.Us() < 1000
  {
  }

  /** Main result: polling for the rounded-up remaining time always reaches the deadline, and overshoots
      the remaining time by less than a millisecond. */
  lemma SleepReachesDeadline(deadline: TimeVal, now: TimeSpec, later: TimeSpec)
    requires deadline.Almost() && now.Ok() && later.Ok() && !Expired(deadline, now)
    requires later.Ns() >= now.Ns() + PollMs(Remaining(deadline, now)) * 1_000_000
    ensures Expired(deadline, later)
    ensures PollMs(Remaining(deadline, now)) * 1000 < deadline.Us() - now.Ns() / 1000 + 1000
  {
    var ms := PollMs(Remaining(deadline, now));
    RemainingIsDifference(deadline, now);
    PollMsRoundsUp(Remaining(deadline, now));
    ExpiryIsExact(deadline, later);
    hide Remaining, PollMs, Expired;
    assert (now.Ns() + ms * 1_000_000) / 1000 == now.Ns() / 1000 + ms * 1000;
  }

  /** The int that is passed to poll is the wait that was computed exactly if that is at most as many
      milliseconds as an int can hold. */
  lemma PollTimeoutFitsIff(tv: TimeVal)
    requires tv.Almost()
    ensures ToInt32(PollMs(tv)) == PollMs(tv) <==> tv.Us() <= 2_147_483_647 * 1000
  {
    PollMsRoundsUp(tv);
  }

  /** A wait of a month overflows, and poll is then told to wait for ever. */
  lemma LongWaitOverflows()
    ensures ToInt32(PollMs(TimeVal(2_592_000, 0))) < 0
  {
  }

  /** get_next_timeout, when no deadline has expired: the smaller of the time to the next deadline and the
      caller's limit. */
  function ChooseWait(next: TimeVal, limit: TimeVal): TimeVal {
    if TimerLess(next, limit) then next else limit
  }

  /** It is the smaller one in time, too. */
  lemma WaitIsSmaller(next: TimeVal, limit: TimeVal)
    requires next.Almost() && limit.Almost()
    ensures var w := ChooseWait(next, limit);
            && (w == next || w == limit)
            && w.Us() == if next.Us() < limit.Us() then next.Us() else limit.Us()
  {
  }

  /** libusb_handle_events limits every wait to sixty seconds, which always fits. */
  lemma DefaultWaitFits(next: TimeVal)
    requires next.Almost()
    ensures var w := ChooseWait(next, TimeVal(60, 0));
            && w.Almost() && ToInt32(PollMs(w)) == PollMs(w)
            && w.Us() == if next.Us() < 60_000_000 then next.Us() else 60_000_000
  {
    var w := ChooseWait(next, TimeVal(60, 0));
    PollMsRoundsUp(w);
    PollTimeoutFitsIff(w);
  }

  /** The absolute time up to which libusb_wait_for_event sleeps, by the same carry test. */
  function WaitUntil(now: TimeSpec, tv: TimeVal): TimeSpec {
    var sec, nsec := now.sec + tv.sec, now.nsec + tv.usec * 1000;
    if nsec > 1_000_000_000 then TimeSpec(sec + 1, nsec - 1_000_000_000) else TimeSpec(sec, nsec)
  }

  /** Here the carry test matters: a condition wait rejects a nanosecond part of a whole second, and that is
      what it is given exactly if the parts add up to one. The instant itself is always right. */
  lemma WaitUntilIsValidIff(now: TimeSpec, tv: TimeVal)
    requires now.Ok() && tv.Almost()
    ensures WaitUntil(now, tv).Ok() <==> now.nsec + tv.usec * 1000 != NS_PER_SEC
    ensures WaitUntil(now, tv).Ns() == now.Ns() + tv.Us() * 1000
  {
  }

  lemma HalfAndHalfIsRejected()
    ensures WaitUntil(TimeSpec(7, 500_000_000), TimeVal(0, 500_000)) == TimeSpec(7, 1_000_000_000)
  {
  }
}
