/** MicroBitPowerManager: counting the ticks of a deep sleep on a 32-bit timer. */
module Sleep {

  const RANGE: nat := 0x1_0000_0000
  const WIDE: nat := 0x1_0000_0000_0000_0000
  const TICKS_PER_MS: nat := 1000
  const TICKS_MAX: nat := 0xFFFF_FFFF - TICKS_PER_MS * 1000
  const LATENESS: nat := 1_000_000   // a wake comes less than this after its compare

  /** Why the processor woke: the timer, so many ticks late; or another interrupt, after so
      many ticks, but no later than the timer would have woken it. */
  datatype Wake = Timer(late: nat) | Other(after: nat)

  ghost predicate Timely(wakes: seq<Wake>)
  {
    forall i :: 0 <= i < |wakes| && wakes[i].Timer? ==> wakes[i].late < LATENESS
  }

  function Slept(w: Wake, remain: nat): nat
  {
    match w
    case Timer(late) => remain + late
    case Other(after) => if after < remain + LATENESS then after else remain + LATENESS - 1
  }

  /** A counter reading after some time, by the reading before. */
  lemma CounterAfter(now: nat, elapsed: nat)
    requires elapsed < RANGE
    ensures var c := now % RANGE;
            && (now + elapsed) % RANGE == (if c + elapsed < RANGE then c + elapsed else c + elapsed - RANGE)
            && (now + elapsed) % RANGE == (c + elapsed) % RANGE
  {}

  lemma CounterWraps(c: int, elapsed: nat)
    requires 0 <= c < RANGE && elapsed < RANGE
    ensures ((if c + elapsed < RANGE then c + elapsed else c + elapsed - RANGE) - c) % RANGE == elapsed
  {}

  /** The difference of two counter readings is the time between them, if that is less than
      the counter's range. */
  lemma CounterDifference(now: nat, elapsed: nat)
    requires elapsed < RANGE
    ensures ((now + elapsed) % RANGE - now % RANGE) % RANGE == elapsed
            == ((now % RANGE + elapsed) % RANGE - now % RANGE) % RANGE
  {
    CounterAfter(now, elapsed);
    CounterWraps(now % RANGE, elapsed);
  }

  const MINIMUM_DEEP_SLEEP_TIME: nat := 100  // milliseconds

  /** canDeepSleep on a timed sleep, at the time of the call. */
  predicate CanDeepSleep(wakeUpTime: nat, now: nat)
  {
    !(wakeUpTime < now || wakeUpTime - now < MINIMUM_DEEP_SLEEP_TIME * 1000)
  }

  /** The 64-bit subtraction that gives the ticks to sleep. */
  function TotalTicks(wakeUpTime: nat, timeEntry: nat, timeStart: nat): nat
  {
    (wakeUpTime - timeEntry - (timeStart - timeEntry) * 2 - 13) % WIDE
  }

  /** It is the intended number exactly if twice the time to power down, and the latency, still
      fit before the wake-up time; otherwise it wraps to an enormous sleep. Given the check at
      entry, all is well if powering down takes less than 50 ms. */
  lemma TotalTicksUnderflow(wakeUpTime: nat, timeEntry: nat, timeChecked: nat, timeStart: nat)
    requires timeEntry <= timeChecked <= timeStart < WIDE && wakeUpTime < WIDE && timeStart - timeEntry < WIDE / 4
    requires CanDeepSleep(wakeUpTime, timeChecked)
    ensures var intended, down := wakeUpTime - timeEntry - (timeStart - timeEntry) * 2 - 13, timeStart - timeEntry;
            && (TotalTicks(wakeUpTime, timeEntry, timeStart) as int == intended <==>
                2 * down + 13 <= wakeUpTime - timeEntry)
            && (TotalTicks(wakeUpTime, timeEntry, timeStart) as int != intended ==>
                down >= 49_994 && TotalTicks(wakeUpTime, timeEntry, timeStart) == intended + WIDE)
  {}

  /** A sleep of the shortest time allowed, after 50 ms spent on powering down. */
  lemma EnormousSleep()
    ensures CanDeepSleep(100_000, 0) && TotalTicks(100_000, 0, 50_000) == WIDE - 13
  {}

  class SystemTimer {
    ghost var now: nat        // ticks since the timer was started
    var counter: nat          // the 32-bit register
    var compare: nat

    ghost predicate Valid()
      reads this
    {
      counter == now % RANGE
    }

    constructor ()
      ensures Valid()
    {
      now, counter, compare := 0, 0, 0;
    }

    method SetCompare(value: nat)
      modifies this`compare
      ensures compare == value % RANGE
    {
      compare := value % RANGE;
    }

    /** The ticks until the counter reaches the compare register. */
    function UntilCompare(): nat
      reads this
    {
      (compare - counter) % RANGE
    }

    /** Sleeps until the next interrupt, while the counter runs on. */
    method WaitForInterrupt(w: Wake)
      requires Valid()
      modifies this`now, this`counter
      ensures Valid() && now == old(now) + Slept(w, old(UntilCompare()))
      ensures var remain := (old(compare) - old(counter)) % 0x1_0000_0000;
              match w
              case Timer(late) => now == old(now) + remain + late
              case Other(after) =>
                now == if after < remain + 1_000_000 then old(now) + after else old(now) + remain + 999_999
    {
      var ticks := Slept(w, UntilCompare());
      counter := (counter + ticks) % RANGE;
      now := now + ticks;
    }
  }

  /** The loop of simpleDeepSleep. tickStart is the counter's reading at the time begun, from
      which the sleep counts; the loop has to be reached before the first compare is due. wakes
      are the interrupts to come; if they run out, the processor is still asleep. */
  method DeepSleep(timer: SystemTimer, tickStart: nat, ghost begun: nat, wakeOnTime: bool, totalTicks: nat,
                   wakes: seq<Wake>)
    returns (sleepTicks: nat, awake: bool, n: nat)
    requires timer.Valid() && Timely(wakes)
    requires tickStart == begun % RANGE && begun <= timer.now <= begun + TICKS_MAX
    requires wakeOnTime && totalTicks > 0 ==> timer.now <= begun + totalTicks
    modifies timer
    ensures timer.Valid() && n <= |wakes| && sleepTicks == if n == 0 then 0 else timer.now - begun
    ensures !awake ==> n == |wakes| && (wakeOnTime ==> sleepTicks < totalTicks)
    ensures forall i :: 0 <= i < n - 1 ==> wakes[i].Timer?
    ensures awake && !wakeOnTime ==> n > 0 && wakes[n - 1].Other?
    ensures awake && wakeOnTime && (forall i :: 0 <= i < n ==> wakes[i].Timer?) ==>
              totalTicks <= sleepTicks && (sleepTicks == 0 || sleepTicks < totalTicks + LATENESS)
    ensures awake <==> (wakeOnTime && sleepTicks >= totalTicks) || (n > 0 && wakes[n - 1].Other?)
  {
    var tick0 := tickStart;
    sleepTicks, n, awake := 0, 0, false;
    ghost var read := begun;  // when the counter read tick0
    while true
      invariant timer.Valid() && tick0 == read % RANGE && sleepTicks == read - begun && begun <= read <= timer.now
      invariant if n == 0 then read == begun && timer.now == old(timer.now) else read == timer.now
      invariant 0 <= n <= |wakes| && forall i :: 0 <= i < n ==> wakes[i].Timer?
      invariant wakeOnTime ==> sleepTicks == 0 || sleepTicks < totalTicks + LATENESS
      decreases |wakes| - n
    {
      var remain := TICKS_MAX;
      if wakeOnTime {
        if sleepTicks >= totalTicks {
          return sleepTicks, true, n;
        }
        var remain64 := totalTicks - sleepTicks;
        remain := if remain64 > TICKS_MAX then TICKS_MAX else remain64;
      }
      timer.SetCompare(tick0 + remain);
      Until(read, timer.now, remain);
      if n == |wakes| {
        return;
      }
      timer.WaitForInterrupt(wakes[n]);
      n := n + 1;
      var tick1 := timer.counter;
      CounterDifference(read, timer.now - read);
      var ticks := (tick1 - tick0) % RANGE;
      read := timer.now;
      tick0 := tick1;
      sleepTicks := sleepTicks + ticks;
      if wakes[n - 1].Other? {
        return sleepTicks, true, n;
      }
    }
  }

  /** How long the counter takes to a compare that was set from an earlier reading. */
  lemma Until(read: nat, now: nat, remain: nat)
    requires read <= now <= read + remain && remain < RANGE
    ensures ((read % RANGE + remain) % RANGE - now % RANGE) % RANGE == read + remain - now
  {
    CounterAfter(read, remain);
    CounterDifference(now, read + remain - now);
  }
}
