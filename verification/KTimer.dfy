/** The kernel timer queues and the one hardware timer behind them. */
module KTimer {
  import opened Options

  const MAX_TIME: int := 0x7FFF_FFFF_FFFF_FFFF

  // ----- one timer -----

  /** A timer's fields, and how often its action has run. */
  datatype Setting = Setting(value: int, interval: int, armed: bool, fired: nat)

  /** The first deadline of the period after now. */
  ghost predicate FirstBeyond(value: int, interval: int, now: int, next: int) {
    next - interval <= now < next && exists k: nat :: k > 0 && next == value + k * interval
  }

  /** What one traversal does to a timer: an expired one runs once and moves to its first deadline after now, or is
      disarmed when it has no period. */
  ghost predicate Stepped(s: Setting, s': Setting, now: int, action: bool) {
    if s.armed && s.value <= now then
      && s'.interval == s.interval && s'.fired == s.fired + (if action then 1 else 0)
      && (if s.interval > 0 then s'.armed && FirstBeyond(s.value, s.interval, now, s'.value)
          else !s'.armed && s'.value == s.value)
    else s' == s
  }

  ghost predicate Periods(s: Setting, s': Setting, action: bool, now: int, k: nat) {
    && s'.value == s.value + k * s.interval && (k > 0 ==> s'.value - s.interval <= now)
    && (if action then s.fired <= s'.fired <= s.fired + k && (k > 0 ==> s'.fired > s.fired) else s'.fired == s.fired)
  }

  /** What any number of traversals up to now do: nothing runs before its deadline, a periodic timer stays armed and on
      its grid, a one-shot runs at most once, and the action ran for as many deadlines as passed at most, at least once
      if one passed. */
  ghost predicate Ran(s: Setting, s': Setting, action: bool, now: int) {
    && s'.interval == s.interval
    && (if !s.armed then s' == s
        else if s.interval > 0 then s'.armed && exists k: nat :: Periods(s, s', action, now, k)
        else s' == s || (s.value <= now && s' == s.(armed := false, fired := s.fired + (if action then 1 else 0))))
  }

  lemma FirstBeyondUnique(value: int, interval: int, now: int, x: int, y: int)
    requires interval > 0 && FirstBeyond(value, interval, now, x) && FirstBeyond(value, interval, now, y)
    ensures x == y
  {
    var j: nat :| j > 0 && x == value + j * interval;
    var k: nat :| k > 0 && y == value + k * interval;
    if j < k {
      MulAtLeast(k - j, interval);
    } else if k < j {
      MulAtLeast(j - k, interval);
    }
  }

  lemma MulAtLeast(d: int, n: int)
    requires d >= 1 && n >= 0
    ensures d * n >= n
  {}

  lemma SteppedIsRan(s: Setting, s': Setting, now: int, action: bool)
    requires Stepped(s, s', now, action)
    ensures Ran(s, s', action, now)
  {
    if s.armed && s.interval > 0 && s.value > now {
      assert Periods(s, s', action, now, 0);
    } else if s.armed && s.interval > 0 {
      var k: nat :| k > 0 && s'.value == s.value + k * s.interval;
      assert Periods(s, s', action, now, k);
    }
  }

  lemma RanTrans(s: Setting, s1: Setting, s2: Setting, action: bool, now1: int, now2: int)
    requires Ran(s, s1, action, now1) && Ran(s1, s2, action, now2) && now1 <= now2
    ensures Ran(s, s2, action, now2)
  {
    if s.armed && s.interval > 0 {
      var j: nat :| Periods(s, s1, action, now1, j);
      var k: nat :| Periods(s1, s2, action, now2, k);
      assert Periods(s, s2, action, now2, j + k);
    }
  }

  lemma RanRefl(s: Setting, action: bool, now: int)
    ensures Ran(s, s, action, now)
  {
    assert Periods(s, s, action, now, 0);
  }

  /** The deadline a timer has after a traversal at now, if it is still armed. */
  function DeadlineAfter(s: Setting, now: int): Option<int> {
    if !s.armed then None
    else if s.value > now then Some(s.value)
    else if s.interval > 0 then Some(s.value + ((now - s.value) / s.interval + 1) * s.interval)
    else None
  }

  lemma SteppedDeadline(s: Setting, s': Setting, now: int, action: bool)
    requires Stepped(s, s', now, action)
    ensures if s'.armed then DeadlineAfter(s, now) == Some(s'.value) else DeadlineAfter(s, now).None?
  {
    if s.armed && s.value <= now && s.interval > 0 {
      var q := (now - s.value) / s.interval;
      Periodic(s.value, s.interval, now);
      assert FirstBeyond(s.value, s.interval, now, s.value + (q + 1) * s.interval);
      FirstBeyondUnique(s.value, s.interval, now, s'.value, s.value + (q + 1) * s.interval);
    }
  }

  lemma Periodic(value: int, interval: int, now: int)
    requires interval > 0 && value <= now
    ensures var q := (now - value) / interval;
            q >= 0 && value + (q + 1) * interval - interval <= now < value + (q + 1) * interval
  {
    var q := (now - value) / interval;
    assert now - value == q * interval + (now - value) % interval;
    assert (q + 1) * interval == q * interval + interval;
  }

  /** The least deadline of all after a traversal at now, the largest time when there is none. */
  function LeastAfter(ss: seq<Setting>, now: int): int {
    if ss == [] then MAX_TIME
    else
      var r := LeastAfter(ss[..|ss| - 1], now);
      var d := DeadlineAfter(ss[|ss| - 1], now);
      if d.Some? && d.value < r then d.value else r
  }

  lemma {:induction false} LeastAppend(a: seq<Setting>, b: seq<Setting>, now: int)
    ensures LeastAfter(a + b, now) == var x, y := LeastAfter(a, now), LeastAfter(b, now); if y < x then y else x
    decreases |b|
  {
    if b == [] {
      assert a + b == a;
      LeastBound(a, now);
    } else {
      LeastAppend(a, b[..|b| - 1], now);
      assert (a + b)[..|a + b| - 1] == a + b[..|b| - 1];
    }
  }

  lemma {:induction false} LeastBound(ss: seq<Setting>, now: int)
    ensures LeastAfter(ss, now) <= MAX_TIME
  {
    if ss != [] { LeastBound(ss[..|ss| - 1], now); }
  }

  lemma NoTimers(now: int)
    ensures LeastAfter([], now) == MAX_TIME
  {}

  lemma LeastStep(ss: seq<Setting>, i: nat, now: int)
    requires i < |ss|
    ensures LeastAfter(ss[..i + 1], now) == var r, d := LeastAfter(ss[..i], now), DeadlineAfter(ss[i], now);
                                            if d.Some? && d.value < r then d.value else r
  {
    assert ss[..i + 1][..i] == ss[..i];
  }

  class Timer {
    var value: int
    var interval: int
    var armed: bool          // KTIMER_ARMED
    const action: bool       // there is an action to run
    ghost var fired: nat

    ghost function Get(): Setting
      reads this
    {
      Setting(value, interval, armed, fired)
    }

    constructor (action: bool)
      ensures !armed && this.action == action && fired == 0
    {
      value, interval, armed, fired := 0, 0, false, 0;
      this.action := action;
    }

    /** The body of the traversal for one timer. */
    method Step(now: int)
      modifies this
      ensures Stepped(old(Get()), Get(), now, action)
      ensures armed ==> value > now
    {
      if armed && value <= now {
        if action { fired := fired + 1; }
        if interval > 0 {
          ghost var k: nat := 1;
          value := value + interval;
          while value <= now
            invariant k > 0 && value == old(value) + k * interval && value - interval <= now
            invariant interval == old(interval) && armed && fired == old(fired) + (if action then 1 else 0)
            decreases now - value
          {
            value := value + interval;
            k := k + 1;
          }
        } else {
          armed := false;
        }
      }
    }
  }

  // ----- a queue -----

  predicate Distinct(q: seq<Timer>) {
    forall i, j :: 0 <= i < j < |q| ==> q[i] != q[j]
  }

  /** The least armed deadline, the largest time when there is none. */
  ghost predicate IsLeast(q: seq<Timer>, next: int)
    reads q
  {
    && next <= MAX_TIME
    && (forall t <- q :: t.armed ==> next <= t.value)
    && (next == MAX_TIME || exists t <- q :: t.armed && t.value == next)
  }

  ghost function Settings(q: seq<Timer>): seq<Setting>
    reads q
  {
    seq(|q|, i requires 0 <= i < |q| reads q => q[i].Get())
  }

  method TraverseKTimerQueue(q: seq<Timer>, now: int) returns (next: int)
    requires Distinct(q) && now < MAX_TIME
    modifies set t | t in q
    ensures forall t <- q :: Stepped(old(t.Get()), t.Get(), now, t.action)
    ensures forall t <- q :: t.armed ==> t.value > now
    ensures IsLeast(q, next) && next > now && next == LeastAfter(old(Settings(q)), now)
  {
    hide Stepped, DeadlineAfter, LeastAfter;
    ghost var ss := Settings(q);
    NoTimers(now);
    next := MAX_TIME;
    for i := 0 to |q|
      invariant forall t <- q[..i] :: Stepped(old(t.Get()), t.Get(), now, t.action) && (t.armed ==> t.value > now)
      invariant forall t <- q[i..] :: t.Get() == old(t.Get())
      invariant IsLeast(q[..i], next) && next > now && next == LeastAfter(ss[..i], now)
    {
      var t := q[i];
      t.Step(now);
      SteppedDeadline(old(t.Get()), t.Get(), now, t.action);
      LeastStep(ss, i, now);
      assert ss[i] == old(t.Get());
      if t.armed && t.value < next {
        next := t.value;
      }
    }
    assert ss[..|q|] == ss;
  }

  // ----- the hardware timer -----

  function Max(x: int, y: int): int { if x > y then x else y }

  class Thread {
    const guest: bool            // false for the idle thread
    const timers: seq<Timer>     // localActiveKTimers

    constructor (guest: bool, timers: seq<Timer>)
      ensures this.guest == guest && this.timers == timers
    {
      this.guest, this.timers := guest, timers;
    }
  }

  class LocalTime {
    var valid: bool              // NEXT_ACT_IS_VALID
    var nextAct: int
    var alarm: int               // when the hardware timer was last told to fire
    var clock: seq<int>          // the readings GetSysClockUsec has still to give
    var current: Thread          // cKThread
    const global: seq<Timer>     // globalActiveKTimers
    const minInterval: int
    const maxInterval: int
    ghost var programmed: int    // the time the hardware timer was last programmed
    ghost var now: int           // the last reading

    constructor (global: seq<Timer>, idle: Thread, minInterval: int, maxInterval: int, clock: seq<int>)
      ensures this.global == global && current == idle && !valid && this.clock == clock && programmed == now == 0
      ensures this.minInterval == minInterval && this.maxInterval == maxInterval
    {
      this.global, current, this.minInterval, this.maxInterval := global, idle, minInterval, maxInterval;
      valid, nextAct, alarm, this.clock, programmed, now := false, 0, 0, clock, 0, 0;
    }

    /** The timers an interrupt looks at now. */
    ghost function Active(): seq<Timer>
      reads this
    {
      global + (if current.guest then current.timers else [])
    }

    /** The clock does not go back and stays within the time type; no two queue entries are the same timer. */
    ghost predicate Valid()
      reads this
    {
      && 0 < minInterval <= maxInterval && 0 <= programmed <= now < MAX_TIME
      && (forall i :: 0 <= i < |clock| ==> now <= clock[i] < MAX_TIME)
      && (forall i, j :: 0 <= i < j < |clock| ==> clock[i] <= clock[j])
      && Distinct(global + current.timers)
    }

    /** While the next activation is valid it is what the hardware was told. */
    ghost predicate Programmed()
      reads this
    {
      valid ==> alarm == nextAct && programmed + minInterval <= nextAct <= programmed + maxInterval
    }

    /** The hardware fires in time for a deadline, or as soon after the last programming as it can. */
    ghost predicate InTime(deadline: int)
      reads this
    {
      valid && nextAct <= Max(deadline, programmed + minInterval)
    }

    /** An interval the hardware can count. */
    function Clamp(interval: int): int {
      if interval > maxInterval then maxInterval else if interval < minInterval then minInterval else interval
    }

    /** The hardware was programmed for the least deadline of the active timers. */
    ghost predicate Exact()
      reads this, Active()
    {
      valid && exists d :: IsLeast(Active(), d) && d >= programmed && nextAct == programmed + Clamp(d - programmed)
    }

    /** Every active armed timer with a positive deadline is served in time. */
    ghost predicate Covered()
      reads this, Active()
    {
      forall t <- Active() :: t.armed && t.value > 0 ==> InTime(t.value)
    }

    method GetSysClockUsec() returns (ok: bool, time: int)
      requires Valid()
      modifies `clock, `now
      ensures Valid() && ok == (old(clock) != [])
      ensures if ok then time == now == old(clock)[0] && clock == old(clock)[1..] else clock == [] && now == old(now)
    {
      ok, time := clock != [], 0;
      if ok {
        time := clock[0];
        clock := clock[1..];
        now := time;
      }
    }

    /** Programming the hardware for an interval from now. */
    method Program(interval: int, cTime: int)
      requires 0 < minInterval <= maxInterval && interval >= 0
      modifies `nextAct, `alarm, `programmed
      ensures programmed == cTime && alarm == nextAct == cTime + Clamp(interval)
      ensures cTime + minInterval <= nextAct <= cTime + maxInterval
      ensures nextAct <= Max(cTime + interval, cTime + minInterval)
    {
      var nextTime := interval;
      if nextTime < minInterval { nextTime := minInterval; }
      if nextTime > maxInterval { nextTime := maxInterval; }
      nextAct := nextTime + cTime;
      alarm, programmed := nextAct, cTime;
    }

    /** SetHwTimer. The clock may run out before the call returns: then it is not done. It is late when the deadline
        passed before the hardware could be programmed, and the timers were looked at again. */
    method SetHwTimer(next: int) returns (done: bool, late: bool)
      requires Valid() && Programmed() && next >= 0
      requires forall t <- Active() :: t.armed && t.value > 0 ==> InTime(t.value) || 0 < next <= t.value
      modifies `valid, `nextAct, `alarm, `clock, `programmed, `now, (set t | t in Active())
      ensures Valid() && programmed >= old(programmed) && now >= old(now)
      ensures forall t <- Active() ::
                if late then Ran(old(t.Get()), t.Get(), t.action, now) else t.Get() == old(t.Get())
      ensures done ==> Programmed() && Covered()
      ensures done && !late && next > 0 ==> InTime(next)
      ensures next == 0 || (old(valid) && next >= old(nextAct)) ==>
                && done && !late && clock == old(clock) && programmed == old(programmed) && now == old(now)
                && valid == old(valid) && nextAct == old(nextAct) && alarm == old(alarm)
      ensures next > 0 && !(old(valid) && next >= old(nextAct)) ==>
                if old(clock) == [] then !done else
                  && (late <==> old(clock)[0] > next)
                  && (!late ==> done && valid && programmed == now == old(clock)[0] && clock == old(clock)[1..]
                                && nextAct == programmed + Clamp(next - programmed))
      ensures done && late ==> old(now) <= programmed && next < programmed && Exact()
      ensures late && old(|clock|) >= 3 ==>
                var d := LeastAfter(old(Settings(Active())), old(clock)[1]);
                old(clock)[2] <= d ==>
                  && done && programmed == now == old(clock)[2] && clock == old(clock)[3..]
                  && nextAct == programmed + Clamp(d - programmed)
      decreases |clock|, 0
    {
      hide Ran, Stepped, Distinct, Clamp, LeastAfter, Settings, IsLeast;
      if next == 0 || (valid && next >= nextAct) {
        return true, false;
      }
      valid, nextAct := true, next;
      var ok, cTime := GetSysClockUsec();
      if !ok { return false, false; }
      if next >= cTime {
        Program(next - cTime, cTime);
        return true, false;
      }
      late := true;
      done := TimerHandler();
    }

    /** The global queue and then the current thread's. */
    method TraverseActive(cTime: int) returns (next: int)
      requires Valid() && 0 <= cTime < MAX_TIME
      modifies set t | t in Active()
      ensures forall t <- Active() :: Stepped(old(t.Get()), t.Get(), cTime, t.action)
      ensures next > cTime && IsLeast(Active(), next) && next == LeastAfter(old(Settings(Active())), cTime)
    {
      if !current.guest {
        assert Active() == global;
        DistinctParts(global, []) by { assert global == global + []; DistinctParts(global, current.timers); }
        next := TraverseKTimerQueue(global, cTime);
        return;
      }
      next := TraverseBoth(cTime);
    }

    method TraverseBoth(cTime: int) returns (next: int)
      requires Distinct(global + current.timers) && 0 <= cTime < MAX_TIME && current.guest
      modifies set t | t in Active()
      ensures forall t <- Active() :: Stepped(old(t.Get()), t.Get(), cTime, t.action)
      ensures next > cTime && IsLeast(Active(), next) && next == LeastAfter(old(Settings(Active())), cTime)
    {
      hide Stepped, LeastAfter, IsLeast, Settings, Distinct;
      ghost var p, q := global, current.timers;
      DistinctParts(p, q);
      assert forall t <- p :: t in Active();
      assert forall t <- q :: t in Active();
      SettingsAppend(p, q);
      LeastAppend(Settings(p), Settings(q), cTime);
      next := TraverseKTimerQueue(global, cTime);
      label L:
      var local := TraverseKTimerQueue(current.timers, cTime);
      ghost var g := next;
      if local != 0 && local < next { next := local; }
      assert IsLeast(p, g) && IsLeast(q, local);
      LeastOfBoth(p, q, g, local);
    }

    lemma SettingsAppend(p: seq<Timer>, q: seq<Timer>)
      ensures Settings(p + q) == Settings(p) + Settings(q)
    {}

    lemma LeastOfBoth(p: seq<Timer>, q: seq<Timer>, g: int, l: int)
      requires IsLeast(p, g) && IsLeast(q, l)
      ensures IsLeast(p + q, if l < g then l else g)
    {}

    lemma DistinctParts(p: seq<Timer>, q: seq<Timer>)
      requires Distinct(p + q)
      ensures Distinct(p) && Distinct(q) && forall t <- q :: t !in p
    {
      var s := p + q;
      forall i, j | 0 <= i < j < |p| ensures p[i] != p[j] { assert s[i] != s[j]; }
      forall i, j | 0 <= i < j < |q| ensures q[i] != q[j] { assert s[|p| + i] != s[|p| + j]; }
      forall i, j | 0 <= i < |p| && 0 <= j < |q| ensures p[i] != q[j] { assert s[i] != s[|p| + j]; }
    }

    /** TimerHandler */
    method TimerHandler() returns (done: bool)
      requires Valid()
      modifies `valid, `nextAct, `alarm, `clock, `programmed, `now, (set t | t in Active())
      ensures Valid() && programmed >= old(programmed) && now >= old(now)
      ensures forall t <- Active() :: Ran(old(t.Get()), t.Get(), t.action, now)
      ensures done ==> Programmed() && Covered() && Exact() && programmed >= old(now)
      ensures old(|clock|) >= 2 ==>
                var d := LeastAfter(old(Settings(Active())), old(clock)[0]);
                old(clock)[1] <= d ==>
                  && done && programmed == now == old(clock)[1] && clock == old(clock)[2..] && valid
                  && nextAct == programmed + Clamp(d - programmed)
                  && forall t <- Active() :: Stepped(old(t.Get()), t.Get(), old(clock)[0], t.action)
      decreases |clock|, 1
    {
      hide LeastAfter, Settings, IsLeast, Stepped, Ran, Clamp, Distinct, Covered, Exact;
      valid := false;
      var ok, cTime := GetSysClockUsec();
      if !ok {
        forall t <- Active() ensures Ran(t.Get(), t.Get(), t.action, now) { RanRefl(t.Get(), t.action, now); }
        return false;
      }
      var next := TraverseActive(cTime);
      label L:
      done := ProgramLeast(next);
      forall t <- Active() ensures Ran(old(t.Get()), t.Get(), t.action, now) {
        SteppedIsRan(old(t.Get()), old@L(t.Get()), cTime, t.action);
        RanTrans(old(t.Get()), old@L(t.Get()), t.Get(), t.action, cTime, now);
      }
    }

    /** SetHwTimer on the least deadline, when nothing is programmed. */
    method ProgramLeast(next: int) returns (done: bool)
      requires Valid() && !valid && next > 0 && IsLeast(Active(), next)
      modifies `valid, `nextAct, `alarm, `clock, `programmed, `now, (set t | t in Active())
      ensures Valid() && programmed >= old(programmed) && now >= old(now)
      ensures forall t <- Active() :: Ran(old(t.Get()), t.Get(), t.action, now)
      ensures done ==> Programmed() && Covered() && Exact() && programmed >= old(now)
      ensures old(clock) != [] && old(clock)[0] <= next ==>
                && done && programmed == now == old(clock)[0] && clock == old(clock)[1..] && valid
                && nextAct == programmed + Clamp(next - programmed) && forall t <- Active() :: t.Get() == old(t.Get())
      decreases |clock|, 1
    {
      hide Ran;
      ghost var q := Active();
      var late;
      done, late := SetHwTimer(next);
      if !late {
        forall t <- q ensures Ran(old(t.Get()), t.Get(), t.action, now) { RanRefl(t.Get(), t.action, now); }
      }
      if done && !late {
        if next < MAX_TIME {
          ghost var t :| t in q && old(t.armed && t.value == next);
          assert t.Get() == old(t.Get());
        }
        assert Active() == q && IsLeast(Active(), next);
      }
    }

    /** ArmKTimer. A deadline of zero leaves the hardware alone. */
    method ArmKTimer(t: Timer, value: int, interval: int) returns (done: bool)
      requires Valid() && Programmed() && Covered() && value >= 0
      modifies `valid, `nextAct, `alarm, `clock, `programmed, `now, (set t | t in Active()), t
      ensures Valid()
      ensures done ==> Programmed() && Covered()
      ensures done && t in Active() && value > 0 && t.armed ==> InTime(t.value)
      ensures Ran(Setting(value, interval, true, old(t.fired)), t.Get(), t.action, now)
      ensures forall u <- Active() :: u != t ==> Ran(old(u.Get()), u.Get(), u.action, now)
      ensures value == 0 || (old(valid) && value >= old(nextAct)) ==>
                && done && clock == old(clock) && programmed == old(programmed) && now == old(now)
                && valid == old(valid) && nextAct == old(nextAct) && alarm == old(alarm)
      ensures value > 0 && !(old(valid) && value >= old(nextAct)) && old(clock) != [] && old(clock)[0] <= value ==>
                && done && clock == old(clock)[1..] && programmed == now == old(clock)[0]
                && valid && nextAct == programmed + Clamp(value - programmed)
      ensures value == 0 || (old(valid) && value >= old(nextAct)) || (old(clock) != [] && old(clock)[0] <= value) ==>
                && t.Get() == Setting(value, interval, true, old(t.fired))
                && forall u <- Active() :: u != t ==> u.Get() == old(u.Get())
    {
      hide Clamp, LeastAfter, Settings;
      t.value, t.interval, t.armed := value, interval, true;
      hide Ran;
      var late;
      label L:
      done, late := SetHwTimer(value);
      if !late || t !in Active() {
        RanRefl(t.Get(), t.action, now);
      }
      if !late {
        forall u <- Active() ensures Ran(old@L(u.Get()), u.Get(), u.action, now) { RanRefl(u.Get(), u.action, now); }
      }
    }

    /** DisarmKTimer */
    method DisarmKTimer(t: Timer) returns (r: int)
      requires Valid() && Programmed() && Covered()
      modifies t`armed
      ensures Valid() && Programmed() && Covered()
      ensures !t.armed && r == if old(t.armed) then 0 else -1
    {
      if !t.armed { return -1; }
      t.armed := false;
      r := 0;
    }

    /** When a switch is late, given what holds before it, the settings of the new thread's timers and the first two
        readings: the hardware has to be programmed for the thread and its least deadline passes meanwhile. */
    ghost predicate LateFor(timers: seq<Setting>, first: int, second: int)
      reads this
    {
      var n := LeastAfter(timers, first);
      !(valid && n >= nextAct) && second > n
    }

    /** The part of a context switch that concerns the timers. When it is late the timers looked at again are still
        those of the thread that leaves, and the hardware is programmed for the least of them, d. So the timers of the
        new thread are covered afterwards exactly when the switch is not late or d is no further away than the shortest
        interval. */
    method SwitchTo(newK: Thread) returns (done: bool, late: bool)
      requires Valid() && Programmed() && Covered() && Distinct(global + current.timers + newK.timers)
      modifies this, (set t | t in Active()), (set t | t in newK.timers)
      ensures Valid() && (done ==> current == newK && Programmed())
      ensures !newK.guest ==>
                && done && !late && Covered() && clock == old(clock) && valid == old(valid)
                && nextAct == old(nextAct) && alarm == old(alarm) && programmed == old(programmed) && now == old(now)
                && forall t <- old(Active()) + newK.timers :: t.Get() == old(t.Get())
      ensures newK.guest && old(|clock|) >= 2 ==>
                (late <==> old(LateFor(Settings(newK.timers), clock[0], clock[1])))
      ensures newK.guest && old(clock) != [] ==>
                forall t <- newK.timers :: Stepped(old(t.Get()), t.Get(), old(clock)[0], t.action)
      ensures done && late ==> valid && exists d ::
                IsLeast(old(Active()), d) && d >= programmed && nextAct == programmed + Clamp(d - programmed)
      ensures done && newK.guest ==> (Covered() <==> (late ==> nextAct <= programmed + minInterval))
      ensures newK.guest && old(|clock|) >= 4 ==>
                var d := LeastAfter(old(Settings(Active())), old(clock)[2]);
                old(clock)[3] <= d && old(LateFor(Settings(newK.timers), clock[0], clock[1])) ==>
                  && done && programmed == now == old(clock)[3] && nextAct == programmed + Clamp(d - programmed)
                  && (Covered() <==> d <= programmed + minInterval || minInterval == maxInterval)
    {
      hide Ran, Stepped, LeastAfter, Settings, IsLeast;
      late := false;
      done := true;
      SwitchParts(global, current.timers, newK.timers);
      ghost var q, d := Active(), 0;
      if newK.guest {
        done, late := LookAhead(newK);
        if done && late { d :| IsLeast(q, d) && d >= programmed && nextAct == programmed + Clamp(d - programmed); }
      }
      if done { current := newK; }
      assert done && late ==> IsLeast(q, d);
    }

    /** SetHwTimer(TraverseKTimerQueue(...)) for the thread that comes next. */
    method LookAhead(newK: Thread) returns (done: bool, late: bool)
      requires Valid() && Programmed() && Covered() && Distinct(newK.timers)
      requires forall t <- newK.timers :: t !in Active()
      modifies `valid, `nextAct, `alarm, `clock, `programmed, `now, (set t | t in Active()), (set t | t in newK.timers)
      ensures Valid()
      ensures done ==> Programmed() && Covered()
      ensures done && !late ==> forall t <- newK.timers :: t.armed ==> InTime(t.value)
      ensures done && late ==> Exact() && exists t <- newK.timers :: t.armed && 0 < t.value < programmed
      ensures old(|clock|) >= 2 ==> (late <==> old(LateFor(Settings(newK.timers), clock[0], clock[1])))
      ensures old(clock) != [] ==> forall t <- newK.timers :: Stepped(old(t.Get()), t.Get(), old(clock)[0], t.action)
      ensures late && old(|clock|) >= 4 ==>
                var d := LeastAfter(old(Settings(Active())), old(clock)[2]);
                old(clock)[3] <= d ==>
                  done && programmed == now == old(clock)[3] && nextAct == programmed + Clamp(d - programmed)
    {
      hide Ran, Stepped, Clamp, LeastAfter, Settings, IsLeast;
      var ok, cTime := GetSysClockUsec();
      if !ok { return false, false; }
      var next := TraverseKTimerQueue(newK.timers, cTime);
      LeastMeans(newK.timers, next);
      label L:
      assert Settings(Active()) == old(Settings(Active()));
      done, late := SetHwTimer(next);
      assert forall t <- newK.timers :: t.Get() == old@L(t.Get());
    }

    lemma LeastMeans(q: seq<Timer>, next: int)
      requires IsLeast(q, next)
      ensures next <= MAX_TIME && forall t <- q :: t.armed ==> next <= t.value
      ensures next < MAX_TIME ==> exists t <- q :: t.armed && t.value == next
    {}

    lemma SwitchParts(p: seq<Timer>, q: seq<Timer>, r: seq<Timer>)
      requires Distinct(p + q + r)
      ensures Distinct(p + q) && Distinct(p + r) && Distinct(r)
      ensures forall t <- r :: t !in p && t !in q
    {
      DistinctParts(p + q, r);
      var s := p + q + r;
      forall i, j | 0 <= i < j < |p + r| ensures (p + r)[i] != (p + r)[j] {
        var i', j' := if i < |p| then i else i + |q|, if j < |p| then j else j + |q|;
        assert (p + r)[i] == s[i'] && (p + r)[j] == s[j'];
      }
      forall t <- r ensures t !in p && t !in q {
        assert t in p || t in q ==> t in p + q;
      }
    }
  }

  // ----- a switch that is late -----

  /** The run below: s is the scheduling timer of the CPU, t a timer of the guest g; nothing else is armed. */
  ghost predicate Scene(lt: LocalTime, s: Timer, t: Timer, g: Thread, idle: Thread)
    reads lt
  {
    && lt.global == [s] && g.guest && g.timers == [t] && !idle.guest && idle.timers == [] && s != t
    && lt.minInterval <= 9 && 1000 <= lt.maxInterval < 1_000_000
    && lt.Valid()
  }

  ghost predicate Showing(lt: LocalTime, nextAct: int, clock: seq<int>)
    reads lt, lt.Active()
  {
    lt.Programmed() && lt.Covered() && lt.valid && lt.nextAct == nextAct && lt.clock == clock
  }

  method Prepare(minInterval: int, maxInterval: int)
    returns (lt: LocalTime, s: Timer, t: Timer, g: Thread, idle: Thread)
    requires 0 < minInterval <= 9 && 1000 <= maxInterval < 1_000_000
    ensures fresh(lt) && fresh(s) && fresh(t) && Scene(lt, s, t, g, idle) && lt.current == g && lt.now == 0
    ensures lt.clock == [0, 100, 100, 100, 140, 140, 140, 141, 151, 151, 151] && !lt.valid
    ensures !s.armed && !t.armed && s.fired == t.fired == 0
  {
    s := new Timer(true);
    t := new Timer(true);
    g := new Thread(true, [t]);
    idle := new Thread(false, []);
    lt := new LocalTime([s], g, minInterval, maxInterval, [0, 100, 100, 100, 140, 140, 140, 141, 151, 151, 151]);
  }

  /** In its slot, which ends at 100, the guest arms its timer for 150. */
  method GuestArms(minInterval: int, maxInterval: int)
    returns (lt: LocalTime, s: Timer, t: Timer, g: Thread, idle: Thread)
    requires 0 < minInterval <= 9 && 1000 <= maxInterval < 1_000_000
    ensures fresh(lt) && fresh(s) && fresh(t) && Scene(lt, s, t, g, idle) && lt.current == g
    ensures Showing(lt, 100, [100, 100, 100, 140, 140, 140, 141, 151, 151, 151])
    ensures s.Get() == Setting(100, 0, true, 0) && t.Get() == Setting(150, 0, true, 0)
  {
    hide Ran, Stepped, LeastAfter, Settings, Distinct;
    lt, s, t, g, idle := Prepare(minInterval, maxInterval);
    assert lt.Active() == [s, t];
    var done := lt.ArmKTimer(s, 100, 0);
    done := lt.ArmKTimer(t, 150, 0);
  }

  lemma LeastOfTwo(x: Setting, y: Setting, now: int)
    ensures LeastAfter([x], now) == var d := DeadlineAfter(x, now);
                                    if d.Some? && d.value < MAX_TIME then d.value else MAX_TIME
    ensures LeastAfter([x, y], now) == var r, d := LeastAfter([x], now), DeadlineAfter(y, now);
                                       if d.Some? && d.value < r then d.value else r
  {
    NoTimers(now);
    assert [x][..0] == [] && [x, y][..1] == [x];
  }

  /** The slot is over at 100: the scheduler asks for its next decision at 140 and switches to the idle thread. */
  method SlotEnds(lt: LocalTime, s: Timer, t: Timer, g: Thread, idle: Thread)
    requires Scene(lt, s, t, g, idle) && lt.current == g
    requires Showing(lt, 100, [100, 100, 100, 140, 140, 140, 141, 151, 151, 151])
    requires s.Get() == Setting(100, 0, true, 0) && t.Get() == Setting(150, 0, true, 0)
    modifies lt, s, t
    ensures Scene(lt, s, t, g, idle) && lt.current == idle && Showing(lt, 140, [140, 140, 140, 141, 151, 151, 151])
    ensures s.Get().value == 140 && s.interval == 0 && s.armed && t.Get() == Setting(150, 0, true, 0)
  {
    hide Ran, LeastAfter;
    assert lt.Active() == [s, t];
    LeastOfTwo(s.Get(), t.Get(), 100);
    assert Settings([s, t]) == [s.Get(), t.Get()];
    var done := lt.TimerHandler();
    assert t.Get() == Setting(150, 0, true, 0) && lt.nextAct == 150;
    done := lt.ArmKTimer(s, 140, 0);
    var late;
    done, late := lt.SwitchTo(idle);
  }

  /** At 140 the scheduler gives the next slot, until 240, to the guest. */
  method NextSlot(lt: LocalTime, s: Timer, t: Timer, g: Thread, idle: Thread)
    requires Scene(lt, s, t, g, idle) && lt.current == idle
    requires Showing(lt, 140, [140, 140, 140, 141, 151, 151, 151])
    requires s.value == 140 && s.interval == 0 && s.armed && t.Get() == Setting(150, 0, true, 0)
    modifies lt, s
    ensures Scene(lt, s, t, g, idle) && lt.current == idle && Showing(lt, 240, [141, 151, 151, 151])
    ensures s.value == 240 && s.interval == 0 && s.armed && t.Get() == Setting(150, 0, true, 0)
  {
    hide Ran, LeastAfter;
    assert lt.Active() == [s];
    LeastOfTwo(s.Get(), s.Get(), 140);
    assert Settings([s]) == [s.Get()];
    var done := lt.TimerHandler();
    done := lt.ArmKTimer(s, 240, 0);
  }

  /** The switch to the guest begins at 141. Its timer is due at 150, but the clock reads 151 when the hardware would be
      programmed for it: the next interrupt comes at 240. */
  method LateSwitch(minInterval: int, maxInterval: int) returns (lt: LocalTime, t: Timer)
    requires 0 < minInterval <= 9 && 1000 <= maxInterval < 1_000_000
    ensures t in lt.Active() && t.Get() == Setting(150, 0, true, 0)
    ensures lt.valid && lt.now == 151 && lt.nextAct == 240 && !lt.Covered()
  {
    hide Ran, LeastAfter;
    var s, g, idle;
    lt, s, t, g, idle := GuestArms(minInterval, maxInterval);
    SlotEnds(lt, s, t, g, idle);
    NextSlot(lt, s, t, g, idle);
    assert lt.Active() == [s] && Settings([s]) == [s.Get()] && Settings([t]) == [t.Get()];
    LeastOfTwo(t.Get(), t.Get(), 141);
    LeastOfTwo(s.Get(), s.Get(), 151);
    var done, late := lt.SwitchTo(g);
    assert t in g.timers;
  }
}
