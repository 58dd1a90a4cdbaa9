/** The cyclic partition scheduler: cached decision, slot cursor, major frame and deferred plan switches. */
module CyclicSched {
  import opened Options

  const U32: int := 0x1_0000_0000

  /** One slot of a plan; offsets are microseconds from the start of the major frame. */
  datatype Slot = Slot(id: int, partition: int, vcpu: int, sExec: nat, eExec: nat)

  datatype Plan = Plan(id: int, majorFrame: nat, slots: seq<Slot>)

  /** Pointer to a plan: none yet, the zero-length idle plan, or an entry of the CPU's plan table. */
  datatype PlanPtr = Null | IdlePlan | Entry(index: nat)

  datatype Thread = Idle | VCpu(partition: int, vcpu: int)

  datatype Flags = Flags(halted: bool, suspended: bool, ready: bool)

  predicate Runnable(f: Flags) { !f.halted && !f.suspended && f.ready }

  /** Plans as the configuration builds them: a frame that fits 32 bits, and slots that are non-empty,
      in order, disjoint and inside the frame. */
  predicate WellFormed(p: Plan) {
    && 0 < p.majorFrame < U32
    && (forall i :: 0 <= i < |p.slots| ==> p.slots[i].sExec < p.slots[i].eExec <= p.majorFrame)
    && (forall i, j :: 0 <= i < j < |p.slots| ==> p.slots[i].eExec <= p.slots[j].sExec)
  }

  function Owner(s: Slot): Thread { VCpu(s.partition, s.vcpu) }

  predicate Contains(s: Slot, offset: int) { s.sExec <= offset < s.eExec }

  /** The thread the plan itself assigns to an offset of the frame. */
  ghost predicate Assigned(p: Plan, offset: int, k: Thread) {
    exists i :: 0 <= i < |p.slots| && Contains(p.slots[i], offset) && Owner(p.slots[i]) == k
  }

  /** The scheduling decision as the plan defines it: the owner of the slot containing the offset when that
      owner can run, otherwise nobody. */
  ghost predicate Decision(p: Plan, offset: int, flags: Thread -> Flags, r: Option<Thread>) {
    match r
    case Some(k) => Assigned(p, offset, k) && Runnable(flags(k))
    case None => forall k :: Assigned(p, offset, k) ==> !Runnable(flags(k))
  }

  /** A well-formed plan decides every offset in one way only. */
  lemma DecisionUnique(p: Plan, offset: int, flags: Thread -> Flags, r1: Option<Thread>, r2: Option<Thread>)
    requires WellFormed(p) && Decision(p, offset, flags, r1) && Decision(p, offset, flags, r2)
    ensures r1 == r2
  {
    if r1.Some? && r2.Some? {
      var i :| 0 <= i < |p.slots| && Contains(p.slots[i], offset) && Owner(p.slots[i]) == r1.value;
      var j :| 0 <= j < |p.slots| && Contains(p.slots[j], offset) && Owner(p.slots[j]) == r2.value;
      if i < j {
        assert p.slots[i].eExec <= p.slots[j].sExec;
      } else if j < i {
        assert p.slots[j].eExec <= p.slots[i].sExec;
      }
    }
  }

  /** The offset of a time in the frames that repeat from `start` on. */
  function Offset(p: Plan, start: int, now: int): int
    requires p.majorFrame > 0
  {
    (now - start) % p.majorFrame
  }

  lemma OffsetIs(p: Plan, start: int, now: int)
    requires p.majorFrame > 0
    ensures Offset(p, start, now) == (now - start) % p.majorFrame
  {}

  /** The start of the frame reached after whole frames from the plan switch. */
  function FrameStart(p: Plan, start: int, frames: nat): int { start + frames * p.majorFrame }

  /** The start of the frame that contains the time, from the time of the plan switch alone. */
  function FrameOf(p: Plan, start: int, now: int): int
    requires p.majorFrame > 0
  {
    start + ((now - start) / p.majorFrame) * p.majorFrame
  }

  lemma FrameArithmetic(p: Plan, start: int, frames: nat, now: int)
    requires p.majorFrame > 0 && FrameStart(p, start, frames) <= now < FrameStart(p, start, frames) + p.majorFrame
    ensures Offset(p, start, now) == now - FrameStart(p, start, frames)
    ensures FrameStart(p, start, frames) == FrameOf(p, start, now)
  {
    var m, q := p.majorFrame, (now - start) / p.majorFrame;
    if q < frames {
      MulMonotone(q + 1, frames, m);
    } else if q > frames {
      MulMonotone(frames + 1, q, m);
    }
  }

  lemma MulMonotone(a: int, b: int, m: nat)
    requires a <= b
    ensures a * m <= b * m
  {}

  lemma NextFrameStart(p: Plan, start: int, frames: nat)
    ensures FrameStart(p, start, frames + 1) == FrameStart(p, start, frames) + p.majorFrame
  {}

  /** What a decision is, in the terms of the slot table and the flags. */
  lemma DecisionIs(p: Plan, offset: int, flags: Thread -> Flags, r: Option<Thread>)
    requires Decision(p, offset, flags, r)
    ensures r.Some? ==> r.value.VCpu? && !flags(r.value).halted && !flags(r.value).suspended && flags(r.value).ready
    ensures r.Some? ==> exists i :: 0 <= i < |p.slots| && p.slots[i].sExec <= offset < p.slots[i].eExec
                                    && p.slots[i].partition == r.value.partition && p.slots[i].vcpu == r.value.vcpu
    ensures r.None? ==> forall i :: 0 <= i < |p.slots| && p.slots[i].sExec <= offset < p.slots[i].eExec ==>
                          var f := flags(VCpu(p.slots[i].partition, p.slots[i].vcpu));
                          f.halted || f.suspended || !f.ready
  {
    if r.None? {
      forall i | 0 <= i < |p.slots| && p.slots[i].sExec <= offset < p.slots[i].eExec
        ensures !Runnable(flags(VCpu(p.slots[i].partition, p.slots[i].vcpu)))
      {
        assert Contains(p.slots[i], offset) && Assigned(p, offset, VCpu(p.slots[i].partition, p.slots[i].vcpu));
      }
    }
  }

  /** One answer of the scheduler, with what was in force when it was given. */
  datatype Answer = Answer(now: int, plan: Plan, start: int, thread: Option<Thread>, flags: Thread -> Flags)

  /** Temporal isolation of one answer: nobody, the idle thread a partition yielded to, or the runnable
      owner of the slot that contains the current offset of the plan in force. */
  ghost predicate Isolated(a: Answer) {
    match a.thread
    case None => true
    case Some(Idle) => true
    case Some(k) =>
      && Runnable(a.flags(k))
      && a.plan.majorFrame > 0 && Assigned(a.plan, Offset(a.plan, a.start, a.now), k)
  }

  /** A partition's thread is answered in a slot of its own only: the offset in the plan's frame lies in a slot of that
      partition and vCPU, and the thread is neither halted nor suspended, but ready. */
  lemma IsolatedIs(a: Answer, partition: int, vcpu: int)
    requires Isolated(a) && a.thread == Some(VCpu(partition, vcpu))
    ensures var f := a.flags(VCpu(partition, vcpu)); !f.halted && !f.suspended && f.ready
    ensures var p := a.plan;
            && p.majorFrame > 0
            && exists i :: 0 <= i < |p.slots| && p.slots[i].partition == partition && p.slots[i].vcpu == vcpu
                           && p.slots[i].sExec <= (a.now - a.start) % p.majorFrame < p.slots[i].eExec
  {}

  lemma DecisionIsolated(p: Plan, start: int, now: int, flags: Thread -> Flags, r: Option<Thread>)
    requires p.majorFrame > 0 && Decision(p, Offset(p, start, now), flags, r)
    ensures Isolated(Answer(now, p, start, r, flags))
  {}

  ghost predicate AllIsolated(trace: seq<Answer>) { forall i :: 0 <= i < |trace| ==> Isolated(trace[i]) }

  lemma IsolatedAppend(trace: seq<Answer>, a: Answer)
    requires AllIsolated(trace) && Isolated(a)
    ensures AllIsolated(trace + [a])
  {}

  lemma LastIsolated(trace: seq<Answer>, a: Answer)
    requires AllIsolated(trace) && trace != [] && trace[|trace| - 1] == a
    ensures Isolated(a)
  {}

  datatype SchedInfo = SchedInfo(noSlot: int, id: int, slotDuration: int)

  /** struct cyclicData of one CPU. */
  class CyclicData {
    const plans: seq<Plan>            // the CPU's part of the plan table
    var current: PlanPtr
    var new_: PlanPtr
    var prev: PlanPtr
    var slot: int                     // next slot to be processed
    var mjf: int
    var sExec: int
    var planSwitchTime: int
    var nextAct: int
    var kThread: Option<Thread>
    var reschedEnabled: bool
    var kTimer: int                   // deadline of the scheduling timer
    var schedInfo: map<Thread, SchedInfo>  // what the partitions are told about their slot

    ghost var clock: int              // time of the latest call
    ghost var frames: nat             // whole frames since the plan switch
    ghost var trace: seq<Answer>      // every answer given so far

    predicate ValidPtr(p: PlanPtr) { p.Entry? ==> p.index < |plans| }

    function PlanOf(p: PlanPtr): Plan
      requires ValidPtr(p)
    {
      if p.Entry? then plans[p.index] else Plan(0, 0, [])
    }

    /** What holds between calls. */
    ghost predicate Valid()
      reads this
    {
      && (forall i :: 0 <= i < |plans| ==> WellFormed(plans[i]))
      && ValidPtr(current) && ValidPtr(new_) && !current.IdlePlan? && !new_.Null?
      && clock >= 0
      && (current.Null? ==> slot == -1 && mjf == 0 && nextAct == 0 && (kThread.None? || kThread.value.Idle?))
      && (current.Entry? ==> FrameInForce(plans[current.index]) && CachedDecision(plans[current.index]))
      && AllIsolated(trace)
    }

    /** The frame in force started a whole number of frames after the plan switch, and the cursor has only
        passed slots that are over. */
    ghost predicate FrameInForce(p: Plan)
      reads `slot, `sExec, `mjf, `planSwitchTime, `frames, `clock
    {
      && 0 <= slot <= |p.slots|
      && (forall i :: 0 <= i < slot ==> sExec + p.slots[i].eExec <= clock)
      && sExec == FrameStart(p, planSwitchTime, frames)
      && mjf == sExec + p.majorFrame
      && sExec <= clock
    }

    /** A cached partition thread owns the slot at the cursor, which began no later than the latest call and
        ends exactly at the next scheduling point. */
    ghost predicate CachedDecision(p: Plan)
      reads `slot, `sExec, `mjf, `nextAct, `kTimer, `kThread, `clock
    {
      && nextAct <= mjf && kTimer == nextAct
      && (kThread.Some? && kThread.value.VCpu? ==>
            && 0 <= slot < |p.slots| && Owner(p.slots[slot]) == kThread.value
            && sExec + p.slots[slot].sExec <= clock
            && nextAct == sExec + p.slots[slot].eExec)
    }

    /** InitSchedLocal */
    constructor (plans: seq<Plan>)
      requires |plans| > 0 && forall i :: 0 <= i < |plans| ==> WellFormed(plans[i])
      ensures Valid() && this.plans == plans && new_ == Entry(0) && current.Null? && trace == [] && clock == 0
    {
      this.plans := plans;
      current, new_, prev := Null, Entry(0), Null;
      slot, mjf, sExec, planSwitchTime, nextAct := -1, 0, 0, 0, 0;
      kThread, reschedEnabled, kTimer, schedInfo := None, false, 0, map[];
      clock, frames, trace := 0, 0, [];
    }

    /** SchedYield, up to the call of the scheduler: only IdleSelfSys calls it, with the idle thread. */
    method YieldToIdle()
      requires Valid()
      modifies `kThread
      ensures Valid() && kThread == Some(Idle)
    {
      kThread := Some(Idle);
    }

    /** Another CPU asks this one to schedule again. */
    method RequestReschedule()
      requires Valid()
      modifies `reschedEnabled
      ensures Valid() && reschedEnabled
    {
      reschedEnabled := true;
    }

    method MakePlanSwitch(cTime: int) returns (idles: bool)
      requires ValidPtr(new_)
      modifies `current, `prev, `planSwitchTime, `frames, `slot, `mjf
      ensures current == new_ && idles == (current != old(current) && PlanOf(new_).majorFrame == 0)
      ensures if old(current) != new_
              then prev == old(current) && planSwitchTime == cTime && slot == -1 && mjf == 0 && frames == 0
              else prev == old(prev) && planSwitchTime == old(planSwitchTime) && slot == old(slot) && mjf == old(mjf)
                   && frames == old(frames)
    {
      idles := false;
      if current != new_ {
        prev := current;
        current := new_;
        planSwitchTime := cTime;
        frames := 0;
        slot := -1;
        mjf := 0;
        idles := PlanOf(new_).majorFrame == 0;
      }
    }

    /** GetReadyKThreadCyclic answers from the decision it cached. */
    predicate Cached(cTime: int)
      reads `nextAct, `reschedEnabled
    {
      nextAct > cTime && !reschedEnabled
    }

    /** GetReadyKThreadCyclic. `idles` reports the switch to the zero-length plan, which never returns. */
    method GetReadyKThread(cTime: int, flags: Thread -> Flags) returns (newK: Option<Thread>, idles: bool)
      requires Valid() && clock <= cTime
      modifies this
      // the idle plan takes over exactly when it was requested and the running frame is over
      ensures idles <==> !old(Cached(cTime)) && old(mjf) <= cTime && old(new_).IdlePlan?
      // every answer, cached or computed, joins a trace of isolated answers
      ensures !idles ==> Valid() && clock == cTime && new_ == old(new_) && current.Entry?
      ensures !idles ==> trace == old(trace) + [Answer(cTime, plans[current.index], planSwitchTime, newK, flags)]
      // a partition's thread runs in its own slot of the plan in force only, and only when its flags allow
      ensures !idles && newK.Some? && newK.value.VCpu? ==>
                var p, f := plans[current.index], flags(newK.value);
                && p.majorFrame > 0 && !f.halted && !f.suspended && f.ready
                && exists i :: 0 <= i < |p.slots|
                               && p.slots[i].partition == newK.value.partition && p.slots[i].vcpu == newK.value.vcpu
                               && p.slots[i].sExec <= (cTime - planSwitchTime) % p.majorFrame < p.slots[i].eExec
      // a recomputation answers nobody only outside all slots or when the flags of the slot's thread forbid it
      ensures !old(Cached(cTime)) && !idles ==>
                var p := plans[current.index];
                && p.majorFrame > 0
                && (newK.Some? ==> newK.value.VCpu?)
                && (newK.None? ==>
                      forall i :: 0 <= i < |p.slots|
                                  && p.slots[i].sExec <= (cTime - planSwitchTime) % p.majorFrame < p.slots[i].eExec ==>
                        var f := flags(VCpu(p.slots[i].partition, p.slots[i].vcpu));
                        f.halted || f.suspended || !f.ready)
      ensures old(Cached(cTime)) ==>
                && current == old(current) && slot == old(slot) && mjf == old(mjf) && sExec == old(sExec)
                && nextAct == old(nextAct) && kThread == old(kThread) && planSwitchTime == old(planSwitchTime)
                && (newK == kThread || newK.None?)
                && (kThread.Some? ==>
                      var f := flags(kThread.value); newK.Some? <==> !f.halted && !f.suspended && f.ready)
      ensures !old(Cached(cTime)) && !idles ==> Recomputed(cTime, flags, newK)
      // plans change only at the end of a frame
      ensures !idles ==> current == if old(Cached(cTime)) || cTime < old(mjf) then old(current) else old(new_)
      ensures !idles && current != old(current) ==> planSwitchTime == cTime == sExec && prev == old(current)
      ensures !idles && current == old(current) ==> planSwitchTime == old(planSwitchTime)
    {
      hide Offset, FrameInForce, CachedDecision, AllIsolated, Isolated, Decision, Recomputed;
      if nextAct > cTime && !reschedEnabled {
        idles := false;
        newK := AnswerCached(cTime, flags);
      } else {
        newK, idles := Recompute(cTime, flags);
        if !idles { RecomputedIs(cTime, flags, newK); }
      }
      if !idles {
        var a := Answer(cTime, plans[current.index], planSwitchTime, newK, flags);
        LastIsolated(trace, a);
        if newK.Some? && newK.value.VCpu? { IsolatedIs(a, newK.value.partition, newK.value.vcpu); }
      }
    }

    method AnswerCached(cTime: int, flags: Thread -> Flags) returns (newK: Option<Thread>)
      requires Valid() && clock <= cTime && Cached(cTime)
      modifies `clock, `trace
      ensures Valid() && clock == cTime && current.Entry?
      ensures trace == old(trace) + [Answer(cTime, plans[current.index], planSwitchTime, newK, flags)]
      ensures newK == (if kThread.Some? && Runnable(flags(kThread.value)) then kThread else None)
    {
      hide Isolated;
      newK := if kThread.Some? && Runnable(flags(kThread.value)) then kThread else None;
      CachedIsolated(cTime, flags, newK);
      clock := cTime;
      trace := trace + [Answer(cTime, PlanOf(current), planSwitchTime, newK, flags)];
    }

    /** A computed answer is the plan's own decision, as a function of the time since the plan switch alone;
        frames do not drift, however late the call is; and the next scheduling point is ahead, inside the
        frame, with no slot starting before it. */
    ghost predicate Recomputed(cTime: int, flags: Thread -> Flags, newK: Option<Thread>)
      requires ValidPtr(current)
      reads `current, `kThread, `reschedEnabled, `planSwitchTime, `sExec, `mjf, `nextAct, `kTimer, `schedInfo, `slot
    {
      var p := PlanOf(current);
      && kThread == newK && !reschedEnabled
      && p.majorFrame > 0
      && Decision(p, Offset(p, planSwitchTime, cTime), flags, newK)
      && sExec == FrameOf(p, planSwitchTime, cTime)
      && sExec <= cTime < mjf == sExec + p.majorFrame
      && cTime < nextAct <= mjf && kTimer == nextAct
      && (forall i :: 0 <= i < |p.slots| ==> !(cTime < sExec + p.slots[i].sExec < nextAct))
      && (newK.Some? ==> newK.value in schedInfo && 0 <= slot < |p.slots|
                         && schedInfo[newK.value]
                            == SchedInfo(slot, p.slots[slot].id, p.slots[slot].eExec - p.slots[slot].sExec)
                         && Contains(p.slots[slot], Offset(p, planSwitchTime, cTime)))
    }

    lemma RecomputedIs(cTime: int, flags: Thread -> Flags, newK: Option<Thread>)
      requires current.Entry? && ValidPtr(current) && Recomputed(cTime, flags, newK)
      ensures var p := plans[current.index];
              && p.majorFrame > 0
              && (newK.Some? ==> newK.value.VCpu?)
              && (newK.None? ==>
                    forall i :: 0 <= i < |p.slots|
                                && p.slots[i].sExec <= (cTime - planSwitchTime) % p.majorFrame < p.slots[i].eExec ==>
                      var f := flags(VCpu(p.slots[i].partition, p.slots[i].vcpu));
                      f.halted || f.suspended || !f.ready)
    {
      hide Decision;
      var p := plans[current.index];
      OffsetIs(p, planSwitchTime, cTime);
      DecisionIs(p, Offset(p, planSwitchTime, cTime), flags, newK);
    }

    lemma CachedIsolated(cTime: int, flags: Thread -> Flags, r: Option<Thread>)
      requires Valid() && clock <= cTime < nextAct
      requires r.Some? ==> r == kThread && Runnable(flags(r.value))
      ensures current.Entry?
      ensures Isolated(Answer(cTime, PlanOf(current), planSwitchTime, r, flags))
    {
      if r.Some? && r.value.VCpu? {
        var p := plans[current.index];
        FrameArithmetic(p, planSwitchTime, frames, cTime);
        assert Contains(p.slots[slot], Offset(p, planSwitchTime, cTime));
      }
    }

    /** The part of GetReadyKThreadCyclic behind the cached decision. */
    method Recompute(cTime: int, flags: Thread -> Flags) returns (newK: Option<Thread>, idles: bool)
      requires Valid() && clock <= cTime
      modifies this
      ensures idles <==> old(mjf) <= cTime && old(new_).IdlePlan?
      ensures !idles ==> Valid() && clock == cTime && new_ == old(new_) && current.Entry?
      ensures !idles ==> trace == old(trace) + [Answer(cTime, PlanOf(current), planSwitchTime, newK, flags)]
      ensures !idles ==> Recomputed(cTime, flags, newK)
      ensures !idles ==> current == if cTime < old(mjf) then old(current) else old(new_)
      ensures !idles && current != old(current) ==> planSwitchTime == cTime == sExec && prev == old(current)
      ensures !idles && current == old(current) ==> planSwitchTime == old(planSwitchTime)
    {
      hide Offset, FrameStart, FrameOf, Decision, Assigned, AllIsolated, Isolated, Recomputed, CachedDecision;
      reschedEnabled := false;
      newK := None;
      idles := NextFrame(cTime);
      if idles { return; }
      var plan := PlanOf(current);
      FrameArithmetic(plan, planSwitchTime, frames, cTime);
      newK := Decide(plan, cTime, flags);
      DecisionIsolated(plan, planSwitchTime, cTime, flags, newK);
      IsolatedAppend(trace, Answer(cTime, plan, planSwitchTime, newK, flags));
      trace := trace + [Answer(cTime, plan, planSwitchTime, newK, flags)];
    }

    /** The decision for the frame in force and what is recorded with it. */
    method Decide(plan: Plan, cTime: int, flags: Thread -> Flags) returns (newK: Option<Thread>)
      requires ValidPtr(current) && plan == PlanOf(current) && WellFormed(plan) && clock <= cTime
      requires sExec <= cTime < mjf == sExec + plan.majorFrame && !reschedEnabled
      requires sExec == FrameOf(plan, planSwitchTime, cTime) && Offset(plan, planSwitchTime, cTime) == cTime - sExec
      requires 0 <= slot <= |plan.slots| && forall i :: 0 <= i < slot ==> sExec + plan.slots[i].eExec <= cTime
      modifies `slot, `nextAct, `kTimer, `schedInfo, `kThread, `clock
      ensures clock == cTime && Recomputed(cTime, flags, newK) && CachedDecision(plan)
      ensures Decision(plan, Offset(plan, planSwitchTime, cTime), flags, newK)
      ensures newK.Some? ==> Runnable(flags(newK.value))
      ensures 0 <= slot <= |plan.slots| && forall i :: 0 <= i < slot ==> sExec + plan.slots[i].eExec <= cTime
    {
      hide Offset, FrameOf, Assigned;
      var t := (cTime - sExec) % U32;
      var nextTime;
      newK, nextTime := PickSlot(plan, t, flags);
      nextAct := nextTime + sExec;
      kTimer := nextAct;
      if newK.Some? {
        var s := plan.slots[slot];
        schedInfo := schedInfo[newK.value := SchedInfo(slot, s.id, s.eExec - s.sExec)];
      }
      kThread := newK;
      clock := cTime;
    }

    /** The frame part of the scheduler: at the end of a frame, switch plans or advance to the frame that
        contains the current time. */
    method NextFrame(cTime: int) returns (idles: bool)
      requires Valid() && clock <= cTime
      modifies `current, `prev, `planSwitchTime, `frames, `slot, `mjf, `sExec
      ensures idles <==> old(mjf) <= cTime && new_.IdlePlan?
      ensures !idles ==>
                && current.Entry? && ValidPtr(current)
                && current == (if cTime < old(mjf) then old(current) else new_)
                && (if cTime < old(mjf) then slot == old(slot) && sExec == old(sExec) else slot == 0)
                && sExec == FrameStart(PlanOf(current), planSwitchTime, frames)
                && sExec <= cTime < mjf == sExec + PlanOf(current).majorFrame
                && (if current == old(current) then planSwitchTime == old(planSwitchTime)
                    else planSwitchTime == cTime == sExec && prev == old(current))
    {
      idles := false;
      if mjf <= cTime {
        idles := MakePlanSwitch(cTime);
        if idles { return; }
        var plan := PlanOf(current);
        if slot >= 0 {
          AdvanceFrames(plan, cTime);
        } else {
          sExec := cTime;
          mjf := plan.majorFrame + sExec;
        }
        slot := 0;
      }
    }

    /** Whole frames go by until the current time is inside one. */
    method AdvanceFrames(plan: Plan, cTime: int)
      requires plan.majorFrame > 0 && mjf <= cTime
      requires sExec == FrameStart(plan, planSwitchTime, frames) && mjf == sExec + plan.majorFrame
      modifies `sExec, `mjf, `frames
      ensures sExec == FrameStart(plan, planSwitchTime, frames)
      ensures sExec <= cTime < mjf == sExec + plan.majorFrame
    {
      while mjf <= cTime
        invariant sExec == FrameStart(plan, planSwitchTime, frames)
        invariant mjf == sExec + plan.majorFrame && sExec <= cTime
        decreases cTime - mjf
      {
        NextFrameStart(plan, planSwitchTime, frames);
        sExec := mjf;
        mjf := mjf + plan.majorFrame;
        frames := frames + 1;
      }
    }

    /** The slot part: moves the cursor to the first slot that ends after the offset t, and decides. */
    method PickSlot(plan: Plan, t: int, flags: Thread -> Flags) returns (newK: Option<Thread>, nextTime: int)
      requires WellFormed(plan) && 0 <= t < plan.majorFrame && 0 <= slot <= |plan.slots|
      requires forall i :: 0 <= i < slot ==> plan.slots[i].eExec <= t
      modifies `slot
      ensures Decision(plan, t, flags, newK)
      ensures t < nextTime <= plan.majorFrame
      ensures forall i :: 0 <= i < |plan.slots| ==> !(t < plan.slots[i].sExec < nextTime)
      ensures 0 <= slot <= |plan.slots| && forall i :: 0 <= i < slot ==> plan.slots[i].eExec <= t
      ensures newK.Some? ==>
                slot < |plan.slots| && Contains(plan.slots[slot], t) && newK.value == Owner(plan.slots[slot])
                             && nextTime == plan.slots[slot].eExec
    {
      newK := None;
      nextTime := plan.majorFrame;
      if slot >= |plan.slots| { return; }
      while t >= plan.slots[slot].eExec
        invariant 0 <= slot < |plan.slots|
        invariant forall i :: 0 <= i < slot ==> plan.slots[i].eExec <= t
        decreases |plan.slots| - slot
      {
        slot := slot + 1;
        if slot >= |plan.slots| { return; }
      }
      var s := plan.slots[slot];
      assert forall i :: slot < i < |plan.slots| ==> s.eExec <= plan.slots[i].sExec;
      if t >= s.sExec {
        newK := Some(Owner(s));
        assert forall i :: slot + 1 < i < |plan.slots| ==>
          plan.slots[slot + 1].sExec < plan.slots[slot + 1].eExec <= plan.slots[i].sExec;
        if Runnable(flags(newK.value)) {
          nextTime := s.eExec;
        } else {
          newK := None;
          if slot + 1 < |plan.slots| {
            nextTime := plan.slots[slot + 1].sExec;
          }
        }
      } else {
        nextTime := s.sExec;
      }
    }
  }

  /** SwitchSchedPlan: only the request is recorded, on every CPU; the running plans stay in force. */
  method SwitchSchedPlan(cpus: seq<CyclicData>, local: CyclicData, newPlanId: nat) returns (oldPlanId: int)
    requires forall c <- cpus :: c.Valid()
    requires local in cpus && local.ValidPtr(local.current)
    modifies (set c | c in cpus)`new_
    ensures oldPlanId == if local.current.Null? then -1 else local.PlanOf(local.current).id
    ensures forall c <- cpus :: c.Valid()
    ensures forall c <- cpus :: c.new_ == if newPlanId < |c.plans| then Entry(newPlanId) else IdlePlan
  {
    oldPlanId := -1;
    if !local.current.Null? {
      oldPlanId := local.PlanOf(local.current).id;
    }
    for e := 0 to |cpus|
      invariant forall c <- cpus :: c.Valid()
      invariant forall i :: 0 <= i < e ==>
        cpus[i].new_ == if newPlanId < |cpus[i].plans| then Entry(newPlanId) else IdlePlan
    {
      cpus[e].new_ := if newPlanId < |cpus[e].plans| then Entry(newPlanId) else IdlePlan;
    }
  }
}
