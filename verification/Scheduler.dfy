/**
  The round-robin scheduler (src/kernel/drivers/LowLevel/Timer.c): timer ticks, forced
  switches, the saving and restoring of register frames, and how long a ready task waits.
 */
module Scheduler {
  import opened Registers

  const TASK_COUNT: nat := 512

  datatype ProcessState = Null | Creation | Ready | Waiting | Kill

  datatype Task = Task(live: bool, state: ProcessState, used: nat, max: nat, saved: Regs)

  const CLEARED_TASK := Task(false, Null, 0, 0, CLEARED)

  /** The task table, the current pid, and the frame of the interrupt being served, which is
      what the processor resumes with. */
  datatype Sched = Sched(tasks: seq<Task>, cur: nat, frame: Regs)

  predicate Wf(s: Sched) {
    |s.tasks| == TASK_COUNT && s.cur < TASK_COUNT
  }

  // ---------------------------------------------------------------------------------
  // Operations
  // ---------------------------------------------------------------------------------

  predicate Runnable(t: Task) {
    t.live && t.state == Ready
  }

  /** The first runnable task from slot i upwards, or 0. */
  function FirstRunnable(tasks: seq<Task>, i: nat): nat
    decreases |tasks| - i
  {
    if i >= |tasks| then 0
    else if Runnable(tasks[i]) then i
    else FirstRunnable(tasks, i + 1)
  }

  /** find_next_task */
  function FindNext(tasks: seq<Task>, cur: nat): nat {
    if cur == TASK_COUNT - 1 then 0 else FirstRunnable(tasks, cur + 1)
  }

  function Save(s: Sched): Sched
    requires Wf(s)
  {
    s.(tasks := s.tasks[s.cur := s.tasks[s.cur].(saved := s.frame)])
  }

  /** task_switch */
  function Switch(s: Sched, pid: nat): (s': Sched)
    requires Wf(s) && pid < TASK_COUNT
  {
    var saved := Save(s);
    Sched(saved.tasks, pid, saved.tasks[pid].saved)
  }

  lemma {:induction false} FirstRunnableSpec(tasks: seq<Task>, i: nat)
    ensures var n := FirstRunnable(tasks, i);
            || (i <= n < |tasks| && Runnable(tasks[n]) && forall j :: i <= j < n ==> !Runnable(tasks[j]))
            || (n == 0 && forall j :: i <= j < |tasks| ==> !Runnable(tasks[j]))
    decreases |tasks| - i
  {
    if i < |tasks| && !Runnable(tasks[i]) {
      FirstRunnableSpec(tasks, i + 1);
    }
  }

  /** The next task is the nearest runnable one above the current, and task 0 exactly when
      there is none. */
  lemma FindNextSpec(tasks: seq<Task>, cur: nat)
    requires |tasks| == TASK_COUNT && cur < TASK_COUNT
    ensures var n := FindNext(tasks, cur);
            && n < TASK_COUNT
            && (n > cur ==> Runnable(tasks[n]) && forall j :: cur < j < n ==> !Runnable(tasks[j]))
            && (n <= cur ==> n == 0 && forall j :: cur < j < TASK_COUNT ==> !Runnable(tasks[j]))
  {
    if cur < TASK_COUNT - 1 {
      FirstRunnableSpec(tasks, cur + 1);
    }
  }

  predicate Expired(t: Task) {
    t.used >= t.max || t.state == Kill || t.state == Waiting
  }

  /** A task that has been told to die is no longer there. */
  function Reap(t: Task): Task {
    if t.state == Kill then t.(state := Null, live := false) else t
  }

  /** TimerInterrupt */
  function Tick(s: Sched): (s': Sched)
    requires Wf(s)
    ensures Wf(s')
  {
    if s.tasks[s.cur].state == Creation then s
    else
      var s1 := Save(s);
      var t := s1.tasks[s.cur];
      if Expired(t) then
        var s2 := s1.(tasks := s1.tasks[s.cur := Reap(t.(used := 0))]);
        FindNextSpec(s2.tasks, s2.cur);
        Switch(s2, FindNext(s2.tasks, s2.cur))
      else
        s1.(tasks := s1.tasks[s.cur := t.(used := t.used + 1)])
  }

  /** ForceSwitch */
  function Force(s: Sched): (s': Sched)
    requires Wf(s)
    ensures Wf(s')
  {
    var t := s.tasks[s.cur].(used := 0);
    var s1 := s.(tasks := s.tasks[s.cur := if t.state == Kill then CLEARED_TASK else t]);
    FindNextSpec(s1.tasks, s1.cur);
    Switch(Save(s1), FindNext(s1.tasks, s1.cur))
  }

  // ---------------------------------------------------------------------------------
  // What a tick and a forced switch do
  // ---------------------------------------------------------------------------------

  /** The nearest runnable task above `cur`, and task 0 if there is none. */
  ghost predicate IsNext(tasks: seq<Task>, cur: nat, n: nat) {
    && n < |tasks|
    && (n > cur ==> Runnable(tasks[n]) && forall j :: cur < j < n ==> !Runnable(tasks[j]))
    && (n <= cur ==> n == 0 && forall j :: cur < j < |tasks| ==> !Runnable(tasks[j]))
  }

  /** No slot but p differs. */
  ghost predicate OnlySlot(a: seq<Task>, b: seq<Task>, p: nat) {
    |b| == |a| && forall q :: 0 <= q < |a| && q != p ==> b[q] == a[q]
  }

  lemma NextAbove(tasks: seq<Task>, left: seq<Task>, cur: nat)
    requires |tasks| == TASK_COUNT && cur < TASK_COUNT && OnlySlot(tasks, left, cur)
    ensures IsNext(tasks, cur, FindNext(left, cur))
  {
    FindNextSpec(left, cur);
  }

  lemma NextKept(a: seq<Task>, b: seq<Task>, cur: nat, n: nat)
    requires IsNext(a, cur, n) && OnlySlot(a, b, cur)
    ensures IsNext(b, cur, n)
  {
  }

  /** A tick leaves the processor with its task, one tick older, if and only if the task has ticks
      left and is neither to die nor waiting.  Otherwise the next task resumes with its saved frame
      and the outgoing one has its ticks back; it is gone exactly when it was to die, and else still
      what it was.  No other slot changes, and none at all when the task is in creation. */
  lemma TickSpec(s: Sched)
    requires Wf(s)
    ensures s.tasks[s.cur].state == Creation ==> Tick(s) == s
    ensures s.tasks[s.cur].state != Creation ==>
            var t := s.tasks[s.cur]; var s' := Tick(s); var t' := s'.tasks[s.cur];
            var goesOn := t.used < t.max && t.state != Kill && t.state != Waiting;
            && OnlySlot(s.tasks, s'.tasks, s.cur) && t'.saved == s.frame && t'.max == t.max
            && (goesOn <==> s'.cur == s.cur && t'.used == t.used + 1)
            && (goesOn ==> t'.live == t.live && t'.state == t.state && s'.frame == s.frame)
            && (!goesOn ==> IsNext(s.tasks, s.cur, s'.cur) && s'.frame == s'.tasks[s'.cur].saved && t'.used == 0)
            && (!goesOn && t.state == Kill ==> !t'.live && t'.state == Null)
            && (!goesOn && t.state != Kill ==> t'.live == t.live && t'.state == t.state)
  {
    var t := s.tasks[s.cur].(saved := s.frame);
    if t.state != Creation && Expired(t) {
      var left := Save(s).tasks[s.cur := Reap(t.(used := 0))];
      NextAbove(s.tasks, left, s.cur);
      assert Tick(s) == Switch(Sched(left, s.cur, s.frame), FindNext(left, s.cur));
    }
  }

  /** A forced switch always gives the processor to the next task.  The outgoing slot gives its
      ticks back; it is wiped but for the frame saved into it exactly when its task was to die. */
  lemma ForceSpec(s: Sched)
    requires Wf(s)
    ensures var t := s.tasks[s.cur]; var s' := Force(s); var t' := s'.tasks[s.cur];
            && OnlySlot(s.tasks, s'.tasks, s.cur) && t'.saved == s.frame && t'.used == 0
            && IsNext(s.tasks, s.cur, s'.cur) && s'.frame == s'.tasks[s'.cur].saved
            && (t.state == Kill ==> !t'.live && t'.state == Null && t'.max == 0)
            && (t.state != Kill ==> t'.live == t.live && t'.state == t.state && t'.max == t.max)
  {
    var t := s.tasks[s.cur].(used := 0);
    var left := s.tasks[s.cur := if t.state == Kill then CLEARED_TASK else t];
    NextAbove(s.tasks, left, s.cur);
    assert Force(s) == Switch(Save(Sched(left, s.cur, s.frame)), FindNext(left, s.cur));
  }

  // ---------------------------------------------------------------------------------
  // Runs
  // ---------------------------------------------------------------------------------

  /** Ticks and forced switches, interleaved with everything else that happens: the current
      task computes, and the kernel rewrites task slots (signals, wake-ups, fork, exec). */
  datatype Event =
    | TickEvent
    | ForceEvent
    | Compute(regs: Regs)
    | Update(pid: nat, task: Task)

  function Exec(s: Sched, e: Event): (s': Sched)
    requires Wf(s)
    ensures Wf(s')
  {
    match e
    case TickEvent => Tick(s)
    case ForceEvent => Force(s)
    case Compute(regs) => s.(frame := regs)
    case Update(pid, task) =>
      if pid >= TASK_COUNT then s
      else if pid == s.cur then Sched(s.tasks[pid := task], s.cur, task.saved)
      else s.(tasks := s.tasks[pid := task])
  }

  function Run(s: Sched, events: seq<Event>): (s': Sched)
    requires Wf(s)
    ensures Wf(s')
    decreases |events|
  {
    if events == [] then s else Run(Exec(s, events[0]), events[1..])
  }

  // ---------------------------------------------------------------------------------
  // Context integrity
  // ---------------------------------------------------------------------------------

  /** The registers task p is running with, or would resume with. */
  function Context(s: Sched, p: nat): Regs
    requires Wf(s) && p < TASK_COUNT
  {
    if p == s.cur then s.frame else s.tasks[p].saved
  }

  /** A switch moves registers between the processor and the task table and changes no task's
      context: neither the one that stops, nor the one that resumes, nor any third task's. */
  lemma SwitchKeepsContexts(s: Sched, p: nat)
    requires Wf(s) && p < TASK_COUNT
    ensures Context(Tick(s), p) == Context(s, p)
    ensures Context(Force(s), p) == Context(s, p)
  {
    FindNextSpec(s.tasks, s.cur);
  }

  /** Task p's registers after a run, as p alone would see it: its own computation while it is
      current and the kernel's updates of its slot, one after the other, and nothing else. */
  function Replay(s: Sched, events: seq<Event>, p: nat, regs: Regs): Regs
    requires Wf(s)
    decreases |events|
  {
    if events == [] then regs
    else
      var regs' := match events[0]
                   case Compute(r) => if s.cur == p then r else regs
                   case Update(pid, task) => if pid == p then task.saved else regs
                   case _ => regs;
      Replay(Exec(s, events[0]), events[1..], p, regs')
  }

  /** Context integrity over runs: whatever the interleaving, a task's registers are those of
      its own replay. */
  lemma {:induction false} ContextIntegrity(s: Sched, events: seq<Event>, p: nat)
    requires Wf(s) && p < TASK_COUNT
    ensures Context(Run(s, events), p) == Replay(s, events, p, Context(s, p))
    decreases |events|
  {
    if events != [] {
      SwitchKeepsContexts(s, p);
      hide Tick; hide Force;
      ContextIntegrity(Exec(s, events[0]), events[1..], p);
    }
  }

  /** No event concerns task p: it is not current when anything is computed, and nobody
      updates its slot. */
  predicate Suspended(s: Sched, events: seq<Event>, p: nat)
    requires Wf(s)
    decreases |events|
  {
    events == [] ||
    (&& (events[0].Compute? ==> s.cur != p) && (events[0].Update? ==> events[0].pid != p)
     && Suspended(Exec(s, events[0]), events[1..], p))
  }

  /** A task that lost the processor gets back exactly the frame it lost it with. */
  lemma {:induction false} ResumedIntact(s: Sched, events: seq<Event>, p: nat)
    requires Wf(s) && p < TASK_COUNT && Suspended(s, events, p)
    ensures Context(Run(s, events), p) == Context(s, p)
    ensures Run(s, events).cur == p ==> Run(s, events).frame == Context(s, p)
    decreases |events|
  {
    if events != [] {
      SwitchKeepsContexts(s, p);
      hide Tick; hide Force;
      ResumedIntact(Exec(s, events[0]), events[1..], p);
    }
  }

  // ---------------------------------------------------------------------------------
  // WAIT
  // ---------------------------------------------------------------------------------

  /** The WAIT system call of the current task, whose target it owns or not: a forced switch,
      and then the save at the end of every system call, into the slot of the caller. */
  function Wait(s: Sched, owned: bool): Sched
    requires Wf(s)
  {
    if !owned then Save(s)
    else
      var s1 := Force(s.(tasks := s.tasks[s.cur := s.tasks[s.cur].(state := Waiting)]));
      s1.(tasks := s1.tasks[s.cur := s1.tasks[s.cur].(saved := s1.frame)])
  }

  /** The caller keeps its context exactly when it does not own the target, or no other task
      is switched to, or that task happens to have the same registers: otherwise the final save
      overwrites the caller's frame with the next task's. */
  lemma WaitKeepsContextIff(s: Sched, owned: bool)
    requires Wf(s)
    ensures var next := FindNext(s.tasks, s.cur);
            && next < TASK_COUNT
            && (Context(Wait(s, owned), s.cur) == Context(s, s.cur) <==>
                  !owned || next == s.cur || s.tasks[next].saved == s.frame)
            && forall p :: 0 <= p < TASK_COUNT && p != s.cur ==> Context(Wait(s, owned), p) == Context(s, p)
  {
    var waiting := s.tasks[s.cur := s.tasks[s.cur].(state := Waiting)];
    FindNextSpec(s.tasks, s.cur);
    SameNext(s.tasks, waiting[s.cur := waiting[s.cur].(used := 0)], s.cur);
  }

  /** WAIT for a task of its own puts the caller among the waiting, from where no switch will choose
      it, and runs the next task; WAIT for any other task does neither. */
  lemma WaitSpec(s: Sched, owned: bool)
    requires Wf(s)
    ensures var s' := Wait(s, owned); var t := s.tasks[s.cur]; var t' := s'.tasks[s.cur];
            && |s'.tasks| == TASK_COUNT && t'.live == t.live && t'.max == t.max
            && (owned ==> t'.state == Waiting && t'.used == 0 && IsNext(s.tasks, s.cur, s'.cur)
                          && s'.frame == if s'.cur == s.cur then s.frame else s.tasks[s'.cur].saved)
            && (!owned ==> t'.state == t.state && t'.used == t.used && s'.cur == s.cur && s'.frame == s.frame)
            && forall p :: 0 <= p < TASK_COUNT && p != s.cur ==> s'.tasks[p] == s.tasks[p]
  {
    if owned {
      var waiting := s.tasks[s.cur := s.tasks[s.cur].(state := Waiting)];
      ForceSpec(s.(tasks := waiting));
      hide Force;
      NextKept(waiting, s.tasks, s.cur, Force(s.(tasks := waiting)).cur);
    }
  }

  /** The choice of the next task does not look at the current one or below. */
  lemma {:induction false} SameRunnable(a: seq<Task>, b: seq<Task>, i: nat)
    requires |a| == |b| && forall j :: i <= j < |a| ==> Runnable(a[j]) == Runnable(b[j])
    ensures FirstRunnable(a, i) == FirstRunnable(b, i)
    decreases |a| - i
  {
    if i < |a| {
      SameRunnable(a, b, i + 1);
    }
  }

  lemma SameNext(a: seq<Task>, b: seq<Task>, cur: nat)
    requires |a| == |b| == TASK_COUNT && forall j :: cur < j < TASK_COUNT ==> Runnable(a[j]) == Runnable(b[j])
    ensures FindNext(a, cur) == FindNext(b, cur)
  {
    SameRunnable(a, b, cur + 1);
  }

  // ---------------------------------------------------------------------------------
  // Tick budgets
  // ---------------------------------------------------------------------------------

  ghost predicate WithinBudget(s: Sched) {
    forall p :: 0 <= p < |s.tasks| ==> s.tasks[p].used <= s.tasks[p].max
  }

  /** UsedTicks never exceeds MaxTicks, in any run whose updates respect it. */
  lemma {:induction false} BudgetKept(s: Sched, events: seq<Event>)
    requires Wf(s) && WithinBudget(s)
    requires forall e :: e in events && e.Update? ==> e.task.used <= e.task.max
    ensures WithinBudget(Run(s, events))
    decreases |events|
  {
    if events != [] {
      assert events[0] in events;
      assert WithinBudget(Exec(s, events[0])) by {
        FindNextSpec(s.tasks, s.cur);
      }
      hide Exec;
      BudgetKept(Exec(s, events[0]), events[1..]);
    }
  }

  /** So many ticks and nothing else. */
  function OnlyTicks(k: nat): (r: seq<Event>)
    ensures |r| == k
  {
    seq(k, i => TickEvent)
  }

  /** A ready task with ticks left keeps the processor for every tick it has left, each counted, and
      everything else stays as it is ... */
  lemma {:induction false} TurnLasts(s: Sched, k: nat)
    requires Wf(s) && s.tasks[s.cur].state == Ready && s.tasks[s.cur].used + k <= s.tasks[s.cur].max
    ensures var s' := Run(s, OnlyTicks(k)); var t := s.tasks[s.cur];
            && s'.cur == s.cur && s'.frame == s.frame && OnlySlot(s.tasks, s'.tasks, s.cur)
            && s'.tasks[s.cur] == t.(used := t.used + k, saved := if k == 0 then t.saved else s.frame)
    decreases k
  {
    if k > 0 {
      TickSpec(s);
      assert OnlyTicks(k)[1..] == OnlyTicks(k - 1);
      hide Tick;
      TurnLasts(Exec(s, TickEvent), k - 1);
    }
  }

  /** ... and loses it to the next task at the tick after that, ready for another full turn.  A turn
      that starts with no ticks used thus lasts exactly MaxTicks ticks. */
  lemma TurnEnds(s: Sched)
    requires Wf(s) && s.tasks[s.cur].state == Ready && s.tasks[s.cur].used <= s.tasks[s.cur].max
    ensures var t := s.tasks[s.cur]; var s' := Run(s, OnlyTicks(t.max - t.used + 1));
            && IsNext(s.tasks, s.cur, s'.cur) && OnlySlot(s.tasks, s'.tasks, s.cur)
            && s'.tasks[s.cur] == t.(used := 0, saved := s.frame)
            && s'.frame == s'.tasks[s'.cur].saved
  {
    hide Tick; hide Run; hide IsNext;
    var t := s.tasks[s.cur];
    var k := t.max - t.used;
    TurnLasts(s, k);
    RunLast(s, OnlyTicks(k), TickEvent);
    assert OnlyTicks(k + 1) == OnlyTicks(k) + [TickEvent];
    var s1 := Run(s, OnlyTicks(k));
    TickSpec(s1);
    NextKept(s1.tasks, s.tasks, s.cur, Tick(s1).cur);
  }

  lemma {:induction false} RunLast(s: Sched, events: seq<Event>, e: Event)
    requires Wf(s)
    ensures Run(s, events + [e]) == Exec(Run(s, events), e)
    decreases |events|
  {
    hide Exec;
    if events == [] {
      assert Run(Exec(s, e), []) == Exec(s, e);
    } else {
      assert (events + [e])[1..] == events[1..] + [e];
      RunLast(Exec(s, events[0]), events[1..], e);
    }
  }

  // ---------------------------------------------------------------------------------
  // Bounded wait
  // ---------------------------------------------------------------------------------

  /** The ticks a task may take before its turn is over, if it is one that ever runs: `quota`
      bounds MaxTicks, and `ring` holds the tasks that may become ready. */
  function Turn(ring: set<nat>, quota: seq<nat>, p: nat): nat {
    if p < |quota| && (p in ring || p == 0) then quota[p] + 1 else 0
  }

  /** The turns of tasks lo to hi - 1. */
  function Turns(ring: set<nat>, quota: seq<nat>, lo: nat, hi: nat): nat
    decreases hi - lo
  {
    if lo >= hi then 0 else Turn(ring, quota, lo) + Turns(ring, quota, lo + 1, hi)
  }

  /** The turns of the tasks met going round from just after `cur` to just before `target`. */
  function Ahead(ring: set<nat>, quota: seq<nat>, cur: nat, target: nat): nat {
    if cur < target then Turns(ring, quota, cur + 1, target)
    else Turns(ring, quota, cur + 1, TASK_COUNT) + Turns(ring, quota, 0, target)
  }

  ghost predicate TaskOk(t: Task, p: nat, ring: set<nat>, quota: seq<nat>)
    requires p < |quota|
  {
    t.used <= t.max <= quota[p] && (Runnable(t) ==> p in ring)
  }

  /** The target is ready, and the others keep to their quotas. */
  ghost predicate Fair(s: Sched, ring: set<nat>, quota: seq<nat>, target: nat) {
    && Wf(s) && |quota| == TASK_COUNT && target < TASK_COUNT
    && (target == 0 || Runnable(s.tasks[target]))
    && forall p :: 0 <= p < TASK_COUNT ==> TaskOk(s.tasks[p], p, ring, quota)
  }

  /** Ticks until the target's turn, at most. */
  function Distance(s: Sched, ring: set<nat>, quota: seq<nat>, target: nat): int
    requires Wf(s) && |quota| == TASK_COUNT
  {
    quota[s.cur] + 1 - s.tasks[s.cur].used + Ahead(ring, quota, s.cur, target)
  }

  lemma {:induction false} TurnsSplit(ring: set<nat>, quota: seq<nat>, lo: nat, mid: nat, hi: nat)
    requires lo <= mid <= hi
    ensures Turns(ring, quota, lo, hi) == Turns(ring, quota, lo, mid) + Turns(ring, quota, mid, hi)
    decreases mid - lo
  {
    if lo < mid {
      TurnsSplit(ring, quota, lo + 1, mid, hi);
    }
  }

  /** Going on to the next runnable task spends its turn out of what lay ahead. */
  lemma AheadOfNext(ring: set<nat>, quota: seq<nat>, cur: nat, next: nat, target: nat)
    requires |quota| == TASK_COUNT && cur < TASK_COUNT && next < TASK_COUNT && target < TASK_COUNT
    requires next != target && cur != target && (next in ring || next == 0)
    requires if next > cur then target < cur || next < target else next == 0 && target < cur
    ensures quota[next] + 1 + Ahead(ring, quota, next, target) <= Ahead(ring, quota, cur, target)
  {
    if next > cur {
      if next < target {
        TurnsSplit(ring, quota, cur + 1, next, target);
      } else {
        TurnsSplit(ring, quota, cur + 1, next, TASK_COUNT);
      }
    }
  }

  /** The state after `cur` has been taken off the processor, its slot now holding t, and the
      next task put on it. */
  lemma SwitchFair(s: Sched, t: Task, ring: set<nat>, quota: seq<nat>, target: nat)
    requires Fair(s, ring, quota, target) && s.cur != target
    requires t.used == 0 && t.max <= quota[s.cur] && !(Runnable(t) && !Runnable(s.tasks[s.cur]))
    ensures var tasks := s.tasks[s.cur := t]; var n := FindNext(tasks, s.cur);
            && n < TASK_COUNT
            && Fair(s.(tasks := tasks, cur := n), ring, quota, target)
            && (n != target ==> Distance(s.(tasks := tasks, cur := n), ring, quota, target) < Distance(s, ring, quota, target))
  {
    var tasks := s.tasks[s.cur := t];
    var n := FindNext(tasks, s.cur);
    FindNextSpec(tasks, s.cur);
    assert forall p :: 0 <= p < TASK_COUNT ==> TaskOk(tasks[p], p, ring, quota);
    assert target != 0 ==> Runnable(tasks[target]);
    if n != target {
      assert n > s.cur ==> TaskOk(tasks[n], n, ring, quota);
      AheadOfNext(ring, quota, s.cur, n, target);
    }
  }

  /** Distance and fairness do not depend on saved registers. */
  lemma OnlySavedDiffers(s: Sched, s': Sched, ring: set<nat>, quota: seq<nat>, target: nat)
    requires Fair(s, ring, quota, target) && Wf(s') && s'.cur == s.cur
    requires forall p :: 0 <= p < TASK_COUNT ==> s'.tasks[p] == s.tasks[p].(saved := s'.tasks[p].saved)
    ensures Fair(s', ring, quota, target) && Distance(s', ring, quota, target) == Distance(s, ring, quota, target)
  {
    forall p | 0 <= p < TASK_COUNT ensures TaskOk(s'.tasks[p], p, ring, quota) {
      assert TaskOk(s.tasks[p], p, ring, quota);
    }
  }

  /** Every tick brings the target's turn nearer. */
  lemma TickProgress(s: Sched, ring: set<nat>, quota: seq<nat>, target: nat)
    requires Fair(s, ring, quota, target) && s.cur != target && s.tasks[s.cur].state != Creation
    ensures var s' := Tick(s);
            && Fair(s', ring, quota, target)
            && (s'.cur != target ==> Distance(s', ring, quota, target) < Distance(s, ring, quota, target))
  {
    var t := s.tasks[s.cur];
    assert TaskOk(t, s.cur, ring, quota);
    if Expired(t) {
      var u := Reap(t.(used := 0));
      SwitchFair(s, u, ring, quota, target);
      var tasks := s.tasks[s.cur := u];
      var saved := s.tasks[s.cur := u.(saved := s.frame)];
      SameNext(tasks, saved, s.cur);
      assert Save(s).tasks[s.cur := u.(saved := s.frame)] == saved;
      assert u.(saved := s.frame) == Reap(t.(saved := s.frame).(used := 0));
      assert Tick(s).cur == FindNext(saved, s.cur);
      OnlySavedDiffers(s.(tasks := tasks, cur := FindNext(tasks, s.cur)), Tick(s), ring, quota, target);
    } else {
      var s' := Tick(s);
      forall p | 0 <= p < TASK_COUNT ensures TaskOk(s'.tasks[p], p, ring, quota) {
        assert TaskOk(s.tasks[p], p, ring, quota);
      }
    }
  }

  lemma ForceProgress(s: Sched, ring: set<nat>, quota: seq<nat>, target: nat)
    requires Fair(s, ring, quota, target) && s.cur != target
    ensures var s' := Force(s);
            && Fair(s', ring, quota, target)
            && (s'.cur != target ==> Distance(s', ring, quota, target) < Distance(s, ring, quota, target))
  {
    var t := s.tasks[s.cur].(used := 0);
    var u := if t.state == Kill then CLEARED_TASK else t;
    SwitchFair(s, u, ring, quota, target);
    var tasks := s.tasks[s.cur := u];
    SameNext(tasks, s.tasks[s.cur := u.(saved := s.frame)], s.cur);
    OnlySavedDiffers(s.(tasks := tasks, cur := FindNext(tasks, s.cur)), Force(s), ring, quota, target);
  }

  /** What may happen while the target waits.  Ticks do not find the current task in creation;
      updates keep tasks within ring and quota, the target ready, and the current task's used
      ticks as they are. */
  ghost predicate Allowed(s: Sched, e: Event, ring: set<nat>, quota: seq<nat>, target: nat)
    requires Wf(s) && |quota| == TASK_COUNT
  {
    match e
    case TickEvent => s.tasks[s.cur].state != Creation
    case ForceEvent => true
    case Compute(_) => true
    case Update(p, t) =>
      && p < TASK_COUNT && TaskOk(t, p, ring, quota)
      && (p == target && target != 0 ==> Runnable(t))
      && (p == s.cur ==> t.used == s.tasks[p].used)
  }

  /** Only allowed events happen, and the target never gets the processor. */
  ghost predicate Starves(s: Sched, events: seq<Event>, ring: set<nat>, quota: seq<nat>, target: nat)
    requires Wf(s) && |quota| == TASK_COUNT
    decreases |events|
  {
    && s.cur != target
    && (events == [] ||
        (Allowed(s, events[0], ring, quota, target) && Starves(Exec(s, events[0]), events[1..], ring, quota, target)))
  }

  function Ticks(events: seq<Event>): nat {
    if events == [] then 0 else (if events[0].TickEvent? then 1 else 0) + Ticks(events[1..])
  }

  lemma StepProgress(s: Sched, e: Event, ring: set<nat>, quota: seq<nat>, target: nat)
    requires Fair(s, ring, quota, target) && s.cur != target && Allowed(s, e, ring, quota, target)
    ensures var s' := Exec(s, e);
            && Fair(s', ring, quota, target)
            && (s'.cur != target ==>
                  Distance(s', ring, quota, target) + (if e.TickEvent? then 1 else 0) <= Distance(s, ring, quota, target))
  {
    match e
    case TickEvent => TickProgress(s, ring, quota, target);
    case ForceEvent => ForceProgress(s, ring, quota, target);
    case Compute(_) =>
    case Update(p, t) =>
      assert forall q :: 0 <= q < TASK_COUNT ==> TaskOk(Exec(s, e).tasks[q], q, ring, quota);
  }

  lemma {:induction false} StarvationSpendsDistance(s: Sched, events: seq<Event>, ring: set<nat>, quota: seq<nat>, target: nat)
    requires Fair(s, ring, quota, target) && Starves(s, events, ring, quota, target)
    ensures Ticks(events) < Distance(s, ring, quota, target)
    decreases |events|
  {
    assert TaskOk(s.tasks[s.cur], s.cur, ring, quota);
    if events != [] {
      StepProgress(s, events[0], ring, quota, target);
      hide Exec; hide Fair; hide Distance; hide Allowed;
      StarvationSpendsDistance(Exec(s, events[0]), events[1..], ring, quota, target);
    }
  }

  lemma {:induction false} TurnsMonotone(a: set<nat>, b: set<nat>, quota: seq<nat>, lo: nat, hi: nat)
    requires a <= b
    ensures Turns(a, quota, lo, hi) <= Turns(b, quota, lo, hi)
    decreases hi - lo
  {
    if lo < hi {
      TurnsMonotone(a, b, quota, lo + 1, hi);
    }
  }

  /** Bounded wait: a task that stays ready gets the processor before the timer has ticked once
      for every tick of the turns of task 0, of the current task and of the tasks that may be
      ready, whatever else happens in between. */
  lemma BoundedWait(s: Sched, events: seq<Event>, ring: set<nat>, quota: seq<nat>, target: nat)
    requires Fair(s, ring, quota, target) && Starves(s, events, ring, quota, target)
    ensures Ticks(events) < Turns(ring + {s.cur}, quota, 0, TASK_COUNT)
  {
    StarvationSpendsDistance(s, events, ring, quota, target);
    var all := ring + {s.cur};
    TurnsMonotone(ring, all, quota, s.cur + 1, TASK_COUNT);
    TurnsMonotone(ring, all, quota, s.cur + 1, target);
    TurnsMonotone(ring, all, quota, 0, target);
    TurnsSplit(all, quota, 0, s.cur, TASK_COUNT);
    assert Turns(all, quota, s.cur, TASK_COUNT) == Turn(all, quota, s.cur) + Turns(all, quota, s.cur + 1, TASK_COUNT);
    if s.cur < target {
      TurnsSplit(all, quota, s.cur + 1, target, TASK_COUNT);
    } else {
      TurnsSplit(all, quota, 0, target, s.cur);
    }
  }

  // ---------------------------------------------------------------------------------
  // The task manager as the kernel runs it
  // ---------------------------------------------------------------------------------

  class TaskManager {
    const tasks: array<Task>
    var cur: nat
    /** The frame the interrupt being served returns through. */
    var frame: Regs

    constructor (frame: Regs)
      ensures Valid() && fresh(tasks) && cur == 0 && this.frame == frame
    {
      tasks := new Task[TASK_COUNT](i => CLEARED_TASK);
      cur := 0;
      this.frame := frame;
    }

    ghost predicate Valid()
      reads this, tasks
    {
      Wf(State())
    }

    ghost function State(): Sched
      reads this, tasks
    {
      Sched(tasks[..], cur, frame)
    }

    /** find_next_task */
    method FindNextTask() returns (n: nat)
      requires Valid()
      ensures n == FindNext(tasks[..], cur)
    {
      if cur == TASK_COUNT - 1 {
        return 0;
      }
      var i := cur + 1;
      while i < TASK_COUNT
        invariant i <= TASK_COUNT && FindNext(tasks[..], cur) == FirstRunnable(tasks[..], i)
      {
        if Runnable(tasks[i]) {
          return i;
        }
        i := i + 1;
      }
      return 0;
    }

    /** task_switch */
    method TaskSwitch(pid: nat)
      requires Valid() && pid < TASK_COUNT
      modifies this, tasks
      ensures Valid() && State() == Switch(old(State()), pid)
    {
      tasks[cur] := tasks[cur].(saved := frame);
      cur := pid;
      frame := tasks[pid].saved;
    }

    method TimerInterrupt()
      requires Valid()
      modifies this, tasks
      ensures Valid() && State() == Tick(old(State()))
    {
      if tasks[cur].state == Creation {
        return;
      }
      tasks[cur] := tasks[cur].(saved := frame);
      if tasks[cur].used >= tasks[cur].max || tasks[cur].state == Kill || tasks[cur].state == Waiting {
        tasks[cur] := tasks[cur].(used := 0);
        if tasks[cur].state == Kill {
          tasks[cur] := tasks[cur].(state := Null, live := false);
        }
        ghost var t := old(State()).tasks[cur].(saved := frame);
        assert tasks[..] == old(tasks[..])[cur := t][cur := Reap(t.(used := 0))];
        FindNextSpec(tasks[..], cur);
        var next := FindNextTask();
        TaskSwitch(next);
      } else {
        tasks[cur] := tasks[cur].(used := tasks[cur].used + 1);
      }
    }

    method ForceSwitch()
      requires Valid()
      modifies this, tasks
      ensures Valid() && State() == Force(old(State()))
    {
      tasks[cur] := tasks[cur].(used := 0);
      if tasks[cur].state == Kill {
        tasks[cur] := CLEARED_TASK;
      }
      ghost var t := old(tasks[..])[cur].(used := 0);
      assert tasks[..] == old(tasks[..])[cur := if t.state == Kill then CLEARED_TASK else t];
      FindNextSpec(tasks[..], cur);
      var next := FindNextTask();
      tasks[cur] := tasks[cur].(saved := frame);
      TaskSwitch(next);
    }
  }
}
