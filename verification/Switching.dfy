/** Any number of processes with disjoint kernel stacks, and any run of computing,
    creating processes and switching between them. */
module Switching {
  import opened Machines
  import opened Processes

  datatype Proc = Proc(kstack: int, context: int)

  datatype Sys = Sys(cpu: Machine, procs: seq<Proc>, running: nat)

  datatype Step =
    | Compute(after: Machine)                              // anything the running process does by itself
    | Switch(next: nat)                                    // a call of process_switch_asm has been made
    | Spawn(kstack: int, uentry: int, ustack: int, mem: Memory)   // process_arch_init, leaving memory `mem`

  predicate StacksApart(a: int, b: int) {
    a + STACK_SIZE <= b || b + STACK_SIZE <= a
  }

  /** The saved context lies in the process's own stack. */
  predicate ContextInside(p: Proc) {
    p.kstack <= p.context && p.context + CONTEXT_SIZE <= p.kstack + STACK_SIZE && p.context % 8 == 0
  }

  ghost predicate Good(s: Sys) {
    && s.running < |s.procs| && (forall i :: 0 <= i < |s.procs| ==> s.procs[i].kstack % 8 == 0)
    && (forall i, j :: 0 <= i < j < |s.procs| ==> StacksApart(s.procs[i].kstack, s.procs[j].kstack))
    && (forall i :: 0 <= i < |s.procs| && i != s.running ==> ContextInside(s.procs[i]))
  }

  /** The calling process has its return address, and room for the six registers, on its
      own kernel stack. */
  predicate OnOwnStack(s: Sys)
    requires s.running < |s.procs|
  {
    var base := s.procs[s.running].kstack;
    base + 48 <= s.cpu.rsp && s.cpu.rsp + 8 <= base + STACK_SIZE && s.cpu.rsp % 8 == 0
  }

  /** A process keeps off the kernel stacks of the others. */
  ghost predicate Legal(s: Sys, step: Step, code: Code)
    requires s.running < |s.procs|
  {
    match step
    case Compute(m) =>
      forall i :: 0 <= i < |s.procs| && i != s.running ==>
          SameWords(s.cpu.mem, m.mem, s.procs[i].kstack, s.procs[i].kstack + STACK_SIZE)
    case Switch(next) => next < |s.procs| && OnOwnStack(s)
    case Spawn(kstack, uentry, ustack, mem) =>
      && kstack % 8 == 0 && (forall i :: 0 <= i < |s.procs| ==> StacksApart(s.procs[i].kstack, kstack))
      && Prepared(mem, kstack, uentry, ustack, code)
          && SameOutside(s.cpu.mem, mem, FreshContextAt(kstack), kstack + STACK_SIZE)
  }

  /** `process_switch` does nothing for the process that is running. */
  ghost function Next(s: Sys, step: Step): Sys
    requires s.running < |s.procs| && (step.Switch? ==> step.next < |s.procs|)
  {
    match step
    case Compute(m) => s.(cpu := m)
    case Switch(next) =>
      if next == s.running then s
      else
        var left := s.procs[s.running].(context := s.cpu.rsp - 48);
        Sys(Switched(s.cpu, s.procs[next].context), s.procs[s.running := left], next)
    case Spawn(kstack, _, _, mem) =>
      s.(cpu := s.cpu.(mem := mem), procs := s.procs + [Proc(kstack, FreshContextAt(kstack))])
  }

  lemma {:induction false} NextGood(s: Sys, step: Step, code: Code)
    requires Good(s) && Legal(s, step, code)
    ensures Good(Next(s, step))
  {
    var t := Next(s, step);
    if step.Switch? {
      forall i | 0 <= i < |t.procs| && i != t.running ensures ContextInside(t.procs[i]) {
        if i != s.running { assert ContextInside(s.procs[i]); }
      }
    }
  }

  // ---- one step seen from a suspended process --------------------------------------------------

  /** Process `p` waits with the same context and the same stack. */
  ghost predicate Undisturbed(s: Sys, t: Sys, p: nat) {
    && p < |s.procs| && p < |t.procs| && t.procs[p] == s.procs[p]
    && SameWords(s.cpu.mem, t.cpu.mem, s.procs[p].kstack, s.procs[p].kstack + STACK_SIZE)
  }

  lemma {:induction false} StepLeavesOthers(s: Sys, step: Step, code: Code, p: nat)
    requires Good(s) && Legal(s, step, code) && p < |s.procs| && p != s.running
    ensures Undisturbed(s, Next(s, step), p)
  {
    match step
    case Compute(m) =>
    case Switch(next) =>
      SuspendedContext(s.cpu);
      var q := s.running;
      assert if p < q then StacksApart(s.procs[p].kstack, s.procs[q].kstack)
             else StacksApart(s.procs[q].kstack, s.procs[p].kstack);
    case Spawn(kstack, _, _, _) =>
      assert StacksApart(s.procs[p].kstack, kstack);
  }

  // ---- runs ------------------------------------------------------------------------------------

  ghost predicate IsRun(states: seq<Sys>, steps: seq<Step>, code: Code) {
    && |states| == |steps| + 1 && Good(states[0])
    && forall t :: 0 <= t < |steps| ==> Follows(states[t], steps[t], states[t + 1], code)
  }

  ghost predicate Follows(s: Sys, step: Step, t: Sys, code: Code) {
    s.running < |s.procs| && Legal(s, step, code) && t == Next(s, step)
  }

  lemma {:induction false} RunGood(states: seq<Sys>, steps: seq<Step>, code: Code, t: nat)
    requires IsRun(states, steps, code) && t < |states|
    ensures Good(states[t])
  {
    if t > 0 {
      RunGood(states, steps, code, t - 1);
      assert Follows(states[t - 1], steps[t - 1], states[t - 1 + 1], code);
      NextGood(states[t - 1], steps[t - 1], code);
    }
  }

  /** Process `p` does not run in the states from `t1` to `t2`. */
  ghost predicate Waits(states: seq<Sys>, p: nat, t1: nat, t2: nat) {
    forall t :: t1 <= t <= t2 && t < |states| ==> states[t].running != p
  }

  lemma {:induction false} WaitingUndisturbed(states: seq<Sys>, steps: seq<Step>, code: Code, p: nat, t1: nat, t2: nat)
    requires IsRun(states, steps, code) && t1 <= t2 < |states| && Waits(states, p, t1, t2) && p < |states[t1].procs|
    ensures Undisturbed(states[t1], states[t2], p)
    decreases t2
  {
    if t1 < t2 {
      WaitingUndisturbed(states, steps, code, p, t1, t2 - 1);
      RunGood(states, steps, code, t2 - 1);
      assert Follows(states[t2 - 1], steps[t2 - 1], states[t2 - 1 + 1], code);
      StepLeavesOthers(states[t2 - 1], steps[t2 - 1], code, p);
      UndisturbedTrans(states[t1], states[t2 - 1], states[t2], p);
    }
  }

  lemma {:induction false} UndisturbedTrans(s: Sys, t: Sys, u: Sys, p: nat)
    requires Undisturbed(s, t, p) && Undisturbed(t, u, p)
    ensures Undisturbed(s, u, p)
  {}

  /** Switching to a waiting process loads the context found at its saved address. */
  lemma {:induction false} SwitchLoads(s: Sys, next: nat, code: Code, c: Context)
    requires Good(s) && Legal(s, Switch(next), code) && next != s.running
             && ContextAt(s.cpu.mem, s.procs[next].context, c)
    ensures var t := Next(s, Switch(next));
            && Continuation(t.cpu) == c && t.cpu.rsp == s.procs[next].context + CONTEXT_SIZE
            && SameWords(s.cpu.mem, t.cpu.mem, s.procs[next].kstack, s.procs[next].kstack + STACK_SIZE)
            && SameControl(s.cpu, t.cpu)
  {
    StepLeavesOthers(s, Switch(next), code, next);
    assert ContextInside(s.procs[next]);
    ContextMoves(s.cpu.mem, Suspended(s.cpu), s.procs[next].context, c);
    SwitchedContext(s.cpu, s.procs[next].context, c);
  }

  /** A process that switches away at `t1` and is switched to next at `t2` finds its
      callee-saved registers, its stack pointer, the address it called from, and all of
      its stack above that, as it left them. */
  lemma {:induction false} Resumed(states: seq<Sys>, steps: seq<Step>, code: Code, p: nat, t1: nat, t2: nat)
    requires IsRun(states, steps, code) && t1 < t2 < |steps| && states[t1].running == p < |states[t1].procs|
    requires steps[t1].Switch? && steps[t1].next != p && Waits(states, p, t1 + 1, t2) && steps[t2] == Switch(p)
    ensures var before, after := states[t1].cpu, states[t2 + 1].cpu;
            && states[t2 + 1].running == p
            && Continuation(after) == CallerContext(before) && after.rsp == before.rsp + 8
            && SameWords(before.mem, after.mem, before.rsp, states[t1].procs[p].kstack + STACK_SIZE)
            && SameControl(states[t2].cpu, after)
  {
    RunGood(states, steps, code, t1);
    RunGood(states, steps, code, t2);
    assert Follows(states[t1], steps[t1], states[t1 + 1], code) && Follows(states[t2], steps[t2], states[t2 + 1], code);
    var s, q := states[t1], states[t1].cpu.rsp - 48;
    SuspendedContext(s.cpu);
    assert states[t1 + 1].cpu.mem == Suspended(s.cpu) && states[t1 + 1].procs[p].context == q;
    WaitingUndisturbed(states, steps, code, p, t1 + 1, t2);
    ContextMoves(Suspended(s.cpu), states[t2].cpu.mem, q, CallerContext(s.cpu));
    SwitchLoads(states[t2], p, code, CallerContext(s.cpu));
  }

  /** In particular a trap frame on that stack is still there, so that `trap_ret` restores
      what was interrupted, however many other processes ran in between. */
  lemma {:induction false} ResumedTrap(states: seq<Sys>, steps: seq<Step>, code: Code, p: nat, t1: nat, t2: nat,
                                       tf: TrapFrame, back: Machine)
    requires IsRun(states, steps, code) && t1 < t2 < |steps| && states[t1].running == p < |states[t1].procs|
    requires steps[t1].Switch? && steps[t1].next != p && Waits(states, p, t1 + 1, t2) && steps[t2] == Switch(p)
    requires states[t1].cpu.rsp <= back.rsp && back.rsp + FRAME_SIZE <= states[t1].procs[p].kstack + STACK_SIZE
    requires FrameAt(states[t1].cpu.mem, back.rsp, tf) && back.mem == states[t2 + 1].cpu.mem
    ensures FrameOf(TrapRet(back), tf.vector, tf.error) == tf
  {
    Resumed(states, steps, code, p, t1, t2);
    FrameMoves(states[t1].cpu.mem, back.mem, back.rsp, tf);
    TrapRoundTrip(back, tf.vector, tf.error, back.rsp + FRAME_SIZE, back, tf);
  }

  /** A process created at `t1` and switched to for the first time at `t2` goes through
      `process_first_run` and `trap_ret` to user space, with the entry, stack, selectors
      and flags of its creation, and its kernel stack used up to exactly the top. */
  lemma {:induction false} FirstResume(states: seq<Sys>, steps: seq<Step>, code: Code, p: nat, t1: nat, t2: nat)
    requires IsRun(states, steps, code) && t1 < t2 < |steps| && steps[t1].Spawn? && p == |states[t1].procs|
    requires Waits(states, p, t1 + 1, t2) && steps[t2] == Switch(p)
    ensures var m := states[t2 + 1].cpu;
            && states[t2 + 1].running == p && m.rip == code.firstRun && Ret(m).rip == code.trapRet
            && TrapRet(Ret(m)) == UserStart(steps[t1].uentry, steps[t1].ustack, m.mem)
            && InUserSpace(TrapRet(Ret(m)), steps[t1].uentry, steps[t1].ustack)
            && Ret(m).rsp + 176 == steps[t1].kstack + 16384
  {
    RunGood(states, steps, code, t2);
    assert Follows(states[t1], steps[t1], states[t1 + 1], code) && Follows(states[t2], steps[t2], states[t2 + 1], code);
    var kstack, uentry, ustack := steps[t1].kstack, steps[t1].uentry, steps[t1].ustack;
    WaitingUndisturbed(states, steps, code, p, t1 + 1, t2);
    PreparedMoves(states[t1 + 1].cpu.mem, states[t2].cpu.mem, kstack, uentry, ustack, code);
    SwitchLoads(states[t2], p, code, FreshContext(code));
    PreparedMoves(states[t2].cpu.mem, states[t2 + 1].cpu.mem, kstack, uentry, ustack, code);
    FreshPath(states[t2 + 1].cpu, kstack, uentry, ustack, code);
  }
}
