/** Kernel stacks and the code that builds and switches them:
    `kernel/arch/x86_64/multitasking/process.c`, `switch.asm` and `interrupts/idt.asm`,
    instruction by instruction. */
module Processes {
  import opened Machines

  const STACK_SIZE: int := 16384
  const USER_CODE: int := 3 * 8 + 3    // (GDT_USER_CODE_INDEX * 8) | DPL_USER
  const USER_DATA: int := 4 * 8 + 3    // (GDT_USER_DATA_INDEX * 8) | DPL_USER

  /** Where the linker put the two routines a fresh stack refers to. */
  datatype Code = Code(trapRet: int, firstRun: int)

  function ZeroRegs(): Regs { Regs(0, 0, 0, 0, 0, 0, 0, 0, 0, 0, 0, 0, 0, 0, 0) }

  function FreshFrame(uentry: int, ustack: int): TrapFrame {
    TrapFrame(ZeroRegs(), 0, 0, uentry, USER_CODE, 0x202, ustack, USER_DATA)
  }

  function FreshContext(code: Code): Context { Context(0, 0, 0, 0, 0, 0, code.firstRun) }

  /** The state in which a process enters user space for the first time. */
  function UserStart(uentry: int, ustack: int, mem: Memory): Machine {
    Machine(ZeroRegs(), ustack, uentry, USER_CODE, 0x202, USER_DATA, mem)
  }

  /** Where `process_arch_init` puts the context: below the frame and the return address. */
  function FreshContextAt(kstack: int): int { kstack + STACK_SIZE - FRAME_SIZE - 8 - CONTEXT_SIZE }

  /** A kernel stack as `process_arch_init` leaves it. */
  ghost predicate Prepared(mem: Memory, kstack: int, uentry: int, ustack: int, code: Code) {
    var top := kstack + STACK_SIZE;
    && FrameAt(mem, top - FRAME_SIZE, FreshFrame(uentry, ustack))
    && Word(mem, top - FRAME_SIZE - 8) == code.trapRet
    && ContextAt(mem, FreshContextAt(kstack), FreshContext(code))
  }

  lemma {:induction false} PreparedMoves(m: Memory, m2: Memory, kstack: int, uentry: int, ustack: int, code: Code)
    requires Prepared(m, kstack, uentry, ustack, code) && SameWords(m, m2, FreshContextAt(kstack), kstack + STACK_SIZE)
    ensures Prepared(m2, kstack, uentry, ustack, code)
  {}

  /** Ring 3, on the user's entries of the descriptor table (3 for code, 4 for data), with
      interrupts on and all general registers clear. */
  ghost predicate InUserSpace(m: Machine, uentry: int, ustack: int) {
    && m.cs % 4 == 3 && m.ss % 4 == 3 && m.cs / 4 % 2 == 0 && m.ss / 4 % 2 == 0
    && m.cs / 8 == 3 && m.ss / 8 == 4
    && m.rflags / 0x200 % 2 == 1 && m.rflags % 0x200 == 2 && m.rflags < 0x400
    && m.rip == uentry && m.rsp == ustack
    && m.r.rax == m.r.rbx == m.r.rcx == m.r.rdx == m.r.rsi == m.r.rdi == m.r.rbp == 0
    && m.r.r8 == m.r.r9 == m.r.r10 == m.r.r11 == m.r.r12 == m.r.r13 == m.r.r14 == m.r.r15 == 0
  }

  /** Loading a fresh context leads through `process_first_run`, which only returns, and
      `trap_ret` to user space, and uses the stack up to exactly its top. */
  lemma {:induction false} FreshPath(m: Machine, kstack: int, uentry: int, ustack: int, code: Code)
    requires Prepared(m.mem, kstack, uentry, ustack, code)
    requires Continuation(m) == FreshContext(code) && m.rsp == FreshContextAt(kstack) + CONTEXT_SIZE
    ensures m.rip == code.firstRun && Ret(m).rip == code.trapRet
    ensures TrapRet(Ret(m)) == UserStart(uentry, ustack, m.mem) && InUserSpace(TrapRet(Ret(m)), uentry, ustack)
    ensures Ret(m).rsp + 176 == kstack + 16384
  {}

  // ---- error codes ---------------------------------------------------------------------------

  /** Extensions of the processor that bring exceptions of their own: control protection
      with shadow stacks, and VMM communication with encrypted register state. */
  datatype Extensions = Extensions(shadowStacks: bool, encryptedState: bool)

  /** The vectors for which the processor itself pushes an error code. */
  predicate PushesError(vector: int, ext: Extensions) {
    || vector == 8 || 10 <= vector <= 14 || vector == 17 || vector == 30
    || (vector == 21 && ext.shadowStacks) || (vector == 29 && ext.encryptedState)
  }

  /** The table of stubs: with an error code expected on the stack, or without. */
  const STUBS: seq<bool> :=
    [false, false, false, false, false, false, false, false,
     true, false, true, true, true, true, true, false,
     false, true, false, false, false, false, false, false,
     false, false, false, false, false, false, true, false]

  predicate StubExpectsError(vector: int) {
    0 <= vector < |STUBS| && STUBS[vector]
  }

  /** Processor and stub agree on whether there is an error code. */
  predicate Agree(vector: int, ext: Extensions) {
    PushesError(vector, ext) == StubExpectsError(vector)
  }

  /** They do on all 256 vectors but 21 and 29, and there as long as the extension that
      raises the exception is off. */
  lemma {:induction false} AgreeExactly(vector: int, ext: Extensions)
    requires 0 <= vector < 256
    ensures Agree(vector, ext) <==>
            !(vector == 21 && ext.shadowStacks) && !(vector == 29 && ext.encryptedState)
    ensures vector in {8, 10, 11, 12, 13, 14, 17, 30} ==> PushesError(vector, ext) && StubExpectsError(vector)
    ensures vector !in {8, 10, 11, 12, 13, 14, 17, 21, 29, 30} ==>
              !PushesError(vector, ext) && !StubExpectsError(vector)
  {}

  class Process {
    const kstack: int
    /** Top-level page table of its space. */
    const root: int
    var context: int
    var tf: int

    constructor (kstack: int, root: int)
      ensures this.kstack == kstack && this.root == root
    {
      this.kstack, this.root := kstack, root;
      context, tf := 0, 0;
    }
  }

  /** What the processor pushes, and the stub behind it. */
  function HardwareWords(m: Machine, vector: int, ext: Extensions, code: int): seq<int> {
    [m.ss, m.rsp, m.rflags, m.cs, m.rip] + (if PushesError(vector, ext) then [code] else [])
    + (if StubExpectsError(vector) then [] else [0]) + [vector]
  }

  /** The general registers in the order they are pushed, five at a time. */
  function FirstFive(r: Regs): seq<int> { [r.rax, r.rbx, r.rcx, r.rdx, r.rsi] }

  function SecondFive(r: Regs): seq<int> { [r.rdi, r.rbp, r.r8, r.r9, r.r10] }

  function ThirdFive(r: Regs): seq<int> { [r.r11, r.r12, r.r13, r.r14, r.r15] }

  /** All words pushed on entry. */
  function EntryWords(m: Machine, vector: int, ext: Extensions, code: int): seq<int> {
    HardwareWords(m, vector, ext, code) + FirstFive(m.r) + SecondFive(m.r) + ThirdFive(m.r)
  }

  lemma {:induction false} EntryIsFrame(m: Machine, vector: int, ext: Extensions, code: int)
    ensures |EntryWords(m, vector, ext, code)| == 22 <==> Agree(vector, ext)
    ensures Agree(vector, ext) ==>
              EntryWords(m, vector, ext, code) == TrapWords(m, vector, if PushesError(vector, ext) then code else 0)
  {}

  /** Five pushes in a row. */
  method PushFive(start: Machine, ghost mem: Memory, ghost top: int, ghost ws: seq<int>, a: int, b: int, c: int,
                  d: int, e: int) returns (m: Machine)
    requires start.mem == Pushed(mem, top, ws) && start.rsp == top - 8 * |ws|
    ensures m == start.(rsp := start.rsp - 40, mem := Pushed(mem, top, ws + [a, b, c, d, e]))
  {
    m := Push(start, a);
    m := Push(m, b);
    m := Push(m, c);
    m := Push(m, d);
    m := Push(m, e);
    PushedFive(mem, top, ws, a, b, c, d, e);
  }

  /** The pushes of the processor and of the stub. */
  method PushHardware(start: Machine, vector: int, ext: Extensions, code: int, top: int) returns (m: Machine)
    ensures var ws := HardwareWords(start, vector, ext, code);
            m == start.(rsp := top - 8 * |ws|, mem := Pushed(start.mem, top, ws))
  {
    m := PushFive(start.(rsp := top), start.mem, top, [], start.ss, start.rsp, start.rflags, start.cs, start.rip);
    ghost var ws := [start.ss, start.rsp, start.rflags, start.cs, start.rip];
    assert [] + ws == ws;
    if PushesError(vector, ext) {
      PushedNext(start.mem, top, ws, code);
      m, ws := Push(m, code), ws + [code];
    }
    if !StubExpectsError(vector) {
      PushedNext(start.mem, top, ws, 0);
      m, ws := Push(m, 0), ws + [0];
    }
    PushedNext(start.mem, top, ws, vector);
    m := Push(m, vector);
    assert ws + [vector] == HardwareWords(start, vector, ext, code);
  }

  /** The fifteen pushes of `_general_handler_asm`. */
  method PushRegs(start: Machine, ghost mem: Memory, ghost top: int, ghost ws: seq<int>) returns (m: Machine)
    requires start.mem == Pushed(mem, top, ws) && start.rsp == top - 8 * |ws|
    ensures m.mem == Pushed(mem, top, ws + FirstFive(start.r) + SecondFive(start.r) + ThirdFive(start.r))
    ensures m == start.(rsp := start.rsp - 120, mem := m.mem)
  {
    m := start;
    m := PushFive(m, mem, top, ws, m.r.rax, m.r.rbx, m.r.rcx, m.r.rdx, m.r.rsi);
    ghost var ws1 := ws + FirstFive(start.r);
    m := PushFive(m, mem, top, ws1, m.r.rdi, m.r.rbp, m.r.r8, m.r.r9, m.r.r10);
    ghost var ws2 := ws1 + SecondFive(start.r);
    m := PushFive(m, mem, top, ws2, m.r.r11, m.r.r12, m.r.r13, m.r.r14, m.r.r15);
  }

  /** The fifteen pops of `trap_ret`. */
  method PopRegs(start: Machine) returns (m: Machine)
    ensures m == start.(r := RegsAt(start.mem, start.rsp), rsp := start.rsp + 120)
  {
    m := start;
    m := PopTo(m, m.r.(r15 := Top(m)));
    m := PopTo(m, m.r.(r14 := Top(m)));
    m := PopTo(m, m.r.(r13 := Top(m)));
    m := PopTo(m, m.r.(r12 := Top(m)));
    m := PopTo(m, m.r.(r11 := Top(m)));
    m := PopTo(m, m.r.(r10 := Top(m)));
    m := PopTo(m, m.r.(r9 := Top(m)));
    m := PopTo(m, m.r.(r8 := Top(m)));
    m := PopTo(m, m.r.(rbp := Top(m)));
    m := PopTo(m, m.r.(rdi := Top(m)));
    m := PopTo(m, m.r.(rsi := Top(m)));
    m := PopTo(m, m.r.(rdx := Top(m)));
    m := PopTo(m, m.r.(rcx := Top(m)));
    m := PopTo(m, m.r.(rbx := Top(m)));
    m := PopTo(m, m.r.(rax := Top(m)));
  }

  class Cpu {
    var state: Machine
    /** Where the processor switches stacks to on entry from user space, and the top-level
        page table it translates with. */
    var tssRsp: int
    var cr3: int

    constructor (m: Machine)
      ensures state == m
    {
      state, tssRsp, cr3 := m, 0, 0;
    }

    /** `process_switch_asm` */
    method SwitchAsm(cur: Process, next: int)
      modifies this`state, cur`context
      ensures state == Switched(old(state), next) && cur.context == old(state).rsp - 48
    {
      var m := state;
      m := Push(m, m.r.rbx);
      m := Push(m, m.r.rbp);
      m := Push(m, m.r.r15);
      m := Push(m, m.r.r14);
      m := Push(m, m.r.r13);
      m := Push(m, m.r.r12);
      cur.context := m.rsp;
      m := m.(rsp := next);
      m := PopTo(m, m.r.(r12 := Top(m)));
      m := PopTo(m, m.r.(r13 := Top(m)));
      m := PopTo(m, m.r.(r14 := Top(m)));
      m := PopTo(m, m.r.(r15 := Top(m)));
      m := PopTo(m, m.r.(rbp := Top(m)));
      m := PopTo(m, m.r.(rbx := Top(m)));
      state := Ret(m);
    }

    /** `process_switch`, called with `ret` as the address behind its own call of
        `process_switch_asm`. */
    method Switch(cur: Process, next: Process, ret: int)
      modifies this, cur`context
      ensures cur == next ==> unchanged(this) && cur.context == old(cur.context)
      ensures cur != next ==> tssRsp == next.kstack + STACK_SIZE - 1 && cr3 == next.root
      ensures cur != next ==> cur.context == old(state).rsp - CONTEXT_SIZE
      ensures cur != next ==> state == Switched(Push(old(state), ret), old(next.context))
    {
      if cur == next {
        return;
      }
      tssRsp := next.kstack + STACK_SIZE - 1;
      cr3 := next.root;
      state := Push(state, ret);
      SwitchAsm(cur, next.context);
    }

    /** Interrupt entry up to the call of `interrupt_handler`: the processor pushes from
        `top` downwards, with an error code of its own for some vectors; the stub and the
        general handler complete the frame. A whole frame of the interrupted state comes about
        exactly when processor and stub agree on the vector. */
    method Enter(vector: int, ext: Extensions, code: int, top: int)
      modifies this`state
      ensures state.rsp == top - 176 <==> Agree(vector, ext)
      ensures var error := if PushesError(vector, ext) then code else 0;
              Agree(vector, ext) ==> FrameAt(state.mem, top - 176, FrameOf(old(state), vector, error))
      ensures Agree(vector, ext) ==> SameOutside(old(state).mem, state.mem, top - 176, top)
      ensures Agree(vector, ext) && vector in {8, 10, 11, 12, 13, 14, 17, 30} ==> Word(state.mem, top - 48) == code
      ensures Agree(vector, ext) && !PushesError(vector, ext) ==> Word(state.mem, top - 48) == 0
      ensures state.r == old(state).r.(rdi := state.rsp)
    {
      var m := PushHardware(state, vector, ext, code, top);
      m := PushRegs(m, state.mem, top, HardwareWords(state, vector, ext, code));
      EntryIsFrame(state, vector, ext, code);
      if Agree(vector, ext) { TrappedFrame(state, vector, if PushesError(vector, ext) then code else 0, top); }
      state := m.(r := m.r.(rdi := m.rsp));
    }

    /** `trap_ret`; `end` is where `iretq` stops reading. */
    method TrapReturn() returns (end: int)
      modifies this`state
      ensures state == TrapRet(old(state)) && end == old(state).rsp + FRAME_SIZE
    {
      var m := PopRegs(state);
      m := m.(rsp := m.rsp + 16);
      m := m.(rip := Top(m), rsp := m.rsp + 8);
      m := m.(cs := Top(m), rsp := m.rsp + 8);
      m := m.(rflags := Top(m), rsp := m.rsp + 8);
      var user := Top(m);
      m := m.(rsp := m.rsp + 8);
      m := m.(ss := Top(m), rsp := m.rsp + 8);
      end := m.rsp;
      state := m.(rsp := user);
    }

    /** `process_arch_init` */
    method ArchInit(proc: Process, uentry: int, ustack: int, code: Code)
      modifies this`state, proc
      ensures Prepared(state.mem, proc.kstack, uentry, ustack, code) && state == old(state).(mem := state.mem)
      ensures proc.context == FreshContextAt(proc.kstack) && proc.tf == proc.kstack + STACK_SIZE - FRAME_SIZE
      ensures SameOutside(old(state).mem, state.mem, FreshContextAt(proc.kstack), proc.kstack + STACK_SIZE)
    {
      var sp := proc.kstack + STACK_SIZE;
      sp := sp - FRAME_SIZE;
      proc.tf := sp;
      var m := InitFrame(state.mem, sp, uentry, ustack);
      sp := sp - 8;
      var m1 := m[sp := code.trapRet];
      sp := sp - CONTEXT_SIZE;
      proc.context := sp;
      var m2 := InitContext(m1, sp, code);
      FrameMoves(m, m2, proc.tf, FreshFrame(uentry, ustack));
      state := state.(mem := m2);
    }
  }

  /** `memset` of whole words to 0. */
  method Clear(mem: Memory, a: int, words: nat) returns (m: Memory)
    ensures forall i: nat :: i < words ==> Word(m, a + 8 * i) == 0
    ensures SameOutside(mem, m, a, a + 8 * words)
  {
    m := mem;
    for k := 0 to words
      invariant forall i: nat :: i < k ==> Word(m, a + 8 * i) == 0
      invariant SameOutside(mem, m, a, a + 8 * k)
    {
      m := m[a + 8 * k := 0];
    }
  }

  method InitFrame(mem: Memory, a: int, uentry: int, ustack: int) returns (m: Memory)
    ensures FrameAt(m, a, FreshFrame(uentry, ustack)) && SameOutside(mem, m, a, a + FRAME_SIZE)
  {
    m := Clear(mem, a, 22);
    FillFrame(m, a, uentry, ustack);
    m := m[a + 160 := ustack];
    m := m[a + 168 := USER_DATA];
    m := m[a + 144 := USER_CODE];
    m := m[a + 152 := 0x202];
    m := m[a + 136 := uentry];
  }

  method InitContext(mem: Memory, a: int, code: Code) returns (m: Memory)
    ensures ContextAt(m, a, FreshContext(code)) && SameOutside(mem, m, a, a + CONTEXT_SIZE)
  {
    m := Clear(mem, a, 7);
    assert Word(m, a + 8 * 0) == 0 && Word(m, a + 8 * 1) == 0 && Word(m, a + 8 * 2) == 0;
    assert Word(m, a + 8 * 3) == 0 && Word(m, a + 8 * 4) == 0 && Word(m, a + 8 * 5) == 0;
    m := m[a + 48 := code.firstRun];
  }

  lemma {:induction false} PushedFive(m: Memory, top: int, ws: seq<int>, a: int, b: int, c: int, d: int, e: int)
    ensures var t := top - 8 * |ws|;
            Pushed(m, top, ws + [a, b, c, d, e]) ==
            Pushed(m, top, ws)[t - 8 := a][t - 16 := b][t - 24 := c][t - 32 := d][t - 40 := e]
  {
    PushedNext(m, top, ws, a);
    PushedNext(m, top, ws + [a], b);
    PushedNext(m, top, ws + [a, b], c);
    PushedNext(m, top, ws + [a, b, c], d);
    PushedNext(m, top, ws + [a, b, c, d], e);
    assert ws + [a] + [b] == ws + [a, b] && ws + [a, b] + [c] == ws + [a, b, c]
        && ws + [a, b, c] + [d] == ws + [a, b, c, d]
        && ws + [a, b, c, d] + [e] == ws + [a, b, c, d, e];
  }

  /** Five words written over an all-zero frame make a fresh one. */
  lemma {:induction false} FillFrame(m: Memory, a: int, uentry: int, ustack: int)
    requires forall i: nat :: i < 22 ==> Word(m, a + 8 * i) == 0
    ensures var m1 := m[a + 160 := ustack][a + 168 := USER_DATA];
            var m2 := m1[a + 144 := USER_CODE][a + 152 := 0x202][a + 136 := uentry];
            FrameAt(m2, a, FreshFrame(uentry, ustack)) && SameOutside(m, m2, a, a + FRAME_SIZE)
  {
    var m2 := m[a + 160 := ustack][a + 168 := USER_DATA][a + 144 := USER_CODE][a + 152 := 0x202][a + 136 := uentry];
    ZeroFrame(m, a);
    assert SameWords(m, m2, a, a + 136);
  }

  lemma {:induction false} ZeroFrame(m: Memory, a: int)
    requires forall i: nat :: i < 22 ==> Word(m, a + 8 * i) == 0
    ensures RegsAt(m, a) == ZeroRegs() && Word(m, a + 120) == 0 && Word(m, a + 128) == 0
  {
    assert Word(m, a + 8 * 0) == 0 && Word(m, a + 8 * 1) == 0 && Word(m, a + 8 * 2) == 0 && Word(m, a + 8 * 3) == 0
        && Word(m, a + 8 * 4) == 0 && Word(m, a + 8 * 5) == 0;
    assert Word(m, a + 8 * 6) == 0 && Word(m, a + 8 * 7) == 0 && Word(m, a + 8 * 8) == 0 && Word(m, a + 8 * 9) == 0
        && Word(m, a + 8 * 10) == 0 && Word(m, a + 8 * 11) == 0;
    assert Word(m, a + 8 * 12) == 0 && Word(m, a + 8 * 13) == 0 && Word(m, a + 8 * 14) == 0 && Word(m, a + 8 * 15) == 0
        && Word(m, a + 8 * 16) == 0;
  }
}
