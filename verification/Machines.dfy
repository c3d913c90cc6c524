/** The processor state that `kernel/arch/x86_64/multitasking/switch.asm` and
    `kernel/arch/x86_64/interrupts/idt.asm` work on, and what their sequences of pushes
    and pops amount to. Memory is made of 64-bit words at 8-byte aligned addresses. */
module Machines {

  type Memory = map<int, int>

  /** The general registers but `rsp`, in the order of `struct trap_frame`. */
  datatype Regs = Regs(r15: int, r14: int, r13: int, r12: int, r11: int, r10: int, r9: int, r8: int,
                       rbp: int, rdi: int, rsi: int, rdx: int, rcx: int, rbx: int, rax: int)

  datatype Machine = Machine(r: Regs, rsp: int, rip: int, cs: int, rflags: int, ss: int, mem: Memory)

  /** `struct context` */
  datatype Context = Context(r12: int, r13: int, r14: int, r15: int, rbp: int, rbx: int, rip: int)

  /** `struct trap_frame` */
  datatype TrapFrame = TrapFrame(r: Regs, vector: int, error: int, rip: int, cs: int, rflags: int, rsp: int, ss: int)

  const CONTEXT_SIZE: int := 56
  const FRAME_SIZE: int := 176

  function Word(mem: Memory, a: int): int {
    if a in mem then mem[a] else 0
  }

  // ---- instructions --------------------------------------------------------------------------

  function Push(m: Machine, v: int): Machine {
    m.(rsp := m.rsp - 8, mem := m.mem[m.rsp - 8 := v])
  }

  function Top(m: Machine): int { Word(m.mem, m.rsp) }

  /** The rest of a pop, once the word on top is in its register. */
  function PopTo(m: Machine, r: Regs): Machine {
    m.(r := r, rsp := m.rsp + 8)
  }

  function Ret(m: Machine): Machine {
    m.(rip := Top(m), rsp := m.rsp + 8)
  }

  // ---- layouts in memory -------------------------------------------------------------------

  ghost predicate ContextAt(mem: Memory, a: int, c: Context) {
    c == Context(Word(mem, a), Word(mem, a + 8), Word(mem, a + 16), Word(mem, a + 24),
                 Word(mem, a + 32), Word(mem, a + 40), Word(mem, a + 48))
  }

  function RegsAt(mem: Memory, a: int): Regs {
    Regs(Word(mem, a), Word(mem, a + 8), Word(mem, a + 16), Word(mem, a + 24), Word(mem, a + 32),
         Word(mem, a + 40), Word(mem, a + 48), Word(mem, a + 56), Word(mem, a + 64), Word(mem, a + 72),
         Word(mem, a + 80), Word(mem, a + 88), Word(mem, a + 96), Word(mem, a + 104), Word(mem, a + 112))
  }

  ghost predicate FrameAt(mem: Memory, a: int, tf: TrapFrame) {
    tf == TrapFrame(RegsAt(mem, a), Word(mem, a + 120), Word(mem, a + 128), Word(mem, a + 136), Word(mem, a + 144),
                    Word(mem, a + 152), Word(mem, a + 160), Word(mem, a + 168))
  }

  /** The same words from `lo` up to `hi`. */
  ghost predicate SameWords(m: Memory, m2: Memory, lo: int, hi: int) {
    forall a :: lo <= a < hi ==> Word(m2, a) == Word(m, a)
  }

  /** The same words outside `[lo, hi)`. */
  ghost predicate SameOutside(m: Memory, m2: Memory, lo: int, hi: int) {
    forall a :: !(lo <= a < hi) ==> Word(m2, a) == Word(m, a)
  }

  // ---- switching ------------------------------------------------------------------------------

  /** What a call of `process_switch_asm` has to preserve: the callee-saved registers and
      the address to return to. */
  function Continuation(m: Machine): Context {
    Context(m.r.r12, m.r.r13, m.r.r14, m.r.r15, m.r.rbp, m.r.rbx, m.rip)
  }

  /** The context of a caller that has just called, its return address on top of the stack. */
  function CallerContext(m: Machine): Context {
    Continuation(m).(rip := Top(m))
  }

  /** Memory after the six pushes. */
  function Suspended(m: Machine): Memory {
    m.mem[m.rsp - 8 := m.r.rbx][m.rsp - 16 := m.r.rbp][m.rsp - 24 := m.r.r15]
         [m.rsp - 32 := m.r.r14][m.rsp - 40 := m.r.r13][m.rsp - 48 := m.r.r12]
  }

  /** `process_switch_asm` from its first instruction to its return. */
  function Switched(m: Machine, next: int): Machine {
    var mem := Suspended(m);
    var r := m.r.(r12 := Word(mem, next), r13 := Word(mem, next + 8), r14 := Word(mem, next + 16),
                  r15 := Word(mem, next + 24), rbp := Word(mem, next + 32), rbx := Word(mem, next + 40));
    m.(r := r, rip := Word(mem, next + 48), rsp := next + CONTEXT_SIZE, mem := mem)
  }

  /** The pushes build the caller's `struct context` right below its return address. */
  lemma {:induction false} SuspendedContext(m: Machine)
    ensures ContextAt(Suspended(m), m.rsp - 48, CallerContext(m))
    ensures SameOutside(m.mem, Suspended(m), m.rsp - 48, m.rsp)
  {}

  /** The pops and the return load the context at `next` and drop it from the stack. */
  lemma {:induction false} SwitchedContext(m: Machine, next: int, c: Context)
    requires ContextAt(Suspended(m), next, c)
    ensures Continuation(Switched(m, next)) == c && Switched(m, next).rsp == next + CONTEXT_SIZE
    ensures SameControl(m, Switched(m, next)) && SameScratch(m.r, Switched(m, next).r)
  {}

  /** Privilege and flags stay as they are. */
  predicate SameControl(m: Machine, t: Machine) {
    t.cs == m.cs && t.ss == m.ss && t.rflags == m.rflags
  }

  /** The registers a call may change, left alone all the same. */
  predicate SameScratch(r: Regs, s: Regs) {
    && s.rax == r.rax && s.rcx == r.rcx && s.rdx == r.rdx && s.rsi == r.rsi && s.rdi == r.rdi
    && s.r8 == r.r8 && s.r9 == r.r9 && s.r10 == r.r10 && s.r11 == r.r11
  }

  // ---- returning --------------------------------------------------------------------------------

  /** `trap_ret`: the frame at `rsp` becomes the state of the processor. */
  function TrapRet(m: Machine): Machine {
    var a := m.rsp;
    Machine(RegsAt(m.mem, a), Word(m.mem, a + 160), Word(m.mem, a + 136), Word(m.mem, a + 144),
            Word(m.mem, a + 152), Word(m.mem, a + 168), m.mem)
  }

  /** Everything `iretq` and the pops restore, as a frame. */
  function FrameOf(m: Machine, vector: int, error: int): TrapFrame {
    TrapFrame(m.r, vector, error, m.rip, m.cs, m.rflags, m.rsp, m.ss)
  }

  /** Memory after pushing `ws`, first to last, from `top` downwards. */
  function Pushed(mem: Memory, top: int, ws: seq<int>): Memory {
    if ws == [] then mem else Pushed(mem, top, ws[..|ws| - 1])[top - 8 * |ws| := ws[|ws| - 1]]
  }

  lemma {:induction false} PushedNext(mem: Memory, top: int, ws: seq<int>, w: int)
    ensures Pushed(mem, top, ws + [w]) == Pushed(mem, top, ws)[top - 8 * |ws| - 8 := w]
  {}

  lemma {:induction false} PushedWord(mem: Memory, top: int, ws: seq<int>, i: nat)
    requires i < |ws|
    ensures Word(Pushed(mem, top, ws), top - 8 * i - 8) == ws[i]
  {
    if i < |ws| - 1 { PushedWord(mem, top, ws[..|ws| - 1], i); }
  }

  lemma {:induction false} PushedOutside(mem: Memory, top: int, ws: seq<int>)
    ensures SameOutside(mem, Pushed(mem, top, ws), top - 8 * |ws|, top)
  {
    if ws != [] { PushedOutside(mem, top, ws[..|ws| - 1]); }
  }

  /** What the processor pushes on an interrupt, then the stub, then `_general_handler_asm`. */
  function TrapWords(m: Machine, vector: int, error: int): seq<int> {
    [m.ss, m.rsp, m.rflags, m.cs, m.rip, error, vector,
     m.r.rax, m.r.rbx, m.r.rcx, m.r.rdx, m.r.rsi, m.r.rdi, m.r.rbp,
     m.r.r8, m.r.r9, m.r.r10, m.r.r11, m.r.r12, m.r.r13, m.r.r14, m.r.r15]
  }

  /** The entry code leaves a `struct trap_frame` of the interrupted state. */
  lemma {:induction false} TrappedFrame(m: Machine, vector: int, error: int, top: int)
    ensures FrameAt(Pushed(m.mem, top, TrapWords(m, vector, error)), top - FRAME_SIZE, FrameOf(m, vector, error))
    ensures SameOutside(m.mem, Pushed(m.mem, top, TrapWords(m, vector, error)), top - FRAME_SIZE, top)
  {
    var ws := TrapWords(m, vector, error);
    PushedOutside(m.mem, top, ws);
    forall i: nat | i < 22 ensures Word(Pushed(m.mem, top, ws), top - FRAME_SIZE + 8 * i) == ws[21 - i] {
      PushedWord(m.mem, top, ws, 21 - i);
    }
    FrameFromWords(Pushed(m.mem, top, ws), top - FRAME_SIZE, FrameOf(m, vector, error), ws);
  }

  lemma {:induction false} FrameFromWords(mem: Memory, a: int, tf: TrapFrame, ws: seq<int>)
    requires |ws| == 22 && forall i: nat :: i < 22 ==> Word(mem, a + 8 * i) == ws[21 - i]
    requires var r := Regs(ws[21], ws[20], ws[19], ws[18], ws[17], ws[16], ws[15], ws[14],
                           ws[13], ws[12], ws[11], ws[10], ws[9], ws[8], ws[7]);
             tf == TrapFrame(r, ws[6], ws[5], ws[4], ws[3], ws[2], ws[1], ws[0])
    ensures FrameAt(mem, a, tf)
  {
    forall i: nat | i < 22 ensures Word(mem, a + 8 * (21 - i)) == ws[i] {
      assert Word(mem, a + 8 * (21 - i)) == ws[21 - (21 - i)];
    }
  }

  /** Returning from a trap makes the frame on the stack, as the handler left it, the
      state of the processor; a frame left alone restores the interrupted state. */
  lemma {:induction false} TrapRoundTrip(m: Machine, vector: int, error: int, top: int, back: Machine, tf: TrapFrame)
    requires back.rsp == top - FRAME_SIZE && FrameAt(back.mem, back.rsp, tf)
    ensures FrameOf(TrapRet(back), tf.vector, tf.error) == tf
    ensures SameWords(Pushed(m.mem, top, TrapWords(m, vector, error)), back.mem, top - FRAME_SIZE, top) ==>
              TrapRet(back).(mem := m.mem) == m
  {
    if SameWords(Pushed(m.mem, top, TrapWords(m, vector, error)), back.mem, top - FRAME_SIZE, top) {
      TrappedFrame(m, vector, error, top);
      FrameMoves(Pushed(m.mem, top, TrapWords(m, vector, error)), back.mem, back.rsp, FrameOf(m, vector, error));
    }
  }

  lemma {:induction false} FrameMoves(m: Memory, m2: Memory, a: int, tf: TrapFrame)
    requires FrameAt(m, a, tf) && SameWords(m, m2, a, a + FRAME_SIZE)
    ensures FrameAt(m2, a, tf)
  {}

  lemma {:induction false} ContextMoves(m: Memory, m2: Memory, a: int, c: Context)
    requires ContextAt(m, a, c) && SameWords(m, m2, a, a + CONTEXT_SIZE)
    ensures ContextAt(m2, a, c)
  {}
}
