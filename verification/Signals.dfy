/**
  Signals (src/kernel/drivers/Userland/signals.c): the frame pushed on the user stack at
  delivery, its restoration by sigret, and arbitrary nesting of the two.
 */
module Signals {
  import opened Registers
  import opened ByteMemory
  import Scheduler

  /** A task's saved registers and its memory. */
  datatype Cpu = Cpu(regs: Regs, mem: Bytes)

  // ---------------------------------------------------------------------------------
  // The user stack
  // ---------------------------------------------------------------------------------

  function Minus8(a: U64): U64 {
    (a + TWO_64 - 8) % TWO_64
  }

  function Plus8(a: U64): U64 {
    (a + 8) % TWO_64
  }

  /** TaskStack_Push */
  function Push(c: Cpu, v: U64): Cpu {
    Cpu(c.regs.(rsp := Minus8(c.regs.rsp)), Store64(c.mem, Minus8(c.regs.rsp), v))
  }

  /** TaskStack_Pop */
  function Pop(c: Cpu): (U64, Cpu) {
    (Load64(c.mem, c.regs.rsp), c.(regs := c.regs.(rsp := Plus8(c.regs.rsp))))
  }

  function PushAll(c: Cpu, vs: seq<U64>): Cpu
    decreases |vs|
  {
    if vs == [] then c else PushAll(Push(c, vs[0]), vs[1..])
  }

  // ---------------------------------------------------------------------------------
  // Delivery and return
  // ---------------------------------------------------------------------------------

  const FRAME_WORDS: nat := 16
  const FRAME_BYTES: nat := 128

  /** The registers of a signal frame in push order; r8 and rflags are not among them. */
  function FrameOf(r: Regs): (vs: seq<U64>)
    ensures |vs| == FRAME_WORDS
  {
    [r.rsp, r.rip, r.rax, r.rbx, r.rcx, r.rdx, r.rbp, r.rdi, r.rsi, r.r9, r.r10, r.r11, r.r12, r.r13, r.r14, r.r15]
  }

  /** r with the registers of a signal frame replaced by those of f. */
  function Restored(r: Regs, f: Regs): Regs {
    r.(rsp := f.rsp, rip := f.rip, rax := f.rax, rbx := f.rbx, rcx := f.rcx, rdx := f.rdx, rbp := f.rbp,
       rdi := f.rdi, rsi := f.rsi, r9 := f.r9, r10 := f.r10, r11 := f.r11, r12 := f.r12, r13 := f.r13,
       r14 := f.r14, r15 := f.r15)
  }

  /** EstablishSignalStack: pushes the frame and leaves its address in r12. */
  function Establish(c: Cpu): Cpu {
    var pushed := PushAll(c, FrameOf(c.regs));
    pushed.(regs := pushed.regs.(r12 := pushed.regs.rsp))
  }

  datatype Args = Args(arg0: U64, arg1: U64, arg2: U64, arg3: U64)

  /** SendSignal to a registered, accessible handler. */
  function Deliver(c: Cpu, entry: U64, args: Args): Cpu {
    var e := Establish(c);
    e.(regs := e.regs.(rdi := args.arg0, rsi := args.arg1, rdx := args.arg2, rcx := args.arg3, rip := entry))
  }

  function PopAll(c: Cpu, k: nat): (r: (seq<U64>, Cpu))
    ensures |r.0| == k
    decreases k
  {
    if k == 0 then ([], c)
    else
      var (v, c1) := Pop(c);
      var (vs, c2) := PopAll(c1, k - 1);
      ([v] + vs, c2)
  }

  /** The registers popped values go to, in pop order; rsp comes last. */
  function Assign(r: Regs, vs: seq<U64>): Regs
    requires |vs| == FRAME_WORDS
  {
    r.(r15 := vs[0], r14 := vs[1], r13 := vs[2], r12 := vs[3], r11 := vs[4], r10 := vs[5], r9 := vs[6], rsi := vs[7],
       rdi := vs[8], rbp := vs[9], rdx := vs[10], rcx := vs[11], rbx := vs[12], rax := vs[13], rip := vs[14], rsp := vs[15])
  }

  /** SignalReturn: sixteen pops from the address in r12. */
  function SignalReturn(c: Cpu): Cpu {
    var (vs, popped) := PopAll(c.(regs := c.regs.(rsp := c.regs.r12)), FRAME_WORDS);
    popped.(regs := Assign(popped.regs, vs))
  }

  /** Value j of vs lies where pushing them from `top` puts it. */
  predicate Pushed(m: Bytes, top: nat, vs: seq<U64>, j: nat)
    requires j < |vs| && 8 * |vs| <= top
  {
    Load64(m, top - 8 * (j + 1)) == vs[j]
  }

  lemma PushSpec(c: Cpu, v: U64)
    requires c.regs.rsp >= 8
    ensures var c1 := Push(c, v);
            && c1.regs == c.regs.(rsp := c.regs.rsp - 8)
            && Load64(c1.mem, c.regs.rsp - 8) == v
            && forall x: nat :: x < c.regs.rsp - 8 || c.regs.rsp <= x ==> Get(c1.mem, x) == Get(c.mem, x)
  {
    Store64Spec(c.mem, c.regs.rsp - 8, v);
  }

  /** Pushing lays the values out downwards from rsp and writes nothing else. */
  lemma {:induction false} PushAllLayout(c: Cpu, vs: seq<U64>)
    requires c.regs.rsp >= 8 * |vs|
    ensures var c' := PushAll(c, vs); var top := c.regs.rsp;
            && c'.regs == c.regs.(rsp := top - 8 * |vs|)
            && (forall j :: 0 <= j < |vs| ==> Pushed(c'.mem, top, vs, j))
            && forall x: nat :: x < top - 8 * |vs| || top <= x ==> Get(c'.mem, x) == Get(c.mem, x)
    decreases |vs|
  {
    hide Push; hide Load64; hide Get;
    if vs != [] {
      var c1 := Push(c, vs[0]);
      var top := c.regs.rsp;
      PushSpec(c, vs[0]);
      PushAllLayout(c1, vs[1..]);
      var c' := PushAll(c, vs);
      forall j | 0 <= j < |vs| ensures Pushed(c'.mem, top, vs, j) {
        if j == 0 {
          assert SameBytes(c1.mem, c'.mem, top - 8, 8);
          Load64Same(c1.mem, c'.mem, top - 8);
        } else {
          assert Pushed(c'.mem, top - 8, vs[1..], j - 1);
        }
      }
    }
  }

  /** Word k above b is the k-th popped register of f's frame. */
  predicate Slot(m: Bytes, b: nat, f: Regs, k: nat)
    requires k < FRAME_WORDS
  {
    Load64(m, b + 8 * k) == FrameOf(f)[FRAME_WORDS - 1 - k]
  }

  /** A signal frame of the registers f lies at address b. */
  predicate FrameAt(m: Bytes, b: nat, f: Regs) {
    forall k :: 0 <= k < FRAME_WORDS ==> Slot(m, b, f, k)
  }

  lemma FrameSame(m: Bytes, m': Bytes, b: nat, f: Regs)
    requires FrameAt(m, b, f) && SameBytes(m, m', b, FRAME_BYTES)
    ensures FrameAt(m', b, f)
  {
    hide Load64; hide Get; hide FrameOf;
    forall k | 0 <= k < FRAME_WORDS ensures Slot(m', b, f, k) {
      assert Slot(m, b, f, k);
      assert SameBytes(m, m', b + 8 * k, 8);
      Load64Same(m, m', b + 8 * k);
    }
  }

  /** Delivery puts the frame of the interrupted registers right below rsp. */
  lemma DeliverLayout(c: Cpu, entry: U64, args: Args)
    requires c.regs.rsp >= FRAME_BYTES
    ensures var d := Deliver(c, entry, args);
            && d.regs.r12 == d.regs.rsp == c.regs.rsp - FRAME_BYTES
            && FrameAt(d.mem, d.regs.r12, c.regs)
            && forall x: nat :: x < c.regs.rsp - FRAME_BYTES || c.regs.rsp <= x ==> Get(d.mem, x) == Get(c.mem, x)
  {
    hide PushAll; hide Load64; hide Get; hide FrameOf;
    var vs := FrameOf(c.regs);
    PushAllLayout(c, vs);
    var d := Deliver(c, entry, args);
    forall k | 0 <= k < FRAME_WORDS ensures Slot(d.mem, d.regs.r12, c.regs, k) {
      assert Pushed(d.mem, c.regs.rsp, vs, FRAME_WORDS - 1 - k);
    }
  }

  /** The task resumes at the handler's entry point with the four arguments in rdi, rsi, rdx and rcx,
      and with rsp and r12 at the frame; its other registers are as they were.  The frame's sixteen
      words are, from rsp upwards, the interrupted registers in the order in which sigret pops them. */
  lemma DeliverSpec(c: Cpu, entry: U64, args: Args)
    requires c.regs.rsp >= FRAME_BYTES
    ensures var d := Deliver(c, entry, args); var r := c.regs; var b := r.rsp - 128;
            && d.regs == r.(rip := entry, rdi := args.arg0, rsi := args.arg1, rdx := args.arg2, rcx := args.arg3,
                            rsp := b, r12 := b)
            && Load64(d.mem, b) == r.r15 && Load64(d.mem, b + 8) == r.r14 && Load64(d.mem, b + 16) == r.r13
            && Load64(d.mem, b + 24) == r.r12 && Load64(d.mem, b + 32) == r.r11 && Load64(d.mem, b + 40) == r.r10
            && Load64(d.mem, b + 48) == r.r9 && Load64(d.mem, b + 56) == r.rsi && Load64(d.mem, b + 64) == r.rdi
            && Load64(d.mem, b + 72) == r.rbp && Load64(d.mem, b + 80) == r.rdx && Load64(d.mem, b + 88) == r.rcx
            && Load64(d.mem, b + 96) == r.rbx && Load64(d.mem, b + 104) == r.rax && Load64(d.mem, b + 112) == r.rip
            && Load64(d.mem, b + 120) == r.rsp
  {
    hide Load64; hide Get; hide PushAll;
    PushAllLayout(c, FrameOf(c.regs));
    DeliverLayout(c, entry, args);
    hide Deliver;
    var d, b, vs := Deliver(c, entry, args), c.regs.rsp - FRAME_BYTES, FrameOf(c.regs);
    forall k | 0 <= k < FRAME_WORDS ensures Load64(d.mem, b + 8 * k) == vs[FRAME_WORDS - 1 - k] {
      assert Slot(d.mem, b, c.regs, k);
    }
    FrameWords(d.mem, b, vs);
  }

  lemma FrameWords(m: Bytes, b: nat, vs: seq<U64>)
    requires |vs| == FRAME_WORDS && forall k :: 0 <= k < FRAME_WORDS ==> Load64(m, b + 8 * k) == vs[FRAME_WORDS - 1 - k]
    ensures Load64(m, b) == vs[15] && Load64(m, b + 8) == vs[14] && Load64(m, b + 16) == vs[13] && Load64(m, b + 24) == vs[12]
    ensures Load64(m, b + 32) == vs[11] && Load64(m, b + 40) == vs[10] && Load64(m, b + 48) == vs[9] && Load64(m, b + 56) == vs[8]
    ensures Load64(m, b + 64) == vs[7] && Load64(m, b + 72) == vs[6] && Load64(m, b + 80) == vs[5] && Load64(m, b + 88) == vs[4]
    ensures Load64(m, b + 96) == vs[3] && Load64(m, b + 104) == vs[2] && Load64(m, b + 112) == vs[1] && Load64(m, b + 120) == vs[0]
  {
    hide Load64;
    assert Load64(m, b + 8 * 0) == vs[15] && Load64(m, b + 8 * 1) == vs[14] && Load64(m, b + 8 * 2) == vs[13];
    assert Load64(m, b + 8 * 3) == vs[12] && Load64(m, b + 8 * 4) == vs[11] && Load64(m, b + 8 * 5) == vs[10];
    assert Load64(m, b + 8 * 6) == vs[9] && Load64(m, b + 8 * 7) == vs[8] && Load64(m, b + 8 * 8) == vs[7];
    assert Load64(m, b + 8 * 9) == vs[6] && Load64(m, b + 8 * 10) == vs[5] && Load64(m, b + 8 * 11) == vs[4];
    assert Load64(m, b + 8 * 12) == vs[3] && Load64(m, b + 8 * 13) == vs[2] && Load64(m, b + 8 * 14) == vs[1];
    assert Load64(m, b + 8 * 15) == vs[0];
  }

  /** Popping reads consecutive words upwards from rsp and changes nothing else. */
  lemma {:induction false} PopAllSpec(c: Cpu, k: nat)
    requires c.regs.rsp + 8 * k < TWO_64
    ensures var (vs, c') := PopAll(c, k);
            && c' == c.(regs := c.regs.(rsp := c.regs.rsp + 8 * k))
            && forall j :: 0 <= j < k ==> vs[j] == Load64(c.mem, c.regs.rsp + 8 * j)
    decreases k
  {
    hide Load64;
    if k > 0 {
      PopAllSpec(Pop(c).1, k - 1);
    }
  }

  /** Popped in this order, the words of a frame are its registers. */
  lemma AssignFrame(r: Regs, f: Regs, vs: seq<U64>)
    requires |vs| == FRAME_WORDS && forall k :: 0 <= k < FRAME_WORDS ==> vs[k] == FrameOf(f)[FRAME_WORDS - 1 - k]
    ensures Assign(r, vs) == Restored(r, f)
  {
    assert vs[0] == f.r15 && vs[1] == f.r14 && vs[2] == f.r13 && vs[3] == f.r12 && vs[4] == f.r11 && vs[5] == f.r10;
    assert vs[6] == f.r9 && vs[7] == f.rsi && vs[8] == f.rdi && vs[9] == f.rbp && vs[10] == f.rdx && vs[11] == f.rcx;
    assert vs[12] == f.rbx && vs[13] == f.rax && vs[14] == f.rip && vs[15] == f.rsp;
  }

  /** sigret with r12 pointing at a frame restores the sixteen registers of that frame. */
  lemma ReturnRestores(c: Cpu, f: Regs)
    requires FrameAt(c.mem, c.regs.r12, f) && c.regs.r12 + FRAME_BYTES < TWO_64
    ensures SignalReturn(c) == Cpu(Restored(c.regs, f), c.mem)
  {
    hide Load64; hide FrameOf; hide PopAll; hide Assign;
    var c1 := c.(regs := c.regs.(rsp := c.regs.r12));
    PopAllSpec(c1, FRAME_WORDS);
    var (vs, popped) := PopAll(c1, FRAME_WORDS);
    forall k | 0 <= k < FRAME_WORDS ensures vs[k] == FrameOf(f)[FRAME_WORDS - 1 - k] {
      assert Slot(c.mem, c.regs.r12, f, k);
    }
    AssignFrame(popped.regs, f, vs);
  }

  // ---------------------------------------------------------------------------------
  // Nesting
  // ---------------------------------------------------------------------------------

  /** What a task does between two points: it computes, arriving at any registers and memory,
      or it is interrupted by a signal whose handler runs and returns. */
  datatype Act =
    | Compute(regs: Regs, mem: Bytes)
    | Signal(entry: U64, args: Args, handler: seq<Act>)

  function Exec(c: Cpu, acts: seq<Act>): Cpu
    decreases acts
  {
    if acts == [] then c else Exec(ExecOne(c, acts[0]), acts[1..])
  }

  function ExecOne(c: Cpu, act: Act): Cpu
    decreases act
  {
    match act
    case Compute(regs, mem) => Cpu(regs, mem)
    case Signal(entry, args, handler) => SignalReturn(Exec(Deliver(c, entry, args), handler))
  }

  /** The signal frames on the stack are untouched, and the innermost one's address is still
      in r12. */
  ghost predicate FramesKept(c: Cpu, c': Cpu, frames: seq<nat>) {
    && (frames != [] ==> c'.regs.r12 == c.regs.r12)
    && forall i :: 0 <= i < |frames| ==> SameBytes(c.mem, c'.mem, frames[i], FRAME_BYTES)
  }

  /** Every computation, at whatever depth, preserves r12 and the sixteen words of each signal
      frame below which it runs, and signals arrive with room for their frame below the stack
      pointer and the frames already there above it. */
  ghost predicate Disciplined(c: Cpu, acts: seq<Act>, frames: seq<nat>)
    decreases acts
  {
    acts == [] || (DisciplinedOne(c, acts[0], frames) && Disciplined(ExecOne(c, acts[0]), acts[1..], frames))
  }

  ghost predicate DisciplinedOne(c: Cpu, act: Act, frames: seq<nat>)
    decreases act
  {
    match act
    case Compute(regs, mem) => FramesKept(c, Cpu(regs, mem), frames)
    case Signal(entry, args, handler) =>
      && c.regs.rsp >= FRAME_BYTES
      && (forall i :: 0 <= i < |frames| ==> c.regs.rsp <= frames[i])
      && Disciplined(Deliver(c, entry, args), handler, [c.regs.rsp - FRAME_BYTES] + frames)
  }

  /** Any number of acts leaves the frames they run under alone. */
  lemma {:induction false} ActsKeepFrames(c: Cpu, acts: seq<Act>, frames: seq<nat>)
    requires Disciplined(c, acts, frames)
    ensures FramesKept(c, Exec(c, acts), frames)
    decreases acts
  {
    hide Deliver; hide SignalReturn; hide Get;
    if acts != [] {
      var c1 := ExecOne(c, acts[0]);
      if acts[0].Signal? {
        SignalUnwinds(c, acts[0], frames);
      }
      ActsKeepFrames(c1, acts[1..], frames);
      forall i | 0 <= i < |frames| ensures SameBytes(c.mem, Exec(c, acts).mem, frames[i], FRAME_BYTES) {
        assert SameBytes(c.mem, c1.mem, frames[i], FRAME_BYTES);
      }
    }
  }

  /** Nested signals unwind: at any depth, a signal whose handler ran to its return leaves the
      sixteen saved registers as they were at delivery, and every enclosing frame intact.  Only
      r8, rflags and the registers outside the frame may have changed. */
  lemma {:induction false} SignalUnwinds(c: Cpu, signal: Act, frames: seq<nat>)
    requires signal.Signal? && DisciplinedOne(c, signal, frames)
    ensures var c' := ExecOne(c, signal);
            && c'.regs == Restored(Exec(Deliver(c, signal.entry, signal.args), signal.handler).regs, c.regs)
            && FramesKept(c, c', frames)
    decreases signal
  {
    hide Deliver; hide SignalReturn; hide Get; hide FrameAt;
    var d := Deliver(c, signal.entry, signal.args);
    var base := c.regs.rsp - FRAME_BYTES;
    var inner := [base] + frames;
    DeliverLayout(c, signal.entry, signal.args);
    ActsKeepFrames(d, signal.handler, inner);
    var e := Exec(d, signal.handler);
    assert SameBytes(d.mem, e.mem, inner[0], FRAME_BYTES);
    FrameSame(d.mem, e.mem, base, c.regs);
    ReturnRestores(e, c.regs);
    forall i | 0 <= i < |frames| ensures SameBytes(c.mem, e.mem, frames[i], FRAME_BYTES) {
      assert inner[i + 1] == frames[i];
      assert SameBytes(d.mem, e.mem, inner[i + 1], FRAME_BYTES);
      assert SameBytes(c.mem, d.mem, frames[i], FRAME_BYTES);
    }
  }

  /** r8 is outside the guarantee: a handler that changes it leaves it changed. */
  lemma R8NotRestored(c: Cpu, entry: U64, args: Args, v: U64)
    requires c.regs.rsp >= FRAME_BYTES && v != c.regs.r8
    ensures var d := Deliver(c, entry, args);
            var signal := Signal(entry, args, [Compute(d.regs.(r8 := v), d.mem)]);
            DisciplinedOne(c, signal, []) && ExecOne(c, signal).regs.r8 == v
  {
    hide Deliver; hide SignalReturn; hide Get; hide FrameAt; hide Load64;
    var d := Deliver(c, entry, args);
    var d' := Cpu(d.regs.(r8 := v), d.mem);
    var handler := [Compute(d.regs.(r8 := v), d.mem)];
    DeliverLayout(c, entry, args);
    assert FramesKept(d, d', [c.regs.rsp - FRAME_BYTES] + []);
    assert handler[1..] == [];
    assert Disciplined(d, handler, [c.regs.rsp - FRAME_BYTES] + []);
    assert Exec(d, handler) == d';
    SignalUnwinds(c, Signal(entry, args, handler), []);
  }

  // ---------------------------------------------------------------------------------
  // The task as the kernel updates it
  // ---------------------------------------------------------------------------------

  class SignalTask {
    var live: bool
    var state: Scheduler.ProcessState
    var regs: Regs
    var mem: Bytes
    var registered: bool
    var entry: U64

    constructor (regs: Regs, mem: Bytes)
      ensures live && state == Scheduler.Creation && Saved() == Cpu(regs, mem) && !registered
    {
      live, state, this.regs, this.mem, registered, entry := true, Scheduler.Creation, regs, mem, false, 0;
    }

    function Saved(): Cpu
      reads this
    {
      Cpu(regs, mem)
    }

    method StackPush(v: U64)
      modifies this
      ensures Saved() == if old(live) then Push(old(Saved()), v) else old(Saved())
      ensures live == old(live) && state == old(state) && registered == old(registered) && entry == old(entry)
    {
      if live {
        regs := regs.(rsp := Minus8(regs.rsp));
        mem := Store64(mem, regs.rsp, v);
      }
    }

    method StackPop() returns (v: U64)
      modifies this
      ensures old(live) ==> (v, Saved()) == Pop(old(Saved()))
      ensures !old(live) ==> v == 0 && Saved() == old(Saved())
      ensures live == old(live) && state == old(state) && registered == old(registered) && entry == old(entry)
    {
      if !live {
        return 0;
      }
      v := Load64(mem, regs.rsp);
      regs := regs.(rsp := Plus8(regs.rsp));
    }

    /** RegisterSignal; `accessible` is what mem_access_ok says of the entry point. */
    method RegisterSignal(handler: U64, accessible: bool)
      modifies this
      ensures old(live) && accessible ==> registered && entry == handler
      ensures !(old(live) && accessible) ==> registered == old(registered) && entry == old(entry)
      ensures Saved() == old(Saved()) && live == old(live) && state == old(state)
    {
      if live && accessible {
        entry := handler;
        registered := true;
      }
    }

    /** SendSignal.  A registered entry point that is no longer accessible leaves the task in
        creation, where no timer tick will ever schedule it. */
    method SendSignal(args: Args, accessible: bool)
      modifies this
      ensures !(old(live) && old(registered)) ==> Saved() == old(Saved()) && state == old(state)
      ensures old(live) && old(registered) && accessible ==>
                Saved() == Deliver(old(Saved()), old(entry), args) && state == Scheduler.Ready
      ensures old(live) && old(registered) && !accessible ==> Saved() == old(Saved()) && state == Scheduler.Creation
      ensures live == old(live) && registered == old(registered) && entry == old(entry)
    {
      if !live || !registered {
        return;
      }
      state := Scheduler.Creation;
      if !accessible {
        return;
      }
      EstablishSignalStack();
      regs := regs.(rdi := args.arg0);
      regs := regs.(rsi := args.arg1);
      regs := regs.(rdx := args.arg2);
      regs := regs.(rcx := args.arg3);
      regs := regs.(rip := entry);
      state := Scheduler.Ready;
    }

    method EstablishSignalStack()
      modifies this
      ensures old(live) ==> Saved() == Establish(old(Saved())) && state == Scheduler.Ready
      ensures !old(live) ==> Saved() == old(Saved()) && state == old(state)
      ensures live == old(live) && registered == old(registered) && entry == old(entry)
    {
      if !live {
        return;
      }
      state := Scheduler.Creation;
      PushFrame(FrameOf(regs));
      regs := regs.(r12 := regs.rsp);
      state := Scheduler.Ready;
    }

    /** The sixteen pushes, in order. */
    method PushFrame(vs: seq<U64>)
      requires live
      modifies this
      ensures Saved() == PushAll(old(Saved()), vs)
      ensures live && state == old(state) && registered == old(registered) && entry == old(entry)
      decreases |vs|
    {
      if vs != [] {
        StackPush(vs[0]);
        PushFrame(vs[1..]);
      }
    }

    /** The sixteen pops, in order. */
    method PopFrame(k: nat) returns (vs: seq<U64>)
      requires live
      modifies this
      ensures (vs, Saved()) == PopAll(old(Saved()), k) && |vs| == k
      ensures live && state == old(state) && registered == old(registered) && entry == old(entry)
      decreases k
    {
      if k == 0 {
        return [];
      }
      var v := StackPop();
      var rest := PopFrame(k - 1);
      return [v] + rest;
    }

    method ReturnFromSignal()
      modifies this
      ensures old(live) ==> Saved() == SignalReturn(old(Saved())) && state == Scheduler.Ready
      ensures !old(live) ==> Saved() == old(Saved()) && state == old(state)
      ensures live == old(live) && registered == old(registered) && entry == old(entry)
    {
      if !live {
        return;
      }
      state := Scheduler.Creation;
      regs := regs.(rsp := regs.r12);
      var vs := PopFrame(FRAME_WORDS);
      regs := Assign(regs, vs);
      state := Scheduler.Ready;
    }
  }
}
