/**
 * Threads and thread-migrating calls (kernel/src/thread.rs).
 *
 * A thread owns a register context (absent while the thread runs on a
 * hart), the root page table it runs in, a bounded stack of saved callers
 * and an optional call to make on an exception. A call saves the caller's
 * `pc`, `sp` and root table on the stack and switches the thread to the
 * callee's; a return pops and restores them.
 */
module Thread {
  import opened Wrappers
  import opened Machine
  import Frame
  import Table

  // ---------------------------------------------------------------- values

  /** `Context`: the general-purpose registers saved for a thread, `pc` included. */
  datatype Context = Context(
    ra: Word, pc: Word, sp: Word, gp: Word, tp: Word,
    t: seq<Word>, s: seq<Word>, a: seq<Word>)

  /** The register file's shape: 7 temporaries, 12 saved registers, 8 argument registers. */
  predicate WellShaped(c: Context) {
    |c.t| == 7 && |c.s| == 12 && |c.a| == 8
  }

  /** `Call`: where a call enters, and the root table it runs in (by frame). */
  datatype Call = Call(pc: Word, sp: Word, l2Table: Frame.Idx)

  /** A `CallCap`: the frame holding a `Call` and the call itself. */
  datatype CallCap = CallCap(frame: Frame.Idx, call: Call)

  /** `CallStack::MAX_DEPTH`. */
  const MAX_DEPTH: nat := 8

  // ---------------------------------------------------------------- the call protocol

  /** What `call` and `ret` read and write of a thread: its context, its root table and its saved callers, oldest first. */
  datatype ThreadState = ThreadState(context: Option<Context>, l2Table: Frame.Idx, calls: seq<Call>)

  /**
   * `ThreadCap::call`: fails when the thread has no context (it is
   * running) or its stack already holds `MAX_DEPTH` callers; otherwise
   * saves the caller and enters `target`.
   */
  function CallStep(st: ThreadState, target: Call): (r: Option<ThreadState>)
    ensures r.Some? <==> st.context.Some? && |st.calls| < MAX_DEPTH
  {
    if st.context.None? || |st.calls| >= MAX_DEPTH then None
    else
      var c := st.context.value;
      Some(ThreadState(
        Some(c.(pc := target.pc, sp := target.sp)),
        target.l2Table,
        st.calls + [Call(c.pc, c.sp, st.l2Table)]))
  }

  /** `ThreadCap::ret`: fails with no context or no saved caller; otherwise resumes the newest caller. */
  function RetStep(st: ThreadState): (r: Option<ThreadState>)
    ensures r.Some? <==> st.context.Some? && |st.calls| > 0
  {
    if st.context.None? || |st.calls| == 0 then None
    else
      var c := st.context.value;
      var back := st.calls[|st.calls| - 1];
      Some(ThreadState(
        Some(c.(pc := back.pc, sp := back.sp)),
        back.l2Table,
        st.calls[..|st.calls| - 1]))
  }

  /**
   * A successful call enters the target with every other register as it
   * was, and saves exactly the caller's `pc`, `sp` and root table on top of
   * the stack.
   */
  lemma CallEntersTarget(st: ThreadState, target: Call)
    requires CallStep(st, target).Some?
    ensures
      var after := CallStep(st, target).value;
      && after.context.value.pc == target.pc
      && after.context.value.sp == target.sp
      && after.l2Table == target.l2Table
      && after.context.value.(pc := st.context.value.pc, sp := st.context.value.sp) == st.context.value
      && after.calls[..|st.calls|] == st.calls
      && after.calls[|st.calls|] == Call(st.context.value.pc, st.context.value.sp, st.l2Table)
  {
    var after := CallStep(st, target).value;
    assert after.calls[..|st.calls|] == st.calls;
  }

  /**
   * A successful return takes `pc`, `sp` and the root table from the
   * newest saved caller, keeps every other register, and removes that
   * caller and no other from the stack.
   */
  lemma RetRestores(st: ThreadState)
    requires RetStep(st).Some?
    ensures
      var after := RetStep(st).value;
      var back := st.calls[|st.calls| - 1];
      && after.context.value.pc == back.pc
      && after.context.value.sp == back.sp
      && after.l2Table == back.l2Table
      && after.context.value.(pc := st.context.value.pc, sp := st.context.value.sp) == st.context.value
      && after.calls + [back] == st.calls
  {
  }

  /** A return right after a successful call gives back the thread exactly as it was. */
  lemma CallThenRet(st: ThreadState, target: Call)
    requires CallStep(st, target).Some?
    ensures RetStep(CallStep(st, target).value) == Some(st)
  {
    var after := CallStep(st, target).value;
    assert after.calls[..|after.calls| - 1] == st.calls;
  }

  /** The stack never holds more than `MAX_DEPTH` callers, whatever sequence of calls and returns is made. */
  lemma StepsKeepDepth(st: ThreadState, target: Call)
    requires |st.calls| <= MAX_DEPTH
    ensures CallStep(st, target).Some? ==> |CallStep(st, target).value.calls| <= MAX_DEPTH
    ensures RetStep(st).Some? ==> |RetStep(st).value.calls| < MAX_DEPTH
  {
  }

  // ---------------------------------------------------------------- the call stack

  /** `CallStack`: a fixed array of saved callers, live below `depth`. */
  class CallStack {
    const calls: array<Call>
    var depth: nat

    ghost predicate Valid()
      reads this
    {
      calls.Length == MAX_DEPTH && depth <= MAX_DEPTH
    }

    /** The live callers, oldest first. */
    ghost function Contents(): seq<Call>
      reads this, calls
      requires Valid()
    {
      calls[..depth]
    }

    /**
     * `CallStack::empty`: depth 0. The slots are uninitialised in the
     * source; the model fills them with an arbitrary call that is never read.
     */
    constructor Empty(filler: Call)
      ensures Valid() && fresh(calls)
      ensures Contents() == []
    {
      calls := new Call[MAX_DEPTH](_ => filler);
      depth := 0;
    }

    /** `push`: fails and changes nothing when full; otherwise writes slot `depth` and increments it. */
    method Push(c: Call) returns (ok: bool)
      requires Valid()
      modifies this, calls
      ensures Valid()
      ensures ok <==> old(depth) < MAX_DEPTH
      ensures ok ==> Contents() == old(Contents()) + [c] && depth == old(depth) + 1
      ensures !ok ==> depth == old(depth) && calls[..] == old(calls[..])
    {
      if depth >= MAX_DEPTH {
        return false;
      }
      calls[depth] := c;
      depth := depth + 1;
      ok := true;
    }

    /** `pop`: `None` at depth 0; otherwise the newest caller, whose slot is no longer live. */
    method Pop() returns (r: Option<Call>)
      requires Valid()
      modifies this
      ensures Valid()
      ensures r.Some? <==> old(depth) > 0
      ensures r.Some? ==> r.value == old(Contents())[old(depth) - 1] && depth == old(depth) - 1
      ensures r.Some? ==> Contents() == old(Contents())[..old(depth) - 1]
      ensures r.None? ==> depth == old(depth)
    {
      if depth == 0 {
        return None;
      }
      var index := depth - 1;
      r := Some(calls[index]);
      depth := index;
    }
  }

  /** LIFO: a push that succeeds, then a pop, gives back the pushed call and the stack as it was. */
  method PushThenPop(stack: CallStack, c: Call) returns (r: Option<Call>)
    requires stack.Valid() && stack.depth < MAX_DEPTH
    modifies stack, stack.calls
    ensures stack.Valid()
    ensures r == Some(c)
    ensures stack.depth == old(stack.depth) && stack.Contents() == old(stack.Contents())
  {
    var _ := stack.Push(c);
    r := stack.Pop();
  }

  // ---------------------------------------------------------------- threads

  /** A thread, as reached through a `ThreadCap`. */
  class Thread {
    var context: Option<Context>
    var l2Table: Frame.Idx
    const stack: CallStack
    var exceptionCall: Option<CallCap>

    /** The stack is well formed, and a context that is present has the full register file. */
    ghost predicate Valid()
      reads this, stack
    {
      stack.Valid() && (context.Some? ==> WellShaped(context.value))
    }

    /** The part of the thread that calls and returns work on. */
    ghost function State(): ThreadState
      reads this, stack, stack.calls
      requires Valid()
    {
      ThreadState(context, l2Table, stack.Contents())
    }

    /** The thread as `ThreadCap::new` builds it: with its context, an empty stack and no exception call. */
    constructor (c: Context, root: Frame.Idx)
      requires WellShaped(c)
      ensures Valid() && fresh(stack) && fresh(stack.calls)
      ensures State() == ThreadState(Some(c), root, [])
      ensures exceptionCall.None?
    {
      context := Some(c);
      l2Table := root;
      stack := new CallStack.Empty(Call(c.pc, c.sp, root));
      exceptionCall := None;
    }

    /** `ThreadCap::call`, as `CallStep` specifies; the exception call is untouched. */
    method CallTo(target: Call) returns (ok: bool)
      requires Valid()
      modifies this, stack, stack.calls
      ensures Valid()
      ensures ok <==> CallStep(old(State()), target).Some?
      ensures ok ==> State() == CallStep(old(State()), target).value
      ensures !ok ==> State() == old(State())
      ensures exceptionCall == old(exceptionCall)
    {
      if context.None? {
        return false;
      }
      var c := context.value;
      ok := stack.Push(Call(c.pc, c.sp, l2Table));
      if !ok {
        return;
      }
      context := Some(c.(pc := target.pc, sp := target.sp));
      l2Table := target.l2Table;
    }

    /** `ThreadCap::ret`, as `RetStep` specifies. */
    method Ret() returns (ok: bool)
      requires Valid()
      modifies this, stack
      ensures Valid()
      ensures ok <==> RetStep(old(State())).Some?
      ensures ok ==> State() == RetStep(old(State())).value
      ensures !ok ==> State() == old(State())
      ensures exceptionCall == old(exceptionCall)
    {
      if context.None? {
        return false;
      }
      var back := stack.Pop();
      if back.None? {
        return false;
      }
      var c := context.value;
      context := Some(c.(pc := back.value.pc, sp := back.value.sp));
      l2Table := back.value.l2Table;
      ok := true;
    }

    /**
     * `set_exception_call`: stores `call`, whose handle moves in unchanged,
     * and drops the call it replaces: that record's handle, and, when this
     * destroys the record, the handle of the root table the record holds.
     */
    method SetExceptionCall(ft: Frame.FrameTable, call: CallCap)
      requires Valid() && ft.Valid()
      requires exceptionCall.Some? ==> ft.Accessible(exceptionCall.value.frame)
      requires exceptionCall.Some? && Frame.DropCountReleasing(ft.counts[Frame.Index(exceptionCall.value.frame)]).1 ==>
        ft.Accessible(exceptionCall.value.call.l2Table)
      modifies this, ft.counts
      ensures Valid() && ft.Valid() && State() == old(State())
      ensures exceptionCall == Some(call)
      ensures old(exceptionCall).None? ==> ft.counts[..] == old(ft.counts[..])
      ensures old(exceptionCall).Some? ==>
        var previous := old(exceptionCall).value;
        var mid := Frame.DropAt(old(ft.counts[..]), previous.frame);
        var gone := Frame.DropCountReleasing(old(ft.counts[Frame.Index(previous.frame)])).1;
        ft.counts[..] == if gone then Frame.DropAt(mid, previous.call.l2Table) else mid
    {
      var previous := exceptionCall;
      exceptionCall := Some(call);
      if previous.Some? {
        var gone := ft.Drop(Frame.Arc(previous.value.frame));
        if gone {
          var _ := ft.Drop(Frame.Arc(previous.value.call.l2Table));
        }
      }
    }

    /** `call_exception`: fails while no exception call is set; otherwise makes that call. */
    method CallException() returns (ok: bool)
      requires Valid()
      modifies this, stack, stack.calls
      ensures Valid()
      ensures old(exceptionCall).None? ==> !ok && State() == old(State())
      ensures old(exceptionCall).Some? ==>
        && (ok <==> CallStep(old(State()), old(exceptionCall).value.call).Some?)
        && (ok ==> State() == CallStep(old(State()), old(exceptionCall).value.call).value)
        && (!ok ==> State() == old(State()))
      ensures exceptionCall == old(exceptionCall)
    {
      if exceptionCall.None? {
        return false;
      }
      ok := CallTo(exceptionCall.value.call);
    }

    /**
     * `resume`: fails when the context is already taken (the thread is
     * running elsewhere). Otherwise takes the context, activates the
     * thread's root table on the hart (the table's handle is cloned into
     * `satp`), runs the thread until it traps, and puts back the context
     * the trap saved, returning `scause` and `stval`. `run` stands for the
     * user-mode execution between the switch and the trap.
     */
    method Resume(hart: Table.Hart, ft: Frame.FrameTable, run: Context -> (Context, Word, Word))
      returns (r: Option<(Word, Word)>)
      requires Valid() && hart.Valid() && ft.Valid()
      requires ft.Accessible(l2Table) && ft.counts[Frame.Index(l2Table)] < Frame.CLONE_LIMIT
      requires hart.bootstrapped ==> ft.Accessible(Table.SatpRoot(hart.satp).value)
      requires forall c :: WellShaped(c) ==> WellShaped(run(c).0)
      modifies this, hart, ft.counts
      ensures Valid() && hart.Valid() && ft.Valid()
      ensures l2Table == old(l2Table) && exceptionCall == old(exceptionCall)
      ensures old(context).None? ==>
        && r.None? && context.None?
        && hart.satp == old(hart.satp) && hart.bootstrapped == old(hart.bootstrapped)
        && ft.counts[..] == old(ft.counts[..])
      ensures old(context).Some? ==>
        var (after, scause, stval) := run(old(context).value);
        && r == Some((scause, stval))
        && context == Some(after)
        && hart.satp == Table.Satp(l2Table) && hart.bootstrapped
    {
      if context.None? {
        return None;
      }
      var c := context.value;
      context := None;
      var _, _ := ft.Clone(Frame.Arc(l2Table));
      var _ := hart.Activate(ft, l2Table);
      var (after, scause, stval) := run(c);
      context := Some(after);
      r := Some((scause, stval));
    }
  }

  // ---------------------------------------------------------------- constructors

  /**
   * `ThreadCap::new`: claims frame `f` for the thread. On failure the
   * thread that was to be stored is dropped, and with it the handle of its
   * root table `root`.
   */
  method NewThread(ft: Frame.FrameTable, f: Frame.Idx, c: Context, root: Frame.Idx) returns (t: Option<Thread>)
    requires ft.Valid() && ft.Accessible(f) && ft.Accessible(root)
    requires WellShaped(c)
    modifies ft.counts
    ensures ft.Valid()
    ensures t.Some? <==> Frame.NewWithCount(old(ft.Kind(f)), old(ft.counts[Frame.Index(f)]), Frame.Normal).Some?
    ensures t.Some? ==> fresh(t.value) && t.value.Valid()
    ensures t.Some? ==> t.value.State() == ThreadState(Some(c), root, []) && t.value.exceptionCall.None?
    ensures t.Some? ==> ft.counts[..] == old(ft.counts[..])[Frame.Index(f) := 2]
    ensures t.None? ==> ft.counts[..] == Frame.DropAt(old(ft.counts[..]), root)
  {
    var a := ft.NewWith(f, Frame.Normal);
    if a.None? {
      var _ := ft.Drop(Frame.Arc(root));
      return None;
    }
    var thread := new Thread(c, root);
    t := Some(thread);
  }

  /**
   * `CallCap::new`: claims frame `f` for the call record. On failure the
   * record that was to be stored is dropped, and with it the handle of its
   * root table `root`.
   */
  method NewCallCap(ft: Frame.FrameTable, f: Frame.Idx, pc: Word, sp: Word, root: Frame.Idx) returns (r: Option<CallCap>)
    requires ft.Valid() && ft.Accessible(f) && ft.Accessible(root)
    modifies ft.counts
    ensures ft.Valid()
    ensures r.Some? <==> Frame.NewWithCount(old(ft.Kind(f)), old(ft.counts[Frame.Index(f)]), Frame.Normal).Some?
    ensures r.Some? ==> r.value == CallCap(f, Call(pc, sp, root))
    ensures r.Some? ==> ft.counts[..] == old(ft.counts[..])[Frame.Index(f) := 2]
    ensures r.None? ==> ft.counts[..] == Frame.DropAt(old(ft.counts[..]), root)
  {
    var a := ft.NewWith(f, Frame.Normal);
    if a.None? {
      var _ := ft.Drop(Frame.Arc(root));
      return None;
    }
    r := Some(CallCap(f, Call(pc, sp, root)));
  }
}
