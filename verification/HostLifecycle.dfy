/** The life of a file system host: the Mount thread, the callbacks Init and Destroy of the
    FUSE loop, the signal goroutine and outside callers of Unmount and Notify, interleaved
    one atomic step at a time.  A thread's program counter names the step it takes next. */
module HostLifecycle {
  import opened Fuse

  // The Mount thread.  From M_DEL_HANDLE on come its deferred calls, last registered first.
  type MountPc = n: nat | n <= 13
  const M_IDLE: MountPc := 0
  const M_LOCK_SET: MountPc := 1
  const M_SET: MountPc := 2
  const M_UNLOCK_SET: MountPc := 3
  const M_MAKE_CHAN: MountPc := 4
  const M_GO: MountPc := 5
  const M_NEW_HANDLE: MountPc := 6
  const M_IN_C: MountPc := 7
  const M_DEL_HANDLE: MountPc := 8
  const M_CLOSE_CHAN: MountPc := 9
  const M_WAIT_DONE: MountPc := 10
  const M_LOCK_CLEAR: MountPc := 11
  const M_CLEAR: MountPc := 12
  const M_UNLOCK_CLEAR: MountPc := 13

  // hostInit and hostDestroy, called by the FUSE loop inside the C layer.
  type LoopPc = n: nat | n <= 12
  const L_START: LoopPc := 0
  const L_LOCK_INIT: LoopPc := 1
  const L_SET_FUSE: LoopPc := 2
  const L_UNLOCK_INIT: LoopPc := 3
  const L_NOTIFY: LoopPc := 4
  const L_USER_INIT: LoopPc := 5
  const L_RUNNING: LoopPc := 6
  const L_USER_DESTROY: LoopPc := 7
  const L_STOP: LoopPc := 8
  const L_LOCK_DESTROY: LoopPc := 9
  const L_CLEAR_FUSE: LoopPc := 10
  const L_UNLOCK_DESTROY: LoopPc := 11
  const L_DONE: LoopPc := 12

  // The signal goroutine, which runs Unmount when a signal comes.
  type SignalPc = n: nat | n <= 9
  const G_NONE: SignalPc := 0
  const G_RECEIVE: SignalPc := 1
  const G_LOCK: SignalPc := 2
  const G_READ_FUSE: SignalPc := 3
  const G_READ_MNTP: SignalPc := 4
  const G_UNLOCK: SignalPc := 5
  const G_CALL: SignalPc := 6
  const G_IN_C: SignalPc := 7
  const G_CLOSE_DONE: SignalPc := 8
  const G_ENDED: SignalPc := 9

  // An outside call of Unmount or Notify.
  type CallerPc = n: nat | n <= 5
  const C_LOCK: CallerPc := 0
  const C_READ_FUSE: CallerPc := 1
  const C_READ_MNTP: CallerPc := 2
  const C_UNLOCK: CallerPc := 3
  const C_CALL: CallerPc := 4
  const C_IN_C: CallerPc := 5

  datatype Call = Unmount | Notify(path: string)

  datatype Caller = Caller(call: Call, pc: CallerPc, fuse: Option<nat>, mntp: string)

  datatype Holder = Free | ByMount | ByLoop | BySignal | ByCaller(id: nat)

  /** `gen` counts the mounts begun and stands for the session's struct fuse; `points`
      remembers the mountpoint of every mount. */
  datatype State = State(
    windows: bool, hmu: Holder, fuse: Option<nat>, mntp: string,
    gen: nat, points: map<nat, string>,
    mpc: MountPc, lpc: LoopPc, gpc: SignalPc, gfuse: Option<nat>, gmntp: string,
    sigOpen: bool, sigFull: bool, notified: bool, doneClosed: bool,
    made: nat, deleted: nat,
    callers: map<nat, Caller>)

  datatype Step =
    | MountStep(point: string)
    | LoopStep
    | SignalArrives
    | SignalStep
    | CallerStarts(id: nat, call: Call)
    | CallerStep(id: nat)

  function Init(windows: bool): State {
    State(windows, Free, None, "", 0, map[], M_IDLE, L_DONE, G_NONE, None, "",
          false, false, false, false, 0, 0, map[])
  }

  /** A lock waits for its holder, the C mount for the end of its loop, a receive for a
      signal or the closing of the channel; nothing else waits. */
  predicate Enabled(s: State, step: Step) {
    match step
    case MountStep(_) =>
      && (s.mpc == M_LOCK_SET || s.mpc == M_LOCK_CLEAR ==> s.hmu == Free)
      && (s.mpc == M_IN_C ==> s.lpc == L_START || s.lpc == L_DONE)
      && (s.mpc == M_WAIT_DONE ==> s.doneClosed)
    case LoopStep =>
      && s.mpc == M_IN_C && s.lpc < L_DONE
      && (s.lpc == L_LOCK_INIT || s.lpc == L_LOCK_DESTROY ==> s.hmu == Free)
    case SignalArrives => s.notified
    case SignalStep =>
      && G_NONE < s.gpc < G_ENDED
      && (s.gpc == G_RECEIVE ==> s.sigFull || !s.sigOpen)
      && (s.gpc == G_LOCK ==> s.hmu == Free)
    case CallerStarts(id, _) => id !in s.callers
    case CallerStep(id) => id in s.callers && (s.callers[id].pc == C_LOCK ==> s.hmu == Free)
  }

  function NextMount(s: State): MountPc {
    if s.mpc == M_UNLOCK_CLEAR then M_IDLE
    else if s.windows && s.mpc == M_UNLOCK_SET then M_NEW_HANDLE
    else if s.windows && s.mpc == M_DEL_HANDLE then M_LOCK_CLEAR
    else s.mpc + 1
  }

  function DoMount(s: State, point: string): State {
    s.(mpc := NextMount(s),
       gen := if s.mpc == M_IDLE then s.gen + 1 else s.gen,
       points := if s.mpc == M_IDLE then s.points[s.gen + 1 := point] else s.points,
       hmu := if s.mpc == M_LOCK_SET || s.mpc == M_LOCK_CLEAR then ByMount
              else if s.mpc == M_UNLOCK_SET || s.mpc == M_UNLOCK_CLEAR then Free else s.hmu,
       mntp := if s.mpc == M_SET && s.gen in s.points then s.points[s.gen]
               else if s.mpc == M_CLEAR then "" else s.mntp,
       sigOpen := s.mpc == M_MAKE_CHAN || (s.sigOpen && s.mpc != M_CLOSE_CHAN),
       sigFull := s.sigFull && s.mpc != M_MAKE_CHAN,
       doneClosed := s.doneClosed && s.mpc != M_MAKE_CHAN,
       gpc := if s.mpc == M_GO then G_RECEIVE else s.gpc,
       lpc := if s.mpc == M_NEW_HANDLE then L_START else s.lpc,
       made := if s.mpc == M_NEW_HANDLE then s.made + 1 else s.made,
       deleted := if s.mpc == M_DEL_HANDLE then s.deleted + 1 else s.deleted)
  }

  function DoLoop(s: State): State
    requires s.lpc < L_DONE
  {
    s.(lpc := s.lpc + 1,
       hmu := if s.lpc == L_LOCK_INIT || s.lpc == L_LOCK_DESTROY then ByLoop
              else if s.lpc == L_UNLOCK_INIT || s.lpc == L_UNLOCK_DESTROY then Free else s.hmu,
       fuse := if s.lpc == L_SET_FUSE then Some(s.gen) else if s.lpc == L_CLEAR_FUSE then None else s.fuse,
       notified := if s.lpc == L_NOTIFY then !s.windows else s.notified && s.lpc != L_STOP)
  }

  function NextSignal(s: State): SignalPc
    requires G_NONE < s.gpc < G_ENDED
  {
    if s.gpc == G_RECEIVE && !s.sigFull then G_CLOSE_DONE
    else if s.gpc == G_UNLOCK && s.gfuse.None? then G_CLOSE_DONE
    else s.gpc + 1
  }

  function DoSignal(s: State): State
    requires G_NONE < s.gpc < G_ENDED
  {
    s.(gpc := NextSignal(s),
       sigFull := s.sigFull && s.gpc != G_RECEIVE,
       hmu := if s.gpc == G_LOCK then BySignal else if s.gpc == G_UNLOCK then Free else s.hmu,
       gfuse := if s.gpc == G_READ_FUSE then s.fuse else s.gfuse,
       gmntp := if s.gpc == G_READ_MNTP then s.mntp else s.gmntp,
       doneClosed := s.doneClosed || s.gpc == G_CLOSE_DONE)
  }

  function NextCaller(s: State, c: Caller): Caller {
    if c.pc == C_LOCK then c.(pc := C_READ_FUSE)
    else if c.pc == C_READ_FUSE then c.(pc := if c.call.Unmount? then C_READ_MNTP else C_UNLOCK, fuse := s.fuse)
    else if c.pc == C_READ_MNTP then c.(pc := C_UNLOCK, mntp := s.mntp)
    else if c.pc == C_UNLOCK then c.(pc := C_CALL)
    else c.(pc := C_IN_C)
  }

  /** The call is over: it found no session or has no file to name, or the C function
      has returned. */
  predicate Returns(c: Caller) {
    c.pc == C_IN_C || (c.pc == C_UNLOCK && (c.fuse.None? || c.call == Notify("")))
  }

  function DoCaller(s: State, id: nat): State
    requires id in s.callers
  {
    var c := s.callers[id];
    s.(callers := if Returns(c) then s.callers - {id} else s.callers[id := NextCaller(s, c)],
       hmu := if c.pc == C_LOCK then ByCaller(id) else if c.pc == C_UNLOCK then Free else s.hmu)
  }

  function Do(s: State, step: Step): State
    requires Enabled(s, step)
  {
    match step
    case MountStep(point) => DoMount(s, point)
    case LoopStep => DoLoop(s)
    case SignalArrives => s.(sigFull := true)
    case SignalStep => DoSignal(s)
    case CallerStarts(id, call) => s.(callers := s.callers[id := Caller(call, C_LOCK, None, "")])
    case CallerStep(id) => DoCaller(s, id)
  }

  // -------------------------------------------------------------- the invariant

  predicate CallerHolds(pc: CallerPc) {
    C_READ_FUSE <= pc <= C_UNLOCK
  }

  /** Each thread holds the lock exactly inside its locked sections. */
  ghost predicate LockOk(s: State) {
    && (s.hmu == ByMount <==> M_SET <= s.mpc <= M_UNLOCK_SET || M_CLEAR <= s.mpc)
    && (s.hmu == ByLoop <==> L_SET_FUSE <= s.lpc <= L_UNLOCK_INIT || L_CLEAR_FUSE <= s.lpc <= L_UNLOCK_DESTROY)
    && (s.hmu == BySignal <==> G_READ_FUSE <= s.gpc <= G_UNLOCK)
    && (s.hmu.ByCaller? ==> s.hmu.id in s.callers)
    && forall id {:trigger s.callers[id]} :: id in s.callers ==>
         (s.hmu == ByCaller(id) <==> CallerHolds(s.callers[id].pc))
  }

  ghost predicate FieldsOk(s: State) {
    && (forall g :: g in s.points <==> 1 <= g <= s.gen)
    && (s.mpc != M_IDLE ==> 0 < s.gen)
    && (s.mpc != M_IN_C ==> s.lpc == L_START || s.lpc == L_DONE)
    && s.fuse == (if L_UNLOCK_INIT <= s.lpc <= L_CLEAR_FUSE then Some(s.gen) else None)
    && s.mntp == (if M_UNLOCK_SET <= s.mpc <= M_CLEAR then s.points[s.gen] else "")
    && s.made == s.deleted + (if M_IN_C <= s.mpc <= M_DEL_HANDLE then 1 else 0)
    && s.gen == s.made + (if M_LOCK_SET <= s.mpc <= M_NEW_HANDLE then 1 else 0)
  }

  ghost predicate ChannelsOk(s: State) {
    && (s.notified ==> !s.windows && L_USER_INIT <= s.lpc <= L_STOP)
    && (s.sigOpen <==> !s.windows && M_GO <= s.mpc <= M_CLOSE_CHAN)
    && (s.windows ==>
          s.gpc == G_NONE && !(M_MAKE_CHAN <= s.mpc <= M_GO) && !(M_CLOSE_CHAN <= s.mpc <= M_WAIT_DONE))
    && (if !s.windows && M_NEW_HANDLE <= s.mpc <= M_WAIT_DONE
        then G_NONE < s.gpc && (s.doneClosed <==> s.gpc == G_ENDED)
        else s.gpc == G_NONE || s.gpc == G_ENDED)
    && (s.mpc == M_GO ==> !s.doneClosed)
  }

  /** A session and a mountpoint that belong together. */
  ghost predicate Pair(s: State, fuse: Option<nat>, mntp: string) {
    fuse.Some? && fuse.value in s.points && s.points[fuse.value] == mntp
  }

  ghost predicate CallerOk(s: State, c: Caller) {
    && (c.pc == C_READ_MNTP || c.pc == C_UNLOCK ==> c.fuse == s.fuse)
    && (c.pc == C_UNLOCK && c.call.Unmount? ==> c.mntp == s.mntp)
    && (C_CALL <= c.pc ==>
          && c.fuse.Some? && c.fuse.value in s.points
          && if c.call.Unmount? then Pair(s, c.fuse, c.mntp) else c.call.path != "")
  }

  ghost predicate SignalOk(s: State) {
    && (s.gpc == G_READ_MNTP || s.gpc == G_UNLOCK ==> s.gfuse == s.fuse)
    && (s.gpc == G_UNLOCK ==> s.gmntp == s.mntp)
    && (G_CALL <= s.gpc <= G_IN_C ==>
          s.gfuse == Some(s.gen) && Pair(s, s.gfuse, s.gmntp) && M_IN_C <= s.mpc && L_UNLOCK_INIT <= s.lpc)
  }

  ghost predicate CallersOk(s: State) {
    forall id {:trigger s.callers[id]} :: id in s.callers ==> CallerOk(s, s.callers[id])
  }

  ghost predicate Good(s: State) {
    LockOk(s) && FieldsOk(s) && ChannelsOk(s) && SignalOk(s) && CallersOk(s)
  }

  lemma MountKeepsGood(s: State, point: string)
    requires Good(s) && Enabled(s, MountStep(point))
    ensures Good(DoMount(s, point))
  {
  }

  lemma LoopKeepsGood(s: State)
    requires Good(s) && Enabled(s, LoopStep)
    ensures Good(DoLoop(s))
  {
  }

  lemma SignalKeepsGood(s: State)
    requires Good(s) && Enabled(s, SignalStep)
    ensures Good(DoSignal(s))
  {
  }

  lemma CallerKeepsGood(s: State, id: nat)
    requires Good(s) && Enabled(s, CallerStep(id))
    ensures Good(DoCaller(s, id))
  {
  }

  lemma ArrivalKeepsGood(s: State)
    requires Good(s)
    ensures Good(s.(sigFull := true))
  {
  }

  lemma StartKeepsGood(s: State, id: nat, call: Call)
    requires Good(s) && id !in s.callers
    ensures Good(s.(callers := s.callers[id := Caller(call, C_LOCK, None, "")]))
  {
  }

  lemma StepKeepsGood(s: State, step: Step)
    requires Good(s) && Enabled(s, step)
    ensures Good(Do(s, step))
  {
    match step
    case MountStep(point) => MountKeepsGood(s, point);
    case LoopStep => LoopKeepsGood(s);
    case SignalArrives => ArrivalKeepsGood(s);
    case SignalStep => SignalKeepsGood(s);
    case CallerStarts(id, call) => StartKeepsGood(s, id, call);
    case CallerStep(id) => CallerKeepsGood(s, id);
  }

  // -------------------------------------------------------------------- runs

  predicate Runs(s: State, steps: seq<Step>)
    decreases |steps|
  {
    steps == [] || (Enabled(s, steps[0]) && Runs(Do(s, steps[0]), steps[1..]))
  }

  function Final(s: State, steps: seq<Step>): State
    requires Runs(s, steps)
    decreases |steps|
  {
    if steps == [] then s else Final(Do(s, steps[0]), steps[1..])
  }

  lemma {:induction false} RunKeepsGood(s: State, steps: seq<Step>)
    requires Good(s) && Runs(s, steps)
    ensures Good(Final(s, steps))
    decreases |steps|
  {
    if steps != [] {
      StepKeepsGood(s, steps[0]);
      RunKeepsGood(Do(s, steps[0]), steps[1..]);
    }
  }

  /** What holds in every state of every interleaving, over any number of mounts. */
  lemma Safety(windows: bool, steps: seq<Step>)
    requires Runs(Init(windows), steps)
    ensures var s := Final(Init(windows), steps);
            // a session is shown only while its mount runs, with that mount's mountpoint
            && (s.fuse.Some? ==> s.mpc == M_IN_C && s.fuse == Some(s.gen) && Pair(s, s.fuse, s.mntp))
            // who is inside the C layer does not hold the lock
            && (s.mpc == M_IN_C ==> s.hmu != ByMount)
            && (s.gpc == G_IN_C ==> s.hmu != BySignal)
            && (forall id :: id in s.callers && s.callers[id].pc == C_IN_C ==> s.hmu != ByCaller(id))
            // and got there with a session, and the mountpoint of the same mount or a file to name
            && (s.gpc == G_IN_C ==> s.gfuse == Some(s.gen) && Pair(s, s.gfuse, s.gmntp))
            && (forall id :: id in s.callers && s.callers[id].pc == C_IN_C ==>
                  if s.callers[id].call.Unmount? then Pair(s, s.callers[id].fuse, s.callers[id].mntp)
                  else s.callers[id].fuse.Some? && s.callers[id].call.path != "")
            // signals are sent to an open channel only
            && (Enabled(s, SignalArrives) ==> s.sigOpen)
            // callbacks find the handle of their mount in the table
            && (Enabled(s, LoopStep) ==> s.made == s.deleted + 1 == s.gen)
            // when Mount has returned nothing of it is left behind
            && (s.mpc == M_IDLE ==>
                  && s.mntp == "" && s.fuse == None && !s.notified && !s.sigOpen
                  && s.made == s.deleted == s.gen
                  && (s.gpc == G_NONE || s.gpc == G_ENDED))
  {
    RunKeepsGood(Init(windows), steps);
  }

  // ------------------------------------------------ what a call does before it ends

  /** Only a call's own step ends it, and only in one of three ways: it comes back from the
      C layer, there was no session when it looked, or it names no file. */
  lemma CallEndsOnlySo(windows: bool, steps: seq<Step>, step: Step, id: nat)
    requires Runs(Init(windows), steps) && Enabled(Final(Init(windows), steps), step)
    ensures var s := Final(Init(windows), steps);
            id in s.callers && id !in Do(s, step).callers ==>
              var c := s.callers[id];
              && step == CallerStep(id)
              && (c.pc == C_IN_C ||
                  (c.pc == C_UNLOCK && ((s.fuse.None? && c.fuse.None?) || (c.call.Notify? && c.call.path == ""))))
  {
    RunKeepsGood(Init(windows), steps);
  }

  /** What a call does with the lock: it reads the session and, to unmount, the mountpoint. */
  lemma CallReads(s: State, id: nat)
    requires Good(s) && Enabled(s, CallerStep(id)) && s.callers[id].pc < C_UNLOCK
    ensures var c, t := s.callers[id], Do(s, CallerStep(id));
            && (c.pc == C_LOCK ==> t.callers == s.callers[id := c.(pc := C_READ_FUSE)] && t.hmu == ByCaller(id))
            && (c.pc == C_READ_FUSE ==>
                  t.callers ==
                  s.callers[id := c.(fuse := s.fuse, pc := if c.call == Unmount then C_READ_MNTP else C_UNLOCK)])
            && (c.pc == C_READ_MNTP ==> t.callers == s.callers[id := c.(mntp := s.mntp, pc := C_UNLOCK)])
  {
  }

  /** What it does then: it gives the lock back, and with a session goes into the C layer. */
  lemma CallGoesOn(s: State, id: nat)
    requires Good(s) && id in s.callers && C_UNLOCK <= s.callers[id].pc < C_IN_C
    ensures var c := s.callers[id];
            && Enabled(s, CallerStep(id)) && (c.pc == C_UNLOCK ==> Do(s, CallerStep(id)).hmu == Free)
            && (c.fuse.Some? && c.call != Notify("") ==>
                  Do(s, CallerStep(id)).callers ==
                  s.callers[id := c.(pc := if c.pc == C_UNLOCK then C_CALL else C_IN_C)])
  {
  }

  lemma OthersLeaveCall(s: State, step: Step, id: nat)
    requires Enabled(s, step) && id in s.callers && step != CallerStep(id)
    ensures id in Do(s, step).callers && Do(s, step).callers[id] == s.callers[id]
  {
  }

  /** In some state of the run call `id` is `c`. */
  ghost predicate EverIs(s: State, steps: seq<Step>, id: nat, c: Caller)
    requires Runs(s, steps)
    decreases |steps|
  {
    || (id in s.callers && s.callers[id] == c)
    || (steps != [] && EverIs(Do(s, steps[0]), steps[1..], id, c))
  }

  ghost predicate EverEnds(s: State, steps: seq<Step>, id: nat)
    requires Runs(s, steps)
    decreases |steps|
  {
    id !in s.callers || (steps != [] && EverEnds(Do(s, steps[0]), steps[1..], id))
  }

  /** In every interleaving a call that has read a session, and has a file to name when it
      is to notify, is inside the C layer with what it has read before it ends. */
  lemma {:induction false} CallGoesIntoC(s: State, steps: seq<Step>, id: nat)
    requires Good(s) && Runs(s, steps) && id in s.callers && C_UNLOCK <= s.callers[id].pc
    requires s.callers[id].fuse.Some? && s.callers[id].call != Notify("")
    requires EverEnds(s, steps, id)
    ensures EverIs(s, steps, id, s.callers[id].(pc := C_IN_C))
    decreases |steps|
  {
    var c, step := s.callers[id], steps[0];
    if c.pc != C_IN_C {
      StepKeepsGood(s, step);
      if step == CallerStep(id) {
        CallGoesOn(s, id);
      } else {
        OthersLeaveCall(s, step, id);
      }
      CallGoesIntoC(Do(s, step), steps[1..], id);
    }
  }

  /** What the goroutine does step by step: on a signal it unmounts, on the closing of the
      channel it does not, and in the end it closes `done`. */
  lemma SignalAdvances(s: State)
    requires Good(s) && Enabled(s, SignalStep)
    ensures var t := Do(s, SignalStep);
            && (s.gpc == G_RECEIVE ==> t.gpc == (if s.sigFull then G_LOCK else G_CLOSE_DONE) && !t.sigFull)
            && (s.gpc == G_LOCK ==> t.gpc == G_READ_FUSE && t.hmu == BySignal)
            && (s.gpc == G_READ_FUSE ==> t.gpc == G_READ_MNTP && t.gfuse == s.fuse)
            && (s.gpc == G_READ_MNTP ==> t.gpc == G_UNLOCK && t.gmntp == s.mntp && t.gfuse == s.gfuse)
            && (s.gpc == G_UNLOCK ==> t.gpc == (if s.gfuse.Some? then G_CALL else G_CLOSE_DONE) && t.hmu == Free)
            && (s.gpc == G_CALL ==> t.gpc == G_IN_C)
            && (s.gpc == G_IN_C ==> t.gpc == G_CLOSE_DONE)
            && (s.gpc == G_CLOSE_DONE ==> t.gpc == G_ENDED && t.doneClosed)
            && (G_UNLOCK <= s.gpc ==> t.gfuse == s.gfuse && t.gmntp == s.gmntp)
  {
  }

  lemma OthersLeaveSignal(s: State, step: Step)
    requires Good(s) && Enabled(s, step) && step != SignalStep && G_LOCK <= s.gpc <= G_CLOSE_DONE
    ensures var t := Do(s, step); t.gpc == s.gpc && t.gfuse == s.gfuse && t.gmntp == s.gmntp
  {
  }

  ghost predicate SignalEverInC(s: State, steps: seq<Step>, fuse: Option<nat>, mntp: string)
    requires Runs(s, steps)
    decreases |steps|
  {
    || (s.gpc == G_IN_C && s.gfuse == fuse && s.gmntp == mntp)
    || (steps != [] && SignalEverInC(Do(s, steps[0]), steps[1..], fuse, mntp))
  }

  ghost predicate SignalEverEnds(s: State, steps: seq<Step>)
    requires Runs(s, steps)
    decreases |steps|
  {
    s.gpc == G_ENDED || (steps != [] && SignalEverEnds(Do(s, steps[0]), steps[1..]))
  }

  /** In every interleaving the goroutine, once it has received a signal and read a session,
      is inside the C layer with the pair it has read before it ends. */
  lemma {:induction false} SignalGoesIntoC(s: State, steps: seq<Step>)
    requires Good(s) && Runs(s, steps) && G_UNLOCK <= s.gpc <= G_IN_C && s.gfuse.Some?
    requires SignalEverEnds(s, steps)
    ensures SignalEverInC(s, steps, s.gfuse, s.gmntp)
    decreases |steps|
  {
    if s.gpc != G_IN_C {
      var step := steps[0];
      StepKeepsGood(s, step);
      if step == SignalStep {
        SignalAdvances(s);
      } else {
        OthersLeaveSignal(s, step);
      }
      SignalGoesIntoC(Do(s, step), steps[1..]);
    }
  }

  // ---------------------------------------------------------------- termination

  /** The FUSE loop has returned, and Mount runs its deferred calls. */
  predicate Unwinding(s: State) {
    M_DEL_HANDLE <= s.mpc
  }

  function HolderRest(s: State): nat {
    if s.hmu.ByCaller? && s.hmu.id in s.callers && s.callers[s.hmu.id].pc <= C_UNLOCK
    then C_CALL - s.callers[s.hmu.id].pc else 0
  }

  /** What the Mount thread and the goroutine have left to do. */
  function Rest(s: State): nat {
    (if Unwinding(s) then 14 - s.mpc else 0) + (if G_NONE < s.gpc then 9 - s.gpc else 0)
  }

  /** A step that brings the return of Mount closer: its own, the goroutine's, or one of
      the caller that holds the lock. */
  function Forward(s: State): Step {
    if Enabled(s, MountStep("")) then MountStep("")
    else if s.hmu.ByCaller? then CallerStep(s.hmu.id)
    else SignalStep
  }

  /** A step of the Mount thread or of the goroutine. */
  predicate Own(step: Step) {
    step.MountStep? || step.SignalStep?
  }

  /** A step of the outside call that holds the lock. */
  predicate OfHolder(s: State, step: Step) {
    step.CallerStep? && s.hmu == ByCaller(step.id)
  }

  predicate TakesLock(s: State, step: Step) {
    step.CallerStep? && step.id in s.callers && s.callers[step.id].pc == C_LOCK
  }

  lemma CallerStepsBack(s: State, id: nat)
    requires Good(s) && Enabled(s, CallerStep(id))
    ensures var t := DoCaller(s, id);
            && HolderRest(t) + (if s.hmu == ByCaller(id) then 1 else 0) <=
               HolderRest(s) + if s.callers[id].pc == C_LOCK then 3 else 0
  {
  }

  lemma OthersKeepHolder(s: State, step: Step)
    requires Good(s) && Enabled(s, step) && !step.CallerStep?
    ensures HolderRest(Do(s, step)) == HolderRest(s)
  {
  }

  /** No step of anybody lengthens what is left, every own step shortens it, and a call
      that has the lock takes at most three steps with it. */
  lemma NoStepBack(s: State, step: Step)
    requires Good(s) && Unwinding(s) && Enabled(s, step)
    ensures Rest(Do(s, step)) + (if Own(step) then 1 else 0) <= Rest(s)
    ensures HolderRest(Do(s, step)) + (if OfHolder(s, step) then 1 else 0) <=
            HolderRest(s) + if TakesLock(s, step) then 3 else 0
    ensures Do(s, step).mpc == M_IDLE || Unwinding(Do(s, step))
  {
    if step.CallerStep? {
      CallerStepsBack(s, step.id);
    } else {
      OthersKeepHolder(s, step);
    }
  }

  lemma ForwardEnabled(s: State)
    requires Good(s) && Unwinding(s)
    ensures Enabled(s, Forward(s)) && (Own(Forward(s)) || OfHolder(s, Forward(s))) && !TakesLock(s, Forward(s))
    ensures !s.hmu.ByCaller? ==> Own(Forward(s))
  {
  }

  /** While Mount unwinds it is never stuck: such a step is enabled, and it shortens what
      is left to do. */
  lemma ForwardStep(s: State)
    requires Good(s) && Unwinding(s)
    ensures var step := Forward(s);
            && Enabled(s, step) && (Own(step) || OfHolder(s, step))
            && (Do(s, step).mpc == M_IDLE || Unwinding(Do(s, step)))
            && Rest(Do(s, step)) + HolderRest(Do(s, step)) < Rest(s) + HolderRest(s)
  {
    ForwardEnabled(s);
    NoStepBack(s, Forward(s));
  }

  /** Each step of the run starts while Mount unwinds. */
  ghost predicate KeepsUnwinding(s: State, steps: seq<Step>)
    requires Runs(s, steps)
    decreases |steps|
  {
    steps == [] || (Unwinding(s) && KeepsUnwinding(Do(s, steps[0]), steps[1..]))
  }

  function OwnSteps(steps: seq<Step>): nat
    decreases |steps|
  {
    if steps == [] then 0 else (if Own(steps[0]) then 1 else 0) + OwnSteps(steps[1..])
  }

  function HolderSteps(s: State, steps: seq<Step>): nat
    requires Runs(s, steps)
    decreases |steps|
  {
    if steps == [] then 0
    else (if OfHolder(s, steps[0]) then 1 else 0) + HolderSteps(Do(s, steps[0]), steps[1..])
  }

  /** How often an outside call takes the lock in a run. */
  function LocksTaken(s: State, steps: seq<Step>): nat
    requires Runs(s, steps)
    decreases |steps|
  {
    if steps == [] then 0
    else (if TakesLock(s, steps[0]) then 1 else 0) + LocksTaken(Do(s, steps[0]), steps[1..])
  }

  /** However the threads are interleaved, Mount and the goroutine take a bounded number of
      steps before Mount has returned, and outside calls at most three with the lock for
      each time they take it: only calls that go on taking the lock can hold Mount up. */
  lemma {:induction false} UnwindingIsBounded(s: State, steps: seq<Step>)
    requires Good(s) && Runs(s, steps) && KeepsUnwinding(s, steps)
    ensures OwnSteps(steps) + Rest(Final(s, steps)) <= Rest(s)
    ensures HolderSteps(s, steps) + HolderRest(Final(s, steps)) <= HolderRest(s) + 3 * LocksTaken(s, steps)
    ensures Unwinding(s) ==> Final(s, steps).mpc == M_IDLE || Unwinding(Final(s, steps))
    decreases |steps|
  {
    if steps != [] {
      NoStepBack(s, steps[0]);
      StepKeepsGood(s, steps[0]);
      UnwindingIsBounded(Do(s, steps[0]), steps[1..]);
    }
  }

  /** The run consists of steps of Mount, of the goroutine, and of who holds the lock. */
  ghost predicate NoOthers(s: State, steps: seq<Step>)
    requires Runs(s, steps)
    decreases |steps|
  {
    steps == [] || ((Own(steps[0]) || OfHolder(s, steps[0])) && NoOthers(Do(s, steps[0]), steps[1..]))
  }

  lemma {:induction false} NoOthersCount(s: State, steps: seq<Step>)
    requires Good(s) && Runs(s, steps) && NoOthers(s, steps)
    ensures |steps| <= OwnSteps(steps) + HolderSteps(s, steps) && LocksTaken(s, steps) == 0
    decreases |steps|
  {
    if steps != [] {
      StepKeepsGood(s, steps[0]);
      NoOthersCount(Do(s, steps[0]), steps[1..]);
    }
  }

  /** Every run of such steps is bounded, and one that cannot go on has seen Mount return. */
  lemma MountReturns(s: State, steps: seq<Step>)
    requires Good(s) && Unwinding(s) && Runs(s, steps) && KeepsUnwinding(s, steps) && NoOthers(s, steps)
    ensures |steps| <= Rest(s) + HolderRest(s)
    ensures var t := Final(s, steps);
            (forall step :: Own(step) || OfHolder(t, step) ==> !Enabled(t, step)) ==> t.mpc == M_IDLE
  {
    UnwindingIsBounded(s, steps);
    NoOthersCount(s, steps);
    RunKeepsGood(s, steps);
    var t := Final(s, steps);
    if Unwinding(t) {
      ForwardStep(t);
    }
  }

  lemma ForwardLeavesCalls(s: State)
    requires Good(s) && Unwinding(s) && Enabled(s, Forward(s))
    ensures Forward(s) != LoopStep && Do(s, Forward(s)).gen == s.gen
    ensures !s.hmu.ByCaller? ==> Do(s, Forward(s)).callers == s.callers && !Do(s, Forward(s)).hmu.ByCaller?
  {
  }

  /** The step forward, with the state it leads to. */
  lemma NextForward(s: State) returns (step: Step, s': State)
    requires Good(s) && Unwinding(s)
    ensures Enabled(s, step) && s' == Do(s, step) && Good(s') && (s'.mpc == M_IDLE || Unwinding(s'))
    ensures Rest(s') + HolderRest(s') < Rest(s) + HolderRest(s)
    ensures step != LoopStep && s'.gen == s.gen
    ensures !s.hmu.ByCaller? ==> s'.callers == s.callers && !s'.hmu.ByCaller?
  {
    step := Forward(s);
    ForwardStep(s);
    StepKeepsGood(s, step);
    ForwardLeavesCalls(s);
    s' := Do(s, step);
  }

  /** Such a run to the return exists, and leaves calls that do not hold the lock alone. */
  lemma {:induction false} MountCanReturn(s: State) returns (steps: seq<Step>)
    requires Good(s) && Unwinding(s)
    ensures Runs(s, steps) && Final(s, steps).mpc == M_IDLE && |steps| <= Rest(s) + HolderRest(s)
    ensures LoopStep !in steps && Final(s, steps).gen == s.gen
    ensures !s.hmu.ByCaller? ==> Final(s, steps).callers == s.callers
    decreases Rest(s) + HolderRest(s)
  {
    var step, s' := NextForward(s);
    var rest := [];
    if s'.mpc != M_IDLE {
      rest := MountCanReturn(s');
    }
    steps := Prepend(s, step, rest);
  }

  lemma Prepend(s: State, step: Step, rest: seq<Step>) returns (steps: seq<Step>)
    requires Enabled(s, step) && Runs(Do(s, step), rest)
    ensures steps == [step] + rest && Runs(s, steps) && Final(s, steps) == Final(Do(s, step), rest)
  {
    steps := [step] + rest;
    assert steps[1..] == rest;
  }

  // ----------------------------- how long the session that a call has read stays up

  predicate ClearsSession(s: State, step: Step) {
    step == LoopStep && s.lpc == L_CLEAR_FUSE
  }

  /** hostDestroy takes the session away somewhere in the run. */
  ghost predicate Clears(s: State, steps: seq<Step>)
    requires Runs(s, steps)
    decreases |steps|
  {
    steps != [] && (ClearsSession(s, steps[0]) || Clears(Do(s, steps[0]), steps[1..]))
  }

  /** Session `g` has been taken away. */
  predicate Gone(s: State, g: nat) {
    g < s.gen || (g == s.gen && L_CLEAR_FUSE < s.lpc && (s.mpc == M_IDLE || M_IN_C <= s.mpc))
  }

  lemma GoneStaysGone(s: State, step: Step, g: nat)
    requires Good(s) && Enabled(s, step) && Gone(s, g)
    ensures Gone(Do(s, step), g)
  {
  }

  lemma {:induction false} GoneForGood(s: State, steps: seq<Step>, g: nat)
    requires Good(s) && Runs(s, steps) && Gone(s, g)
    ensures Final(s, steps).fuse != Some(g)
    decreases |steps|
  {
    if steps != [] {
      GoneStaysGone(s, steps[0], g);
      StepKeepsGood(s, steps[0]);
      GoneForGood(Do(s, steps[0]), steps[1..], g);
    }
  }

  lemma OnlyClearingEnds(s: State, step: Step)
    requires Good(s) && Enabled(s, step) && s.fuse.Some?
    ensures if ClearsSession(s, step) then Gone(Do(s, step), s.fuse.value) else Do(s, step).fuse == s.fuse
  {
  }

  lemma {:induction false} SessionEndsExactly(s: State, steps: seq<Step>)
    requires Good(s) && Runs(s, steps) && s.fuse.Some?
    ensures Final(s, steps).fuse == s.fuse <==> !Clears(s, steps)
    decreases |steps|
  {
    if steps != [] {
      OnlyClearingEnds(s, steps[0]);
      StepKeepsGood(s, steps[0]);
      if ClearsSession(s, steps[0]) {
        GoneForGood(Do(s, steps[0]), steps[1..], s.fuse.value);
      } else {
        SessionEndsExactly(Do(s, steps[0]), steps[1..]);
      }
    }
  }

  /** All through the run, call `id` has read its session and has not returned. */
  ghost predicate StaysIn(s: State, steps: seq<Step>, id: nat)
    requires Runs(s, steps)
    decreases |steps|
  {
    && id in s.callers && C_UNLOCK <= s.callers[id].pc
    && (steps != [] ==> StaysIn(Do(s, steps[0]), steps[1..], id))
  }

  lemma {:induction false} CallKeepsItsSession(s: State, steps: seq<Step>, id: nat)
    requires Runs(s, steps) && StaysIn(s, steps, id)
    ensures id in Final(s, steps).callers && Final(s, steps).callers[id].fuse == s.callers[id].fuse
    decreases |steps|
  {
    if steps != [] {
      CallKeepsItsSession(Do(s, steps[0]), steps[1..], id);
    }
  }

  /** The session that an outside call has read is still up when the call goes into the C
      layer, or at any other time before it returns, exactly when hostDestroy has not taken
      it away since. */
  lemma CallIsLiveExactly(s: State, steps: seq<Step>, id: nat)
    requires Good(s) && Runs(s, steps) && StaysIn(s, steps, id)
    requires s.fuse.Some? && s.callers[id].fuse == s.fuse
    ensures var t := Final(s, steps);
            id in t.callers && (t.callers[id].fuse == t.fuse <==> !Clears(s, steps))
  {
    CallKeepsItsSession(s, steps, id);
    SessionEndsExactly(s, steps);
  }

  /** The signal goroutine goes into the C layer with a session that is still up exactly
      when hostDestroy has not taken it away yet; Mount, at least, waits for it. */
  lemma SignalIsLiveExactly(windows: bool, steps: seq<Step>)
    requires Runs(Init(windows), steps)
    ensures var s := Final(Init(windows), steps);
            G_CALL <= s.gpc <= G_IN_C ==>
              && (s.fuse == s.gfuse <==> s.lpc <= L_CLEAR_FUSE)
              && M_IN_C <= s.mpc <= M_WAIT_DONE
  {
    RunKeepsGood(Init(windows), steps);
  }

  /** No outside call is about to go, or has gone, into the C layer with a session that is
      not up. */
  ghost predicate NoneLate(s: State) {
    forall id {:trigger s.callers[id]} :: id in s.callers && C_CALL <= s.callers[id].pc ==> s.callers[id].fuse == s.fuse
  }

  ghost predicate NeverLate(s: State, steps: seq<Step>)
    requires Runs(s, steps)
    decreases |steps|
  {
    NoneLate(s) && (steps != [] ==> NeverLate(Do(s, steps[0]), steps[1..]))
  }

  /** The session is taken away while an outside call is on its way with it. */
  predicate ClearsUnderCall(s: State, step: Step) {
    ClearsSession(s, step) && exists id :: id in s.callers && C_CALL <= s.callers[id].pc
  }

  ghost predicate EverClearsUnderCall(s: State, steps: seq<Step>)
    requires Runs(s, steps)
    decreases |steps|
  {
    steps != [] && (ClearsUnderCall(s, steps[0]) || EverClearsUnderCall(Do(s, steps[0]), steps[1..]))
  }

  lemma ClearingMakesLate(s: State)
    requires Good(s) && Enabled(s, LoopStep) && ClearsUnderCall(s, LoopStep)
    ensures !NoneLate(DoLoop(s))
  {
    var id :| id in s.callers && C_CALL <= s.callers[id].pc;
    assert DoLoop(s).callers[id].fuse.Some?;
  }

  lemma NothingElseMakesLate(s: State, step: Step)
    requires Good(s) && Enabled(s, step) && NoneLate(s) && !ClearsUnderCall(s, step)
    ensures NoneLate(Do(s, step))
  {
    if step.CallerStep? {
      CallerIsNotLate(s, step.id);
    }
  }

  lemma CallerIsNotLate(s: State, id: nat)
    requires Good(s) && Enabled(s, CallerStep(id)) && NoneLate(s)
    ensures NoneLate(DoCaller(s, id))
  {
  }

  lemma LateExactly(s: State, step: Step)
    requires Good(s) && Enabled(s, step) && NoneLate(s)
    ensures NoneLate(Do(s, step)) <==> !ClearsUnderCall(s, step)
  {
    if ClearsUnderCall(s, step) {
      ClearingMakesLate(s);
    } else {
      NothingElseMakesLate(s, step);
    }
  }

  /** In a run no call is ever late exactly when hostDestroy never takes the session away
      while a call is on its way with it. */
  lemma {:induction false} NeverLateExactly(s: State, steps: seq<Step>)
    requires Good(s) && Runs(s, steps) && NoneLate(s)
    ensures NeverLate(s, steps) <==> !EverClearsUnderCall(s, steps)
    decreases |steps|
  {
    if steps != [] {
      LateExactly(s, steps[0]);
      StepKeepsGood(s, steps[0]);
      if NoneLate(Do(s, steps[0])) {
        NeverLateExactly(Do(s, steps[0]), steps[1..]);
      }
    }
  }

  /** What a file system can see to: its Destroy returns only when no call is in flight,
      and none is begun from then until the session is gone. */
  predicate Orderly(s: State, step: Step) {
    && (step == LoopStep && s.lpc == L_USER_DESTROY ==> s.callers == map[])
    && (step.CallerStarts? ==> !(L_USER_DESTROY < s.lpc <= L_CLEAR_FUSE))
  }

  ghost predicate AllOrderly(s: State, steps: seq<Step>)
    requires Runs(s, steps)
    decreases |steps|
  {
    steps == [] || (Orderly(s, steps[0]) && AllOrderly(Do(s, steps[0]), steps[1..]))
  }

  /** Between the return of Destroy and the end of the session no call is in flight. */
  predicate Quiet(s: State) {
    L_USER_DESTROY < s.lpc <= L_CLEAR_FUSE ==> s.callers == map[]
  }

  lemma OrderlyStaysQuiet(s: State, step: Step)
    requires Enabled(s, step) && Orderly(s, step) && Quiet(s)
    requires s.mpc != M_IN_C ==> s.lpc == L_START || s.lpc == L_DONE
    ensures Quiet(Do(s, step)) && !ClearsUnderCall(s, step)
  {
  }

  lemma {:induction false} OrderlyNeverClears(s: State, steps: seq<Step>)
    requires Good(s) && Quiet(s) && Runs(s, steps) && AllOrderly(s, steps)
    ensures !EverClearsUnderCall(s, steps)
    decreases |steps|
  {
    if steps != [] {
      OrderlyStaysQuiet(s, steps[0]);
      StepKeepsGood(s, steps[0]);
      OrderlyNeverClears(Do(s, steps[0]), steps[1..]);
    }
  }

  /** With such a file system no outside call is ever late, over any number of mounts. */
  lemma OrderlyIsNeverLate(windows: bool, steps: seq<Step>)
    requires Runs(Init(windows), steps) && AllOrderly(Init(windows), steps)
    ensures NeverLate(Init(windows), steps)
  {
    OrderlyNeverClears(Init(windows), steps);
    NeverLateExactly(Init(windows), steps);
  }

  // ------------------------------------------------------------ late calls exist

  lemma {:induction false} RunAppend(s: State, a: seq<Step>, b: seq<Step>)
    requires Runs(s, a) && Runs(Final(s, a), b)
    ensures Runs(s, a + b) && Final(s, a + b) == Final(Final(s, a), b)
    decreases |a|
  {
    if a == [] {
      assert a + b == b;
    } else {
      assert (a + b)[0] == a[0] && (a + b)[1..] == a[1..] + b;
      RunAppend(Do(s, a[0]), a[1..], b);
    }
  }

  lemma Extend(s: State, a: seq<Step>, step: Step) returns (b: seq<Step>)
    requires Runs(s, a) && Enabled(Final(s, a), step)
    ensures b == a + [step] && Runs(s, b) && Final(s, b) == Do(Final(s, a), step)
  {
    b := a + [step];
    assert [step][1..] == [];
    RunAppend(s, a, [step]);
  }

  // Unmount of the first mount, which is at "m", between its unlock and its C call.
  const LATE := Caller(Unmount, C_CALL, Some(1), "m")

  /** The FUSE loop alone goes from one of its states to a later one. */
  lemma LoopAlone(s: State, goal: LoopPc) returns (steps: seq<Step>)
    requires Good(s) && s.mpc == M_IN_C && s.lpc <= goal && s.hmu == Free
    ensures Runs(s, steps) && Good(Final(s, steps))
    ensures var t := Final(s, steps);
            && t.lpc == goal && t.mpc == M_IN_C && t.gpc == s.gpc && t.gfuse == s.gfuse && t.sigOpen == s.sigOpen
            && t.gen == s.gen && t.points == s.points && t.callers == s.callers && t.windows == s.windows
            && (t.hmu == Free || t.hmu == ByLoop)
            && (s.lpc <= L_NOTIFY < goal <= L_STOP ==> t.notified == !t.windows)
  {
    steps := [];
    var t := s;
    while t.lpc != goal
      invariant Runs(s, steps) && t == Final(s, steps) && Good(t)
      invariant t.mpc == M_IN_C && t.lpc <= goal && (t.hmu == Free || t.hmu == ByLoop)
      invariant t.gpc == s.gpc && t.gfuse == s.gfuse && t.sigOpen == s.sigOpen && t.windows == s.windows
      invariant t.gen == s.gen && t.points == s.points && t.callers == s.callers
      invariant s.lpc <= L_NOTIFY < t.lpc <= L_STOP ==> t.notified == !t.windows
      decreases goal as int - t.lpc as int
    {
      steps := Extend(s, steps, LoopStep);
      StepKeepsGood(t, LoopStep);
      t := Do(t, LoopStep);
    }
  }

  /** The Mount thread alone, from the start to its C call. */
  lemma MountAlone(windows: bool) returns (steps: seq<Step>)
    ensures Runs(Init(windows), steps) && Good(Final(Init(windows), steps)) && LoopStep !in steps
    ensures var t := Final(Init(windows), steps);
            && t.mpc == M_IN_C && t.lpc == L_START && t.hmu == Free && t.windows == windows
            && t.gen == 1 && t.points == map[1 := "m"] && t.callers == map[]
            && (t.gpc == if windows then G_NONE else G_RECEIVE)
  {
    var s, step := Init(windows), MountStep("m");
    steps := Extend(s, [], step);
    StepKeepsGood(s, step);
    var t := Do(s, step);
    while t.mpc != M_IN_C
      invariant Runs(s, steps) && t == Final(s, steps) && Good(t) && LoopStep !in steps
      invariant M_IDLE < t.mpc <= M_IN_C && t.windows == windows && t.callers == map[]
      invariant t.lpc == (if t.mpc == M_IN_C then L_START else L_DONE) && (t.hmu == Free || t.hmu == ByMount)
      invariant t.gen == 1 && t.points == map[1 := "m"]
      invariant t.gpc == if windows || t.mpc <= M_GO then G_NONE else G_RECEIVE
      decreases 14 - t.mpc
    {
      steps := Extend(s, steps, step);
      StepKeepsGood(t, step);
      t := Do(t, step);
    }
  }

  /** A mount may fail: in this run the C call returns without having begun its loop, and
      Mount returns, with or without signal goroutine. */
  lemma FailedMount(windows: bool) returns (steps: seq<Step>)
    ensures Runs(Init(windows), steps) && LoopStep !in steps
    ensures Final(Init(windows), steps).mpc == M_IDLE && Final(Init(windows), steps).gen == 1
  {
    var s0 := Init(windows);
    steps := MountAlone(windows);
    StepKeepsGood(Final(s0, steps), MountStep(""));
    steps := Extend(s0, steps, MountStep(""));
    var back := MountCanReturn(Final(s0, steps));
    RunAppend(s0, steps, back);
    steps := steps + back;
  }

  /** The Mount thread and then the loop alone, from the start to a running session. */
  lemma FirstMount(windows: bool) returns (steps: seq<Step>)
    ensures Runs(Init(windows), steps) && Good(Final(Init(windows), steps))
    ensures var t := Final(Init(windows), steps);
            && t.mpc == M_IN_C && t.lpc == L_RUNNING && t.hmu == Free && t.windows == windows
            && t.gen == 1 && t.points == map[1 := "m"] && t.callers == map[]
            && t.notified == !windows && (t.gpc == if windows then G_NONE else G_RECEIVE)
  {
    steps := MountAlone(windows);
    var up := LoopAlone(Final(Init(windows), steps), L_RUNNING);
    RunAppend(Init(windows), steps, up);
    steps := steps + up;
  }

  /** Caller 0 is the only caller, and takes its step `i` next. */
  ghost predicate Calling(s: State, i: nat) {
    && s.mpc == M_IN_C && s.lpc == L_RUNNING && s.gen == 1 && s.points == map[1 := "m"]
    && s.callers.Keys == {0} && s.callers[0].call.Unmount? && s.callers[0].pc == i
    && (i == C_LOCK || i == C_CALL ==> s.hmu == Free)
  }

  lemma CallingStep(s: State)
    requires Good(s) && 0 in s.callers && Calling(s, s.callers[0].pc) && s.callers[0].pc < C_CALL
    ensures Enabled(s, CallerStep(0)) && Calling(DoCaller(s, 0), s.callers[0].pc + 1)
  {
  }

  /** Caller 0 alone goes up to its C call. */
  lemma CallerAlone(s: State) returns (steps: seq<Step>)
    requires Good(s) && s.mpc == M_IN_C && s.lpc == L_RUNNING && s.hmu == Free
    requires s.gen == 1 && s.points == map[1 := "m"] && s.callers == map[]
    ensures Runs(s, steps) && Good(Final(s, steps))
    ensures var t := Final(s, steps);
            t.mpc == M_IN_C && t.lpc == L_RUNNING && t.hmu == Free && t.callers == map[0 := LATE]
  {
    steps := Extend(s, [], CallerStarts(0, Unmount));
    StepKeepsGood(s, CallerStarts(0, Unmount));
    var t := Do(s, CallerStarts(0, Unmount));
    var i := C_LOCK;
    while i < C_CALL
      invariant C_LOCK <= i <= C_CALL && Runs(s, steps) && t == Final(s, steps) && Good(t) && Calling(t, i)
    {
      CallingStep(t);
      steps := Extend(s, steps, CallerStep(0));
      StepKeepsGood(t, CallerStep(0));
      t := Do(t, CallerStep(0));
      i := i + 1;
    }
    assert t.callers == map[0 := LATE];
  }

  /** A call reads its pair while the session is up, then the loop ends. */
  lemma LateCall(windows: bool) returns (steps: seq<Step>)
    ensures Runs(Init(windows), steps)
    ensures var t := Final(Init(windows), steps);
            Good(t) && Unwinding(t) && !t.hmu.ByCaller? && t.callers == map[0 := LATE]
  {
    var s0 := Init(windows);
    steps := FirstMount(windows);
    var call := CallerAlone(Final(s0, steps));
    RunAppend(s0, steps, call);
    steps := steps + call;
    var down := LoopAlone(Final(s0, steps), L_DONE);
    RunAppend(s0, steps, down);
    steps := Extend(s0, steps + down, MountStep(""));
    RunKeepsGood(s0, steps);
  }

  /** The documentation allows Unmount between Init and Destroy only, but a call may begin
      there and still be late: in this run it reads its pair while the session is up, and
      goes into the C layer with it after Mount has returned. */
  lemma LateUnmount(windows: bool) returns (steps: seq<Step>)
    ensures Runs(Init(windows), steps) && Runs(Init(windows), steps + [CallerStep(0)])
    ensures var s := Final(Init(windows), steps);
            && s.mpc == M_IDLE && s.fuse.None? && s.callers == map[0 := LATE]
            && Final(Init(windows), steps + [CallerStep(0)]).callers == map[0 := LATE.(pc := C_IN_C)]
  {
    var s0 := Init(windows);
    steps := LateCall(windows);
    var back := MountCanReturn(Final(s0, steps));
    RunAppend(s0, steps, back);
    steps := steps + back;
    RunKeepsGood(s0, steps);
    var late := Extend(s0, steps, CallerStep(0));
  }

  /** The signal goroutine alone goes up to its C call. */
  lemma SignalAlone(s: State) returns (steps: seq<Step>)
    requires Good(s) && !s.windows && s.mpc == M_IN_C && s.lpc == L_RUNNING && s.hmu == Free
    requires s.gpc == G_RECEIVE && s.sigFull
    ensures Runs(s, steps) && Good(Final(s, steps))
    ensures var t := Final(s, steps);
            && t.mpc == M_IN_C && t.lpc == L_RUNNING && t.hmu == Free
            && t.gpc == G_CALL && t.gfuse == Some(s.gen) && t.gen == s.gen
  {
    steps := [];
    var t := s;
    while t.gpc != G_CALL
      invariant Runs(s, steps) && t == Final(s, steps) && Good(t)
      invariant !t.windows && t.mpc == M_IN_C && t.lpc == L_RUNNING && t.gen == s.gen
      invariant G_RECEIVE <= t.gpc <= G_CALL && (t.gpc == G_RECEIVE ==> t.sigFull)
      invariant t.hmu == if G_READ_FUSE <= t.gpc <= G_UNLOCK then BySignal else Free
      decreases G_CALL as int - t.gpc as int
    {
      steps := Extend(s, steps, SignalStep);
      StepKeepsGood(t, SignalStep);
      t := Do(t, SignalStep);
    }
  }

  /** And a run in which the signal goroutine goes into the C layer after Destroy. */
  lemma LateSignal() returns (steps: seq<Step>)
    ensures Runs(Init(false), steps) && Runs(Init(false), steps + [SignalStep])
    ensures Final(Init(false), steps).lpc == L_DONE && Final(Init(false), steps).gpc == G_CALL
    ensures Final(Init(false), steps + [SignalStep]).gpc == G_IN_C
  {
    var s0 := Init(false);
    steps := FirstMount(false);
    StepKeepsGood(Final(s0, steps), SignalArrives);
    steps := Extend(s0, steps, SignalArrives);
    var receive := SignalAlone(Final(s0, steps));
    RunAppend(s0, steps, receive);
    steps := steps + receive;
    var down := LoopAlone(Final(s0, steps), L_DONE);
    RunAppend(s0, steps, down);
    steps := steps + down;
    var late := Extend(s0, steps, SignalStep);
  }
}
