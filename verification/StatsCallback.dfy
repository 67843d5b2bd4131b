/**
 The time-out protocol between a waiting caller and its callback in
 Docs/WiFi/reference/wlan_hdd_main.c: hdd_get_tsm_stats with hdd_GetTsmStatsCB, which hands over six
 scalars, and hdd_wlan_exit with hdd_full_power_callback, which hands over nothing.

 The context, with its magic word and its completion, lives in the caller's stack frame.  Any number of
 callbacks may arrive, at any time from the request on; every memory access is a step of its own, and a
 run is any sequence of steps.
 */
module StatsCallback {
  import opened Words

  const MAGIC := 0x53544154

  datatype CallerPc =
    | Idle
    | Requesting                  // the context is set up, the request is being made
    | Waiting
    | WantsLock(ok: bool)
    | HasLock(ok: bool)
    | Cleared(ok: bool)           // still has the lock
    | Copying(k: nat)
    | Returned(ok: bool)

  datatype CallbackPc =
    | Arrived
    | Locked
    | Admitted                    // has seen the magic word
    | Writing(k: nat)             // has invalidated the magic word and written k fields
    | Completed
    | Rejected
    | Gone

  datatype Callback = Callback(pc: CallbackPc, metrics: seq<int>)

  datatype Owner = TheCaller | TheCallback(i: nat)

  datatype State = State(
    caller: CallerPc,
    callbacks: seq<Callback>,
    lock: Option<Owner>,
    magic: int,                   // in the context
    adapter: bool,                // in the context: whether the pointer is not null
    done: nat,                    // in the context: the completion
    stats: seq<int>,              // in the adapter
    result: seq<int>,             // the caller's out-parameter
    completes: nat,               // how often complete() has been called
    winner: Option<nat>)          // the callback that has seen the magic word

  datatype Step =
    | Arm | Send | NoWait | Wake | GiveUp | CallerLocks | Clear | CallerUnlocks | Copy | Return
    | Arrive(metrics: seq<int>) | Lock(i: nat) | Check(i: nat) | Invalidate(i: nat) | Write(i: nat) | Complete(i: nat)
    | Unlock(i: nat)
    | Reuse(magic: int, adapter: bool)    // the returned frame's memory takes other values

  predicate Initial(s: State, fields: nat) {
    && s.caller == Idle && s.callbacks == [] && s.lock == None && s.completes == 0 && s.winner == None
    && |s.stats| == fields && |s.result| == fields
  }

  predicate At(s: State, i: nat, pc: CallbackPc) {
    i < |s.callbacks| && s.callbacks[i].pc == pc
  }

  function Move(s: State, i: nat, pc: CallbackPc): (r: State)
    requires i < |s.callbacks|
  {
    s.(callbacks := s.callbacks[i := s.callbacks[i].(pc := pc)])
  }

  /** One step, if it can be taken. */
  function Next(s: State, e: Step, fields: nat): Option<State> {
    if e.Arrive? || e.Lock? || e.Check? || e.Invalidate? || e.Write? || e.Complete? || e.Unlock?
    then CallbackNext(s, e, fields) else CallerNext(s, e, fields)
  }

  function CallerNext(s: State, e: Step, fields: nat): Option<State> {
    match e
    case Arm => if s.caller == Idle then Some(s.(caller := Requesting, magic := MAGIC, adapter := true, done := 0)) else None
    case Send => if s.caller == Requesting then Some(s.(caller := Waiting)) else None
    case NoWait => if s.caller == Requesting then Some(s.(caller := WantsLock(false))) else None
    case Wake => if s.caller == Waiting && s.done > 0 then Some(s.(caller := WantsLock(true), done := s.done - 1)) else None
    case GiveUp => if s.caller == Waiting then Some(s.(caller := WantsLock(false))) else None
    case CallerLocks =>
      if s.caller.WantsLock? && s.lock == None then Some(s.(caller := HasLock(s.caller.ok), lock := Some(TheCaller))) else None
    case Clear => if s.caller.HasLock? then Some(s.(caller := Cleared(s.caller.ok), magic := 0)) else None
    case CallerUnlocks =>
      if s.caller.Cleared? then Some(s.(caller := if s.caller.ok then Copying(0) else Returned(false), lock := None)) else None
    case Copy =>
      if s.caller.Copying? && s.caller.k < |s.stats| && s.caller.k < |s.result|
      then Some(s.(caller := Copying(s.caller.k + 1), result := s.result[s.caller.k := s.stats[s.caller.k]])) else None
    case Return => if s.caller.Copying? && s.caller.k == fields then Some(s.(caller := Returned(true))) else None
    case Reuse(magic, adapter) => if s.caller.Returned? then Some(s.(magic := magic, adapter := adapter)) else None
    case _ => None
  }

  function CallbackNext(s: State, e: Step, fields: nat): Option<State> {
    match e
    case Arrive(metrics) =>
      if s.caller != Idle && |metrics| == fields then Some(s.(callbacks := s.callbacks + [Callback(Arrived, metrics)])) else None
    case Lock(i) => if At(s, i, Arrived) && s.lock == None then Some(Move(s, i, Locked).(lock := Some(TheCallback(i)))) else None
    case Check(i) =>
      if !At(s, i, Locked) then None
      else if s.adapter && s.magic == MAGIC then Some(Move(s, i, Admitted).(winner := Some(i)))
      else Some(Move(s, i, Rejected))
    case Invalidate(i) => if At(s, i, Admitted) then Some(Move(s, i, Writing(0)).(magic := 0)) else None
    case Write(i) =>
      if i < |s.callbacks| && s.callbacks[i].pc.Writing? && s.callbacks[i].pc.k < |s.callbacks[i].metrics|
         && s.callbacks[i].pc.k < |s.stats|
      then var k := s.callbacks[i].pc.k;
           Some(Move(s, i, Writing(k + 1)).(stats := s.stats[k := s.callbacks[i].metrics[k]]))
      else None
    case Complete(i) =>
      if At(s, i, Writing(fields)) then Some(Move(s, i, Completed).(done := s.done + 1, completes := s.completes + 1)) else None
    case Unlock(i) => if At(s, i, Completed) || At(s, i, Rejected) then Some(Move(s, i, Gone).(lock := None)) else None
    case _ => None
  }

  // ----- the invariant -----

  predicate InSection(pc: CallbackPc) {
    pc.Locked? || pc.Admitted? || pc.Writing? || pc.Completed? || pc.Rejected?
  }

  /** The caller has cleared the magic word. */
  predicate PastClear(c: CallerPc) {
    c.Cleared? || c.Copying? || c.Returned?
  }

  predicate Success(c: CallerPc) {
    ((c.WantsLock? || c.HasLock? || c.Cleared? || c.Returned?) && c.ok) || c.Copying?
  }

  predicate LockOk(s: State) {
    && (s.lock == Some(TheCaller) <==> (s.caller.HasLock? || s.caller.Cleared?))
    && (forall i :: 0 <= i < |s.callbacks| ==> (InSection(s.callbacks[i].pc) <==> s.lock == Some(TheCallback(i))))
    && (s.lock.Some? && s.lock.value.TheCallback? ==> s.lock.value.i < |s.callbacks|)
  }

  predicate CallbacksOk(callbacks: seq<Callback>, winner: Option<nat>, fields: nat) {
    forall i :: 0 <= i < |callbacks| ==>
      && |callbacks[i].metrics| == fields
      && (callbacks[i].pc.Admitted? || callbacks[i].pc.Writing? || callbacks[i].pc.Completed? ==> winner == Some(i))
  }

  /** How far the winner has got, and what that means for the context and the statistics. */
  predicate WinnerOk(s: State, fields: nat) {
    match s.winner
    case None => s.completes == 0 && (s.caller != Idle && !PastClear(s.caller) ==> s.magic == MAGIC && s.adapter)
    case Some(w) =>
      && w < |s.callbacks|
      && var (pc, metrics) := (s.callbacks[w].pc, s.callbacks[w].metrics);
      && |metrics| == fields == |s.stats|
      && (pc.Admitted? || pc.Writing? || pc.Completed? || pc.Gone?)
      && (pc.Admitted? || s.magic != MAGIC)
      && (pc.Writing? ==> pc.k <= fields && s.stats[..pc.k] == metrics[..pc.k])
      && (pc.Completed? || pc.Gone? ==> s.stats == metrics)
      && s.completes == if pc.Completed? || pc.Gone? then 1 else 0
  }

  predicate CallerOk(s: State, fields: nat) {
    && (s.caller == Idle ==> s.callbacks == [] && s.winner == None)
    && (PastClear(s.caller) ==> s.magic != MAGIC)
    && (s.caller.Requesting? || s.caller.Waiting? ==> s.done == s.completes)
    && (Success(s.caller) ==> s.completes == 1 && s.winner.Some?)
    && |s.stats| == |s.result| == fields
    && (s.caller.Copying? ==> s.caller.k <= fields && s.result[..s.caller.k] == s.stats[..s.caller.k])
    && (s.caller == Returned(true) ==> s.result == s.stats)
  }

  predicate Inv(s: State, fields: nat) {
    && LockOk(s)
    && CallbacksOk(s.callbacks, s.winner, fields)
    && WinnerOk(s, fields)
    && CallerOk(s, fields)
    && (PastClear(s.caller) && s.winner.Some? ==> At(s, s.winner.value, Gone))
  }

  /** The memory of a returned frame never shows the magic word again. */
  predicate Tame(e: Step) {
    e.Reuse? ==> e.magic != MAGIC
  }

  lemma InitialInv(s: State, fields: nat)
    requires Initial(s, fields)
    ensures Inv(s, fields)
  {
  }

  lemma CallerKeepsInv(s: State, e: Step, fields: nat)
    requires Inv(s, fields) && Tame(e) && CallerNext(s, e, fields).Some?
    ensures Inv(CallerNext(s, e, fields).value, fields)
  {
    CallerKeepsLock(s, e, fields);
    CallerKeepsWinner(s, e, fields);
    CallerKeepsItself(s, e, fields);
    ClearedAfterWinner(s, e, fields);
    hide CallerNext, LockOk, CallbacksOk, WinnerOk, CallerOk;
  }

  lemma CallerKeepsWinner(s: State, e: Step, fields: nat)
    requires WinnerOk(s, fields) && CallerOk(s, fields) && Tame(e) && CallerNext(s, e, fields).Some?
    ensures WinnerOk(CallerNext(s, e, fields).value, fields)
  {
  }

  lemma CallerKeepsItself(s: State, e: Step, fields: nat)
    requires WinnerOk(s, fields) && CallerOk(s, fields) && Tame(e) && CallerNext(s, e, fields).Some?
    ensures CallerOk(CallerNext(s, e, fields).value, fields)
  {
    if e.Copy? {
      CopiedPrefix(s.result, s.stats, s.caller.k);
    } else if e.Return? {
      assert s.result[..fields] == s.result && s.stats[..fields] == s.stats;
    }
  }

  lemma CopiedPrefix(result: seq<int>, stats: seq<int>, k: nat)
    requires k < |result| == |stats| && result[..k] == stats[..k]
    ensures result[k := stats[k]][..k + 1] == stats[..k + 1]
  {
    assert result[k := stats[k]][..k + 1] == result[..k] + [stats[k]];
  }

  /** When the caller clears under the lock, the winner has left it. */
  lemma ClearedAfterWinner(s: State, e: Step, fields: nat)
    requires Inv(s, fields) && CallerNext(s, e, fields).Some?
    ensures var r := CallerNext(s, e, fields).value;
            PastClear(r.caller) && r.winner.Some? ==> At(r, r.winner.value, Gone)
  {
  }

  lemma CallerKeepsLock(s: State, e: Step, fields: nat)
    requires LockOk(s) && CallerNext(s, e, fields).Some?
    ensures var r := CallerNext(s, e, fields).value;
            && LockOk(r) && r.callbacks == s.callbacks && r.winner == s.winner && r.stats == s.stats
            && r.completes == s.completes
  {
  }

  lemma ArriveKeepsInv(s: State, metrics: seq<int>, fields: nat)
    requires Inv(s, fields) && CallbackNext(s, Arrive(metrics), fields).Some?
    ensures Inv(CallbackNext(s, Arrive(metrics), fields).value, fields)
  {
    var r := CallbackNext(s, Arrive(metrics), fields).value;
    assert LockOk(r);
    assert WinnerOk(r, fields);
  }

  lemma LockKeepsInv(s: State, i: nat, fields: nat)
    requires Inv(s, fields) && CallbackNext(s, Lock(i), fields).Some?
    ensures Inv(CallbackNext(s, Lock(i), fields).value, fields)
  {
    var r := CallbackNext(s, Lock(i), fields).value;
    assert LockOk(r);
    assert WinnerOk(r, fields);
  }

  lemma CheckKeepsInv(s: State, i: nat, fields: nat)
    requires Inv(s, fields) && CallbackNext(s, Check(i), fields).Some?
    ensures Inv(CallbackNext(s, Check(i), fields).value, fields)
  {
    var r := CallbackNext(s, Check(i), fields).value;
    assert LockOk(r);
    assert WinnerOk(r, fields);
  }

  lemma InvalidateKeepsInv(s: State, i: nat, fields: nat)
    requires Inv(s, fields) && CallbackNext(s, Invalidate(i), fields).Some?
    ensures Inv(CallbackNext(s, Invalidate(i), fields).value, fields)
  {
    var r := CallbackNext(s, Invalidate(i), fields).value;
    assert LockOk(r);
    assert WinnerOk(r, fields);
  }

  lemma WriteKeepsInv(s: State, i: nat, fields: nat)
    requires Inv(s, fields) && CallbackNext(s, Write(i), fields).Some?
    ensures Inv(CallbackNext(s, Write(i), fields).value, fields)
  {
    var r := CallbackNext(s, Write(i), fields).value;
    assert LockOk(r);
    assert WinnerOk(r, fields);
  }

  lemma CompleteKeepsInv(s: State, i: nat, fields: nat)
    requires Inv(s, fields) && CallbackNext(s, Complete(i), fields).Some?
    ensures Inv(CallbackNext(s, Complete(i), fields).value, fields)
  {
    var r := CallbackNext(s, Complete(i), fields).value;
    assert LockOk(r);
    assert WinnerOk(r, fields);
  }

  lemma UnlockKeepsInv(s: State, i: nat, fields: nat)
    requires Inv(s, fields) && CallbackNext(s, Unlock(i), fields).Some?
    ensures Inv(CallbackNext(s, Unlock(i), fields).value, fields)
  {
    var r := CallbackNext(s, Unlock(i), fields).value;
    assert LockOk(r);
    assert WinnerOk(r, fields);
  }

  lemma StepKeepsInv(s: State, e: Step, fields: nat)
    requires Inv(s, fields) && Tame(e) && Next(s, e, fields).Some?
    ensures Inv(Next(s, e, fields).value, fields)
  {
    hide Inv, CallerNext, CallbackNext;
    match e
    case Arrive(metrics) => ArriveKeepsInv(s, metrics, fields);
    case Lock(i) => LockKeepsInv(s, i, fields);
    case Check(i) => CheckKeepsInv(s, i, fields);
    case Invalidate(i) => InvalidateKeepsInv(s, i, fields);
    case Write(i) => WriteKeepsInv(s, i, fields);
    case Complete(i) => CompleteKeepsInv(s, i, fields);
    case Unlock(i) => UnlockKeepsInv(s, i, fields);
    case _ => CallerKeepsInv(s, e, fields);
  }

  // ----- runs -----

  /** The state after a sequence of steps, if each can be taken. */
  function Run(s: State, steps: seq<Step>, fields: nat): Option<State>
    decreases |steps|
  {
    if steps == [] then Some(s)
    else match Next(s, steps[0], fields)
      case None => None
      case Some(r) => Run(r, steps[1..], fields)
  }

  predicate AllTame(steps: seq<Step>) {
    forall e :: e in steps ==> Tame(e)
  }

  lemma {:induction false} RunKeepsInv(s: State, steps: seq<Step>, fields: nat)
    requires Inv(s, fields) && AllTame(steps) && Run(s, steps, fields).Some?
    ensures Inv(Run(s, steps, fields).value, fields)
    decreases |steps|
  {
    hide Inv, Next;
    if steps != [] {
      StepKeepsInv(s, steps[0], fields);
      RunKeepsInv(Next(s, steps[0], fields).value, steps[1..], fields);
    }
  }

  /** In every reachable state complete() has been called at most once, and with success only for a whole answer. */
  lemma SuccessIsAWholeAnswer(s: State, steps: seq<Step>, fields: nat)
    requires Initial(s, fields) && AllTame(steps) && Run(s, steps, fields).Some?
    ensures var t := Run(s, steps, fields).value;
            && t.completes <= 1
            && (t.caller == Returned(true) ==>
                  t.completes == 1 && exists w :: 0 <= w < |t.callbacks| && t.callbacks[w].pc == Gone
                                            && t.result == t.callbacks[w].metrics)
  {
    InitialInv(s, fields);
    RunKeepsInv(s, steps, fields);
  }

  /** Only being woken by a completed callback makes the caller succeed, and nothing takes that back. */
  lemma StepKeepsSuccess(s: State, e: Step, fields: nat)
    requires Next(s, e, fields).Some?
    ensures Success(Next(s, e, fields).value.caller) <==> Success(s.caller) || e == Wake
  {
  }

  lemma {:induction false} RunKeepsSuccess(s: State, steps: seq<Step>, fields: nat)
    requires Run(s, steps, fields).Some?
    ensures Success(Run(s, steps, fields).value.caller) <==> Success(s.caller) || Wake in steps
    decreases |steps|
  {
    hide Next, Success;
    if steps != [] {
      StepKeepsSuccess(s, steps[0], fields);
      RunKeepsSuccess(Next(s, steps[0], fields).value, steps[1..], fields);
      assert steps == [steps[0]] + steps[1..];
    }
  }

  /** A caller that has returned reports success exactly if it was woken; it can be woken only by a callback that has completed. */
  lemma SuccessIffWoken(s: State, steps: seq<Step>, fields: nat)
    requires Initial(s, fields) && Run(s, steps, fields).Some? && Run(s, steps, fields).value.caller.Returned?
    ensures Run(s, steps, fields).value.caller.ok <==> Wake in steps
    ensures forall t: State :: Next(t, Wake, fields).Some? <==> t.caller == Waiting && t.done > 0
  {
    RunKeepsSuccess(s, steps, fields);
  }

  predicate Untouched(s: State, t: State) {
    t.stats == s.stats && t.completes == s.completes && t.done == s.done && PastClear(t.caller)
  }

  lemma StepAfterClear(s: State, e: Step, fields: nat)
    requires Inv(s, fields) && PastClear(s.caller) && Tame(e) && Next(s, e, fields).Some?
    ensures Untouched(s, Next(s, e, fields).value)
  {
  }

  /**
   Once the caller has cleared the magic word, no callback, however late or however far it had got, writes a
   statistic or completes the context, whatever else happens.
   */
  lemma {:induction false} NothingAfterClear(s: State, steps: seq<Step>, fields: nat)
    requires Inv(s, fields) && PastClear(s.caller) && AllTame(steps) && Run(s, steps, fields).Some?
    ensures Untouched(s, Run(s, steps, fields).value)
    decreases |steps|
  {
    if steps != [] {
      StepKeepsInv(s, steps[0], fields);
      StepAfterClear(s, steps[0], fields);
      NothingAfterClear(Next(s, steps[0], fields).value, steps[1..], fields);
    }
  }

  /** The same from the start of a run: the clear divides it. */
  lemma ClearIsFinal(s: State, before: seq<Step>, after: seq<Step>, fields: nat)
    requires Initial(s, fields) && AllTame(before) && AllTame(after) && Run(s, before, fields).Some?
    requires PastClear(Run(s, before, fields).value.caller) && Run(Run(s, before, fields).value, after, fields).Some?
    ensures Untouched(Run(s, before, fields).value, Run(Run(s, before, fields).value, after, fields).value)
  {
    InitialInv(s, fields);
    RunKeepsInv(s, before, fields);
    NothingAfterClear(Run(s, before, fields).value, after, fields);
  }

  /** A callback is turned away only after another has been admitted or the caller has cleared the magic word. */
  lemma TurnedAwayOnlyThen(s: State, i: nat, fields: nat)
    requires Inv(s, fields) && At(s, i, Locked)
    ensures At(Next(s, Check(i), fields).value, i, Rejected) <==> s.winner.Some? || PastClear(s.caller)
  {
  }

  /** Somebody can always go on: the caller or, if it holds the lock, a callback. */
  lemma NoDeadlock(s: State, fields: nat)
    requires Inv(s, fields) && !s.caller.Returned?
    ensures exists e :: Next(s, e, fields).Some? && !e.Arrive? && !e.Reuse?
  {
    var e :=
      if s.lock.Some? && s.lock.value.TheCallback? then
        var i := s.lock.value.i;
        (match s.callbacks[i].pc
         case Locked => Check(i)
         case Admitted => Invalidate(i)
         case Writing(k) => if k < fields then Write(i) else Complete(i)
         case _ => Unlock(i))
      else
        match s.caller
        case Idle => Arm
        case Requesting => Send
        case Waiting => GiveUp
        case WantsLock(_) => CallerLocks
        case HasLock(_) => Clear
        case Cleared(_) => CallerUnlocks
        case Copying(k) => if k < fields then Copy else Return
        case _ => Arm;
    assert Next(s, e, fields).Some?;
  }

  const TOO_LATE: seq<Step> :=
    [Arm, Send, GiveUp, CallerLocks, Clear, CallerUnlocks, Arrive([]), Reuse(MAGIC, true), Lock(0), Check(0), Invalidate(0),
     Complete(0)]

  /** Why the returned frame must not show the magic word: a late callback would then complete it. */
  lemma ReusedMagicIsCompleted(s: State)
    requires Initial(s, 0)
    ensures var t := Run(s, TOO_LATE, 0);
            t.Some? && t.value.caller == Returned(false) && t.value.completes == 1
  {
    hide Run, Next;
    CallerGivesUp(s);
    CallbackIsLate(s.(caller := Returned(false), magic := 0, adapter := true, done := 0));
  }

  lemma TooLate()
    ensures |TOO_LATE| == 12 && TOO_LATE[0] == Arm && TOO_LATE[1] == Send && TOO_LATE[2] == GiveUp && TOO_LATE[3] == CallerLocks
    ensures TOO_LATE[4] == Clear && TOO_LATE[5] == CallerUnlocks && TOO_LATE[6] == Arrive([]) && TOO_LATE[7] == Reuse(MAGIC, true)
    ensures TOO_LATE[8] == Lock(0) && TOO_LATE[9] == Check(0) && TOO_LATE[10] == Invalidate(0) && TOO_LATE[11] == Complete(0)
  {
  }

  lemma CallerGivesUp(s: State)
    requires Initial(s, 0)
    ensures Run(s, TOO_LATE, 0)
            == Run(s.(caller := Returned(false), magic := 0, adapter := true, done := 0), TOO_LATE[6..], 0)
  {
    hide Run, TOO_LATE;
    TooLate();
    var s1 := s.(caller := Requesting, magic := MAGIC, adapter := true, done := 0);
    StepByStep(s, TOO_LATE, 0);
    StepByStep(s1, TOO_LATE, 1);
    StepByStep(s1.(caller := Waiting), TOO_LATE, 2);
    CallerClears(s1.(caller := WantsLock(false)));
  }

  lemma CallerClears(s: State)
    requires s.caller == WantsLock(false) && s.lock == None
    ensures Run(s, TOO_LATE[3..], 0) == Run(s.(caller := Returned(false), magic := 0), TOO_LATE[6..], 0)
  {
    hide Run, TOO_LATE;
    TooLate();
    StepByStep(s, TOO_LATE, 3);
    StepByStep(s.(caller := HasLock(false), lock := Some(TheCaller)), TOO_LATE, 4);
    StepByStep(s.(caller := Cleared(false), magic := 0, lock := Some(TheCaller)), TOO_LATE, 5);
  }

  lemma CallbackIsLate(s: State)
    requires s.caller == Returned(false) && s.callbacks == [] && s.lock == None && s.completes == 0
    ensures var t := Run(s, TOO_LATE[6..], 0);
            t.Some? && t.value.caller == Returned(false) && t.value.completes == 1
  {
    hide Run, TOO_LATE;
    TooLate();
    var s1 := s.(callbacks := s.callbacks + [Callback(Arrived, [])]);
    StepByStep(s, TOO_LATE, 6);
    StepByStep(s1, TOO_LATE, 7);
    LocksTooLate(s1.(magic := MAGIC, adapter := true));
  }

  lemma LocksTooLate(s: State)
    requires s.caller == Returned(false) && At(s, 0, Arrived) && s.lock == None && s.completes == 0 && s.magic == MAGIC && s.adapter
    ensures var t := Run(s, TOO_LATE[8..], 0);
            t.Some? && t.value.caller == Returned(false) && t.value.completes == 1
  {
    hide Run, TOO_LATE;
    TooLate();
    StepByStep(s, TOO_LATE, 8);
    LockedTooLate(Move(s, 0, Locked).(lock := Some(TheCallback(0))));
  }

  lemma LockedTooLate(s: State)
    requires s.caller == Returned(false) && At(s, 0, Locked) && s.completes == 0 && s.magic == MAGIC && s.adapter
    ensures var t := Run(s, TOO_LATE[9..], 0);
            t.Some? && t.value.caller == Returned(false) && t.value.completes == 1
  {
    hide Run, TOO_LATE;
    TooLate();
    var s1 := Move(s, 0, Admitted).(winner := Some(0));
    StepByStep(s, TOO_LATE, 9);
    StepByStep(s1, TOO_LATE, 10);
    StepByStep(Move(s1, 0, Writing(0)).(magic := 0), TOO_LATE, 11);
  }

  lemma StepByStep(s: State, steps: seq<Step>, k: nat)
    requires k < |steps| && Next(s, steps[k], 0).Some?
    ensures Run(s, steps[k..], 0) == Run(Next(s, steps[k], 0).value, steps[k + 1..], 0)
    ensures k + 1 == |steps| ==> Run(s, steps[k..], 0) == Next(s, steps[k], 0)
    ensures steps[0..] == steps
  {
    assert steps[k..][1..] == steps[k + 1..];
  }
}
