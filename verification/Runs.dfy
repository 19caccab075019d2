/** Whole runs of a device: boots, installs, mark-pending, confirm and rollback requests, in any
    order, with read errors, failed programs and power cuts anywhere. A power cut is a fault
    followed by a boot. Whether the platform starts the image that a boot hands over to is part of
    the action, so the theorems hold on every platform. */
module Runs {
  import opened Words
  import opened Faults
  import opened LogHistory
  import opened Image
  import opened BootControls
  import opened Core
  import opened BootTheorems
  import opened BootRuns
  import LogTheorems

  /** The device and the slot whose application runs, SLOT_NONE if none does. */
  datatype System = System(board: Board, running: u32)

  datatype Action =
    | DoBoot(faults: seq<Fault>, starts: bool)
    | DoInstall(image: seq<Byte>, faults: seq<Fault>)
    | DoMark(slot: u32, faults: seq<Fault>)
    | DoConfirm(faults: seq<Fault>)
    | DoRollback(faults: seq<Fault>)

  /** An application reloads the control before it uses it. */
  function AppStep(b: Board, running: u32, a: Action): (b': Board)
    requires b.Wired() && (a.DoMark? || a.DoConfirm? || a.DoRollback?)
    ensures b'.Wired()
  {
    var l := Load(b);
    if l.status != Ok then l.board
    else if a.DoMark? then MarkPending(l.board, l.control, a.slot).board
    else if a.DoConfirm? then ConfirmCurrentImage(l.board, l.control, running).board
    else Rollback(l.board, l.control).board
  }

  function Step(s: System, a: Action, d: u32, m: u32): (s': System)
    requires s.board.Wired()
    ensures s'.board.Wired()
  {
    var b := s.board.(faults := a.faults);
    match a
    case DoBoot(_, starts) =>
      var r := BootloaderRun(b, d, m);
      System(r.board, if r.outcome.Jump? && starts then r.outcome.slot else SLOT_NONE)
    case DoInstall(image, _) =>
      System(WriteCandidateImage(b, s.running, OtherSlot(s.running), image).board, s.running)
    case _ => System(AppStep(b, s.running, a), s.running)
  }

  /** Applications act only while one runs, and only the confirmed active image installs, into the
      other slot. */
  predicate Enabled(s: System, a: Action)
    requires s.board.Wired()
  {
    match a
    case DoBoot(_, _) => true
    case DoInstall(_, _) => IsSlot(s.running) && ControlIsValid(Stored(s.board)) && Stored(s.board).active == s.running
    case _ => IsSlot(s.running)
  }

  /** Installs leave the control log alone. */
  predicate HonestStep(s: System, a: Action)
    requires s.board.Wired()
  {
    !a.DoInstall? ==> HonestAll(s.board.(faults := a.faults))
  }

  predicate Allowed(s: System, actions: seq<Action>, d: u32, m: u32)
    requires s.board.Wired()
    decreases actions
  {
    actions != [] ==>
      && Enabled(s, actions[0])
      && HonestStep(s, actions[0])
      && Allowed(Step(s, actions[0], d, m), actions[1..], d, m)
  }

  function Active(s: System, d: u32, m: u32): (n: u32)
    requires s.board.Wired()
    ensures IsSlot(n)
  {
    Effective(s.board, d, m).active
  }

  ghost predicate Safe(s: System, d: u32, m: u32) {
    s.board.Wired() && Healthy(s.board) && Sound(s.board.Slot(Active(s, d, m)))
  }

  function Run(s: System, actions: seq<Action>, d: u32, m: u32): (s': System)
    requires s.board.Wired()
    ensures s'.board.Wired()
    decreases actions
  {
    if actions == [] then s else Run(Step(s, actions[0], d, m), actions[1..], d, m)
  }

  // ----- what a step does to the control

  /** An install changes nothing but its target slot. */
  lemma InstallTouches(b: Board, protected: u32, target: u32, image: seq<Byte>)
    requires b.Wired()
    ensures var b' := WriteCandidateImage(b, protected, target, image).board;
            && b'.log == b.log
            && (target != SLOT_A ==> b'.slotA == b.slotA)
            && (target == SLOT_A ==> b'.slotB == b.slotB)
  {
    hide Sound, DecodeHeader, HeaderIsValid, EraseSlot, ProgramSlot, ProgramSlotOk, Candidate, Reads;
  }

  /** How a step may change the stored control, from effective control c. */
  ghost predicate ControlStep(s: System, a: Action, c: BootControl, s': System)
    requires s.board.Wired() && s'.board.Wired() && ControlIsValid(c)
  {
    var c' := Stored(s'.board);
    || c' == Stored(s.board)
    || c' == c
    || (a.DoBoot? && Tries(s.board, c) && c' == Tried(c))
    || (a.DoBoot? && c.pending != SLOT_NONE && c' == RolledBack(c))
    || (a.DoRollback? && c' == RolledBack(c))
    || (a.DoConfirm? && MayConfirm(c, s.running) && Sound(s.board.Slot(s.running)) && c' == Confirmed(c, s.running))
    || (a.DoMark? && MayMark(c, a.slot) && Sound(s.board.Slot(a.slot)) &&
        c' == Marked(c, a.slot, DecodeHeader(s.board.Slot(a.slot))))
  }

  lemma AppStepMeans(s: System, a: Action, d: u32, m: u32)
    requires Healthy(s.board) && s.board.Wired() && HonestStep(s, a)
    requires a.DoMark? || a.DoConfirm? || a.DoRollback?
    ensures var s' := Step(s, a, d, m);
            && Healthy(s'.board)
            && s'.board.slotA == s.board.slotA && s'.board.slotB == s.board.slotB
            && ControlStep(s, a, Effective(s.board, d, m), s')
  {
    var b := s.board.(faults := a.faults);
    hide Sound, Stored, Healthy, ControlIsValid, HonestAll, MarkPending, ConfirmCurrentImage, Rollback, Load,
         Honest, DecodeHeader, Marked, Confirmed, RolledBack, DefaultBootControl, AllFine;
    SameLogHealthy(s.board, b);
    SameLogStored(s.board, b);
    LoadMeans(b);
    var l := Load(b);
    SameLogStored(b, l.board);
    if l.status == Ok {
      if a.DoMark? {
        MarkReplaces(l.board, l.control, a.slot);
      } else if a.DoConfirm? {
        ConfirmReplaces(l.board, l.control, s.running);
      } else {
        RollbackReplaces(l.board, l.control);
      }
    }
  }

  lemma SameTries(b: Board, b': Board, c: BootControl)
    requires b.Wired() && b' == b.(faults := b'.faults) && ControlIsValid(c)
    ensures Tries(b, c) == Tries(b', c)
  {
    hide Sound;
  }

  lemma BootStepMeans(s: System, a: Action, d: u32, m: u32)
    requires Healthy(s.board) && s.board.Wired() && HonestStep(s, a) && a.DoBoot?
    ensures var c, s', b := Effective(s.board, d, m), Step(s, a, d, m), s.board.(faults := a.faults);
            && Effective(b, d, m) == c
            && Healthy(s'.board)
            && s'.board.slotA == s.board.slotA && s'.board.slotB == s.board.slotB
            && ControlStep(s, a, c, s')
            && Booted(b, c, BootloaderRun(b, d, m))
            && (AllFine(a.faults) && Sound(s.board.Slot(c.active)) ==> BootloaderRun(b, d, m).outcome.Jump?)
            && (var o := BootloaderRun(b, d, m).outcome;
                && (o.Jump? ==>
                      IsSlot(o.slot) && Sound(s.board.Slot(o.slot)) && o.address == BootAddress(s'.board, o.slot))
                && s'.running == (if o.Jump? && a.starts then o.slot else SLOT_NONE))
  {
    var b := s.board.(faults := a.faults);
    hide Sound, Stored, Healthy, ControlIsValid, HonestAll, BootloaderRun, RolledBack, DefaultBootControl, AllFine,
         Tries, BootAddress;
    SameLogHealthy(s.board, b);
    SameLogStored(s.board, b);
    BootMeans(b, d, m);
    SameTries(s.board, b, Effective(b, d, m));
    var res := BootloaderRun(b, d, m);
    if res.outcome.Jump? {
      SameBootAddress(b, res.board, res.outcome.slot);
    }
  }

  lemma SameControl(s: System, a: Action, c: BootControl, s': System)
    requires s.board.Wired() && s'.board.Wired() && ControlIsValid(c) && Stored(s'.board) == Stored(s.board)
    ensures ControlStep(s, a, c, s')
  {
    hide Stored, Sound;
  }

  /** Every step keeps the log in order, changes at most the other slot's image, and changes the
      control only in the ways its kind allows. */
  lemma StepMeans(s: System, a: Action, d: u32, m: u32)
    requires Healthy(s.board) && s.board.Wired() && HonestStep(s, a)
    ensures var s' := Step(s, a, d, m);
            && Healthy(s'.board)
            && ControlStep(s, a, Effective(s.board, d, m), s')
            && (!a.DoInstall? ==> s'.board.slotA == s.board.slotA && s'.board.slotB == s.board.slotB)
            && (a.DoInstall? ==> Stored(s'.board) == Stored(s.board))
            && (a.DoInstall? && IsSlot(s.running) ==> s'.board.Slot(s.running) == s.board.Slot(s.running))
            && (!a.DoBoot? ==> s'.running == s.running)
  {
    hide Sound, Stored, Healthy, ControlIsValid, HonestStep, BootloaderRun, AppStep, WriteCandidateImage, ControlStep,
         RolledBack, DefaultBootControl, AllFine;
    match a
    case DoBoot(_, _) =>
      BootStepMeans(s, a, d, m);
    case DoInstall(image, faults) =>
      var b := s.board.(faults := faults);
      InstallTouches(b, s.running, OtherSlot(s.running), image);
      var b' := Step(s, a, d, m).board;
      SameLogHealthy(s.board, b');
      SameLogStored(s.board, b');
      SameControl(s, a, Effective(s.board, d, m), Step(s, a, d, m));
    case _ =>
      AppStepMeans(s, a, d, m);
  }

  // ----- the active image

  /** The active slot changes only by a confirm of the running slot, whose image verified in that call. */
  lemma ActiveChangesOnlyByConfirm(s: System, a: Action, d: u32, m: u32)
    requires Healthy(s.board) && s.board.Wired() && HonestStep(s, a)
    ensures var s' := Step(s, a, d, m);
            Active(s', d, m) != Active(s, d, m) ==>
              a.DoConfirm? && Active(s', d, m) == s.running && Sound(s.board.Slot(s.running))
  {
    hide Sound, Stored, Healthy, HonestStep, Step, ControlIsValid;
    StepMeans(s, a, d, m);
    var s' := Step(s, a, d, m);
    var c := Effective(s.board, d, m);
    HealthyStored(s'.board);
    HealthyStored(s.board);
    StoredEffective(s.board, s'.board, d, m);
  }

  /** How the active slot and the count of attempts left move in one step. */
  lemma StepOutcome(s: System, a: Action, d: u32, m: u32)
    requires Healthy(s.board) && s.board.Wired() && HonestStep(s, a)
    ensures var c, s' := Effective(s.board, d, m), Step(s, a, d, m);
            var c' := Effective(s'.board, d, m);
            || c' == c
            || (a.DoBoot? && Tries(s.board, c) && c' == Tried(c))
            || ((a.DoBoot? || a.DoRollback?) && c' == RolledBack(c))
            || (a.DoConfirm? && MayConfirm(c, s.running) && Sound(s.board.Slot(s.running)) &&
                c' == Confirmed(c, s.running))
            || (a.DoMark? && MayMark(c, a.slot) && Stored(s'.board) == c' &&
                c' == Marked(c, a.slot, DecodeHeader(s.board.Slot(a.slot))))
  {
    hide Sound, Stored, Healthy, HonestStep, Step, ControlIsValid, RolledBack, DecodeHeader, Marked, Confirmed,
         DefaultBootControl;
    StepMeans(s, a, d, m);
    var c := Effective(s.board, d, m);
    UpdatesAreValid(c, s.running, DecodeHeader(s.board.slotA));
    if a.DoMark? {
      UpdatesAreValid(c, a.slot, DecodeHeader(s.board.Slot(a.slot)));
    }
    HealthyStored(Step(s, a, d, m).board);
    HealthyStored(s.board);
    StoredEffective(s.board, Step(s, a, d, m).board, d, m);
    BlankControlInvalid();
  }

  // ----- no run bricks the device

  /** What a boot hands over to. */
  function Handover(s: System, a: Action, d: u32, m: u32): Outcome
    requires s.board.Wired() && a.DoBoot?
  {
    BootloaderRun(s.board.(faults := a.faults), d, m).outcome
  }

  /** A boot without faults jumps, and every jump is to an image that verifies, at its address. */
  predicate BootsOn(s: System, a: Action, d: u32, m: u32)
    requires s.board.Wired() && a.DoBoot?
  {
    var o, s' := Handover(s, a, d, m), Step(s, a, d, m);
    && (AllFine(a.faults) ==> o.Jump?)
    && (o.Jump? ==> IsSlot(o.slot) && Sound(s'.board.Slot(o.slot)) && o.address == BootAddress(s'.board, o.slot))
  }

  lemma SafeStep(s: System, a: Action, d: u32, m: u32)
    requires Safe(s, d, m) && Enabled(s, a) && HonestStep(s, a)
    ensures Safe(Step(s, a, d, m), d, m)
    ensures a.DoBoot? ==> BootsOn(s, a, d, m)
  {
    hide Sound, Stored, Healthy, HonestStep, ControlIsValid, ControlStep, BootloaderRun, AppStep, WriteCandidateImage,
         AllFine, Tries, DefaultBootControl, RolledBack, BootAddress;
    StepMeans(s, a, d, m);
    ActiveChangesOnlyByConfirm(s, a, d, m);
    if a.DoBoot? {
      BootStepMeans(s, a, d, m);
    } else if a.DoInstall? {
      StoredEffective(s.board, Step(s, a, d, m).board, d, m);
    }
  }

  /** At every point of the run the active image verifies, a boot without a fault jumps, and every
      jump is to an image that verifies. */
  predicate NeverBricked(s: System, actions: seq<Action>, d: u32, m: u32)
    requires s.board.Wired()
    decreases actions
  {
    && Sound(s.board.Slot(Active(s, d, m)))
    && (actions != [] ==>
          && (actions[0].DoBoot? ==> BootsOn(s, actions[0], d, m))
          && NeverBricked(Step(s, actions[0], d, m), actions[1..], d, m))
  }

  lemma {:induction false} SafeRun(s: System, actions: seq<Action>, d: u32, m: u32)
    requires Safe(s, d, m) && Allowed(s, actions, d, m)
    ensures NeverBricked(s, actions, d, m)
    ensures Safe(Run(s, actions, d, m), d, m)
    decreases actions
  {
    hide Sound, Step, Healthy, HonestStep, Enabled, Active, BootsOn;
    if actions != [] {
      SafeStep(s, actions[0], d, m);
      SafeRun(Step(s, actions[0], d, m), actions[1..], d, m);
    }
  }

  /** A new device: erased control sectors of n records each, and any two slots. */
  function NewDevice(n: nat, slotA: seq<Byte>, slotB: seq<Byte>): (s: System)
    requires n > 0 && |slotA| == |slotB| == SLOT_SIZE
    ensures s.board.Wired()
  {
    System(Board(LogTheorems.BlankLog(n), slotA, slotB, []), SLOT_NONE)
  }

  lemma NewDeviceHealthy(n: nat, slotA: seq<Byte>, slotB: seq<Byte>)
    requires 0 < n && 2 * n < 0x8000_0000 && |slotA| == |slotB| == SLOT_SIZE
    ensures var b := NewDevice(n, slotA, slotB).board;
            Healthy(b) && Stored(b) == BLANK && !ControlIsValid(Stored(b))
  {
    var b := NewDevice(n, slotA, slotB).board;
    LogTheorems.StartKeeps(n);
    assert Kept(b, LogTheorems.StartLedger(n));
    StoredIs(b, LogTheorems.StartLedger(n));
    BlankControlInvalid();
  }

  /** Brick freedom: start from a device whose default slot holds an image that verifies; whatever the
      order of boots, installs, marks, confirms, rollbacks, errors and power cuts, the active image
      always verifies, and a boot without a fault never ends in recovery. */
  lemma BrickFreedom(n: nat, slotA: seq<Byte>, slotB: seq<Byte>, actions: seq<Action>, d: u32, m: u32)
    requires 0 < n && 2 * n < 0x8000_0000 && |slotA| == |slotB| == SLOT_SIZE
    requires IsSlot(d) && Sound(NewDevice(n, slotA, slotB).board.Slot(d))
    requires Allowed(NewDevice(n, slotA, slotB), actions, d, m)
    ensures NeverBricked(NewDevice(n, slotA, slotB), actions, d, m)
    ensures Safe(Run(NewDevice(n, slotA, slotB), actions, d, m), d, m)
  {
    hide Sound, Stored, Healthy, ControlIsValid, HonestStep;
    NewDeviceHealthy(n, slotA, slotB);
    SafeRun(NewDevice(n, slotA, slotB), actions, d, m);
  }

  /** Whatever run led to a safe device, and every allowed run does: once nothing fails any more, it
      takes one boot more than there are attempts left until every boot hands over to the active image,
      which verifies. */
  lemma AlwaysComesBack(s: System, k: nat, d: u32, m: u32)
    requires Safe(s, d, m) && k > AttemptsLeft(Effective(s.board, d, m))
    ensures var b, active := s.board.(faults := []), Active(s, d, m);
            && BootloaderRun(Boots(b, k, d, m), d, m).outcome == Jump(active, BootAddress(b, active))
            && Sound(b.Slot(active)) && Stored(Boots(b, k, d, m)).pending == SLOT_NONE
  {
    hide Sound, Stored, Healthy, BootloaderRun, BootAddress, Boots, AttemptsLeft, Effective;
    var b := s.board.(faults := []);
    SameLogHealthy(s.board, b);
    SameLogStored(s.board, b);
    StoredEffective(s.board, b, d, m);
    FallbackReturns(b, k, d, m);
  }

  // ----- what is persisted

  /** No interrupted erase of the run forges a record. */
  predicate HonestRun(s: System, actions: seq<Action>, d: u32, m: u32)
    requires s.board.Wired()
    decreases actions
  {
    actions != [] ==> HonestStep(s, actions[0]) && HonestRun(Step(s, actions[0], d, m), actions[1..], d, m)
  }

  lemma {:induction false} RunKeepsHealthy(s: System, actions: seq<Action>, d: u32, m: u32)
    requires s.board.Wired() && Healthy(s.board) && HonestRun(s, actions, d, m)
    ensures Healthy(Run(s, actions, d, m).board)
    decreases actions
  {
    hide Healthy, HonestStep, Step, ControlStep;
    if actions != [] {
      StepMeans(s, actions[0], d, m);
      RunKeepsHealthy(Step(s, actions[0], d, m), actions[1..], d, m);
    }
  }

  /** Whatever a new device goes through, at the end of it a load finds erased flash or a control block
      that passes every check, and so does every valid record in flash. */
  lemma PersistedControls(n: nat, slotA: seq<Byte>, slotB: seq<Byte>, actions: seq<Action>, d: u32, m: u32)
    requires 0 < n && 2 * n < 0x8000_0000 && |slotA| == |slotB| == SLOT_SIZE
    requires HonestRun(NewDevice(n, slotA, slotB), actions, d, m)
    ensures var b := Run(NewDevice(n, slotA, slotB), actions, d, m).board;
            && (ControlIsValid(Stored(b)) <==> Stored(b) != BLANK)
            && ValidRecordsHoldValidControls(b)
  {
    hide Stored, Healthy, ControlIsValid, ValidRecordsHoldValidControls;
    NewDeviceHealthy(n, slotA, slotB);
    RunKeepsHealthy(NewDevice(n, slotA, slotB), actions, d, m);
    var b := Run(NewDevice(n, slotA, slotB), actions, d, m).board;
    HealthyStored(b);
    HealthyRecords(b);
  }

  // ----- the limit and the confirmed slot

  /** The active slot is confirmed and the other one is not. */
  predicate OnlyActiveConfirmed(c: BootControl) {
    && (c.active == 0 ==> c.confirmedA == 1 && c.confirmedB == 0)
    && (c.active == 1 ==> c.confirmedA == 0 && c.confirmedB == 1)
  }

  lemma UpdatesKeepLimit(c: BootControl, slot: u32, h: Header)
    requires ControlIsValid(c)
    ensures RolledBack(c).maxAttempts == c.maxAttempts
    ensures Confirmed(c, slot).maxAttempts == c.maxAttempts && Marked(c, slot, h).maxAttempts == c.maxAttempts
    ensures c.attempts < c.maxAttempts ==> Tried(c).maxAttempts == c.maxAttempts
    ensures OnlyActiveConfirmed(c) ==>
              && OnlyActiveConfirmed(RolledBack(c)) && OnlyActiveConfirmed(Confirmed(c, slot))
              && (MayMark(c, slot) ==> OnlyActiveConfirmed(Marked(c, slot, h)))
              && (c.attempts < c.maxAttempts ==> OnlyActiveConfirmed(Tried(c)))
  {
  }

  lemma LimitStep(s: System, a: Action, d: u32, m: u32)
    requires Healthy(s.board) && s.board.Wired() && HonestStep(s, a)
    ensures var s' := Step(s, a, d, m);
            && Healthy(s'.board)
            && Effective(s'.board, d, m).maxAttempts == Effective(s.board, d, m).maxAttempts
            && (OnlyActiveConfirmed(Effective(s.board, d, m)) ==> OnlyActiveConfirmed(Effective(s'.board, d, m)))
  {
    var c := Effective(s.board, d, m);
    hide Sound, Stored, Healthy, HonestStep, Step, ControlStep, ControlIsValid, RolledBack, DecodeHeader, Marked,
         Confirmed, Tried, DefaultBootControl, OnlyActiveConfirmed, Effective;
    StepMeans(s, a, d, m);
    StepOutcome(s, a, d, m);
    UpdatesKeepLimit(c, s.running, DecodeHeader(s.board.slotA));
    if a.DoMark? {
      UpdatesKeepLimit(c, a.slot, DecodeHeader(s.board.Slot(a.slot)));
    }
  }

  /** Nothing in a run changes the attempt limit, and if the active slot is the only confirmed one, it
      stays so. */
  lemma {:induction false} LimitRun(s: System, actions: seq<Action>, d: u32, m: u32)
    requires s.board.Wired() && Healthy(s.board) && HonestRun(s, actions, d, m)
    ensures var c, c' := Effective(s.board, d, m), Effective(Run(s, actions, d, m).board, d, m);
            && c'.maxAttempts == c.maxAttempts
            && (OnlyActiveConfirmed(c) ==> OnlyActiveConfirmed(c'))
    decreases actions
  {
    hide Healthy, HonestStep, Step, Effective, OnlyActiveConfirmed;
    if actions != [] {
      LimitStep(s, actions[0], d, m);
      LimitRun(Step(s, actions[0], d, m), actions[1..], d, m);
    }
  }

  lemma DefaultLimit(d: u32, m: u32)
    ensures var c := DefaultBootControl(d, m);
            OnlyActiveConfirmed(c) && c.maxAttempts == if m == 0 then 3 else m
  {
  }

  /** Every control block that a new device ever persists has the limit it was configured with, three if
      that is zero, and confirms its active slot alone. */
  lemma PersistedLimit(n: nat, slotA: seq<Byte>, slotB: seq<Byte>, actions: seq<Action>, d: u32, m: u32)
    requires 0 < n && 2 * n < 0x8000_0000 && |slotA| == |slotB| == SLOT_SIZE
    requires HonestRun(NewDevice(n, slotA, slotB), actions, d, m)
    ensures var c := Stored(Run(NewDevice(n, slotA, slotB), actions, d, m).board);
            ControlIsValid(c) ==>
              && c.maxAttempts == (if m == 0 then 3 else m)
              && c.confirmedA == (if c.active == 0 then 1 else 0) && c.confirmedB == (if c.active == 0 then 0 else 1)
  {
    hide Stored, Healthy, HonestRun, DefaultBootControl, Run;
    NewDeviceHealthy(n, slotA, slotB);
    LimitRun(NewDevice(n, slotA, slotB), actions, d, m);
    DefaultLimit(d, m);
  }

  // ----- trial boots are bounded

  /** The boot handed over to an image that is not the active one. */
  predicate IsTrial(s: System, a: Action, d: u32, m: u32)
    requires s.board.Wired()
  {
    a.DoBoot? &&
    var o := BootloaderRun(s.board.(faults := a.faults), d, m).outcome;
    o.Jump? && o.slot != Active(Step(s, a, d, m), d, m)
  }

  predicate CommitsMark(s: System, a: Action, d: u32, m: u32)
    requires s.board.Wired()
  {
    a.DoMark? && Stored(Step(s, a, d, m).board) != Stored(s.board)
  }

  lemma TrialStep(s: System, a: Action, d: u32, m: u32)
    requires Healthy(s.board) && s.board.Wired() && HonestStep(s, a) && !CommitsMark(s, a, d, m)
    ensures Healthy(Step(s, a, d, m).board)
    ensures AttemptsLeft(Effective(Step(s, a, d, m).board, d, m)) + (if IsTrial(s, a, d, m) then 1 else 0)
            <= AttemptsLeft(Effective(s.board, d, m))
  {
    hide Sound, Stored, Healthy, HonestStep, DecodeHeader, DefaultBootControl, BootloaderRun, AppStep,
         WriteCandidateImage, Marked;
    StepMeans(s, a, d, m);
    StepOutcome(s, a, d, m);
    StoredEffective(s.board, Step(s, a, d, m).board, d, m);
    if a.DoBoot? {
      BootStepMeans(s, a, d, m);
    }
  }

  function Trials(s: System, actions: seq<Action>, d: u32, m: u32): nat
    requires s.board.Wired()
    decreases actions
  {
    if actions == [] then 0
    else (if IsTrial(s, actions[0], d, m) then 1 else 0) + Trials(Step(s, actions[0], d, m), actions[1..], d, m)
  }

  /** No step of the run commits a new pending mark, and no interrupted erase forges a record. */
  predicate Unmarked(s: System, actions: seq<Action>, d: u32, m: u32)
    requires s.board.Wired()
    decreases actions
  {
    actions != [] ==>
      && HonestStep(s, actions[0])
      && !CommitsMark(s, actions[0], d, m)
      && Unmarked(Step(s, actions[0], d, m), actions[1..], d, m)
  }

  /** Between two committed marks the bootloader hands over to an unconfirmed image at most as often
      as attempts were left, which is never more than the limit in the control block. */
  lemma {:induction false} TrialsBounded(s: System, actions: seq<Action>, d: u32, m: u32)
    requires Healthy(s.board) && s.board.Wired() && Unmarked(s, actions, d, m)
    ensures Trials(s, actions, d, m) <= AttemptsLeft(Effective(s.board, d, m)) <= Effective(s.board, d, m).maxAttempts
    decreases actions
  {
    hide Sound, Stored, Healthy, HonestStep, Step, IsTrial, CommitsMark, DefaultBootControl;
    if actions != [] {
      TrialStep(s, actions[0], d, m);
      TrialsBounded(Step(s, actions[0], d, m), actions[1..], d, m);
    }
  }
}
