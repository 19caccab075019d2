/** Runs on the STM32, where the platform starts an image only if it accepts its vector table. */
module PlatformRuns {
  import opened Words
  import opened Image
  import opened BootControls
  import opened Core
  import opened Platform
  import opened BootTheorems
  import opened BootRuns
  import opened Runs

  /** The step is one the STM32 can make: what a boot hands over to starts exactly if the jump checks
      pass. */
  predicate OnStm32(s: System, a: Action, d: u32, m: u32)
    requires s.board.Wired()
  {
    a.DoBoot? && Handover(s, a, d, m).Jump? ==>
      var o := Handover(s, a, d, m);
      a.starts <==> JumpAccepts(o.slot, o.address, Step(s, a, d, m).board.Slot(o.slot))
  }

  predicate Stm32Run(s: System, actions: seq<Action>, d: u32, m: u32)
    requires s.board.Wired()
    decreases actions
  {
    actions != [] ==> OnStm32(s, actions[0], d, m) && Stm32Run(Step(s, actions[0], d, m), actions[1..], d, m)
  }

  lemma SlotsKeepBootable(b: Board, b': Board)
    requires b.Wired() && b'.Wired() && b'.slotA == b.slotA && b'.slotB == b.slotB
    ensures forall n: u32 :: Bootable(b', n) == Bootable(b, n)
  {
    hide Bootable;
    forall n: u32
      ensures Bootable(b', n) == Bootable(b, n)
    {
      SameSlotBootable(b, b', n);
    }
  }

  lemma BootableIsSound(b: Board, n: u32)
    requires b.Wired() && Bootable(b, n)
    ensures Sound(b.Slot(n))
  {
  }

  /** What a jump to a verifying image means on the STM32. */
  lemma StartsIfBootable(s: System, a: Action, d: u32, m: u32)
    requires s.board.Wired() && a.DoBoot? && Handover(s, a, d, m).Jump? && BootsOn(s, a, d, m)
    ensures OnStm32(s, a, d, m) <==> (a.starts <==> Bootable(Step(s, a, d, m).board, Handover(s, a, d, m).slot))
  {
    hide Sound, JumpAccepts, Step, BootAddress, Handover, AllFine;
  }

  /** The active image and whatever runs pass the jump checks. */
  ghost predicate Startable(s: System, d: u32, m: u32) {
    && Safe(s, d, m)
    && Bootable(s.board, Active(s, d, m))
    && (IsSlot(s.running) ==> Bootable(s.board, s.running))
  }

  lemma StartableBoot(s: System, a: Action, d: u32, m: u32)
    requires Startable(s, d, m) && HonestStep(s, a) && OnStm32(s, a, d, m) && a.DoBoot?
    ensures Startable(Step(s, a, d, m), d, m)
    ensures var o, s' := Handover(s, a, d, m), Step(s, a, d, m);
            o.Jump? && o.slot == Active(s', d, m) ==> s'.running == Active(s', d, m)
  {
    hide Sound, Stored, Healthy, HonestStep, ControlIsValid, Tries, DefaultBootControl, BootloaderRun, Bootable,
         RolledBack, AllFine, BootAddress, OnStm32, BootsOn;
    var s' := Step(s, a, d, m);
    SafeStep(s, a, d, m);
    BootStepMeans(s, a, d, m);
    ActiveChangesOnlyByConfirm(s, a, d, m);
    SlotsKeepBootable(s.board, s'.board);
    if Handover(s, a, d, m).Jump? {
      StartsIfBootable(s, a, d, m);
    }
  }

  lemma StartableStep(s: System, a: Action, d: u32, m: u32)
    requires Startable(s, d, m) && Enabled(s, a) && HonestStep(s, a) && OnStm32(s, a, d, m)
    ensures Startable(Step(s, a, d, m), d, m)
    ensures a.DoBoot? ==>
              var o, s' := Handover(s, a, d, m), Step(s, a, d, m);
              o.Jump? && o.slot == Active(s', d, m) ==> s'.running == Active(s', d, m)
  {
    hide Sound, Stored, Healthy, HonestStep, ControlIsValid, ControlStep, BootloaderRun, AppStep, WriteCandidateImage,
         Bootable, OnStm32, Handover;
    if a.DoBoot? {
      StartableBoot(s, a, d, m);
    } else {
      var s' := Step(s, a, d, m);
      SafeStep(s, a, d, m);
      StepMeans(s, a, d, m);
      ActiveChangesOnlyByConfirm(s, a, d, m);
      if a.DoInstall? {
        SameSlotBootable(s.board, s'.board, s.running);
        StoredEffective(s.board, s'.board, d, m);
      } else {
        SlotsKeepBootable(s.board, s'.board);
      }
    }
  }

  /** At every point of the run the active image verifies and passes the jump checks, and so does
      whatever runs; and a boot that hands over to the active image starts it. */
  predicate NeverStuck(s: System, actions: seq<Action>, d: u32, m: u32)
    requires s.board.Wired()
    decreases actions
  {
    && Bootable(s.board, Active(s, d, m))
    && (IsSlot(s.running) ==> Bootable(s.board, s.running))
    && (actions != [] ==>
          var a, s' := actions[0], Step(s, actions[0], d, m);
          && (a.DoBoot? && Handover(s, a, d, m).Jump? && Handover(s, a, d, m).slot == Active(s', d, m) ==>
                s'.running == Active(s', d, m))
          && NeverStuck(s', actions[1..], d, m))
  }

  lemma {:induction false} StartableRun(s: System, actions: seq<Action>, d: u32, m: u32)
    requires s.board.Wired() && Startable(s, d, m) && Allowed(s, actions, d, m) && Stm32Run(s, actions, d, m)
    ensures NeverStuck(s, actions, d, m)
    decreases actions
  {
    hide Sound, Step, Healthy, HonestStep, Enabled, Active, Bootable, Handover, OnStm32, Safe;
    if actions != [] {
      StartableStep(s, actions[0], d, m);
      StartableRun(Step(s, actions[0], d, m), actions[1..], d, m);
    }
  }

  /** Brick freedom on the STM32: if the default slot's image also passes the jump checks, then beside
      what holds on every platform the active image always passes them, and a boot that hands over to
      it starts it. */
  lemma Stm32BrickFreedom(n: nat, slotA: seq<Byte>, slotB: seq<Byte>, actions: seq<Action>, d: u32, m: u32)
    requires 0 < n && 2 * n < 0x8000_0000 && |slotA| == |slotB| == SLOT_SIZE
    requires IsSlot(d) && Bootable(NewDevice(n, slotA, slotB).board, d)
    requires Allowed(NewDevice(n, slotA, slotB), actions, d, m) && Stm32Run(NewDevice(n, slotA, slotB), actions, d, m)
    ensures NeverBricked(NewDevice(n, slotA, slotB), actions, d, m)
    ensures NeverStuck(NewDevice(n, slotA, slotB), actions, d, m)
  {
    hide Sound, Stored, Healthy, ControlIsValid, HonestStep, Bootable;
    NewDeviceHealthy(n, slotA, slotB);
    BootableIsSound(NewDevice(n, slotA, slotB).board, d);
    SafeRun(NewDevice(n, slotA, slotB), actions, d, m);
    StartableRun(NewDevice(n, slotA, slotB), actions, d, m);
  }
}
