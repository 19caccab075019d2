/** Whole runs from start to end: an update that nothing disturbs, the first boot of a device, and the
    run that bricks one if a trial image may install. */
module Updates {
  import opened Words
  import Crc
  import opened Image
  import opened BootControls
  import opened Core
  import opened Platform
  import opened BootTheorems
  import opened BootRuns
  import opened Outcomes
  import opened Runs
  import opened PlatformRuns
  import opened Installs
  import opened Pack

  function UpdateActions(image: seq<Byte>, slot: u32): seq<Action> {
    [DoInstall(image, []), DoMark(slot, []), DoBoot([], true), DoConfirm([])]
  }

  lemma UpdateSteps(s: System, image: seq<Byte>, slot: u32, d: u32, m: u32)
    requires s.board.Wired()
    ensures Run(s, UpdateActions(image, slot), d, m)
            == Step(Step(Step(Step(s, DoInstall(image, []), d, m), DoMark(slot, []), d, m), DoBoot([], true), d, m),
                    DoConfirm([]), d, m)
    ensures Stm32Run(s, UpdateActions(image, slot), d, m)
            <==> OnStm32(Step(Step(s, DoInstall(image, []), d, m), DoMark(slot, []), d, m), DoBoot([], true), d, m)
    ensures var s1 := Step(s, DoInstall(image, []), d, m);
            var s2 := Step(s1, DoMark(slot, []), d, m);
            var s3 := Step(s2, DoBoot([], true), d, m);
            Enabled(s, DoInstall(image, [])) && IsSlot(s1.running) && IsSlot(s3.running) ==>
              Allowed(s, UpdateActions(image, slot), d, m)
  {
    hide Step, Handover, JumpAccepts, Stored, ControlIsValid;
    var a := UpdateActions(image, slot);
    assert a[1..][1..] == [DoBoot([], true), DoConfirm([])] && a[1..][1..][1..] == [DoConfirm([])];
    assert Run(s, a, d, m)
        == Run(Step(Step(s, a[0], d, m), a[1], d, m), [DoBoot([], true), DoConfirm([])], d, m);
    assert Allowed(Step(Step(s, a[0], d, m), a[1], d, m), [DoBoot([], true), DoConfirm([])], d, m)
        <== IsSlot(Step(Step(Step(s, a[0], d, m), a[1], d, m), DoBoot([], true), d, m).running);
    assert Stm32Run(s, a, d, m)
        <==> Stm32Run(Step(Step(s, a[0], d, m), a[1], d, m), [DoBoot([], true), DoConfirm([])], d, m);
  }

  /** A device whose log is in order, with control c in it. */
  ghost predicate Holds(s: System, c: BootControl) {
    s.board.Wired() && Healthy(s.board) && Stored(s.board) == c && ControlIsValid(c)
  }

  lemma Quiet(s: System, c: BootControl)
    requires Holds(s, c)
    ensures var b := s.board.(faults := []);
            && b.Wired() && Healthy(b) && Stored(b) == c && HonestAll(b) && AllFine(b.faults)
            && b.slotA == s.board.slotA && b.slotB == s.board.slotB
  {
    hide Healthy, Stored, ControlIsValid;
    NoFaultsLeft(s.board);
  }

  lemma QuietLoad(b: Board, c: BootControl)
    requires b.Wired() && Healthy(b) && Stored(b) == c && ControlIsValid(c) && AllFine(b.faults) && HonestAll(b)
    ensures var l := Load(b);
            && l.status == Ok && l.control == c
            && l.board == b.(faults := l.board.faults)
            && Healthy(l.board) && Stored(l.board) == c && HonestAll(l.board) && AllFine(l.board.faults)
  {
    hide Healthy, Stored, ControlIsValid, HonestAll, AllFine, Load;
    LoadMeans(b);
  }

  lemma StepIs(s: System, a: Action, d: u32, m: u32)
    requires s.board.Wired()
    ensures var b, s' := s.board.(faults := a.faults), Step(s, a, d, m);
            && (a.DoBoot? ==>
                  var r := BootloaderRun(b, d, m);
                  && r.outcome == Handover(s, a, d, m)
                  && s' == System(r.board, if r.outcome.Jump? && a.starts then r.outcome.slot else SLOT_NONE))
            && (a.DoInstall? ==>
                  s' == System(WriteCandidateImage(b, s.running, OtherSlot(s.running), a.image).board, s.running))
            && (Load(b).status == Ok ==>
                  && (a.DoMark? ==> s' == System(MarkPending(Load(b).board, Load(b).control, a.slot).board, s.running))
                  && (a.DoConfirm? ==>
                        s' == System(ConfirmCurrentImage(Load(b).board, Load(b).control, s.running).board, s.running)))
  {
    hide BootloaderRun, WriteCandidateImage, Load, MarkPending, ConfirmCurrentImage, Rollback;
  }

  lemma HoldsIs(b: Board, running: u32, c: BootControl)
    ensures Holds(System(b, running), c) <==> b.Wired() && Healthy(b) && Stored(b) == c && ControlIsValid(c)
  {
    hide Healthy, Stored, ControlIsValid;
  }

  lemma SlotsApart(n: u32)
    requires IsSlot(n)
    ensures IsSlot(OtherSlot(n)) && OtherSlot(n) != n
  {
  }

  lemma KeptSlot(b: Board, b': Board, n: u32)
    requires b.Wired() && b'.Wired() && IsSlot(n)
    requires OtherSlot(n) != SLOT_A ==> b'.slotA == b.slotA
    requires OtherSlot(n) == SLOT_A ==> b'.slotB == b.slotB
    ensures b'.Slot(n) == b.Slot(n)
  {
  }

  lemma QuietInstall(s: System, payload: seq<Byte>, headerSize: nat, c: BootControl, d: u32, m: u32)
    requires Holds(s, c) && IsSlot(s.running)
    requires BuildImage(payload, SlotAddress(OtherSlot(s.running)), SLOT_SIZE, headerSize).Packed?
    ensures var target := OtherSlot(s.running);
            var image := BuildImage(payload, SlotAddress(target), SLOT_SIZE, headerSize).image;
            var s' := Step(s, DoInstall(image, []), d, m);
            && Holds(s', c) && s'.running == s.running
            && s'.board.Slot(s.running) == s.board.Slot(s.running)
            && Sound(s'.board.Slot(target))
            && (Bootable(s'.board, target) <==> headerSize % IMAGE_HEADER_SIZE == 0)
            && Payload(s'.board.Slot(target)) == payload
  {
    var target := OtherSlot(s.running);
    var image := BuildImage(payload, SlotAddress(target), SLOT_SIZE, headerSize).image;
    var b := s.board.(faults := []);
    SlotsApart(s.running);
    HoldsIs(s.board, s.running, c);
    hide *;
    StepIs(s, DoInstall(image, []), d, m);
    Quiet(s, c);
    PackInstallBoot(payload, target, headerSize, b, s.running);
    InstallTouches(b, s.running, target, image);
    var s' := Step(s, DoInstall(image, []), d, m);
    SameLogHealthy(s.board, s'.board);
    SameLogStored(s.board, s'.board);
    HoldsIs(s'.board, s'.running, c);
    KeptSlot(b, s'.board, s.running);
    SameSlotBootable(s'.board, WriteCandidateImage(b, s.running, target, image).board, target);
  }

  lemma ReplacedIs(b: Board, c: BootControl, updated: BootControl, r: ControlResult)
    requires b.Wired() && r.board.Wired() && Replaces(b, c, updated, r) && r.status == Ok
    ensures Stored(r.board) == updated && r.board.slotA == b.slotA && r.board.slotB == b.slotB
  {
    hide Stored;
  }

  lemma SameSlots(b: Board, b': Board)
    requires b.Wired() && b'.Wired() && b'.slotA == b.slotA && b'.slotB == b.slotB
    ensures forall n: u32 :: b'.Slot(n) == b.Slot(n)
  {
  }

  lemma MarkIsValid(c: BootControl, slot: u32, h: Header)
    requires MayMark(c, slot)
    ensures ControlIsValid(Marked(c, slot, h))
  {
  }

  lemma QuietMark(s: System, slot: u32, c: BootControl, d: u32, m: u32)
    requires Holds(s, c) && MayMark(c, slot) && Sound(s.board.Slot(slot))
    ensures var s' := Step(s, DoMark(slot, []), d, m);
            && Holds(s', Marked(c, slot, DecodeHeader(s.board.Slot(slot)))) && s'.running == s.running
            && s'.board.slotA == s.board.slotA && s'.board.slotB == s.board.slotB
  {
    var b := s.board.(faults := []);
    var marked := Marked(c, slot, DecodeHeader(s.board.Slot(slot)));
    MarkIsValid(c, slot, DecodeHeader(s.board.Slot(slot)));
    HoldsIs(s.board, s.running, c);
    hide *;
    StepIs(s, DoMark(slot, []), d, m);
    Quiet(s, c);
    QuietLoad(b, c);
    var l := Load(b).board;
    SameSlots(s.board, l);
    MarkReplaces(l, c, slot);
    var r := MarkPending(l, c, slot);
    ReplacedIs(l, c, marked, r);
    HoldsIs(r.board, s.running, marked);
  }

  lemma ConfirmIsValid(c: BootControl, slot: u32)
    requires MayConfirm(c, slot)
    ensures ControlIsValid(Confirmed(c, slot))
  {
  }

  lemma QuietConfirm(s: System, c: BootControl, d: u32, m: u32)
    requires Holds(s, c) && MayConfirm(c, s.running) && Sound(s.board.Slot(s.running))
    ensures var s' := Step(s, DoConfirm([]), d, m);
            && Holds(s', Confirmed(c, s.running)) && s'.running == s.running
            && s'.board.slotA == s.board.slotA && s'.board.slotB == s.board.slotB
  {
    var b := s.board.(faults := []);
    ConfirmIsValid(c, s.running);
    HoldsIs(s.board, s.running, c);
    hide *;
    StepIs(s, DoConfirm([]), d, m);
    Quiet(s, c);
    QuietLoad(b, c);
    var l := Load(b).board;
    SameSlots(s.board, l);
    ConfirmReplaces(l, c, s.running);
    var r := ConfirmCurrentImage(l, c, s.running);
    ReplacedIs(l, c, Confirmed(c, s.running), r);
    HoldsIs(r.board, s.running, Confirmed(c, s.running));
  }

  lemma BootsOnIs(s: System, a: Action, d: u32, m: u32)
    requires s.board.Wired() && a.DoBoot?
    ensures var o, s' := Handover(s, a, d, m), Step(s, a, d, m);
            o.Jump? && IsSlot(o.slot) && Sound(s'.board.Slot(o.slot)) && o.address == BootAddress(s'.board, o.slot) ==>
              BootsOn(s, a, d, m)
  {
    hide Sound, Step, BootAddress, Handover, AllFine;
  }

  lemma TriedIsValid(b: Board, c: BootControl)
    requires b.Wired() && ControlIsValid(c) && c.pending != SLOT_NONE
    requires c.attempts < c.maxAttempts && Sound(b.Slot(c.pending))
    ensures IsSlot(c.pending) && Tries(b, c) && ControlIsValid(Tried(c))
  {
    hide Sound;
  }

  /** A trial of a marked image that verifies and has attempts left. */
  lemma QuietTrial(s: System, c: BootControl, d: u32, m: u32)
    requires Holds(s, c) && c.pending != SLOT_NONE && c.attempts < c.maxAttempts
    requires Sound(s.board.Slot(c.active)) && Sound(s.board.Slot(c.pending))
    ensures var s' := Step(s, DoBoot([], true), d, m);
            && Holds(s', Tried(c)) && s'.running == c.pending
            && s'.board.slotA == s.board.slotA && s'.board.slotB == s.board.slotB
            && (OnStm32(s, DoBoot([], true), d, m) <==> Bootable(s.board, c.pending))
  {
    var b := s.board.(faults := []);
    HoldsIs(s.board, s.running, c);
    hide *;
    StepIs(s, DoBoot([], true), d, m);
    Quiet(s, c);
    SameSlots(s.board, b);
    TriedIsValid(b, c);
    OneMoreBoot(b, c, d, m);
    var r := BootloaderRun(b, d, m);
    SameSlots(b, r.board);
    SameSlotBootable(b, r.board, c.pending);
    SameSlotBootable(s.board, b, c.pending);
    BootsOnIs(s, DoBoot([], true), d, m);
    StartsIfBootable(s, DoBoot([], true), d, m);
    HoldsIs(r.board, c.pending, Tried(c));
  }

  lemma ControlsOfUpdate(c: BootControl, slot: u32, h: Header)
    requires MayMark(c, slot)
    ensures var c1 := Marked(c, slot, h);
            && c1.pending == slot != SLOT_NONE && c1.attempts == 0 && c1.active == c.active && ControlIsValid(c1)
            && c1.attempts < c1.maxAttempts && MayConfirm(Tried(c1), slot)
  {
  }

  lemma ActiveIsSlot(c: BootControl)
    requires ControlIsValid(c)
    ensures IsSlot(c.active) && IsSlot(OtherSlot(c.active)) && OtherSlot(c.active) != c.active
    ensures MayMark(c, OtherSlot(c.active))
  {
  }

  lemma InstallEnabled(s: System, c: BootControl, image: seq<Byte>)
    requires Holds(s, c) && IsSlot(s.running) && c.active == s.running
    ensures Enabled(s, DoInstall(image, []))
  {
    hide Healthy, Stored, ControlIsValid;
  }

  /** Control c with the slot taken over by an image of this payload: active, alone confirmed, and with
      the payload's size and CRC recorded for it; the other slot's record and the limit are kept. */
  predicate Replaced(c: BootControl, slot: u32, payload: seq<Byte>, c': BootControl) {
    && c'.magic == c.magic && c'.version == c.version && c'.maxAttempts == c.maxAttempts
    && c'.active == slot && c'.pending == 0xFF && c'.attempts == 0
    && (if slot == 0
        then c'.crcA == UInt(Crc.Crc32(payload)) && c'.sizeA == |payload| && c'.confirmedA == 1 &&
             c'.crcB == c.crcB && c'.sizeB == c.sizeB && c'.confirmedB == 0
        else c'.crcB == UInt(Crc.Crc32(payload)) && c'.sizeB == |payload| && c'.confirmedB == 1 &&
             c'.crcA == c.crcA && c'.sizeA == c.sizeA && c'.confirmedA == 0)
  }

  lemma ReplacedControl(c: BootControl, slot: u32, flash: SlotBytes)
    requires MayMark(c, slot) && Sound(flash)
    ensures Replaced(c, slot, Payload(flash), Confirmed(Tried(Marked(c, slot, DecodeHeader(flash))), slot))
  {
    hide DecodeHeader, Crc.Crc32, UInt;
  }

  /** An update that nothing disturbs goes through: install a packed image from the active one, mark
      it, reboot, confirm. Then the new image runs and is active, nothing is pending, its payload is
      the one that was packed, and the old image is still in its slot. The STM32 starts it if and only
      if its header is aligned. */
  lemma UpdateGoesThrough(s: System, payload: seq<Byte>, headerSize: nat, c: BootControl, d: u32, m: u32)
    requires Holds(s, c) && c.active == s.running && Sound(s.board.Slot(s.running))
    requires BuildImage(payload, SlotAddress(OtherSlot(s.running)), SLOT_SIZE, headerSize).Packed?
    ensures var target := OtherSlot(s.running);
            var image := BuildImage(payload, SlotAddress(target), SLOT_SIZE, headerSize).image;
            var s' := Run(s, UpdateActions(image, target), d, m);
            && s'.running == target
            && Replaced(c, target, payload, Stored(s'.board)) && ControlIsValid(Stored(s'.board))
            && Sound(s'.board.Slot(target)) && Payload(s'.board.Slot(target)) == payload
            && s'.board.Slot(s.running) == s.board.Slot(s.running)
            && Allowed(s, UpdateActions(image, target), d, m)
            && (Stm32Run(s, UpdateActions(image, target), d, m) <==> headerSize % IMAGE_HEADER_SIZE == 0)
  {
    hide *;
    HoldsIs(s.board, s.running, c);
    ActiveIsSlot(c);
    var target := OtherSlot(s.running);
    var image := BuildImage(payload, SlotAddress(target), SLOT_SIZE, headerSize).image;
    UpdateSteps(s, image, target, d, m);
    InstallEnabled(s, c, image);
    QuietInstall(s, payload, headerSize, c, d, m);
    var s1 := Step(s, DoInstall(image, []), d, m);
    var h := DecodeHeader(s1.board.Slot(target));
    ControlsOfUpdate(c, target, h);
    QuietMark(s1, target, c, d, m);
    var s2 := Step(s1, DoMark(target, []), d, m);
    SameSlots(s1.board, s2.board);
    SameSlotBootable(s1.board, s2.board, target);
    QuietTrial(s2, Marked(c, target, h), d, m);
    var s3 := Step(s2, DoBoot([], true), d, m);
    SameSlots(s1.board, s3.board);
    QuietConfirm(s3, Tried(Marked(c, target, h)), d, m);
    var s4 := Step(s3, DoConfirm([]), d, m);
    SameSlots(s1.board, s4.board);
    HoldsIs(s4.board, target, Confirmed(Tried(Marked(c, target, h)), target));
    ReplacedControl(c, target, s1.board.Slot(target));
  }

  // ----- the run that an unguarded install bricks

  /** k boots on a platform that starts what it is handed. */
  function TrialBoots(k: nat): (actions: seq<Action>)
    ensures |actions| == k
  {
    if k == 0 then [] else [DoBoot([], true)] + TrialBoots(k - 1)
  }

  lemma TrialBootsStep(s: System, k: nat, d: u32, m: u32)
    requires s.board.Wired() && k > 0
    ensures var s1 := Step(s, DoBoot([], true), d, m);
            && Run(s, TrialBoots(k), d, m) == Run(s1, TrialBoots(k - 1), d, m)
            && (Allowed(s1, TrialBoots(k - 1), d, m) ==> Allowed(s, TrialBoots(k), d, m))
  {
    hide Step;
    assert TrialBoots(k)[0] == DoBoot([], true) && TrialBoots(k)[1..] == TrialBoots(k - 1);
  }

  lemma NoTrialBoots(s: System, d: u32, m: u32)
    requires s.board.Wired()
    ensures Run(s, TrialBoots(0), d, m) == s && Allowed(s, TrialBoots(0), d, m)
  {
  }

  lemma TriedIs(c: BootControl, k: nat)
    requires 0 < k && c.attempts + k <= c.maxAttempts
    ensures var c1 := Tried(c);
            && c1.active == c.active && c1.pending == c.pending && c1.maxAttempts == c.maxAttempts
            && c1.attempts == c.attempts + 1 && c1.(attempts := c1.attempts + (k - 1)) == c.(attempts := c.attempts + k)
  {
  }

  /** Boots without a confirm use up attempts one by one. */
  lemma {:induction false} TrialsAreUsedUp(s: System, c: BootControl, k: nat, d: u32, m: u32)
    requires Holds(s, c) && c.pending != SLOT_NONE && c.attempts + k <= c.maxAttempts
    requires Sound(s.board.Slot(c.active)) && Sound(s.board.Slot(c.pending))
    ensures var s' := Run(s, TrialBoots(k), d, m);
            && Holds(s', c.(attempts := c.attempts + k)) && (k > 0 ==> s'.running == c.pending)
            && s'.board.slotA == s.board.slotA && s'.board.slotB == s.board.slotB
            && Allowed(s, TrialBoots(k), d, m)
    decreases k
  {
    hide *;
    HoldsIs(s.board, s.running, c);
    if k == 0 {
      NoTrialBoots(s, d, m);
    } else {
      TrialBootsStep(s, k, d, m);
      QuietTrial(s, c, d, m);
      TriedIs(c, k);
      var s1 := Step(s, DoBoot([], true), d, m);
      SameSlots(s.board, s1.board);
      TrialsAreUsedUp(s1, Tried(c), k - 1, d, m);
      if k == 1 {
        NoTrialBoots(s1, d, m);
      }
    }
  }

  lemma LastTrialBricks(s: System, c: BootControl, image: seq<Byte>, d: u32, m: u32)
    requires Holds(s, c) && c.pending == s.running != SLOT_NONE && c.attempts == c.maxAttempts
    requires Installable(c.active, image)
    ensures var s1 := Step(s, DoInstall(image, CutAfterErase()), d, m);
            BootloaderRun(s1.board.(faults := []), d, m).outcome.Recovery?
  {
    hide Healthy, Stored, Installable, BootloaderRun, Step, WriteCandidateImage;
    TrialInstallCanBrick(s, image, d, m);
  }

  lemma LimitIsPositive(c: BootControl)
    requires ControlIsValid(c)
    ensures c.maxAttempts > 0
  {
  }

  /** A run to it: mark a good image, boot it as often as it has attempts, and let it install over the
      active slot. Every step before that install is allowed and without fault; power fails after the
      erase, and the next boot, without fault, ends in recovery. */
  lemma UnguardedInstallBricks(s: System, c: BootControl, image: seq<Byte>, d: u32, m: u32)
    requires Holds(s, c) && c.pending != SLOT_NONE && c.attempts == 0
    requires Sound(s.board.Slot(c.active)) && Sound(s.board.Slot(c.pending)) && Installable(c.active, image)
    ensures Allowed(s, TrialBoots(c.maxAttempts), d, m)
    ensures var s1 := Run(s, TrialBoots(c.maxAttempts), d, m);
            var s2 := Step(s1, DoInstall(image, CutAfterErase()), d, m);
            && s1.running == c.pending && Sound(s1.board.Slot(c.active))
            && BootloaderRun(s2.board.(faults := []), d, m).outcome.Recovery?
  {
    hide *;
    HoldsIs(s.board, s.running, c);
    LimitIsPositive(c);
    TrialsAreUsedUp(s, c, c.maxAttempts, d, m);
    var s1 := Run(s, TrialBoots(c.maxAttempts), d, m);
    SameSlots(s.board, s1.board);
    LastTrialBricks(s1, c.(attempts := c.maxAttempts), image, d, m);
  }

  // ----- where runs begin

  lemma DefaultIs(n: nat, slotA: seq<Byte>, slotB: seq<Byte>, d: u32, m: u32)
    requires 0 < n && 2 * n < 0x8000_0000 && |slotA| == |slotB| == SLOT_SIZE && IsSlot(d)
    ensures var b, c := NewDevice(n, slotA, slotB).board, DefaultBootControl(d, m);
            && Healthy(b) && HonestAll(b) && AllFine(b.faults)
            && Effective(b, d, m) == c && ControlIsValid(c)
            && c.pending == SLOT_NONE && c.active == d && !Tries(b, c)
  {
    hide Healthy, Stored;
    NewDeviceHealthy(n, slotA, slotB);
  }

  lemma BootedActive(b: Board, c: BootControl, r: BootResult)
    requires b.Wired() && r.board.Wired() && ControlIsValid(c) && Booted(b, c, r) && r.outcome.Jump?
    requires c.pending == SLOT_NONE && !Tries(b, c)
    ensures r.outcome.slot == c.active && r.outcome.address == BootAddress(b, c.active)
    ensures Stored(r.board) == c && r.board.slotA == b.slotA && r.board.slotB == b.slotB
  {
    hide Stored, Sound, BootAddress;
  }

  /** The first boot of a new device writes the default control and hands over to the default slot. */
  lemma FirstBoot(n: nat, slotA: seq<Byte>, slotB: seq<Byte>, starts: bool, d: u32, m: u32)
    requires 0 < n && 2 * n < 0x8000_0000 && |slotA| == |slotB| == SLOT_SIZE
    requires IsSlot(d) && Sound(NewDevice(n, slotA, slotB).board.Slot(d))
    ensures var s, a := NewDevice(n, slotA, slotB), DoBoot([], starts);
            var s' := Step(s, a, d, m);
            && Holds(s', DefaultBootControl(d, m)) && FreshControl(d, m, Stored(s'.board))
            && s'.running == (if starts then d else SLOT_NONE)
            && s'.board.slotA == slotA && s'.board.slotB == slotB
            && (OnStm32(s, a, d, m) <==> (starts <==> Bootable(s.board, d)))
  {
    var s, c, a := NewDevice(n, slotA, slotB), DefaultBootControl(d, m), DoBoot([], starts);
    assert s.board.(faults := []) == s.board && s.board.slotA == slotA && s.board.slotB == slotB;
    hide *;
    DefaultIs(n, slotA, slotB, d, m);
    BootMeans(s.board, d, m);
    StepIs(s, a, d, m);
    var r := BootloaderRun(s.board, d, m);
    BootedActive(s.board, c, r);
    SameSlots(s.board, r.board);
    SameSlotBootable(s.board, r.board, d);
    BootsOnIs(s, a, d, m);
    StartsIfBootable(s, a, d, m);
    HoldsIs(r.board, d, c);
    HoldsIs(r.board, SLOT_NONE, c);
    DefaultIsFresh(d, m);
  }

  function TwoWords(a: u32, b: u32): seq<Byte> { WordBytes([ToWord(a), ToWord(b)]) }

  lemma TwoWordsHold(a: u32, b: u32)
    ensures |TwoWords(a, b)| == VECTOR_BYTES
    ensures UInt(Field(TwoWords(a, b), 0)) == a && UInt(Field(TwoWords(a, b), 1)) == b
  {
    hide Split, ToWord, UInt, Field;
    var words := [ToWord(a), ToWord(b)];
    assert TwoWords(a, b) + [] == TwoWords(a, b);
    FieldOfWords(words, [], 0);
    FieldOfWords(words, [], 1);
    UIntToWord(a);
    UIntToWord(b);
  }

  lemma PackedIf(payload: seq<Byte>, slot: u32)
    requires IsSlot(slot) && |payload| == VECTOR_BYTES
    requires VectorTableIsValid(payload, SlotAddress(slot) + IMAGE_HEADER_SIZE)
    ensures BuildImage(payload, SlotAddress(slot), SLOT_SIZE, IMAGE_HEADER_SIZE).Packed?
  {
    hide VectorTableIsValid, PackHeader, BinasciiCrc32;
  }

  /** There is something to pack: a vector table alone, whose reset handler is its own first word. */
  lemma SomethingPacks(slot: u32) returns (payload: seq<Byte>)
    requires IsSlot(slot)
    ensures BuildImage(payload, SlotAddress(slot), SLOT_SIZE, IMAGE_HEADER_SIZE).Packed?
  {
    hide Field, UInt, TwoWords, BuildImage;
    var reset: u32 := SlotAddress(slot) + IMAGE_HEADER_SIZE + 1;
    payload := TwoWords(0x2000_0000, reset);
    TwoWordsHold(0x2000_0000, reset);
    PackedIf(payload, slot);
  }
}
