/** Installing a candidate image: what each status means for flash. */
module Installs {
  import opened Words
  import Crc
  import opened Faults
  import opened Image
  import opened BootControls
  import opened Core
  import opened BootTheorems
  import opened BootRuns
  import opened Runs

  lemma ErasedSlot(cells: seq<Byte>, f: Fault, i: nat)
    requires !Strikes(f, 0) && i < |cells|
    ensures EraseSlot(cells, f)[i] == ERASED_BYTE
  {
  }

  lemma ProgramErasedByte(d: Byte)
    ensures ERASED_BYTE & d == d
  {
  }

  /** An image programmed into erased flash, and read back right, is followed by erased bytes. */
  lemma ProgrammedSlot(cells: seq<Byte>, image: seq<Byte>, e: Fault, f: Fault)
    requires |image| <= |cells| && !Strikes(e, 0) && ProgramSlotOk(EraseSlot(cells, e), image, f)
    ensures ProgramSlot(EraseSlot(cells, e), image, f) == image + seq(|cells| - |image|, _ => ERASED_BYTE)
  {
    var r := ProgramSlot(EraseSlot(cells, e), image, f);
    forall i | 0 <= i < |cells|
      ensures r[i] == if i < |image| then image[i] else ERASED_BYTE
    {
      if i < |image| {
        assert r[i] == r[..|image|][i];
      } else {
        ErasedSlot(cells, e, i);
      }
    }
  }

  lemma FineProgram(cells: seq<Byte>, image: seq<Byte>)
    requires |image| <= |cells|
    ensures ProgramSlotOk(EraseSlot(cells, Fine), image, Fine)
  {
    var r := ProgramSlot(EraseSlot(cells, Fine), image, Fine);
    forall i | 0 <= i < |image|
      ensures r[i] == image[i]
    {
      ErasedSlot(cells, Fine, i);
      ProgramErasedByte(image[i]);
    }
  }

  /** The check before the erase, on the whole buffer, and the check after the program, in chunks
      from flash, agree. */
  lemma CandidateIsSound(image: seq<Byte>, slot: SlotBytes)
    requires HEADER_BYTES <= |image| <= |slot| == SLOT_SIZE && Candidate(image) && slot[..|image|] == image
    ensures Sound(slot)
    ensures DecodeHeader(slot) == DecodeHeader(image)
  {
    hide DecodeHeader, Crc.Crc32;
    assert slot[..HEADER_BYTES] == slot[..|image|][..HEADER_BYTES];
    HeaderUnchanged(slot, image);
    var h := DecodeHeader(image);
    assert slot[h.headerSize..h.headerSize + h.imageSize] == slot[..|image|][h.headerSize..];
  }

  function Padded(image: seq<Byte>): (s: seq<Byte>)
    requires |image| <= SLOT_SIZE
    ensures |s| == SLOT_SIZE && s[..|image|] == image
  {
    image + seq(SLOT_SIZE - |image|, _ => ERASED_BYTE)
  }

  lemma InstallMeans(b: Board, target: u32, image: seq<Byte>)
    requires b.Wired() && IsSlot(target) && HEADER_BYTES <= |image| <= SLOT_SIZE && Candidate(image)
    ensures var r := Install(b, target, image);
            && (r.status == Ok || r.status == StorageError)
            && (r.status == Ok ==> r.board.Slot(target) == Padded(image) && Sound(r.board.Slot(target)))
            && (AllFine(b.faults) ==> r.status == Ok)
  {
    hide Sound, DecodeHeader, Candidate, EraseSlot, ProgramSlot, ProgramSlotOk, VerifyImage, AllFine;
    var b1 := b.Spend().WithSlot(target, EraseSlot(b.Slot(target), b.Next()));
    var b2 := b1.Spend().WithSlot(target, ProgramSlot(b1.Slot(target), image, b1.Next()));
    assert b1.Slot(target) == EraseSlot(b.Slot(target), b.Next());
    assert b2.Slot(target) == ProgramSlot(b1.Slot(target), image, b1.Next());
    if AllFine(b.faults) {
      SpentFine(b);
      SpentFine(b1);
      assert b1.Next() == Fine && b.Next() == Fine;
      FineProgram(b.Slot(target), image);
    }
    if !Strikes(b.Next(), 0) && ProgramSlotOk(b1.Slot(target), image, b1.Next()) {
      ProgrammedSlot(b.Slot(target), image, b.Next(), b1.Next());
      CandidateIsSound(image, b2.Slot(target));
      VerifyMeans(b2, target);
      if AllFine(b.faults) {
        FineVerify(b2, target);
      }
    }
  }

  lemma QuietVerify(b: Board, slot: u32)
    requires b.Wired() && IsSlot(slot) && b.faults == []
    ensures VerifyImage(b, slot) == Result(b, if Sound(b.Slot(slot)) then Ok else VerifyError)
  {
    hide Sound, DecodeHeader, HeaderIsValid;
    if !HeaderIsValid(SLOT_SIZE, DecodeHeader(b.Slot(slot))) {
      UnsoundHeader(b.Slot(slot));
    }
  }

  /** The arguments are a slot and an image that passes every check made before the erase. */
  predicate Installable(target: u32, image: seq<Byte>) {
    IsSlot(target) && HEADER_BYTES <= |image| <= SLOT_SIZE && Candidate(image)
  }

  /** iap_write_candidate_image. Ok: the slot is the image followed by erased bytes, and it
      verifies. VerifyError and InvalidArg: flash is untouched. Whatever happens, nothing outside
      the target slot changes, and without faults every installable image is installed. */
  lemma InstallContract(b: Board, protected: u32, target: u32, image: seq<Byte>)
    requires b.Wired()
    ensures var r := WriteCandidateImage(b, protected, target, image);
            && (r.status == Ok ==>
                  && Installable(target, image) && target != protected
                  && r.board.Slot(target) == Padded(image) && Sound(r.board.Slot(target)))
            && (r.status == VerifyError <==>
                  IsSlot(target) && HEADER_BYTES <= |image| <= SLOT_SIZE && !Candidate(image))
            && (r.status == InvalidArg <==>
                  || (target != 0 && target != 1) || |image| < 24 || |image| > 0x4_0000
                  || (Candidate(image) && target == protected))
            && (r.status == VerifyError || r.status == InvalidArg ==> r.board == b)
            && r.status in {Ok, VerifyError, InvalidArg, StorageError}
            && r.board.log == b.log
            && (target != SLOT_A ==> r.board.slotA == b.slotA)
            && (target == SLOT_A ==> r.board.slotB == b.slotB)
            && (AllFine(b.faults) && Installable(target, image) && target != protected ==> r.status == Ok)
  {
    hide Sound, DecodeHeader, Candidate, Install, AllFine;
    InstallTouches(b, protected, target, image);
    if Installable(target, image) {
      InstallMeans(b, target, image);
    }
  }

  // ----- installs that power cuts interrupt

  /** How many of size bytes are written by k program operations: whole words first, then single bytes. */
  function WrittenBy(size: nat, k: nat): nat {
    if k <= size / 4 then 4 * k else size / 4 * 4 + (k - size / 4)
  }

  /** What is left of an image by a program that breaks at operation k: everything before it, part of what
      that operation writes, and erased bytes from there on. */
  predicate CutAt(slot: seq<Byte>, image: seq<Byte>, k: nat)
    requires |image| <= |slot|
  {
    && (forall i :: 0 <= i < |image| && i < WrittenBy(|image|, k) ==> slot[i] == image[i])
    && (forall i :: 0 <= i < |image| ==> slot[i] & image[i] == image[i])
    && (forall i :: 0 <= i < |slot| && i >= WrittenBy(|image|, k + 1) ==> slot[i] == 0xFF)
  }

  lemma TornByte(d: Byte, tear: Byte)
    ensures (0xFF & (d | tear)) & d == d && 0xFF & d == d && 0xFF & d & d == d && 0xFF & 0xFF & d == d
  {
  }

  lemma OpOrder(size: nat, i: nat, k: nat)
    requires i < size
    ensures i < WrittenBy(size, k) ==> OpOf(size, i) < k
    ensures i >= WrittenBy(size, k + 1) && k < size / 4 + size % 4 ==> OpOf(size, i) > k
  {
  }

  lemma InterruptedProgram(cells: seq<Byte>, image: seq<Byte>, k: nat, tear: nat -> Word)
    requires |image| <= |cells| && k < |image| / 4 + |image| % 4
    requires forall i :: 0 <= i < |cells| ==> cells[i] == 0xFF
    ensures CutAt(ProgramSlot(cells, image, Fail(k, tear)), image, k)
    ensures !ProgramSlotOk(cells, image, Fail(k, tear))
  {
    hide OpOf, LaneOf, Split, WrittenBy;
    var f, r := Fail(k, tear), ProgramSlot(cells, image, Fail(k, tear));
    forall i | 0 <= i < |image|
      ensures i < WrittenBy(|image|, k) ==> r[i] == image[i]
      ensures r[i] & image[i] == image[i]
      ensures i >= WrittenBy(|image|, k + 1) ==> r[i] == 0xFF
    {
      OpOrder(|image|, i, k);
      TornByte(image[i], Split(tear(OpOf(|image|, i)))[LaneOf(|image|, i)]);
    }
    assert StrikesIn(f, 0, ProgramOps(|image|));
  }

  lemma MissedProgram(cells: seq<Byte>, image: seq<Byte>, k: nat, tear: nat -> Word)
    requires |image| <= |cells| && k >= |image| / 4 + |image| % 4
    ensures ProgramSlotOk(EraseSlot(cells, Fine), image, Fail(k, tear))
  {
    hide Split, LaneOf;
    var r := ProgramSlot(EraseSlot(cells, Fine), image, Fail(k, tear));
    forall i | 0 <= i < |image|
      ensures r[i] == image[i]
    {
      ErasedSlot(cells, Fine, i);
      ProgramErasedByte(image[i]);
      assert OpOf(|image|, i) < k;
    }
  }

  /** An install whose erase goes through and whose program breaks at operation k: it fails exactly if
      there is such an operation, one for each whole word and each byte after the last of them, and
      then the slot holds the image up to it and is erased from there on. */
  lemma CutInstall(b: Board, protected: u32, target: u32, image: seq<Byte>, k: nat, tear: nat -> Word)
    requires b.Wired() && Installable(target, image) && target != protected
    requires b.faults == [Fine, Fail(k, tear)]
    ensures var r := WriteCandidateImage(b, protected, target, image);
            && r.status == (if k < |image| / 4 + |image| % 4 then StorageError else Ok)
            && (r.status == StorageError ==> CutAt(r.board.Slot(target), image, k))
            && (r.status == Ok ==> r.board.Slot(target) == Padded(image))
  {
    hide Sound, DecodeHeader, Candidate, ProgramSlot, EraseSlot, ProgramSlotOk, VerifyImage, CutAt;
    var cells := EraseSlot(b.Slot(target), Fine);
    forall i | 0 <= i < |cells|
      ensures cells[i] == 0xFF
    {
      ErasedSlot(b.Slot(target), Fine, i);
    }
    var after := ProgramSlot(cells, image, Fail(k, tear));
    if k < |image| / 4 + |image| % 4 {
      InterruptedProgram(cells, image, k, tear);
    } else {
      MissedProgram(b.Slot(target), image, k, tear);
      ProgrammedSlot(b.Slot(target), image, Fine, Fail(k, tear));
      CandidateIsSound(image, after);
    }
    QuietVerify(b.(faults := []).WithSlot(target, after), target);
  }

  // ----- why only the active image may install

  lemma ErasedIsNotSound(slot: SlotBytes)
    requires forall i :: 0 <= i < |slot| ==> slot[i] == ERASED_BYTE
    ensures !Sound(slot)
  {
    assert Join(slot[0..4]) == ALL_ONES;
    AllOnesNumber();
  }

  lemma TornProgramByte(d: Byte)
    ensures ERASED_BYTE & (d | Split(ALL_ONES)[0]) == ERASED_BYTE
    ensures ERASED_BYTE & (d | Split(ALL_ONES)[1]) == ERASED_BYTE
    ensures ERASED_BYTE & (d | Split(ALL_ONES)[2]) == ERASED_BYTE
    ensures ERASED_BYTE & (d | Split(ALL_ONES)[3]) == ERASED_BYTE
  {
  }

  /** The erase goes through and the first program changes nothing. */
  function CutAfterErase(): seq<Fault> { [Fine, Fail(0, _ => ALL_ONES)] }

  lemma CutProgram(cells: seq<Byte>, image: seq<Byte>, i: nat)
    requires |image| <= |cells| && i < |cells|
    ensures ProgramSlot(EraseSlot(cells, Fine), image, CutAfterErase()[1])[i] == ERASED_BYTE
  {
    ErasedSlot(cells, Fine, i);
    if i < |image| {
      TornProgramByte(image[i]);
    }
  }

  lemma CutInstallErases(b: Board, target: u32, image: seq<Byte>)
    requires b.Wired() && IsSlot(target) && HEADER_BYTES <= |image| <= SLOT_SIZE
    requires b.faults == CutAfterErase()
    ensures !Sound(Install(b, target, image).board.Slot(target))
  {
    hide Sound, VerifyImage, ProgramSlot, EraseSlot;
    var f := CutAfterErase()[1];
    var slot := ProgramSlot(EraseSlot(b.Slot(target), Fine), image, f);
    forall i | 0 <= i < |slot|
      ensures slot[i] == ERASED_BYTE
    {
      CutProgram(b.Slot(target), image, i);
    }
    ErasedIsNotSound(slot);
    assert StrikesIn(f, 0, ProgramOps(|image|));
  }

  lemma OtherSlotOf(n: u32, other: u32)
    requires IsSlot(n) && IsSlot(other) && n != other
    ensures other == OtherSlot(n) && IsSlot(OtherSlot(n))
  {
  }

  /** An install leaves the control as it is; cut after the erase, it leaves no image behind. */
  lemma CutInstallStep(s: System, image: seq<Byte>, d: u32, m: u32)
    requires s.board.Wired() && Healthy(s.board) && IsSlot(s.running)
    requires Installable(OtherSlot(s.running), image)
    ensures var s1 := Step(s, DoInstall(image, CutAfterErase()), d, m);
            && Healthy(s1.board) && Stored(s1.board) == Stored(s.board)
            && Effective(s1.board, d, m) == Effective(s.board, d, m)
            && !Sound(s1.board.Slot(OtherSlot(s.running)))
  {
    var b := s.board.(faults := CutAfterErase());
    hide Sound, Healthy, Install, ControlIsValid, Stored, Candidate;
    CutInstallErases(b, OtherSlot(s.running), image);
    InstallTouches(b, s.running, OtherSlot(s.running), image);
    var s1 := Step(s, DoInstall(image, CutAfterErase()), d, m);
    SameLogHealthy(s.board, s1.board);
    SameLogStored(s.board, s1.board);
    StoredEffective(s.board, s1.board, d, m);
  }

  lemma InstallIsSafe(s: System, image: seq<Byte>, faults: seq<Fault>, d: u32, m: u32)
    requires Safe(s, d, m) && Active(s, d, m) == s.running
    ensures Safe(Step(s, DoInstall(image, faults), d, m), d, m)
  {
    hide Sound, Healthy, Stored, Step, ControlStep, ControlIsValid;
    StepMeans(s, DoInstall(image, faults), d, m);
    StoredEffective(s.board, Step(s, DoInstall(image, faults), d, m).board, d, m);
  }

  /** Whoever installs, the device stays safe under every error and power cut if and only if the
      running slot is the active one. */
  lemma InstallGuardIsExact(s: System, image: seq<Byte>, d: u32, m: u32)
    requires Safe(s, d, m) && IsSlot(s.running) && Installable(OtherSlot(s.running), image)
    ensures (forall faults :: Safe(Step(s, DoInstall(image, faults), d, m), d, m)) <==> Active(s, d, m) == s.running
  {
    hide Sound, Healthy, Stored, Step, Installable, Effective;
    if Active(s, d, m) == s.running {
      forall faults
        ensures Safe(Step(s, DoInstall(image, faults), d, m), d, m)
      {
        InstallIsSafe(s, image, faults, d, m);
      }
    } else {
      OtherSlotOf(s.running, Active(s, d, m));
      CutInstallStep(s, image, d, m);
      assert !Safe(Step(s, DoInstall(image, CutAfterErase()), d, m), d, m);
    }
  }

  lemma NoFaultsLeft(b: Board)
    requires b.Wired() && Healthy(b)
    ensures var b1 := b.(faults := []);
            Healthy(b1) && Stored(b1) == Stored(b) && HonestAll(b1) && AllFine(b1.faults)
  {
    hide Healthy, Stored;
    SameLogHealthy(b, b.(faults := []));
    SameLogStored(b, b.(faults := []));
  }

  lemma NoImageToBoot(b: Board, d: u32, m: u32)
    requires b.Wired() && Healthy(b) && ControlIsValid(Stored(b))
    requires Stored(b).attempts == Stored(b).maxAttempts && !Sound(b.Slot(Stored(b).active))
    ensures BootloaderRun(b.(faults := []), d, m).outcome.Recovery?
  {
    hide Sound, Healthy, Stored, HonestAll, AllFine, BootloaderRun, ControlIsValid;
    NoFaultsLeft(b);
    BootJumpsIff(b.(faults := []), d, m);
  }

  /** What that costs: the storage driver protects the running slot, not the active one. If an image
      on its last trial attempt installs a candidate over the active slot and power fails after the
      erase, a boot without any fault ends in recovery, and nothing runs. */
  lemma TrialInstallCanBrick(s: System, image: seq<Byte>, d: u32, m: u32)
    requires s.board.Wired() && Healthy(s.board) && ControlIsValid(Stored(s.board)) && IsSlot(s.running)
    requires var c := Stored(s.board); c.active == OtherSlot(s.running) && c.attempts == c.maxAttempts
    requires Installable(OtherSlot(s.running), image)
    ensures var s1 := Step(s, DoInstall(image, CutAfterErase()), d, m);
            && BootloaderRun(s1.board.(faults := []), d, m).outcome.Recovery?
            && (forall starts :: Step(s1, DoBoot([], starts), d, m).running == SLOT_NONE)
  {
    hide Sound, Healthy, Stored, Installable, BootloaderRun, ControlIsValid, WriteCandidateImage;
    CutInstallStep(s, image, d, m);
    NoImageToBoot(Step(s, DoInstall(image, CutAfterErase()), d, m).board, d, m);
  }
}
