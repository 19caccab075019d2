/** What each call of the boot core answers and leaves in flash, field by field: which status for which
    reason, and every field of the control block that is then persisted, named one by one. */
module Outcomes {
  import opened Words
  import opened Faults
  import opened LogHistory
  import opened Image
  import opened BootControls
  import opened Core
  import opened Formats
  import opened BootTheorems
  import opened BootRuns

  // ----- the control blocks that get persisted

  /** Version, limit, and what is recorded of both images are as before. */
  predicate SameRecords(c: BootControl, c': BootControl) {
    && c'.magic == c.magic && c'.version == c.version && c'.maxAttempts == c.maxAttempts
    && c'.crcA == c.crcA && c'.crcB == c.crcB && c'.sizeA == c.sizeA && c'.sizeB == c.sizeB
  }

  /** A new device's control: the slot active and alone confirmed, nothing pending, nothing recorded. */
  predicate FreshControl(slot: u32, limit: u32, c: BootControl) {
    && c.magic == 0x4941_5042 && c.version == 1
    && c.active == (if slot == 0 || slot == 1 then slot else 0) && c.pending == 0xFF
    && c.attempts == 0 && c.maxAttempts == (if limit == 0 then 3 else limit)
    && c.crcA == 0 && c.crcB == 0 && c.sizeA == 0 && c.sizeB == 0
    && c.confirmedA == (if c.active == 0 then 1 else 0) && c.confirmedB == (if c.active == 1 then 1 else 0)
  }

  /** One attempt more and nothing else. */
  predicate OneMoreAttempt(c: BootControl, c': BootControl) {
    && SameRecords(c, c') && c'.active == c.active && c'.pending == c.pending
    && c'.attempts == c.attempts + 1
    && c'.confirmedA == c.confirmedA && c'.confirmedB == c.confirmedB
  }

  /** The pending mark given up: the slot that is not active is not confirmed either. */
  predicate GivenUp(c: BootControl, c': BootControl) {
    && SameRecords(c, c') && c'.active == c.active && c'.pending == 0xFF && c'.attempts == 0
    && c'.confirmedA == (if c.active == 0 then c.confirmedA else 0)
    && c'.confirmedB == (if c.active == 0 then 0 else c.confirmedB)
  }

  /** The slot active and alone confirmed. */
  predicate TakenOver(c: BootControl, slot: u32, c': BootControl) {
    && SameRecords(c, c') && c'.active == slot && c'.pending == 0xFF && c'.attempts == 0
    && c'.confirmedA == (if slot == 0 then 1 else 0) && c'.confirmedB == (if slot == 0 then 0 else 1)
  }

  /** The slot pending and not confirmed, with size and CRC from the header in it. */
  predicate PutOnTrial(c: BootControl, slot: u32, image: seq<Byte>, c': BootControl)
    requires |image| >= 24
  {
    && c'.magic == c.magic && c'.version == c.version && c'.maxAttempts == c.maxAttempts
    && c'.active == c.active && c'.pending == slot && c'.attempts == 0
    && (if slot == 0
        then c'.crcA == Number32(image, 12) && c'.sizeA == Number32(image, 8) && c'.confirmedA == 0 &&
             c'.crcB == c.crcB && c'.sizeB == c.sizeB && c'.confirmedB == c.confirmedB
        else c'.crcB == Number32(image, 12) && c'.sizeB == Number32(image, 8) && c'.confirmedB == 0 &&
             c'.crcA == c.crcA && c'.sizeA == c.sizeA && c'.confirmedA == c.confirmedA)
  }

  lemma DefaultIsFresh(slot: u32, limit: u32)
    ensures FreshControl(slot, limit, DefaultBootControl(slot, limit))
  {
  }

  lemma RolledBackIsGivenUp(c: BootControl)
    requires ControlIsValid(c)
    ensures GivenUp(c, RolledBack(c))
  {
  }

  lemma ConfirmedIsTakenOver(c: BootControl, slot: u32)
    requires IsSlot(slot)
    ensures TakenOver(c, slot, Confirmed(c, slot))
  {
  }

  lemma MarkedIsOnTrial(c: BootControl, slot: u32, image: seq<Byte>)
    requires |image| >= 24
    ensures PutOnTrial(c, slot, image, Marked(c, slot, DecodeHeader(image)))
  {
    hide DecodeHeader, UInt, Number32;
    HeaderFields(image);
  }

  // ----- verification and the boot address

  /** None of the first count storage calls fails as a read. */
  predicate ReadsGoWell(faults: seq<Fault>, count: nat) {
    forall i :: 0 <= i < count && i < |faults| ==> !Strikes(faults[i], 0)
  }

  lemma {:induction false} ReadsIff(faults: seq<Fault>, count: nat)
    ensures Reads(faults, count).0 <==> ReadsGoWell(faults, count)
    ensures ReadsGoWell(faults, count) ==>
              Reads(faults, count).1 == if count <= |faults| then faults[count..] else []
    decreases count
  {
    if count > 0 && faults != [] && !Strikes(faults[0], 0) {
      ReadsIff(faults[1..], count - 1);
      assert forall i :: 0 <= i < count && i < |faults| && i > 0 ==> faults[i] == faults[1..][i - 1];
    }
  }

  lemma ReadsInTwo(faults: seq<Fault>, count: nat)
    ensures ReadsGoWell(faults, 1 + count) <==>
              ReadsGoWell(faults, 1) && ReadsGoWell(Reads(faults, 1).1, count)
  {
    ReadsIff(faults, 1);
    var rest := Reads(faults, 1).1;
    if ReadsGoWell(faults, 1) {
      assert forall i :: 0 <= i < |rest| ==> rest[i] == faults[i + 1];
      if ReadsGoWell(rest, count) {
        forall i | 0 <= i < 1 + count && i < |faults|
          ensures !Strikes(faults[i], 0)
        {
          assert i > 0 ==> rest[i - 1] == faults[i];
        }
      }
      if ReadsGoWell(faults, 1 + count) {
        forall i | 0 <= i < count && i < |rest|
          ensures !Strikes(rest[i], 0)
        {
          assert rest[i] == faults[i + 1];
        }
      }
    }
  }

  /** The answer of verification in every case: the argument, then the header read, the header, the
      reads of the payload in pieces of 64 bytes, and last the CRC. */
  lemma VerifyAnswers(b: Board, slot: u32)
    requires b.Wired()
    ensures var r := VerifyImage(b, slot);
            && (slot != 0 && slot != 1 ==> r == Result(b, InvalidArg))
            && (slot == 0 || slot == 1 ==>
                  var flash := b.Slot(slot);
                  var count := if GoodHeader(flash, 0x4_0000) then 1 + (Number32(flash, 8) + 63) / 64 else 1;
                  r.status == if !ReadsGoWell(b.faults, count) then StorageError
                              else if Sound(flash) then Ok else VerifyError)
  {
    hide DecodeHeader, HeaderIsValid, Sound, Number32, Reads, ReadsGoWell, GoodHeader;
    if IsSlot(slot) {
      var flash := b.Slot(slot);
      var h := DecodeHeader(flash);
      HeaderFields(flash);
      HeaderIsValidIff(flash, SLOT_SIZE);
      ReadsIff(b.faults, 1);
      if HeaderIsValid(SLOT_SIZE, h) {
        ReadsIff(Reads(b.faults, 1).1, Chunks(h.imageSize));
        ReadsInTwo(b.faults, Chunks(h.imageSize));
      } else {
        UnsoundHeader(flash);
      }
    }
  }

  /** The answer to a question for the boot address. */
  lemma BootAddressAnswers(b: Board, slot: u32)
    requires b.Wired()
    ensures var r := GetImageBootAddress(b, slot);
            && (slot != 0 && slot != 1 ==> r.board == b && r.status == InvalidArg)
            && (slot == 0 || slot == 1 ==>
                  var flash := b.Slot(slot);
                  && r.status == (if !ReadsGoWell(b.faults, 1) then StorageError
                                  else if !GoodHeader(flash, 0x4_0000) then VerifyError else Ok)
                  && (r.status == Ok ==>
                        r.address == (if slot == 0 then 0x0802_0000 else 0x0806_0000) + Number32(flash, 4)))
  {
    hide DecodeHeader, Number32, Reads, ReadsGoWell;
    if IsSlot(slot) {
      var flash := b.Slot(slot);
      HeaderFields(flash);
      HeaderIsValidIff(flash, SLOT_SIZE);
      ReadsIff(b.faults, 1);
    }
  }

  // ----- refusals

  /** Calls with a control block that does not pass the checks, or with a slot they do not take, are
      refused before storage is touched. */
  lemma Refusals(b: Board, c: BootControl, slot: u32)
    requires b.Wired()
    ensures !ControlIsValid(c) ==> Save(b, c) == Result(b, InvalidArg)
    ensures !ControlIsValid(c) ==> Rollback(b, c) == ControlResult(b, InvalidArg, c)
    ensures !ControlIsValid(c) || (slot != 0 && slot != 1) || slot == c.active ==>
              MarkPending(b, c, slot) == ControlResult(b, InvalidArg, c)
    ensures !ControlIsValid(c) || (slot != 0 && slot != 1) || (slot != c.active && slot != c.pending) ==>
              ConfirmCurrentImage(b, c, slot) == ControlResult(b, InvalidArg, c)
    ensures !ControlIsValid(c) ==> SelectBootSlot(b, c) == Selection(b, InvalidArg, c, 0xFF)
  {
    hide ControlIsValid, VerifyImage, Update, SelectActive;
  }

  /** And a call whose image does not verify answers with what verification said, and changes nothing
      but what that read. */
  lemma VerifyRefusals(b: Board, c: BootControl, slot: u32)
    requires b.Wired() && ControlIsValid(c) && (slot == 0 || slot == 1) && VerifyImage(b, slot).status != Ok
    ensures var v := VerifyImage(b, slot);
            && (slot != c.active ==> MarkPending(b, c, slot) == ControlResult(v.board, v.status, c))
            && (slot == c.active || slot == c.pending ==>
                  ConfirmCurrentImage(b, c, slot) == ControlResult(v.board, v.status, c))
  {
    hide ControlIsValid, VerifyImage, Update;
  }

  // ----- what is persisted

  /** A rollback that returns OK persists the given-up control; one that fails, that or the old one. */
  lemma RollbackPersists(b: Board, c: BootControl)
    requires Healthy(b) && b.Wired() && Stored(b) == c && ControlIsValid(c) && Honest(b.log, b.Next())
    ensures var r := Rollback(b, c);
            && (r.status == Ok ==> GivenUp(c, Stored(r.board)) && r.control == Stored(r.board))
            && (r.status != Ok ==>
                  r.status == StorageError && r.control == c &&
                  (Stored(r.board) == c || GivenUp(c, Stored(r.board))))
  {
    RolledBackIsGivenUp(c);
    hide Healthy, Stored, ControlIsValid, Rollback, GivenUp, Honest, RolledBack;
    RollbackReplaces(b, c);
  }

  /** A confirm that returns OK persists the slot as active and alone confirmed, with the limit and both
      images' records kept; one that fails, that or the old control. */
  lemma ConfirmPersists(b: Board, c: BootControl, slot: u32)
    requires Healthy(b) && b.Wired() && Stored(b) == c && HonestAll(b)
    ensures var r := ConfirmCurrentImage(b, c, slot);
            && (r.status == Ok ==> TakenOver(c, slot, Stored(r.board)) && r.control == Stored(r.board))
            && (r.status != Ok ==> r.control == c && (Stored(r.board) == c || TakenOver(c, slot, Stored(r.board))))
  {
    if MayConfirm(c, slot) {
      ConfirmedIsTakenOver(c, slot);
    }
    hide Healthy, Stored, ControlIsValid, ConfirmCurrentImage, TakenOver, HonestAll, Core.Confirmed, Sound, AllFine;
    ConfirmReplaces(b, c, slot);
  }

  /** A mark that returns OK persists the slot as pending with a full set of attempts and with the size
      and CRC from its header; one that fails, that or the old control. */
  lemma MarkPersists(b: Board, c: BootControl, slot: u32)
    requires Healthy(b) && b.Wired() && Stored(b) == c && HonestAll(b)
    ensures var r, image := MarkPending(b, c, slot), b.Slot(slot);
            && (r.status == Ok ==> PutOnTrial(c, slot, image, Stored(r.board)) && r.control == Stored(r.board))
            && (r.status != Ok ==>
                  r.control == c && (Stored(r.board) == c || PutOnTrial(c, slot, image, Stored(r.board))))
  {
    MarkedIsOnTrial(c, slot, b.Slot(slot));
    hide Healthy, Stored, ControlIsValid, MarkPending, PutOnTrial, HonestAll, Marked, Sound, AllFine, DecodeHeader;
    MarkReplaces(b, c, slot);
  }

  // ----- selecting and booting

  lemma SelectActiveAnswers(b: Board, c: BootControl)
    requires b.Wired() && Healthy(b) && ControlIsValid(c)
    ensures var r := SelectActive(b, c);
            && (r.status == Ok || r.status == StorageError || r.status == NoValidImage)
            && (r.status == NoValidImage ==> !Sound(b.Slot(c.active)))
            && (r.status != Ok ==> r.slot == 0xFF)
            && (AllFine(b.faults) ==> r.status != StorageError)
  {
    hide Sound, Healthy, HonestAll, VerifyImage, Stored, AllFine, Honest;
    VerifyKeeps(b, c.active);
  }

  lemma SelectRolledBack(u: ControlResult, c: BootControl)
    requires u.board.Wired() && Healthy(u.board) && ControlIsValid(c)
    ensures RolledBack(c).active == c.active && ControlIsValid(RolledBack(c))
    ensures u.status == Ok && u.control == RolledBack(c) ==>
              var r := SelectActive(u.board, u.control);
              && (r.status == Ok || r.status == StorageError || r.status == NoValidImage)
              && (r.status == NoValidImage ==> !Sound(u.board.Slot(c.active)))
              && (r.status != Ok ==> r.slot == 0xFF)
              && (AllFine(u.board.faults) ==> r.status != StorageError)
  {
    assert RolledBack(c).active == c.active && ControlIsValid(RolledBack(c));
    hide RolledBack, Sound, Healthy, ControlIsValid, SelectActive, AllFine;
    if u.status == Ok && u.control == RolledBack(c) {
      SelectActiveAnswers(u.board, u.control);
    }
  }

  lemma SelectedAnswers(b: Board, c: BootControl)
    requires Healthy(b) && b.Wired() && Stored(b) == c && ControlIsValid(c)
    requires c.pending != SLOT_NONE ==> HonestAll(b)
    ensures var r := SelectBootSlot(b, c);
            && (r.status == Ok || r.status == StorageError || r.status == NoValidImage)
            && (r.status == NoValidImage ==> !Sound(b.Slot(c.active)) && !Tries(b, c))
            && (r.status != Ok ==> r.slot == 0xFF)
            && (AllFine(b.faults) ==> r.status != StorageError)
  {
    hide Sound, Healthy, HonestAll, VerifyImage, Update, Stored, AllFine, Honest, Rollback, SelectActive, RolledBack;
    if c.pending == SLOT_NONE {
      SelectActiveAnswers(b, c);
    } else {
      VerifyKeeps(b, c.pending);
      var v := VerifyImage(b, c.pending);
      if v.status == Ok && c.attempts < c.maxAttempts {
        SelectTryIs(b, c);
        UpdateReplaces(v.board, c, Tried(c));
      } else if v.status == Ok || v.status == VerifyError {
        SelectRollbackIs(b, c);
        RollbackReplaces(v.board, c);
        if AllFine(b.faults) {
          SpentFine(v.board);
        }
        SelectRolledBack(Rollback(v.board, c), c);
      }
    }
  }

  /** The pending image may be tried. */
  predicate MayTry(b: Board, c: BootControl)
    requires b.Wired()
  {
    c.pending != 0xFF && Sound(b.Slot(c.pending)) && c.attempts < c.maxAttempts
  }

  /** Flash holds a control that differs from c by one more attempt, or by the pending mark given up. */
  predicate AfterSelecting(b: Board, c: BootControl, c': BootControl)
    requires b.Wired()
  {
    if MayTry(b, c) then OneMoreAttempt(c, c') else if c.pending == 0xFF then c' == c else GivenUp(c, c')
  }

  lemma SelectedPersists(b: Board, c: BootControl, c': BootControl)
    requires b.Wired() && ControlIsValid(c)
    ensures MayTry(b, c) <==> Tries(b, c)
    ensures MayTry(b, c) && c' == Tried(c) ==> AfterSelecting(b, c, c')
    ensures !MayTry(b, c) && c' == (if c.pending == SLOT_NONE then c else RolledBack(c)) ==> AfterSelecting(b, c, c')
  {
    hide Sound;
    RolledBackIsGivenUp(c);
  }

  /** Selecting, in every case: which slot, which status, what flash holds afterwards. */
  lemma SelectAnswers(b: Board, c: BootControl)
    requires Healthy(b) && b.Wired() && Stored(b) == c && ControlIsValid(c) && HonestAll(b)
    ensures var r := SelectBootSlot(b, c);
            && (r.status == Ok || r.status == StorageError || r.status == NoValidImage)
            && (r.status == Ok ==>
                  && r.slot == (if MayTry(b, c) then c.pending else c.active)
                  && Sound(b.Slot(r.slot)) && AfterSelecting(b, c, Stored(r.board)))
            && (r.status != Ok ==>
                  r.slot == 0xFF && (Stored(r.board) == c || AfterSelecting(b, c, Stored(r.board))))
            && (r.status == NoValidImage ==> !MayTry(b, c) && !Sound(b.Slot(c.active)))
            && (AllFine(b.faults) ==> r.status != StorageError)
  {
    hide Sound, Healthy, Stored, AllFine, HonestAll, SelectBootSlot, ControlIsValid, Tried, RolledBack, Tries,
         AfterSelecting, MayTry;
    SelectMeans(b, c);
    SelectedAnswers(b, c);
    var r := SelectBootSlot(b, c);
    SelectedPersists(b, c, Stored(r.board));
    if r.status == Ok {
      SelectedIsSound(b, c, r);
    }
  }

  lemma SameTries(b: Board, b': Board, c: BootControl)
    requires b.Wired() && b'.Wired() && b'.slotA == b.slotA && b'.slotB == b.slotB && ControlIsValid(c)
    ensures Tries(b, c) == Tries(b', c) && b'.Slot(c.active) == b.Slot(c.active)
  {
    hide Sound;
  }

  lemma BootFromAnswers(b: Board, c: BootControl)
    requires Healthy(b) && b.Wired() && Stored(b) == c && ControlIsValid(c)
    requires c.pending != SLOT_NONE ==> HonestAll(b)
    ensures var o := BootFrom(b, c).outcome;
            && (o.Recovery? ==> o.reason == StorageError || o.reason == NoValidImage)
            && (o == Recovery(NoValidImage) ==> !Sound(b.Slot(c.active)) && !Tries(b, c))
            && (AllFine(b.faults) ==> o != Recovery(StorageError))
  {
    hide Sound, ControlIsValid, Healthy, HonestAll, SelectBootSlot, GetImageBootAddress, Stored, AllFine, BootFrom,
         Tries;
    SelectMeans(b, c);
    SelectedAnswers(b, c);
    BootFromIs(b, c);
    var s := SelectBootSlot(b, c);
    if s.status == Ok {
      SelectedIsSound(b, c, s);
      BootAddressOfSound(s.board, s.slot);
    }
  }

  lemma BootedAnswers(b: Board, d: u32, m: u32)
    requires Healthy(b) && b.Wired() && HonestAll(b)
    ensures var c, o := Effective(b, d, m), BootloaderRun(b, d, m).outcome;
            && (o.Recovery? ==> o.reason == StorageError || o.reason == NoValidImage)
            && (o == Recovery(NoValidImage) ==> !Sound(b.Slot(c.active)) && !Tries(b, c))
            && (AllFine(b.faults) ==> o != Recovery(StorageError))
  {
    hide Sound, Healthy, HonestAll, Stored, AllFine, BootFrom, BootloaderRun, Load, Save, ControlIsValid,
         DefaultBootControl, Honest, Tries;
    BootloaderRunIs(b, d, m);
    LoadMeans(b);
    DefaultIsPlain(d, m);
    var l := Load(b);
    if l.status == BootControlError {
      var c := DefaultBootControl(d, m);
      SaveIsAtomic(l.board, c);
      var s := Save(l.board, c);
      if AllFine(b.faults) {
        SpentFine(l.board);
      }
      if s.status == Ok {
        BootFromAnswers(s.board, c);
        SameTries(b, s.board, c);
      }
    } else if l.status == Ok {
      BootFromAnswers(l.board, l.control);
      SameTries(b, l.board, l.control);
    }
  }

  /** What a boot starts from: the control in flash, or a new device's if that is not valid. */
  predicate BootsWith(b: Board, d: u32, m: u32, c: BootControl)
    requires b.Wired()
  {
    if ControlIsValid(Stored(b)) then c == Stored(b) else FreshControl(d, m, c)
  }

  lemma EffectiveIs(b: Board, d: u32, m: u32)
    requires b.Wired()
    ensures BootsWith(b, d, m, Effective(b, d, m))
  {
    hide Stored, ControlIsValid, FreshControl, DefaultBootControl;
    DefaultIsFresh(d, m);
  }

  /** A boot, in every case: where it goes, what stops it, and what flash holds afterwards. */
  lemma BootAnswers(b: Board, d: u32, m: u32) returns (c: BootControl)
    requires Healthy(b) && b.Wired() && HonestAll(b)
    ensures BootsWith(b, d, m, c)
    ensures var r := BootloaderRun(b, d, m);
            && (r.outcome.Jump? ==>
                  && r.outcome.slot == (if MayTry(b, c) then c.pending else c.active)
                  && Sound(b.Slot(r.outcome.slot)) && AfterSelecting(b, c, Stored(r.board)))
            && (r.outcome.Recovery? ==>
                  && (r.outcome.reason == StorageError || r.outcome.reason == NoValidImage)
                  && (Stored(r.board) == Stored(b) || Stored(r.board) == c || AfterSelecting(b, c, Stored(r.board))))
            && (r.outcome == Recovery(NoValidImage) ==> !MayTry(b, c) && !Sound(b.Slot(c.active)))
            && (AllFine(b.faults) ==> r.outcome != Recovery(StorageError))
            && r.board.slotA == b.slotA && r.board.slotB == b.slotB
  {
    c := Effective(b, d, m);
    hide Sound, Healthy, Stored, AllFine, HonestAll, BootloaderRun, ControlIsValid, Tried, RolledBack, Tries,
         AfterSelecting, MayTry, Effective, BootsWith, BootAddress;
    EffectiveIs(b, d, m);
    BootMeans(b, d, m);
    BootedAnswers(b, d, m);
    SelectedPersists(b, c, Stored(BootloaderRun(b, d, m).board));
  }
}
