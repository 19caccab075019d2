/** Booting: what one run of the bootloader does, the exact retry trace, and read failures. */
module BootRuns {
  import opened Words
  import opened Faults
  import opened ControlLog
  import opened LogHistory
  import opened Image
  import opened BootControls
  import opened Core
  import opened BootTheorems

  /** The control a boot works with: the stored one, or the default where none is valid. */
  function Effective(b: Board, defaultSlot: u32, maxAttempts: u32): (c: BootControl)
    requires b.Wired()
    ensures ControlIsValid(c)
  {
    if ControlIsValid(Stored(b)) then Stored(b) else DefaultBootControl(defaultSlot, maxAttempts)
  }

  /** What a boot with control c may do to flash and where it may jump: to the pending image if it
      verifies and has attempts left, with the attempt already committed; otherwise to the active
      image, with the pending mark already gone; and only ever to an image that verifies. */
  ghost predicate Booted(b: Board, c: BootControl, r: BootResult)
    requires b.Wired() && r.board.Wired() && ControlIsValid(c)
  {
    && r.board == b.(log := r.board.log, faults := r.board.faults)
    && (|| Stored(r.board) == Stored(b)
        || Stored(r.board) == c
        || (Tries(b, c) && Stored(r.board) == Tried(c))
        || (c.pending != SLOT_NONE && !Tries(b, c) && Stored(r.board) == RolledBack(c)))
    && (r.outcome.Jump? ==>
          && IsSlot(r.outcome.slot) && Sound(b.Slot(r.outcome.slot))
          && r.outcome.address == BootAddress(b, r.outcome.slot)
          && (if Tries(b, c) then r.outcome.slot == c.pending && Stored(r.board) == Tried(c)
              else r.outcome.slot == c.active &&
                   Stored(r.board) == (if c.pending == SLOT_NONE then c else RolledBack(c))))
  }

  lemma BootAddressOfSound(b: Board, slot: u32)
    requires b.Wired() && IsSlot(slot) && Sound(b.Slot(slot))
    ensures var r := GetImageBootAddress(b, slot);
            && (r.status == Ok || r.status == StorageError)
            && (r.status == Ok ==> r.address == BootAddress(b, slot))
            && (AllFine(b.faults) ==> r.status == Ok && AllFine(r.board.faults))
  {
    hide DecodeHeader, Reads;
    if AllFine(b.faults) {
      FineReads(b.faults, 1);
    }
    ReadsStayInside(SlotDesc(SlotAddress(slot), SLOT_SIZE), DecodeHeader(b.Slot(slot)));
  }

  lemma BootFromIs(b: Board, c: BootControl)
    requires b.Wired()
    ensures var s := SelectBootSlot(b, c);
            BootFrom(b, c) ==
            if s.status != Ok then BootResult(s.board, Recovery(s.status))
            else
              var a := GetImageBootAddress(s.board, s.slot);
              if a.status != Ok then BootResult(a.board, Recovery(a.status))
              else BootResult(a.board, Jump(s.slot, a.address))
  {
    hide SelectBootSlot, GetImageBootAddress;
  }

  lemma SelectedIsSound(b: Board, c: BootControl, s: Selection)
    requires b.Wired() && s.board.Wired() && ControlIsValid(c) && Selected(b, c, s) && s.status == Ok
    ensures IsSlot(s.slot) && Sound(b.Slot(s.slot)) && s.board.Slot(s.slot) == b.Slot(s.slot)
    ensures Tries(b, c) ==> s.slot == c.pending && Stored(s.board) == Tried(c)
    ensures !Tries(b, c) ==>
              s.slot == c.active && Stored(s.board) == (if c.pending == SLOT_NONE then c else RolledBack(c))
  {
    hide Sound, Stored;
  }

  lemma SameBootAddress(b: Board, b': Board, slot: u32)
    requires b.Wired() && b'.Wired() && b.Slot(slot) == b'.Slot(slot)
    ensures BootAddress(b, slot) == BootAddress(b', slot)
  {
    hide DecodeHeader;
  }

  lemma SameLogStored(b: Board, b': Board)
    requires b.Wired() && b'.Wired() && b.log == b'.log
    ensures Stored(b) == Stored(b')
  {
    hide ReadControl, Decode;
  }

  lemma BootFromMeans(b: Board, c: BootControl)
    requires Healthy(b) && b.Wired() && Stored(b) == c && ControlIsValid(c)
    requires c.pending != SLOT_NONE ==> HonestAll(b)
    ensures var r := BootFrom(b, c);
            && Healthy(r.board)
            && Booted(b, c, r)
            && (AllFine(b.faults) && (Tries(b, c) || Sound(b.Slot(c.active))) ==>
                  r.outcome.Jump? && AllFine(r.board.faults))
            && (c.pending == SLOT_NONE ==> r.board.log == b.log)
  {
    hide Sound, ControlIsValid, Healthy, HonestAll, SelectBootSlot, GetImageBootAddress, Stored, AllFine, BootFrom,
         BootAddress, Tries;
    SelectMeans(b, c);
    BootFromIs(b, c);
    var s := SelectBootSlot(b, c);
    if s.status == Ok {
      SelectedIsSound(b, c, s);
      BootAddressOfSound(s.board, s.slot);
      SameBootAddress(b, s.board, s.slot);
      var a := GetImageBootAddress(s.board, s.slot);
      SameLogHealthy(s.board, a.board);
      SameLogStored(s.board, a.board);
    }
  }

  lemma BootloaderRunIs(b: Board, d: u32, m: u32)
    requires b.Wired()
    ensures var l := Load(b);
            BootloaderRun(b, d, m) ==
            if l.status == BootControlError then
              var s := Save(l.board, DefaultBootControl(d, m));
              if s.status != Ok then BootResult(s.board, Recovery(s.status))
              else BootFrom(s.board, DefaultBootControl(d, m))
            else if l.status != Ok then BootResult(l.board, Recovery(l.status))
            else BootFrom(l.board, l.control)
  {
    hide Load, Save, BootFrom, DefaultBootControl;
  }

  lemma LoadMeans(b: Board)
    requires Healthy(b) && b.Wired()
    ensures var l := Load(b);
            && l.control == Stored(b)
            && l.board == b.(faults := l.board.faults)
            && Healthy(l.board) && Stored(l.board) == Stored(b)
            && (HonestAll(b) ==> HonestAll(l.board) && Honest(l.board.log, l.board.Next()))
            && (l.status == Ok ==> ControlIsValid(Stored(b)))
            && (l.status == BootControlError ==> !ControlIsValid(Stored(b)))
            && (l.status == Ok || l.status == BootControlError || l.status == StorageError)
            && (AllFine(b.faults) ==>
                  && AllFine(l.board.faults) && l.board.Next().Fine?
                  && l.status == (if ControlIsValid(Stored(b)) then Ok else BootControlError))
  {
    hide ControlIsValid, Stored, Healthy, HonestAll, AllFine, Honest, Reads;
    OneRead(b);
    AfterReadsKeeps(b, Load(b).board);
    if AllFine(b.faults) {
      FineReads(b.faults, 1);
    }
  }

  lemma DefaultIsPlain(d: u32, m: u32)
    ensures var c := DefaultBootControl(d, m);
            ControlIsValid(c) && c.pending == SLOT_NONE && (IsSlot(d) ==> c.active == d)
  {
  }

  /** The bootloader, for every placement of faults: at most one control block is committed, and a
      jump goes only to an image that verifies. Without a fault it does jump if the pending image
      may be tried or the active one verifies. */
  lemma BootMeans(b: Board, d: u32, m: u32)
    requires Healthy(b) && b.Wired() && HonestAll(b)
    ensures var c, r := Effective(b, d, m), BootloaderRun(b, d, m);
            && Healthy(r.board)
            && Booted(b, c, r)
            && (AllFine(b.faults) && (Tries(b, c) || Sound(b.Slot(c.active))) ==>
                  r.outcome.Jump? && AllFine(r.board.faults))
            && (ControlIsValid(Stored(b)) && c.pending == SLOT_NONE ==> r.board.log == b.log)
  {
    hide Sound, Healthy, HonestAll, Stored, AllFine, BootFrom, BootAddress, BootloaderRun, Load, Save, ControlIsValid,
         DefaultBootControl, Honest;
    BootloaderRunIs(b, d, m);
    LoadMeans(b);
    DefaultIsPlain(d, m);
    var l := Load(b);
    if l.status == BootControlError {
      var c := DefaultBootControl(d, m);
      SaveIsAtomic(l.board, c);
      var s := Save(l.board, c);
      if AllFine(b.faults) {
        SpentFine(l.board);
      }
      if s.status == Ok {
        BootFromMeans(s.board, c);
        SameBootAddress(b, s.board, c.active);
      }
    } else if l.status == Ok {
      BootFromMeans(l.board, l.control);
      SameBootAddress(b, l.board, SLOT_A);
      SameBootAddress(b, l.board, SLOT_B);
    }
  }

  lemma FineIsHonest(b: Board)
    requires b.Wired() && AllFine(b.faults)
    ensures HonestAll(b)
  {
  }

  /** Without a fault a boot hands over to an image if and only if the pending image may be tried or
      the active one verifies. */
  lemma BootJumpsIff(b: Board, d: u32, m: u32)
    requires Healthy(b) && b.Wired() && AllFine(b.faults)
    ensures BootloaderRun(b, d, m).outcome.Jump? <==>
            Tries(b, Effective(b, d, m)) || Sound(b.Slot(Effective(b, d, m).active))
  {
    FineIsHonest(b);
    hide Sound, Stored, Healthy, HonestAll, AllFine, ControlIsValid, BootloaderRun, DefaultBootControl, Tries;
    BootMeans(b, d, m);
  }

  lemma StoredEffective(b: Board, b': Board, d: u32, m: u32)
    requires b.Wired() && b'.Wired()
    ensures Stored(b') == Stored(b) ==> Effective(b', d, m) == Effective(b, d, m)
    ensures ControlIsValid(Stored(b')) ==> Effective(b', d, m) == Stored(b')
  {
    hide Stored, ControlIsValid;
  }

  // ----- coming back to the active image

  lemma NextControls(b: Board, c: BootControl)
    requires b.Wired() && ControlIsValid(c)
    ensures Tries(b, c) ==>
              && c.pending != SLOT_NONE && c.attempts < c.maxAttempts
              && ControlIsValid(Tried(c)) && Tried(c).active == c.active
              && AttemptsLeft(Tried(c)) == AttemptsLeft(c) - 1 >= 0
    ensures ControlIsValid(RolledBack(c)) && RolledBack(c).active == c.active && AttemptsLeft(RolledBack(c)) == 0
    ensures c.pending == SLOT_NONE ==> !Tries(b, c) && AttemptsLeft(c) == 0
  {
    hide Sound;
  }

  /** One boot without faults uses an attempt or gives up the pending image, and never moves the
      active slot. */
  lemma BootProgress(b: Board, d: u32, m: u32)
    requires b.Wired() && Healthy(b) && AllFine(b.faults) && Sound(b.Slot(Effective(b, d, m).active))
    ensures var c, r := Effective(b, d, m), BootloaderRun(b, d, m);
            var c' := Effective(r.board, d, m);
            && Healthy(r.board) && AllFine(r.board.faults)
            && r.board.slotA == b.slotA && r.board.slotB == b.slotB
            && c'.active == c.active && AttemptsLeft(c') >= 0
            && (c'.pending == SLOT_NONE || (c.pending != SLOT_NONE && AttemptsLeft(c') == AttemptsLeft(c) - 1))
            && (c.pending == SLOT_NONE ==> r.outcome == Jump(c.active, BootAddress(b, c.active)))
            && (ControlIsValid(Stored(b)) && c.pending == SLOT_NONE ==> r.board.log == b.log)
            && ControlIsValid(Stored(r.board))
  {
    hide Sound, Stored, Healthy, HonestAll, AllFine, BootloaderRun, BootAddress, ControlIsValid, Tries, Tried,
         RolledBack, AttemptsLeft, Effective;
    FineIsHonest(b);
    BootMeans(b, d, m);
    var r := BootloaderRun(b, d, m);
    NextControls(b, Effective(b, d, m));
    StoredEffective(b, r.board, d, m);
  }

  /** The board after k boots. */
  function Boots(b: Board, k: nat, d: u32, m: u32): (b': Board)
    requires b.Wired()
    ensures b'.Wired()
  {
    if k == 0 then b else BootloaderRun(Boots(b, k - 1, d, m), d, m).board
  }

  lemma {:induction false} AttemptsRunOut(b: Board, k: nat, d: u32, m: u32)
    requires b.Wired() && Healthy(b) && AllFine(b.faults) && Sound(b.Slot(Effective(b, d, m).active))
    ensures var c, bk := Effective(b, d, m), Boots(b, k, d, m);
            var ck := Effective(bk, d, m);
            && Healthy(bk) && AllFine(bk.faults)
            && bk.slotA == b.slotA && bk.slotB == b.slotB
            && ck.active == c.active
            && (ck.pending == SLOT_NONE || 0 <= AttemptsLeft(ck) <= AttemptsLeft(c) - k)
            && (k > 0 ==> ControlIsValid(Stored(bk)))
    decreases k
  {
    hide Sound, Stored, Healthy, HonestAll, AllFine, BootloaderRun, Effective, BootAddress;
    if k > 0 {
      AttemptsRunOut(b, k - 1, d, m);
      BootProgress(Boots(b, k - 1, d, m), d, m);
    }
  }

  /** However a device got there: if its active image verifies, then once nothing fails any more it
      takes one boot more than there are attempts left until nothing is pending; the active slot is
      the one it was, and every later boot hands over to it without writing. */
  lemma FallbackReturns(b: Board, k: nat, d: u32, m: u32)
    requires b.Wired() && Healthy(b) && AllFine(b.faults) && Sound(b.Slot(Effective(b, d, m).active))
    requires k > AttemptsLeft(Effective(b, d, m))
    ensures var c, bk := Effective(b, d, m), Boots(b, k, d, m);
            && Stored(bk).pending == SLOT_NONE && Stored(bk).active == c.active
            && BootloaderRun(bk, d, m).outcome == Jump(c.active, BootAddress(b, c.active))
            && Boots(b, k + 1, d, m).log == bk.log
  {
    hide Sound, Healthy, HonestAll, AllFine, BootloaderRun, BootAddress, DefaultBootControl, Stored;
    AttemptsRunOut(b, k, d, m);
    AttemptsRunOut(b, 0, d, m);
    var bk := Boots(b, k, d, m);
    BootProgress(bk, d, m);
    StoredEffective(b, bk, d, m);
    SameBootAddress(b, bk, Effective(b, d, m).active);
  }

  // ----- the retry trace

  lemma OneMoreBoot(b: Board, c: BootControl, d: u32, m: u32)
    requires b.Wired() && Healthy(b) && AllFine(b.faults) && Stored(b) == c && ControlIsValid(c)
    requires Sound(b.Slot(c.active))
    ensures var r := BootloaderRun(b, d, m);
            && Healthy(r.board) && AllFine(r.board.faults)
            && r.board.slotA == b.slotA && r.board.slotB == b.slotB
            && (if Tries(b, c)
                then r.outcome == Jump(c.pending, BootAddress(b, c.pending)) && Stored(r.board) == Tried(c)
                else r.outcome == Jump(c.active, BootAddress(b, c.active)) &&
                     Stored(r.board) == (if c.pending == SLOT_NONE then c else RolledBack(c)))
            && (c.pending == SLOT_NONE ==> r.board.log == b.log)
  {
    FineIsHonest(b);
    hide Sound, Stored, Healthy, HonestAll, AllFine, ControlIsValid, BootloaderRun, DefaultBootControl, Tries,
         BootAddress, RolledBack;
    BootMeans(b, d, m);
  }

  /** The state after k boots of a board whose pending image is never confirmed. */
  predicate Retried(b: Board, c: BootControl, k: nat)
    requires b.Wired()
  {
    Stored(b) == if k <= c.maxAttempts then c.(attempts := k) else RolledBack(c)
  }

  lemma RetriedFacts(b: Board, c: BootControl, k: nat)
    requires b.Wired() && ControlIsValid(c) && c.pending != SLOT_NONE && Retried(b, c, k)
    ensures ControlIsValid(Stored(b)) && Stored(b).active == c.active
    ensures k <= c.maxAttempts ==> Stored(b) == c.(attempts := k) && Stored(b).pending == c.pending
    ensures k > c.maxAttempts ==> Stored(b) == RolledBack(c) && Stored(b).pending == SLOT_NONE
    ensures IsSlot(c.pending) && IsSlot(c.active)
    ensures k <= c.maxAttempts ==> RolledBack(Stored(b)) == RolledBack(c)
    ensures k < c.maxAttempts ==> Tried(Stored(b)) == c.(attempts := k + 1)
  {
    hide Stored;
  }

  lemma {:induction false} RetryState(b: Board, c: BootControl, k: nat, d: u32, m: u32)
    requires b.Wired() && Healthy(b) && AllFine(b.faults) && Stored(b) == c && ControlIsValid(c)
    requires c.pending != SLOT_NONE && c.attempts == 0
    requires Sound(b.Slot(c.active)) && Sound(b.Slot(c.pending))
    ensures var bk := Boots(b, k, d, m);
            && Healthy(bk) && AllFine(bk.faults) && Retried(bk, c, k)
            && bk.slotA == b.slotA && bk.slotB == b.slotB
    decreases k
  {
    hide Sound, Stored, Healthy, HonestAll, AllFine, ControlIsValid, BootloaderRun, RolledBack, BootAddress;
    if k > 0 {
      RetryState(b, c, k - 1, d, m);
      var before := Boots(b, k - 1, d, m);
      RetriedFacts(before, c, k - 1);
      OneMoreBoot(before, Stored(before), d, m);
    }
  }

  /** After mark-pending of a good image, without confirm and without faults: boots number 1 to
      max hand over to the pending image with that number of attempts committed, boot max + 1 rolls
      back and hands over to the active image, and so does every later boot, without writing. */
  lemma RetryTrace(b: Board, c: BootControl, k: nat, d: u32, m: u32)
    requires b.Wired() && Healthy(b) && AllFine(b.faults) && Stored(b) == c && ControlIsValid(c)
    requires c.pending != SLOT_NONE && c.attempts == 0 && k > 0
    requires Sound(b.Slot(c.active)) && Sound(b.Slot(c.pending))
    ensures var outcome, after := BootloaderRun(Boots(b, k - 1, d, m), d, m).outcome, Boots(b, k, d, m);
            && (k <= c.maxAttempts ==>
                  IsSlot(c.pending) &&
                  outcome == Jump(c.pending, BootAddress(b, c.pending)) && Stored(after) == c.(attempts := k))
            && (k > c.maxAttempts ==>
                  outcome == Jump(c.active, BootAddress(b, c.active)) && Stored(after) == RolledBack(c))
            && (k > c.maxAttempts + 1 ==> after.log == Boots(b, k - 1, d, m).log)
  {
    hide Sound, Stored, Healthy, HonestAll, AllFine, ControlIsValid, BootloaderRun, RolledBack, BootAddress;
    RetryState(b, c, k - 1, d, m);
    var before := Boots(b, k - 1, d, m);
    RetriedFacts(before, c, k - 1);
    OneMoreBoot(before, Stored(before), d, m);
    SameBootAddress(b, before, c.active);
    SameBootAddress(b, before, c.pending);
  }

  // ----- read failures

  /** The first failing read is number k. */
  predicate FailsAt(faults: seq<Fault>, k: nat) {
    k < |faults| && Strikes(faults[k], 0) && forall i :: 0 <= i < k ==> !Strikes(faults[i], 0)
  }

  lemma {:induction false} ReadsUpTo(faults: seq<Fault>, count: nat, k: nat)
    requires FailsAt(faults, k)
    ensures k < count ==> Reads(faults, count) == (false, faults[k + 1..])
    ensures k >= count ==> Reads(faults, count) == (true, faults[count..]) && FailsAt(faults[count..], k - count)
    decreases count
  {
    if count > 0 && !Strikes(faults[0], 0) {
      ReadsUpTo(faults[1..], count - 1, k - 1);
    }
  }

  lemma VerifyReadFails(b: Board, slot: u32, k: nat)
    requires b.Wired() && IsSlot(slot) && FailsAt(b.faults, k)
    requires k == 0 || (HeaderIsValid(SLOT_SIZE, DecodeHeader(b.Slot(slot))) &&
                        k < 1 + Chunks(DecodeHeader(b.Slot(slot)).imageSize))
    ensures VerifyImage(b, slot) == Result(b.(faults := b.faults[k + 1..]), StorageError)
  {
    hide Sound, DecodeHeader, HeaderIsValid;
    ReadsUpTo(b.faults, 1, k);
    if k > 0 {
      ReadsUpTo(b.faults[1..], Chunks(DecodeHeader(b.Slot(slot)).imageSize), k - 1);
      assert b.faults[1..][k..] == b.faults[k + 1..];
    }
  }

  /** A read failure anywhere from the load of the control to the last chunk of the pending image
      ends the boot in recovery, and flash is exactly as it was: no attempt is spent, no mark is
      cleared, no control is replaced by the default. */
  lemma ReadFailureChangesNothing(b: Board, d: u32, m: u32, k: nat)
    requires b.Wired() && FailsAt(b.faults, k)
    requires k == 0 ||
             (ControlIsValid(Stored(b)) && Stored(b).pending != SLOT_NONE &&
              (k == 1 || (HeaderIsValid(SLOT_SIZE, DecodeHeader(b.Slot(Stored(b).pending))) &&
                          k < 2 + Chunks(DecodeHeader(b.Slot(Stored(b).pending)).imageSize))))
    ensures BootloaderRun(b, d, m) == BootResult(b.(faults := b.faults[k + 1..]), Recovery(StorageError))
  {
    hide Sound, DecodeHeader, HeaderIsValid, ReadControl, Decode, VerifyImage, Rollback, Update, SelectActive, Save,
         GetImageBootAddress, Chunks;
    ReadsUpTo(b.faults, 1, k);
    if k > 0 {
      var l := Load(b);
      assert l.board.faults == b.faults[1..];
      VerifyReadFails(l.board, Stored(b).pending, k - 1);
      assert b.faults[1..][k..] == b.faults[k + 1..];
    }
  }
}
