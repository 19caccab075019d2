/** What one operation of the boot core does, for every placement of faults. */
module BootTheorems {
  import opened Words
  import opened Faults
  import opened ControlLog
  import opened LogHistory
  import opened Image
  import opened BootControls
  import opened Core

  // ----- reads

  predicate AllFine(faults: seq<Fault>) { forall i :: 0 <= i < |faults| ==> faults[i].Fine? }

  lemma {:induction false} FineReads(faults: seq<Fault>, count: nat)
    requires AllFine(faults)
    ensures Reads(faults, count).0 && AllFine(Reads(faults, count).1)
    decreases count
  {
    if count > 0 && faults != [] {
      FineReads(faults[1..], count - 1);
    }
  }

  /** Every fault a run of reads leaves is one of those it started with. */
  lemma {:induction false} ReadsLeave(faults: seq<Fault>, count: nat)
    ensures var rest := Reads(faults, count).1;
            |rest| <= |faults| && rest == faults[|faults| - |rest|..]
    decreases count
  {
    if count > 0 && faults != [] && !Strikes(faults[0], 0) {
      ReadsLeave(faults[1..], count - 1);
    }
  }

  lemma UnsoundHeader(slot: SlotBytes)
    requires !HeaderIsValid(|slot|, DecodeHeader(slot))
    ensures !Sound(slot)
  {
  }

  /** Verification says Ok only of an image that verifies and VerifyError only of one that does
      not, whatever fails; without faults it says one of the two. */
  lemma VerifyMeans(b: Board, slot: u32)
    requires b.Wired() && IsSlot(slot)
    ensures VerifyImage(b, slot).status == Ok ==> Sound(b.Slot(slot))
    ensures VerifyImage(b, slot).status == VerifyError ==> !Sound(b.Slot(slot))
    ensures VerifyImage(b, slot).status in {Ok, VerifyError, StorageError}
  {
    hide Sound, Reads, DecodeHeader, HeaderIsValid;
    if !HeaderIsValid(SLOT_SIZE, DecodeHeader(b.Slot(slot))) {
      UnsoundHeader(b.Slot(slot));
    }
  }

  lemma FineVerify(b: Board, slot: u32)
    requires b.Wired() && IsSlot(slot) && AllFine(b.faults)
    ensures VerifyImage(b, slot).status == (if Sound(b.Slot(slot)) then Ok else VerifyError)
    ensures AllFine(VerifyImage(b, slot).board.faults)
  {
    FineReads(b.faults, 1);
    FineReads(Reads(b.faults, 1).1, Chunks(DecodeHeader(b.Slot(slot)).imageSize));
  }

  // ----- boards whose log is in order

  predicate GoodHistory(history: seq<seq<Word>>) {
    forall i :: 0 <= i < |history| ==> |history[i]| == CONTROL_WORDS && ControlIsValid(Decode(history[i]))
  }

  predicate Kept(b: Board, led: Ledger) {
    b.Wired() && Inv(b.log, led) && GoodHistory(led.history)
  }

  /** The log satisfies its invariant and every control block ever committed to it was valid. */
  ghost predicate Healthy(b: Board) { exists led :: Kept(b, led) }

  /** No interrupted erase in reach of this board's faults forges a record. */
  predicate HonestAll(b: Board)
    requires b.Wired()
  {
    forall i :: 0 <= i < |b.faults| ==> Honest(b.log, b.faults[i])
  }

  const BLANK: BootControl := Decode(seq(CONTROL_WORDS, _ => ALL_ONES))

  lemma StoredIs(b: Board, led: Ledger)
    requires Kept(b, led)
    ensures Stored(b) == Decode(Cell(led.history))
    ensures led.history == [] ==> Stored(b) == BLANK
    ensures led.history != [] ==> ControlIsValid(Stored(b))
  {
    hide Inv, ReadControl, Decode, ControlIsValid;
    FindLatestIsNewest(b.log, led);
  }

  /** What a read finds is a valid control block, or erased flash that is not one. */
  lemma HealthyStored(b: Board)
    requires Healthy(b)
    ensures b.Wired() && (ControlIsValid(Stored(b)) <==> Stored(b) != BLANK)
  {
    var led :| Kept(b, led);
    StoredIs(b, led);
    BlankControlInvalid();
  }

  /** Every valid record in flash holds a control block that passes every check. */
  predicate ValidRecordsHoldValidControls(b: Board)
    requires b.Wired()
  {
    forall bank: Bank, i :: 0 <= i < |b.log.a| && IsValid(b.log.Sector(bank)[i]) ==>
      ControlIsValid(Decode(ControlOf(b.log.Sector(bank)[i])))
  }

  lemma HealthyRecords(b: Board)
    requires Healthy(b)
    ensures b.Wired() && ValidRecordsHoldValidControls(b)
  {
    hide IsValid, ControlOf, Decode, ControlIsValid, FirstErased, IsErased;
    var led :| Kept(b, led);
    forall bank: Bank, i | 0 <= i < |b.log.a| && IsValid(b.log.Sector(bank)[i])
      ensures ControlIsValid(Decode(ControlOf(b.log.Sector(bank)[i])))
    {
      assert bank == led.current || bank == led.current.Other();
      assert ControlOf(b.log.Sector(bank)[i]) == led.history[led.Tags(bank)[i]];
    }
  }

  lemma SaveKeeps(b: Board, led: Ledger, c: BootControl) returns (led': Ledger)
    requires Kept(b, led) && ControlIsValid(c) && Honest(b.log, b.Next())
    ensures var r := Save(b, c);
            && Kept(r.board, led')
            && r.board == b.Spend().(log := r.board.log)
            && (led'.history == led.history + [Encode(c)] || (r.status != Ok && led'.history == led.history))
            && (r.status == Ok || r.status == StorageError)
            && (b.Next().Fine? ==> r.status == Ok)
  {
    hide Inv, Append, Encode, Decode, ControlIsValid, Honest;
    led' := AppendKeeps(b.log, led, Encode(c), b.Next());
    DecodeEncode(c);
  }

  lemma LastCell(history: seq<seq<Word>>, words: seq<Word>)
    ensures Cell(history + [words]) == words
  {
  }

  /** Saving replaces what a load finds, or, if it fails, may leave it as it was. */
  lemma SaveIsAtomic(b: Board, c: BootControl)
    requires Healthy(b) && b.Wired() && ControlIsValid(c) && Honest(b.log, b.Next())
    ensures var r := Save(b, c);
            && Healthy(r.board)
            && r.board == b.Spend().(log := r.board.log)
            && (Stored(r.board) == c || (r.status != Ok && Stored(r.board) == Stored(b)))
            && (r.status == Ok || r.status == StorageError)
            && (b.Next().Fine? ==> r.status == Ok)
  {
    var led :| Kept(b, led);
    var led' := SaveKeeps(b, led, c);
    assert Healthy(Save(b, c).board);
    hide *;
    StoredIs(b, led);
    StoredIs(Save(b, c).board, led');
    LastCell(led.history, Encode(c));
    DecodeEncode(c);
  }

  // ----- the operations that change the control block

  ghost predicate Suffix(rest: seq<Fault>, all: seq<Fault>) {
    |rest| <= |all| && rest == all[|all| - |rest|..]
  }

  lemma SuffixOfSuffix(rest': seq<Fault>, rest: seq<Fault>, all: seq<Fault>)
    requires Suffix(rest', rest) && Suffix(rest, all)
    ensures Suffix(rest', all)
  {
  }

  /** b' is b after some reads: faults may be used up, nothing else changes. */
  ghost predicate AfterReads(b: Board, b': Board) {
    b' == b.(faults := b'.faults) && Suffix(b'.faults, b.faults)
  }

  lemma SameLogHealthy(b: Board, b': Board)
    requires Healthy(b) && b'.Wired() && b'.log == b.log
    ensures Healthy(b')
  {
    var led :| Kept(b, led);
    assert Kept(b', led);
  }

  lemma FineHonest(log: Log)
    requires Paired(log)
    ensures Honest(log, Fine)
  {
  }

  lemma SuffixHonest(b: Board, b': Board)
    requires AfterReads(b, b') && b.Wired() && HonestAll(b)
    ensures b'.Wired() && HonestAll(b') && Honest(b'.log, b'.Next())
  {
    hide Honest;
    assert forall i :: 0 <= i < |b'.faults| ==> b'.faults[i] == b.faults[|b.faults| - |b'.faults| + i];
    FineHonest(b.log);
  }

  lemma SuffixFine(b: Board, b': Board)
    requires AfterReads(b, b') && AllFine(b.faults)
    ensures AllFine(b'.faults) && b'.Next().Fine?
  {
    assert forall i :: 0 <= i < |b'.faults| ==> b'.faults[i] == b.faults[|b.faults| - |b'.faults| + i];
  }

  lemma AfterReadsKeeps(b: Board, b': Board)
    requires AfterReads(b, b') && Healthy(b) && b.Wired()
    ensures b'.Wired() && Healthy(b') && Stored(b') == Stored(b)
    ensures HonestAll(b) ==> HonestAll(b') && Honest(b'.log, b'.Next())
    ensures AllFine(b.faults) ==> AllFine(b'.faults) && b'.Next().Fine?
  {
    assert b'.Wired() && Stored(b') == Stored(b);
    hide Healthy, Stored, HonestAll, Honest, AllFine;
    SameLogHealthy(b, b');
    if HonestAll(b) {
      SuffixHonest(b, b');
    }
    if AllFine(b.faults) {
      SuffixFine(b, b');
    }
  }

  lemma VerifyReads(b: Board, slot: u32)
    requires b.Wired()
    ensures AfterReads(b, VerifyImage(b, slot).board)
  {
    hide Sound, DecodeHeader, HeaderIsValid, Reads;
    ReadsLeave(b.faults, 1);
    var rest := Reads(b.faults, 1).1;
    var count := Chunks(DecodeHeader(b.Slot(slot)).imageSize);
    ReadsLeave(rest, count);
    SuffixOfSuffix(Reads(rest, count).1, rest, b.faults);
  }

  lemma OneRead(b: Board)
    requires b.Wired()
    ensures Suffix(Reads(b.faults, 1).1, b.faults)
    ensures AfterReads(b, b.(faults := Reads(b.faults, 1).1))
  {
    ReadsLeave(b.faults, 1);
  }

  /** Verification keeps everything the next step of an operation relies on. */
  lemma VerifyKeeps(b: Board, slot: u32)
    requires Healthy(b) && b.Wired() && IsSlot(slot)
    ensures var v := VerifyImage(b, slot);
            && v.board == b.(faults := v.board.faults)
            && Healthy(v.board) && Stored(v.board) == Stored(b)
            && (HonestAll(b) ==> HonestAll(v.board) && Honest(v.board.log, v.board.Next()))
            && (v.status == Ok ==> Sound(b.Slot(slot)))
            && (v.status == VerifyError ==> !Sound(b.Slot(slot)))
            && v.status in {Ok, VerifyError, StorageError}
            && (AllFine(b.faults) ==>
                  && AllFine(v.board.faults) && v.board.Next().Fine?
                  && v.status == (if Sound(b.Slot(slot)) then Ok else VerifyError))
  {
    hide *;
    VerifyMeans(b, slot);
    VerifyReads(b, slot);
    AfterReadsKeeps(b, VerifyImage(b, slot).board);
    if AllFine(b.faults) {
      FineVerify(b, slot);
    }
  }

  /** The outcome of an operation that meant to replace control c by `updated`: on Ok the caller has
      the control that a load finds; on an error the caller's control is unchanged, and flash holds
      the old control or the new one. */
  ghost predicate Replaces(b: Board, c: BootControl, updated: BootControl, r: ControlResult)
    requires b.Wired() && r.board.Wired()
  {
    && r.board == b.(log := r.board.log, faults := r.board.faults)
    && (if r.status == Ok then r.control == updated && Stored(r.board) == updated
        else r.control == c && (Stored(r.board) == c || Stored(r.board) == updated))
  }

  lemma UpdateReplaces(b: Board, c: BootControl, updated: BootControl)
    requires Healthy(b) && b.Wired() && Stored(b) == c && ControlIsValid(updated) && Honest(b.log, b.Next())
    ensures var r := Update(b, c, updated);
            && Healthy(r.board)
            && Replaces(b, c, updated, r)
            && (b.Next().Fine? ==> r.status == Ok)
            && (r.status == Ok || r.status == StorageError)
            && r.board.faults == b.Spend().faults
  {
    hide Healthy, Stored, ControlIsValid, Honest, Save;
    SaveIsAtomic(b, updated);
  }

  lemma UpdatesAreValid(c: BootControl, slot: u32, h: Header)
    requires ControlIsValid(c)
    ensures ControlIsValid(RolledBack(c))
    ensures IsSlot(slot) && slot != c.active ==> ControlIsValid(Marked(c, slot, h))
    ensures IsSlot(slot) ==> ControlIsValid(Confirmed(c, slot))
    ensures c.pending != SLOT_NONE && c.attempts < c.maxAttempts ==> ControlIsValid(c.(attempts := c.attempts + 1))
  {
  }

  lemma RollbackReplaces(b: Board, c: BootControl)
    requires Healthy(b) && b.Wired() && Stored(b) == c && ControlIsValid(c) && Honest(b.log, b.Next())
    ensures var r := Rollback(b, c);
            && Healthy(r.board)
            && Replaces(b, c, RolledBack(c), r)
            && (b.Next().Fine? ==> r.status == Ok)
            && (r.status == Ok || r.status == StorageError)
            && r.board.faults == b.Spend().faults
  {
    UpdatesAreValid(c, SLOT_A, DecodeHeader(b.slotA));
    hide Healthy, Stored, ControlIsValid, Honest, Update, DecodeHeader;
    UpdateReplaces(b, c, RolledBack(c));
  }

  predicate MayConfirm(c: BootControl, slot: u32) {
    ControlIsValid(c) && IsSlot(slot) && (slot == c.active || slot == c.pending)
  }

  lemma ConfirmAllowed(b: Board, c: BootControl, slot: u32)
    requires Healthy(b) && b.Wired() && Stored(b) == c && HonestAll(b)
    requires MayConfirm(c, slot) && ControlIsValid(Confirmed(c, slot))
    ensures var r := ConfirmCurrentImage(b, c, slot);
            && Healthy(r.board)
            && Replaces(b, c, Confirmed(c, slot), r)
            && (Stored(r.board) != c ==> Sound(b.Slot(slot)))
            && (r.status == Ok ==> Sound(b.Slot(slot)))
            && (AllFine(b.faults) && Sound(b.Slot(slot)) ==> r.status == Ok)
  {
    hide Sound, ControlIsValid, Healthy, HonestAll, VerifyImage, Update, Stored, AllFine, Honest, Confirmed;
    VerifyKeeps(b, slot);
    var v := VerifyImage(b, slot);
    if v.status == Ok {
      UpdateReplaces(v.board, c, Confirmed(c, slot));
    }
  }

  /** Confirm makes the running slot active only if its image verified in that call. */
  lemma ConfirmReplaces(b: Board, c: BootControl, slot: u32)
    requires Healthy(b) && b.Wired() && Stored(b) == c && HonestAll(b)
    ensures var r := ConfirmCurrentImage(b, c, slot);
            && Healthy(r.board)
            && Replaces(b, c, Confirmed(c, slot), r)
            && (Stored(r.board) != c ==> MayConfirm(c, slot) && Sound(b.Slot(slot)))
            && (r.status == Ok ==> MayConfirm(c, slot) && Sound(b.Slot(slot)))
            && (AllFine(b.faults) && MayConfirm(c, slot) && Sound(b.Slot(slot)) ==> r.status == Ok)
  {
    if MayConfirm(c, slot) {
      UpdatesAreValid(c, slot, DecodeHeader(b.slotA));
      ConfirmAllowed(b, c, slot);
    }
  }

  predicate MayMark(c: BootControl, slot: u32) {
    ControlIsValid(c) && IsSlot(slot) && slot != c.active
  }

  lemma MarkAllowed(b: Board, c: BootControl, slot: u32)
    requires Healthy(b) && b.Wired() && Stored(b) == c && HonestAll(b)
    requires MayMark(c, slot) && ControlIsValid(Marked(c, slot, DecodeHeader(b.Slot(slot))))
    ensures var r := MarkPending(b, c, slot);
            && Healthy(r.board)
            && Replaces(b, c, Marked(c, slot, DecodeHeader(b.Slot(slot))), r)
            && (Stored(r.board) != c ==> Sound(b.Slot(slot)))
            && (r.status == Ok ==> Sound(b.Slot(slot)))
            && (AllFine(b.faults) && Sound(b.Slot(slot)) ==> r.status == Ok)
  {
    hide Sound, ControlIsValid, Healthy, HonestAll, VerifyImage, Update, Stored, AllFine, Honest, Marked, Reads;
    VerifyKeeps(b, slot);
    var v := VerifyImage(b, slot);
    if v.status == Ok {
      OneRead(v.board);
      var h := ReadHeader(v.board, slot);
      AfterReadsKeeps(v.board, h.board);
      if AllFine(b.faults) {
        FineReads(v.board.faults, 1);
      }
      if h.status == Ok {
        UpdateReplaces(h.board, c, Marked(c, slot, DecodeHeader(b.Slot(slot))));
      }
    }
  }

  /** Mark-pending records only an image that verified in that call, and never the active slot. */
  lemma MarkReplaces(b: Board, c: BootControl, slot: u32)
    requires Healthy(b) && b.Wired() && Stored(b) == c && HonestAll(b)
    ensures var r := MarkPending(b, c, slot);
            && Healthy(r.board)
            && Replaces(b, c, Marked(c, slot, DecodeHeader(b.Slot(slot))), r)
            && (Stored(r.board) != c ==> MayMark(c, slot) && Sound(b.Slot(slot)))
            && (r.status == Ok ==> MayMark(c, slot) && Sound(b.Slot(slot)))
            && (AllFine(b.faults) && MayMark(c, slot) && Sound(b.Slot(slot)) ==> r.status == Ok)
  {
    if MayMark(c, slot) {
      UpdatesAreValid(c, slot, DecodeHeader(b.Slot(slot)));
      MarkAllowed(b, c, slot);
    }
  }

  // ----- selecting and booting

  /** The pending image is tried: it verifies and has attempts left. */
  predicate Tries(b: Board, c: BootControl)
    requires b.Wired() && ControlIsValid(c)
  {
    c.pending != SLOT_NONE && Sound(b.Slot(c.pending)) && c.attempts < c.maxAttempts
  }

  function Tried(c: BootControl): BootControl
    requires c.attempts < c.maxAttempts
  {
    c.(attempts := c.attempts + 1)
  }

  /** Attempts left for the pending image. */
  function AttemptsLeft(c: BootControl): int {
    if c.pending == SLOT_NONE then 0 else c.maxAttempts - c.attempts
  }

  lemma SelectActiveMeans(b: Board, c: BootControl)
    requires Healthy(b) && b.Wired() && ControlIsValid(c)
    ensures var r := SelectActive(b, c);
            && r.control == c
            && r.board == b.(faults := r.board.faults)
            && Healthy(r.board) && Stored(r.board) == Stored(b)
            && (r.status == Ok ==> r.slot == c.active && Sound(b.Slot(c.active)))
            && (AllFine(b.faults) ==> AllFine(r.board.faults) && (r.status == Ok <==> Sound(b.Slot(c.active))))
  {
    hide Sound, Healthy, HonestAll, VerifyImage, Stored, AllFine, Honest;
    VerifyKeeps(b, c.active);
  }

  /** What flash may hold after selecting, what the caller gets back, and which slot may be selected. */
  ghost predicate Selected(b: Board, c: BootControl, r: Selection)
    requires b.Wired() && r.board.Wired() && ControlIsValid(c)
  {
    && r.board == b.(log := r.board.log, faults := r.board.faults)
    && (|| Stored(r.board) == c
        || (Tries(b, c) && Stored(r.board) == Tried(c))
        || (c.pending != SLOT_NONE && !Tries(b, c) && Stored(r.board) == RolledBack(c)))
    && (r.control == Stored(r.board) || (r.status != Ok && r.control == c))
    && (r.status == Ok ==>
          || (Tries(b, c) && r.slot == c.pending && Stored(r.board) == Tried(c))
          || (!Tries(b, c) && r.slot == c.active && Sound(b.Slot(c.active)) &&
              Stored(r.board) == (if c.pending == SLOT_NONE then c else RolledBack(c))))
  }

  lemma SpentFine(b: Board)
    requires AllFine(b.faults)
    ensures AllFine(b.Spend().faults) && b.Next().Fine?
  {
  }

  lemma SelectTryIs(b: Board, c: BootControl)
    requires b.Wired() && ControlIsValid(c) && c.pending != SLOT_NONE
    requires VerifyImage(b, c.pending).status == Ok && c.attempts < c.maxAttempts
    ensures IsSlot(c.pending) && ControlIsValid(Tried(c))
    ensures var u := Update(VerifyImage(b, c.pending).board, c, Tried(c));
            SelectBootSlot(b, c)
            == Selection(u.board, u.status, u.control, if u.status == Ok then c.pending else SLOT_NONE)
  {
    hide VerifyImage, Update;
  }

  lemma SelectTry(b: Board, c: BootControl)
    requires Healthy(b) && b.Wired() && Stored(b) == c && HonestAll(b) && ControlIsValid(c)
    requires c.pending != SLOT_NONE && VerifyImage(b, c.pending).status == Ok && c.attempts < c.maxAttempts
    ensures var r := SelectBootSlot(b, c);
            && Healthy(r.board)
            && Selected(b, c, r)
            && (AllFine(b.faults) ==> r.status == Ok && AllFine(r.board.faults))
  {
    hide Sound, ControlIsValid, Healthy, HonestAll, VerifyImage, Update, Stored, AllFine, Honest, SelectBootSlot;
    SelectTryIs(b, c);
    VerifyKeeps(b, c.pending);
    var v := VerifyImage(b, c.pending);
    UpdateReplaces(v.board, c, Tried(c));
    if AllFine(b.faults) {
      SpentFine(v.board);
    }
  }

  lemma SelectRollbackIs(b: Board, c: BootControl)
    requires b.Wired() && ControlIsValid(c) && c.pending != SLOT_NONE
    requires var v := VerifyImage(b, c.pending);
             v.status == VerifyError || (v.status == Ok && c.attempts >= c.maxAttempts)
    ensures IsSlot(c.pending) && ControlIsValid(RolledBack(c)) && RolledBack(c).active == c.active
    ensures var u := Rollback(VerifyImage(b, c.pending).board, c);
            SelectBootSlot(b, c) ==
            if u.status != Ok then Selection(u.board, u.status, u.control, SLOT_NONE)
            else SelectActive(u.board, u.control)
  {
    hide VerifyImage, Rollback, SelectActive;
  }

  lemma SelectRollback(b: Board, c: BootControl)
    requires Healthy(b) && b.Wired() && Stored(b) == c && HonestAll(b) && ControlIsValid(c)
    requires c.pending != SLOT_NONE
    requires var v := VerifyImage(b, c.pending);
             v.status == VerifyError || (v.status == Ok && c.attempts >= c.maxAttempts)
    ensures var r := SelectBootSlot(b, c);
            && Healthy(r.board)
            && Selected(b, c, r)
            && (AllFine(b.faults) && Sound(b.Slot(c.active)) ==> r.status == Ok && AllFine(r.board.faults))
  {
    hide Sound, ControlIsValid, Healthy, HonestAll, VerifyImage, Update, Stored, AllFine, Honest, Rollback,
         SelectActive, RolledBack, SelectBootSlot;
    SelectRollbackIs(b, c);
    VerifyKeeps(b, c.pending);
    var v := VerifyImage(b, c.pending);
    RollbackReplaces(v.board, c);
    if AllFine(b.faults) {
      SpentFine(v.board);
    }
    var u := Rollback(v.board, c);
    if u.status == Ok {
      SelectActiveMeans(u.board, u.control);
    }
  }

  /** Selecting tries the pending image, falls back to the active one, or reports an error; flash
      ends up with the control as it was, with one more attempt, or rolled back, and a slot is
      selected only after that control is committed. The caller gets back the control that flash holds;
      on an error possibly the one it came with. */
  lemma SelectMeans(b: Board, c: BootControl)
    requires Healthy(b) && b.Wired() && Stored(b) == c && ControlIsValid(c)
    requires c.pending != SLOT_NONE ==> HonestAll(b)
    ensures var r := SelectBootSlot(b, c);
            && Healthy(r.board)
            && Selected(b, c, r)
            && (AllFine(b.faults) && (Tries(b, c) || Sound(b.Slot(c.active))) ==>
                  r.status == Ok && AllFine(r.board.faults))
            && (c.pending == SLOT_NONE ==> r.board.log == b.log)
  {
    hide Sound, Healthy, HonestAll, VerifyImage, Update, Stored, AllFine, Honest, Rollback, SelectActive, RolledBack;
    if c.pending == SLOT_NONE {
      SelectActiveMeans(b, c);
    } else {
      VerifyKeeps(b, c.pending);
      var v := VerifyImage(b, c.pending);
      if v.status == Ok && c.attempts < c.maxAttempts {
        SelectTry(b, c);
      } else if v.status == Ok || v.status == VerifyError {
        SelectRollback(b, c);
      }
    }
  }
}
