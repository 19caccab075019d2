/** What the control log guarantees over whole runs. */
module LogTheorems {
  import opened Words
  import opened Crc
  import opened Faults
  import opened ControlLog
  import opened LogHistory

  // ----- the log is one atomic cell

  datatype Save = Save(control: seq<Word>, fault: Fault)

  function BlankLog(n: nat): (log: Log)
    ensures |log.a| == n && (n > 0 ==> Paired(log))
  {
    Log(BlankSector(n), BlankSector(n))
  }

  function StartLedger(n: nat): Ledger {
    var none := seq(n, _ => -1);
    Ledger([], BankA, none, none, 0, [], [], true)
  }

  lemma BlankSectorFits(n: nat)
    ensures CurrentOk(BlankSector(n), seq(n, _ => -1), [], 0, [])
    ensures OtherOk(BlankSector(n), seq(n, _ => -1), [], 0)
  {
    BlankRecord();
  }

  lemma StartKeeps(n: nat)
    requires 0 < n && 2 * n < 0x8000_0000
    ensures Inv(BlankLog(n), StartLedger(n))
  {
    BlankSectorFits(n);
  }

  /** Every save of the run hands over a whole control block, and no interrupted erase forges a record. */
  predicate HonestRun(log: Log, saves: seq<Save>)
    requires Paired(log)
    decreases saves
  {
    saves != [] ==>
      && |saves[0].control| == CONTROL_WORDS
      && Honest(log, saves[0].fault)
      && HonestRun(Append(log, saves[0].control, saves[0].fault).0, saves[1..])
  }

  /** Each save that returns IAP_OK replaces what a read returns; each one that fails, or is cut,
      replaces it or leaves it; a save without fault does not fail. */
  predicate AtomicRun(log: Log, saves: seq<Save>)
    requires Paired(log)
    requires HonestRun(log, saves)
    decreases saves
  {
    saves != [] ==>
      var (log', ok) := Append(log, saves[0].control, saves[0].fault);
      && (ReadControl(log') == saves[0].control || (!ok && ReadControl(log') == ReadControl(log)))
      && (saves[0].fault.Fine? ==> ok)
      && AtomicRun(log', saves[1..])
  }

  lemma CellStep(led: Ledger, led': Ledger, control: seq<Word>, ok: bool)
    requires AtomicStep(led, led', control, ok)
    ensures Cell(led'.history) == control || (!ok && Cell(led'.history) == Cell(led.history))
  {
  }

  lemma SaveIsAtomic(log: Log, led: Ledger, save: Save) returns (led': Ledger)
    requires Inv(log, led) && |save.control| == CONTROL_WORDS && Honest(log, save.fault)
    ensures var (log', ok) := Append(log, save.control, save.fault);
            && Inv(log', led')
            && (ReadControl(log') == save.control || (!ok && ReadControl(log') == ReadControl(log)))
            && (save.fault.Fine? ==> ok)
  {
    assert Paired(log);
    hide *;
    led' := AppendKeeps(log, led, save.control, save.fault);
    FindLatestIsNewest(log, led);
    FindLatestIsNewest(Append(log, save.control, save.fault).0, led');
    CellStep(led, led', save.control, Append(log, save.control, save.fault).1);
  }

  lemma {:induction false} RunIsAtomic(log: Log, led: Ledger, saves: seq<Save>)
    requires Inv(log, led) && HonestRun(log, saves)
    ensures AtomicRun(log, saves)
    decreases saves
  {
    if saves != [] {
      var led' := SaveIsAtomic(log, led, saves[0]);
      RunIsAtomic(Append(log, saves[0].control, saves[0].fault).0, led', saves[1..]);
    }
  }

  /** From blank flash, under any number of saves, cuts and failed programs, torn bit by bit, the
      log behaves as one cell that every save writes atomically. */
  lemma LogIsAtomicCell(n: nat, saves: seq<Save>)
    requires 0 < n && 2 * n < 0x8000_0000 && HonestRun(BlankLog(n), saves)
    ensures ReadControl(BlankLog(n)) == seq(CONTROL_WORDS, _ => ALL_ONES)
    ensures AtomicRun(BlankLog(n), saves)
  {
    StartKeeps(n);
    FindLatestIsNewest(BlankLog(n), StartLedger(n));
    RunIsAtomic(BlankLog(n), StartLedger(n), saves);
  }

  // ----- sequence numbers

  lemma TagOf(log: Log, led: Ledger, x: Bank, i: nat)
    requires Inv(log, led) && i < |log.a| && IsValid(log.Sector(x)[i])
    ensures |led.Tags(x)| == |log.a| && Rising(led.Tags(x))
    ensures var g := led.Tags(x)[i];
            && 0 <= g < |led.history| && Sequence(log.Sector(x)[i]) == g % TWO_32
            && led.start - |log.a| <= g < led.start + |log.a|
            && (x == led.current <==> g >= led.start)
    ensures LogShape(log)
  {
    WindowBound(log.Sector(led.current), led.Tags(led.current), led.history, led.start, led.places);
    assert x == led.current || x == led.current.Other();
  }

  /** Record i is valid and in reach of the scan. */
  predicate InView(log: Log, x: Bank, i: nat) {
    Paired(log) && i < FirstErased(log.Sector(x), 0) && IsValid(log.Sector(x)[i])
  }

  /** The sequence number of record j is the one after that of record i. */
  predicate Precedes(log: Log, x: Bank, i: nat, y: Bank, j: nat)
    requires Paired(log) && i < |log.a| && j < |log.a|
  {
    Add32(Sequence(log.Sector(x)[i]), 1) == Sequence(log.Sector(y)[j])
  }

  lemma NextNumber(g: int, h: int)
    requires 0 <= g && 0 <= h && -0x8000_0000 < g - h < 0x8000_0000
    ensures Add32(g % TWO_32, 1) == h % TWO_32 <==> g + 1 == h
  {
  }

  /** Between valid records consecutive sequence numbers are consecutive history numbers. */
  lemma PrecedesIs(log: Log, led: Ledger, x: Bank, i: nat, y: Bank, j: nat)
    requires Inv(log, led) && i < |log.a| && j < |log.a|
    requires IsValid(log.Sector(x)[i]) && IsValid(log.Sector(y)[j])
    ensures |led.Tags(x)| == |led.Tags(y)| == |log.a|
    ensures Precedes(log, x, i, y, j) <==> led.Tags(x)[i] + 1 == led.Tags(y)[j]
  {
    hide Inv, IsValid, Sequence, Add32;
    TagOf(log, led, x, i);
    TagOf(log, led, y, j);
    NextNumber(led.Tags(x)[i], led.Tags(y)[j]);
  }

  /** Between any two valid records the wrapped comparison is the order of commitment, and no two
      records share a history number; so it is a strict total order on what the scan can meet. */
  lemma SequencesAreOrdered(log: Log, led: Ledger, x: Bank, i: nat, y: Bank, j: nat)
    requires Inv(log, led) && i < |log.a| && j < |log.a|
    requires IsValid(log.Sector(x)[i]) && IsValid(log.Sector(y)[j])
    ensures SequenceIsNewer(Sequence(log.Sector(x)[i]), Sequence(log.Sector(y)[j]))
            <==> led.Tags(x)[i] > led.Tags(y)[j]
    ensures led.Tags(x)[i] == led.Tags(y)[j] <==> x == y && i == j
    ensures x == led.current && y != x ==> led.Tags(x)[i] > led.Tags(y)[j]
    ensures x == y && i < j ==> led.Tags(x)[i] < led.Tags(y)[j]
  {
    hide Inv, IsValid, Sequence, SequenceIsNewer;
    TagOf(log, led, x, i);
    TagOf(log, led, y, j);
    NewerIsLater(led.Tags(x)[i], led.Tags(y)[j]);
  }

  /** Every valid record is less than two sectors' worth of commits behind the newest one. */
  lemma ValidRecordsInWindow(log: Log, led: Ledger, bank: Bank, i: nat)
    requires Inv(log, led) && i < |log.a| && IsValid(log.Sector(bank)[i])
    ensures led.history != []
    ensures 0 <= |led.history| - 1 - led.Tags(bank)[i] < 2 * |log.a|
    ensures Sequence(log.Sector(bank)[i]) == led.Tags(bank)[i] % TWO_32
  {
    TagOf(log, led, bank, i);
    WindowBound(log.Sector(led.current), led.Tags(led.current), led.history, led.start, led.places);
  }

  lemma PlaceHolds(s: Sector, tags: seq<int>, history: seq<seq<Word>>, start: nat, places: seq<nat>, g: nat)
    requires Shaped(s) && CurrentOk(s, tags, history, start, places) && start <= g < |history|
    ensures var i := places[g - start];
            && i < FirstErased(s, 0) && |tags| == |s| && tags[i] == g
            && IsValid(s[i]) && Sequence(s[i]) == g % TWO_32 && ControlOf(s[i]) == history[g]
  {
    hide Rising, Covered, IsValid, Sequence, ControlOf;
    assert tags[places[g - start]] == g;
  }

  /** The current sector holds every control committed since it was erased, in order, in view of the
      scan, with consecutive sequence numbers. */
  lemma CurrentSectorIsComplete(log: Log, led: Ledger, g: nat)
    requires Inv(log, led) && led.start <= g < |led.history|
    ensures var i := led.places[g - led.start];
            && i < FirstErased(log.Sector(led.current), 0)
            && IsValid(log.Sector(led.current)[i])
            && Sequence(log.Sector(led.current)[i]) == g % TWO_32
            && ControlOf(log.Sector(led.current)[i]) == led.history[g]
            && (g > led.start ==> led.places[g - 1 - led.start] < i)
  {
    hide Tagged, Covered, Visible, Placed, Within, IsValid, Sequence, ControlOf, FirstErased, IsErased, Backed, OtherOk;
    PlaceHolds(log.Sector(led.current), led.Tags(led.current), led.history, led.start, led.places, g);
    if g > led.start {
      PlaceHolds(log.Sector(led.current), led.Tags(led.current), led.history, led.start, led.places, g - 1);
    }
  }

  // ----- erases

  /** The newest control is in a record that is not erased. */
  lemma NewestHeld(log: Log, led: Ledger)
    requires Inv(log, led) && led.history != []
    ensures led.places != [] && NewestIndex(led) < |log.a|
    ensures !IsErased(log.Sector(led.current)[NewestIndex(led)]) && IsValid(log.Sector(led.current)[NewestIndex(led)])
    ensures ControlOf(log.Sector(led.current)[NewestIndex(led)]) == Cell(led.history)
  {
    hide Backed, OtherOk, Covers, Tagged, Rising, Placed, Visible, IsValid, ControlOf, Sequence, IsErased;
    PlaceHolds(log.Sector(led.current), led.Tags(led.current), led.history, led.start, led.places, |led.history| - 1);
  }

  lemma FirstErasedIn(s: Sector)
    ensures FirstErased(s, 0) < |s| ==> IsErased(s[FirstErased(s, 0)])
  {
  }

  lemma AppendTouches(log: Log, control: seq<Word>, f: Fault)
    requires Paired(log) && |control| == CONTROL_WORDS
    ensures var log', t := Append(log, control, f).0, ChooseTarget(log);
            && log'.Sector(t.bank.Other()) == log.Sector(t.bank.Other())
            && (!t.erase ==>
                  forall i :: 0 <= i < |log.a| && i != t.index ==> log'.Sector(t.bank)[i] == log.Sector(t.bank)[i])
  {
    hide ChooseTarget, WriteRecord, EraseSector;
  }

  /** No append touches the newest committed record, and none erases the sector it is in. */
  lemma AppendSparesNewest(log: Log, led: Ledger, control: seq<Word>, f: Fault)
    requires Inv(log, led) && led.history != [] && |control| == CONTROL_WORDS
    ensures var log', t := Append(log, control, f).0, ChooseTarget(log);
            && (t.erase ==> t.bank != led.current && log'.Sector(led.current) == log.Sector(led.current))
            && (!t.erase ==> log'.Sector(led.current.Other()) == log.Sector(led.current.Other()))
            && (forall i :: 0 <= i < |log.a| && !IsErased(log.Sector(led.current)[i]) ==>
                  log'.Sector(led.current)[i] == log.Sector(led.current)[i])
            && IsValid(log'.Sector(led.current)[NewestIndex(led)])
            && ControlOf(log'.Sector(led.current)[NewestIndex(led)]) == Cell(led.history)
  {
    hide Append, ChooseTarget, IsErased, IsValid, ControlOf, Backed, OtherOk, Covered, Visible;
    ChooseTargetIs(log, led);
    AppendTouches(log, control, f);
    FirstErasedIn(log.Sector(led.current));
    NewestHeld(log, led);
  }

  lemma SwitchTarget(log: Log, led: Ledger)
    requires Inv(log, led) && led.history != [] && FirstErased(log.Sector(led.current), 0) == |log.a|
    ensures Paired(log)
    ensures ChooseTarget(log) == Target(led.current.Other(), 0, true, |led.history| % TWO_32)
  {
    ChooseTargetIs(log, led);
  }

  lemma SwitchResult(log: Log, led: Ledger, control: seq<Word>, f: Fault)
    requires Inv(log, led) && |control| == CONTROL_WORDS
    requires ChooseTarget(log) == Target(led.current.Other(), 0, true, |led.history| % TWO_32)
    ensures var log' := Append(log, control, f).0;
            && log'.Sector(led.current) == log.Sector(led.current)
            && (!Strikes(f, 0) ==>
                  log'.Sector(led.current.Other())
                  == BlankSector(|log.a|)[0 :=
                       WriteRecord(Blank(), NewRecord(|led.history| % TWO_32, control), f, 1).0])
  {
    assert Paired(log);
    hide ChooseTarget, Inv, WriteRecord, TearErase;
  }

  /** While the newest record's sector is full, an append erases the other sector, whatever an
      earlier interrupted erase or torn record left there; and if it commits nothing, the next
      append erases that sector again. */
  lemma SwitchStartsAfresh(log: Log, led: Ledger, control: seq<Word>, f: Fault)
    requires Inv(log, led) && led.history != [] && |control| == CONTROL_WORDS && Honest(log, f)
    requires FirstErased(log.Sector(led.current), 0) == |log.a|
    ensures ChooseTarget(log).erase && ChooseTarget(log).bank == led.current.Other()
    ensures var (log', ok) := Append(log, control, f);
            && (!Strikes(f, 0) ==>
                  log'.Sector(led.current.Other())
                  == BlankSector(|log.a|)[0 :=
                       WriteRecord(Blank(), NewRecord(|led.history| % TWO_32, control), f, 1).0])
            && (ReadControl(log') == control ||
                (ChooseTarget(log').erase && ChooseTarget(log').bank == led.current.Other()))
  {
    hide ChooseTarget, Inv, WriteRecord, TearErase, Append, ReadControl, Honest;
    SwitchTarget(log, led);
    SwitchResult(log, led, control, f);
    var led' := AppendKeeps(log, led, control, f);
    var log' := Append(log, control, f).0;
    FindLatestIsNewest(log', led');
    if led'.history == led.history {
      SwitchTarget(log', led');
    }
  }

  // ----- uncommitted records

  /** The commit word has more bits set than the constant. */
  predicate Uncommitted(r: Record)
    requires |r| == RECORD_WORDS
  {
    Covers(r[15]) && r[15] != RECORD_COMMIT
  }

  lemma TornStaysUncommitted(s: Sector, f: Fault, i: nat)
    requires Shaped(s) && f.Fail? && i < |s| && Uncommitted(s[i])
    ensures Uncommitted(TearErase(s, f)[i])
  {
    ErasedCommitCovers(s[i][15], f.tear(RECORD_WORDS * i + 15));
  }

  /** The append erases all of the sector. */
  predicate Wipes(log: Log, f: Fault, bank: Bank)
    requires Paired(log)
  {
    ChooseTarget(log).erase && ChooseTarget(log).bank == bank && !Strikes(f, 0)
  }

  lemma TargetIsErased(log: Log)
    requires Paired(log)
    ensures var t := ChooseTarget(log); !t.erase ==> IsErased(log.Sector(t.bank)[t.index])
  {
  }

  lemma TornAppend(log: Log, control: seq<Word>, f: Fault)
    requires Paired(log) && |control| == CONTROL_WORDS && ChooseTarget(log).erase && Strikes(f, 0)
    ensures Append(log, control, f).0.Sector(ChooseTarget(log).bank) == TearErase(log.Sector(ChooseTarget(log).bank), f)
  {
    hide ChooseTarget, TearErase;
  }

  /** No append programs a written record: unless its sector is wiped, the record stays as it is, or
      becomes its torn form when the erase of its sector breaks. */
  lemma WrittenIsNotProgrammed(log: Log, control: seq<Word>, f: Fault, bank: Bank, i: nat)
    requires Paired(log) && |control| == CONTROL_WORDS && i < |log.a|
    requires !IsErased(log.Sector(bank)[i]) && !Wipes(log, f, bank)
    ensures var r, t := Append(log, control, f).0.Sector(bank)[i], ChooseTarget(log);
            if t.erase && t.bank == bank then Strikes(f, 0) && r == TearErase(log.Sector(bank), f)[i]
            else r == log.Sector(bank)[i]
  {
    hide ChooseTarget, IsErased, Append, TearErase;
    if ChooseTarget(log).bank == bank && ChooseTarget(log).erase {
      TornAppend(log, control, f);
    } else {
      AppendTouches(log, control, f);
      TargetIsErased(log);
    }
  }

  /** And an uncommitted record stays uncommitted through it, since no broken erase completes the
      commit word. */
  lemma UncommittedStaysUncommitted(log: Log, control: seq<Word>, f: Fault, bank: Bank, i: nat)
    requires LogShape(log) && |control| == CONTROL_WORDS && i < |log.a|
    requires Uncommitted(log.Sector(bank)[i]) && !IsErased(log.Sector(bank)[i]) && !Wipes(log, f, bank)
    ensures var r := Append(log, control, f).0.Sector(bank)[i];
            && Uncommitted(r)
            && (r == log.Sector(bank)[i] || (Strikes(f, 0) && r == TearErase(log.Sector(bank), f)[i]))
  {
    hide Uncommitted, ChooseTarget, Append, IsErased, TearErase;
    WrittenIsNotProgrammed(log, control, f, bank, i);
    if Strikes(f, 0) {
      TornStaysUncommitted(log.Sector(bank), f, i);
    }
  }

  /** Record i is invalid through the whole run, or up to where it is erased. */
  predicate InvalidUntilErased(log: Log, saves: seq<Save>, bank: Bank, i: nat)
    requires Paired(log) && i < |log.a|
    requires forall s :: s in saves ==> |s.control| == CONTROL_WORDS
    decreases saves
  {
    && !IsValid(log.Sector(bank)[i])
    && (saves != [] && !IsErased(log.Sector(bank)[i]) && !Wipes(log, saves[0].fault, bank) ==>
          InvalidUntilErased(Append(log, saves[0].control, saves[0].fault).0, saves[1..], bank, i))
  }

  /** A record that a cut left without the full commit word never becomes valid, whatever is saved,
      cut or torn later, until flash has been erased under it. */
  lemma {:induction false} UncommittedStaysInvalid(log: Log, saves: seq<Save>, bank: Bank, i: nat)
    requires LogShape(log) && i < |log.a| && Uncommitted(log.Sector(bank)[i])
    requires forall s :: s in saves ==> |s.control| == CONTROL_WORDS
    ensures InvalidUntilErased(log, saves, bank, i)
    decreases saves
  {
    hide IsErased, Append, Wipes;
    if saves != [] && !IsErased(log.Sector(bank)[i]) && !Wipes(log, saves[0].fault, bank) {
      UncommittedStaysUncommitted(log, saves[0].control, saves[0].fault, bank, i);
      UncommittedStaysInvalid(Append(log, saves[0].control, saves[0].fault).0, saves[1..], bank, i);
    }
  }

  // ----- damaged records

  lemma DropOne(words: seq<Word>, k: nat)
    requires 0 < k < |words|
    ensures words[1..][..k - 1] == words[..k][1..]
    ensures words[1..][k..] == words[k + 1..]
    ensures words[1..][k - 1] == words[k] && words[..k][0] == words[0]
  {
  }

  lemma {:induction false} WordBytesAt(words: seq<Word>, k: nat)
    requires k < |words|
    ensures WordBytes(words) == WordBytes(words[..k]) + Split(words[k]) + WordBytes(words[k + 1..])
    decreases k
  {
    hide Split;
    if k > 0 {
      WordBytesAt(words[1..], k - 1);
      DropOne(words, k);
    }
  }

  lemma BodyWordChange(words: seq<Word>, k: nat, w: Word)
    requires k < |words| && w != words[k]
    ensures Crc32(WordBytes(words[k := w])) != Crc32(WordBytes(words))
  {
    WordBytesAt(words, k);
    WordBytesAt(words[k := w], k);
    assert words[k := w][..k] == words[..k] && words[k := w][k + 1..] == words[k + 1..];
    JoinSplit(w);
    JoinSplit(words[k]);
    BurstDetected(WordBytes(words[..k]), Split(words[k]), Split(w), WordBytes(words[k + 1..]));
  }

  /** Any change to one word of a committed record makes it invalid, and never makes it look
      erased, so a scan carries on behind it. */
  lemma OneWordChange(r: Record, k: nat, w: Word)
    requires |r| == RECORD_WORDS && IsValid(r) && k < RECORD_WORDS && w != r[k]
    ensures !IsValid(r[k := w])
    ensures !IsErased(r[k := w])
  {
    var r' := r[k := w];
    if 1 <= k < 14 {
      assert r'[1..14] == r[1..14][k - 1 := w];
      BodyWordChange(r[1..14], k - 1, w);
    } else {
      assert r'[1..14] == r[1..14];
    }
    assert r'[0] != ALL_ONES || r'[15] != ALL_ONES;
  }

  function Damage(log: Log, bank: Bank, i: nat, k: nat, w: Word): (log': Log)
    requires Paired(log) && i < |log.a| && k < RECORD_WORDS
    ensures Paired(log')
  {
    log.With(bank, log.Sector(bank)[i := log.Sector(bank)[i][k := w]])
  }

  lemma DamageInSector(s: Sector, tags: seq<int>, history: seq<seq<Word>>, i: nat, k: nat, w: Word)
    requires Shaped(s) && Ordered(s, tags, history) && i < |s| && tags[i] >= 0
    requires k < RECORD_WORDS && w != s[i][k]
    ensures Shaped(s[i := s[i][k := w]]) && Ordered(s[i := s[i][k := w]], tags[i := -1], history)
  {
    OneWordChange(s[i], k, w);
  }

  lemma {:induction false} DamageKeepsView(s: Sector, i: nat, r: Record, from: nat)
    requires i < |s| && !IsErased(s[i]) && !IsErased(r) && from <= |s|
    ensures FirstErased(s[i := r], from) == FirstErased(s, from)
    decreases |s| - from
  {
    if from < |s| && !IsErased(s[from]) {
      DamageKeepsView(s, i, r, from + 1);
    }
  }

  /** A damaged log, and the ledger without the damaged record. */
  function Forget(led: Ledger, bank: Bank, i: nat): Ledger
    requires i < |led.Tags(bank)|
  {
    led.WithTags(bank, led.Tags(bank)[i := -1])
  }

  /** What scanning needs to know of a log and its tags. */
  predicate Scannable(log: Log, led: Ledger, lo: int) {
    && LogShape(log)
    && Ordered(log.a, led.tagsA, led.history) && Within(led.tagsA, lo, lo + 0x8000_0000)
    && Ordered(log.b, led.tagsB, led.history) && Within(led.tagsB, lo, lo + 0x8000_0000)
  }

  lemma InvScannable(log: Log, led: Ledger)
    requires Inv(log, led)
    ensures Scannable(log, led, led.start - |log.a|)
  {
    AllInWindow(log, led);
  }

  /** A read of any scannable log returns the newest control in view. */
  lemma ReadIsTop(log: Log, led: Ledger, lo: int)
    requires Scannable(log, led, lo)
    ensures TopTag(log, led) < |led.history|
    ensures TopTag(log, led) >= 0 ==> ReadControl(log) == led.history[TopTag(log, led)]
    ensures TopTag(log, led) < 0 ==> ReadControl(log) == Cell([])
  {
    FindLatestIsTop(log, led, lo);
    VisibleMaxReached(log.a, led.tagsA, 0, -1);
    VisibleMaxReached(log.b, led.tagsB, 0, VisibleMax(log.a, led.tagsA, 0, -1));
  }

  lemma DamageScannable(log: Log, led: Ledger, lo: int, bank: Bank, i: nat, k: nat, w: Word)
    requires Scannable(log, led, lo) && i < |log.a| && led.Tags(bank)[i] >= 0
    requires k < RECORD_WORDS && w != log.Sector(bank)[i][k]
    ensures Scannable(Damage(log, bank, i, k, w), Forget(led, bank, i), lo)
  {
    DamageInSector(log.Sector(bank), led.Tags(bank), led.history, i, k, w);
  }

  lemma DamageInView(log: Log, bank: Bank, i: nat, k: nat, w: Word, x: Bank)
    requires LogShape(log) && i < |log.a| && IsValid(log.Sector(bank)[i])
    requires k < RECORD_WORDS && w != log.Sector(bank)[i][k]
    ensures FirstErased(Damage(log, bank, i, k, w).Sector(x), 0) == FirstErased(log.Sector(x), 0)
  {
    if x == bank {
      OneWordChange(log.Sector(bank)[i], k, w);
      assert log.Sector(bank)[i][0] != ALL_ONES;
      DamageKeepsView(log.Sector(bank), i, log.Sector(bank)[i][k := w], 0);
    }
  }

  /** After one word of any committed record is damaged, a read returns the newest control that
      is left in view. */
  lemma DamagedRead(log: Log, led: Ledger, lo: int, bank: Bank, i: nat, k: nat, w: Word)
    requires Scannable(log, led, lo) && i < |log.a| && led.Tags(bank)[i] >= 0
    requires k < RECORD_WORDS && w != log.Sector(bank)[i][k]
    ensures var log', led' := Damage(log, bank, i, k, w), Forget(led, bank, i);
            && Scannable(log', led', lo)
            && (TopTag(log', led') < 0 ==> ReadControl(log') == Cell([]))
            && (TopTag(log', led') >= 0 ==>
                  TopTag(log', led') < |led.history| && ReadControl(log') == led.history[TopTag(log', led')])
  {
    var log', led' := Damage(log, bank, i, k, w), Forget(led, bank, i);
    DamageScannable(log, led, lo, bank, i, k, w);
    ReadIsTop(log', led', lo);
  }

  predicate IsTop(led: Ledger, bank: Bank, j: nat) {
    && j < |led.Tags(bank)| && led.Tags(bank)[j] >= 0
    && (forall x: Bank, y :: 0 <= y < |led.Tags(x)| ==> led.Tags(x)[y] <= led.Tags(bank)[j])
  }

  lemma TopRead(log: Log, led: Ledger, lo: int, bank: Bank, j: nat)
    requires Scannable(log, led, lo) && IsTop(led, bank, j) && j < FirstErased(log.Sector(bank), 0)
    ensures led.Tags(bank)[j] < |led.history| && ReadControl(log) == led.history[led.Tags(bank)[j]]
  {
    TopTagIs(log, led, bank, j);
    ReadIsTop(log, led, lo);
  }

  lemma DamagedTop(log: Log, led: Ledger, lo: int, bank: Bank, i: nat, k: nat, w: Word,
                   x: Bank, j: nat, g: int)
    requires Scannable(log, led, lo) && i < |log.a| && led.Tags(bank)[i] >= 0
    requires k < RECORD_WORDS && w != log.Sector(bank)[i][k]
    requires IsTop(Forget(led, bank, i), x, j) && Forget(led, bank, i).Tags(x)[j] == g
    requires j < FirstErased(log.Sector(x), 0)
    ensures 0 <= g < |led.history| && ReadControl(Damage(log, bank, i, k, w)) == led.history[g]
  {
    DamageScannable(log, led, lo, bank, i, k, w);
    DamageInView(log, bank, i, k, w, x);
    TopRead(Damage(log, bank, i, k, w), Forget(led, bank, i), lo, x, j);
  }

  lemma TagsBelow(log: Log, led: Ledger)
    requires Inv(log, led)
    ensures LogShape(log) && |led.tagsA| == |led.tagsB| == |log.a|
    ensures led.places != [] ==> led.history != []
    ensures forall x: Bank, y :: 0 <= y < |log.a| ==> led.Tags(x)[y] < |led.history|
    ensures forall y :: 0 <= y < |log.a| && led.Tags(led.current)[y] >= 0 ==>
              y < FirstErased(log.Sector(led.current), 0)
    ensures led.places != [] ==> NewestIndex(led) < |log.a|
    ensures led.places != [] ==> led.Tags(led.current)[NewestIndex(led)] == |led.history| - 1
  {
    hide Backed, IsErased, IsValid, Sequence, ControlOf, Covered, FirstErased;
    if led.places != [] {
      NewestInView(log.Sector(led.current), led.Tags(led.current), led.history, led.start, led.places);
    }
  }

  lemma NewestStaysTop(log: Log, led: Ledger, bank: Bank, i: nat) returns (j: nat)
    requires Inv(log, led) && i < |log.a| && led.places != [] && (bank != led.current || i != NewestIndex(led))
    ensures |led.Tags(bank)| == |led.Tags(led.current)| == |log.a| && IsTop(Forget(led, bank, i), led.current, j)
    ensures j < FirstErased(log.Sector(led.current), 0)
    ensures Forget(led, bank, i).Tags(led.current)[j] == |led.history| - 1
  {
    hide Inv;
    j := NewestIndex(led);
    TagsBelow(log, led);
    var led' := Forget(led, bank, i);
    forall x: Bank, y | 0 <= y < |log.a|
      ensures led'.Tags(x)[y] <= |led.history| - 1
    {
      assert led.Tags(x)[y] < |led.history|;
    }
  }

  /** A change of word k of record i to w. */
  predicate Changes(log: Log, bank: Bank, i: nat, k: nat, w: Word) {
    Paired(log) && i < |log.a| && k < RECORD_WORDS && w != log.Sector(bank)[i][k]
  }

  lemma ChangesIs(log: Log, bank: Bank, i: nat, k: nat, w: Word)
    requires Changes(log, bank, i, k, w)
    ensures Paired(log) && |log.Sector(bank)| == |log.a| && |log.Sector(bank)[i]| == RECORD_WORDS
    ensures i < |log.a| && k < RECORD_WORDS && w != log.Sector(bank)[i][k]
  {
  }

  /** Record i is what the scan finds. */
  predicate IsLatest(log: Log, bank: Bank, i: nat) {
    Paired(log) && FindLatest(log).Newest? && FindLatest(log).bank == bank && FindLatest(log).index == i
  }

  lemma LatestIs(log: Log, led: Ledger, bank: Bank, i: nat)
    requires Inv(log, led)
    ensures IsLatest(log, bank, i) <==> led.places != [] && bank == led.current && i == NewestIndex(led)
    ensures led.history != [] <==> led.places != []
    ensures led.history != [] ==> ReadControl(log) == led.history[|led.history| - 1]
    ensures |led.places| == |led.history| - led.start
  {
    FindLatestIsNewest(log, led);
  }

  lemma ValidIsTagged(log: Log, led: Ledger, bank: Bank, i: nat)
    requires Inv(log, led) && i < |log.a| && IsValid(log.Sector(bank)[i])
    ensures |led.Tags(bank)| == |log.a| && led.Tags(bank)[i] >= 0
    ensures led.history != []
  {
    assert bank == led.current || bank == led.current.Other();
  }

  /** Damage to a committed record other than the newest is not noticed: a read returns what it
      returned before. */
  lemma OldDamageUnseen(log: Log, led: Ledger, bank: Bank, i: nat, k: nat, w: Word)
    requires Changes(log, bank, i, k, w) && IsValid(log.Sector(bank)[i]) && !IsLatest(log, bank, i)
    requires Inv(log, led)
    ensures ReadControl(Damage(log, bank, i, k, w)) == ReadControl(log)
  {
    hide *;
    ChangesIs(log, bank, i, k, w);
    ValidIsTagged(log, led, bank, i);
    LatestIs(log, led, bank, i);
    InvScannable(log, led);
    var j := NewestStaysTop(log, led, bank, i);
    DamagedTop(log, led, led.start - |log.a|, bank, i, k, w, led.current, j, |led.history| - 1);
  }

  /** Some record in view holds the control committed just before record i. */
  ghost predicate PredecessorInView(log: Log, bank: Bank, i: nat)
    requires Paired(log) && i < |log.a|
  {
    exists x, j :: InView(log, x, j) && Precedes(log, x, j, bank, i)
  }

  lemma InViewIs(log: Log, x: Bank, i: nat)
    requires InView(log, x, i)
    ensures Paired(log) && |log.Sector(x)| == |log.a| && i < FirstErased(log.Sector(x), 0) <= |log.a|
    ensures IsValid(log.Sector(x)[i])
  {
  }

  lemma PrecedesHas(log: Log, x: Bank, i: nat, y: Bank, j: nat)
    requires Paired(log) && i < |log.a| && j < |log.a|
    ensures |log.Sector(x)[i]| == |log.Sector(y)[j]| == RECORD_WORDS
    ensures Precedes(log, x, i, y, j) <==> Add32(Sequence(log.Sector(x)[i]), 1) == Sequence(log.Sector(y)[j])
  {
  }

  lemma PredecessorPlace(log: Log, bank: Bank, i: nat) returns (x: Bank, j: nat)
    requires Paired(log) && i < |log.a| && PredecessorInView(log, bank, i)
    ensures InView(log, x, j) && j < |log.a| && Precedes(log, x, j, bank, i)
  {
    x, j :| InView(log, x, j) && Precedes(log, x, j, bank, i);
  }

  lemma PredecessorHas(log: Log, bank: Bank, i: nat)
    requires Paired(log) && i < |log.a|
    ensures forall x, j :: InView(log, x, j) && Precedes(log, x, j, bank, i) ==> PredecessorInView(log, bank, i)
  {
  }

  lemma PredecessorIs(log: Log, led: Ledger, x: Bank, j: nat)
    requires Inv(log, led) && led.history != [] && led.places != [] && NewestIndex(led) < |log.a| && InView(log, x, j)
    requires Precedes(log, x, j, led.current, NewestIndex(led))
    ensures |led.Tags(x)| == |log.a| && led.Tags(x)[j] == |led.history| - 2 >= 0
    ensures j < FirstErased(log.Sector(x), 0) && (x != led.current || j != NewestIndex(led))
  {
    hide Inv, Precedes, Sequence, ControlOf;
    NewestHeld(log, led);
    TagsBelow(log, led);
    PrecedesIs(log, led, x, j, led.current, NewestIndex(led));
    TagOf(log, led, x, j);
  }

  lemma SecondBecomesTop(log: Log, led: Ledger, x: Bank, j: nat)
    requires Inv(log, led) && led.places != [] && NewestIndex(led) < |log.a| && j < |log.a|
    requires |led.Tags(x)| == |led.Tags(led.current)| == |log.a|
    requires led.Tags(x)[j] == |led.history| - 2 >= 0 && (x != led.current || j != NewestIndex(led))
    ensures IsTop(Forget(led, led.current, NewestIndex(led)), x, j)
    ensures Forget(led, led.current, NewestIndex(led)).Tags(x)[j] == |led.history| - 2
  {
    hide Inv;
    TagsBelow(log, led);
    var led' := Forget(led, led.current, NewestIndex(led));
    forall b: Bank, y | 0 <= y < |log.a|
      ensures led'.Tags(b)[y] <= |led.history| - 2
    {
      if led.Tags(b)[y] == |led.history| - 1 {
        TopIsNewest(log, led, b, y);
      }
    }
  }

  /** What a damaged log's scan finds was there before the damage. */
  lemma FoundWasInView(log: Log, led: Ledger, lo: int, bank: Bank, i: nat, k: nat, w: Word)
    requires Scannable(log, led, lo) && i < |log.a| && led.Tags(bank)[i] >= 0
    requires k < RECORD_WORDS && w != log.Sector(bank)[i][k]
    requires FindLatest(Damage(log, bank, i, k, w)).Newest?
    ensures var r := FindLatest(Damage(log, bank, i, k, w));
            InView(log, r.bank, r.index) && r.record == log.Sector(r.bank)[r.index]
  {
    hide IsErased, Sequence, ControlOf, Scan, VisibleMax, FirstErased, FindLatest, Rising, Within;
    var log' := Damage(log, bank, i, k, w);
    DamageScannable(log, led, lo, bank, i, k, w);
    FindLatestIsTop(log', Forget(led, bank, i), lo);
    DamageInView(log, bank, i, k, w, FindLatest(log').bank);
  }

  lemma FoundIs(log: Log, led: Ledger, lo: int, x: Bank, j: nat)
    requires Scannable(log, led, lo) && IsTop(led, x, j) && j < FirstErased(log.Sector(x), 0)
    ensures var r := FindLatest(log);
            && r.Newest? && r.index < FirstErased(log.Sector(r.bank), 0) && r.index < |led.Tags(r.bank)|
            && led.Tags(r.bank)[r.index] == led.Tags(x)[j] >= 0
  {
    hide IsErased, IsValid, Sequence, ControlOf, Scan, VisibleMax, FirstErased, FindLatest, TopTag, Rising, Within;
    TopTagIs(log, led, x, j);
    FindLatestIsTop(log, led, lo);
  }

  lemma ForgetTag(led: Ledger, bank: Bank, i: nat, x: Bank, j: nat)
    requires i < |led.Tags(bank)| && j < |led.Tags(x)|
    ensures |Forget(led, bank, i).Tags(x)| == |led.Tags(x)|
    ensures Forget(led, bank, i).Tags(x)[j] == if x == bank && j == i then -1 else led.Tags(x)[j]
  {
  }

  lemma NewestTag(log: Log, led: Ledger)
    requires Inv(log, led) && led.places != []
    ensures NewestIndex(led) < |log.a| && |led.Tags(led.current)| == |log.a|
    ensures led.Tags(led.current)[NewestIndex(led)] >= 0 && IsValid(log.Sector(led.current)[NewestIndex(led)])
  {
    hide Inv, IsErased, ControlOf;
    TagsBelow(log, led);
    NewestHeld(log, led);
  }

  lemma TopIsFound(log: Log, led: Ledger, k: nat, w: Word, x: Bank, j: nat)
    requires Inv(log, led) && led.places != [] && NewestIndex(led) < |log.a|
    requires Changes(log, led.current, NewestIndex(led), k, w)
    requires InView(log, x, j) && |led.Tags(led.current)| == |led.Tags(x)| == |log.a|
    requires IsTop(Forget(led, led.current, NewestIndex(led)), x, j)
    ensures FindLatest(Damage(log, led.current, NewestIndex(led), k, w)) == Newest(x, j, log.Sector(x)[j])
  {
    hide *;
    var bank, i, lo := led.current, NewestIndex(led), led.start - |log.a|;
    ChangesIs(log, bank, i, k, w);
    var log', led' := Damage(log, bank, i, k, w), Forget(led, bank, i);
    TagsBelow(log, led);
    NewestTag(log, led);
    InViewIs(log, x, j);
    InvScannable(log, led);
    DamageScannable(log, led, lo, bank, i, k, w);
    DamageInView(log, bank, i, k, w, x);
    FoundIs(log', led', lo, x, j);
    var r := FindLatest(log');
    FoundWasInView(log, led, lo, bank, i, k, w);
    InViewIs(log, r.bank, r.index);
    ValidIsTagged(log, led, r.bank, r.index);
    ForgetTag(led, bank, i, x, j);
    ForgetTag(led, bank, i, r.bank, r.index);
    SequencesAreOrdered(log, led, r.bank, r.index, x, j);
  }

  lemma FallsBackTo(log: Log, led: Ledger, k: nat, w: Word, x: Bank, j: nat)
    requires Inv(log, led) && led.places != [] && NewestIndex(led) < |log.a|
    requires Changes(log, led.current, NewestIndex(led), k, w)
    requires InView(log, x, j) && Precedes(log, x, j, led.current, NewestIndex(led))
    ensures |led.history| >= 2
    ensures var log' := Damage(log, led.current, NewestIndex(led), k, w);
            && ReadControl(log') == led.history[|led.history| - 2]
            && FindLatest(log') == Newest(x, j, log.Sector(x)[j])
  {
    hide *;
    var bank, i, lo := led.current, NewestIndex(led), led.start - |log.a|;
    LatestIs(log, led, bank, i);
    ChangesIs(log, bank, i, k, w);
    InvScannable(log, led);
    TagsBelow(log, led);
    NewestTag(log, led);
    PredecessorIs(log, led, x, j);
    InViewIs(log, x, j);
    SecondBecomesTop(log, led, x, j);
    DamagedTop(log, led, lo, bank, i, k, w, x, j, |led.history| - 2);
    TopIsFound(log, led, k, w, x, j);
  }

  /** Damage to the newest record makes the scan find the record committed just before it, and a read
      return that control, if and only if that record is still in view. */
  lemma NewDamageFallsBack(log: Log, led: Ledger, bank: Bank, i: nat, k: nat, w: Word)
    requires Changes(log, bank, i, k, w) && IsLatest(log, bank, i)
    requires Inv(log, led)
    ensures PredecessorInView(log, bank, i) ==>
              |led.history| >= 2 && ReadControl(Damage(log, bank, i, k, w)) == led.history[|led.history| - 2]
    ensures var r := FindLatest(Damage(log, bank, i, k, w));
            PredecessorInView(log, bank, i)
            <==> r.Newest? && Add32(Sequence(r.record), 1) == Sequence(log.Sector(bank)[i])
  {
    hide *;
    LatestIs(log, led, bank, i);
    ChangesIs(log, bank, i, k, w);
    PredecessorHas(log, bank, i);
    if PredecessorInView(log, bank, i) {
      var x, j := PredecessorPlace(log, bank, i);
      FallsBackTo(log, led, k, w, x, j);
      PrecedesHas(log, x, j, bank, i);
    }
    if FindLatest(Damage(log, bank, i, k, w)).Newest? {
      InvScannable(log, led);
      TagsBelow(log, led);
      FoundWasInView(log, led, led.start - |log.a|, bank, i, k, w);
      var r := FindLatest(Damage(log, bank, i, k, w));
      InViewIs(log, r.bank, r.index);
      PrecedesHas(log, r.bank, r.index, bank, i);
    }
  }
}
