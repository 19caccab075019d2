/** Why the log behaves as one atomic cell: a ledger of everything ever committed, where each
    valid record's place in that history is kept beside it, and an invariant that every
    append keeps under every fault. History numbers are unbounded; the flash holds them
    modulo 2^32. */
module LogHistory {
  import opened Words
  import opened Faults
  import opened ControlLog

  /** history: every control committed so far, oldest first.
      current: the sector that takes the next record.
      tags: for each record the number of its control in history, or -1 if it is not valid.
      start: the history number at which the current sector was erased.
      places: where controls start, start + 1, ... are in the current sector.
      previous: where the controls before start were written in the other sector.
      intact: the other sector has not been erased, or half erased, since then. */
  datatype Ledger = Ledger(history: seq<seq<Word>>, current: Bank, tagsA: seq<int>, tagsB: seq<int>,
                           start: nat, places: seq<nat>, previous: seq<nat>, intact: bool)
  {
    function Tags(bank: Bank): seq<int> { if bank == BankA then tagsA else tagsB }

    function WithTags(bank: Bank, tags: seq<int>): Ledger {
      if bank == BankA then this.(tagsA := tags) else this.(tagsB := tags)
    }
  }

  /** The content of the atomic cell: the last committed control, all ones before the first. */
  function Cell(history: seq<seq<Word>>): seq<Word> {
    if history == [] then seq(CONTROL_WORDS, _ => ALL_ONES) else history[|history| - 1]
  }

  // ----- the commit word

  /** Every bit of the commit constant is still set. */
  predicate Covers(w: Word) { w & RECORD_COMMIT == RECORD_COMMIT }

  lemma ErasedCovers()
    ensures Covers(ALL_ONES) && ALL_ONES != RECORD_COMMIT
  {
  }

  lemma ProgramErased(w: Word)
    ensures ALL_ONES & w == w
  {
  }

  lemma TornCommitCovers(tear: Word)
    ensures Covers(ALL_ONES & (RECORD_COMMIT | tear))
  {
  }

  /** An erase only adds bits, so a commit word with extra bits never becomes the constant. */
  lemma ErasedCommitCovers(w: Word, tear: Word)
    requires Covers(w)
    ensures Covers(w | tear)
    ensures w != RECORD_COMMIT ==> w | tear != RECORD_COMMIT
  {
  }

  // ----- the invariant

  predicate Tagged(s: Sector, tags: seq<int>, history: seq<seq<Word>>)
    requires Shaped(s)
  {
    && |tags| == |s|
    && (forall i :: 0 <= i < |s| ==> tags[i] < |history|)
    && (forall i :: 0 <= i < |s| ==> (tags[i] >= 0 <==> IsValid(s[i])))
    && (forall i :: 0 <= i < |s| && tags[i] >= 0 ==> Sequence(s[i]) == tags[i] % TWO_32)
    && (forall i :: 0 <= i < |s| && tags[i] >= 0 ==> ControlOf(s[i]) == history[tags[i]])
  }

  /** No commit word has lost a bit of the commit constant. */
  predicate Covered(s: Sector)
    requires Shaped(s)
  {
    forall i :: 0 <= i < |s| ==> Covers(s[i][15])
  }

  /** Append order is address order. */
  predicate Rising(tags: seq<int>) {
    forall i, j :: 0 <= i < j < |tags| && tags[i] >= 0 && tags[j] >= 0 ==> tags[i] < tags[j]
  }

  predicate Within(tags: seq<int>, lo: int, hi: int) {
    forall i :: 0 <= i < |tags| && tags[i] >= 0 ==> lo <= tags[i] < hi
  }

  predicate LogShape(log: Log) {
    Paired(log) && 2 * |log.a| < 0x8000_0000
  }

  predicate Ordered(s: Sector, tags: seq<int>, history: seq<seq<Word>>)
    requires Shaped(s)
  {
    Tagged(s, tags, history) && Rising(tags)
  }

  predicate Placed(tags: seq<int>, start: nat, places: seq<nat>) {
    && (forall k :: 0 <= k < |places| ==> places[k] < |tags| && tags[places[k]] == start + k)
    && (forall i :: 0 <= i < |tags| && tags[i] >= 0 ==> tags[i] <= start + i)
  }

  /** Nothing valid lies at or behind the first erased record. */
  predicate Visible(s: Sector, tags: seq<int>)
    requires |tags| == |s|
  {
    forall i :: FirstErased(s, 0) <= i < |tags| ==> tags[i] < 0
  }

  /** The current sector holds every control from number start on, all of them in view. */
  predicate CurrentOk(s: Sector, tags: seq<int>, history: seq<seq<Word>>, start: nat, places: seq<nat>)
    requires Shaped(s)
  {
    && Ordered(s, tags, history)
    && Covered(s)
    && |places| == |history| - start
    && Within(tags, start, |history|)
    && Placed(tags, start, places)
    && Visible(s, tags)
  }

  /** The other sector holds nothing but controls just before number start. */
  predicate OtherOk(s: Sector, tags: seq<int>, history: seq<seq<Word>>, start: nat)
    requires Shaped(s)
  {
    Ordered(s, tags, history) && Covered(s) && Within(tags, start - |s|, start)
  }

  /** The other sector holds exactly the controls of the run before number start, all of them in view. */
  predicate PreviousOk(s: Sector, tags: seq<int>, start: nat, previous: seq<nat>)
    requires |tags| == |s|
  {
    && |previous| <= start
    && (start > 0 ==> previous != [])
    && Within(tags, start - |previous|, start)
    && Placed(tags, start - |previous|, previous)
    && Visible(s, tags)
  }

  /** As long as the current sector has room the other one is intact. */
  predicate Backed(log: Log, led: Ledger)
    requires Paired(log) && |led.Tags(led.current.Other())| == |log.a|
  {
    && (led.intact ==>
          PreviousOk(log.Sector(led.current.Other()), led.Tags(led.current.Other()), led.start, led.previous))
    && (FirstErased(log.Sector(led.current), 0) < |log.a| || led.history == [] ==> led.intact)
  }

  predicate Inv(log: Log, led: Ledger) {
    && LogShape(log)
    && led.start <= |led.history|
    && CurrentOk(log.Sector(led.current), led.Tags(led.current), led.history, led.start, led.places)
    && OtherOk(log.Sector(led.current.Other()), led.Tags(led.current.Other()), led.history, led.start)
    && (led.history == [] ==> led.current == BankA)
    && (led.history != [] ==> led.start < |led.history|)
    && Backed(log, led)
  }

  /** The record that holds the newest control. */
  function NewestIndex(led: Ledger): nat
    requires led.places != []
  {
    led.places[|led.places| - 1]
  }

  // ----- the scan finds the newest record

  /** The signed difference of sequence numbers decides the order of history numbers that are
      less than 2^31 apart, however often the numbers have wrapped. */
  lemma NewerIsLater(g: int, h: int)
    requires 0 <= g && 0 <= h && -0x8000_0000 < g - h < 0x8000_0000
    ensures SequenceIsNewer(g % TWO_32, h % TWO_32) <==> g > h
  {
    var d := (g % TWO_32 - h % TWO_32) % TWO_32;
    assert d == (g - h) % TWO_32;
  }

  /** The highest tag among those the scan reaches from record i on, or m. */
  function VisibleMax(s: Sector, tags: seq<int>, i: nat, m: int): int
    requires |tags| == |s| && i <= |s|
    decreases |s| - i
  {
    if i == |s| || IsErased(s[i]) then m
    else VisibleMax(s, tags, i + 1, if tags[i] > m then tags[i] else m)
  }

  predicate Describes(best: Latest, tag: int, history: seq<seq<Word>>) {
    && (best.Nothing? <==> tag < 0)
    && (best.Newest? ==>
          |best.record| == RECORD_WORDS && tag < |history| &&
          Sequence(best.record) == tag % TWO_32 && ControlOf(best.record) == history[tag])
  }

  /** The scan of one sector returns the reachable record with the highest tag. */
  lemma {:induction false} ScanIsMax(s: Sector, tags: seq<int>, history: seq<seq<Word>>, bank: Bank, i: nat,
                                     best: Latest, m: int, lo: int)
    requires Shaped(s) && Tagged(s, tags, history) && i <= |s|
    requires Describes(best, m, history) && m >= -1
    requires Within(tags, lo, lo + 0x8000_0000) && (m >= 0 ==> lo <= m < lo + 0x8000_0000)
    ensures var r, top := Scan(s, bank, i, best), VisibleMax(s, tags, i, m);
            Describes(r, top, history) && top >= m &&
            ((r == best && top == m) ||
             (r.Newest? && r.bank == bank && i <= r.index < FirstErased(s, i) &&
              tags[r.index] == top && top > m && r.record == s[r.index]))
    decreases |s| - i
  {
    hide IsErased, IsValid, Sequence, ControlOf, SequenceIsNewer;
    if i < |s| && !IsErased(s[i]) {
      if tags[i] >= 0 && m >= 0 {
        NewerIsLater(tags[i], m);
      }
      var next := if Better(s[i], best) then Newest(bank, i, s[i]) else best;
      ScanIsMax(s, tags, history, bank, i + 1, next, if tags[i] > m then tags[i] else m, lo);
    }
  }

  lemma {:induction false} VisibleMaxBounds(s: Sector, tags: seq<int>, i: nat, m: int)
    requires |tags| == |s| && i <= |s|
    ensures VisibleMax(s, tags, i, m) >= m
    ensures forall k :: i <= k < FirstErased(s, i) ==> tags[k] <= VisibleMax(s, tags, i, m)
    decreases |s| - i
  {
    if i < |s| && !IsErased(s[i]) {
      VisibleMaxBounds(s, tags, i + 1, if tags[i] > m then tags[i] else m);
    }
  }

  lemma {:induction false} VisibleMaxReached(s: Sector, tags: seq<int>, i: nat, m: int)
    requires |tags| == |s| && i <= |s|
    ensures var top := VisibleMax(s, tags, i, m); top == m || exists k :: i <= k < |s| && tags[k] == top
    decreases |s| - i
  {
    if i < |s| && !IsErased(s[i]) {
      VisibleMaxReached(s, tags, i + 1, if tags[i] > m then tags[i] else m);
    }
  }

  /** The highest tag anywhere the two-sector scan reaches. */
  function TopTag(log: Log, led: Ledger): int
    requires |led.tagsA| == |log.a| && |led.tagsB| == |log.b|
  {
    VisibleMax(log.b, led.tagsB, 0, VisibleMax(log.a, led.tagsA, 0, -1))
  }

  /** find_latest_control_record returns the reachable record with the highest history number,
      whatever subset of the records survives, as long as they span less than 2^31. */
  lemma FindLatestIsTop(log: Log, led: Ledger, lo: int)
    requires LogShape(log) && Ordered(log.a, led.tagsA, led.history) && Ordered(log.b, led.tagsB, led.history)
    requires Within(led.tagsA, lo, lo + 0x8000_0000) && Within(led.tagsB, lo, lo + 0x8000_0000)
    ensures Describes(FindLatest(log), TopTag(log, led), led.history)
    ensures var r := FindLatest(log);
            r.Newest? ==>
              && r.index < FirstErased(log.Sector(r.bank), 0)
              && led.Tags(r.bank)[r.index] == TopTag(log, led)
              && r.record == log.Sector(r.bank)[r.index]
  {
    var topA := VisibleMax(log.a, led.tagsA, 0, -1);
    ScanIsMax(log.a, led.tagsA, led.history, BankA, 0, Nothing, -1, lo);
    VisibleMaxBounds(log.a, led.tagsA, 0, -1);
    ScanIsMax(log.b, led.tagsB, led.history, BankB, 0, Scan(log.a, BankA, 0, Nothing), topA, lo);
  }

  /** The current sector has room for what was committed since it was erased, so all valid
      records lie in a window of twice the capacity. */
  lemma WindowBound(s: Sector, tags: seq<int>, history: seq<seq<Word>>, start: nat, places: seq<nat>)
    requires Shaped(s) && CurrentOk(s, tags, history, start, places)
    ensures |history| - start <= |s|
    ensures Within(tags, start, start + |s|)
  {
    if places != [] {
      assert tags[places[|places| - 1]] == |history| - 1;
    }
  }

  lemma NewestInView(s: Sector, tags: seq<int>, history: seq<seq<Word>>, start: nat, places: seq<nat>)
    requires Shaped(s) && CurrentOk(s, tags, history, start, places) && places != []
    ensures var j := places[|places| - 1];
            && j < FirstErased(s, 0) && tags[j] == |history| - 1
            && (forall i :: 0 <= i < |s| && tags[i] == |history| - 1 ==> i == j)
  {
    assert tags[places[|places| - 1]] == |history| - 1;
  }

  lemma TopTagIs(log: Log, led: Ledger, bank: Bank, j: nat)
    requires |led.tagsA| == |log.a| && |led.tagsB| == |log.b|
    requires j < FirstErased(log.Sector(bank), 0) && led.Tags(bank)[j] >= 0
    requires forall x: Bank, y :: 0 <= y < |led.Tags(x)| ==> led.Tags(x)[y] <= led.Tags(bank)[j]
    ensures TopTag(log, led) == led.Tags(bank)[j]
  {
    VisibleMaxBounds(log.a, led.tagsA, 0, -1);
    VisibleMaxBounds(log.b, led.tagsB, 0, VisibleMax(log.a, led.tagsA, 0, -1));
    VisibleMaxReached(log.a, led.tagsA, 0, -1);
    VisibleMaxReached(log.b, led.tagsB, 0, VisibleMax(log.a, led.tagsA, 0, -1));
    assert led.Tags(BankA) == led.tagsA && led.Tags(BankB) == led.tagsB;
  }

  lemma NewestIsTop(log: Log, led: Ledger)
    requires Inv(log, led)
    ensures TopTag(log, led) == |led.history| - 1
  {
    hide Backed, IsErased, IsValid, Sequence, ControlOf, Covered, FirstErased, VisibleMax;
    VisibleMaxBounds(log.a, led.tagsA, 0, -1);
    VisibleMaxBounds(log.b, led.tagsB, 0, VisibleMax(log.a, led.tagsA, 0, -1));
    VisibleMaxReached(log.a, led.tagsA, 0, -1);
    VisibleMaxReached(log.b, led.tagsB, 0, VisibleMax(log.a, led.tagsA, 0, -1));
    if led.history != [] {
      NewestInView(log.Sector(led.current), led.Tags(led.current), led.history, led.start, led.places);
    }
  }

  /** Every valid record is within 2^31 history numbers of every other. */
  lemma AllInWindow(log: Log, led: Ledger)
    requires Inv(log, led)
    ensures Within(led.tagsA, led.start - |log.a|, led.start + |log.a|)
    ensures Within(led.tagsB, led.start - |log.a|, led.start + |log.a|)
  {
    WindowBound(log.Sector(led.current), led.Tags(led.current), led.history, led.start, led.places);
  }

  lemma TopIsNewest(log: Log, led: Ledger, bank: Bank, i: nat)
    requires Inv(log, led) && led.history != [] && i < |log.Sector(bank)|
    requires led.Tags(bank)[i] == |led.history| - 1
    ensures bank == led.current && i == NewestIndex(led)
  {
    NewestInView(log.Sector(led.current), led.Tags(led.current), led.history, led.start, led.places);
    assert bank == led.current || bank == led.current.Other();
  }

  /** find_latest_control_record returns the last committed record. */
  lemma FindLatestIsNewest(log: Log, led: Ledger)
    requires Inv(log, led)
    ensures led.history == [] ==> FindLatest(log) == Nothing
    ensures led.history != [] ==>
              && FindLatest(log) == Newest(led.current, NewestIndex(led), log.Sector(led.current)[NewestIndex(led)])
              && Sequence(log.Sector(led.current)[NewestIndex(led)]) == (|led.history| - 1) % TWO_32
    ensures ReadControl(log) == Cell(led.history)
  {
    AllInWindow(log, led);
    FindLatestIsTop(log, led, led.start - |log.a|);
    NewestIsTop(log, led);
    var r := FindLatest(log);
    if led.history != [] {
      TopIsNewest(log, led, r.bank, r.index);
    }
  }

  // ----- what one append does to one record

  lemma NewRecordIsValid(sequence: u32, control: seq<Word>)
    requires |control| == CONTROL_WORDS
    ensures var r := NewRecord(sequence, control);
            IsValid(r) && Sequence(r) == sequence && ControlOf(r) == control && r[15] == RECORD_COMMIT
  {
    var r := NewRecord(sequence, control);
    assert r[1..14] == [ToWord(sequence)] + control;
    UIntToWord(sequence);
  }

  lemma ProgramErasedWords(cells: seq<Word>, data: seq<Word>, f: Fault, first: nat)
    requires |cells| == |data| && forall k :: 0 <= k < |cells| ==> cells[k] == ALL_ONES
    requires f.Fail? ==> first <= f.at
    ensures !StrikesIn(f, first, |data|) ==> ProgramWords(cells, data, f, first) == data
  {
    forall k | 0 <= k < |data|
      ensures !StrikesIn(f, first, |data|) ==> ProgramWords(cells, data, f, first)[k] == data[k]
    {
      ProgramErased(data[k]);
    }
  }

  /** A torn commit word still covers the constant, and without a fault it is the constant. */
  lemma CommitCovers(f: Fault, op: nat)
    ensures Covers(ProgramWord(ALL_ONES, RECORD_COMMIT, f, op))
    ensures (f.Fail? ==> op < f.at) ==> ProgramWord(ALL_ONES, RECORD_COMMIT, f, op) == RECORD_COMMIT
  {
    ErasedCovers();
    ProgramErased(RECORD_COMMIT);
    if Strikes(f, op) {
      TornCommitCovers(f.tear(op));
    }
  }

  /** Programming an erased record leaves it uncommitted or leaves exactly the new record. */
  lemma WriteErased(r: Record, data: Record, f: Fault, first: nat)
    requires |r| == |data| == RECORD_WORDS && IsErased(r) && IsValid(data)
    requires f.Fail? ==> first <= f.at
    ensures var (r', ok) := WriteRecord(r, data, f, first);
            && (r' == data || (Covers(r'[15]) && r'[15] != RECORD_COMMIT))
            && (ok ==> r' == data)
            && (!StrikesIn(f, first, RECORD_WORDS) ==> ok)
  {
    hide ProgramWord, Covers;
    ErasedCovers();
    ProgramErasedWords(r[..15], data[..15], f, first);
    CommitCovers(f, first + 15);
    var commit := ProgramWords(r[15..], data[15..], f, first + 15);
    assert commit == [ProgramWord(ALL_ONES, RECORD_COMMIT, f, first + 15)];
    assert data[15..] == [RECORD_COMMIT];
    assert data[..15] + data[15..] == data;
  }

  lemma {:induction false} FirstErasedAfterWrite(s: Sector, i: nat, r: Record)
    requires i <= |s|
    ensures var f := FirstErased(s, i); f < |s| ==> FirstErased(s[f := r], i) >= f
    decreases |s| - i
  {
    if i < |s| && !IsErased(s[i]) {
      FirstErasedAfterWrite(s, i + 1, r);
    }
  }

  // ----- the steps an append is made of

  lemma AppendTagged(s: Sector, tags: seq<int>, history: seq<seq<Word>>, at: nat, r: Record)
    requires Shaped(s) && Tagged(s, tags, history) && at < |s|
    requires |r| == RECORD_WORDS && IsValid(r) && Sequence(r) == |history| % TWO_32
    ensures Shaped(s[at := r]) && Tagged(s[at := r], tags[at := |history|], history + [ControlOf(r)])
  {
  }

  lemma AppendPlaced(tags: seq<int>, n: nat, start: nat, places: seq<nat>, at: nat)
    requires Placed(tags, start, places) && |places| == n - start && at < |tags| && tags[at] < 0
    requires places != [] ==> places[|places| - 1] < at
    ensures Placed(tags[at := n], start, places + [at])
  {
    if places != [] {
      assert tags[places[|places| - 1]] == n - 1;
    }
  }

  lemma CommitInSector(s: Sector, tags: seq<int>, history: seq<seq<Word>>, start: nat, places: seq<nat>,
                       at: nat, r: Record)
    requires Shaped(s) && CurrentOk(s, tags, history, start, places) && at == FirstErased(s, 0) < |s|
    requires |r| == RECORD_WORDS && IsValid(r) && Covers(r[15])
    requires Sequence(r) == |history| % TWO_32 && start <= |history|
    ensures Shaped(s[at := r])
    ensures CurrentOk(s[at := r], tags[at := |history|], history + [ControlOf(r)], start, places + [at])
  {
    FirstErasedAfterWrite(s, 0, r);
    if places != [] {
      NewestInView(s, tags, history, start, places);
    }
    assert tags[at] < 0;
    AppendTagged(s, tags, history, at, r);
    AppendPlaced(tags, |history|, start, places, at);
  }

  lemma DirtyInSector(s: Sector, tags: seq<int>, history: seq<seq<Word>>, start: nat, places: seq<nat>,
                      at: nat, r: Record)
    requires Shaped(s) && CurrentOk(s, tags, history, start, places) && at == FirstErased(s, 0) < |s|
    requires |r| == RECORD_WORDS && !IsValid(r) && Covers(r[15])
    ensures Shaped(s[at := r])
    ensures CurrentOk(s[at := r], tags, history, start, places)
  {
    FirstErasedAfterWrite(s, 0, r);
    assert tags[at] < 0;
  }

  lemma HistoryGrows(s: Sector, tags: seq<int>, history: seq<seq<Word>>, start: nat, control: seq<Word>)
    requires Shaped(s) && OtherOk(s, tags, history, start)
    ensures OtherOk(s, tags, history + [control], start)
  {
  }

  function CommitHere(led: Ledger, at: nat, control: seq<Word>): Ledger
    requires at < |led.Tags(led.current)|
  {
    led.WithTags(led.current, led.Tags(led.current)[at := |led.history|])
       .(history := led.history + [control], places := led.places + [at])
  }

  lemma CommitHereKeeps(log: Log, led: Ledger, at: nat, r: Record)
    requires Inv(log, led) && at == FirstErased(log.Sector(led.current), 0) < |log.a|
    requires |r| == RECORD_WORDS && IsValid(r) && Covers(r[15]) && Sequence(r) == |led.history| % TWO_32
    ensures Inv(log.With(led.current, log.Sector(led.current)[at := r]), CommitHere(led, at, ControlOf(r)))
  {
    CommitInSector(log.Sector(led.current), led.Tags(led.current), led.history, led.start, led.places, at, r);
    HistoryGrows(log.Sector(led.current.Other()), led.Tags(led.current.Other()), led.history, led.start, ControlOf(r));
  }

  lemma DirtyHereKeeps(log: Log, led: Ledger, at: nat, r: Record)
    requires Inv(log, led) && at == FirstErased(log.Sector(led.current), 0) < |log.a|
    requires |r| == RECORD_WORDS && !IsValid(r) && Covers(r[15])
    ensures Inv(log.With(led.current, log.Sector(led.current)[at := r]), led)
  {
    DirtyInSector(log.Sector(led.current), led.Tags(led.current), led.history, led.start, led.places, at, r);
  }

  // ----- erasing

  /** What the model takes from the CRC: an interrupted erase does not turn a committed record
      into a different record that still passes every check. */
  predicate Unforged(s: Sector, f: Fault)
    requires Shaped(s)
  {
    Strikes(f, 0) ==>
      forall i :: 0 <= i < |s| && s[i][15] == RECORD_COMMIT && TearErase(s, f)[i] != s[i] ==>
        !IsValid(TearErase(s, f)[i])
  }

  /** The same, asked only of an append that erases a sector, and only of that sector. */
  predicate Honest(log: Log, f: Fault)
    requires Paired(log)
  {
    var t := ChooseTarget(log);
    t.erase ==> Unforged(log.Sector(t.bank), f)
  }

  function Surviving(s: Sector, tags: seq<int>): (r: seq<int>)
    requires Shaped(s) && |s| == |tags|
    ensures |r| == |tags|
  {
    seq(|tags|, i requires 0 <= i < |tags| => if IsValid(s[i]) then tags[i] else -1)
  }

  lemma TornRecord(s: Sector, f: Fault, i: nat)
    requires Shaped(s) && Strikes(f, 0) && Unforged(s, f) && i < |s| && Covers(s[i][15])
    ensures Covers(TearErase(s, f)[i][15])
    ensures IsValid(TearErase(s, f)[i]) ==> TearErase(s, f)[i] == s[i]
  {
    ErasedCommitCovers(s[i][15], f.tear(RECORD_WORDS * i + 15));
  }

  lemma BlankRecord()
    ensures IsErased(Blank()) && !IsValid(Blank()) && Covers(Blank()[15])
  {
    ErasedCovers();
  }

  lemma EraseOrdered(s: Sector, tags: seq<int>, history: seq<seq<Word>>, f: Fault)
    requires Shaped(s) && Ordered(s, tags, history) && Covered(s) && Unforged(s, f)
    ensures Covered(EraseSector(s, f))
    ensures Ordered(EraseSector(s, f), Surviving(EraseSector(s, f), tags), history)
  {
    var s' := EraseSector(s, f);
    forall i | 0 <= i < |s|
      ensures Covers(s'[i][15])
      ensures IsValid(s'[i]) ==> s'[i] == s[i]
    {
      if Strikes(f, 0) {
        TornRecord(s, f, i);
      } else {
        BlankRecord();
      }
    }
  }

  lemma EraseOther(s: Sector, tags: seq<int>, history: seq<seq<Word>>, start: nat, f: Fault)
    requires Shaped(s) && OtherOk(s, tags, history, start) && Unforged(s, f)
    ensures |tags| == |s| && OtherOk(EraseSector(s, f), Surviving(EraseSector(s, f), tags), history, start)
  {
    hide IsValid, Covers, Unforged;
    EraseOrdered(s, tags, history, f);
  }

  lemma EraseOtherKeeps(log: Log, led: Ledger, f: Fault)
    requires Inv(log, led) && led.history != [] && Unforged(log.Sector(led.current.Other()), f)
    requires FirstErased(log.Sector(led.current), 0) == |log.a|
    ensures var o := led.current.Other(); var s := EraseSector(log.Sector(o), f);
            Inv(log.With(o, s), led.WithTags(o, Surviving(s, led.Tags(o))).(intact := false))
  {
    hide CurrentOk, OtherOk, PreviousOk, FirstErased, EraseSector, Surviving, Unforged;
    var o := led.current.Other();
    EraseOther(log.Sector(o), led.Tags(o), led.history, led.start, f);
  }

  /** Before the first commit the log erases its own sector, which holds nothing. */
  lemma EraseFirstKeeps(log: Log, led: Ledger, f: Fault)
    requires Inv(log, led) && led.history == [] && Unforged(log.a, f)
    ensures var s := EraseSector(log.a, f); Inv(log.With(BankA, s), led.WithTags(BankA, Surviving(s, led.tagsA)))
  {
    EraseOrdered(log.a, led.tagsA, led.history, f);
  }

  function Settled(n: nat, tag: nat): (tags: seq<int>)
    requires n > 0
    ensures |tags| == n
  {
    seq(n, i => if i == 0 then tag else -1)
  }

  lemma FirstErasedOfBlank(n: nat)
    ensures n > 0 ==> FirstErased(BlankSector(n), 0) == 0
  {
  }

  /** The ledger after the first record of a freshly erased sector is committed. */
  function CommitSwitch(led: Ledger, control: seq<Word>): Ledger
    requires |led.tagsA| == |led.tagsB| > 0 && led.places != []
  {
    var o := led.current.Other();
    led.WithTags(o, Settled(|led.tagsA|, |led.history|))
       .(history := led.history + [control], current := o, start := |led.history|, places := [0],
         previous := led.places, intact := true)
  }

  lemma SettledSector(n: nat, history: seq<seq<Word>>, r: Record)
    requires n > 0 && |r| == RECORD_WORDS && IsValid(r) && Covers(r[15]) && Sequence(r) == |history| % TWO_32
    ensures Shaped(BlankSector(n)[0 := r])
    ensures CurrentOk(BlankSector(n)[0 := r], Settled(n, |history|), history + [ControlOf(r)], |history|, [0])
  {
    BlankRecord();
    var s := BlankSector(n)[0 := r];
    assert !IsErased(r);
    assert FirstErased(s, 0) >= 1;
  }

  /** The run of the current sector, once the other sector takes over. */
  lemma BecomesPrevious(s: Sector, tags: seq<int>, history: seq<seq<Word>>, start: nat, places: seq<nat>,
                        control: seq<Word>)
    requires Shaped(s) && CurrentOk(s, tags, history, start, places) && places != [] && start <= |history|
    ensures |tags| == |s| && PreviousOk(s, tags, |history|, places)
    ensures OtherOk(s, tags, history + [control], |history|)
  {
    hide IsValid, Covers, FirstErased, IsErased;
    WindowBound(s, tags, history, start, places);
    assert OtherOk(s, tags, history, |history|);
    HistoryGrows(s, tags, history, |history|, control);
  }

  lemma PlacesNotEmpty(s: Sector, tags: seq<int>, history: seq<seq<Word>>, start: nat, places: seq<nat>)
    requires Shaped(s) && CurrentOk(s, tags, history, start, places) && start < |history|
    ensures places != [] && |tags| == |s|
  {
    hide IsValid, Covers, Sequence, ControlOf, FirstErased, IsErased;
  }

  lemma TagsForAll(s: Sector, tags: seq<int>, history: seq<seq<Word>>, start: nat)
    requires Shaped(s) && OtherOk(s, tags, history, start)
    ensures |tags| == |s|
  {
    hide IsValid, Covers, Sequence, ControlOf;
  }

  lemma CommitSwitchKeeps(log: Log, led: Ledger, r: Record)
    requires Inv(log, led) && log.Sector(led.current.Other()) == BlankSector(|log.a|)
    requires led.history != []
    requires |r| == RECORD_WORDS && IsValid(r) && Covers(r[15]) && Sequence(r) == |led.history| % TWO_32
    ensures var o := led.current.Other();
            Inv(log.With(o, log.Sector(o)[0 := r]), CommitSwitch(led, ControlOf(r)))
  {
    hide CurrentOk, OtherOk, PreviousOk, FirstErased, IsValid, Covers, Sequence, ControlOf, Settled;
    var s, tags := log.Sector(led.current), led.Tags(led.current);
    SettledSector(|log.a|, led.history, r);
    PlacesNotEmpty(s, tags, led.history, led.start, led.places);
    TagsForAll(log.Sector(led.current.Other()), led.Tags(led.current.Other()), led.history, led.start);
    BecomesPrevious(s, tags, led.history, led.start, led.places, ControlOf(r));
  }

  lemma DirtyBlank(n: nat, tags: seq<int>, history: seq<seq<Word>>, start: nat, r: Record)
    requires n > 0 && OtherOk(BlankSector(n), tags, history, start)
    requires |r| == RECORD_WORDS && !IsValid(r) && Covers(r[15])
    ensures Shaped(BlankSector(n)[0 := r]) && OtherOk(BlankSector(n)[0 := r], tags, history, start)
  {
    hide Covers, IsValid;
    BlankRecord();
  }

  lemma DirtySwitchKeeps(log: Log, led: Ledger, r: Record)
    requires Inv(log, led) && log.Sector(led.current.Other()) == BlankSector(|log.a|)
    requires FirstErased(log.Sector(led.current), 0) == |log.a| && !led.intact
    requires |r| == RECORD_WORDS && !IsValid(r) && Covers(r[15])
    ensures var o := led.current.Other(); Inv(log.With(o, log.Sector(o)[0 := r]), led)
  {
    hide OtherOk, CurrentOk, FirstErased, Covers, IsValid;
    DirtyBlank(|log.a|, led.Tags(led.current.Other()), led.history, led.start, r);
  }

  // ----- the append

  lemma NextSequence(n: nat)
    requires n > 0
    ensures Add32((n - 1) % TWO_32, 1) == n % TWO_32
  {
  }

  lemma TargetForIs(log: Log, latest: Latest, current: Bank, n: nat)
    requires LogShape(log)
    requires n == 0 ==> latest == Nothing && current == BankA
    requires n > 0 ==> latest.Newest? && latest.bank == current && |latest.record| == RECORD_WORDS
    requires n > 0 ==> Sequence(latest.record) == (n - 1) % TWO_32
    ensures var free := FirstErased(log.Sector(current), 0);
            TargetFor(log, latest) ==
            if free < |log.a| then Target(current, free, false, n % TWO_32)
            else Target(if n == 0 then BankA else current.Other(), 0, true, n % TWO_32)
  {
    if n > 0 {
      NextSequence(n);
    }
  }

  /** Where an append goes, in terms of the ledger. */
  lemma ChooseTargetIs(log: Log, led: Ledger)
    requires Inv(log, led)
    ensures var free := FirstErased(log.Sector(led.current), 0);
            ChooseTarget(log) ==
            if free < |log.a| then Target(led.current, free, false, |led.history| % TWO_32)
            else Target(if led.history == [] then BankA else led.current.Other(), 0, true, |led.history| % TWO_32)
  {
    hide CurrentOk, OtherOk, Backed, FirstErased, FindLatest, TargetFor, ReadControl, Sequence;
    FindLatestIsNewest(log, led);
    TargetForIs(log, FindLatest(log), led.current, |led.history|);
  }

  lemma NewData(log: Log, led: Ledger, control: seq<Word>) returns (data: Record)
    requires Inv(log, led) && |control| == CONTROL_WORDS
    ensures |data| == RECORD_WORDS && data == NewRecord(ChooseTarget(log).sequence, control)
    ensures IsValid(data) && Covers(data[15]) && Sequence(data) == |led.history| % TWO_32
    ensures ControlOf(data) == control
  {
    ChooseTargetIs(log, led);
    data := NewRecord(ChooseTarget(log).sequence, control);
    NewRecordIsValid(ChooseTarget(log).sequence, control);
  }

  /** What an append may leave: nothing new, or exactly the new control at the end of history. */
  predicate AtomicStep(led: Ledger, led': Ledger, control: seq<Word>, ok: bool) {
    led'.history == led.history + [control] ||
    (!ok && led'.history == led.history && led'.current == led.current)
  }

  lemma CurrentTags(s: Sector, tags: seq<int>, history: seq<seq<Word>>, start: nat, places: seq<nat>)
    requires Shaped(s) && CurrentOk(s, tags, history, start, places)
    ensures |tags| == |s|
  {
    hide IsValid, Covers, Sequence, ControlOf, FirstErased;
  }

  /** An append into the current sector. */
  lemma AppendHereKeeps(log: Log, led: Ledger, control: seq<Word>, f: Fault) returns (led': Ledger)
    requires Inv(log, led) && |control| == CONTROL_WORDS && !ChooseTarget(log).erase
    ensures Inv(Append(log, control, f).0, led')
    ensures AtomicStep(led, led', control, Append(log, control, f).1)
    ensures f.Fine? ==> Append(log, control, f).1
    ensures led'.intact
  {
    hide CurrentOk, OtherOk, FirstErased, WriteRecord, Covers, ControlOf, Sequence, NewRecord, ChooseTarget;
    CurrentTags(log.Sector(led.current), led.Tags(led.current), led.history, led.start, led.places);
    ChooseTargetIs(log, led);
    var at := FirstErased(log.Sector(led.current), 0);
    var data := NewData(log, led, control);
    WriteErased(log.Sector(led.current)[at], data, f, 0);
    var r := WriteRecord(log.Sector(led.current)[at], data, f, 0).0;
    if r == data {
      CommitHereKeeps(log, led, at, r);
      led' := CommitHere(led, at, control);
    } else {
      DirtyHereKeeps(log, led, at, r);
      led' := led;
    }
  }

  /** An append whose erase went through, into the first record of the erased sector. */
  lemma AppendBlankKeeps(log: Log, led: Ledger, data: Record, f: Fault) returns (led': Ledger)
    requires f.Fail? ==> f.at >= 1
    requires Inv(log, led) && |data| == RECORD_WORDS && IsValid(data) && Covers(data[15])
    requires Sequence(data) == |led.history| % TWO_32
    requires var bank := if led.history == [] then BankA else led.current.Other();
             log.Sector(bank) == BlankSector(|log.a|)
    requires led.history != [] ==> FirstErased(log.Sector(led.current), 0) == |log.a| && !led.intact
    ensures var bank := if led.history == [] then BankA else led.current.Other();
            var (r, ok) := WriteRecord(Blank(), data, f, 1);
            && Inv(log.With(bank, log.Sector(bank)[0 := r]), led')
            && AtomicStep(led, led', ControlOf(data), ok)
            && (f.Fine? ==> ok)
            && (led'.intact || (!IsValid(r) && led' == led))
  {
    BlankRecord();
    WriteErased(Blank(), data, f, 1);
    var r := WriteRecord(Blank(), data, f, 1).0;
    FirstErasedOfBlank(|log.a|);
    if led.history == [] {
      if r == data {
        CommitHereKeeps(log, led, 0, r);
        led' := CommitHere(led, 0, ControlOf(data));
      } else {
        DirtyHereKeeps(log, led, 0, r);
        led' := led;
      }
    } else if r == data {
      CommitSwitchKeeps(log, led, r);
      led' := CommitSwitch(led, ControlOf(data));
    } else {
      DirtySwitchKeeps(log, led, r);
      led' := led;
    }
  }

  lemma EraseKeeps(log: Log, led: Ledger, f: Fault) returns (led': Ledger)
    requires Inv(log, led)
    requires Unforged(log.Sector(if led.history == [] then BankA else led.current.Other()), f)
    requires FirstErased(log.Sector(led.current), 0) == |log.a|
    ensures var bank := if led.history == [] then BankA else led.current.Other();
            Inv(log.With(bank, EraseSector(log.Sector(bank), f)), led')
    ensures led'.history == led.history && led'.current == led.current
    ensures led.history != [] ==>
              var o := led.current.Other();
              led' == led.WithTags(o, Surviving(EraseSector(log.Sector(o), f), led.Tags(o))).(intact := false)
  {
    if led.history == [] {
      EraseFirstKeeps(log, led, f);
      led' := led.WithTags(BankA, Surviving(EraseSector(log.a, f), led.tagsA));
    } else {
      EraseOtherKeeps(log, led, f);
      var o := led.current.Other();
      led' := led.WithTags(o, Surviving(EraseSector(log.Sector(o), f), led.Tags(o))).(intact := false);
    }
  }

  /** Every append, under every fault, keeps the invariant and is atomic. */
  lemma AppendKeeps(log: Log, led: Ledger, control: seq<Word>, f: Fault) returns (led': Ledger)
    requires Inv(log, led) && |control| == CONTROL_WORDS && Honest(log, f)
    ensures Inv(Append(log, control, f).0, led')
    ensures AtomicStep(led, led', control, Append(log, control, f).1)
    ensures f.Fine? ==> Append(log, control, f).1
    ensures led'.history != led.history ==> led'.intact
  {
    hide CurrentOk, OtherOk, Backed, WriteRecord, IsValid, Covers, TearErase, FirstErased, Unforged;
    ChooseTargetIs(log, led);
    var t := ChooseTarget(log);
    if t.erase {
      var led1 := EraseKeeps(log, led, f);
      if Strikes(f, 0) {
        led' := led1;
      } else {
        var data := NewData(log, led, control);
        led' := AppendBlankKeeps(log.With(t.bank, BlankSector(|log.a|)), led1, data, f);
      }
    } else {
      led' := AppendHereKeeps(log, led, control, f);
    }
  }
}
