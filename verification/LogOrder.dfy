/** When the records that a scan can reach, in both sectors together, are numbered without a gap:
    always while the current sector has room, and after an append under every fault exactly if the
    append does not erase a sector that holds more than the last record before the current ones. */
module LogOrder {
  import opened Words
  import opened Faults
  import opened ControlLog
  import opened LogHistory
  import opened LogTheorems
  import opened LogClosedForm

  /** Record i is followed in view by the one with the next sequence number. */
  ghost predicate Followed(log: Log, x: Bank, i: nat)
    requires Paired(log) && i < |log.a|
  {
    exists y: Bank, j :: InView(log, y, j) && Precedes(log, x, i, y, j)
  }

  /** The records in view are one run of consecutive sequence numbers that ends at the newest. */
  ghost predicate Consecutive(log: Log)
    requires Paired(log)
  {
    forall x: Bank, i :: 0 <= i < |log.a| && InView(log, x, i) ==> IsLatest(log, x, i) || Followed(log, x, i)
  }

  // ----- an intact log

  /** Number of the oldest control that an intact log still holds. */
  function Oldest(led: Ledger): int { led.start - |led.previous| }

  /** Where control number g is. */
  function Place(led: Ledger, g: int): (Bank, nat)
    requires Oldest(led) <= g < led.start + |led.places|
  {
    if g >= led.start then (led.current, led.places[g - led.start])
    else (led.current.Other(), led.previous[g - Oldest(led)])
  }

  lemma PreviousHolds(s: Sector, tags: seq<int>, history: seq<seq<Word>>, start: nat, previous: seq<nat>, g: nat)
    requires Shaped(s) && OtherOk(s, tags, history, start) && start <= |history|
    requires PreviousOk(s, tags, start, previous) && start - |previous| <= g < start
    ensures var i := previous[g - (start - |previous|)];
            && i < FirstErased(s, 0) && |tags| == |s| && tags[i] == g
            && IsValid(s[i]) && Sequence(s[i]) == g % TWO_32 && ControlOf(s[i]) == history[g]
  {
    hide Rising, Covered, IsValid, Sequence, ControlOf;
    assert tags[previous[g - (start - |previous|)]] == g;
  }

  lemma InvParts(log: Log, led: Ledger)
    requires Inv(log, led)
    ensures LogShape(log) && |log.b| == |log.a|
    ensures led.start <= |led.history| && |led.places| == |led.history| - led.start
    ensures CurrentOk(log.Sector(led.current), led.Tags(led.current), led.history, led.start, led.places)
    ensures OtherOk(log.Sector(led.current.Other()), led.Tags(led.current.Other()), led.history, led.start)
    ensures |led.tagsA| == |led.tagsB| == |log.a|
    ensures led.history != [] ==> led.start < |led.history|
    ensures led.intact ==>
              PreviousOk(log.Sector(led.current.Other()), led.Tags(led.current.Other()), led.start, led.previous)
    ensures FirstErased(log.Sector(led.current), 0) < |log.a| || led.history == [] ==> led.intact
  {
    hide Rising, Covered, Visible, Placed, Within, PreviousOk, FirstErased;
    assert led.Tags(BankA) == led.tagsA && led.Tags(BankB) == led.tagsB;
  }

  lemma InViewHas(log: Log, x: Bank, i: nat)
    requires Paired(log) && i < FirstErased(log.Sector(x), 0) && IsValid(log.Sector(x)[i])
    ensures InView(log, x, i)
  {
  }

  /** Record i is valid, in view, and holds control number g. */
  ghost predicate Number(log: Log, led: Ledger, x: Bank, i: nat, g: nat)
    requires g < |led.history|
  {
    && InView(log, x, i) && i < |log.a| == |led.Tags(x)| && led.Tags(x)[i] == g
    && Sequence(log.Sector(x)[i]) == g % TWO_32 && ControlOf(log.Sector(x)[i]) == led.history[g]
  }

  lemma CurrentNumber(log: Log, led: Ledger, g: nat)
    requires Inv(log, led) && led.start <= g < |led.history|
    ensures |led.places| == |led.history| - led.start
    ensures Number(log, led, led.current, led.places[g - led.start], g)
  {
    hide Inv, CurrentOk, OtherOk, PreviousOk, IsValid, Sequence, ControlOf, FirstErased, InView;
    InvParts(log, led);
    PlaceHolds(log.Sector(led.current), led.Tags(led.current), led.history, led.start, led.places, g);
    InViewHas(log, led.current, led.places[g - led.start]);
  }

  lemma PreviousNumber(log: Log, led: Ledger, g: nat)
    requires Inv(log, led) && led.intact && Oldest(led) <= g < led.start
    ensures |led.places| == |led.history| - led.start >= 0
    ensures Number(log, led, led.current.Other(), led.previous[g - Oldest(led)], g)
  {
    hide Inv, CurrentOk, OtherOk, PreviousOk, IsValid, Sequence, ControlOf, FirstErased, InView;
    InvParts(log, led);
    PreviousHolds(log.Sector(led.current.Other()), led.Tags(led.current.Other()), led.history, led.start,
                  led.previous, g);
    InViewHas(log, led.current.Other(), led.previous[g - Oldest(led)]);
  }

  /** Every number from the oldest to the newest has its record, valid, in view and with its control. */
  lemma IntactHolds(log: Log, led: Ledger, g: nat)
    requires Inv(log, led) && led.intact && Oldest(led) <= g < |led.history|
    ensures |led.places| == |led.history| - led.start
    ensures var (x, i) := Place(led, g); Number(log, led, x, i, g)
  {
    hide Inv, Number;
    if g >= led.start {
      CurrentNumber(log, led, g);
    } else {
      PreviousNumber(log, led, g);
    }
  }

  lemma SectorInView(s: Sector, tags: seq<int>, i: nat)
    requires |tags| == |s| && Visible(s, tags) && i < |s| && tags[i] >= 0
    ensures i < FirstErased(s, 0)
  {
  }

  /** And every valid record of either sector is one of those. */
  lemma IntactHasNoOther(log: Log, led: Ledger, x: Bank, i: nat)
    requires Inv(log, led) && led.intact && i < |log.a| && IsValid(log.Sector(x)[i])
    ensures |led.Tags(x)| == |log.a| && |led.places| == |led.history| - led.start
    ensures Oldest(led) <= led.Tags(x)[i] < |led.history| && InView(log, x, i)
    ensures Place(led, led.Tags(x)[i]) == (x, i)
  {
    hide Inv, IsValid, Sequence, ControlOf, FirstErased, Tagged, Rising, Covered, Placed;
    InvParts(log, led);
    TagOf(log, led, x, i);
    assert x == led.current || x == led.current.Other();
    SectorInView(log.Sector(x), led.Tags(x), i);
    var g := led.Tags(x)[i];
    assert Oldest(led) <= g;
    IntactHolds(log, led, g);
    var (y, j) := Place(led, g);
    InViewIs(log, y, j);
    SequencesAreOrdered(log, led, y, j, x, i);
  }

  // ----- numbers without a gap

  /** In view, the sector before the current one has no gap either, up to the current one. */
  ghost predicate Gapless(log: Log, led: Ledger)
    requires Paired(log) && |led.Tags(led.current.Other())| == |log.a|
  {
    var o := led.current.Other();
    forall i :: 0 <= i < |log.a| && InView(log, o, i) && led.Tags(o)[i] != led.start - 1 ==>
      exists j :: 0 <= j < |log.a| && InView(log, o, j) && led.Tags(o)[j] == led.Tags(o)[i] + 1
  }

  lemma TagFollowed(log: Log, led: Ledger, x: Bank, i: nat, y: Bank, j: nat)
    requires Inv(log, led) && InView(log, x, i) && InView(log, y, j) && i < |log.a| && j < |log.a|
    requires |led.Tags(x)| == |led.Tags(y)| == |log.a| && led.Tags(y)[j] == led.Tags(x)[i] + 1
    ensures Followed(log, x, i)
  {
    hide Inv, Precedes, FirstErased;
    PrecedesIs(log, led, x, i, y, j);
  }

  /** The record with number g in the current sector. */
  lemma CurrentHolds(log: Log, led: Ledger, g: nat) returns (j: nat)
    requires Inv(log, led) && led.start <= g < |led.history|
    ensures InView(log, led.current, j) && j < |log.a| == |led.Tags(led.current)| && led.Tags(led.current)[j] == g
  {
    hide Inv, InView, Sequence, ControlOf;
    CurrentNumber(log, led, g);
    j := led.places[g - led.start];
  }

  lemma GaplessIsConsecutive(log: Log, led: Ledger)
    requires Inv(log, led) && |led.Tags(led.current.Other())| == |log.a| && Gapless(log, led)
    ensures Consecutive(log)
  {
    hide Inv, IsValid, FirstErased, Followed, FindLatest, InView;
    InvParts(log, led);
    forall x: Bank, i | 0 <= i < |log.a| && InView(log, x, i)
      ensures IsLatest(log, x, i) || Followed(log, x, i)
    {
      InViewIs(log, x, i);
      TagOf(log, led, x, i);
      var g := led.Tags(x)[i];
      if x == led.current && g == |led.history| - 1 {
        LatestIs(log, led, x, i);
        TopIsNewest(log, led, x, i);
      } else if g + 1 >= led.start {
        var j := CurrentHolds(log, led, g + 1);
        TagFollowed(log, led, x, i, led.current, j);
      } else {
        assert x == led.current.Other();
        var j :| 0 <= j < |log.a| && InView(log, x, j) && led.Tags(x)[j] == g + 1;
        TagFollowed(log, led, x, i, x, j);
      }
    }
  }

  lemma IntactIsGapless(log: Log, led: Ledger)
    requires Inv(log, led) && led.intact
    ensures Paired(log) && |led.Tags(led.current.Other())| == |log.a| && Gapless(log, led)
  {
    hide Inv, IsValid, FirstErased, InView;
    InvParts(log, led);
    var o := led.current.Other();
    forall i | 0 <= i < |log.a| && InView(log, o, i) && led.Tags(o)[i] != led.start - 1
      ensures exists j :: 0 <= j < |log.a| && InView(log, o, j) && led.Tags(o)[j] == led.Tags(o)[i] + 1
    {
      InViewIs(log, o, i);
      IntactHasNoOther(log, led, o, i);
      TagOf(log, led, o, i);
      var g := led.Tags(o)[i] + 1;
      IntactHolds(log, led, g);
      var (y, j) := Place(led, g);
      assert y == o && InView(log, o, j) && led.Tags(o)[j] == g;
    }
  }

  lemma OldestInWindow(log: Log, led: Ledger)
    requires Inv(log, led) && led.intact && led.previous != []
    ensures Oldest(led) >= led.start - |log.a|
  {
    hide Inv, Sequence, ControlOf, InView, IsValid;
    InvParts(log, led);
    IntactHolds(log, led, Oldest(led));
    var (x, i) := Place(led, Oldest(led));
    InViewIs(log, x, i);
    TagOf(log, led, x, i);
  }

  /** While the current sector has room, the valid records of both sectors are one run of consecutive
      numbers that ends at the newest, all of them in view. */
  lemma RoomIsConsecutive(log: Log, led: Ledger)
    requires Inv(log, led) && FirstErased(log.Sector(led.current), 0) < |log.a|
    ensures Consecutive(log)
    ensures |led.places| == |led.history| - led.start && Oldest(led) >= |led.history| - 2 * |log.a|
    ensures forall x: Bank, i :: 0 <= i < |log.a| && IsValid(log.Sector(x)[i]) ==>
              InView(log, x, i) && |led.Tags(x)| == |log.a| && Oldest(led) <= led.Tags(x)[i] < |led.history|
    ensures forall g :: Oldest(led) <= g < |led.history| ==>
              var (x, i) := Place(led, g);
              InView(log, x, i) && i < |log.a| && Sequence(log.Sector(x)[i]) == g % TWO_32
  {
    hide Inv, CurrentOk, OtherOk, IsValid, FirstErased, InView, Gapless, Consecutive, Sequence, Place, Visible, Placed,
         Within;
    InvParts(log, led);
    IntactIsGapless(log, led);
    GaplessIsConsecutive(log, led);
    forall x: Bank, i | 0 <= i < |log.a| && IsValid(log.Sector(x)[i])
      ensures InView(log, x, i) && |led.Tags(x)| == |log.a| && Oldest(led) <= led.Tags(x)[i] < |led.history|
    {
      IntactHasNoOther(log, led, x, i);
    }
    forall g | Oldest(led) <= g < |led.history|
      ensures var (x, i) := Place(led, g);
              InView(log, x, i) && i < |log.a| && Sequence(log.Sector(x)[i]) == g % TWO_32
    {
      IntactHolds(log, led, g);
    }
    WindowBound(log.Sector(led.current), led.Tags(led.current), led.history, led.start, led.places);
    if led.previous != [] {
      OldestInWindow(log, led);
    }
  }

  /** An intact log also has the record before the newest in view. */
  lemma IntactHasPredecessor(log: Log, led: Ledger, bank: Bank, i: nat)
    requires Inv(log, led) && led.intact && |led.history| >= 2 && IsLatest(log, bank, i)
    ensures i < |log.a| && PredecessorInView(log, bank, i)
  {
    hide Inv, InView, Precedes, IsValid, FirstErased, FindLatest, IsLatest;
    InvParts(log, led);
    LatestIs(log, led, bank, i);
    NewestHeld(log, led);
    TagsBelow(log, led);
    var g := |led.history| - 2;
    IntactHolds(log, led, g);
    var (x, j) := Place(led, g);
    InViewIs(log, x, j);
    PrecedesIs(log, led, x, j, bank, i);
    PredecessorHas(log, bank, i);
  }

  // ----- after an append

  ghost predicate FollowedIn(log: Log, x: Bank, i: nat, y: Bank)
    requires Paired(log) && i < |log.a|
  {
    exists j :: 0 <= j < |log.a| && InView(log, y, j) && Precedes(log, x, i, y, j)
  }

  /** The append erases a sector in which some record in view is not followed by one in the other sector. */
  ghost predicate ErasesOlder(log: Log)
    requires Paired(log)
  {
    var t := ChooseTarget(log);
    t.erase && exists i :: 0 <= i < |log.a| && InView(log, t.bank, i) && !FollowedIn(log, t.bank, i, t.bank.Other())
  }

  /** Where an append erases, in terms of the ledger. */
  lemma EraseTarget(log: Log, led: Ledger)
    requires Inv(log, led) && ChooseTarget(log).erase
    ensures LogShape(log) && FirstErased(log.Sector(led.current), 0) == |log.a|
    ensures ChooseTarget(log).bank == if led.history == [] then BankA else led.current.Other()
    ensures ChooseTarget(log) == Target(ChooseTarget(log).bank, 0, true, |led.history| % TWO_32)
  {
    ChooseTargetIs(log, led);
  }

  lemma OtherFollowedIff(log: Log, led: Ledger, i: nat)
    requires Inv(log, led) && led.history != [] && i < |log.a| && InView(log, led.current.Other(), i)
    ensures |led.Tags(led.current.Other())| == |log.a|
    ensures FollowedIn(log, led.current.Other(), i, led.current)
            <==> led.Tags(led.current.Other())[i] == led.start - 1
  {
    hide Inv, InView, Precedes, IsValid, FirstErased, Sequence;
    var o := led.current.Other();
    InvParts(log, led);
    InViewIs(log, o, i);
    TagOf(log, led, o, i);
    if led.Tags(o)[i] == led.start - 1 {
      var j := CurrentHolds(log, led, led.start);
      InViewIs(log, led.current, j);
      PrecedesIs(log, led, o, i, led.current, j);
    }
    if FollowedIn(log, o, i, led.current) {
      var j :| 0 <= j < |log.a| && InView(log, led.current, j) && Precedes(log, o, i, led.current, j);
      InViewIs(log, led.current, j);
      PrecedesIs(log, led, o, i, led.current, j);
      TagOf(log, led, led.current, j);
    }
  }

  // ----- an erase shows nothing that was not there

  lemma {:induction false} FirstErasedFalls(s: Sector, s': Sector, i: nat)
    requires |s| == |s'| && i <= |s| && forall k :: 0 <= k < |s| && IsErased(s[k]) ==> IsErased(s'[k])
    ensures FirstErased(s', i) <= FirstErased(s, i)
    decreases |s| - i
  {
    if i < |s| && !IsErased(s[i]) {
      FirstErasedFalls(s, s', i + 1);
    }
  }

  lemma SetBits(w: Word)
    ensures ALL_ONES | w == ALL_ONES && w | ALL_ONES == ALL_ONES && w | 0 == w
  {
  }

  lemma TearKeepsErased(s: Sector, f: Fault, k: nat)
    requires Shaped(s) && f.Fail? && k < |s| && IsErased(s[k])
    ensures IsErased(TearErase(s, f)[k])
  {
    forall j | 0 <= j < RECORD_WORDS
      ensures TearErase(s, f)[k][j] == ALL_ONES
    {
      SetBits(f.tear(RECORD_WORDS * k + j));
    }
  }

  /** What is valid and in view after an erase, whole or broken, was so before. */
  lemma EraseShowsNothing(s: Sector, f: Fault, i: nat)
    requires Shaped(s) && Covered(s) && Unforged(s, f) && i < FirstErased(EraseSector(s, f), 0)
    requires IsValid(EraseSector(s, f)[i])
    ensures i < FirstErased(s, 0) && EraseSector(s, f)[i] == s[i]
  {
    hide IsErased, IsValid, FirstErased;
    if Strikes(f, 0) {
      forall k | 0 <= k < |s| && IsErased(s[k])
        ensures IsErased(TearErase(s, f)[k])
      {
        TearKeepsErased(s, f, k);
      }
      FirstErasedFalls(s, TearErase(s, f), 0);
      TornRecord(s, f, i);
    } else {
      BlankRecord();
    }
  }

  // ----- the condition is enough

  lemma EmptyIsGapless(log: Log, led: Ledger)
    requires Inv(log, led) && led.start == 0
    ensures Paired(log) && |led.Tags(led.current.Other())| == |log.a| && Gapless(log, led)
  {
    hide Inv, IsValid, FirstErased, InView;
    InvParts(log, led);
    var o := led.current.Other();
    forall i | 0 <= i < |log.a| && InView(log, o, i)
      ensures false
    {
      InViewIs(log, o, i);
      TagOf(log, led, o, i);
    }
  }

  /** After an erase, whole or broken, of a sector with no older record in view. */
  lemma ErasedIsGapless(log: Log, led: Ledger, f: Fault) returns (led': Ledger)
    requires Inv(log, led) && led.history != [] && Unforged(log.Sector(led.current.Other()), f)
    requires FirstErased(log.Sector(led.current), 0) == |log.a|
    requires forall i :: 0 <= i < |log.a| && InView(log, led.current.Other(), i) ==>
               FollowedIn(log, led.current.Other(), i, led.current)
    ensures var o := led.current.Other();
            var log' := log.With(o, EraseSector(log.Sector(o), f));
            && Inv(log', led') && |led'.Tags(led'.current.Other())| == |log'.a| && Gapless(log', led')
  {
    hide Inv, IsValid, FirstErased, InView, Unforged, EraseSector, FollowedIn;
    InvParts(log, led);
    led' := EraseKeeps(log, led, f);
    var o := led.current.Other();
    var s := log.Sector(o);
    var log' := log.With(o, EraseSector(s, f));
    assert log'.Sector(o) == EraseSector(s, f) && led'.current == led.current && led'.start == led.start;
    InvParts(log', led');
    forall i | 0 <= i < |log'.a| && InView(log', o, i)
      ensures led'.Tags(o)[i] == led'.start - 1
    {
      InViewIs(log', o, i);
      EraseShowsNothing(s, f, i);
      InViewHas(log, o, i);
      OtherFollowedIff(log, led, i);
    }
  }

  lemma DirtyIsGapless(log: Log, led: Ledger, r: Record)
    requires Inv(log, led) && |r| == RECORD_WORDS && !IsValid(r)
    requires log.Sector(led.current.Other()) == BlankSector(|log.a|)[0 := r]
    ensures |led.Tags(led.current.Other())| == |log.a| && Gapless(log, led)
  {
    hide Inv, IsValid, FirstErased, InView;
    InvParts(log, led);
    BlankRecord();
    var o := led.current.Other();
    forall i | 0 <= i < |log.a| && InView(log, o, i)
      ensures false
    {
      InViewIs(log, o, i);
    }
  }

  /** What an append that erases leaves in flash. */
  lemma AppendErasing(log: Log, control: seq<Word>, f: Fault)
    requires Paired(log) && |control| == CONTROL_WORDS && ChooseTarget(log).erase && ChooseTarget(log).index == 0
    ensures var t, log' := ChooseTarget(log), Append(log, control, f).0;
            if Strikes(f, 0) then log' == log.With(t.bank, EraseSector(log.Sector(t.bank), f))
            else log' == log.With(t.bank, BlankSector(|log.a|)[0 :=
                           WriteRecord(Blank(), NewRecord(t.sequence, control), f, 1).0])
  {
    hide ChooseTarget, WriteRecord, TearErase, NewRecord;
  }

  lemma HonestIs(log: Log, f: Fault)
    requires Paired(log)
    ensures Honest(log, f) <==> (ChooseTarget(log).erase ==> Unforged(log.Sector(ChooseTarget(log).bank), f))
  {
    hide ChooseTarget, Unforged;
  }

  /** The erase went through. */
  lemma SwitchIsConsecutive(log: Log, led: Ledger, control: seq<Word>, f: Fault)
    requires Inv(log, led) && |control| == CONTROL_WORDS && Honest(log, f) && led.history != []
    requires ChooseTarget(log).erase && !Strikes(f, 0)
    ensures Consecutive(Append(log, control, f).0)
  {
    hide Inv, IsValid, FirstErased, Unforged, ChooseTarget, Honest, Append, Gapless, Consecutive, WriteRecord, Covers;
    EraseTarget(log, led);
    HonestIs(log, f);
    AppendErasing(log, control, f);
    InvParts(log, led);
    var o := led.current.Other();
    var led1 := EraseKeeps(log, led, f);
    var data := NewData(log, led, control);
    var log1 := log.With(o, BlankSector(|log.a|));
    var led' := AppendBlankKeeps(log1, led1, data, f);
    var log' := Append(log, control, f).0;
    assert log' == log1.With(o, log1.Sector(o)[0 := WriteRecord(Blank(), data, f, 1).0]);
    if led'.intact {
      IntactIsGapless(log', led');
    } else {
      DirtyIsGapless(log', led', WriteRecord(Blank(), data, f, 1).0);
    }
    GaplessIsConsecutive(log', led');
  }

  lemma NothingBeforeFirst(led: Ledger, led': Ledger, log': Log, control: seq<Word>, ok: bool)
    requires Inv(log', led') && led.history == [] && AtomicStep(led, led', control, ok)
    ensures led'.start == 0
  {
    hide CurrentOk, OtherOk, Backed;
  }

  /** Without an older record in view in the sector it erases, an append leaves consecutive numbers. */
  lemma StaysConsecutive(log: Log, led: Ledger, control: seq<Word>, f: Fault)
    requires Inv(log, led) && |control| == CONTROL_WORDS && Honest(log, f) && !ErasesOlder(log)
    ensures Consecutive(Append(log, control, f).0)
  {
    hide Inv, IsValid, FirstErased, Unforged, ChooseTarget, Honest, Append, Gapless, Consecutive, InView, FollowedIn,
         AtomicStep;
    InvParts(log, led);
    var log' := Append(log, control, f).0;
    if !ChooseTarget(log).erase {
      var led' := AppendHereKeeps(log, led, control, f);
      IntactIsGapless(log', led');
      GaplessIsConsecutive(log', led');
    } else if led.history == [] {
      var led' := AppendKeeps(log, led, control, f);
      NothingBeforeFirst(led, led', log', control, Append(log, control, f).1);
      EmptyIsGapless(log', led');
      GaplessIsConsecutive(log', led');
    } else if Strikes(f, 0) {
      EraseTarget(log, led);
      HonestIs(log, f);
      AppendErasing(log, control, f);
      var led' := ErasedIsGapless(log, led, f);
      GaplessIsConsecutive(log', led');
    } else {
      SwitchIsConsecutive(log, led, control, f);
    }
  }

  // ----- the condition is needed

  /** An erase, broken so that every valid record but number i loses its magic. */
  function SpoilAllBut(s: Sector, i: nat): (f: Fault)
    requires Shaped(s)
    ensures Strikes(f, 0)
  {
    Fail(0, (k: nat) => if k % RECORD_WORDS == 0 && k / RECORD_WORDS != i && k / RECORD_WORDS < |s| &&
                   IsValid(s[k / RECORD_WORDS]) then ALL_ONES else 0)
  }

  lemma TornWordIs(w: Word, f: Fault, k: nat)
    requires f.Fail?
    ensures f.tear(k) == 0 ==> TearErasedWord(w, f, k) == w
    ensures f.tear(k) == ALL_ONES ==> TearErasedWord(w, f, k) == ALL_ONES
  {
    SetBits(w);
  }

  lemma NotErased(r: Record, k: nat)
    requires k < |r|
    ensures r[k] != ALL_ONES ==> !IsErased(r)
  {
  }

  lemma SpoiledRecord(s: Sector, i: nat, j: nat)
    requires Shaped(s) && j < |s|
    ensures var r := TearErase(s, SpoilAllBut(s, i))[j];
            if j != i && IsValid(s[j]) then !IsValid(r) && !IsErased(r) else r == s[j]
  {
    hide IsErased, TearErasedWord;
    var f := SpoilAllBut(s, i);
    var r := TearErase(s, f)[j];
    forall k | 0 <= k < RECORD_WORDS
      ensures r[k] == if k == 0 && j != i && IsValid(s[j]) then ALL_ONES else s[j][k]
    {
      TornWordIs(s[j][k], f, RECORD_WORDS * j + k);
    }
    NotErased(r, 15);
  }

  lemma {:induction false} SameView(s: Sector, s': Sector, from: nat)
    requires |s| == |s'| && from <= |s| && forall k :: 0 <= k < |s| ==> (IsErased(s[k]) <==> IsErased(s'[k]))
    ensures FirstErased(s', from) == FirstErased(s, from)
    decreases |s| - from
  {
    if from < |s| && !IsErased(s[from]) {
      SameView(s, s', from + 1);
    }
  }

  lemma ValidIsNotErased(r: Record)
    requires |r| == RECORD_WORDS && IsValid(r)
    ensures !IsErased(r)
  {
    assert r[0] == RECORD_MAGIC != ALL_ONES;
  }

  /** Such an erase forges nothing and leaves what is in view in view. */
  lemma SpoilKeepsView(s: Sector, i: nat)
    requires Shaped(s)
    ensures var f := SpoilAllBut(s, i);
            && Unforged(s, f)
            && FirstErased(TearErase(s, f), 0) == FirstErased(s, 0)
            && (i < |s| ==> TearErase(s, f)[i] == s[i])
            && (forall j :: 0 <= j < |s| && j != i ==> !IsValid(TearErase(s, f)[j]))
  {
    hide IsErased, IsValid, FirstErased, TearErase;
    var f := SpoilAllBut(s, i);
    forall j | 0 <= j < |s|
      ensures IsErased(s[j]) <==> IsErased(TearErase(s, f)[j])
      ensures if j != i && IsValid(s[j]) then !IsValid(TearErase(s, f)[j]) else TearErase(s, f)[j] == s[j]
    {
      SpoiledRecord(s, i, j);
      if IsValid(s[j]) {
        ValidIsNotErased(s[j]);
      }
    }
    SameView(s, TearErase(s, f), 0);
  }

  lemma SameFollower(log: Log, log': Log, o: Bank, i: nat, j: nat)
    requires Paired(log) && Paired(log') && |log'.a| == |log.a| && i < |log.a|
    requires log'.Sector(o.Other()) == log.Sector(o.Other()) && log'.Sector(o)[i] == log.Sector(o)[i]
    requires InView(log', o.Other(), j) && Precedes(log', o, i, o.Other(), j)
    ensures FollowedIn(log, o, i, o.Other())
  {
    hide IsValid, IsErased, FirstErased, Sequence, Add32;
    assert InView(log, o.Other(), j) && Precedes(log, o, i, o.Other(), j);
  }

  lemma NotFollowed(log: Log, log': Log, led': Ledger, o: Bank, i: nat)
    requires Paired(log) && Inv(log', led') && |log'.a| == |log.a| && i < |log.a| && InView(log', o, i)
    requires log'.Sector(o.Other()) == log.Sector(o.Other()) && log'.Sector(o)[i] == log.Sector(o)[i]
    requires forall j :: 0 <= j < |log.a| && j != i ==> !IsValid(log'.Sector(o)[j])
    requires !FollowedIn(log, o, i, o.Other())
    ensures !Followed(log', o, i)
  {
    hide Inv, IsValid, IsErased, FirstErased, Sequence, Add32;
    if Followed(log', o, i) {
      var y: Bank, j :| InView(log', y, j) && Precedes(log', o, i, y, j);
      if y == o {
        PrecedesIs(log', led', o, i, y, j);
      } else {
        SameFollower(log, log', o, i, j);
      }
    }
  }

  /** The append whose erase breaks that way leaves record i in view without a successor. */
  lemma SpoilLeavesGap(log: Log, led: Ledger, control: seq<Word>, i: nat)
    requires Inv(log, led) && |control| == CONTROL_WORDS && ChooseTarget(log).erase
    requires i < |log.a| && InView(log, ChooseTarget(log).bank, i)
    requires !FollowedIn(log, ChooseTarget(log).bank, i, ChooseTarget(log).bank.Other())
    ensures var o, f := ChooseTarget(log).bank, SpoilAllBut(log.Sector(ChooseTarget(log).bank), i);
            var log' := Append(log, control, f).0;
            && Honest(log, f)
            && log'.Sector(o.Other()) == log.Sector(o.Other())
            && InView(log', o, i) && log'.Sector(o)[i] == log.Sector(o)[i]
            && (forall j :: 0 <= j < |log.a| && j != i ==> !IsValid(log'.Sector(o)[j]))
            && !Consecutive(log')
  {
    hide Inv, IsValid, IsErased, FirstErased, Unforged, ChooseTarget, Honest, Append, FollowedIn, FindLatest, TearErase,
         SpoilAllBut, Precedes, InView;
    InvParts(log, led);
    var o := ChooseTarget(log).bank;
    var s := log.Sector(o);
    var f := SpoilAllBut(s, i);
    InViewIs(log, o, i);
    TagOf(log, led, o, i);
    EraseTarget(log, led);
    SpoilKeepsView(s, i);
    HonestIs(log, f);
    AppendErasing(log, control, f);
    var log' := Append(log, control, f).0;
    assert log'.Sector(o) == TearErase(s, f);
    InViewHas(log', o, i);
    var led' := EraseKeeps(log, led, f);
    LatestIs(log', led', o, i);
    NotFollowed(log, log', led', o, i);
  }

  /** After an append the records in view are numbered without a gap, under every fault, if and only if
      the append does not erase a sector with an older record in view: one that the other sector does
      not continue. */
  lemma ConsecutiveIff(log: Log, led: Ledger, control: seq<Word>)
    requires Inv(log, led) && |control| == CONTROL_WORDS
    ensures (forall f :: Honest(log, f) ==> Consecutive(Append(log, control, f).0)) <==> !ErasesOlder(log)
  {
    hide Inv, Honest, Append, Consecutive, InView, FollowedIn, ChooseTarget;
    InvParts(log, led);
    if ErasesOlder(log) {
      var i :| 0 <= i < |log.a| && InView(log, ChooseTarget(log).bank, i) &&
               !FollowedIn(log, ChooseTarget(log).bank, i, ChooseTarget(log).bank.Other());
      SpoilLeavesGap(log, led, control, i);
    } else {
      forall f | Honest(log, f)
        ensures Consecutive(Append(log, control, f).0)
      {
        StaysConsecutive(log, led, control, f);
      }
    }
  }

  /** Whatever was there before, after a save that returns OK the numbers in view have no gap, and the
      record before the newest, if there ever was one, is in view. */
  lemma OkRestores(log: Log, led: Ledger, control: seq<Word>, f: Fault, bank: Bank, i: nat)
    requires Inv(log, led) && |control| == CONTROL_WORDS && Honest(log, f) && Append(log, control, f).1
    requires IsLatest(Append(log, control, f).0, bank, i)
    ensures Consecutive(Append(log, control, f).0)
    ensures led.history != [] ==>
              i < |Append(log, control, f).0.a| && PredecessorInView(Append(log, control, f).0, bank, i)
  {
    hide Inv, Honest, Append, Consecutive, PredecessorInView, Gapless, IsLatest;
    InvParts(log, led);
    var led' := AppendKeeps(log, led, control, f);
    IntactIsGapless(Append(log, control, f).0, led');
    GaplessIsConsecutive(Append(log, control, f).0, led');
    if led.history != [] {
      IntactHasPredecessor(Append(log, control, f).0, led', bank, i);
    }
  }

  // ----- a gap can happen in sectors of every size

  /** As many controls as records: every control is in the record of its turn. */
  lemma {:induction false} FullPlaces(tags: seq<int>, places: seq<nat>, start: nat, k: nat)
    requires |places| == |tags| && k < |places| && Rising(tags) && Placed(tags, start, places)
    ensures places[k] == k && tags[k] == start + k
    decreases |places| - k
  {
    assert tags[places[k]] == start + k;
    if k + 1 < |places| {
      FullPlaces(tags, places, start, k + 1);
      assert tags[places[k + 1]] == start + k + 1;
    }
  }

  /** The ledger of two sectors that are full: numbers 0 .. n - 1, then n .. 2n - 1, each in its place. */
  ghost predicate Full(log: Log, led: Ledger) {
    && Inv(log, led) && led.current == BankB && led.intact
    && |led.history| == 2 * |log.a| && led.start == |log.a| == |led.places| == |led.previous|
    && (forall k :: 0 <= k < |log.a| ==> led.places[k] == k && led.previous[k] == k)
    && FirstErased(log.b, 0) == |log.a|
  }

  lemma FullLedger(log: Log, led: Ledger)
    requires Clean(log, led, |log.a|) && |led.history| == 2 * |log.a| && led.current == BankB
    ensures Full(log, led)
  {
    hide IsErased, IsValid, FirstErased, Inv, Covered, Tagged, Visible;
    InvParts(log, led);
    FilledTo(log.b, |log.a|);
    forall k | 0 <= k < |log.a|
      ensures led.places[k] == k && led.previous[k] == k
    {
      FullPlaces(led.tagsB, led.places, led.start, k);
      FullPlaces(led.tagsA, led.previous, 0, k);
    }
  }

  lemma NumberIs(log: Log, led: Ledger, x: Bank, i: nat, g: nat)
    requires g < |led.history| && Number(log, led, x, i, g) && g < 0x8000_0000
    ensures Paired(log) && i < |log.a| == |log.Sector(x)| == |led.Tags(x)|
    ensures InView(log, x, i) && Sequence(log.Sector(x)[i]) == g && led.Tags(x)[i] == g
  {
    hide FirstErased, IsValid, Sequence, ControlOf;
  }

  lemma FullPlace(log: Log, led: Ledger, i: nat)
    requires Full(log, led) && i < |log.a|
    ensures Inv(log, led) && led.current == BankB && led.intact && Oldest(led) == 0 && led.start == |log.a|
    ensures |led.history| == 2 * |log.a| && |led.places| == |led.previous| == |log.a|
    ensures led.places[i] == i == led.previous[i]
  {
    hide Inv, FirstErased;
  }

  lemma PairedIs(log: Log)
    requires Paired(log)
    ensures Shaped(log.a) && Shaped(log.b) && |log.b| == |log.a|
    ensures forall i :: 0 <= i < |log.a| ==> |log.a[i]| == |log.b[i]| == RECORD_WORDS
  {
  }

  lemma Banks(log: Log)
    ensures BankA.Other() == BankB && BankB.Other() == BankA
    ensures log.Sector(BankA) == log.a && log.Sector(BankB) == log.b
  {
  }

  lemma FullAt(log: Log, led: Ledger, i: nat)
    requires Full(log, led) && i < |log.a| && 2 * |log.a| < 0x8000_0000
    ensures Paired(log) && |log.b| == |led.Tags(BankA)| == |log.a|
    ensures InView(log, BankA, i) && Sequence(log.a[i]) == i && led.Tags(BankA)[i] == i
    ensures InView(log, BankB, i) && Sequence(log.b[i]) == |log.a| + i
  {
    hide *;
    Banks(log);
    FullPlace(log, led, i);
    PreviousNumber(log, led, i);
    NumberIs(log, led, BankA, i, i);
    CurrentNumber(log, led, |log.a| + i);
    NumberIs(log, led, BankB, i, |log.a| + i);
  }

  lemma FullIsInv(log: Log, led: Ledger)
    requires Full(log, led)
    ensures Inv(log, led)
  {
  }

  lemma FullErases(log: Log, led: Ledger)
    requires Full(log, led) && |log.a| >= 2 && 2 * |log.a| < 0x8000_0000
    ensures Paired(log) && ChooseTarget(log).erase && ChooseTarget(log).bank == BankA
    ensures !FollowedIn(log, BankA, 0, BankB)
    ensures ErasesOlder(log) && Consecutive(log)
  {
    hide Inv, InView, FirstErased, Sequence, FollowedIn, ChooseTarget, Gapless, Consecutive;
    InvParts(log, led);
    FullAt(log, led, 0);
    ChooseTargetIs(log, led);
    OtherFollowedIff(log, led, 0);
    IntactIsGapless(log, led);
    GaplessIsConsecutive(log, led);
  }

  /** Both sectors filled once by uninterrupted saves. */
  lemma FullLog(n: nat, controls: seq<seq<Word>>) returns (led: Ledger)
    requires 0 < n && 2 * n < 0x8000_0000 && |controls| == 2 * n && Whole(controls)
    ensures var log := SaveAll(n, controls);
            && |log.a| == n && Clean(log, led, n) && |led.history| == 2 * n && led.current == BankB
  {
    hide Clean, SaveAll, Inv, FirstErased, Erasures, Quotient, Remainder;
    led := SaveAllIsClean(n, controls);
    DivModIs(2 * n - 1, n, 1, n - 1);
  }

  lemma SameInView(log: Log, log': Log, x: Bank, i: nat)
    requires InView(log, x, i) && Paired(log') && log'.Sector(x) == log.Sector(x)
    ensures InView(log', x, i)
  {
    hide IsValid, FirstErased;
  }

  /** Sectors of any size from two records on: once both are full, the erase for the next save can break
      so that of the older sector only number 0 is left, beside all of n .. 2n - 1. */
  lemma FullLogCanLeaveGap(n: nat, controls: seq<seq<Word>>, control: seq<Word>)
    requires 2 <= n && 2 * n < 0x8000_0000 && |controls| == 2 * n && Whole(controls) && |control| == CONTROL_WORDS
    ensures var log := SaveAll(n, controls);
            var f := SpoilAllBut(log.a, 0);
            var log' := Append(log, control, f).0;
            && |log.a| == |log'.a| == n
            && Consecutive(log) && ErasesOlder(log) && Honest(log, f) && !Consecutive(log')
            && InView(log', BankA, 0) && Sequence(log'.a[0]) == 0
            && (forall i :: 0 < i < n ==> !IsValid(log'.a[i]))
            && (forall i :: 0 <= i < n ==> InView(log', BankB, i) && Sequence(log'.b[i]) == n + i)
  {
    hide *;
    var log := SaveAll(n, controls);
    Banks(log);
    var led := FullLog(n, controls);
    FullLedger(log, led);
    FullErases(log, led);
    FullAt(log, led, 0);
    FullIsInv(log, led);
    PairedIs(log);
    SpoilLeavesGap(log, led, control, 0);
    var log' := Append(log, control, SpoilAllBut(log.a, 0)).0;
    Banks(log');
    PairedIs(log');
    forall i | 0 <= i < n
      ensures InView(log', BankB, i) && Sequence(log'.b[i]) == n + i
    {
      FullAt(log, led, i);
      SameInView(log, log', BankB, i);
    }
  }

  /** The smallest case: two records a sector, four saves, and the erase for the fifth breaks over
      record 1. Of the numbers 0, 1, 2 and 3 exactly 1 is gone. */
  lemma FifthSaveCanLeaveGap(controls: seq<seq<Word>>, control: seq<Word>)
    requires |controls| == 4 && Whole(controls) && |control| == CONTROL_WORDS
    ensures var log := SaveAll(2, controls);
            var log' := Append(log, control, SpoilAllBut(log.a, 0)).0;
            && Consecutive(log) && !Consecutive(log') && |log'.a| == 2
            && InView(log', BankA, 0) && Sequence(log'.a[0]) == 0
            && !IsValid(log'.a[1])
            && InView(log', BankB, 0) && Sequence(log'.b[0]) == 2
            && InView(log', BankB, 1) && Sequence(log'.b[1]) == 3
  {
    hide *;
    FullLogCanLeaveGap(2, controls, control);
  }
}
