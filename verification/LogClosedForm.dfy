/** Where the newest record is after any number of uninterrupted saves, and how many sector
    erases they cost. */
module LogClosedForm {
  import opened Words
  import opened Faults
  import opened ControlLog
  import opened LogHistory
  import opened LogTheorems

  predicate Whole(controls: seq<seq<Word>>) {
    forall i :: 0 <= i < |controls| ==> |controls[i]| == CONTROL_WORDS
  }

  /** Save the controls one after another on blank flash. */
  function SaveAll(n: nat, controls: seq<seq<Word>>): (log: Log)
    requires n > 0 && Whole(controls)
    ensures Paired(log) && |log.a| == n
  {
    if controls == [] then BlankLog(n)
    else Append(SaveAll(n, controls[..|controls| - 1]), controls[|controls| - 1], Fine).0
  }

  /** How many of those saves erased a sector. */
  function Erasures(n: nat, controls: seq<seq<Word>>): nat
    requires n > 0 && Whole(controls)
  {
    if controls == [] then 0
    else
      var before := controls[..|controls| - 1];
      Erasures(n, before) + if ChooseTarget(SaveAll(n, before)).erase then 1 else 0
  }

  /** The current sector is k records followed by erased flash. */
  predicate Filled(s: Sector, k: nat) {
    && k <= |s|
    && (forall i :: 0 <= i < k ==> !IsErased(s[i]))
    && (forall i :: k <= i < |s| ==> IsErased(s[i]))
  }

  predicate Clean(log: Log, led: Ledger, k: nat) {
    && Inv(log, led)
    && Filled(log.Sector(led.current), k)
    && (led.history == [] ==> k == 0)
    && (led.history != [] ==> k > 0 && |led.places| == k && NewestIndex(led) == k - 1)
    && (led.start > 0 ==> led.intact && |led.previous| == |log.a|)
  }

  lemma FilledTo(s: Sector, k: nat)
    requires Filled(s, k)
    ensures FirstErased(s, 0) == k
  {
    var r := FirstErased(s, 0);
    assert r < |s| ==> IsErased(s[r]);
    assert k < |s| ==> IsErased(s[k]);
  }

  lemma FilledOneMore(s: Sector, k: nat, r: Record)
    requires Filled(s, k) && k < |s| && !IsErased(r)
    ensures Filled(s[k := r], k + 1)
  {
  }

  lemma FineWrite(r: Record, data: Record, first: nat)
    requires |r| == |data| == RECORD_WORDS && IsErased(r) && IsValid(data)
    ensures WriteRecord(r, data, Fine, first) == (data, true)
  {
    WriteErased(r, data, Fine, first);
  }

  lemma FineHere(log: Log, led: Ledger, k: nat, control: seq<Word>) returns (led': Ledger)
    requires Clean(log, led, k) && k < |log.a| && |control| == CONTROL_WORDS
    ensures Clean(Append(log, control, Fine).0, led', k + 1)
    ensures led'.history == led.history + [control] && led'.current == led.current
    ensures !ChooseTarget(log).erase
  {
    FilledTo(log.Sector(led.current), k);
    ChooseTargetIs(log, led);
    var data := NewData(log, led, control);
    FineWrite(log.Sector(led.current)[k], data, 0);
    CommitHereKeeps(log, led, k, data);
    led' := CommitHere(led, k, control);
    assert !IsErased(data);
    FilledOneMore(log.Sector(led.current), k, data);
  }

  /** An uninterrupted append that has to switch sectors. */
  lemma FineSwitchResult(log: Log, led: Ledger, control: seq<Word>) returns (data: Record)
    requires Clean(log, led, |log.a|) && led.history != [] && |control| == CONTROL_WORDS
    ensures |data| == RECORD_WORDS && IsValid(data) && Covers(data[15]) && !IsErased(data)
    ensures Sequence(data) == |led.history| % TWO_32 && ControlOf(data) == control
    ensures ChooseTarget(log).erase
    ensures Append(log, control, Fine).0
            == log.With(led.current.Other(), BlankSector(|log.a|)[0 := data])
  {
    FilledTo(log.Sector(led.current), |log.a|);
    ChooseTargetIs(log, led);
    data := NewData(log, led, control);
    BlankRecord();
    FineWrite(Blank(), data, 1);
    assert data[0] == RECORD_MAGIC != ALL_ONES;
  }

  lemma FineErase(log: Log, led: Ledger) returns (led': Ledger)
    requires Inv(log, led) && led.history != [] && FirstErased(log.Sector(led.current), 0) == |log.a|
    ensures Inv(log.With(led.current.Other(), BlankSector(|log.a|)), led')
    ensures led'.history == led.history && led'.current == led.current && led'.places == led.places
  {
    var o := led.current.Other();
    EraseOtherKeeps(log, led, Fine);
    led' := led.WithTags(o, Surviving(BlankSector(|log.a|), led.Tags(o))).(intact := false);
  }

  lemma SwitchReady(log: Log, led: Ledger)
    requires Inv(log, led) && led.history != []
    ensures |led.tagsA| == |led.tagsB| == |log.a| > 0 && led.places != []
  {
    assert led.Tags(BankA) == led.tagsA && led.Tags(BankB) == led.tagsB;
  }

  lemma FineFirst(log: Log, led: Ledger, data: Record) returns (led': Ledger)
    requires Inv(log, led) && log.Sector(led.current.Other()) == BlankSector(|log.a|) && led.history != []
    requires |data| == RECORD_WORDS && IsValid(data) && Covers(data[15]) && !IsErased(data)
    requires Sequence(data) == |led.history| % TWO_32 && |led.places| == |log.a|
    ensures Clean(log.With(led.current.Other(), BlankSector(|log.a|)[0 := data]), led', 1)
    ensures led'.history == led.history + [ControlOf(data)] && led'.current == led.current.Other()
  {
    hide Inv, IsErased, IsValid, Covers, Sequence, ControlOf, Settled;
    SwitchReady(log, led);
    CommitSwitchKeeps(log, led, data);
    led' := CommitSwitch(led, ControlOf(data));
    BlankRecord();
    FilledOneMore(BlankSector(|log.a|), 0, data);
  }

  lemma FineSwitch(log: Log, led: Ledger, control: seq<Word>) returns (led': Ledger)
    requires Clean(log, led, |log.a|) && led.history != [] && |control| == CONTROL_WORDS
    ensures Clean(Append(log, control, Fine).0, led', 1)
    ensures led'.history == led.history + [control] && led'.current == led.current.Other()
    ensures ChooseTarget(log).erase
  {
    var o, blank := led.current.Other(), BlankSector(|log.a|);
    var data := FineSwitchResult(log, led, control);
    var led1 := FineErase(log, led);
    assert log.With(o, blank).Sector(o) == blank;
    assert log.With(o, blank).With(o, blank[0 := data]) == log.With(o, blank[0 := data]);
    assert |log.With(o, blank).a| == |log.a|;
    assert led1.history != [] && |led1.places| == |log.a|;
    hide *;
    led' := FineFirst(log.With(o, blank), led1, data);
  }

  // ----- counting

  function Quotient(m: nat, n: nat): nat
    requires n > 0
  {
    m / n
  }

  function Remainder(m: nat, n: nat): (r: nat)
    requires n > 0
    ensures r < n
  {
    m % n
  }

  lemma AtLeastOnce(d: int, n: int)
    requires n > 0
    ensures d >= 1 ==> d * n >= n
    ensures d <= -1 ==> d * n <= -n
  {
  }

  lemma DivModIs(m: nat, n: nat, q: nat, r: nat)
    requires r < n && m == q * n + r
    ensures Quotient(m, n) == q && Remainder(m, n) == r
  {
    assert (m / n - q) * n == r - m % n;
    AtLeastOnce(m / n - q, n);
  }

  lemma DivModNext(m: nat, n: nat)
    requires n > 0
    ensures if Remainder(m, n) + 1 < n
            then Quotient(m + 1, n) == Quotient(m, n) && Remainder(m + 1, n) == Remainder(m, n) + 1
            else Quotient(m + 1, n) == Quotient(m, n) + 1 && Remainder(m + 1, n) == 0
  {
    assert m == (m / n) * n + m % n;
    if m % n + 1 < n {
      DivModIs(m + 1, n, m / n, m % n + 1);
    } else {
      assert (m / n + 1) * n == (m / n) * n + n;
      DivModIs(m + 1, n, m / n + 1, 0);
    }
  }

  function BankNumber(k: nat): Bank { if k % 2 == 0 then BankA else BankB }

  lemma BankNumberNext(k: nat)
    ensures BankNumber(k + 1) == BankNumber(k).Other()
  {
  }

  lemma SaveAllUnfolds(n: nat, before: seq<seq<Word>>, control: seq<Word>)
    requires n > 0 && Whole(before + [control]) && Whole(before) && |control| == CONTROL_WORDS
    ensures SaveAll(n, before + [control]) == Append(SaveAll(n, before), control, Fine).0
    ensures Erasures(n, before + [control])
            == Erasures(n, before) + if ChooseTarget(SaveAll(n, before)).erase then 1 else 0
  {
    assert (before + [control])[..|before|] == before;
  }

  lemma FirstQuotient(n: nat)
    requires n > 0
    ensures Quotient(0, n) == 0 && Remainder(0, n) == 0 && BankNumber(0) == BankA
  {
    DivModIs(0, n, 0, 0);
  }

  lemma StartIsClean(n: nat)
    requires 0 < n && 2 * n < 0x8000_0000
    ensures Clean(SaveAll(n, []), StartLedger(n), 0) && Erasures(n, []) == 0
    ensures StartLedger(n).history == [] && StartLedger(n).current == BankA
  {
    StartKeeps(n);
    BlankRecord();
  }

  lemma SaveOneMore(n: nat, before: seq<seq<Word>>, led: Ledger, control: seq<Word>) returns (led': Ledger)
    requires 0 < n && before != [] && Whole(before) && |control| == CONTROL_WORDS
    requires Clean(SaveAll(n, before), led, Remainder(|before| - 1, n) + 1) && led.history == before
    requires led.current == BankNumber(Quotient(|before| - 1, n))
    ensures Clean(Append(SaveAll(n, before), control, Fine).0, led', Remainder(|before|, n) + 1)
    ensures led'.history == before + [control] && led'.current == BankNumber(Quotient(|before|, n))
    ensures Quotient(|before|, n)
            == Quotient(|before| - 1, n) + if ChooseTarget(SaveAll(n, before)).erase then 1 else 0
  {
    var last := |before| - 1;
    hide *;
    DivModNext(last, n);
    BankNumberNext(Quotient(last, n));
    if Remainder(last, n) + 1 < n {
      led' := FineHere(SaveAll(n, before), led, Remainder(last, n) + 1, control);
    } else {
      led' := FineSwitch(SaveAll(n, before), led, control);
    }
  }

  lemma {:induction false} SaveAllIsClean(n: nat, controls: seq<seq<Word>>) returns (led: Ledger)
    requires 0 < n && 2 * n < 0x8000_0000 && controls != [] && Whole(controls)
    ensures Clean(SaveAll(n, controls), led, Remainder(|controls| - 1, n) + 1) && led.history == controls
    ensures led.current == BankNumber(Quotient(|controls| - 1, n))
    ensures Erasures(n, controls) == Quotient(|controls| - 1, n)
    decreases |controls|
  {
    hide Clean, SaveAll, Erasures, Append, ChooseTarget, Quotient, Remainder;
    var last := |controls| - 1;
    var before, control := controls[..last], controls[last];
    assert before + [control] == controls && Whole(before) && |control| == CONTROL_WORDS;
    SaveAllUnfolds(n, before, control);
    if last == 0 {
      assert before == [];
      StartIsClean(n);
      FirstQuotient(n);
      led := FineHere(SaveAll(n, before), StartLedger(n), 0, control);
    } else {
      var led0 := SaveAllIsClean(n, before);
      led := SaveOneMore(n, before, led0, control);
    }
  }

  /** After the last of one or more uninterrupted saves. */
  lemma ClosedForm(n: nat, controls: seq<seq<Word>>)
    requires 0 < n && 2 * n < 0x8000_0000 && controls != [] && Whole(controls)
    ensures var last, r := |controls| - 1, FindLatest(SaveAll(n, controls));
            && r.Newest?
            && r.bank == BankNumber(Quotient(last, n))
            && r.index == Remainder(last, n)
            && Sequence(r.record) == last % TWO_32
            && ControlOf(r.record) == controls[last]
            && Erasures(n, controls) == Quotient(last, n)
  {
    var led := SaveAllIsClean(n, controls);
    FindLatestIsNewest(SaveAll(n, controls), led);
  }
}
