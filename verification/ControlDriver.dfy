/** The control log as the driver runs it: two flash sectors of words, scanned, erased and
    programmed in place. Every method is tied to the value-level functions of ControlLog. */
module ControlDriver {
  import opened Words
  import opened Crc
  import opened Faults
  import opened ControlLog

  /** A sector's words as records. */
  function Records(words: seq<Word>): (s: Sector)
    ensures |s| == |words| / RECORD_WORDS && Shaped(s)
  {
    seq(|words| / RECORD_WORDS, i requires 0 <= i < |words| / RECORD_WORDS =>
      words[RECORD_WORDS * i..RECORD_WORDS * i + RECORD_WORDS])
  }

  /** Writing inside record i changes record i only. */
  lemma RecordsAfterWrite(before: seq<Word>, after: seq<Word>, i: nat, r: Record)
    requires |before| == |after| && i < |before| / RECORD_WORDS && |r| == RECORD_WORDS
    requires after == before[..RECORD_WORDS * i] + r + before[RECORD_WORDS * i + RECORD_WORDS..]
    ensures Records(after) == Records(before)[i := r]
  {
    var n := |before| / RECORD_WORDS;
    forall j | 0 <= j < n
      ensures Records(after)[j] == Records(before)[i := r][j]
    {
      var at := RECORD_WORDS * j;
      if j < i {
        assert at + RECORD_WORDS <= RECORD_WORDS * i;
        assert after[at..at + RECORD_WORDS] == before[at..at + RECORD_WORDS];
      } else if i < j {
        assert at >= RECORD_WORDS * i + RECORD_WORDS;
        assert after[at..at + RECORD_WORDS] == before[at..at + RECORD_WORDS];
      } else {
        assert after[at..at + RECORD_WORDS] == r;
      }
    }
  }

  /** The words of a torn sector are the torn words. */
  lemma RecordsAfterTear(before: seq<Word>, after: seq<Word>, f: Fault)
    requires |before| == |after| && f.Fail?
    requires forall k :: 0 <= k < |before| ==> after[k] == TearErasedWord(before[k], f, k)
    ensures Records(after) == TearErase(Records(before), f)
  {
    var torn := TearErase(Records(before), f);
    forall i | 0 <= i < |before| / RECORD_WORDS
      ensures Records(after)[i] == torn[i]
    {
      forall k | 0 <= k < RECORD_WORDS
        ensures Records(after)[i][k] == torn[i][k]
      {
        assert Records(after)[i][k] == after[RECORD_WORDS * i + k];
        assert Records(before)[i][k] == before[RECORD_WORDS * i + k];
      }
    }
  }

  lemma RecordsAfterErase(words: seq<Word>)
    requires forall k :: 0 <= k < |words| ==> words[k] == ALL_ONES
    ensures Records(words) == BlankSector(|words| / RECORD_WORDS)
  {
    forall i | 0 <= i < |words| / RECORD_WORDS
      ensures Records(words)[i] == Blank()
    {
      assert forall k :: 0 <= k < RECORD_WORDS ==> Records(words)[i][k] == words[RECORD_WORDS * i + k];
    }
  }

  // ----- HAL_FLASH_Program and HAL_FLASHEx_Erase

  method HalProgram(words: array<Word>, at: nat, w: Word, f: Fault, op: nat) returns (ok: bool)
    requires at < words.Length
    modifies words
    ensures words[..] == old(words[..])[at := ProgramWord(old(words[at]), w, f, op)]
    ensures ok == !Strikes(f, op)
  {
    words[at] := ProgramWord(words[at], w, f, op);
    ok := !(f.Fail? && f.at == op);
  }

  method HalErase(words: array<Word>, f: Fault) returns (ok: bool)
    modifies words
    ensures ok == !Strikes(f, 0)
    ensures Records(words[..]) == EraseSector(Records(old(words[..])), f)
  {
    ghost var before := words[..];
    var torn := f.Fail? && f.at == 0;
    for k := 0 to words.Length
      invariant forall i :: 0 <= i < k ==>
                  words[i] == if torn then TearErasedWord(before[i], f, i) else ALL_ONES
      invariant forall i :: k <= i < words.Length ==> words[i] == before[i]
    {
      words[k] := if torn then TearErasedWord(words[k], f, k) else ALL_ONES;
    }
    if torn {
      RecordsAfterTear(before, words[..], f);
    } else {
      RecordsAfterErase(words[..]);
    }
    ok := !torn;
  }

  // ----- records

  method RecordIsErased(words: array<Word>, i: nat) returns (erased: bool)
    requires i < words.Length / RECORD_WORDS
    ensures erased == IsErased(Records(words[..])[i])
  {
    ghost var r := Records(words[..])[i];
    assert forall k :: 0 <= k < RECORD_WORDS ==> r[k] == words[RECORD_WORDS * i + k];
    var index := 0;
    while index < RECORD_WORDS
      invariant index <= RECORD_WORDS
      invariant forall k :: 0 <= k < index ==> r[k] == ALL_ONES
    {
      if words[RECORD_WORDS * i + index] != ALL_ONES {
        assert r[index] != ALL_ONES;
        return false;
      }
      index := index + 1;
    }
    return true;
  }

  method RecordIsValid(words: array<Word>, i: nat) returns (valid: bool)
    requires i < words.Length / RECORD_WORDS
    ensures valid == IsValid(Records(words[..])[i])
  {
    var at := RECORD_WORDS * i;
    ghost var r := Records(words[..])[i];
    assert forall k :: 0 <= k < RECORD_WORDS ==> r[k] == words[at + k];
    if words[at] != RECORD_MAGIC || words[at + 15] != RECORD_COMMIT {
      return false;
    }
    assert words[at + 1..at + 14] == r[1..14];
    var crc := ComputeCrc32(WordBytes(words[at + 1..at + 14]));
    return crc == words[at + 14];
  }

  // ----- scanning

  lemma ScanUnfolds(s: Sector, bank: Bank, i: nat, best: Latest)
    requires Shaped(s) && i < |s| && (best.Newest? ==> |best.record| == RECORD_WORDS)
    ensures IsErased(s[i]) ==> Scan(s, bank, i, best) == best
    ensures !IsErased(s[i]) ==>
              Scan(s, bank, i, best) == Scan(s, bank, i + 1, if Better(s[i], best) then Newest(bank, i, s[i]) else best)
  {
  }

  method ScanControlSector(words: array<Word>, bank: Bank, start: Latest) returns (latest: Latest)
    requires start.Newest? ==> |start.record| == RECORD_WORDS
    ensures latest == Scan(Records(words[..]), bank, 0, start)
    ensures latest.Newest? ==> |latest.record| == RECORD_WORDS
  {
    hide IsErased, IsValid, Sequence, SequenceIsNewer;
    latest := start;
    ghost var s := Records(words[..]);
    var i := 0;
    while i < words.Length / RECORD_WORDS
      invariant i <= words.Length / RECORD_WORDS
      invariant latest.Newest? ==> |latest.record| == RECORD_WORDS
      invariant Scan(s, bank, i, latest) == Scan(s, bank, 0, start)
    {
      ScanUnfolds(s, bank, i, latest);
      var erased := RecordIsErased(words, i);
      if erased {
        break;
      }
      var record := words[RECORD_WORDS * i..RECORD_WORDS * i + RECORD_WORDS];
      assert record == s[i];
      var valid := RecordIsValid(words, i);
      if valid && (latest.Nothing? || SequenceIsNewer(Sequence(record), Sequence(latest.record))) {
        latest := Newest(bank, i, record);
      }
      i := i + 1;
    }
  }

  /** The index of the first erased record; the number of records where the source returns address 0. */
  method FindFreeRecord(words: array<Word>) returns (free: nat)
    ensures free == FirstErased(Records(words[..]), 0)
  {
    free := 0;
    while free < words.Length / RECORD_WORDS
      invariant free <= words.Length / RECORD_WORDS
      invariant FirstErased(Records(words[..]), free) == FirstErased(Records(words[..]), 0)
    {
      var erased := RecordIsErased(words, free);
      if erased {
        return;
      }
      free := free + 1;
    }
  }

  // ----- programming

  /** Operations after the broken one leave the flash alone. */
  lemma UntouchedAfter(cells: seq<Word>, data: seq<Word>, f: Fault, first: nat, k: nat)
    requires |cells| == |data| && k < |data| && Strikes(f, first + k)
    ensures ProgramWords(cells, data, f, first)[k + 1..] == cells[k + 1..]
    ensures StrikesIn(f, first, |data|)
  {
  }

  lemma NoStrike(f: Fault, first: nat, count: nat)
    requires f.Fail? ==> first + count <= f.at
    ensures !StrikesIn(f, first, count)
  {
  }

  /** Flash from position at on replaced by the first k of some words. */
  function Spliced(before: seq<Word>, at: nat, done: seq<Word>, k: nat): seq<Word>
    requires k <= |done| && at + |done| <= |before|
  {
    before[..at] + done[..k] + before[at + k..]
  }

  lemma SpliceOne(before: seq<Word>, at: nat, done: seq<Word>, k: nat)
    requires k < |done| && at + |done| <= |before|
    ensures |Spliced(before, at, done, k)| == |before|
    ensures Spliced(before, at, done, k)[at + k] == before[at + k]
    ensures Spliced(before, at, done, k)[at + k := done[k]] == Spliced(before, at, done, k + 1)
  {
  }

  lemma SpliceEnds(before: seq<Word>, at: nat, done: seq<Word>)
    requires at + |done| <= |before|
    ensures Spliced(before, at, done, 0) == before
    ensures Spliced(before, at, done, |done|) == before[..at] + done + before[at + |done|..]
    ensures Spliced(before, at, done, |done|)[at..at + |done|] == done
  {
  }

  lemma SpliceRest(before: seq<Word>, at: nat, done: seq<Word>, k: nat)
    requires k <= |done| && at + |done| <= |before|
    requires done[k..] == before[at..at + |done|][k..]
    ensures Spliced(before, at, done, k) == Spliced(before, at, done, |done|)
  {
    assert before[at + k..] == before[at..at + |done|][k..] + before[at + |done|..];
    assert done == done[..k] + done[k..];
  }

  /** A record's words, and the same flash after its first fifteen were written and after its last. */
  lemma RecordParts(before: seq<Word>, i: nat, body: seq<Word>, commit: seq<Word>)
    requires i < |before| / RECORD_WORDS && |body| == 15 && |commit| == 1
    ensures var at, r := RECORD_WORDS * i, Records(before)[i];
            && before[at..at + 15] == r[..15] && before[at + 15..at + 16] == r[15..]
            && (var mid := before[..at] + body + before[at + 15..];
                && mid == before[..at] + (body + r[15..]) + before[at + 16..]
                && mid[at + 15..at + 16] == r[15..]
                && mid[..at + 15] + commit + mid[at + 16..] == before[..at] + (body + commit) + before[at + 16..])
  {
    var at, r := RECORD_WORDS * i, Records(before)[i];
    assert r == before[at..at + 16];
    assert before[at + 15..] == before[at + 15..at + 16] + before[at + 16..];
  }

  /** program_words for whole words: stops at the first HAL error, then compares. */
  method ProgramControlWords(words: array<Word>, at: nat, data: seq<Word>, f: Fault, first: nat) returns (ok: bool)
    requires at + |data| <= words.Length
    requires f.Fail? ==> first <= f.at
    modifies words
    ensures words[..] == old(words[..at]) + ProgramWords(old(words[at..at + |data|]), data, f, first)
                         + old(words[at + |data|..])
    ensures ok == (!StrikesIn(f, first, |data|) && ProgramWords(old(words[at..at + |data|]), data, f, first) == data)
  {
    hide ProgramWord, Spliced, StrikesIn;
    ghost var before := words[..];
    ghost var cells := words[at..at + |data|];
    ghost var done := ProgramWords(cells, data, f, first);
    SpliceEnds(before, at, done);
    var k := 0;
    while k < |data|
      invariant k <= |data|
      invariant f.Fail? ==> first + k <= f.at
      invariant words[..] == Spliced(before, at, done, k)
    {
      SpliceOne(before, at, done, k);
      assert before[at + k] == cells[k];
      var programmed := HalProgram(words, at + k, data[k], f, first + k);
      if !programmed {
        UntouchedAfter(cells, data, f, first, k);
        SpliceRest(before, at, done, k + 1);
        return false;
      }
      k := k + 1;
    }
    NoStrike(f, first, |data|);
    ok := words[at..at + |data|] == data;
  }

  // ----- the driver

  class ControlFlash {
    const sectorA: array<Word>
    const sectorB: array<Word>

    ghost predicate Valid() {
      && sectorA != sectorB
      && sectorA.Length == sectorB.Length
      && sectorA.Length >= RECORD_WORDS
    }

    ghost function Value(): (log: Log)
      requires Valid()
      reads sectorA, sectorB
      ensures Paired(log)
    {
      Log(Records(sectorA[..]), Records(sectorB[..]))
    }

    /** Two erased sectors of n records. */
    constructor (n: nat)
      requires n > 0
      ensures Valid() && fresh(sectorA) && fresh(sectorB)
      ensures sectorA.Length == RECORD_WORDS * n
      ensures Value() == Log(BlankSector(n), BlankSector(n))
    {
      sectorA := new Word[RECORD_WORDS * n](_ => ALL_ONES);
      sectorB := new Word[RECORD_WORDS * n](_ => ALL_ONES);
      new;
      RecordsAfterErase(sectorA[..]);
      RecordsAfterErase(sectorB[..]);
    }

    method FindLatestControlRecord() returns (latest: Latest)
      requires Valid()
      ensures latest == FindLatest(Value())
    {
      latest := ScanControlSector(sectorA, BankA, Nothing);
      latest := ScanControlSector(sectorB, BankB, latest);
    }

    /** flash_read of the control block. */
    method Read() returns (control: seq<Word>)
      requires Valid()
      ensures control == ReadControl(Value())
    {
      var latest := FindLatestControlRecord();
      if latest.Nothing? {
        control := seq(CONTROL_WORDS, _ => ALL_ONES);
      } else {
        control := latest.record[2..14];
      }
    }

    /** Write one record in two program_words calls, then check it. */
    method WriteRecordAt(words: array<Word>, i: nat, record: Record, f: Fault, first: nat) returns (ok: bool)
      requires i < words.Length / RECORD_WORDS && |record| == RECORD_WORDS
      requires f.Fail? ==> first <= f.at
      modifies words
      ensures Records(words[..])
              == Records(old(words[..]))[i := WriteRecord(Records(old(words[..]))[i], record, f, first).0]
      ensures ok == WriteRecord(Records(old(words[..]))[i], record, f, first).1
    {
      hide ProgramWord, ProgramWords, IsValid, Records;
      var at := RECORD_WORDS * i;
      ghost var before := words[..];
      ghost var r := Records(before)[i];
      ghost var body := ProgramWords(r[..15], record[..15], f, first);
      ghost var commit := ProgramWords(r[15..], record[15..], f, first + 15);
      RecordParts(before, i, body, commit);
      ok := ProgramControlWords(words, at, record[..15], f, first);
      RecordsAfterWrite(before, words[..], i, body + r[15..]);
      if !ok {
        return;
      }
      ok := ProgramControlWords(words, at + 15, record[15..], f, first + 15);
      RecordsAfterWrite(before, words[..], i, body + commit);
      if !ok {
        return;
      }
      ok := RecordIsValid(words, i);
    }

    /** append_control_record. */
    method AppendControlRecord(control: seq<Word>, f: Fault) returns (ok: bool)
      requires Valid() && |control| == CONTROL_WORDS
      modifies sectorA, sectorB
      ensures Value() == Append(old(Value()), control, f).0
      ensures ok == Append(old(Value()), control, f).1
    {
      var latest := FindLatestControlRecord();
      var bank := if latest.Nothing? then BankA else latest.bank;
      var free := FindFreeRecord(if bank == BankA then sectorA else sectorB);
      var sequence: u32 := 0;
      if latest.Newest? {
        sequence := Add32(Sequence(latest.record), 1);
      }
      var first := 0;
      if free == sectorA.Length / RECORD_WORDS {
        if latest.Newest? {
          bank := if bank == BankA then BankB else BankA;
        }
        ok := HalErase(if bank == BankA then sectorA else sectorB, f);
        if !ok {
          return;
        }
        free := 0;
        first := 1;
      }
      var record := NewRecord(sequence, control);
      ok := WriteRecordAt(if bank == BankA then sectorA else sectorB, free, record, f, first);
    }
  }
}
