/** The two-sector control log of examples/stm32f407/src/stm32_iap_storage.c, on values:
    a sector is a sequence of 16-word records. */
module ControlLog {
  import opened Words
  import opened Crc
  import opened Faults

  const RECORD_MAGIC: Word := 0x4941_504A
  const RECORD_COMMIT: Word := 0x434F_4D54
  const RECORD_WORDS := 16
  const CONTROL_WORDS := 12

  type Record = seq<Word>
  type Sector = seq<Record>

  datatype Bank = BankA | BankB {
    function Other(): Bank { if this == BankA then BankB else BankA }
  }

  datatype Log = Log(a: Sector, b: Sector) {
    function Sector(bank: Bank): Sector { if bank == BankA then a else b }

    function With(bank: Bank, s: Sector): Log { if bank == BankA then Log(s, b) else Log(a, s) }
  }

  /** The record scan_control_sector has settled on so far. */
  datatype Latest = Nothing | Newest(bank: Bank, index: nat, record: Record)

  // ----- records

  predicate IsErased(r: Record) { forall k :: 0 <= k < |r| ==> r[k] == ALL_ONES }

  predicate IsValid(r: Record)
    requires |r| == RECORD_WORDS
  {
    r[0] == RECORD_MAGIC && r[15] == RECORD_COMMIT && Crc32(WordBytes(r[1..14])) == r[14]
  }

  function Sequence(r: Record): u32
    requires |r| == RECORD_WORDS
  {
    UInt(r[1])
  }

  function ControlOf(r: Record): seq<Word>
    requires |r| == RECORD_WORDS
  {
    r[2..14]
  }

  function Blank(): Record { seq(RECORD_WORDS, _ => ALL_ONES) }

  function NewRecord(sequence: u32, control: seq<Word>): (r: Record)
    requires |control| == CONTROL_WORDS
    ensures |r| == RECORD_WORDS
  {
    var body := [ToWord(sequence)] + control;
    [RECORD_MAGIC] + body + [Crc32(WordBytes(body)), RECORD_COMMIT]
  }

  // ----- scanning

  /** (int32_t)(candidate - current) > 0 */
  predicate SequenceIsNewer(candidate: u32, current: u32) {
    0 < (candidate - current) % TWO_32 < 0x8000_0000
  }

  predicate Shaped(s: Sector) { forall i :: 0 <= i < |s| ==> |s[i]| == RECORD_WORDS }

  function Better(r: Record, best: Latest): bool
    requires |r| == RECORD_WORDS && (best.Newest? ==> |best.record| == RECORD_WORDS)
  {
    IsValid(r) && (best.Nothing? || SequenceIsNewer(Sequence(r), Sequence(best.record)))
  }

  /** scan_control_sector from record i on; it stops at the first erased record. */
  function Scan(s: Sector, bank: Bank, i: nat, best: Latest): (r: Latest)
    requires Shaped(s) && i <= |s| && (best.Newest? ==> |best.record| == RECORD_WORDS)
    ensures r.Newest? ==> |r.record| == RECORD_WORDS
    decreases |s| - i
  {
    if i == |s| || IsErased(s[i]) then best
    else Scan(s, bank, i + 1, if Better(s[i], best) then Newest(bank, i, s[i]) else best)
  }

  /** Two sectors of the same size, not empty. */
  predicate Paired(log: Log) { Shaped(log.a) && Shaped(log.b) && |log.a| == |log.b| > 0 }

  function FindLatest(log: Log): (r: Latest)
    requires Paired(log)
    ensures r.Newest? ==> |r.record| == RECORD_WORDS
  {
    Scan(log.b, BankB, 0, Scan(log.a, BankA, 0, Nothing))
  }

  /** find_free_record_address: the first erased record at or after i, or the capacity. */
  function FirstErased(s: Sector, i: nat): (r: nat)
    requires i <= |s|
    ensures i <= r <= |s|
    ensures r < |s| ==> IsErased(s[r])
    ensures forall k :: i <= k < r ==> !IsErased(s[k])
    decreases |s| - i
  {
    if i == |s| || IsErased(s[i]) then i else FirstErased(s, i + 1)
  }

  // ----- changing the flash

  function TearErase(s: Sector, f: Fault): (r: Sector)
    requires Shaped(s) && f.Fail?
    ensures |r| == |s| && Shaped(r)
  {
    seq(|s|, i requires 0 <= i < |s| =>
      seq(RECORD_WORDS, k requires 0 <= k < RECORD_WORDS => TearErasedWord(s[i][k], f, RECORD_WORDS * i + k)))
  }

  function BlankSector(n: nat): (r: Sector)
    ensures |r| == n && Shaped(r)
  {
    seq(n, _ => Blank())
  }

  /** erase_sector as operation 0 of its call. */
  function EraseSector(s: Sector, f: Fault): (r: Sector)
    requires Shaped(s)
    ensures |r| == |s| && Shaped(r)
  {
    if Strikes(f, 0) then TearErase(s, f) else BlankSector(|s|)
  }

  /** The two program_words calls and the final check of append_control_record. */
  function WriteRecord(r: Record, data: Record, f: Fault, first: nat): (res: (Record, bool))
    requires |r| == |data| == RECORD_WORDS
    ensures |res.0| == RECORD_WORDS
  {
    var body := ProgramWords(r[..15], data[..15], f, first);
    if StrikesIn(f, first, 15) || body != data[..15] then (body + r[15..], false)
    else
      var commit := ProgramWords(r[15..], data[15..], f, first + 15);
      if Strikes(f, first + 15) || commit != data[15..] then (body + commit, false)
      else (body + commit, IsValid(body + commit))
  }

  /** Which sector an append works on, where in it, and whether it erases that sector first. */
  datatype Target = Target(bank: Bank, index: nat, erase: bool, sequence: u32)

  function TargetFor(log: Log, latest: Latest): (t: Target)
    requires Paired(log)
    requires latest.Newest? ==> |latest.record| == RECORD_WORDS
    ensures t.index < |log.Sector(t.bank)|
  {
    var bank := if latest.Nothing? then BankA else latest.bank;
    var sequence := if latest.Nothing? then 0 else Add32(Sequence(latest.record), 1);
    var free := FirstErased(log.Sector(bank), 0);
    if free < |log.Sector(bank)| then Target(bank, free, false, sequence)
    else Target(if latest.Nothing? then BankA else bank.Other(), 0, true, sequence)
  }

  function ChooseTarget(log: Log): (t: Target)
    requires Paired(log)
    ensures t.index < |log.Sector(t.bank)|
  {
    TargetFor(log, FindLatest(log))
  }

  /** append_control_record: the new flash, and whether it returned IAP_OK. */
  function Append(log: Log, control: seq<Word>, f: Fault): (res: (Log, bool))
    requires Paired(log)
    requires |control| == CONTROL_WORDS
    ensures Paired(res.0) && |res.0.a| == |log.a|
  {
    var t := ChooseTarget(log);
    var s := if t.erase then EraseSector(log.Sector(t.bank), f) else log.Sector(t.bank);
    if t.erase && Strikes(f, 0) then (log.With(t.bank, s), false)
    else
      var (r, ok) := WriteRecord(s[t.index], NewRecord(t.sequence, control), f, if t.erase then 1 else 0);
      (log.With(t.bank, s[t.index := r]), ok)
  }

  /** What flash_read returns for the control block: all ones when no record is valid. */
  function ReadControl(log: Log): (control: seq<Word>)
    requires Paired(log)
    ensures |control| == CONTROL_WORDS
  {
    var latest := FindLatest(log);
    if latest.Nothing? then seq(CONTROL_WORDS, _ => ALL_ONES) else ControlOf(latest.record)
  }
}
