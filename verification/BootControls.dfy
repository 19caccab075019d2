/** Boot control blocks: their fields, their validity, and their words in flash. */
module BootControls {
  import opened Words
  import opened ControlLog

  const BOOT_CONTROL_MAGIC: u32 := 0x4941_5042
  const BOOT_VERSION: u32 := 1
  const DEFAULT_MAX_BOOT_ATTEMPTS: u32 := 3
  const SLOT_A: u32 := 0
  const SLOT_B: u32 := 1
  const SLOT_NONE: u32 := 0xFF

  predicate IsSlot(n: u32) { n == SLOT_A || n == SLOT_B }

  datatype Status = Ok | InvalidArg | StorageError | VerifyError | BootControlError | NoValidImage

  datatype BootControl = BootControl(
    magic: u32, version: u32, active: u32, pending: u32, attempts: u32, maxAttempts: u32,
    crcA: u32, crcB: u32, sizeA: u32, sizeB: u32, confirmedA: u32, confirmedB: u32)
  {
    function Confirmed(slot: u32): u32
      requires IsSlot(slot)
    {
      if slot == SLOT_A then confirmedA else confirmedB
    }

    function Crc(slot: u32): u32
      requires IsSlot(slot)
    {
      if slot == SLOT_A then crcA else crcB
    }

    function Size(slot: u32): u32
      requires IsSlot(slot)
    {
      if slot == SLOT_A then sizeA else sizeB
    }
  }

  function OtherSlot(n: u32): u32 { if n == SLOT_A then SLOT_B else SLOT_A }

  /** iap_boot_control_is_valid */
  predicate ControlIsValid(c: BootControl) {
    && c.magic == BOOT_CONTROL_MAGIC && c.version == BOOT_VERSION
    && IsSlot(c.active)
    && (c.pending == SLOT_NONE || IsSlot(c.pending))
    && c.maxAttempts != 0 && c.attempts <= c.maxAttempts
    && c.confirmedA <= 1 && c.confirmedB <= 1 && c.Confirmed(c.active) == 1
    && (if c.pending == SLOT_NONE then c.attempts == 0
        else c.pending != c.active && c.Confirmed(c.pending) == 0)
  }

  /** iap_default_boot_control */
  function DefaultBootControl(active: u32, maxAttempts: u32): (c: BootControl)
    ensures ControlIsValid(c) && c.pending == SLOT_NONE
    ensures IsSlot(active) ==> c.active == active
    ensures c.Confirmed(OtherSlot(c.active)) == 0 && c.attempts == 0
    ensures c.maxAttempts == if maxAttempts == 0 then 3 else maxAttempts
  {
    var slot := if IsSlot(active) then active else SLOT_A;
    BootControl(BOOT_CONTROL_MAGIC, BOOT_VERSION, slot, SLOT_NONE, 0,
                if maxAttempts == 0 then DEFAULT_MAX_BOOT_ATTEMPTS else maxAttempts,
                0, 0, 0, 0, if slot == SLOT_A then 1 else 0, if slot == SLOT_B then 1 else 0)
  }

  // ----- words

  function Encode(c: BootControl): (words: seq<Word>)
    ensures |words| == CONTROL_WORDS
  {
    [ToWord(c.magic), ToWord(c.version), ToWord(c.active), ToWord(c.pending), ToWord(c.attempts),
     ToWord(c.maxAttempts), ToWord(c.crcA), ToWord(c.crcB), ToWord(c.sizeA), ToWord(c.sizeB),
     ToWord(c.confirmedA), ToWord(c.confirmedB)]
  }

  function Decode(words: seq<Word>): BootControl
    requires |words| == CONTROL_WORDS
  {
    BootControl(UInt(words[0]), UInt(words[1]), UInt(words[2]), UInt(words[3]), UInt(words[4]), UInt(words[5]),
                UInt(words[6]), UInt(words[7]), UInt(words[8]), UInt(words[9]), UInt(words[10]), UInt(words[11]))
  }

  lemma DecodeEncode(c: BootControl)
    ensures Decode(Encode(c)) == c
  {
    hide UInt, ToWord;
    UIntToWord(c.magic);
    UIntToWord(c.version);
    UIntToWord(c.active);
    UIntToWord(c.pending);
    UIntToWord(c.attempts);
    UIntToWord(c.maxAttempts);
    UIntToWord(c.crcA);
    UIntToWord(c.crcB);
    UIntToWord(c.sizeA);
    UIntToWord(c.sizeB);
    UIntToWord(c.confirmedA);
    UIntToWord(c.confirmedB);
  }

  lemma AllOnesNumber()
    ensures UInt(ALL_ONES) == TWO_32 - 1
  {
    var b: Byte := 0xFF;
    assert Split(ALL_ONES) == [b, b, b, b];
    assert b as int == 0xFF;
    assert Number([]) == 0;
    assert [b][1..] == [] && [b, b][1..] == [b] && [b, b, b][1..] == [b, b] && [b, b, b, b][1..] == [b, b, b];
    assert Number([b]) == 0xFF;
    assert Number([b, b]) == 0xFFFF;
    assert Number([b, b, b]) == 0xFF_FFFF;
  }

  /** A control block read from erased flash is not valid. */
  lemma BlankControlInvalid()
    ensures !ControlIsValid(Decode(seq(CONTROL_WORDS, _ => ALL_ONES)))
  {
    AllOnesNumber();
  }
}
