/** The formats in flash, spelled out in bytes and numbers: image headers, control blocks, log records,
    vector tables and the board's map. Every statement here is in literals, so it says on its own what is
    accepted. */
module Formats {
  import opened Words
  import Crc
  import opened ControlLog
  import opened Image
  import opened BootControls
  import opened Core
  import opened Platform
  import opened Stm32Storage

  /** The 32-bit number at an offset, least significant byte first. */
  function Number32(bytes: seq<Byte>, at: nat): (n: u32)
    requires at + 4 <= |bytes|
  {
    bytes[at] as int + 0x100 * (bytes[at + 1] as int) + 0x1_0000 * (bytes[at + 2] as int)
    + 0x100_0000 * (bytes[at + 3] as int)
  }

  lemma NumberOfFour(bytes: seq<Byte>)
    requires |bytes| == 4
    ensures Number(bytes) == Number32(bytes, 0)
  {
    assert bytes[1..][1..] == bytes[2..] && bytes[2..][1..] == bytes[3..] && bytes[3..][1..] == [];
    assert Number(bytes[3..]) == bytes[3] as int;
    assert Number(bytes[2..]) == bytes[2] as int + 0x100 * Number(bytes[3..]);
    assert Number(bytes[1..]) == bytes[1] as int + 0x100 * Number(bytes[2..]);
  }

  lemma UIntIs(w: Word)
    ensures UInt(w) == Number(Split(w))
  {
    hide Split, Number;
  }

  lemma JoinNumber(bytes: seq<Byte>)
    requires |bytes| == 4
    ensures UInt(Join(bytes)) == Number32(bytes, 0)
  {
    hide Join, Split, Number;
    SplitJoin(bytes);
    UIntIs(Join(bytes));
    NumberOfFour(bytes);
  }

  lemma BytesOf()
    ensures Split(0xCBF4_3926) == [0x26, 0x39, 0xF4, 0xCB]
  {
  }

  /** The CRC of "123456789" as the number that is stored, and its bytes in flash in their order. */
  lemma CheckNumber()
    ensures var crc := Crc.Crc32([0x31, 0x32, 0x33, 0x34, 0x35, 0x36, 0x37, 0x38, 0x39]);
            UInt(crc) == 0xCBF4_3926 && Split(crc) == [0x26, 0x39, 0xF4, 0xCB]
  {
    hide Split, Number, Crc.Crc32;
    Crc.CheckValue();
    BytesOf();
    UIntIs(0xCBF4_3926);
    NumberOfFour([0x26, 0x39, 0xF4, 0xCB]);
  }

  lemma FieldNumber(bytes: seq<Byte>, k: nat)
    requires 4 * k + 4 <= |bytes|
    ensures UInt(Field(bytes, k)) == Number32(bytes, 4 * k)
  {
    hide UInt, Join;
    JoinNumber(bytes[4 * k..4 * k + 4]);
  }

  // ----- images

  lemma HeaderFields(bytes: seq<Byte>)
    requires |bytes| >= 24
    ensures var h := DecodeHeader(bytes);
            && h.magic == Number32(bytes, 0) && h.headerSize == Number32(bytes, 4)
            && h.imageSize == Number32(bytes, 8) && UInt(h.imageCrc) == Number32(bytes, 12)
            && h.version == Number32(bytes, 16) && h.flags == Number32(bytes, 20)
  {
    hide UInt, Field, Number32;
    FieldNumber(bytes, 0);
    FieldNumber(bytes, 1);
    FieldNumber(bytes, 2);
    FieldNumber(bytes, 3);
    FieldNumber(bytes, 4);
    FieldNumber(bytes, 5);
  }

  /** The header of some bytes, for a slot of this size. */
  predicate GoodHeader(bytes: seq<Byte>, slotSize: int)
    requires |bytes| >= 24
  {
    && slotSize > 24
    && Number32(bytes, 0) == 0x4941_5049
    && Number32(bytes, 4) >= 24 && Number32(bytes, 4) % 4 == 0 && Number32(bytes, 4) < slotSize
    && Number32(bytes, 8) > 0 && Number32(bytes, 4) + Number32(bytes, 8) <= slotSize
    && Number32(bytes, 16) == 1
  }

  lemma HeaderIsValidIff(bytes: seq<Byte>, slotSize: u32)
    requires |bytes| >= 24
    ensures HeaderIsValid(slotSize, DecodeHeader(bytes)) <==> GoodHeader(bytes, slotSize)
  {
    hide DecodeHeader, Number32;
    HeaderFields(bytes);
  }

  lemma ToWordUInt(w: Word)
    ensures ToWord(UInt(w)) == w
  {
    DigitsNumber(Split(w));
    JoinSplit(w);
  }

  lemma WordsEqual(a: Word, b: Word)
    ensures UInt(a) == UInt(b) <==> a == b
  {
    ToWordUInt(a);
    ToWordUInt(b);
  }

  lemma HeaderEnds(slotSize: u32, h: Header)
    requires HeaderIsValid(slotSize, h)
    ensures h.headerSize + h.imageSize <= slotSize
  {
  }

  /** A slot verifies if and only if its first 24 bytes are an accepted header and the number at offset
      12 is the CRC of the payload. */
  lemma SoundIff(slot: SlotBytes)
    ensures Sound(slot) <==>
              && GoodHeader(slot, |slot|)
              && var first := Number32(slot, 4);
                 UInt(Crc.Crc32(slot[first..first + Number32(slot, 8)])) == Number32(slot, 12)
  {
    hide DecodeHeader, Number32, Crc.Crc32, HeaderIsValid, UInt;
    HeaderFields(slot);
    HeaderIsValidIff(slot, |slot|);
    var h := DecodeHeader(slot);
    if HeaderIsValid(|slot|, h) {
      HeaderEnds(|slot|, h);
      WordsEqual(Crc.Crc32(slot[h.headerSize..h.headerSize + h.imageSize]), h.imageCrc);
    }
  }

  /** The installer takes an image if and only if it is exactly an accepted header with its padding and
      a payload of the announced size and CRC. */
  lemma CandidateIff(image: seq<Byte>)
    requires |image| >= 24
    ensures Candidate(image) <==>
              && GoodHeader(image, 0x4_0000)
              && |image| == Number32(image, 4) + Number32(image, 8)
              && UInt(Crc.Crc32(image[Number32(image, 4)..])) == Number32(image, 12)
  {
    hide DecodeHeader, Number32, Crc.Crc32, HeaderIsValid, UInt;
    HeaderFields(image);
    HeaderIsValidIff(image, 0x4_0000);
    var h := DecodeHeader(image);
    if HeaderIsValid(0x4_0000, h) {
      HeaderEnds(0x4_0000, h);
      if h.headerSize <= |image| {
        WordsEqual(Crc.Crc32(image[h.headerSize..]), h.imageCrc);
      }
    }
  }

  lemma SubNumber(bytes: seq<Byte>, first: nat, count: nat, at: nat)
    requires first + count <= |bytes| && at + 4 <= count
    ensures Number32(bytes[first..first + count], at) == Number32(bytes, first + at)
  {
  }

  /** The platform starts what is at an address if and only if the address is aligned, the first word
      there is a stack pointer into RAM, and the second an odd address inside the slot behind its header. */
  lemma JumpAcceptsIff(slot: u32, address: int, flash: SlotBytes)
    ensures JumpAccepts(slot, address, flash) <==>
              && address % 0x200 == 0
              && var base := if slot == 0 then 0x0802_0000 else 0x0806_0000;
                 && 0 <= address - base <= |flash| - 8
                 && var sp, reset := Number32(flash, address - base), Number32(flash, address - base + 4);
                    && (0x2000_0000 <= sp <= 0x2002_0000 || 0x1000_0000 <= sp <= 0x1001_0000)
                    && reset % 2 == 1 && base + 0x200 <= reset - 1 < base + 0x4_0000
  {
    hide Number32, Field, UInt;
    var at := address - SlotAddress(slot);
    if 0 <= at <= |flash| - 8 {
      var vectors := flash[at..at + 8];
      FieldNumber(vectors, 0);
      FieldNumber(vectors, 1);
      SubNumber(flash, at, 8, 0);
      SubNumber(flash, at, 8, 4);
    }
  }

  // ----- control blocks

  /** The twelve words of a control block, as numbers. */
  predicate GoodControl(words: seq<Word>)
    requires |words| == 12
  {
    var active, pending := UInt(words[2]), UInt(words[3]);
    && UInt(words[0]) == 0x4941_5042 && UInt(words[1]) == 1
    && (active == 0 || active == 1) && (pending == 0 || pending == 1 || pending == 0xFF)
    && UInt(words[5]) > 0 && UInt(words[4]) <= UInt(words[5])
    && UInt(words[10]) <= 1 && UInt(words[11]) <= 1 && UInt(words[10 + active]) == 1
    && (if pending == 0xFF then UInt(words[4]) == 0 else pending != active && UInt(words[10 + pending]) == 0)
  }

  lemma ControlIsValidIff(words: seq<Word>)
    requires |words| == 12
    ensures ControlIsValid(Decode(words)) <==> GoodControl(words)
  {
    hide UInt;
  }

  /** Where each field of a control block is. */
  lemma ControlWords(c: BootControl)
    ensures var words := Encode(c);
            && |words| == 12
            && UInt(words[0]) == c.magic && UInt(words[1]) == c.version
            && UInt(words[2]) == c.active && UInt(words[3]) == c.pending
            && UInt(words[4]) == c.attempts && UInt(words[5]) == c.maxAttempts
            && UInt(words[6]) == c.crcA && UInt(words[7]) == c.crcB
            && UInt(words[8]) == c.sizeA && UInt(words[9]) == c.sizeB
            && UInt(words[10]) == c.confirmedA && UInt(words[11]) == c.confirmedB
  {
    hide UInt, ToWord;
    DecodeEncode(c);
  }

  // ----- log records

  /** A record is sixteen words: magic, sequence number, control block, CRC of those two, commit. */
  lemma RecordFormat(sequence: u32, control: seq<Word>)
    requires |control| == 12
    ensures var r := NewRecord(sequence, control);
            && |r| == 16 && r[0] == 0x4941_504A && UInt(r[1]) == sequence && r[2..14] == control
            && r[14] == Crc.Crc32(WordBytes([r[1]] + control)) && r[15] == 0x434F_4D54
  {
    hide Crc.Crc32, WordBytes;
    UIntToWord(sequence);
  }

  lemma RecordIsValidIff(r: seq<Word>)
    requires |r| == 16
    ensures IsValid(r) <==>
              r[0] == 0x4941_504A && r[15] == 0x434F_4D54 && r[14] == Crc.Crc32(WordBytes([r[1]] + r[2..14]))
    ensures IsErased(r) <==> forall k :: 0 <= k < 16 ==> r[k] == 0xFFFF_FFFF
    ensures Sequence(r) == UInt(r[1]) && ControlOf(r) == r[2..14]
  {
    hide Crc.Crc32, WordBytes, UInt;
    assert r[1..14] == [r[1]] + r[2..14];
  }

  // ----- the board

  /** Slots, control block and flash ends. */
  lemma BoardMap()
    ensures SlotAddress(0) == 0x0802_0000 && SlotAddress(1) == 0x0806_0000 && SLOT_SIZE == 0x4_0000
    ensures CONTROL_ADDRESS == 0x080A_0000 && CONTROL_BYTES == 48
    ensures FLASH_BASE == 0x0800_0000 && FLASH_END == 0x0810_0000
  {
  }

  /** A range belongs to a slot if and only if it is not empty and lies inside it. */
  lemma RangeSlotIff(address: u32, size: nat)
    ensures RangeSlot(address, size) == 0 <==> size > 0 && 0x0802_0000 <= address && address + size <= 0x0806_0000
    ensures RangeSlot(address, size) == 1 <==> size > 0 && 0x0806_0000 <= address && address + size <= 0x080A_0000
    ensures RangeSlot(address, size) in {0, 1, 0xFF}
  {
  }
}
