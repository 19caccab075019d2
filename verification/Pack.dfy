/** The image packer of tools/pack_image.py, and the way an image takes from it through the installer
    to the platform's jump. */
module Pack {
  import opened Words
  import Crc
  import opened Image
  import opened BootControls
  import opened Core
  import opened Platform
  import opened Formats
  import opened BootTheorems
  import opened Installs

  datatype Packed =
    | Rejected
    | Packed(image: seq<Byte>, crc: Word, stackPointer: u32, resetHandler: u32)

  /** validate_vector_table: the first two words of the payload. */
  predicate VectorTableIsValid(payload: seq<Byte>, bootAddress: int) {
    && |payload| >= VECTOR_BYTES
    && var sp, reset := UInt(Field(payload, 0)), UInt(Field(payload, 1));
       && StackPointerIsValid(sp)
       && reset % 2 == 1
       && bootAddress <= reset - 1 < bootAddress + |payload|
  }

  /** binascii.crc32, by table as in section 8 of RFC 1952. */
  function BinasciiCrc32(data: seq<Byte>): Word {
    Crc.Xor(Crc.TableUpdate(Crc.Xor(0, 0xFFFF_FFFF), data), 0xFFFF_FFFF)
  }

  function PackHeader(h: Header): (bytes: seq<Byte>)
    ensures |bytes| == HEADER_BYTES
  {
    WordBytes([ToWord(h.magic), ToWord(h.headerSize), ToWord(h.imageSize), h.imageCrc, ToWord(h.version),
               ToWord(h.flags)])
  }

  /** build_image; every ValueError, and a number that does not fit its header field, is Rejected. */
  function BuildImage(payload: seq<Byte>, slotAddress: int, slotSize: int, headerSize: int): Packed {
    if headerSize < HEADER_BYTES || headerSize % 4 != 0 then Rejected
    else if headerSize + |payload| > slotSize then Rejected
    else if !VectorTableIsValid(payload, slotAddress + headerSize) then Rejected
    else if headerSize >= TWO_32 || |payload| >= TWO_32 then Rejected
    else
      var crc := BinasciiCrc32(payload);
      var h := Header(IMAGE_MAGIC, headerSize, |payload|, crc, IMAGE_HEADER_VERSION, 0);
      Packed(PackHeader(h) + seq(headerSize - HEADER_BYTES, _ => 0xFF as Byte) + payload, crc,
             UInt(Field(payload, 0)), UInt(Field(payload, 1)))
  }

  // ----- the header comes back

  lemma PackHeaderDecodes(h: Header, rest: seq<Byte>)
    ensures DecodeHeader(PackHeader(h) + rest) == h
  {
    hide UInt, ToWord, Field, WordBytes;
    var words := [ToWord(h.magic), ToWord(h.headerSize), ToWord(h.imageSize), h.imageCrc, ToWord(h.version),
                  ToWord(h.flags)];
    FieldOfWords(words, rest, 0);
    FieldOfWords(words, rest, 1);
    FieldOfWords(words, rest, 2);
    FieldOfWords(words, rest, 3);
    FieldOfWords(words, rest, 4);
    FieldOfWords(words, rest, 5);
    UIntToWord(h.magic);
    UIntToWord(h.headerSize);
    UIntToWord(h.imageSize);
    UIntToWord(h.version);
    UIntToWord(h.flags);
  }

  /** The packer's CRC is the one the device computes. */
  lemma PackerCrcAgrees(data: seq<Byte>)
    ensures BinasciiCrc32(data) == Crc.Crc32(data)
  {
    assert Crc.Xor(0, 0xFFFF_FFFF) == Crc.INITIAL;
    Crc.TableForm(Crc.INITIAL, data);
  }

  // ----- from the packer to the jump

  lemma VectorTableLong(payload: seq<Byte>, bootAddress: int)
    requires VectorTableIsValid(payload, bootAddress)
    ensures |payload| >= 8
  {
  }

  /** What BuildImage promises about an image it does not reject. */
  lemma PackedImage(payload: seq<Byte>, slotAddress: int, slotSize: int, headerSize: int)
    requires BuildImage(payload, slotAddress, slotSize, headerSize).Packed?
    ensures var image := BuildImage(payload, slotAddress, slotSize, headerSize).image;
            && HEADER_BYTES <= headerSize < TWO_32 && 8 <= |payload| < TWO_32 && headerSize % 4 == 0
            && |image| == headerSize + |payload| <= slotSize
            && image[headerSize..] == payload
            && VectorTableIsValid(payload, slotAddress + headerSize)
            && DecodeHeader(image)
               == Header(IMAGE_MAGIC, headerSize, |payload|, Crc.Crc32(payload), IMAGE_HEADER_VERSION, 0)
  {
    hide PackHeader, DecodeHeader, BinasciiCrc32, VectorTableIsValid, Field, UInt;
    var h := Header(IMAGE_MAGIC, headerSize, |payload|, BinasciiCrc32(payload), IMAGE_HEADER_VERSION, 0);
    var rest := seq(headerSize - HEADER_BYTES, _ => 0xFF as Byte) + payload;
    PackHeaderDecodes(h, rest);
    PackerCrcAgrees(payload);
    VectorTableLong(payload, slotAddress + headerSize);
    assert BuildImage(payload, slotAddress, slotSize, headerSize).image == PackHeader(h) + rest;
  }

  /** What the packer accepts: a header size of at least 24 that is a multiple of 4, a payload that fits
      behind it and starts with a stack pointer into RAM and an odd reset address inside itself, and
      sizes that fit their header fields. */
  lemma BuildImageIff(payload: seq<Byte>, slotAddress: int, slotSize: int, headerSize: int)
    ensures BuildImage(payload, slotAddress, slotSize, headerSize).Packed? <==>
              && 24 <= headerSize < 0x1_0000_0000 && headerSize % 4 == 0
              && 8 <= |payload| < 0x1_0000_0000 && headerSize + |payload| <= slotSize
              && var sp, reset, boot := Number32(payload, 0), Number32(payload, 4), slotAddress + headerSize;
                 && (0x2000_0000 <= sp <= 0x2002_0000 || 0x1000_0000 <= sp <= 0x1001_0000)
                 && reset % 2 == 1 && boot <= reset - 1 < boot + |payload|
  {
    hide Number32, Field, UInt, PackHeader, BinasciiCrc32;
    if |payload| >= 8 {
      FieldNumber(payload, 0);
      FieldNumber(payload, 1);
    }
  }

  /** What it writes: the six header fields, padding of ones, and the payload; and what it reports. */
  lemma PackedBytes(payload: seq<Byte>, slotAddress: int, slotSize: int, headerSize: int)
    requires BuildImage(payload, slotAddress, slotSize, headerSize).Packed?
    ensures var p := BuildImage(payload, slotAddress, slotSize, headerSize);
            && 24 <= headerSize && |payload| >= 8 && |p.image| == headerSize + |payload|
            && Number32(p.image, 0) == 0x4941_5049 && Number32(p.image, 4) == headerSize
            && Number32(p.image, 8) == |payload| && Number32(p.image, 12) == UInt(Crc.Crc32(payload))
            && Number32(p.image, 16) == 1 && Number32(p.image, 20) == 0
            && (forall i :: 24 <= i < headerSize ==> p.image[i] == 0xFF)
            && p.image[headerSize..] == payload
            && p.crc == Crc.Crc32(payload)
            && p.stackPointer == Number32(payload, 0) && p.resetHandler == Number32(payload, 4)
  {
    hide PackHeader, DecodeHeader, BinasciiCrc32, VectorTableIsValid, Field, UInt, Number32, Crc.Crc32;
    PackedImage(payload, slotAddress, slotSize, headerSize);
    PackerCrcAgrees(payload);
    HeaderFields(BuildImage(payload, slotAddress, slotSize, headerSize).image);
    FieldNumber(payload, 0);
    FieldNumber(payload, 1);
    assert forall i :: 24 <= i < headerSize ==>
             BuildImage(payload, slotAddress, slotSize, headerSize).image[i]
             == (seq(headerSize - HEADER_BYTES, _ => 0xFF as Byte) + payload)[i - 24];
  }

  /** Every image packed for a slot passes the installer's checks. */
  lemma PackedIsCandidate(payload: seq<Byte>, slot: u32, headerSize: int)
    requires BuildImage(payload, SlotAddress(slot), SLOT_SIZE, headerSize).Packed?
    ensures var image := BuildImage(payload, SlotAddress(slot), SLOT_SIZE, headerSize).image;
            HEADER_BYTES <= |image| <= SLOT_SIZE && Candidate(image)
  {
    hide DecodeHeader, BuildImage, Crc.Crc32, VectorTableIsValid;
    PackedImage(payload, SlotAddress(slot), SLOT_SIZE, headerSize);
  }

  /** The image at rest in a slot gives back its header size and its payload. */
  lemma InstalledPayload(image: seq<Byte>, payload: seq<Byte>, headerSize: nat, slot: SlotBytes)
    requires HEADER_BYTES <= |image| <= SLOT_SIZE == |slot| && slot == Padded(image) && Candidate(image) && Sound(slot)
    requires DecodeHeader(image).headerSize == headerSize && DecodeHeader(image).imageSize == |payload|
    requires headerSize <= |image| == headerSize + |payload| && image[headerSize..] == payload
    ensures DecodeHeader(slot) == DecodeHeader(image) && Payload(slot) == payload
    ensures slot[headerSize..headerSize + |payload|] == payload
  {
    hide DecodeHeader, Crc.Crc32;
    CandidateIsSound(image, slot);
    assert slot[headerSize..headerSize + |payload|] == slot[..|image|][headerSize..];
  }

  lemma VectorFields(payload: seq<Byte>)
    requires |payload| >= VECTOR_BYTES
    ensures Field(payload[..VECTOR_BYTES], 0) == Field(payload, 0)
    ensures Field(payload[..VECTOR_BYTES], 1) == Field(payload, 1)
  {
    assert payload[..VECTOR_BYTES][0..4] == payload[0..4];
    assert payload[..VECTOR_BYTES][4..8] == payload[4..8];
  }

  /** Of the platform's jump checks only the alignment of the header is not already guaranteed by
      the packer. */
  lemma PackedJumps(payload: seq<Byte>, slot: u32, headerSize: nat, flash: SlotBytes)
    requires IsSlot(slot) && BuildImage(payload, SlotAddress(slot), SLOT_SIZE, headerSize).Packed?
    requires headerSize + |payload| <= |flash| && flash[headerSize..headerSize + |payload|] == payload
    ensures JumpAccepts(slot, SlotAddress(slot) + headerSize, flash) <==> headerSize % IMAGE_HEADER_SIZE == 0
  {
    hide DecodeHeader, Crc.Crc32, BuildImage, Field, UInt, StackPointerIsValid;
    PackedImage(payload, SlotAddress(slot), SLOT_SIZE, headerSize);
    VectorFields(payload);
    assert flash[headerSize..headerSize + VECTOR_BYTES] == payload[..VECTOR_BYTES];
  }

  /** Pack, install, verify, boot: every image packed for a slot is installed, verifies, boots at
      slot address plus header size, gives back its payload, and is jumped to exactly if the header
      size is a multiple of the vector table alignment. */
  lemma PackInstallBoot(payload: seq<Byte>, slot: u32, headerSize: int, b: Board, protected: u32)
    requires b.Wired() && AllFine(b.faults) && IsSlot(slot) && slot != protected
    requires BuildImage(payload, SlotAddress(slot), SLOT_SIZE, headerSize).Packed?
    ensures var image := BuildImage(payload, SlotAddress(slot), SLOT_SIZE, headerSize).image;
            var r := WriteCandidateImage(b, protected, slot, image);
            && r.status == Ok
            && Sound(r.board.Slot(slot))
            && Payload(r.board.Slot(slot)) == payload
            && BootAddress(r.board, slot) == SlotAddress(slot) + headerSize
            && (Bootable(r.board, slot) <==> headerSize % IMAGE_HEADER_SIZE == 0)
  {
    hide DecodeHeader, Crc.Crc32, BuildImage, JumpAccepts, WriteCandidateImage, Candidate, Sound, AllFine,
         VectorTableIsValid, Padded;
    var image := BuildImage(payload, SlotAddress(slot), SLOT_SIZE, headerSize).image;
    PackedImage(payload, SlotAddress(slot), SLOT_SIZE, headerSize);
    PackedIsCandidate(payload, slot, headerSize);
    InstallContract(b, protected, slot, image);
    var r := WriteCandidateImage(b, protected, slot, image);
    InstalledPayload(image, payload, headerSize, r.board.Slot(slot));
    PackedJumps(payload, slot, headerSize, r.board.Slot(slot));
  }
}
