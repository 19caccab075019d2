/** src/iap_core.c and src/iap_bootloader.c as they run on the storage driver. Each operation is
    tied to the function of Core that carries its theorems. */
module IapCore {
  import opened Words
  import Crc
  import opened Faults
  import opened ControlLog
  import opened Image
  import opened BootControls
  import opened Core
  import opened Stm32Storage

  lemma Stm32LayoutAccepted()
    ensures InitAccepts(SlotDesc(0x0802_0000, 0x4_0000), SlotDesc(0x0806_0000, 0x4_0000), 0x080A_0000)
    ensures InitAccepts(SlotDesc(SLOT_A_ADDRESS, SLOT_SIZE), SlotDesc(SLOT_B_ADDRESS, SLOT_SIZE), CONTROL_ADDRESS)
  {
  }

  /** Any chunk inside a slot is a range of that slot, and of no other, and is not the control block. */
  lemma SlotRange(slot: u32, offset: nat, size: nat)
    requires IsSlot(slot) && size > 0 && offset + size <= SLOT_SIZE
    ensures SlotAddress(slot) + offset < TWO_32 && Add32(SlotAddress(slot), offset) == SlotAddress(slot) + offset
    ensures RangeSlot(SlotAddress(slot) + offset, size) == slot
    ensures RangeIsWithin(SlotAddress(slot) + offset, size, FLASH_BASE, FLASH_END - FLASH_BASE)
    ensures SlotAddress(slot) + offset != CONTROL_ADDRESS
  {
  }

  lemma ChunksStep(remaining: u32, chunk: u32)
    requires remaining > 0 && chunk == if remaining > CHUNK then CHUNK else remaining
    ensures Chunks(remaining) == 1 + Chunks(remaining - chunk)
  {
  }

  lemma ReadsStep(faults: seq<Fault>, count: nat)
    requires count > 0
    ensures faults == [] ==> Reads(faults, count) == (true, [])
    ensures faults != [] && Strikes(faults[0], 0) ==> Reads(faults, count) == (false, faults[1..])
    ensures faults != [] && !Strikes(faults[0], 0) ==> Reads(faults, count) == Reads(faults[1..], count - 1)
    ensures Reads([], count) == (true, []) && Reads(faults, 0) == (true, faults)
    ensures faults == [] ==> Reads(faults, count - 1) == (true, [])
  {
  }

  lemma ChunkSummed(crc: Word, payload: seq<Byte>, at: nat, chunk: nat)
    requires at + chunk <= |payload|
    ensures Crc.Update(Crc.Update(crc, payload[at..at + chunk]), payload[at + chunk..])
            == Crc.Update(crc, payload[at..])
  {
    Crc.UpdateConcat(crc, payload[at..at + chunk], payload[at + chunk..]);
    assert payload[at..] == payload[at..at + chunk] + payload[at + chunk..];
  }

  lemma SliceOfSlice(s: seq<Byte>, first: nat, last: nat, at: nat, chunk: nat)
    requires first + at + chunk <= last <= |s|
    ensures s[first..last][at..at + chunk] == s[first + at..first + at + chunk]
  {
    var part := s[first..last];
    assert forall i :: at <= i < at + chunk ==> part[i] == s[first + i];
  }

  lemma AllSummed(crc: Word, payload: seq<Byte>)
    requires Crc.Update(crc, payload[|payload|..]) == Crc.Update(Crc.INITIAL, payload)
    ensures crc ^ Crc.INITIAL == Crc.Crc32(payload)
  {
    assert payload[|payload|..] == [];
  }

  lemma RolledBackKeepsActive(c: BootControl)
    ensures RolledBack(c).active == c.active
  {
  }

  lemma HeaderInside(image: seq<Byte>, h: Header)
    requires HeaderIsValid(SLOT_SIZE, h) && |image| == Add32(h.headerSize, h.imageSize)
    ensures h.headerSize <= |image| && |image| > 0
  {
  }

  /** Writing from the first byte of a slot. */
  lemma WholeSlot(cells: seq<Byte>, image: seq<Byte>, f: Fault)
    requires |image| <= |cells|
    ensures Programmed(cells, 0, image, f) == ProgramSlot(cells, image, f)
    ensures cells[0..] == cells
  {
    assert cells[0..] == cells;
  }

  lemma NoChunks(desc: SlotDesc, offset: u32)
    ensures Chunks(0) == 0 && ChunkReads(desc, offset, 0) == []
  {
  }

  /** The descriptor of a slot of the board. */
  function SlotLayout(slot: u32): SlotDesc { SlotDesc(SlotAddress(slot), SLOT_SIZE) }

  /** The call that one turn of the chunk loop makes. */
  lemma ChunkCall(calls: seq<ReadCall>, desc: SlotDesc, offset: u32, remaining: u32, chunk: u32)
    requires remaining > 0 && chunk == (if remaining > CHUNK then CHUNK else remaining) && offset + remaining < TWO_32
    ensures calls + ChunkReads(desc, offset, remaining)
            == calls + [ReadCall(Add32(desc.address, offset), chunk)]
               + ChunkReads(desc, offset + chunk, remaining - chunk)
  {
    hide ChunkReads, Add32, Chunks;
    ChunkReadsAre(desc, offset, remaining);
  }

  /** What the chunk loop has done when it still has to read `remaining` bytes: what is left of its
      faults, its sum and its read calls lead to the same end as at the start. */
  ghost predicate Summing(b: Board, slot: u32, h: Header, start: seq<ReadCall>, faults: seq<Fault>, crc: Word,
                          calls: seq<ReadCall>, remaining: u32)
    requires b.Wired() && HeaderIsValid(SLOT_SIZE, h) && remaining <= h.imageSize
  {
    var payload := b.Slot(slot)[h.headerSize..h.headerSize + h.imageSize];
    && Reads(faults, Chunks(remaining)) == Reads(b.faults, Chunks(h.imageSize))
    && Crc.Update(crc, payload[h.imageSize - remaining..]) == Crc.Update(Crc.INITIAL, payload)
    && calls + ChunkReads(SlotLayout(slot), h.headerSize + (h.imageSize - remaining), remaining)
       == start + ChunkReads(SlotLayout(slot), h.headerSize, h.imageSize)
  }

  lemma HeaderFits(h: Header)
    requires HeaderIsValid(SLOT_SIZE, h)
    ensures h.headerSize + h.imageSize <= SLOT_SIZE && h.imageSize > 0
  {
  }

  lemma SummingStarts(b: Board, slot: u32, h: Header, start: seq<ReadCall>)
    requires b.Wired() && HeaderIsValid(SLOT_SIZE, h)
    ensures Summing(b, slot, h, start, b.faults, Crc.INITIAL, start, h.imageSize)
  {
    hide Crc.Update, Chunks, Reads, ChunkReads, HeaderIsValid;
    HeaderFits(h);
    var payload := b.Slot(slot)[h.headerSize..h.headerSize + h.imageSize];
    assert payload[0..] == payload;
  }

  /** One turn that reads the next chunk. */
  lemma SummingTurn(b: Board, slot: u32, h: Header, start: seq<ReadCall>, faults: seq<Fault>, crc: Word,
                    calls: seq<ReadCall>, remaining: u32, chunk: u32)
    requires b.Wired() && HeaderIsValid(SLOT_SIZE, h) && 0 < remaining <= h.imageSize
    requires chunk == (if remaining > CHUNK then CHUNK else remaining)
    requires Summing(b, slot, h, start, faults, crc, calls, remaining)
    ensures var offset := h.headerSize + (h.imageSize - remaining);
            var next := if faults == [] then Fine else faults[0];
            && offset + chunk <= SLOT_SIZE
            && (var calls' := calls + [ReadCall(Add32(SlotAddress(slot), offset), chunk)];
                && calls' <= start + ChunkReads(SlotLayout(slot), h.headerSize, h.imageSize)
                && (if Strikes(next, 0) then Reads(b.faults, Chunks(h.imageSize)) == (false, faults[1..])
                    else Summing(b, slot, h, start, if faults == [] then [] else faults[1..],
                                 Crc.Update(crc, b.Slot(slot)[offset..offset + chunk]), calls', remaining - chunk)))
  {
    hide Crc.Update, Chunks, Reads, ChunkReads, HeaderIsValid;
    HeaderFits(h);
    var at, offset := h.imageSize - remaining, h.headerSize + (h.imageSize - remaining);
    var payload := b.Slot(slot)[h.headerSize..h.headerSize + h.imageSize];
    ChunksStep(remaining, chunk);
    ReadsStep(faults, Chunks(remaining));
    SliceOfSlice(b.Slot(slot), h.headerSize, h.headerSize + h.imageSize, at, chunk);
    ChunkSummed(crc, payload, at, chunk);
    ChunkCall(calls, SlotLayout(slot), offset, remaining, chunk);
  }

  /** Nothing left to read. */
  lemma SummingEnds(b: Board, slot: u32, h: Header, start: seq<ReadCall>, faults: seq<Fault>, crc: Word,
                    calls: seq<ReadCall>)
    requires b.Wired() && HeaderIsValid(SLOT_SIZE, h) && Summing(b, slot, h, start, faults, crc, calls, 0)
    ensures Reads(b.faults, Chunks(h.imageSize)) == (true, faults)
    ensures crc ^ Crc.INITIAL == Crc.Crc32(b.Slot(slot)[h.headerSize..h.headerSize + h.imageSize])
    ensures calls == start + ChunkReads(SlotLayout(slot), h.headerSize, h.imageSize)
  {
    hide Crc.Update, Crc.Crc32, Chunks, Reads, ChunkReads, HeaderIsValid;
    HeaderFits(h);
    NoChunks(SlotLayout(slot), h.headerSize + h.imageSize);
    ReadsStep(faults, 1);
    AllSummed(crc, b.Slot(slot)[h.headerSize..h.headerSize + h.imageSize]);
  }

  class IapContext {
    const storage: Stm32Storage
    const maxBootAttempts: u32

    constructor (storage: Stm32Storage, maxBootAttempts: u32)
      ensures this.storage == storage
      ensures this.maxBootAttempts == if maxBootAttempts == 0 then 3 else maxBootAttempts
    {
      this.storage := storage;
      this.maxBootAttempts := if maxBootAttempts == 0 then DEFAULT_MAX_BOOT_ATTEMPTS else maxBootAttempts;
    }

    ghost function Footprint(): set<object> {
      {storage, storage.slotA, storage.slotB, storage.control.sectorA, storage.control.sectorB}
    }

    ghost function Value(): (b: Board)
      requires storage.Valid()
      reads Footprint()
      ensures b.Wired()
    {
      storage.Value()
    }

    /** iap_read_header */
    method ReadHeader(slot: u32) returns (status: Status, header: Header)
      requires storage.Valid()
      modifies storage`faults, storage`readCalls
      ensures var r := Core.ReadHeader(old(Value()), slot);
              Value() == r.board && status == r.status && (status == Ok ==> header == r.header)
      ensures IsSlot(slot) ==>
                storage.readCalls == old(storage.readCalls) + [ReadCall(SlotAddress(slot), HEADER_BYTES)]
    {
      header := Header(0, 0, 0, 0, 0, 0);
      if !IsSlot(slot) {
        return InvalidArg, header;
      }
      SlotRange(slot, 0, HEADER_BYTES);
      SlotBytesRead(storage.slotA[..], storage.slotB[..], SlotAddress(slot), HEADER_BYTES);
      ReadsStep(storage.faults, 1);
      var bytes;
      ghost var image := Value().Slot(slot);
      status, bytes := storage.Read(SlotAddress(slot), HEADER_BYTES);
      if status == Ok {
        HeaderUnchanged(bytes, image);
        header := DecodeHeader(bytes);
      }
    }

    /** One chunk of a slot. */
    method ReadChunk(slot: u32, offset: u32, chunk: u32) returns (status: Status, bytes: seq<Byte>)
      requires storage.Valid() && IsSlot(slot) && chunk > 0 && offset + chunk <= SLOT_SIZE
      modifies storage`faults, storage`readCalls
      ensures Value() == old(Value()).Spend()
      ensures status == if Strikes(old(Value()).Next(), 0) then StorageError else Ok
      ensures status == Ok ==> bytes == old(Value()).Slot(slot)[offset..offset + chunk]
      ensures storage.readCalls == old(storage.readCalls) + [ReadCall(Add32(SlotAddress(slot), offset), chunk)]
    {
      SlotRange(slot, offset, chunk);
      SlotBytesRead(storage.slotA[..], storage.slotB[..], SlotAddress(slot) + offset, chunk);
      status, bytes := storage.Read(Add32(SlotAddress(slot), offset), chunk);
    }

    /** The loop of iap_verify_image: the payload is read and summed in chunks of 64 bytes, and the
        sum is the CRC of the whole payload at once. */
    method SumPayload(slot: u32, header: Header) returns (status: Status, crc: Word)
      requires storage.Valid() && IsSlot(slot) && HeaderIsValid(SLOT_SIZE, header)
      modifies storage`faults, storage`readCalls
      ensures var b := old(Value());
              var (ok, rest) := Reads(b.faults, Chunks(header.imageSize));
              && Value() == b.(faults := rest)
              && status == (if ok then Ok else StorageError)
              && (ok ==> crc == Crc.Crc32(b.Slot(slot)[header.headerSize..header.headerSize + header.imageSize]))
      ensures var all := old(storage.readCalls) + ChunkReads(SlotLayout(slot), header.headerSize, header.imageSize);
              storage.readCalls <= all && (status == Ok ==> storage.readCalls == all)
    {
      hide Crc.Update, Crc.Crc32, Chunks, Reads, ChunkReads, Summing;
      ghost var b, calls := Value(), storage.readCalls;
      var remaining: u32, offset: u32 := header.imageSize, header.headerSize;
      crc := Crc.INITIAL;
      SummingStarts(b, slot, header, calls);
      while remaining > 0
        invariant remaining <= header.imageSize && offset == header.headerSize + (header.imageSize - remaining)
        invariant Value() == b.(faults := storage.faults)
        invariant Summing(b, slot, header, calls, storage.faults, crc, storage.readCalls, remaining)
        decreases remaining
      {
        var chunk := if remaining > CHUNK then CHUNK else remaining;
        SummingTurn(b, slot, header, calls, storage.faults, crc, storage.readCalls, remaining, chunk);
        var bytes;
        status, bytes := ReadChunk(slot, offset, chunk);
        if status != Ok {
          return;
        }
        crc := Crc.Crc32Update(crc, bytes);
        remaining, offset := remaining - chunk, offset + chunk;
      }
      SummingEnds(b, slot, header, calls, storage.faults, crc, storage.readCalls);
      crc := crc ^ Crc.INITIAL;
      status := Ok;
    }

    /** iap_verify_image */
    method VerifyImage(slot: u32) returns (status: Status)
      requires storage.Valid()
      modifies storage`faults, storage`readCalls
      ensures var r := Core.VerifyImage(old(Value()), slot); Value() == r.board && status == r.status
      ensures IsSlot(slot) ==>
                var all := VerificationReads(SlotLayout(slot), DecodeHeader(old(Value()).Slot(slot)));
                && storage.readCalls <= old(storage.readCalls) + all
                && (status == Ok || status == VerifyError ==> storage.readCalls == old(storage.readCalls) + all)
    {
      hide DecodeHeader, Crc.Crc32, Reads, HeaderIsValid;
      if !IsSlot(slot) {
        return InvalidArg;
      }
      var header;
      status, header := ReadHeader(slot);
      if status != Ok {
        return;
      }
      if !HeaderIsValid(SLOT_SIZE, header) {
        return VerifyError;
      }
      var crc;
      status, crc := SumPayload(slot, header);
      if status == Ok && crc != header.imageCrc {
        status := VerifyError;
      }
    }

    /** iap_get_image_boot_address; the address is set when the status is Ok. */
    method GetImageBootAddress(slot: u32) returns (status: Status, address: u32)
      requires storage.Valid()
      modifies storage`faults, storage`readCalls
      ensures var r := Core.GetImageBootAddress(old(Value()), slot);
              Value() == r.board && status == r.status && (status == Ok ==> address == r.address)
    {
      hide DecodeHeader, Reads, HeaderIsValid;
      address := 0;
      var header;
      status, header := ReadHeader(slot);
      if status != Ok {
        return;
      }
      if !HeaderIsValid(SLOT_SIZE, header) {
        return VerifyError, address;
      }
      address := Add32(SlotAddress(slot), header.headerSize);
    }

    // ----- the control block

    /** iap_boot_control_load; the control is set when the status is Ok. */
    method Load() returns (status: Status, control: BootControl)
      requires storage.Valid()
      modifies storage`faults, storage`readCalls
      ensures var r := Core.Load(old(Value()));
              Value() == r.board && status == r.status && (status == Ok ==> control == r.control)
    {
      hide ReadControl, Decode, ControlIsValid;
      ReadsStep(storage.faults, 1);
      WordsOfWordBytes(ReadControl(storage.Value().log));
      control := DefaultBootControl(SLOT_A, 0);
      var bytes;
      status, bytes := storage.Read(CONTROL_ADDRESS, CONTROL_BYTES);
      if status != Ok {
        return;
      }
      control := Decode(WordsOf(bytes));
      if !ControlIsValid(control) {
        status := BootControlError;
      }
    }

    /** iap_boot_control_save */
    method Save(control: BootControl) returns (status: Status)
      requires storage.Valid()
      modifies Footprint()
      ensures var r := Core.Save(old(Value()), control); Value() == r.board && status == r.status
    {
      hide Append, Encode, ControlIsValid;
      if !ControlIsValid(control) {
        return InvalidArg;
      }
      WordsOfWordBytes(Encode(control));
      status := storage.Write(CONTROL_ADDRESS, WordBytes(Encode(control)));
    }

    /** iap_rollback; the caller's control is replaced only if the save worked. */
    method Rollback(control0: BootControl) returns (status: Status, control: BootControl)
      requires storage.Valid()
      modifies Footprint()
      ensures var r := Core.Rollback(old(Value()), control0);
              Value() == r.board && status == r.status && control == r.control
    {
      hide ControlIsValid, Core.Save;
      control := control0;
      if !ControlIsValid(control) {
        return InvalidArg, control;
      }
      var updated := control.(pending := SLOT_NONE, attempts := 0);
      if OtherSlot(updated.active) == SLOT_A {
        updated := updated.(confirmedA := 0);
      } else {
        updated := updated.(confirmedB := 0);
      }
      status := Save(updated);
      if status == Ok {
        control := updated;
      }
    }

    /** iap_mark_pending */
    method MarkPending(control0: BootControl, slot: u32) returns (status: Status, control: BootControl)
      requires storage.Valid()
      modifies Footprint()
      ensures var r := Core.MarkPending(old(Value()), control0, slot);
              Value() == r.board && status == r.status && control == r.control
    {
      hide ControlIsValid, Core.Save, Core.VerifyImage, Reads, DecodeHeader, UInt;
      control := control0;
      if !ControlIsValid(control) || !IsSlot(slot) || slot == control.active {
        return InvalidArg, control;
      }
      status := VerifyImage(slot);
      if status != Ok {
        return;
      }
      var header;
      status, header := ReadHeader(slot);
      if status != Ok {
        return;
      }
      var updated := control.(pending := slot, attempts := 0);
      if slot == SLOT_A {
        updated := updated.(crcA := UInt(header.imageCrc), sizeA := header.imageSize, confirmedA := 0);
      } else {
        updated := updated.(crcB := UInt(header.imageCrc), sizeB := header.imageSize, confirmedB := 0);
      }
      status := Save(updated);
      if status == Ok {
        control := updated;
      }
    }

    /** iap_confirm_current_image */
    method ConfirmCurrentImage(control0: BootControl, slot: u32) returns (status: Status, control: BootControl)
      requires storage.Valid()
      modifies Footprint()
      ensures var r := Core.ConfirmCurrentImage(old(Value()), control0, slot);
              Value() == r.board && status == r.status && control == r.control
    {
      hide ControlIsValid, Core.Save, Core.VerifyImage;
      control := control0;
      if !ControlIsValid(control) || !IsSlot(slot) {
        return InvalidArg, control;
      }
      if slot != control.active && slot != control.pending {
        return InvalidArg, control;
      }
      status := VerifyImage(slot);
      if status != Ok {
        return;
      }
      var updated := control.(active := slot, pending := SLOT_NONE, attempts := 0,
                              confirmedA := if slot == SLOT_A then 1 else 0,
                              confirmedB := if slot == SLOT_B then 1 else 0);
      status := Save(updated);
      if status == Ok {
        control := updated;
      }
    }

    /** iap_select_boot_slot */
    method SelectBootSlot(control0: BootControl) returns (status: Status, control: BootControl, selected: u32)
      requires storage.Valid()
      modifies Footprint()
      ensures var r := Core.SelectBootSlot(old(Value()), control0);
              Value() == r.board && status == r.status && control == r.control && selected == r.slot
    {
      hide ControlIsValid, Core.Save, Core.VerifyImage, Core.Rollback;
      control, selected := control0, SLOT_NONE;
      if !ControlIsValid(control) {
        return InvalidArg, control, selected;
      }
      var pending := control.pending;
      if pending != SLOT_NONE {
        status := VerifyImage(pending);
        if status == Ok && control.attempts < control.maxAttempts {
          var updated := control.(attempts := control.attempts + 1);
          status := Save(updated);
          if status != Ok {
            return;
          }
          return Ok, updated, pending;
        }
        if status != Ok && status != VerifyError {
          return;
        }
        status, control := Rollback(control);
        if status != Ok {
          return;
        }
      }
      RolledBackKeepsActive(control0);
      status := VerifyImage(control.active);
      if status == Ok {
        selected := control.active;
      } else if status == VerifyError {
        status := NoValidImage;
      }
    }

    /** iap_write_candidate_image */
    method WriteCandidateImage(target: u32, image: seq<Byte>) returns (status: Status)
      requires storage.Valid()
      modifies Footprint()
      ensures var r := Core.WriteCandidateImage(old(Value()), storage.protectedSlot, target, image);
              Value() == r.board && status == r.status
    {
      hide DecodeHeader, Crc.Crc32, Core.VerifyImage, EraseSlot, ProgramSlot, ProgramSlotOk, HeaderIsValid;
      if !IsSlot(target) || |image| < HEADER_BYTES {
        return InvalidArg;
      }
      if |image| > SLOT_SIZE {
        return InvalidArg;
      }
      var header := DecodeHeader(image);
      if !HeaderIsValid(SLOT_SIZE, header) || |image| != Add32(header.headerSize, header.imageSize) {
        return VerifyError;
      }
      HeaderInside(image, header);
      var crc := Crc.ComputeCrc32(image[header.headerSize..]);
      if crc != header.imageCrc {
        return VerifyError;
      }
      SlotRange(target, 0, SLOT_SIZE);
      SlotRange(target, 0, |image|);
      status := storage.Erase(SlotAddress(target), SLOT_SIZE);
      if status != Ok {
        return;
      }
      WholeSlot(Value().Slot(target), image, Value().Next());
      status := storage.Write(SlotAddress(target), image);
      if status != Ok {
        return;
      }
      status := VerifyImage(target);
    }

    /** iap_bootloader_run, up to the jump or to recovery. */
    method BootloaderRun(defaultSlot: u32) returns (outcome: Outcome)
      requires storage.Valid()
      modifies Footprint()
      ensures var r := Core.BootloaderRun(old(Value()), defaultSlot, maxBootAttempts);
              Value() == r.board && outcome == r.outcome
    {
      hide ControlIsValid, Core.Save, Core.SelectBootSlot, Core.Load, Core.GetImageBootAddress;
      var status, control := Load();
      if status == BootControlError {
        control := DefaultBootControl(defaultSlot, maxBootAttempts);
        status := Save(control);
      }
      if status != Ok {
        return Recovery(status);
      }
      var selected, address;
      status, control, selected := SelectBootSlot(control);
      if status != Ok {
        return Recovery(status);
      }
      status, address := GetImageBootAddress(selected);
      if status != Ok {
        return Recovery(status);
      }
      return Jump(selected, address);
    }
  }
}
