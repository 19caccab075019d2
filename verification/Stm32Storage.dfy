/** The storage driver of examples/stm32f407/src/stm32_iap_storage.c behind its three calls: read,
    write and erase by address, over two image slots and the control log. */
module Stm32Storage {
  import opened Words
  import opened Faults
  import opened ControlLog
  import opened ControlDriver
  import opened Image
  import opened BootControls
  import opened Core

  const FLASH_BASE: u32 := 0x0800_0000
  const FLASH_END: u32 := 0x0810_0000

  /** range_is_within; the sums are 64 bits wide. */
  predicate RangeIsWithin(address: u32, size: nat, regionAddress: u32, regionSize: u32) {
    size > 0 && address >= regionAddress && address + size <= regionAddress + regionSize
  }

  /** range_is_slot: the slot that holds the range, or SLOT_NONE. */
  function RangeSlot(address: u32, size: nat): u32 {
    if RangeIsWithin(address, size, SLOT_A_ADDRESS, SLOT_SIZE) then SLOT_A
    else if RangeIsWithin(address, size, SLOT_B_ADDRESS, SLOT_SIZE) then SLOT_B
    else SLOT_NONE
  }

  /** The words of a structure copied byte by byte. */
  function WordsOf(bytes: seq<Byte>): (words: seq<Word>)
    ensures |words| == |bytes| / 4
  {
    seq(|bytes| / 4, k requires 0 <= k < |bytes| / 4 => Field(bytes, k))
  }

  lemma WordsOfWordBytes(words: seq<Word>)
    ensures WordsOf(WordBytes(words)) == words
  {
    forall k | 0 <= k < |words|
      ensures WordsOf(WordBytes(words))[k] == words[k]
    {
      assert WordBytes(words) + [] == WordBytes(words);
      FieldOfWords(words, [], k);
    }
  }

  /** A read inside one slot of the two that lie next to each other. */
  lemma SlotBytesRead(a: seq<Byte>, b: seq<Byte>, address: u32, size: nat)
    requires |a| == |b| == SLOT_SIZE && IsSlot(RangeSlot(address, size))
    ensures RangeIsWithin(address, size, SLOT_A_ADDRESS, 2 * SLOT_SIZE)
    ensures var slot, offset := RangeSlot(address, size), address - SLOT_A_ADDRESS;
            var at := address - SlotAddress(slot);
            (a + b)[offset..offset + size] == (if slot == SLOT_A then a else b)[at..at + size]
  {
  }

  // ----- programming a slot

  /** A stretch of bytes after one operation of program_words on it. */
  function Hit(before: seq<Byte>, at: nat, data: seq<Byte>, f: Fault, op: nat): (after: seq<Byte>)
    requires at + |data| <= |before| && |data| <= 4
    ensures |after| == |before|
  {
    seq(|before|, i requires 0 <= i < |before| =>
      if at <= i < at + |data| then ProgramByte(before[i], data[i - at], f, op, i - at) else before[i])
  }

  method HalProgramBytes(cells: array<Byte>, at: nat, data: seq<Byte>, f: Fault, op: nat) returns (ok: bool)
    requires at + |data| <= cells.Length && |data| <= 4
    modifies cells
    ensures ok == !Strikes(f, op)
    ensures cells[..] == Hit(old(cells[..]), at, data, f, op)
  {
    for k := 0 to |data|
      invariant forall i :: 0 <= i < cells.Length ==>
                  cells[i] == if at <= i < at + k then ProgramByte(old(cells[i]), data[i - at], f, op, i - at)
                              else old(cells[i])
    {
      cells[at + k] := ProgramByte(cells[at + k], data[k], f, op, k);
    }
    ok := !(f.Fail? && f.at == op);
  }

  /** Operations run in address order: an operation that starts at an offset covers four bytes in the
      word part and one in the tail, and later bytes have later operations. */
  lemma OperationsInOrder(size: nat, i: nat, offset: nat)
    requires offset <= i < size
    requires offset % 4 == 0 || offset >= size / 4 * 4
    ensures OpOf(size, i) >= OpOf(size, offset)
    ensures offset + 4 <= size && offset % 4 == 0 && i < offset + 4 ==>
              OpOf(size, i) == offset / 4 && LaneOf(size, i) == i - offset
    ensures offset + 4 <= size && offset % 4 == 0 && i >= offset + 4 ==> OpOf(size, i) > offset / 4
    ensures offset >= size / 4 * 4 && i > offset ==> OpOf(size, i) > OpOf(size, offset)
    ensures offset >= size / 4 * 4 ==> LaneOf(size, offset) == 0
    ensures OpOf(size, i) < ProgramOps(size)
  {
  }

  lemma TailOperations(size: nat, offset: nat)
    requires size / 4 * 4 <= offset <= size
    ensures OpOf(size, size / 4 * 4) == size / 4
    ensures OpOf(size, offset + 1) == OpOf(size, offset) + 1
    ensures OpOf(size, size) == ProgramOps(size)
  {
  }

  /** A slot after program_words worked through the first k bytes of data, from position at on. */
  function Worked(before: seq<Byte>, at: nat, data: seq<Byte>, f: Fault, k: nat): (after: seq<Byte>)
    requires k <= |data| && at + |data| <= |before|
    ensures |after| == |before|
  {
    seq(|before|, i requires 0 <= i < |before| =>
      if at <= i < at + k then ProgramByte(before[i], data[i - at], f, OpOf(|data|, i - at), LaneOf(|data|, i - at))
      else before[i])
  }

  lemma WorkedNone(before: seq<Byte>, at: nat, data: seq<Byte>, f: Fault)
    requires at + |data| <= |before|
    ensures Worked(before, at, data, f, 0) == before
  {
    hide ProgramByte, OpOf, LaneOf;
  }

  lemma WordWorked(before: seq<Byte>, at: nat, data: seq<Byte>, f: Fault, k: nat)
    requires at + |data| <= |before| && k % 4 == 0 && k + 4 <= |data|
    ensures Hit(Worked(before, at, data, f, k), at + k, data[k..k + 4], f, k / 4) == Worked(before, at, data, f, k + 4)
    ensures k / 4 < ProgramOps(|data|)
  {
    hide ProgramByte, OpOf, LaneOf;
    forall i | k <= i < k + 4
      ensures OpOf(|data|, i) == k / 4 && LaneOf(|data|, i) == i - k
      ensures k / 4 < ProgramOps(|data|)
    {
      OperationsInOrder(|data|, i, k);
    }
  }

  lemma ByteWorked(before: seq<Byte>, at: nat, data: seq<Byte>, f: Fault, k: nat)
    requires at + |data| <= |before| && |data| / 4 * 4 <= k < |data|
    ensures Hit(Worked(before, at, data, f, k), at + k, [data[k]], f, OpOf(|data|, k))
            == Worked(before, at, data, f, k + 1)
    ensures OpOf(|data|, k) < ProgramOps(|data|)
  {
    hide ProgramByte, OpOf, LaneOf;
    OperationsInOrder(|data|, k, k);
  }

  lemma UntouchedByte(cell: Byte, d: Byte, f: Fault, op: nat, lane: nat)
    requires lane < 4 && f.Fail? && f.at < op
    ensures ProgramByte(cell, d, f, op, lane) == cell
  {
  }

  /** Once an operation broke, the rest of the slot stays as it is. */
  lemma WorkedStops(before: seq<Byte>, at: nat, data: seq<Byte>, f: Fault, k: nat)
    requires k <= |data| && at + |data| <= |before| && f.Fail?
    requires forall i :: k <= i < |data| ==> OpOf(|data|, i) > f.at
    ensures Worked(before, at, data, f, k) == Worked(before, at, data, f, |data|)
  {
    hide ProgramByte, OpOf, LaneOf;
    var left, right := Worked(before, at, data, f, k), Worked(before, at, data, f, |data|);
    forall i | 0 <= i < |before|
      ensures left[i] == right[i]
    {
      if at + k <= i < at + |data| {
        UntouchedByte(before[i], data[i - at], f, OpOf(|data|, i - at), LaneOf(|data|, i - at));
      }
    }
  }

  lemma StopsInWords(before: seq<Byte>, at: nat, data: seq<Byte>, f: Fault, k: nat)
    requires at + |data| <= |before| && k % 4 == 0 && k + 4 <= |data| && Strikes(f, k / 4)
    ensures Worked(before, at, data, f, k + 4) == Worked(before, at, data, f, |data|)
    ensures StrikesIn(f, 0, ProgramOps(|data|))
  {
    forall i | k + 4 <= i < |data|
      ensures OpOf(|data|, i) > f.at
    {
      OperationsInOrder(|data|, i, k);
    }
    OperationsInOrder(|data|, k, k);
    WorkedStops(before, at, data, f, k + 4);
  }

  lemma StopsInTail(before: seq<Byte>, at: nat, data: seq<Byte>, f: Fault, k: nat)
    requires at + |data| <= |before| && |data| / 4 * 4 <= k < |data| && Strikes(f, OpOf(|data|, k))
    ensures Worked(before, at, data, f, k + 1) == Worked(before, at, data, f, |data|)
    ensures StrikesIn(f, 0, ProgramOps(|data|))
  {
    forall i | k + 1 <= i < |data|
      ensures OpOf(|data|, i) > f.at
    {
      OperationsInOrder(|data|, i, k);
    }
    OperationsInOrder(|data|, k, k);
    WorkedStops(before, at, data, f, k + 1);
  }

  /** program_words: whole words first, then single bytes; stops at the first HAL error; then compares. */
  method ProgramSlotBytes(cells: array<Byte>, at: nat, data: seq<Byte>, f: Fault) returns (ok: bool)
    requires at + |data| <= cells.Length
    modifies cells
    ensures cells[..] == Worked(old(cells[..]), at, data, f, |data|)
    ensures ok == (!StrikesIn(f, 0, ProgramOps(|data|)) && cells[at..at + |data|] == data)
  {
    hide Worked, Hit, OpOf, ProgramOps, StrikesIn;
    ghost var before := cells[..];
    var size, offset := |data|, 0;
    WorkedNone(before, at, data, f);
    while offset + 4 <= size
      invariant offset % 4 == 0 && offset <= size / 4 * 4
      invariant f.Fail? ==> offset / 4 <= f.at
      invariant cells[..] == Worked(before, at, data, f, offset)
    {
      WordWorked(before, at, data, f, offset);
      var programmed := HalProgramBytes(cells, at + offset, data[offset..offset + 4], f, offset / 4);
      if !programmed {
        StopsInWords(before, at, data, f, offset);
        return false;
      }
      offset := offset + 4;
    }
    TailOperations(size, offset);
    while offset < size
      invariant size / 4 * 4 <= offset <= size
      invariant f.Fail? ==> OpOf(size, offset) <= f.at
      invariant cells[..] == Worked(before, at, data, f, offset)
    {
      TailOperations(size, offset);
      ByteWorked(before, at, data, f, offset);
      var programmed := HalProgramBytes(cells, at + offset, [data[offset]], f, OpOf(size, offset));
      if !programmed {
        StopsInTail(before, at, data, f, offset);
        return false;
      }
      offset := offset + 1;
    }
    TailOperations(size, offset);
    NoStrike(f, 0, ProgramOps(size));
    ok := cells[at..at + size] == data;
  }

  /** A slot after program_words wrote data from position at on. */
  function Programmed(cells: seq<Byte>, at: nat, data: seq<Byte>, f: Fault): (r: seq<Byte>)
    requires at + |data| <= |cells|
    ensures |r| == |cells|
  {
    cells[..at] + ProgramSlot(cells[at..], data, f)
  }

  lemma WorkedIsProgrammed(before: seq<Byte>, at: nat, data: seq<Byte>, f: Fault)
    requires at + |data| <= |before|
    ensures Worked(before, at, data, f, |data|) == Programmed(before, at, data, f)
    ensures Programmed(before, at, data, f)[at..at + |data|] == ProgramSlot(before[at..], data, f)[..|data|]
  {
    hide ProgramByte, OpOf, LaneOf;
    var after, r := Worked(before, at, data, f, |data|), Programmed(before, at, data, f);
    forall i | 0 <= i < |before|
      ensures after[i] == r[i]
    {
      if i >= at {
        assert r[i] == ProgramSlot(before[at..], data, f)[i - at];
        assert before[at..][i - at] == before[i];
      }
    }
  }

  // ----- the driver

  class Stm32Storage {
    const control: ControlFlash
    const slotA: array<Byte>
    const slotB: array<Byte>
    const protectedSlot: u32
    /** What will go wrong with the storage calls to come, one entry a call. */
    var faults: seq<Fault>
    /** Every read asked for so far. */
    ghost var readCalls: seq<ReadCall>

    ghost predicate Valid() {
      control.Valid() && slotA != slotB && slotA.Length == slotB.Length == SLOT_SIZE
    }

    ghost function Value(): (b: Board)
      requires Valid()
      reads this, slotA, slotB, control.sectorA, control.sectorB
      ensures b.Wired()
    {
      Board(control.Value(), slotA[..], slotB[..], faults)
    }

    /** stm32_iap_storage_init, on flash that is already there. */
    constructor (control: ControlFlash, slotA: array<Byte>, slotB: array<Byte>, protectedSlot: u32,
                 faults: seq<Fault>)
      requires control.Valid() && slotA != slotB && slotA.Length == slotB.Length == SLOT_SIZE
      ensures Valid() && this.protectedSlot == protectedSlot
      ensures Value() == Board(control.Value(), slotA[..], slotB[..], faults)
    {
      this.control, this.slotA, this.slotB := control, slotA, slotB;
      this.protectedSlot, this.faults, this.readCalls := protectedSlot, faults, [];
    }

    method TakeFault() returns (f: Fault)
      requires Valid()
      modifies this`faults
      ensures f == old(Value().Next()) && Value() == old(Value().Spend())
    {
      f := Fine;
      if faults != [] {
        f := faults[0];
        faults := faults[1..];
      }
    }

    /** flash_read. The slots lie next to each other and a read may straddle them. Raw reads of flash
        outside the slots return anything. */
    method Read(address: u32, size: nat) returns (status: Status, data: seq<Byte>)
      requires Valid()
      modifies this`faults, this`readCalls
      ensures readCalls == old(readCalls) + [ReadCall(address, size)]
      ensures size == 0 ==> status == InvalidArg && Value() == old(Value())
      ensures size > 0 ==> Value() == old(Value().Spend())
      ensures size > 0 && Strikes(old(Value().Next()), 0) ==> status == StorageError
      ensures size > 0 && !Strikes(old(Value().Next()), 0) ==>
                if address == CONTROL_ADDRESS && size == CONTROL_BYTES
                then status == Ok && data == WordBytes(ReadControl(old(Value().log)))
                else if !RangeIsWithin(address, size, FLASH_BASE, FLASH_END - FLASH_BASE) then status == InvalidArg
                else
                  && status == Ok && |data| == size
                  && (RangeIsWithin(address, size, SLOT_A_ADDRESS, 2 * SLOT_SIZE) ==>
                        var offset := address - SLOT_A_ADDRESS;
                        data == (old(slotA[..]) + old(slotB[..]))[offset..offset + size])
    {
      data := [];
      readCalls := readCalls + [ReadCall(address, size)];
      if size == 0 {
        return InvalidArg, data;
      }
      var f := TakeFault();
      if f.Fail? && f.at == 0 {
        return StorageError, data;
      }
      if address == CONTROL_ADDRESS && size == CONTROL_BYTES {
        var words := control.Read();
        return Ok, WordBytes(words);
      }
      if !RangeIsWithin(address, size, FLASH_BASE, FLASH_END - FLASH_BASE) {
        return InvalidArg, data;
      }
      if RangeIsWithin(address, size, SLOT_A_ADDRESS, 2 * SLOT_SIZE) {
        var offset := address - SLOT_A_ADDRESS;
        data := (slotA[..] + slotB[..])[offset..offset + size];
      } else {
        data := seq(size, _ => ERASED_BYTE);
      }
      return Ok, data;
    }

    /** flash_erase */
    method Erase(address: u32, size: nat) returns (status: Status)
      requires Valid()
      modifies this`faults, slotA, slotB
      ensures var slot := RangeSlot(address, size);
              if size != SLOT_SIZE || !IsSlot(slot) || slot == protectedSlot
              then status == InvalidArg && Value() == old(Value())
              else
                && Value() == old(Value()).Spend().WithSlot(slot,
                                EraseSlot(old(Value()).Slot(slot), old(Value()).Next()))
                && status == (if Strikes(old(Value()).Next(), 0) then StorageError else Ok)
    {
      var slot := RangeSlot(address, size);
      if size != SLOT_SIZE || !IsSlot(slot) || slot == protectedSlot {
        return InvalidArg;
      }
      var f := TakeFault();
      var cells := if slot == SLOT_A then slotA else slotB;
      ghost var before := cells[..];
      for i := 0 to cells.Length
        invariant faults == old(Value().Spend()).faults
        invariant forall k :: 0 <= k < i ==> cells[k] == EraseSlot(before, f)[k]
        invariant forall k :: i <= k < cells.Length ==> cells[k] == before[k]
        invariant slot == SLOT_A ==> slotB[..] == old(slotB[..])
        invariant slot == SLOT_B ==> slotA[..] == old(slotA[..])
      {
        cells[i] := if f.Fail? && f.at == 0 then cells[i] | Split(f.tear(i / 4))[i % 4] else ERASED_BYTE;
      }
      assert cells[..] == EraseSlot(before, f);
      return if f.Fail? && f.at == 0 then StorageError else Ok;
    }

    /** flash_write of anything but the control block, which WriteControl takes. */
    method WriteSlot(address: u32, data: seq<Byte>) returns (status: Status)
      requires Valid()
      requires !(address == CONTROL_ADDRESS && |data| == CONTROL_BYTES)
      modifies this`faults, slotA, slotB
      ensures var slot := RangeSlot(address, |data|);
              if data == [] || address % 4 != 0 || !IsSlot(slot) || slot == protectedSlot
              then status == InvalidArg && Value() == old(Value())
              else
                var b, f, at := old(Value()), old(Value()).Next(), address - SlotAddress(slot);
                && Value() == b.Spend().WithSlot(slot, Programmed(b.Slot(slot), at, data, f))
                && status == (if ProgramSlotOk(b.Slot(slot)[at..], data, f) then Ok else StorageError)
    {
      var slot := RangeSlot(address, |data|);
      if data == [] || address % 4 != 0 || !IsSlot(slot) || slot == protectedSlot {
        return InvalidArg;
      }
      var f := TakeFault();
      var cells := if slot == SLOT_A then slotA else slotB;
      ghost var before := cells[..];
      var at := address - SlotAddress(slot);
      var ok := ProgramSlotBytes(cells, at, data, f);
      WorkedIsProgrammed(before, at, data, f);
      return if ok then Ok else StorageError;
    }

    /** flash_write of the control block. */
    method WriteControl(data: seq<Byte>) returns (status: Status)
      requires Valid() && |data| == CONTROL_BYTES
      modifies this`faults, control.sectorA, control.sectorB
      ensures var b := old(Value());
              && Value() == b.Spend().(log := Append(b.log, WordsOf(data), b.Next()).0)
              && status == (if Append(b.log, WordsOf(data), b.Next()).1 then Ok else StorageError)
    {
      var f := TakeFault();
      var ok := control.AppendControlRecord(WordsOf(data), f);
      return if ok then Ok else StorageError;
    }

    /** flash_write: the control block goes to the log, everything else to a slot. */
    method Write(address: u32, data: seq<Byte>) returns (status: Status)
      requires Valid()
      modifies this`faults, slotA, slotB, control.sectorA, control.sectorB
      ensures address == CONTROL_ADDRESS && |data| == CONTROL_BYTES ==>
                var b := old(Value());
                && Value() == b.Spend().(log := Append(b.log, WordsOf(data), b.Next()).0)
                && status == (if Append(b.log, WordsOf(data), b.Next()).1 then Ok else StorageError)
      ensures !(address == CONTROL_ADDRESS && |data| == CONTROL_BYTES) ==>
                var slot := RangeSlot(address, |data|);
                if data == [] || address % 4 != 0 || !IsSlot(slot) || slot == protectedSlot
                then status == InvalidArg && Value() == old(Value())
                else
                  var b, f, at := old(Value()), old(Value()).Next(), address - SlotAddress(slot);
                  && Value() == b.Spend().WithSlot(slot, Programmed(b.Slot(slot), at, data, f))
                  && status == (if ProgramSlotOk(b.Slot(slot)[at..], data, f) then Ok else StorageError)
    {
      if address == CONTROL_ADDRESS && |data| == CONTROL_BYTES {
        status := WriteControl(data);
      } else {
        status := WriteSlot(address, data);
      }
    }
  }
}
