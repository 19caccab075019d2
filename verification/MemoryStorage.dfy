/** The byte-array storage of src/iap_memory_storage.c, and why the flash driver cannot be told
    apart from it while nothing fails. */
module MemoryStorage {
  import opened Words
  import opened Faults
  import opened ControlLog
  import opened LogHistory
  import opened LogTheorems
  import opened Image
  import opened BootControls
  import opened Core
  import BootTheorems
  import opened Installs

  /** The range is not inside the memory; the source compares without a sum that could wrap. */
  predicate OutOfRange(address: u32, length: nat, size: nat)
  {
    address > size || length > size - address
  }

  class MemoryStorage {
    const memory: array?<Byte>
    const erasedValue: Byte

    /** iap_memory_storage_init */
    constructor (memory: array?<Byte>, erasedValue: Byte)
      modifies memory
      ensures this.memory == memory && this.erasedValue == erasedValue
      ensures memory != null ==> memory[..] == seq(memory.Length, _ => erasedValue)
    {
      this.memory, this.erasedValue := memory, erasedValue;
      new;
      if memory != null {
        for i := 0 to memory.Length
          invariant forall k :: 0 <= k < i ==> memory[k] == erasedValue
        {
          memory[i] := erasedValue;
        }
        assert memory[..] == seq(memory.Length, _ => erasedValue);
      }
    }

    /** memory_read */
    method Read(address: u32, size: nat) returns (status: Status, data: seq<Byte>)
      ensures status == (if memory == null || address + size > memory.Length then InvalidArg else Ok)
      ensures status == Ok ==> data == memory[address..address + size]
    {
      if memory == null || OutOfRange(address, size, memory.Length) {
        return InvalidArg, [];
      }
      return Ok, memory[address..address + size];
    }

    /** memory_write */
    method Write(address: u32, data: seq<Byte>) returns (status: Status)
      modifies memory
      ensures status == (if memory == null || address + |data| > memory.Length then InvalidArg else Ok)
      ensures status == Ok ==> memory[..] == Patch(old(memory[..]), address, data)
      ensures status != Ok && memory != null ==> memory[..] == old(memory[..])
    {
      if memory == null || OutOfRange(address, |data|, memory.Length) {
        return InvalidArg;
      }
      for i := 0 to |data|
        invariant forall k :: 0 <= k < memory.Length ==>
                    memory[k] == if address <= k < address + i then data[k - address] else old(memory[k])
      {
        memory[address + i] := data[i];
      }
      assert memory[..] == Patch(old(memory[..]), address, data);
      return Ok;
    }

    /** memory_erase */
    method Erase(address: u32, size: nat) returns (status: Status)
      modifies memory
      ensures status == (if memory == null || address + size > memory.Length then InvalidArg else Ok)
      ensures status == Ok ==> memory[..] == Patch(old(memory[..]), address, seq(size, _ => erasedValue))
      ensures status != Ok && memory != null ==> memory[..] == old(memory[..])
    {
      if memory == null || OutOfRange(address, size, memory.Length) {
        return InvalidArg;
      }
      for i := 0 to size
        invariant forall k :: 0 <= k < memory.Length ==>
                    memory[k] == if address <= k < address + i then erasedValue else old(memory[k])
      {
        memory[address + i] := erasedValue;
      }
      assert memory[..] == Patch(old(memory[..]), address, seq(size, _ => erasedValue));
      return Ok;
    }
  }

  // ----- the two storages side by side

  /** What the core asks of storage while nothing fails: save a control block, or erase a slot and
      write an image to it. */
  datatype Call = SaveControl(control: seq<Word>) | InstallImage(slot: u32, image: seq<Byte>)

  predicate Proper(call: Call) {
    match call
    case SaveControl(control) => |control| == CONTROL_WORDS
    case InstallImage(slot, image) => IsSlot(slot) && |image| <= SLOT_SIZE
  }

  /** Where the slots and the control block are in memory; iap_init accepts the layout. */
  datatype Layout = Layout(a: u32, b: u32, control: u32) {
    function Slot(n: u32): u32 { if n == SLOT_A then a else b }

    predicate Fits(size: nat) {
      && InitAccepts(SlotDesc(a, SLOT_SIZE), SlotDesc(b, SLOT_SIZE), control)
      && a + SLOT_SIZE <= size && b + SLOT_SIZE <= size && control + CONTROL_BYTES <= size
    }
  }

  function FlashCall(b: Board, call: Call): (b': Board)
    requires b.Wired() && Proper(call)
    ensures b'.Wired()
  {
    match call
    case SaveControl(control) => b.(log := Append(b.log, control, Fine).0)
    case InstallImage(slot, image) => b.WithSlot(slot, ProgramSlot(EraseSlot(b.Slot(slot), Fine), image, Fine))
  }

  function MemoryCall(memory: seq<Byte>, layout: Layout, call: Call): (memory': seq<Byte>)
    requires layout.Fits(|memory|) && Proper(call)
    ensures |memory'| == |memory|
  {
    match call
    case SaveControl(control) => Patch(memory, layout.control, WordBytes(control))
    case InstallImage(slot, image) =>
      Patch(Patch(memory, layout.Slot(slot), seq(SLOT_SIZE, _ => ERASED_BYTE)), layout.Slot(slot), image)
  }

  /** Every range the core reads holds the same bytes in both storages. */
  predicate Agree(b: Board, memory: seq<Byte>, layout: Layout)
    requires b.Wired() && layout.Fits(|memory|)
  {
    && memory[layout.a..layout.a + SLOT_SIZE] == b.slotA
    && memory[layout.b..layout.b + SLOT_SIZE] == b.slotB
    && memory[layout.control..layout.control + CONTROL_BYTES] == WordBytes(ReadControl(b.log))
  }

  lemma PatchElsewhere(memory: seq<Byte>, at: nat, data: seq<Byte>, first: nat, last: nat)
    requires at + |data| <= |memory| && first <= last <= |memory|
    requires at + |data| <= first || last <= at
    ensures Patch(memory, at, data)[first..last] == memory[first..last]
  {
    assert forall i :: first <= i < last ==> Patch(memory, at, data)[i] == memory[i];
  }

  lemma PatchThere(memory: seq<Byte>, at: nat, data: seq<Byte>)
    requires at + |data| <= |memory|
    ensures Patch(memory, at, data)[at..at + |data|] == data
  {
  }

  lemma ErasedThenWritten(memory: seq<Byte>, at: nat, image: seq<Byte>)
    requires at + SLOT_SIZE <= |memory| && |image| <= SLOT_SIZE
    ensures Patch(Patch(memory, at, seq(SLOT_SIZE, _ => ERASED_BYTE)), at, image) == Patch(memory, at, Padded(image))
  {
    var left := Patch(Patch(memory, at, seq(SLOT_SIZE, _ => ERASED_BYTE)), at, image);
    var right := Patch(memory, at, Padded(image));
    assert forall i :: 0 <= i < |memory| ==> left[i] == right[i];
  }

  lemma Apart(layout: Layout, size: nat)
    requires layout.Fits(size)
    ensures layout.a + SLOT_SIZE <= layout.b || layout.b + SLOT_SIZE <= layout.a
    ensures layout.a + SLOT_SIZE <= layout.control || layout.control + CONTROL_BYTES <= layout.a
    ensures layout.b + SLOT_SIZE <= layout.control || layout.control + CONTROL_BYTES <= layout.b
  {
  }

  lemma PaddedIs(image: seq<Byte>)
    requires |image| <= SLOT_SIZE
    ensures Padded(image) == image + seq(SLOT_SIZE - |image|, _ => ERASED_BYTE)
  {
  }

  lemma InstallAgrees(b: Board, memory: seq<Byte>, layout: Layout, slot: u32, image: seq<Byte>)
    requires b.Wired() && layout.Fits(|memory|) && Agree(b, memory, layout)
    requires IsSlot(slot) && |image| <= SLOT_SIZE
    ensures var call := InstallImage(slot, image);
            Agree(FlashCall(b, call), MemoryCall(memory, layout, call), layout)
  {
    hide ReadControl, EraseSlot, ProgramSlot, Patch, InitAccepts, Padded;
    Apart(layout, |memory|);
    var at := layout.Slot(slot);
    ErasedThenWritten(memory, at, image);
    FineProgram(b.Slot(slot), image);
    ProgrammedSlot(b.Slot(slot), image, Fine, Fine);
    PaddedIs(image);
    PatchThere(memory, at, Padded(image));
    var other := layout.Slot(OtherSlot(slot));
    PatchElsewhere(memory, at, Padded(image), other, other + SLOT_SIZE);
    PatchElsewhere(memory, at, Padded(image), layout.control, layout.control + CONTROL_BYTES);
  }

  lemma SaveAgrees(b: Board, memory: seq<Byte>, layout: Layout, led: Ledger, control: seq<Word>) returns (led': Ledger)
    requires b.Wired() && layout.Fits(|memory|) && Agree(b, memory, layout)
    requires Inv(b.log, led) && |control| == CONTROL_WORDS
    ensures var call := SaveControl(control);
            && Inv(FlashCall(b, call).log, led')
            && Agree(FlashCall(b, call), MemoryCall(memory, layout, call), layout)
  {
    hide ReadControl, Patch, InitAccepts, Inv, Append, Honest;
    Apart(layout, |memory|);
    BootTheorems.FineHonest(b.log);
    led' := SaveIsAtomic(b.log, led, Save(control, Fine));
    PatchThere(memory, layout.control, WordBytes(control));
    PatchElsewhere(memory, layout.control, WordBytes(control), layout.a, layout.a + SLOT_SIZE);
    PatchElsewhere(memory, layout.control, WordBytes(control), layout.b, layout.b + SLOT_SIZE);
  }

  /** After any calls. */
  predicate AgreeAlways(b: Board, memory: seq<Byte>, layout: Layout, calls: seq<Call>)
    requires b.Wired() && layout.Fits(|memory|)
    requires forall i :: 0 <= i < |calls| ==> Proper(calls[i])
    decreases calls
  {
    && Agree(b, memory, layout)
    && (calls != [] ==>
          AgreeAlways(FlashCall(b, calls[0]), MemoryCall(memory, layout, calls[0]), layout, calls[1..]))
  }

  lemma {:induction false} CallsAgree(b: Board, memory: seq<Byte>, layout: Layout, led: Ledger, calls: seq<Call>)
    requires b.Wired() && layout.Fits(|memory|) && Agree(b, memory, layout) && Inv(b.log, led)
    requires forall i :: 0 <= i < |calls| ==> Proper(calls[i])
    ensures AgreeAlways(b, memory, layout, calls)
    decreases calls
  {
    hide Agree, Inv, Append, EraseSlot, ProgramSlot, Patch, InitAccepts;
    if calls != [] {
      var call := calls[0];
      match call
      case SaveControl(control) =>
        var led' := SaveAgrees(b, memory, layout, led, control);
        CallsAgree(FlashCall(b, call), MemoryCall(memory, layout, call), layout, led', calls[1..]);
      case InstallImage(slot, image) =>
        InstallAgrees(b, memory, layout, slot, image);
        CallsAgree(FlashCall(b, call), MemoryCall(memory, layout, call), layout, led, calls[1..]);
    }
  }

  lemma {:induction false} ErasedWords(n: nat)
    ensures WordBytes(seq(n, _ => ALL_ONES)) == seq(4 * n, _ => ERASED_BYTE)
    decreases n
  {
    if n > 0 {
      ErasedWords(n - 1);
      assert seq(n, _ => ALL_ONES)[1..] == seq(n - 1, _ => ALL_ONES);
      assert Split(ALL_ONES) == [ERASED_BYTE, ERASED_BYTE, ERASED_BYTE, ERASED_BYTE];
      assert seq(4 * n, _ => ERASED_BYTE) == Split(ALL_ONES) + seq(4 * (n - 1), _ => ERASED_BYTE);
    }
  }

  /** From the very first boot on, the control log and the slots in flash answer every read of the
      core with the same bytes as plain memory does, whatever is saved and installed: an empty log
      reads like erased memory. */
  lemma FlashLooksLikeMemory(n: nat, size: nat, layout: Layout, calls: seq<Call>)
    requires 0 < n && 2 * n < 0x8000_0000 && layout.Fits(size)
    requires forall i :: 0 <= i < |calls| ==> Proper(calls[i])
    ensures var erased := seq(SLOT_SIZE, _ => ERASED_BYTE);
            AgreeAlways(Board(BlankLog(n), erased, erased, []), seq(size, _ => ERASED_BYTE), layout, calls)
  {
    hide InitAccepts, Inv;
    var erased := seq(SLOT_SIZE, _ => ERASED_BYTE);
    var b := Board(BlankLog(n), erased, erased, []);
    StartKeeps(n);
    FindLatestIsNewest(b.log, StartLedger(n));
    ErasedWords(CONTROL_WORDS);
    CallsAgree(b, seq(size, _ => ERASED_BYTE), layout, StartLedger(n), calls);
  }
}
