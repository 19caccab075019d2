/** The checks the STM32 platform makes on a vector table before it jumps, at the head of
    jump_to_slot_callback in examples/stm32f407/src/stm32_iap_platform.c. */
module Platform {
  import opened Words
  import opened Image
  import opened BootControls
  import opened Core

  const IMAGE_HEADER_SIZE := 0x200
  const VECTOR_BYTES := 8

  /** stack_pointer_is_valid */
  predicate StackPointerIsValid(sp: int) {
    0x2000_0000 <= sp <= 0x2002_0000 || 0x1000_0000 <= sp <= 0x1001_0000
  }

  /** reset_handler_is_valid; the Thumb bit is set, so clearing it subtracts one. */
  predicate ResetHandlerIsValid(slot: u32, reset: int) {
    reset % 2 == 1 && SlotAddress(slot) + IMAGE_HEADER_SIZE <= reset - 1 < SlotAddress(slot) + SLOT_SIZE
  }

  predicate VectorsAccepted(slot: u32, vectors: seq<Byte>)
    requires |vectors| >= VECTOR_BYTES
  {
    StackPointerIsValid(UInt(Field(vectors, 0))) && ResetHandlerIsValid(slot, UInt(Field(vectors, 1)))
  }

  /** The platform jumps to an address in a slot. */
  predicate JumpAccepts(slot: u32, address: int, flash: SlotBytes) {
    && address % IMAGE_HEADER_SIZE == 0
    && var at := address - SlotAddress(slot);
       0 <= at <= |flash| - VECTOR_BYTES && VectorsAccepted(slot, flash[at..at + VECTOR_BYTES])
  }

  /** The slot holds an image that verifies and that the platform jumps to. */
  predicate Bootable(b: Board, slot: u32)
    requires b.Wired()
  {
    Sound(b.Slot(slot)) && JumpAccepts(slot, BootAddress(b, slot), b.Slot(slot))
  }

  /** The vector table of an aligned boot address is inside the slot: asking for that in JumpAccepts
      refuses nothing the platform would accept. */
  lemma VectorsInside(b: Board, slot: u32)
    requires b.Wired() && IsSlot(slot) && Sound(b.Slot(slot)) && BootAddress(b, slot) % IMAGE_HEADER_SIZE == 0
    ensures 0 <= BootAddress(b, slot) - SlotAddress(slot) <= |b.Slot(slot)| - VECTOR_BYTES
  {
    hide DecodeHeader;
  }

  lemma SameSlotBootable(b: Board, b': Board, slot: u32)
    requires b.Wired() && b'.Wired() && b.Slot(slot) == b'.Slot(slot)
    ensures Bootable(b, slot) == Bootable(b', slot) && BootAddress(b, slot) == BootAddress(b', slot)
  {
    hide Sound, DecodeHeader, JumpAccepts;
  }
}
