/** The operations of src/iap_core.c and src/iap_bootloader.c on values: the flash before, the flash
    after, and what the caller gets. Each storage call takes one fault from the front of a list
    that is a parameter of the whole development, so every theorem holds for every placement of
    read errors, failed programs and power cuts. */
module Core {
  import opened Words
  import opened Crc
  import opened Faults
  import opened ControlLog
  import opened Image
  import opened BootControls

  const SLOT_A_ADDRESS: u32 := 0x0802_0000
  const SLOT_B_ADDRESS: u32 := 0x0806_0000
  const SLOT_SIZE: u32 := 0x4_0000
  const CONTROL_ADDRESS: u32 := 0x080A_0000

  datatype Board = Board(log: Log, slotA: seq<Byte>, slotB: seq<Byte>, faults: seq<Fault>) {
    predicate Wired() { Paired(log) && |slotA| == |slotB| == SLOT_SIZE }

    function Slot(n: u32): (s: SlotBytes)
      requires Wired()
    {
      if n == SLOT_A then slotA else slotB
    }

    function WithSlot(n: u32, s: seq<Byte>): Board {
      if n == SLOT_A then this.(slotA := s) else this.(slotB := s)
    }

    /** The fault that hits the next storage call. */
    function Next(): Fault { if faults == [] then Fine else faults[0] }

    function Spend(): Board { this.(faults := if faults == [] then [] else faults[1..]) }
  }

  function SlotAddress(n: u32): u32 { if n == SLOT_A then SLOT_A_ADDRESS else SLOT_B_ADDRESS }

  /** Where the image in a slot starts. */
  function BootAddress(b: Board, slot: u32): int
    requires b.Wired()
  {
    SlotAddress(slot) + DecodeHeader(b.Slot(slot)).headerSize
  }

  // ----- reads

  /** `count` reads in a row, stopping at the first that fails: whether all went well, and what is
      left of the faults. */
  function Reads(faults: seq<Fault>, count: nat): (r: (bool, seq<Fault>))
    decreases count
  {
    if count == 0 || faults == [] then (true, faults)
    else if Strikes(faults[0], 0) then (false, faults[1..])
    else Reads(faults[1..], count - 1)
  }

  datatype Result = Result(board: Board, status: Status)

  /** iap_verify_image: reads, and changes nothing. */
  function VerifyImage(b: Board, slot: u32): (r: Result)
    requires b.Wired()
    ensures r.board == b.(faults := r.board.faults)
  {
    if !IsSlot(slot) then Result(b, InvalidArg)
    else
      var (headerOk, rest) := Reads(b.faults, 1);
      var h := DecodeHeader(b.Slot(slot));
      if !headerOk then Result(b.(faults := rest), StorageError)
      else if !HeaderIsValid(SLOT_SIZE, h) then Result(b.(faults := rest), VerifyError)
      else
        var (payloadOk, rest') := Reads(rest, Chunks(h.imageSize));
        if !payloadOk then Result(b.(faults := rest'), StorageError)
        else Result(b.(faults := rest'), if Sound(b.Slot(slot)) then Ok else VerifyError)
  }

  datatype HeaderRead = HeaderRead(board: Board, status: Status, header: Header)

  /** iap_read_header */
  function ReadHeader(b: Board, slot: u32): (r: HeaderRead)
    requires b.Wired()
    ensures r.board == b.(faults := r.board.faults)
  {
    var h := DecodeHeader(b.Slot(slot));
    if !IsSlot(slot) then HeaderRead(b, InvalidArg, h)
    else
      var (ok, rest) := Reads(b.faults, 1);
      HeaderRead(b.(faults := rest), if ok then Ok else StorageError, h)
  }

  datatype AddressRead = AddressRead(board: Board, status: Status, address: u32)

  /** iap_get_image_boot_address */
  function GetImageBootAddress(b: Board, slot: u32): (r: AddressRead)
    requires b.Wired()
    ensures r.board == b.(faults := r.board.faults)
  {
    var r := ReadHeader(b, slot);
    if r.status != Ok then AddressRead(r.board, r.status, 0)
    else if !HeaderIsValid(SLOT_SIZE, r.header) then AddressRead(r.board, VerifyError, 0)
    else AddressRead(r.board, Ok, Add32(SlotAddress(slot), r.header.headerSize))
  }

  // ----- the control block

  datatype ControlResult = ControlResult(board: Board, status: Status, control: BootControl)

  /** What a load finds in flash. */
  function Stored(b: Board): BootControl
    requires b.Wired()
  {
    Decode(ReadControl(b.log))
  }

  /** iap_boot_control_load; the control is meaningful when the status is Ok. */
  function Load(b: Board): (r: ControlResult)
    requires b.Wired()
    ensures r.board == b.(faults := r.board.faults)
  {
    var (ok, rest) := Reads(b.faults, 1);
    var c := Stored(b);
    ControlResult(b.(faults := rest),
                  if !ok then StorageError else if !ControlIsValid(c) then BootControlError else Ok, c)
  }

  /** iap_boot_control_save */
  function Save(b: Board, c: BootControl): (r: Result)
    requires b.Wired()
    ensures r.board.Wired()
  {
    if !ControlIsValid(c) then Result(b, InvalidArg)
    else
      var (log, ok) := Append(b.log, Encode(c), b.Next());
      Result(b.Spend().(log := log), if ok then Ok else StorageError)
  }

  /** The end of rollback, confirm and mark-pending: save, and take the new control only if that worked. */
  function Update(b: Board, c: BootControl, updated: BootControl): (r: ControlResult)
    requires b.Wired()
    ensures r.board.Wired()
  {
    var s := Save(b, updated);
    ControlResult(s.board, s.status, if s.status == Ok then updated else c)
  }

  /** Rolling back gives up the pending image and nothing else. */
  function RolledBack(c: BootControl): (r: BootControl)
    ensures r.active == c.active && r.pending == SLOT_NONE && r.maxAttempts == c.maxAttempts
    ensures ControlIsValid(c) ==> ControlIsValid(r)
  {
    var d := c.(pending := SLOT_NONE, attempts := 0);
    if OtherSlot(c.active) == SLOT_A then d.(confirmedA := 0) else d.(confirmedB := 0)
  }

  /** iap_rollback */
  function Rollback(b: Board, c: BootControl): (r: ControlResult)
    requires b.Wired()
    ensures r.board.Wired()
  {
    if !ControlIsValid(c) then ControlResult(b, InvalidArg, c) else Update(b, c, RolledBack(c))
  }

  /** Marking gives the slot a full set of attempts and records the image found there. */
  function Marked(c: BootControl, slot: u32, h: Header): (r: BootControl)
    ensures r.active == c.active && r.pending == slot && r.maxAttempts == c.maxAttempts
    ensures IsSlot(slot) ==> r.Crc(slot) == UInt(h.imageCrc) && r.Size(slot) == h.imageSize
    ensures IsSlot(slot) ==> r.Crc(OtherSlot(slot)) == c.Crc(OtherSlot(slot))
    ensures IsSlot(slot) ==> r.Size(OtherSlot(slot)) == c.Size(OtherSlot(slot))
    ensures ControlIsValid(c) && IsSlot(slot) && slot != c.active ==> ControlIsValid(r)
  {
    var d := c.(pending := slot, attempts := 0);
    if slot == SLOT_A then d.(crcA := UInt(h.imageCrc), sizeA := h.imageSize, confirmedA := 0)
    else d.(crcB := UInt(h.imageCrc), sizeB := h.imageSize, confirmedB := 0)
  }

  /** iap_mark_pending */
  function MarkPending(b: Board, c: BootControl, slot: u32): (r: ControlResult)
    requires b.Wired()
    ensures r.board.Wired()
  {
    if !ControlIsValid(c) || !IsSlot(slot) || slot == c.active then ControlResult(b, InvalidArg, c)
    else
      var v := VerifyImage(b, slot);
      if v.status != Ok then ControlResult(v.board, v.status, c)
      else
        var h := ReadHeader(v.board, slot);
        if h.status != Ok then ControlResult(h.board, h.status, c)
        else Update(h.board, c, Marked(c, slot, h.header))
  }

  /** Confirming makes the slot the only confirmed one. */
  function Confirmed(c: BootControl, slot: u32): (r: BootControl)
    ensures r.active == slot && r.pending == SLOT_NONE && r.maxAttempts == c.maxAttempts
    ensures IsSlot(slot) ==> r.Confirmed(slot) == 1 && r.Confirmed(OtherSlot(slot)) == 0
    ensures forall n :: IsSlot(n) ==> r.Crc(n) == c.Crc(n) && r.Size(n) == c.Size(n)
    ensures ControlIsValid(c) && IsSlot(slot) ==> ControlIsValid(r)
  {
    c.(active := slot, pending := SLOT_NONE, attempts := 0,
       confirmedA := if slot == SLOT_A then 1 else 0, confirmedB := if slot == SLOT_B then 1 else 0)
  }

  /** iap_confirm_current_image */
  function ConfirmCurrentImage(b: Board, c: BootControl, slot: u32): (r: ControlResult)
    requires b.Wired()
    ensures r.board.Wired()
  {
    if !ControlIsValid(c) || !IsSlot(slot) || (slot != c.active && slot != c.pending)
    then ControlResult(b, InvalidArg, c)
    else
      var v := VerifyImage(b, slot);
      if v.status != Ok then ControlResult(v.board, v.status, c)
      else Update(v.board, c, Confirmed(c, slot))
  }

  datatype Selection = Selection(board: Board, status: Status, control: BootControl, slot: u32)

  /** The last part of iap_select_boot_slot: fall back to the active image. */
  function SelectActive(b: Board, c: BootControl): (r: Selection)
    requires b.Wired()
    ensures r.board.Wired()
  {
    var v := VerifyImage(b, c.active);
    if v.status == Ok then Selection(v.board, Ok, c, c.active)
    else Selection(v.board, if v.status == VerifyError then NoValidImage else v.status, c, SLOT_NONE)
  }

  /** iap_select_boot_slot */
  function SelectBootSlot(b: Board, c: BootControl): (r: Selection)
    requires b.Wired()
    ensures r.board.Wired()
  {
    if !ControlIsValid(c) then Selection(b, InvalidArg, c, SLOT_NONE)
    else if c.pending == SLOT_NONE then SelectActive(b, c)
    else
      var v := VerifyImage(b, c.pending);
      if v.status == Ok && c.attempts < c.maxAttempts then
        var u := Update(v.board, c, c.(attempts := c.attempts + 1));
        Selection(u.board, u.status, u.control, if u.status == Ok then c.pending else SLOT_NONE)
      else if v.status != Ok && v.status != VerifyError then Selection(v.board, v.status, c, SLOT_NONE)
      else
        var u := Rollback(v.board, c);
        if u.status != Ok then Selection(u.board, u.status, u.control, SLOT_NONE)
        else SelectActive(u.board, u.control)
  }

  // ----- booting

  datatype Outcome = Jump(slot: u32, address: u32) | Recovery(reason: Status)

  datatype BootResult = BootResult(board: Board, outcome: Outcome)

  /** iap_bootloader_run from the loaded control on. */
  function BootFrom(b: Board, c: BootControl): (r: BootResult)
    requires b.Wired()
    ensures r.board.Wired()
  {
    var s := SelectBootSlot(b, c);
    if s.status != Ok then BootResult(s.board, Recovery(s.status))
    else
      var a := GetImageBootAddress(s.board, s.slot);
      if a.status != Ok then BootResult(a.board, Recovery(a.status))
      else BootResult(a.board, Jump(s.slot, a.address))
  }

  /** iap_bootloader_run */
  function BootloaderRun(b: Board, defaultSlot: u32, maxAttempts: u32): (r: BootResult)
    requires b.Wired()
    ensures r.board.Wired()
  {
    var l := Load(b);
    if l.status == BootControlError then
      var c := DefaultBootControl(defaultSlot, maxAttempts);
      var s := Save(l.board, c);
      if s.status != Ok then BootResult(s.board, Recovery(s.status)) else BootFrom(s.board, c)
    else if l.status != Ok then BootResult(l.board, Recovery(l.status))
    else BootFrom(l.board, l.control)
  }

  // ----- installing

  /** Number of program operations for size bytes: whole words, then single bytes. */
  function ProgramOps(size: nat): nat { size / 4 + size % 4 }

  /** The operation that programs byte i of size bytes, and the byte's place in it. */
  function OpOf(size: nat, i: nat): nat { if i < size / 4 * 4 then i / 4 else size / 4 + (i - size / 4 * 4) }

  function LaneOf(size: nat, i: nat): (lane: nat)
    ensures lane < 4
  {
    if i < size / 4 * 4 then i % 4 else 0
  }

  function ProgramByte(cell: Byte, d: Byte, f: Fault, op: nat, lane: nat): Byte
    requires lane < 4
  {
    match f
    case Fine => cell & d
    case Fail(at, tear) =>
      if op < at then cell & d
      else if op == at then cell & (d | Split(tear(op))[lane])
      else cell
  }

  /** program_words on a slot, from its first byte on. */
  function ProgramSlot(cells: seq<Byte>, data: seq<Byte>, f: Fault): (r: seq<Byte>)
    requires |data| <= |cells|
    ensures |r| == |cells|
  {
    seq(|cells|, i requires 0 <= i < |cells| =>
      if i < |data| then ProgramByte(cells[i], data[i], f, OpOf(|data|, i), LaneOf(|data|, i)) else cells[i])
  }

  predicate ProgramSlotOk(cells: seq<Byte>, data: seq<Byte>, f: Fault)
    requires |data| <= |cells|
  {
    !StrikesIn(f, 0, ProgramOps(|data|)) && ProgramSlot(cells, data, f)[..|data|] == data
  }

  /** The two-sector erase of flash_erase. */
  function EraseSlot(cells: seq<Byte>, f: Fault): (r: seq<Byte>)
    ensures |r| == |cells|
  {
    seq(|cells|, i requires 0 <= i < |cells| =>
      if f.Fail? && f.at == 0 then cells[i] | Split(f.tear(i / 4))[i % 4] else ERASED_BYTE)
  }

  /** The image is exactly the header area and the payload that header h announces. */
  predicate Fits(image: seq<Byte>, h: Header) {
    && HeaderIsValid(SLOT_SIZE, h)
    && |image| == Add32(h.headerSize, h.imageSize)
    && Crc32(image[h.headerSize..]) == h.imageCrc
  }

  /** The checks iap_write_candidate_image makes on the image before it touches storage. */
  predicate Candidate(image: seq<Byte>)
    requires |image| >= HEADER_BYTES
  {
    Fits(image, DecodeHeader(image))
  }

  /** Erase the slot, program the image from its first byte on, and verify the slot. */
  function Install(b: Board, target: u32, image: seq<Byte>): (r: Result)
    requires b.Wired() && IsSlot(target) && |image| <= SLOT_SIZE
    ensures r.board.Wired()
  {
    var b1 := b.Spend().WithSlot(target, EraseSlot(b.Slot(target), b.Next()));
    if Strikes(b.Next(), 0) then Result(b1, StorageError)
    else
      var b2 := b1.Spend().WithSlot(target, ProgramSlot(b1.Slot(target), image, b1.Next()));
      if !ProgramSlotOk(b1.Slot(target), image, b1.Next()) then Result(b2, StorageError)
      else VerifyImage(b2, target)
  }

  /** iap_write_candidate_image, on a storage that protects one slot (or SLOT_NONE). */
  function WriteCandidateImage(b: Board, protected: u32, target: u32, image: seq<Byte>): (r: Result)
    requires b.Wired()
    ensures r.board.Wired()
  {
    if !IsSlot(target) || |image| < HEADER_BYTES || |image| > SLOT_SIZE then Result(b, InvalidArg)
    else if !Candidate(image) then Result(b, VerifyError)
    else if target == protected then Result(b, InvalidArg)
    else Install(b, target, image)
  }
}
