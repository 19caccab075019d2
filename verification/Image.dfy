/** Image headers, what a verifying image is, and the address arithmetic of src/iap_core.c. */
module Image {
  import opened Words
  import opened Crc

  const IMAGE_MAGIC: u32 := 0x4941_5049
  const IMAGE_HEADER_VERSION: u32 := 1
  const HEADER_BYTES := 24

  datatype Header = Header(magic: u32, headerSize: u32, imageSize: u32, imageCrc: Word, version: u32, flags: u32)

  /** Word k of a structure copied byte by byte. */
  function Field(bytes: seq<Byte>, k: nat): Word
    requires 4 * k + 4 <= |bytes|
  {
    Join(bytes[4 * k..4 * k + 4])
  }

  /** Words stored byte by byte come back word by word. */
  lemma {:induction false} FieldOfWords(words: seq<Word>, rest: seq<Byte>, k: nat)
    requires k < |words|
    ensures Field(WordBytes(words) + rest, k) == words[k]
    decreases k
  {
    hide Join, Split;
    var bytes := WordBytes(words) + rest;
    var tail := WordBytes(words[1..]) + rest;
    assert bytes == Split(words[0]) + tail;
    if k == 0 {
      assert bytes[0..4] == Split(words[0]);
      JoinSplit(words[0]);
    } else {
      FieldOfWords(words[1..], rest, k - 1);
      assert bytes[4 * k..4 * k + 4] == tail[4 * (k - 1)..4 * (k - 1) + 4];
    }
  }

  function DecodeHeader(bytes: seq<Byte>): Header
    requires |bytes| >= HEADER_BYTES
  {
    Header(UInt(Field(bytes, 0)), UInt(Field(bytes, 1)), UInt(Field(bytes, 2)), Field(bytes, 3),
           UInt(Field(bytes, 4)), UInt(Field(bytes, 5)))
  }

  /** iap_image_header_is_valid */
  predicate HeaderIsValid(slotSize: u32, h: Header) {
    && slotSize > HEADER_BYTES
    && h.magic == IMAGE_MAGIC
    && h.headerSize >= HEADER_BYTES
    && h.headerSize % 4 == 0
    && h.headerSize < slotSize
    && h.version == IMAGE_HEADER_VERSION
    && h.imageSize > 0
    && h.imageSize <= slotSize - h.headerSize
  }

  type SlotBytes = s: seq<Byte> | HEADER_BYTES < |s| < TWO_32 witness seq(HEADER_BYTES + 1, _ => 0)

  function Payload(slot: SlotBytes): seq<Byte>
    requires HeaderIsValid(|slot|, DecodeHeader(slot))
  {
    var h := DecodeHeader(slot);
    slot[h.headerSize..h.headerSize + h.imageSize]
  }

  /** The slot holds an image that verifies: a valid header whose CRC is that of the whole payload. */
  predicate Sound(slot: SlotBytes) {
    var h := DecodeHeader(slot);
    HeaderIsValid(|slot|, h) && Crc32(Payload(slot)) == h.imageCrc
  }

  /** bytes with those from position at on replaced by y. */
  function Patch(bytes: seq<Byte>, at: nat, y: seq<Byte>): (r: seq<Byte>)
    requires at + |y| <= |bytes|
    ensures |r| == |bytes|
  {
    bytes[..at] + y + bytes[at + |y|..]
  }

  lemma PatchSlice(bytes: seq<Byte>, at: nat, y: seq<Byte>, first: nat, last: nat)
    requires first <= at && at + |y| <= last <= |bytes|
    ensures bytes[first..last] == bytes[first..at] + bytes[at..at + |y|] + bytes[at + |y|..last]
    ensures Patch(bytes, at, y)[first..last] == bytes[first..at] + y + bytes[at + |y|..last]
    ensures Patch(bytes, at, y)[..first] == bytes[..first]
  {
    var r := Patch(bytes, at, y);
    forall i | 0 <= i < |bytes|
      ensures r[i] == if at <= i < at + |y| then y[i - at] else bytes[i]
    {
    }
  }

  lemma PatchedCrc(bytes: seq<Byte>, at: nat, y: seq<Byte>, first: nat, last: nat)
    requires first <= at && at + |y| <= last <= |bytes| && |y| <= 4 && y != bytes[at..at + |y|]
    ensures Crc32(Patch(bytes, at, y)[first..last]) != Crc32(bytes[first..last])
  {
    PatchSlice(bytes, at, y, first, last);
    BurstDetected(bytes[first..at], bytes[at..at + |y|], y, bytes[at + |y|..last]);
  }

  lemma HeaderUnchanged(a: seq<Byte>, b: seq<Byte>)
    requires |a| >= HEADER_BYTES && |b| >= HEADER_BYTES && a[..HEADER_BYTES] == b[..HEADER_BYTES]
    ensures DecodeHeader(a) == DecodeHeader(b)
  {
    forall k | 0 <= k < 6
      ensures a[4 * k..4 * k + 4] == b[4 * k..4 * k + 4]
    {
      assert a[4 * k..4 * k + 4] == a[..HEADER_BYTES][4 * k..4 * k + 4];
      assert b[4 * k..4 * k + 4] == b[..HEADER_BYTES][4 * k..4 * k + 4];
    }
  }

  /** Changing any non-empty part of up to four consecutive payload bytes of a verifying image
      always makes verification fail. */
  lemma PayloadBurstDetected(slot: SlotBytes, at: nat, y: seq<Byte>)
    requires Sound(slot) && |y| <= 4
    requires var h := DecodeHeader(slot);
             h.headerSize <= at && at + |y| <= h.headerSize + h.imageSize && y != slot[at..at + |y|]
    ensures !Sound(Patch(slot, at, y))
  {
    hide DecodeHeader, Crc32, Patch;
    var h := DecodeHeader(slot);
    PatchSlice(slot, at, y, HEADER_BYTES, |slot|);
    HeaderUnchanged(slot, Patch(slot, at, y));
    PatchedCrc(slot, at, y, h.headerSize, h.headerSize + h.imageSize);
  }

  // ----- layout

  datatype SlotDesc = SlotDesc(address: u32, size: u32)

  const CONTROL_BYTES := 48

  predicate RangeIsValid(address: u32, size: u32) { size > 0 && size <= TWO_32 - 1 - address }

  predicate RangesOverlap(address1: u32, size1: u32, address2: u32, size2: u32) {
    address1 < Add32(address2, size2) && address2 < Add32(address1, size1)
  }

  /** The checks of iap_init on the layout. */
  predicate InitAccepts(a: SlotDesc, b: SlotDesc, control: u32) {
    && a.size > HEADER_BYTES
    && b.size > HEADER_BYTES
    && RangeIsValid(a.address, a.size)
    && RangeIsValid(b.address, b.size)
    && RangeIsValid(control, CONTROL_BYTES)
    && !RangesOverlap(a.address, a.size, b.address, b.size)
    && !RangesOverlap(a.address, a.size, control, CONTROL_BYTES)
    && !RangesOverlap(b.address, b.size, control, CONTROL_BYTES)
  }

  predicate Inside(x: int, address: int, size: int) { address <= x < address + size }

  /** Two regions share an address. */
  ghost predicate Meet(address1: int, size1: int, address2: int, size2: int) {
    exists x :: Inside(x, address1, size1) && Inside(x, address2, size2)
  }

  lemma MeetIff(address1: int, size1: int, address2: int, size2: int)
    requires size1 > 0 && size2 > 0
    ensures Meet(address1, size1, address2, size2)
            <==> address1 < address2 + size2 && address2 < address1 + size1
  {
    var x := if address1 < address2 then address2 else address1;
    if address1 < address2 + size2 && address2 < address1 + size1 {
      assert Inside(x, address1, size1) && Inside(x, address2, size2);
    }
  }

  /** iap_init accepts exactly the layouts whose slots can hold more than a header, whose three
      regions all end below 2^32, and that are pairwise disjoint. */
  lemma InitAcceptsIff(a: SlotDesc, b: SlotDesc, control: u32)
    ensures InitAccepts(a, b, control) <==>
              && a.size > 24 && b.size > 24
              && a.address + a.size < 0x1_0000_0000 && b.address + b.size < 0x1_0000_0000
              && control + 48 < 0x1_0000_0000
              && !Meet(a.address, a.size, b.address, b.size)
              && !Meet(a.address, a.size, control, 48)
              && !Meet(b.address, b.size, control, 48)
  {
    if a.size > HEADER_BYTES && b.size > HEADER_BYTES {
      MeetIff(a.address, a.size, b.address, b.size);
      MeetIff(a.address, a.size, control, CONTROL_BYTES);
      MeetIff(b.address, b.size, control, CONTROL_BYTES);
    }
  }

  // ----- what verification reads

  const CHUNK := 64

  /** How many chunks verification reads. */
  function Chunks(imageSize: u32): nat { (imageSize + CHUNK - 1) / CHUNK }

  datatype ReadCall = ReadCall(address: u32, size: nat)

  /** The reads of the payload loop, from an offset in the slot on. */
  function ChunkReads(desc: SlotDesc, offset: u32, remaining: u32): (calls: seq<ReadCall>)
    ensures |calls| == Chunks(remaining)
    decreases remaining
  {
    if remaining == 0 then []
    else
      var chunk := if remaining > CHUNK then CHUNK else remaining;
      [ReadCall(Add32(desc.address, offset), chunk)] + ChunkReads(desc, Add32(offset, chunk), remaining - chunk)
  }

  lemma NoWrap(a: u32, b: u32)
    requires a + b < TWO_32
    ensures Add32(a, b) == a + b
  {
  }

  /** The first read of the loop and the rest. */
  lemma ChunkReadsAre(desc: SlotDesc, offset: u32, remaining: u32)
    requires offset + remaining < TWO_32
    ensures ChunkReads(desc, offset, 0) == []
    ensures var chunk := if remaining > CHUNK then CHUNK else remaining;
            remaining > 0 ==>
              ChunkReads(desc, offset, remaining)
              == [ReadCall(Add32(desc.address, offset), chunk)] + ChunkReads(desc, offset + chunk, remaining - chunk)
  {
    hide Add32;
    if remaining > 0 {
      NoWrap(offset, if remaining > CHUNK then CHUNK else remaining);
    }
  }

  /** Chunk k of the loop: 64 bytes, or what is left, 64 k bytes behind the first. */
  lemma {:induction false} ChunkReadAt(desc: SlotDesc, offset: u32, remaining: u32, k: nat)
    requires desc.address + offset + remaining < TWO_32
    ensures |ChunkReads(desc, offset, remaining)| == (remaining + 63) / 64
    ensures k < (remaining + 63) / 64 ==>
              ChunkReads(desc, offset, remaining)[k]
              == ReadCall(desc.address + offset + 64 * k, if remaining - 64 * k > 64 then 64 else remaining - 64 * k)
    decreases k
  {
    hide ChunkReads, Add32;
    ChunkReadsAre(desc, offset, remaining);
    if k < (remaining + 63) / 64 {
      NoWrap(desc.address, offset);
      if k > 0 {
        ChunkReadAt(desc, offset + 64, remaining - 64, k - 1);
      }
    }
  }

  /** All reads of one verification, for a slot anywhere that starts with header h. */
  function VerificationReads(desc: SlotDesc, h: Header): seq<ReadCall> {
    [ReadCall(desc.address, HEADER_BYTES)] +
    if HeaderIsValid(desc.size, h) then ChunkReads(desc, h.headerSize, h.imageSize) else []
  }

  /** The calls read size bytes from an address on, one piece after the other. */
  predicate Tiles(calls: seq<ReadCall>, address: int, size: int)
    decreases calls
  {
    if calls == [] then size == 0
    else
      && calls[0].address == address && 0 < calls[0].size <= size
      && Tiles(calls[1..], address + calls[0].size, size - calls[0].size)
  }

  lemma {:induction false} ChunksTile(desc: SlotDesc, offset: u32, remaining: u32)
    requires RangeIsValid(desc.address, desc.size) && offset + remaining <= desc.size
    ensures Tiles(ChunkReads(desc, offset, remaining), desc.address + offset, remaining)
    decreases remaining
  {
    hide ChunkReads, Add32, Chunks;
    ChunkReadsAre(desc, offset, remaining);
    if remaining > 0 {
      var chunk := if remaining > CHUNK then CHUNK else remaining;
      NoWrap(desc.address, offset);
      ChunksTile(desc, offset + chunk, remaining - chunk);
      assert ChunkReads(desc, offset, remaining)[1..] == ChunkReads(desc, offset + chunk, remaining - chunk);
    }
  }

  lemma {:induction false} TilesInside(calls: seq<ReadCall>, address: int, size: int, k: nat)
    requires Tiles(calls, address, size) && k < |calls|
    ensures address <= calls[k].address && calls[k].address + calls[k].size <= address + size
    decreases k
  {
    if k > 0 {
      TilesInside(calls[1..], address + calls[0].size, size - calls[0].size, k - 1);
    }
  }

  /** In any accepted slot and whatever its header says, every read of a verification, header and
      chunks, stays inside the slot; if the header is accepted the chunks are the payload, piece by
      piece; the boot address is inside the slot too, and no sum wraps. */
  lemma ReadsStayInside(desc: SlotDesc, h: Header)
    requires RangeIsValid(desc.address, desc.size) && desc.size > HEADER_BYTES
    ensures forall k :: 0 <= k < |VerificationReads(desc, h)| ==>
              var call := VerificationReads(desc, h)[k];
              desc.address <= call.address && call.address + call.size <= desc.address + desc.size < TWO_32
    ensures HeaderIsValid(desc.size, h) ==>
              && Tiles(VerificationReads(desc, h)[1..], desc.address + h.headerSize, h.imageSize)
              && Add32(desc.address, h.headerSize) == desc.address + h.headerSize
              && desc.address < desc.address + h.headerSize < desc.address + desc.size
  {
    if HeaderIsValid(desc.size, h) {
      var calls := ChunkReads(desc, h.headerSize, h.imageSize);
      ChunksTile(desc, h.headerSize, h.imageSize);
      assert VerificationReads(desc, h)[1..] == calls;
      forall k | 0 <= k < |calls|
        ensures desc.address <= calls[k].address && calls[k].address + calls[k].size <= desc.address + desc.size
      {
        TilesInside(calls, desc.address + h.headerSize, h.imageSize, k);
      }
    }
  }
}
