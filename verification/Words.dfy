/** Flash words, bytes, and the numbers they stand for.
    A word is a bit pattern. Arithmetic is done on the number it stands for, so every
    wrap-around of the source's uint32_t is written out. */
module Words {
  type Byte = bv8
  type Word = bv32

  const TWO_32: int := 0x1_0000_0000

  type u32 = x: int | 0 <= x < TWO_32

  const ALL_ONES: Word := 0xFFFF_FFFF
  const ERASED_BYTE: Byte := 0xFF

  /** uint32_t addition. */
  function Add32(a: u32, b: u32): u32 { (a + b) % TWO_32 }

  /** The four bytes of a word, least significant first. */
  function Split(w: Word): (bytes: seq<Byte>)
    ensures |bytes| == 4
  {
    [(w & 0xFF) as Byte, ((w >> 8) & 0xFF) as Byte, ((w >> 16) & 0xFF) as Byte, ((w >> 24) & 0xFF) as Byte]
  }

  /** The word at the front of some bytes, least significant byte first. */
  function Join(bytes: seq<Byte>): Word
    requires |bytes| >= 4
  {
    (bytes[0] as Word) | ((bytes[1] as Word) << 8) | ((bytes[2] as Word) << 16) | ((bytes[3] as Word) << 24)
  }

  /** The number that bytes stand for, least significant first. */
  function Number(bytes: seq<Byte>): nat {
    if bytes == [] then 0 else bytes[0] as int + 0x100 * Number(bytes[1..])
  }

  function ToByte(n: nat): Byte {
    if n == 0 then 0 else (ToByte(n / 2) << 1) | (if n % 2 == 1 then 1 else 0)
  }

  /** The low `count` base-256 digits of n, least significant first. */
  function Digits(n: nat, count: nat): (bytes: seq<Byte>)
    ensures |bytes| == count
  {
    if count == 0 then [] else [ToByte(n % 0x100)] + Digits(n / 0x100, count - 1)
  }

  function Power256(k: nat): nat { if k == 0 then 1 else 0x100 * Power256(k - 1) }

  lemma ShiftIn(b: Byte)
    requires b as int < 0x80
    ensures (b << 1) as int == 2 * (b as int)
    ensures ((b << 1) | 1) as int == 2 * (b as int) + 1
  {
    assert b < 0x80;
  }

  lemma {:induction false} ToByteValue(n: nat)
    requires n < 0x100
    ensures ToByte(n) as int == n
  {
    if n > 0 {
      ToByteValue(n / 2);
      ShiftIn(ToByte(n / 2));
    }
  }

  lemma ByteValueInjective(a: Byte, b: Byte)
    requires a as int == b as int
    ensures a == b
  {
    assert (a as int) as Byte == a && (b as int) as Byte == b;
  }

  lemma {:induction false} NumberDigits(n: nat, count: nat)
    requires n < Power256(count)
    ensures Number(Digits(n, count)) == n
  {
    if count > 0 {
      NumberDigits(n / 0x100, count - 1);
      ToByteValue(n % 0x100);
      assert Digits(n, count)[1..] == Digits(n / 0x100, count - 1);
    }
  }

  /** A byte in front of a number, and how to take it off again. */
  lemma LowByte(b: Byte, high: nat)
    ensures (b as int + 0x100 * high) / 0x100 == high
    ensures ToByte((b as int + 0x100 * high) % 0x100) == b
  {
    hide ToByte;
    assert (b as int + 0x100 * high) % 0x100 == b as int;
    ToByteValue(b as int);
    ByteValueInjective(ToByte(b as int), b);
  }

  lemma {:induction false} DigitsNumber(bytes: seq<Byte>)
    ensures Number(bytes) < Power256(|bytes|)
    ensures Digits(Number(bytes), |bytes|) == bytes
  {
    hide ToByte;
    if bytes != [] {
      DigitsNumber(bytes[1..]);
      LowByte(bytes[0], Number(bytes[1..]));
      assert bytes == [bytes[0]] + bytes[1..];
    }
  }

  /** The number a word stands for. */
  function UInt(w: Word): (n: u32) {
    DigitsNumber(Split(w));
    assert Power256(4) == TWO_32;
    Number(Split(w))
  }

  function ToWord(n: u32): Word { Join(Digits(n, 4)) }

  lemma SplitJoin(bytes: seq<Byte>)
    requires |bytes| == 4
    ensures Split(Join(bytes)) == bytes
  {
  }

  lemma JoinSplit(w: Word)
    ensures Join(Split(w)) == w
  {
  }

  lemma UIntToWord(n: u32)
    ensures UInt(ToWord(n)) == n
  {
    SplitJoin(Digits(n, 4));
    assert Power256(4) == TWO_32;
    NumberDigits(n, 4);
  }

  /** The bytes of consecutive words. */
  function WordBytes(words: seq<Word>): (bytes: seq<Byte>)
    ensures |bytes| == 4 * |words|
  {
    if words == [] then [] else Split(words[0]) + WordBytes(words[1..])
  }
}
