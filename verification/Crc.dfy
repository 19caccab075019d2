/** Repeating a function; stated for any type, so that the word-level facts below need no bit reasoning. */
module Iteration {

  function Iterate<T>(f: T -> T, x: T, n: nat): T
    decreases n
  {
    if n == 0 then x else Iterate(f, f(x), n - 1)
  }

  lemma {:induction false} Compose<T>(f: T -> T, x: T, m: nat, n: nat)
    ensures Iterate(f, Iterate(f, x, m), n) == Iterate(f, x, m + n)
    decreases m
  {
    if m > 0 {
      Compose(f, f(x), m - 1, n);
    }
  }

  lemma Once<T>(f: T -> T, x: T, y: T, n: nat)
    requires n > 0 && y == f(x)
    ensures Iterate(f, x, n) == Iterate(f, y, n - 1)
  {
  }

  ghost predicate Homomorphic<T(!new)>(f: T -> T, g: (T, T) -> T) {
    forall u, v :: f(g(u, v)) == g(f(u), f(v))
  }

  lemma {:induction false} IterateHomomorphic<T(!new)>(f: T -> T, g: (T, T) -> T, x: T, y: T, n: nat)
    requires Homomorphic(f, g)
    ensures Iterate(f, g(x, y), n) == g(Iterate(f, x, n), Iterate(f, y, n))
    decreases n
  {
    if n > 0 {
      assert f(g(x, y)) == g(f(x), f(y));
      IterateHomomorphic(f, g, f(x), f(y), n - 1);
    }
  }

  ghost predicate Undoes<T(!new)>(g: T -> T, f: T -> T) {
    forall x :: g(f(x)) == x
  }

  lemma {:induction false} IterateInjective<T(!new)>(f: T -> T, g: T -> T, x: T, y: T, n: nat)
    requires Undoes(g, f) && Iterate(f, x, n) == Iterate(f, y, n)
    ensures x == y
    decreases n
  {
    if n > 0 {
      IterateInjective(f, g, f(x), f(y), n - 1);
      assert g(f(x)) == x && g(f(y)) == y;
    }
  }
}

/** The CRC-32 of src/iap_core.c, its algebra, and the errors it is certain to catch. */
module Crc {
  import opened Words
  import opened Iteration

  const POLY: Word := 0xEDB8_8320
  const INITIAL: Word := 0xFFFF_FFFF

  function Xor(a: Word, b: Word): Word { a ^ b }

  /** One turn of the inner loop. */
  function Step(crc: Word): Word {
    if crc & 1 != 0 then (crc >> 1) ^ POLY else crc >> 1
  }

  function UpdateByte(crc: Word, b: Byte): Word { Iterate(Step, Xor(crc, b as Word), 8) }

  function Update(crc: Word, data: seq<Byte>): Word
    decreases data
  {
    if data == [] then crc else Update(UpdateByte(crc, data[0]), data[1..])
  }

  function Crc32(data: seq<Byte>): Word { Xor(Update(INITIAL, data), INITIAL) }

  lemma StepIs(crc: Word)
    ensures Step(crc) == if crc & 1 != 0 then (crc >> 1) ^ POLY else crc >> 1
  {
  }

  lemma ByteAbsorbed(crc: Word, data: seq<Byte>, i: nat)
    requires i < |data|
    ensures Update(crc, data[i..]) == Update(Iterate(Step, crc ^ (data[i] as Word), 8), data[i + 1..])
  {
    hide Iterate, Step;
    assert data[i..][0] == data[i] && data[i..][1..] == data[i + 1..];
  }

  lemma StepsDone(crc: Word, data: seq<Byte>)
    ensures Iterate(Step, crc, 0) == crc
    ensures Update(crc, []) == crc && data[0..] == data && data[|data|..] == []
  {
  }

  /** iap_crc32_update: the two nested loops. */
  method Crc32Update(crc0: Word, data: seq<Byte>) returns (crc: Word)
    ensures crc == Update(crc0, data)
  {
    hide *;
    crc := crc0;
    StepsDone(crc0, data);
    for i := 0 to |data|
      invariant Update(crc, data[i..]) == Update(crc0, data)
    {
      ByteAbsorbed(crc, data, i);
      crc := crc ^ (data[i] as Word);
      ghost var absorbed := Iterate(Step, crc, 8);
      for bit := 0 to 8
        invariant Iterate(Step, crc, 8 - bit) == absorbed
      {
        StepIs(crc);
        Once(Step, crc, Step(crc), 8 - bit);
        if crc & 1 != 0 {
          crc := (crc >> 1) ^ POLY;
        } else {
          crc := crc >> 1;
        }
      }
      StepsDone(crc, data);
    }
    StepsDone(crc, data);
  }

  /** iap_crc32. */
  method ComputeCrc32(data: seq<Byte>) returns (crc: Word)
    ensures crc == Crc32(data)
  {
    crc := Crc32Update(INITIAL, data);
    crc := crc ^ INITIAL;
  }

  lemma {:induction false} UpdateConcat(crc: Word, a: seq<Byte>, b: seq<Byte>)
    ensures Update(crc, a + b) == Update(Update(crc, a), b)
    decreases a
  {
    if a == [] {
      assert a + b == b;
    } else {
      assert (a + b)[0] == a[0] && (a + b)[1..] == a[1..] + b;
      UpdateConcat(UpdateByte(crc, a[0]), a[1..], b);
    }
  }

  // ----- exclusive or

  lemma XorCommutes(a: Word, b: Word)
    ensures Xor(a, b) == Xor(b, a)
  {
  }

  lemma XorAssociates(a: Word, b: Word, c: Word)
    ensures Xor(Xor(a, b), c) == Xor(a, Xor(b, c))
  {
  }

  lemma XorTwice(a: Word, x: Word)
    ensures Xor(Xor(a, x), x) == a
    ensures Xor(x, Xor(x, a)) == a
  {
  }

  lemma XorCancel(a: Word, b: Word, x: Word)
    requires Xor(a, x) == Xor(b, x)
    ensures a == b
  {
    XorTwice(a, x);
    XorTwice(b, x);
  }

  // ----- linearity

  lemma OddOdd(a: Word, b: Word)
    requires a & 1 != 0 && b & 1 != 0
    ensures Step(a ^ b) == Step(a) ^ Step(b)
  {
  }

  lemma OddEven(a: Word, b: Word)
    requires a & 1 != 0 && b & 1 == 0
    ensures Step(a ^ b) == Step(a) ^ Step(b)
    ensures Step(b ^ a) == Step(b) ^ Step(a)
  {
  }

  lemma EvenEven(a: Word, b: Word)
    requires a & 1 == 0 && b & 1 == 0
    ensures Step(a ^ b) == Step(a) ^ Step(b)
  {
  }

  lemma StepLinear(a: Word, b: Word)
    ensures Step(Xor(a, b)) == Xor(Step(a), Step(b))
  {
    if a & 1 != 0 {
      if b & 1 != 0 { OddOdd(a, b); } else { OddEven(a, b); }
    } else {
      if b & 1 != 0 { OddEven(b, a); } else { EvenEven(a, b); }
    }
  }

  lemma StepHomomorphic()
    ensures Homomorphic(Step, Xor)
  {
    forall u: Word, v: Word
      ensures Step(Xor(u, v)) == Xor(Step(u), Step(v))
    {
      StepLinear(u, v);
    }
  }

  lemma StepsLinear(a: Word, b: Word, n: nat)
    ensures Iterate(Step, Xor(a, b), n) == Xor(Iterate(Step, a, n), Iterate(Step, b, n))
  {
    StepHomomorphic();
    IterateHomomorphic(Step, Xor, a, b, n);
  }

  // ----- invertibility

  /** The step run backwards. */
  function StepBack(crc: Word): Word {
    if crc & 0x8000_0000 != 0 then ((crc ^ POLY) << 1) | 1 else crc << 1
  }

  lemma StepBackOdd(crc: Word)
    requires crc & 1 != 0
    ensures StepBack(Step(crc)) == crc
  {
  }

  lemma StepBackEven(crc: Word)
    requires crc & 1 == 0
    ensures StepBack(Step(crc)) == crc
  {
  }

  lemma StepUndone()
    ensures Undoes(StepBack, Step)
  {
    forall crc: Word
      ensures StepBack(Step(crc)) == crc
    {
      if crc & 1 != 0 { StepBackOdd(crc); } else { StepBackEven(crc); }
    }
  }

  lemma StepsInjective(a: Word, b: Word, n: nat)
    requires Iterate(Step, a, n) == Iterate(Step, b, n)
    ensures a == b
  {
    StepUndone();
    IterateInjective(Step, StepBack, a, b, n);
  }

  /** Reading on through the same bytes never merges two different states. */
  lemma {:induction false} UpdateInjective(a: Word, b: Word, data: seq<Byte>)
    requires Update(a, data) == Update(b, data)
    ensures a == b
    decreases data
  {
    if data != [] {
      UpdateInjective(UpdateByte(a, data[0]), UpdateByte(b, data[0]), data[1..]);
      StepsInjective(Xor(a, data[0] as Word), Xor(b, data[0] as Word), 8);
      XorCancel(a, b, data[0] as Word);
    }
  }

  // ----- the byte-table form of section 8 of RFC 1952

  /** The table entry of the byte whose only set bit is number k, as the standard lists it. */
  function Entry(k: nat): Word
    requires k < 8
  {
    match k
    case 0 => 0x7707_3096
    case 1 => 0xEE0E_612C
    case 2 => 0x076D_C419
    case 3 => 0x0EDB_8832
    case 4 => 0x1DB7_1064
    case 5 => 0x3B6E_20C8
    case 6 => 0x76DC_4190
    case 7 => 0xEDB8_8320
  }

  function Bit(k: nat): Word
    requires k < 8
  {
    match k
    case 0 => 0x01
    case 1 => 0x02
    case 2 => 0x04
    case 3 => 0x08
    case 4 => 0x10
    case 5 => 0x20
    case 6 => 0x40
    case 7 => 0x80
  }

  function Pick(x: Word, bit: Word, entry: Word): Word { if x & bit != 0 then entry else 0 }

  /** The entries of the bits that are set in a byte, from bit k on, put together. */
  function TableFrom(x: Word, k: nat): Word
    requires k <= 8
    decreases 8 - k
  {
    if k == 8 then 0 else Xor(Pick(x, Bit(k), Entry(k)), TableFrom(x, k + 1))
  }

  /** The table at a byte. The table is linear, so the eight entries above give all of it. */
  function Table(x: Word): Word { TableFrom(x, 0) }

  function TableUpdateByte(crc: Word, b: Byte): Word {
    Xor(Table(Xor(crc, b as Word) & 0xFF), crc >> 8)
  }

  function TableUpdate(crc: Word, data: seq<Byte>): Word
    decreases data
  {
    if data == [] then crc else TableUpdate(TableUpdateByte(crc, data[0]), data[1..])
  }

  lemma FourShifts(x: Word)
    requires x & 0xF == 0
    ensures Step(Step(Step(Step(x)))) == x >> 4
  {
  }

  lemma FourSteps(x: Word, n: nat)
    requires x & 0xF == 0 && n >= 4
    ensures Iterate(Step, x, n) == Iterate(Step, x >> 4, n - 4)
  {
    FourShifts(x);
    Once(Step, x, Step(x), n);
    Once(Step, Step(x), Step(Step(x)), n - 1);
    Once(Step, Step(Step(x)), Step(Step(Step(x))), n - 2);
    Once(Step, Step(Step(Step(x))), x >> 4, n - 3);
  }

  lemma NibbleShifts(x: Word)
    requires x & 0xFF == 0
    ensures x & 0xF == 0 && (x >> 4) & 0xF == 0 && (x >> 4) >> 4 == x >> 8
  {
  }

  /** A byte of zero bits is only shifted out. */
  lemma ShiftSteps(x: Word)
    requires x & 0xFF == 0
    ensures Iterate(Step, x, 8) == x >> 8
  {
    NibbleShifts(x);
    FourSteps(x, 8);
    FourSteps(x >> 4, 4);
  }

  lemma LowByteXor(x: Word)
    ensures Xor(x & 0xFFFF_FF00, x & 0xFF) == x
  {
  }

  lemma LowByteCleared(x: Word)
    ensures (x & 0xFFFF_FF00) & 0xFF == 0 && (x & 0xFFFF_FF00) >> 8 == x >> 8
  {
  }

  lemma LowByteShiftedOut(crc: Word, b: Byte)
    ensures Xor(crc, b as Word) >> 8 == crc >> 8
  {
  }

  lemma BitHalved(k: nat)
    requires 0 < k < 8
    ensures Step(Bit(k)) == Bit(k - 1)
  {
  }

  lemma EntryHalved(k: nat)
    requires 0 < k < 8
    ensures Step(Entry(k)) == Entry(k - 1)
  {
  }

  lemma LastBit()
    ensures Step(Bit(0)) == Entry(7)
  {
  }

  lemma {:induction false} EntrySteps(k: nat, n: nat)
    requires k < 8 && n <= k
    ensures Iterate(Step, Entry(k), n) == Entry(k - n)
    decreases n
  {
    hide Step;
    if n > 0 {
      EntryHalved(k);
      EntrySteps(k - 1, n - 1);
    }
  }

  lemma {:induction false} BitSteps(k: nat, n: nat)
    requires k < 8 && n <= k
    ensures Iterate(Step, Bit(k), n) == Bit(k - n)
    decreases n
  {
    hide Step;
    if n > 0 {
      BitHalved(k);
      BitSteps(k - 1, n - 1);
    }
  }

  /** Eight steps take each single bit to its entry. */
  lemma EntryIs(k: nat)
    requires k < 8
    ensures Iterate(Step, Bit(k), 8) == Entry(k)
  {
    hide Step, Entry, Bit;
    LastBit();
    BitSteps(k, k);
    Compose(Step, Bit(k), k, 8 - k);
    Once(Step, Bit(0), Entry(7), 8 - k);
    EntrySteps(7, 7 - k);
  }

  /** The bits of a byte from number k on. */
  function HighBits(x: Word, k: nat): Word
    requires k <= 8
    decreases 8 - k
  {
    if k == 8 then 0 else Xor(Pick(x, Bit(k), Bit(k)), HighBits(x, k + 1))
  }

  lemma PickedBit(x: Word, k: nat)
    requires k < 8
    ensures Pick(x, Bit(k), Bit(k)) == x & Bit(k)
  {
  }

  lemma ByteFromBits(x: Word)
    ensures Xor(x & 0x01, Xor(x & 0x02, Xor(x & 0x04, Xor(x & 0x08,
              Xor(x & 0x10, Xor(x & 0x20, Xor(x & 0x40, Xor(x & 0x80, 0)))))))) == x & 0xFF
  {
  }

  lemma Bits()
    ensures Bit(0) == 0x01 && Bit(1) == 0x02 && Bit(2) == 0x04 && Bit(3) == 0x08
    ensures Bit(4) == 0x10 && Bit(5) == 0x20 && Bit(6) == 0x40 && Bit(7) == 0x80
  {
  }

  lemma HighBitsUnfold(x: Word, k: nat)
    requires k < 8
    ensures HighBits(x, 8) == 0 && HighBits(x, k) == Xor(x & Bit(k), HighBits(x, k + 1))
  {
    hide Xor, Pick, Bit;
    PickedBit(x, k);
  }

  lemma AllBits(x: Word)
    ensures HighBits(x, 0) == x & 0xFF
  {
    hide *;
    Bits();
    HighBitsUnfold(x, 0);
    HighBitsUnfold(x, 1);
    HighBitsUnfold(x, 2);
    HighBitsUnfold(x, 3);
    HighBitsUnfold(x, 4);
    HighBitsUnfold(x, 5);
    HighBitsUnfold(x, 6);
    HighBitsUnfold(x, 7);
    ByteFromBits(x);
  }

  lemma ZeroSteps()
    ensures Iterate(Step, 0, 8) == 0
  {
    ShiftSteps(0);
  }

  lemma {:induction false} HighBitsSteps(x: Word, k: nat)
    requires k <= 8
    ensures Iterate(Step, HighBits(x, k), 8) == TableFrom(x, k)
    decreases 8 - k
  {
    hide Step, Xor, Entry, Bit;
    ZeroSteps();
    if k < 8 {
      HighBitsSteps(x, k + 1);
      EntryIs(k);
      StepsLinear(Pick(x, Bit(k), Bit(k)), HighBits(x, k + 1), 8);
    }
  }

  /** The standard's table is what eight steps make of each byte. */
  lemma TableIs(x: Word)
    ensures Table(x) == Iterate(Step, x & 0xFF, 8)
  {
    hide Step, Xor;
    AllBits(x);
    HighBitsSteps(x, 0);
  }

  lemma LowByteAgain(x: Word)
    ensures (x & 0xFF) & 0xFF == x & 0xFF
  {
  }

  /** Eight steps are a table look-up and a shift. */
  lemma EightSteps(x: Word)
    ensures Iterate(Step, x, 8) == Xor(Table(x & 0xFF), x >> 8)
  {
    hide Table;
    LowByteXor(x);
    LowByteCleared(x);
    ShiftSteps(x & 0xFFFF_FF00);
    StepsLinear(x & 0xFFFF_FF00, x & 0xFF, 8);
    TableIs(x & 0xFF);
    LowByteAgain(x);
    XorCommutes(x >> 8, Table(x & 0xFF));
  }

  lemma TableByte(crc: Word, b: Byte)
    ensures TableUpdateByte(crc, b) == UpdateByte(crc, b)
  {
    EightSteps(Xor(crc, b as Word));
    LowByteShiftedOut(crc, b);
  }

  lemma {:induction false} TableForm(crc: Word, data: seq<Byte>)
    ensures TableUpdate(crc, data) == Update(crc, data)
    decreases data
  {
    if data != [] {
      TableByte(crc, data[0]);
      TableForm(UpdateByte(crc, data[0]), data[1..]);
    }
  }

  // ----- the check value

  lemma Entries()
    ensures Entry(0) == 0x7707_3096 && Entry(1) == 0xEE0E_612C && Entry(2) == 0x076D_C419
    ensures Entry(3) == 0x0EDB_8832 && Entry(4) == 0x1DB7_1064 && Entry(5) == 0x3B6E_20C8
    ensures Entry(6) == 0x76DC_4190 && Entry(7) == 0xEDB8_8320
  {
  }

  lemma TableUnfold(x: Word, k: nat)
    requires k < 8
    ensures TableFrom(x, 8) == 0 && TableFrom(x, k) == Xor(Pick(x, Bit(k), Entry(k)), TableFrom(x, k + 1))
  {
  }

  /** A table entry from those of its bits. */
  lemma TableTerms(x: Word)
    ensures Table(x)
            == Xor(Pick(x, 0x01, 0x7707_3096), Xor(Pick(x, 0x02, 0xEE0E_612C), Xor(Pick(x, 0x04, 0x076D_C419),
               Xor(Pick(x, 0x08, 0x0EDB_8832), Xor(Pick(x, 0x10, 0x1DB7_1064), Xor(Pick(x, 0x20, 0x3B6E_20C8),
               Xor(Pick(x, 0x40, 0x76DC_4190), Xor(Pick(x, 0x80, 0xEDB8_8320), 0))))))))
  {
    hide Pick, Xor, Bit, Entry, TableFrom;
    Bits();
    Entries();
    TableUnfold(x, 0);
    TableUnfold(x, 1);
    TableUnfold(x, 2);
    TableUnfold(x, 3);
    TableUnfold(x, 4);
    TableUnfold(x, 5);
    TableUnfold(x, 6);
    TableUnfold(x, 7);
  }

  /** One of some digits, with its table entry spelled out. */
  lemma CheckByte(crc: Word, digits: seq<Byte>, k: nat, x: Word, entry: Word, crc': Word)
    requires k < |digits| && Xor(crc, digits[k] as Word) & 0xFF == x && Table(x) == entry
    requires entry ^ (crc >> 8) == crc'
    ensures Update(crc, digits[k..]) == Update(crc', digits[k + 1..])
  {
    hide Table, UpdateByte;
    TableByte(crc, digits[k]);
    assert digits[k..][0] == digits[k] && digits[k..][1..] == digits[k + 1..];
  }

  lemma FirstDigits(digits: seq<Byte>)
    requires digits == [0x31, 0x32, 0x33, 0x34, 0x35, 0x36, 0x37, 0x38, 0x39]
    ensures Update(0xFFFF_FFFF, digits[0..]) == Update(0x340A_C5E3, digits[5..])
  {
    hide Update, Table;
    TableTerms(0xCE);
    CheckByte(0xFFFF_FFFF, digits, 0, 0xCE, 0x7CDC_EFB7, 0x7C23_1048);
    TableTerms(0x7A);
    CheckByte(0x7C23_1048, digits, 1, 0x7A, 0xB0D0_9822, 0xB0AC_BB32);
    TableTerms(0x01);
    CheckByte(0xB0AC_BB32, digits, 2, 0x01, 0x7707_3096, 0x77B7_9C2D);
    TableTerms(0x19);
    CheckByte(0x77B7_9C2D, digits, 3, 0x19, 0x646B_A8C0, 0x641C_1F5C);
    TableTerms(0x69);
    CheckByte(0x641C_1F5C, digits, 4, 0x69, 0x346E_D9FC, 0x340A_C5E3);
  }

  lemma LastDigits(digits: seq<Byte>)
    requires digits == [0x31, 0x32, 0x33, 0x34, 0x35, 0x36, 0x37, 0x38, 0x39]
    ensures Update(0x340A_C5E3, digits[5..]) == Update(0x340B_C6D9, digits[9..])
  {
    hide Update, Table;
    TableTerms(0xD5);
    CheckByte(0x340A_C5E3, digits, 5, 0xD5, 0xF6B9_265B, 0xF68D_2C9E);
    TableTerms(0xA9);
    CheckByte(0xF68D_2C9E, digits, 6, 0xA9, 0xAF0A_1B4C, 0xAFFC_9660);
    TableTerms(0x58);
    CheckByte(0xAFFC_9660, digits, 7, 0x58, 0x65B0_D9C6, 0x651F_2550);
    TableTerms(0x69);
    CheckByte(0x651F_2550, digits, 8, 0x69, 0x346E_D9FC, 0x340B_C6D9);
  }

  /** Which CRC this is: the nine digits "123456789" give the check value of CRC-32. */
  lemma CheckValue()
    ensures Crc32([0x31, 0x32, 0x33, 0x34, 0x35, 0x36, 0x37, 0x38, 0x39]) == 0xCBF4_3926
  {
    hide Update;
    var digits: seq<Byte> := [0x31, 0x32, 0x33, 0x34, 0x35, 0x36, 0x37, 0x38, 0x39];
    FirstDigits(digits);
    LastDigits(digits);
    StepsDone(0x340B_C6D9, digits);
  }

  // ----- bursts

  /** Byte b, k places up in a word. */
  function Lift(b: Byte, k: nat): Word
    requires k < 4
  {
    match k
    case 0 => b as Word
    case 1 => (b as Word) << 8
    case 2 => (b as Word) << 16
    case 3 => (b as Word) << 24
  }

  lemma LiftFacts(b: Byte, k: nat)
    requires 0 < k < 4
    ensures Lift(b, k) & 0xFF == 0 && Lift(b, k) >> 8 == Lift(b, k - 1)
  {
  }

  lemma {:induction false} LiftSteps(b: Byte, k: nat)
    requires k < 4
    ensures Iterate(Step, Lift(b, k), 8 * k) == b as Word
  {
    if k > 0 {
      LiftFacts(b, k);
      ShiftSteps(Lift(b, k));
      Compose(Step, Lift(b, k), 8, 8 * (k - 1));
      LiftSteps(b, k - 1);
    }
  }

  /** A byte read after 8k steps acts like the same byte put k places up before them. */
  lemma PushByte(state: Word, k: nat, b: Byte)
    requires k < 4
    ensures UpdateByte(Iterate(Step, state, 8 * k), b) == Iterate(Step, Xor(state, Lift(b, k)), 8 * k + 8)
  {
    LiftSteps(b, k);
    StepsLinear(state, Lift(b, k), 8 * k);
    Compose(Step, Xor(state, Lift(b, k)), 8 * k, 8);
  }

  /** A state with up to four bytes put into its four places. */
  function Lifted(crc: Word, x: seq<Byte>): Word
    requires |x| <= 4
  {
    if x == [] then crc
    else Xor(Lifted(crc, x[..|x| - 1]), Lift(x[|x| - 1], |x| - 1))
  }

  lemma UpdateLast(crc: Word, data: seq<Byte>, b: Byte)
    ensures Update(crc, data + [b]) == UpdateByte(Update(crc, data), b)
  {
    UpdateConcat(crc, data, [b]);
  }

  lemma LiftedLast(crc: Word, x: seq<Byte>)
    requires 0 < |x| <= 4
    ensures Lifted(crc, x) == Xor(Lifted(crc, x[..|x| - 1]), Lift(x[|x| - 1], |x| - 1))
    ensures Lifted(crc, []) == crc
  {
  }

  lemma {:induction false} UpdateLifted(crc: Word, x: seq<Byte>)
    requires |x| <= 4
    ensures Update(crc, x) == Iterate(Step, Lifted(crc, x), 8 * |x|)
    decreases |x|
  {
    hide *;
    StepsDone(crc, []);
    LiftedLast(crc, [0]);
    if x != [] {
      LiftedLast(crc, x);
      var k := |x| - 1;
      UpdateLifted(crc, x[..k]);
      PushByte(Lifted(crc, x[..k]), k, x[k]);
      UpdateLast(crc, x[..k], x[k]);
      assert x[..k] + [x[k]] == x;
    }
  }

  lemma JoinIsXor(x: seq<Byte>)
    requires |x| == 4
    ensures Join(x) == Xor(Lift(x[0], 0), Xor(Lift(x[1], 1), Xor(Lift(x[2], 2), Lift(x[3], 3))))
  {
  }

  lemma Regroup(crc: Word, a: Word, b: Word, c: Word, d: Word)
    ensures Xor(Xor(Xor(Xor(crc, a), b), c), d) == Xor(crc, Xor(a, Xor(b, Xor(c, d))))
  {
    XorAssociates(Xor(Xor(crc, a), b), c, d);
    XorAssociates(Xor(crc, a), b, Xor(c, d));
    XorAssociates(crc, a, Xor(b, Xor(c, d)));
  }

  lemma LiftedFour(crc: Word, x: seq<Byte>)
    requires |x| == 4
    ensures Lifted(crc, x) == Xor(Xor(Xor(Xor(crc, Lift(x[0], 0)), Lift(x[1], 1)), Lift(x[2], 2)), Lift(x[3], 3))
  {
    assert x[..3][..2] == x[..2] && x[..2][..1] == x[..1] && x[..1][..0] == [];
    assert Lifted(crc, x[..1]) == Xor(crc, Lift(x[0], 0));
    assert Lifted(crc, x[..2]) == Xor(Lifted(crc, x[..1]), Lift(x[1], 1));
    assert Lifted(crc, x[..3]) == Xor(Lifted(crc, x[..2]), Lift(x[2], 2));
  }

  /** Four bytes are absorbed as one word. */
  lemma UpdateWord(crc: Word, x: seq<Byte>)
    requires |x| == 4
    ensures Update(crc, x) == Iterate(Step, Xor(crc, Join(x)), 32)
  {
    UpdateLifted(crc, x);
    LiftedFour(crc, x);
    JoinIsXor(x);
    Regroup(crc, Lift(x[0], 0), Lift(x[1], 1), Lift(x[2], 2), Lift(x[3], 3));
  }

  lemma BurstMovesState(crc: Word, x: seq<Byte>, y: seq<Byte>)
    requires |x| == |y| <= 4 && Update(crc, x) == Update(crc, y)
    ensures x == y
  {
    var pad := seq(4 - |x|, _ => 0 as Byte);
    UpdateConcat(crc, x, pad);
    UpdateConcat(crc, y, pad);
    UpdateWord(crc, x + pad);
    UpdateWord(crc, y + pad);
    StepsInjective(Xor(crc, Join(x + pad)), Xor(crc, Join(y + pad)), 32);
    XorTwice(Join(x + pad), crc);
    XorTwice(Join(y + pad), crc);
    SplitJoin(x + pad);
    SplitJoin(y + pad);
    assert x == (x + pad)[..|x|] && y == (y + pad)[..|y|];
  }

  /** Changing any non-empty part of up to four consecutive bytes always changes the CRC. */
  lemma BurstDetected(before: seq<Byte>, x: seq<Byte>, y: seq<Byte>, after: seq<Byte>)
    requires |x| == |y| <= 4 && x != y
    ensures Crc32(before + x + after) != Crc32(before + y + after)
  {
    var s := Update(INITIAL, before);
    UpdateConcat(INITIAL, before, x);
    UpdateConcat(INITIAL, before, y);
    UpdateConcat(INITIAL, before + x, after);
    UpdateConcat(INITIAL, before + y, after);
    if Crc32(before + x + after) == Crc32(before + y + after) {
      XorCancel(Update(Update(s, x), after), Update(Update(s, y), after), INITIAL);
      UpdateInjective(Update(s, x), Update(s, y), after);
      BurstMovesState(s, x, y);
    }
  }
}
