/** The CRC-24Q of the RTCM3 transport layer: the table-driven computation of
    framer_rtcm3_in.c, and the polynomial division over GF(2) it stands for. */
module Crc24q {
  import opened Basics
  import opened Remainders

  /** The C code keeps the remainder in a uint32_t masked to 24 bits. */
  type Register = bv24

  // ---------------------------------------------------------------------------
  // The code
  // ---------------------------------------------------------------------------

  /** crc24qtab, laid out as sixteen rows of sixteen entries. */
  function TableRow(row: bv8, column: bv8): Register {
    match row
    case 0 =>
      (match column
       case 0 => 0x000000 case 1 => 0x864CFB case 2 => 0x8AD50D case 3 => 0x0C99F6
       case 4 => 0x93E6E1 case 5 => 0x15AA1A case 6 => 0x1933EC case 7 => 0x9F7F17
       case 8 => 0xA18139 case 9 => 0x27CDC2 case 10 => 0x2B5434 case 11 => 0xAD18CF
       case 12 => 0x3267D8 case 13 => 0xB42B23 case 14 => 0xB8B2D5 case _ => 0x3EFE2E)
    case 1 =>
      (match column
       case 0 => 0xC54E89 case 1 => 0x430272 case 2 => 0x4F9B84 case 3 => 0xC9D77F
       case 4 => 0x56A868 case 5 => 0xD0E493 case 6 => 0xDC7D65 case 7 => 0x5A319E
       case 8 => 0x64CFB0 case 9 => 0xE2834B case 10 => 0xEE1ABD case 11 => 0x685646
       case 12 => 0xF72951 case 13 => 0x7165AA case 14 => 0x7DFC5C case _ => 0xFBB0A7)
    case 2 =>
      (match column
       case 0 => 0x0CD1E9 case 1 => 0x8A9D12 case 2 => 0x8604E4 case 3 => 0x00481F
       case 4 => 0x9F3708 case 5 => 0x197BF3 case 6 => 0x15E205 case 7 => 0x93AEFE
       case 8 => 0xAD50D0 case 9 => 0x2B1C2B case 10 => 0x2785DD case 11 => 0xA1C926
       case 12 => 0x3EB631 case 13 => 0xB8FACA case 14 => 0xB4633C case _ => 0x322FC7)
    case 3 =>
      (match column
       case 0 => 0xC99F60 case 1 => 0x4FD39B case 2 => 0x434A6D case 3 => 0xC50696
       case 4 => 0x5A7981 case 5 => 0xDC357A case 6 => 0xD0AC8C case 7 => 0x56E077
       case 8 => 0x681E59 case 9 => 0xEE52A2 case 10 => 0xE2CB54 case 11 => 0x6487AF
       case 12 => 0xFBF8B8 case 13 => 0x7DB443 case 14 => 0x712DB5 case _ => 0xF7614E)
    case 4 =>
      (match column
       case 0 => 0x19A3D2 case 1 => 0x9FEF29 case 2 => 0x9376DF case 3 => 0x153A24
       case 4 => 0x8A4533 case 5 => 0x0C09C8 case 6 => 0x00903E case 7 => 0x86DCC5
       case 8 => 0xB822EB case 9 => 0x3E6E10 case 10 => 0x32F7E6 case 11 => 0xB4BB1D
       case 12 => 0x2BC40A case 13 => 0xAD88F1 case 14 => 0xA11107 case _ => 0x275DFC)
    case 5 =>
      (match column
       case 0 => 0xDCED5B case 1 => 0x5AA1A0 case 2 => 0x563856 case 3 => 0xD074AD
       case 4 => 0x4F0BBA case 5 => 0xC94741 case 6 => 0xC5DEB7 case 7 => 0x43924C
       case 8 => 0x7D6C62 case 9 => 0xFB2099 case 10 => 0xF7B96F case 11 => 0x71F594
       case 12 => 0xEE8A83 case 13 => 0x68C678 case 14 => 0x645F8E case _ => 0xE21375)
    case 6 =>
      (match column
       case 0 => 0x15723B case 1 => 0x933EC0 case 2 => 0x9FA736 case 3 => 0x19EBCD
       case 4 => 0x8694DA case 5 => 0x00D821 case 6 => 0x0C41D7 case 7 => 0x8A0D2C
       case 8 => 0xB4F302 case 9 => 0x32BFF9 case 10 => 0x3E260F case 11 => 0xB86AF4
       case 12 => 0x2715E3 case 13 => 0xA15918 case 14 => 0xADC0EE case _ => 0x2B8C15)
    case 7 =>
      (match column
       case 0 => 0xD03CB2 case 1 => 0x567049 case 2 => 0x5AE9BF case 3 => 0xDCA544
       case 4 => 0x43DA53 case 5 => 0xC596A8 case 6 => 0xC90F5E case 7 => 0x4F43A5
       case 8 => 0x71BD8B case 9 => 0xF7F170 case 10 => 0xFB6886 case 11 => 0x7D247D
       case 12 => 0xE25B6A case 13 => 0x641791 case 14 => 0x688E67 case _ => 0xEEC29C)
    case 8 =>
      (match column
       case 0 => 0x3347A4 case 1 => 0xB50B5F case 2 => 0xB992A9 case 3 => 0x3FDE52
       case 4 => 0xA0A145 case 5 => 0x26EDBE case 6 => 0x2A7448 case 7 => 0xAC38B3
       case 8 => 0x92C69D case 9 => 0x148A66 case 10 => 0x181390 case 11 => 0x9E5F6B
       case 12 => 0x01207C case 13 => 0x876C87 case 14 => 0x8BF571 case _ => 0x0DB98A)
    case 9 =>
      (match column
       case 0 => 0xF6092D case 1 => 0x7045D6 case 2 => 0x7CDC20 case 3 => 0xFA90DB
       case 4 => 0x65EFCC case 5 => 0xE3A337 case 6 => 0xEF3AC1 case 7 => 0x69763A
       case 8 => 0x578814 case 9 => 0xD1C4EF case 10 => 0xDD5D19 case 11 => 0x5B11E2
       case 12 => 0xC46EF5 case 13 => 0x42220E case 14 => 0x4EBBF8 case _ => 0xC8F703)
    case 10 =>
      (match column
       case 0 => 0x3F964D case 1 => 0xB9DAB6 case 2 => 0xB54340 case 3 => 0x330FBB
       case 4 => 0xAC70AC case 5 => 0x2A3C57 case 6 => 0x26A5A1 case 7 => 0xA0E95A
       case 8 => 0x9E1774 case 9 => 0x185B8F case 10 => 0x14C279 case 11 => 0x928E82
       case 12 => 0x0DF195 case 13 => 0x8BBD6E case 14 => 0x872498 case _ => 0x016863)
    case 11 =>
      (match column
       case 0 => 0xFAD8C4 case 1 => 0x7C943F case 2 => 0x700DC9 case 3 => 0xF64132
       case 4 => 0x693E25 case 5 => 0xEF72DE case 6 => 0xE3EB28 case 7 => 0x65A7D3
       case 8 => 0x5B59FD case 9 => 0xDD1506 case 10 => 0xD18CF0 case 11 => 0x57C00B
       case 12 => 0xC8BF1C case 13 => 0x4EF3E7 case 14 => 0x426A11 case _ => 0xC426EA)
    case 12 =>
      (match column
       case 0 => 0x2AE476 case 1 => 0xACA88D case 2 => 0xA0317B case 3 => 0x267D80
       case 4 => 0xB90297 case 5 => 0x3F4E6C case 6 => 0x33D79A case 7 => 0xB59B61
       case 8 => 0x8B654F case 9 => 0x0D29B4 case 10 => 0x01B042 case 11 => 0x87FCB9
       case 12 => 0x1883AE case 13 => 0x9ECF55 case 14 => 0x9256A3 case _ => 0x141A58)
    case 13 =>
      (match column
       case 0 => 0xEFAAFF case 1 => 0x69E604 case 2 => 0x657FF2 case 3 => 0xE33309
       case 4 => 0x7C4C1E case 5 => 0xFA00E5 case 6 => 0xF69913 case 7 => 0x70D5E8
       case 8 => 0x4E2BC6 case 9 => 0xC8673D case 10 => 0xC4FECB case 11 => 0x42B230
       case 12 => 0xDDCD27 case 13 => 0x5B81DC case 14 => 0x57182A case _ => 0xD154D1)
    case 14 =>
      (match column
       case 0 => 0x26359F case 1 => 0xA07964 case 2 => 0xACE092 case 3 => 0x2AAC69
       case 4 => 0xB5D37E case 5 => 0x339F85 case 6 => 0x3F0673 case 7 => 0xB94A88
       case 8 => 0x87B4A6 case 9 => 0x01F85D case 10 => 0x0D61AB case 11 => 0x8B2D50
       case 12 => 0x145247 case 13 => 0x921EBC case 14 => 0x9E874A case _ => 0x18CBB1)
    case _ =>
      (match column
       case 0 => 0xE37B16 case 1 => 0x6537ED case 2 => 0x69AE1B case 3 => 0xEFE2E0
       case 4 => 0x709DF7 case 5 => 0xF6D10C case 6 => 0xFA48FA case 7 => 0x7C0401
       case 8 => 0x42FA2F case 9 => 0xC4B6D4 case 10 => 0xC82F22 case 11 => 0x4E63D9
       case 12 => 0xD11CCE case 13 => 0x575035 case 14 => 0x5BC9C3 case _ => 0xDD8538)
  }

  function Table(i: byte): Register { TableRow(i >> 4, i & 0xF) }

  function TopByte(crc: Register): byte { (crc >> 16) as byte }

  function TableStep(crc: Register, b: byte): Register {
    (crc << 8) ^ Table(TopByte(crc) ^ b)
  }

  /** crc24q as a function of the bytes it reads. */
  function Crc(buf: seq<byte>, crc: Register): Register
    decreases |buf|
  {
    if buf == [] then crc else Crc(buf[1..], TableStep(crc, buf[0]))
  }

  lemma CrcOne(b: byte, crc: Register)
    ensures Crc([b], crc) == TableStep(crc, b)
  {
  }

  lemma {:induction false} CrcSplit(p: seq<byte>, q: seq<byte>, crc: Register)
    ensures Crc(p + q, crc) == Crc(q, Crc(p, crc))
    decreases |p|
  {
    if p == [] {
      assert p + q == q;
    } else {
      assert (p + q)[1..] == p[1..] + q;
      CrcSplit(p[1..], q, TableStep(crc, p[0]));
    }
  }

  method Compute(buf: array<byte>, len: nat, initial: Register) returns (crc: Register)
    requires len <= buf.Length
    ensures crc == Crc(buf[..len], initial)
  {
    crc := initial;
    for i := 0 to len
      invariant crc == Crc(buf[..i], initial)
    {
      CrcSplit(buf[..i], [buf[i]], initial);
      CrcOne(buf[i], crc);
      assert buf[..i + 1] == buf[..i] + [buf[i]];
      crc := TableStep(crc, buf[i]);
    }
  }

  // ---------------------------------------------------------------------------
  // The reference: long division by 0x1864CFB
  // ---------------------------------------------------------------------------

  /** Multiplication by x modulo the generator; the register has no room for the leading
      coefficient of 0x1864CFB, which cancels the one shifted out. */
  function Shift(r: Register): Register {
    if r & 0x800000 != 0 then (r << 1) ^ 0x864CFB else r << 1
  }

  function Xor(a: Register, b: Register): Register { a ^ b }

  function AtTop(b: byte): Register { (b as Register) << 16 }

  function Gf2(): Arithmetic<Register> {
    Arithmetic(0, 1, Xor, Shift, AtTop)
  }

  // ---------------------------------------------------------------------------
  // The register obeys the laws of the division
  // ---------------------------------------------------------------------------

  lemma XorTop(a: Register, b: Register)
    ensures (a ^ b) & 0x800000 == (a & 0x800000) ^ (b & 0x800000)
  {
  }

  lemma TopValues(a: Register)
    ensures a & 0x800000 == 0 || a & 0x800000 == 0x800000
  {
  }

  lemma XorShiftLeft(a: Register, b: Register)
    ensures (a ^ b) << 1 == (a << 1) ^ (b << 1)
  {
  }

  lemma XorRegroup(x: Register, y: Register, g: Register)
    ensures (x ^ g) ^ (y ^ g) == x ^ y
    ensures (x ^ g) ^ y == (x ^ y) ^ g
    ensures x ^ (y ^ g) == (x ^ y) ^ g
  {
  }

  lemma ShiftAdditive(a: Register, b: Register)
    ensures Shift(Xor(a, b)) == Xor(Shift(a), Shift(b))
  {
    TopValues(a);
    TopValues(b);
    XorTop(a, b);
    XorShiftLeft(a, b);
    XorRegroup(a << 1, b << 1, 0x864CFB);
  }

  lemma ShiftZero(r: Register)
    ensures Shift(r) == 0 <==> r == 0
  {
  }

  lemma XorAssociative(a: Register, b: Register, c: Register)
    ensures Xor(Xor(a, b), c) == Xor(a, Xor(b, c))
  {
  }

  lemma CommutativeLaw(a: Register, b: Register)
    ensures Commutative(Gf2(), a, b)
  {
  }

  lemma AssociativeLaw(a: Register, b: Register, c: Register)
    ensures Associative(Gf2(), a, b, c)
  {
    XorAssociative(a, b, c);
  }

  lemma SelfInverseLaw(a: Register)
    ensures SelfInverse(Gf2(), a)
  {
  }

  lemma NeutralLaw(a: Register)
    ensures Neutral(Gf2(), a)
  {
  }

  lemma AdditiveLaw(a: Register, b: Register)
    ensures Additive(Gf2(), a, b)
  {
    ShiftAdditive(a, b);
  }

  lemma InjectiveLaw(a: Register)
    ensures Injective(Gf2(), a)
  {
    ShiftZero(a);
  }

  lemma Gf2Laws()
    ensures Laws(Gf2())
  {
    forall a, b ensures Commutative(Gf2(), a, b) { CommutativeLaw(a, b); }
    forall a, b, c ensures Associative(Gf2(), a, b, c) { AssociativeLaw(a, b, c); }
    forall a ensures SelfInverse(Gf2(), a) { SelfInverseLaw(a); }
    forall a ensures Neutral(Gf2(), a) { NeutralLaw(a); }
    forall a, b ensures Additive(Gf2(), a, b) { AdditiveLaw(a, b); }
    forall a ensures Injective(Gf2(), a) { InjectiveLaw(a); }
  }

  // ---------------------------------------------------------------------------
  // Registers with vanishing leading coefficients
  // ---------------------------------------------------------------------------

  lemma ShiftOnce(r: Register)
    requires r & 0x800000 == 0
    ensures Shift(r) == r << 1
  {
  }

  lemma FourSmall(r: Register)
    requires r & 0xF00000 == 0
    ensures r & 0x800000 == 0 && (r << 1) & 0x800000 == 0
    ensures (r << 2) & 0x800000 == 0 && (r << 3) & 0x800000 == 0
    ensures (r << 1) << 1 == r << 2 && (r << 2) << 1 == r << 3 && (r << 3) << 1 == r << 4
  {
  }

  lemma ShiftFour(r: Register)
    requires r & 0xF00000 == 0
    ensures Shift(Shift(Shift(Shift(r)))) == r << 4
  {
    FourSmall(r);
    ShiftOnce(r);
    ShiftOnce(r << 1);
    ShiftOnce(r << 2);
    ShiftOnce(r << 3);
  }

  lemma UnfoldFour<T>(g: Arithmetic<T>, r: T)
    ensures TimesX(g, 4, r) == g.timesX(g.timesX(g.timesX(g.timesX(r))))
  {
    TimesXSplit(g, 2, 2, r);
  }

  lemma TimesFour(r: Register)
    requires r & 0xF00000 == 0
    ensures TimesX(Gf2(), 4, r) == r << 4
  {
    UnfoldFour(Gf2(), r);
    ShiftFour(r);
  }

  lemma EightSmall(r: Register)
    requires r & 0xFF0000 == 0
    ensures r & 0xF00000 == 0 && (r << 4) & 0xF00000 == 0 && (r << 4) << 4 == r << 8
  {
  }

  /** Eight steps only move a register whose eight leading coefficients vanish. */
  lemma TimesEight(r: Register)
    requires r & 0xFF0000 == 0
    ensures TimesX(Gf2(), 8, r) == r << 8
  {
    EightSmall(r);
    TimesXSplit(Gf2(), 4, 4, r);
    TimesFour(r);
    TimesFour(r << 4);
  }

  // ---------------------------------------------------------------------------
  // The table
  // ---------------------------------------------------------------------------

  function Eightfold(r: Register): Register { Shift(Shift(Shift(Shift(Shift(Shift(Shift(Shift(r)))))))) }

  function Combination(n: bv8, g0: Register, g1: Register, g2: Register, g3: Register): Register {
    (if n & 1 != 0 then g0 else 0) ^ (if n & 2 != 0 then g1 else 0)
      ^ (if n & 4 != 0 then g2 else 0) ^ (if n & 8 != 0 then g3 else 0)
  }

  lemma LowNibble(n: bv8)
    requires n < 16
    ensures Eightfold((n as Register) << 16) == Combination(n, 0x864CFB, 0x8AD50D, 0x93E6E1, 0xA18139)
  {
  }

  lemma HighNibble(n: bv8)
    requires n < 16
    ensures Eightfold((n as Register) << 20) == Combination(n, 0xC54E89, 0x0CD1E9, 0x19A3D2, 0x3347A4)
  {
  }

  lemma FirstRow(n: bv8)
    requires n < 16
    ensures TableRow(0, n) == Combination(n, 0x864CFB, 0x8AD50D, 0x93E6E1, 0xA18139)
  {
  }

  lemma FirstColumn(n: bv8)
    requires n < 16
    ensures TableRow(n, 0) == Combination(n, 0xC54E89, 0x0CD1E9, 0x19A3D2, 0x3347A4)
  {
  }

  lemma RowsLow(row: bv8, column: bv8)
    requires row < 4 && column < 16
    ensures TableRow(row, column) == TableRow(row, 0) ^ TableRow(0, column)
  {
  }

  lemma RowsLowMiddle(row: bv8, column: bv8)
    requires 4 <= row < 8 && column < 16
    ensures TableRow(row, column) == TableRow(row, 0) ^ TableRow(0, column)
  {
  }

  lemma RowsHighMiddle(row: bv8, column: bv8)
    requires 8 <= row < 12 && column < 16
    ensures TableRow(row, column) == TableRow(row, 0) ^ TableRow(0, column)
  {
  }

  lemma RowsHigh(row: bv8, column: bv8)
    requires 12 <= row < 16 && column < 16
    ensures TableRow(row, column) == TableRow(row, 0) ^ TableRow(0, column)
  {
  }

  lemma RowsAdd(row: bv8, column: bv8)
    requires row < 16 && column < 16
    ensures TableRow(row, column) == TableRow(row, 0) ^ TableRow(0, column)
  {
    if row < 4 {
      RowsLow(row, column);
    } else if row < 8 {
      RowsLowMiddle(row, column);
    } else if row < 12 {
      RowsHighMiddle(row, column);
    } else {
      RowsHigh(row, column);
    }
  }

  lemma NibbleRange(i: byte)
    ensures i >> 4 < 16 && i & 0xF < 16
  {
  }

  lemma NibblesAdd(i: byte)
    requires i >> 4 < 16 && i & 0xF < 16
    ensures (i as Register) << 16 == (((i >> 4) as Register) << 20) ^ (((i & 0xF) as Register) << 16)
  {
  }

  lemma {:induction false} EightfoldIsTimesX(r: Register)
    ensures TimesX(Gf2(), 8, r) == Eightfold(r)
  {
    var half := Shift(Shift(Shift(Shift(r))));
    TimesXSplit(Gf2(), 4, 4, r);
    UnfoldFour(Gf2(), r);
    UnfoldFour(Gf2(), half);
  }

  lemma ColumnCorrect(n: bv8)
    requires n < 16
    ensures TimesX(Gf2(), 8, (n as Register) << 20) == TableRow(n, 0)
  {
    FirstColumn(n);
    HighNibble(n);
    EightfoldIsTimesX((n as Register) << 20);
  }

  lemma RowCorrect(n: bv8)
    requires n < 16
    ensures TimesX(Gf2(), 8, (n as Register) << 16) == TableRow(0, n)
  {
    FirstRow(n);
    LowNibble(n);
    EightfoldIsTimesX((n as Register) << 16);
  }

  lemma EntryByParts(i: byte, high: bv8, low: bv8, h: Register, l: Register)
    requires AtTop(i) == ((high as Register) << 20) ^ ((low as Register) << 16)
    requires TimesX(Gf2(), 8, (high as Register) << 20) == h
    requires TimesX(Gf2(), 8, (low as Register) << 16) == l
    ensures TimesX(Gf2(), 8, AtTop(i)) == h ^ l
  {
    Gf2Laws();
    EightByParts(Gf2(), (high as Register) << 20, (low as Register) << 16, h, l);
  }

  /** Every table entry is its index, placed at the top, times x^8. */
  lemma TableCorrect(i: byte)
    ensures Table(i) == TimesX(Gf2(), 8, AtTop(i))
  {
    NibbleRange(i);
    NibblesAdd(i);
    RowsAdd(i >> 4, i & 0xF);
    ColumnCorrect(i >> 4);
    RowCorrect(i & 0xF);
    EntryByParts(i, i >> 4, i & 0xF, TableRow(i >> 4, 0), TableRow(0, i & 0xF));
  }

  lemma LowPartMoves(crc: Register)
    ensures TimesX(Gf2(), 8, crc & 0xFFFF) == crc << 8
  {
    LowPart(crc);
    TimesEight(crc & 0xFFFF);
  }

  lemma LowPart(crc: Register)
    ensures (crc & 0xFFFF) & 0xFF0000 == 0
    ensures (crc & 0xFFFF) << 8 == crc << 8
  {
  }

  lemma TopCleared(crc: Register, b: byte, i: byte)
    requires i == TopByte(crc) ^ b
    ensures crc ^ AtTop(b) == (crc & 0xFFFF) ^ AtTop(i)
  {
  }

  lemma AddsAgree(a: Register, b: byte, c: Register, d: byte)
    requires a ^ AtTop(b) == c ^ AtTop(d)
    ensures Gf2().add(a, Gf2().atTop(b)) == Gf2().add(c, Gf2().atTop(d))
  {
  }

  lemma SumsAgree(crc: Register, b: byte) returns (low: Register, i: byte)
    ensures low == crc & 0xFFFF && i == TopByte(crc) ^ b
    ensures Gf2().add(crc, Gf2().atTop(b)) == Gf2().add(low, Gf2().atTop(i))
  {
    low, i := crc & 0xFFFF, TopByte(crc) ^ b;
    TopCleared(crc, b, i);
    AddsAgree(crc, b, low, i);
  }

  lemma EightPlaces(low: Register, i: byte, crc: Register) returns (moved: Register, entry: Register)
    requires low == crc & 0xFFFF
    ensures moved == crc << 8 && entry == Table(i)
    ensures TimesX(Gf2(), 8, low) == moved
    ensures TimesX(Gf2(), 8, Gf2().atTop(i)) == entry
  {
    moved, entry := crc << 8, Table(i);
    LowPartMoves(crc);
    TableCorrect(i);
  }

  lemma StepParts(crc: Register, b: byte) returns (low: Register, i: byte, moved: Register, entry: Register)
    ensures Gf2().add(crc, Gf2().atTop(b)) == Gf2().add(low, Gf2().atTop(i))
    ensures TimesX(Gf2(), 8, low) == moved && TimesX(Gf2(), 8, Gf2().atTop(i)) == entry
    ensures TableStep(crc, b) == moved ^ entry
  {
    low, i := SumsAgree(crc, b);
    moved, entry := EightPlaces(low, i, crc);
  }

  /** One table lookup does the work of eight steps of the long division. */
  lemma TableStepIsByteStep(crc: Register, b: byte)
    ensures TableStep(crc, b) == ByteStep(Gf2(), crc, b)
  {
    var low, i, moved, entry := StepParts(crc, b);
    Gf2Laws();
    ByteStepByParts(Gf2(), crc, b, low, i, moved, entry);
  }

  lemma {:induction false} CrcIsBytewise(buf: seq<byte>, crc: Register)
    ensures Crc(buf, crc) == Bytewise(Gf2(), crc, buf)
    decreases |buf|
  {
    if buf != [] {
      TableStepIsByteStep(crc, buf[0]);
      CrcIsBytewise(buf[1..], TableStep(crc, buf[0]));
    }
  }

  // ---------------------------------------------------------------------------
  // Bytes as polynomials
  // ---------------------------------------------------------------------------

  lemma StepWithRoom(r: Register, bit: bool, next: Register)
    requires r & 0x800000 == 0
    requires next == (r << 1) ^ (if bit then 1 else 0)
    ensures next == Gf2().add(Gf2().timesX(r), Coefficient(Gf2(), bit))
  {
    ShiftOnce(r);
  }

  /** The first k coefficients of a byte are its value shifted down by 8 - k. */
  lemma Prefixes(b: byte)
    ensures (0 as Register) & 0x800000 == 0 && ((b >> 7) as Register) == ((0 as Register) << 1) ^ (if b & 0x80 != 0 then 1 else 0)
    ensures ((b >> 7) as Register) & 0x800000 == 0 && ((b >> 6) as Register) == (((b >> 7) as Register) << 1) ^ (if b & 0x40 != 0 then 1 else 0)
    ensures ((b >> 6) as Register) & 0x800000 == 0 && ((b >> 5) as Register) == (((b >> 6) as Register) << 1) ^ (if b & 0x20 != 0 then 1 else 0)
    ensures ((b >> 5) as Register) & 0x800000 == 0 && ((b >> 4) as Register) == (((b >> 5) as Register) << 1) ^ (if b & 0x10 != 0 then 1 else 0)
    ensures ((b >> 4) as Register) & 0x800000 == 0 && ((b >> 3) as Register) == (((b >> 4) as Register) << 1) ^ (if b & 0x08 != 0 then 1 else 0)
    ensures ((b >> 3) as Register) & 0x800000 == 0 && ((b >> 2) as Register) == (((b >> 3) as Register) << 1) ^ (if b & 0x04 != 0 then 1 else 0)
    ensures ((b >> 2) as Register) & 0x800000 == 0 && ((b >> 1) as Register) == (((b >> 2) as Register) << 1) ^ (if b & 0x02 != 0 then 1 else 0)
    ensures ((b >> 1) as Register) & 0x800000 == 0 && (b as Register) == (((b >> 1) as Register) << 1) ^ (if b & 0x01 != 0 then 1 else 0)
  {
  }

  ghost predicate RoomyStep(r: Register, bit: bool, next: Register) {
    r & 0x800000 == 0 && next == (r << 1) ^ (if bit then 1 else 0)
  }

  lemma RoomySteps(rs: seq<Register>, bits: seq<bool>)
    requires |rs| == |bits| + 1
    requires forall k :: 0 <= k < |bits| ==> RoomyStep(rs[k], bits[k], rs[k + 1])
    ensures Divide(Gf2(), rs[0], bits) == rs[|bits|]
  {
    hide RoomyStep, Gf2, Coefficient;
    forall k | 0 <= k < |bits|
      ensures rs[k + 1] == Gf2().add(Gf2().timesX(rs[k]), Coefficient(Gf2(), bits[k]))
    {
      RoomyAdds(rs[k], bits[k], rs[k + 1]);
    }
    DivideSteps(Gf2(), rs, bits);
  }

  lemma RoomyAdds(r: Register, bit: bool, next: Register)
    requires RoomyStep(r, bit, next)
    ensures next == Gf2().add(Gf2().timesX(r), Coefficient(Gf2(), bit))
  {
    StepWithRoom(r, bit, next);
  }

  lemma EightCoefficients(bits: seq<bool>, r1: Register, r2: Register, r3: Register, r4: Register, r5: Register, r6: Register, r7: Register, r8: Register)
    requires |bits| == 8
    requires RoomyStep(0, bits[0], r1)
    requires RoomyStep(r1, bits[1], r2)
    requires RoomyStep(r2, bits[2], r3)
    requires RoomyStep(r3, bits[3], r4)
    requires RoomyStep(r4, bits[4], r5)
    requires RoomyStep(r5, bits[5], r6)
    requires RoomyStep(r6, bits[6], r7)
    requires RoomyStep(r7, bits[7], r8)
    ensures Remainder(Gf2(), bits) == r8
  {
    RoomySteps([0, r1, r2, r3, r4, r5, r6, r7, r8], bits);
  }

  lemma ByteRemainder(b: byte)
    ensures Remainder(Gf2(), ByteBits(b)) == b as Register
  {
    Prefixes(b);
    EightCoefficients(ByteBits(b), (b >> 7) as Register, (b >> 6) as Register, (b >> 5) as Register, (b >> 4) as Register, (b >> 3) as Register, (b >> 2) as Register, (b >> 1) as Register, b as Register);
  }

  lemma ByteRoom(b: byte)
    ensures (b as Register) & 0xFF0000 == 0
    ensures ((b as Register) << 8) & 0xFF0000 == 0
    ensures ((b as Register) << 8) << 8 == AtTop(b)
  {
  }

  lemma TopByteLaw(b: byte)
    ensures AtTop(b) == TimesX(Gf2(), 16, Remainder(Gf2(), ByteBits(b)))
  {
    ByteRemainder(b);
    ByteRoom(b);
    TimesEight(b as Register);
    TimesEight((b as Register) << 8);
    TimesXSplit(Gf2(), 8, 8, b as Register);
  }

  lemma Gf2TopBytes()
    ensures TopBytes(Gf2())
  {
    forall b: byte ensures Gf2().atTop(b) == TimesX(Gf2(), 16, Remainder(Gf2(), ByteBits(b))) {
      TopByteLaw(b);
    }
  }

  // ---------------------------------------------------------------------------
  // What the check value is
  // ---------------------------------------------------------------------------

  /** The table-driven computation leaves the remainder of the message times x^24. */
  lemma CrcIsRemainder(buf: seq<byte>)
    ensures Crc(buf, 0) == Remainder(Gf2(), Bits(buf) + Zeros(24))
  {
    Gf2Laws();
    Gf2TopBytes();
    CrcIsBytewise(buf, 0);
    BytewiseIsRemainder(Gf2(), buf);
  }

  /** From any initial register, that register's own multiple of x^(8n) is added. */
  lemma CrcFromAnyRegister(buf: seq<byte>, crc: Register)
    ensures Crc(buf, crc) == Xor(TimesX(Gf2(), 8 * |buf|, crc), Remainder(Gf2(), Bits(buf) + Zeros(24)))
  {
    Gf2Laws();
    CrcIsBytewise(buf, crc);
    CrcIsBytewise(buf, 0);
    BytewiseSeparates(Gf2(), crc, buf);
    CrcIsRemainder(buf);
  }

  /** The big-endian value of a three-byte trailer. */
  function TrailerValue(a: byte, b: byte, c: byte): Register {
    ((a as Register) << 16) | ((b as Register) << 8) | (c as Register)
  }

  lemma TrailerRoom(a: byte, b: byte, c: byte)
    ensures (a as Register) & 0xFF0000 == 0
    ensures (((a as Register) << 8) ^ (b as Register)) & 0xFF0000 == 0
    ensures ((((a as Register) << 8) ^ (b as Register)) << 8) ^ (c as Register) == TrailerValue(a, b, c)
  {
  }

  lemma AppendByte(r: Register, b: byte)
    requires r & 0xFF0000 == 0
    ensures Divide(Gf2(), r, ByteBits(b)) == (r << 8) ^ (b as Register)
  {
    Gf2Laws();
    DivideSeparates(Gf2(), r, ByteBits(b));
    TimesEight(r);
    ByteRemainder(b);
  }

  lemma TrailerRemainder(a: byte, b: byte, c: byte)
    ensures Remainder(Gf2(), Bits([a, b, c])) == TrailerValue(a, b, c)
  {
    var ra := a as Register;
    var rb := (ra << 8) ^ (b as Register);
    TrailerRoom(a, b, c);
    ByteRemainder(a);
    AppendByte(ra, b);
    AppendByte(rb, c);
    RemainderThree(Gf2(), a, b, c, ra, rb, TrailerValue(a, b, c));
  }

  /** The comparison made at the end of a frame. */
  predicate TrailerOk(frame: seq<byte>)
    requires |frame| >= 3
  {
    var n := |frame|;
    Crc(frame[..n - 3], 0) == TrailerValue(frame[n - 3], frame[n - 2], frame[n - 1])
  }

  /** A frame passes exactly when, as a polynomial, it is a multiple of the generator. */
  lemma TrailerOkIsDivisible(frame: seq<byte>)
    requires |frame| >= 3
    ensures TrailerOk(frame) <==> Remainder(Gf2(), Bits(frame)) == 0
  {
    var n := |frame|;
    var body, trailer := frame[..n - 3], [frame[n - 3], frame[n - 2], frame[n - 1]];
    assert frame == body + trailer;
    Gf2Laws();
    Gf2TopBytes();
    CrcIsBytewise(body, 0);
    TrailerRemainder(trailer[0], trailer[1], trailer[2]);
    TrailerMatches(Gf2(), body, trailer);
  }

  // ---------------------------------------------------------------------------
  // Error detection
  // ---------------------------------------------------------------------------

  /** k more coefficients can be brought down below the ones of `m` without a reduction. */
  predicate Fits(m: Register, k: nat)
    decreases k
  {
    k > 0 ==> m & 0x800000 == 0 && Fits((m << 1) | 1, k - 1)
  }

  lemma {:induction false} FitsFewer(m: Register, j: nat, k: nat)
    requires j <= k && Fits(m, k)
    ensures Fits(m, j)
    decreases j
  {
    if j > 0 { FitsFewer((m << 1) | 1, j - 1, k - 1); }
  }

  lemma FitsOne()
    ensures Fits(1, 23)
  {
    assert Fits(0x7FFFFF, 1);
    assert Fits(0x3FFFFF, 2);
    assert Fits(0x1FFFFF, 3);
    assert Fits(0x0FFFFF, 4);
    assert Fits(0x07FFFF, 5);
    assert Fits(0x03FFFF, 6);
    assert Fits(0x01FFFF, 7);
    assert Fits(0x00FFFF, 8);
    assert Fits(0x007FFF, 9);
    assert Fits(0x003FFF, 10);
    assert Fits(0x001FFF, 11);
    assert Fits(0x000FFF, 12);
    assert Fits(0x0007FF, 13);
    assert Fits(0x0003FF, 14);
    assert Fits(0x0001FF, 15);
    assert Fits(0x0000FF, 16);
    assert Fits(0x00007F, 17);
    assert Fits(0x00003F, 18);
    assert Fits(0x00001F, 19);
    assert Fits(0x00000F, 20);
    assert Fits(0x000007, 21);
    assert Fits(0x000003, 22);
    assert Fits(0x000001, 23);
  }

  lemma RoomyNonzero(r: Register, bit: bool, m: Register)
    requires r != 0 && r & !m == 0 && m & 0x800000 == 0
    ensures r & 0x800000 == 0
    ensures var next := (r << 1) ^ (if bit then 1 else 0); next != 0 && next & !((m << 1) | 1) == 0
  {
  }

  lemma DivideOne(r: Register, bits: seq<bool>, m: Register) returns (next: Register)
    requires bits != []
    requires r != 0 && r & !m == 0 && m & 0x800000 == 0
    ensures next != 0 && next & !((m << 1) | 1) == 0
    ensures Divide(Gf2(), r, bits) == Divide(Gf2(), next, bits[1..])
  {
    next := (r << 1) ^ (if bits[0] then 1 else 0);
    RoomyNonzero(r, bits[0], m);
    RoomyDivide(r, bits, next);
  }

  lemma RoomyDivide(r: Register, bits: seq<bool>, next: Register)
    requires bits != [] && RoomyStep(r, bits[0], next)
    ensures Divide(Gf2(), r, bits) == Divide(Gf2(), next, bits[1..])
  {
    StepWithRoom(r, bits[0], next);
  }

  /** A nonzero polynomial that stays below degree 24 is its own remainder. */
  lemma {:induction false} ShortNonzero(r: Register, bits: seq<bool>, m: Register)
    requires r != 0 && r & !m == 0 && Fits(m, |bits|)
    ensures Divide(Gf2(), r, bits) != 0
    decreases |bits|
  {
    if bits != [] {
      var next := DivideOne(r, bits, m);
      ShortNonzero(next, bits[1..], (m << 1) | 1);
    }
  }

  lemma FirstCoefficient(bit: bool)
    ensures Gf2().add(Gf2().timesX(0), Coefficient(Gf2(), bit)) == (if bit then 1 else 0)
  {
  }

  lemma {:induction false} ShortRemainderNonzero(e: seq<bool>)
    requires |e| <= 24 && true in e
    ensures Remainder(Gf2(), e) != 0
    decreases |e|
  {
    FirstCoefficient(e[0]);
    if e[0] {
      FitsOne();
      FitsFewer(1, |e| - 1, 23);
      ShortNonzero(1, e[1..], 1);
    } else {
      ShortRemainderNonzero(e[1..]);
    }
  }

  lemma {:induction false} ShortRemaindersDiffer(u: seq<bool>, v: seq<bool>)
    requires |u| == |v| <= 24 && u != v
    ensures Remainder(Gf2(), u) != Remainder(Gf2(), v)
  {
    var d := Difference(u, v);
    var i :| 0 <= i < |u| && u[i] != v[i];
    assert d[i];
    Gf2Laws();
    DivideAdd(Gf2(), 0, 0, u, v);
    ShortRemainderNonzero(d);
    assert Neutral(Gf2(), 0);
    Cancels(Gf2(), Remainder(Gf2(), u), Remainder(Gf2(), v));
  }

  /** Changing bits of a valid frame only within a window of at most 24 consecutive bits
      always breaks the check. */
  lemma BurstDetected(frame: seq<byte>, damaged: seq<byte>, start: nat, width: nat)
    requires |frame| == |damaged| >= 3 && damaged != frame
    requires width <= 24 && start + width <= 8 * |frame|
    requires Bits(frame)[..start] == Bits(damaged)[..start]
    requires Bits(frame)[start + width..] == Bits(damaged)[start + width..]
    requires TrailerOk(frame)
    ensures !TrailerOk(damaged)
  {
    var f, d := Bits(frame), Bits(damaged);
    var u, v := f[start..start + width], d[start..start + width];
    assert f == f[..start] + u + f[start + width..];
    assert d == d[..start] + v + d[start + width..];
    TrailerOkIsDivisible(frame);
    TrailerOkIsDivisible(damaged);
    if TrailerOk(damaged) {
      Gf2Laws();
      WindowsAgree(Gf2(), f[..start], u, v, f[start + width..]);
      if u != v {
        ShortRemaindersDiffer(u, v);
      }
      BitsInjective(frame, damaged);
    }
  }

  lemma ByteBitsInjective(a: byte, b: byte)
    requires ByteBits(a) == ByteBits(b)
    ensures a == b
  {
    var u, v := ByteBits(a), ByteBits(b);
    assert u[0] == v[0] && u[1] == v[1] && u[2] == v[2] && u[3] == v[3];
    assert u[4] == v[4] && u[5] == v[5] && u[6] == v[6] && u[7] == v[7];
  }

  lemma {:induction false} BitsInjective(p: seq<byte>, q: seq<byte>)
    requires |p| == |q| && Bits(p) == Bits(q)
    ensures p == q
  {
    if p != [] {
      assert Bits(p)[..8] == ByteBits(p[0]) && Bits(q)[..8] == ByteBits(q[0]);
      assert Bits(p)[8..] == Bits(p[1..]) && Bits(q)[8..] == Bits(q[1..]);
      ByteBitsInjective(p[0], q[0]);
      BitsInjective(p[1..], q[1..]);
    }
  }
}
