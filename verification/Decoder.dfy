/** Decoding a 64-bit word into an instruction (src/decoder.c). */
module Decoder {
  import opened Bits
  import opened Instructions
  import opened Words

  import ByteCodecs

  // The word layout, by division and remainder

  const BIAS := 0x8000

  function Off0Field(word: nat): nat { word % 0x1_0000 }
  function Off1Field(word: nat): nat { word / 0x1_0000 % 0x1_0000 }
  function Off2Field(word: nat): nat { word / 0x1_0000_0000 % 0x1_0000 }
  function Flags(word: nat): nat { word / 0x1_0000_0000_0000 }

  function DstField(flags: nat): nat { flags % 2 }
  function Op0Field(flags: nat): nat { flags / 2 % 2 }
  function Op1Field(flags: nat): nat { flags / 4 % 8 }
  function ResField(flags: nat): nat { flags / 0x20 % 4 }
  function PcField(flags: nat): nat { flags / 0x80 % 8 }
  function ApField(flags: nat): nat { flags / 0x400 % 4 }
  function OpcodeField(flags: nat): nat { flags / 0x1000 % 8 }

  /** A three-digit or two-digit flag group names an option only when it has at most one digit set. */
  predicate OneHot(field: nat) {
    field == 0 || field == 1 || field == 2 || field == 4
  }

  function RegisterOf(field: nat): Register {
    if field == 1 then RegFp else RegAp
  }

  function Op1AddrOf(field: nat): Op1Addr
    requires OneHot(field)
  {
    if field == 0 then Op0 else if field == 1 then Imm else if field == 2 then OpFp else OpAp
  }

  function PcUpdateOf(field: nat): PcUpdate
    requires OneHot(field)
  {
    if field == 0 then PcRegular else if field == 1 then Jump else if field == 2 then JumpRel else Jnz
  }

  function ResOf(field: nat, pcUpdate: PcUpdate): Res
    requires field < 3
  {
    if field == 0 then if pcUpdate == Jnz then Unconstrained else Op1
    else if field == 1 then ResAdd
    else Mul
  }

  function OpcodeOf(field: nat): Opcode
    requires OneHot(field)
  {
    if field == 0 then NOp else if field == 1 then Call else if field == 2 then Ret else AssertEq
  }

  function ApUpdateOf(field: nat, opcode: Opcode): ApUpdate
    requires field < 3
  {
    if field == 0 then if opcode == Call then Add2 else ApRegular
    else if field == 1 then Add
    else Add1
  }

  function FpUpdateOf(opcode: Opcode): FpUpdate {
    match opcode
    case Call => ApPlus2
    case Ret => Dst
    case _ => FpRegular
  }

  /** The seven flag groups of an instruction word. */
  datatype FlagGroups = FlagGroups(dst: nat, op0: nat, op1: nat, res: nat, pc: nat, ap: nat, opcode: nat)

  function GroupsOf(flags: nat): FlagGroups {
    FlagGroups(DstField(flags), Op0Field(flags), Op1Field(flags), ResField(flags),
               PcField(flags), ApField(flags), OpcodeField(flags))
  }

  function Select(off0: int, off1: int, off2: int, g: FlagGroups): DecodeResult {
    if !OneHot(g.op1) then Refused(InvalidOp1Reg)
    else if !OneHot(g.pc) then Refused(InvalidPcUpdate)
    else if g.res >= 3 then Refused(InvalidRes)
    else if !OneHot(g.opcode) then Refused(InvalidOpcode)
    else if g.ap >= 3 then Refused(InvalidApUpdate)
    else
      var pcUpdate := PcUpdateOf(g.pc);
      var opcode := OpcodeOf(g.opcode);
      Decoded(Instruction(off0, off1, off2, RegisterOf(g.dst), RegisterOf(g.op0), Op1AddrOf(g.op1),
                          ResOf(g.res, pcUpdate), pcUpdate, ApUpdateOf(g.ap, opcode),
                          FpUpdateOf(opcode), opcode))
  }

  /** The decoder as a function of the word. */
  function Decode(word: uint64): DecodeResult {
    if word >= 0x8000_0000_0000_0000 then Refused(NonZeroHighBit)
    else Select(Off0Field(word) - BIAS, Off1Field(word) - BIAS, Off2Field(word) - BIAS, GroupsOf(Flags(word)))
  }

  // The decoder as written: masks, shifts and a byte buffer

  function OverflowSub(encoded: uint16, complement: uint16): int {
    encoded - complement
  }

  lemma LowTwoBytes(value: nat, count: nat)
    requires count >= 2
    ensures var bytes: seq<nat> := ByteCodecs.LeBytes(value, count); bytes[0] + 0x100 * bytes[1] == value % 0x1_0000
  {
  }

  method DecodeOffset(offset: uint64) returns (decoded: int)
    ensures decoded == offset % 0x1_0000 - 0x8000
  {
    var buffer := new uint8[8];
    var vectorized := ByteCodecs.U64ToLeBytes(offset, buffer);
    var offsetBytes := new uint8[2];
    offsetBytes[0], offsetBytes[1] := vectorized[0], vectorized[1];
    var encoded := ByteCodecs.U16FromLeBytes(offsetBytes);
    LowTwoBytes(offset, 8);
    assert vectorized[0] == vectorized[..8][0] && vectorized[1] == vectorized[..8][1];
    return OverflowSub(encoded, 0x8000);
  }

  /** `(flags & mask) >> shift`: the mask and shift select one flag group. */
  method MaskedField(flags: nat, mask: nat, shift: nat, width: nat) returns (field: nat)
    requires mask == (Pow2(width) - 1) * Pow2(shift)
    ensures field == flags / Pow2(shift) % Pow2(width)
  {
    FieldExtract(flags, shift, width, mask);
    return Shr(And(flags, mask), shift);
  }

  /** `(word & HIGH_BIT) != 0` */
  method HighBitIsSet(word: uint64) returns (isSet: bool)
    ensures isSet <==> word >= 0x8000_0000_0000_0000
  {
    Pow2Values();
    AndShiftedMask(word, 1, 63);
    AndLowMask(Shr(word, 63), 1);
    return And(word, Shl(1, 63, 64)) != 0;
  }

  /** `decode_offset(word >> shift & OFFX_MASK)` */
  method MaskedOffset(word: uint64, shift: nat) returns (decoded: int)
    ensures decoded == word / Pow2(shift) % 0x1_0000 - BIAS
  {
    AndLowMask(Shr(word, shift), 16);
    assert Pow2(16) == 0x1_0000 by { Pow2Values(); }
    decoded := DecodeOffset(And(Shr(word, shift), 0xFFFF));
  }

  method ReadFlagGroups(flags: nat) returns (groups: FlagGroups)
    ensures groups == GroupsOf(flags)
  {
    Pow2Values();
    var dstRegNum := MaskedField(flags, 0x0001, 0, 1);
    var op0RegNum := MaskedField(flags, 0x0002, 1, 1);
    var op1SrcNum := MaskedField(flags, 0x001C, 2, 3);
    var resLogicNum := MaskedField(flags, 0x0060, 5, 2);
    var pcUpdateNum := MaskedField(flags, 0x0380, 7, 3);
    var apUpdateNum := MaskedField(flags, 0x0C00, 10, 2);
    var opcodeNum := MaskedField(flags, 0x7000, 12, 3);
    return FlagGroups(dstRegNum, op0RegNum, op1SrcNum, resLogicNum, pcUpdateNum, apUpdateNum, opcodeNum);
  }

  /** The switches of the decoder, in the order in which they can refuse. */
  method SelectOptions(off0: int, off1: int, off2: int, groups: FlagGroups) returns (result: DecodeResult)
    ensures result == Select(off0, off1, off2, groups)
  {
    var dstRegister := if groups.dst == 1 then RegFp else RegAp;
    var op0Register := if groups.op0 == 1 then RegFp else RegAp;

    var op1Addr: Op1Addr;
    match groups.op1 {
      case 0 => op1Addr := Op0;
      case 1 => op1Addr := Imm;
      case 2 => op1Addr := OpFp;
      case 4 => op1Addr := OpAp;
      case _ => return Refused(InvalidOp1Reg);
    }
    assert OneHot(groups.op1) && op1Addr == Op1AddrOf(groups.op1);

    var pcUpdate: PcUpdate;
    match groups.pc {
      case 0 => pcUpdate := PcRegular;
      case 1 => pcUpdate := Jump;
      case 2 => pcUpdate := JumpRel;
      case 4 => pcUpdate := Jnz;
      case _ => return Refused(InvalidPcUpdate);
    }
    assert OneHot(groups.pc) && pcUpdate == PcUpdateOf(groups.pc);

    var res: Res;
    match groups.res {
      case 0 => res := if pcUpdate == Jnz then Unconstrained else Op1;
      case 1 => res := ResAdd;
      case 2 => res := Mul;
      case _ => return Refused(InvalidRes);
    }
    assert groups.res < 3 && res == ResOf(groups.res, pcUpdate);

    var opcode: Opcode;
    match groups.opcode {
      case 0 => opcode := NOp;
      case 1 => opcode := Call;
      case 2 => opcode := Ret;
      case 4 => opcode := AssertEq;
      case _ => return Refused(InvalidOpcode);
    }
    assert OneHot(groups.opcode) && opcode == OpcodeOf(groups.opcode);

    var apUpdate: ApUpdate;
    match groups.ap {
      case 0 => apUpdate := if opcode == Call then Add2 else ApRegular;
      case 1 => apUpdate := Add;
      case 2 => apUpdate := Add1;
      case _ => return Refused(InvalidApUpdate);
    }
    assert groups.ap < 3 && apUpdate == ApUpdateOf(groups.ap, opcode);

    var fpUpdate: FpUpdate;
    match opcode {
      case Call => fpUpdate := ApPlus2;
      case Ret => fpUpdate := Dst;
      case _ => fpUpdate := FpRegular;
    }

    return Decoded(Instruction(off0, off1, off2, dstRegister, op0Register, op1Addr,
                               res, pcUpdate, apUpdate, fpUpdate, opcode));
  }

  method DecodeInstruction(encoded: uint64) returns (result: DecodeResult)
    ensures result == Decode(encoded)
  {
    var highBit := HighBitIsSet(encoded);
    if highBit {
      return Refused(NonZeroHighBit);
    }
    Pow2Values();
    var off0 := MaskedOffset(encoded, 0);
    var off1 := MaskedOffset(encoded, 16);
    var off2 := MaskedOffset(encoded, 32);
    var groups := ReadFlagGroups(Shr(encoded, 48));
    result := SelectOptions(off0, off1, off2, groups);
  }

  // Decoding is a bijection from the accepted words onto the well-formed instructions

  predicate IsOffset(off: int) {
    -BIAS <= off < BIAS
  }

  predicate WellFormed(i: Instruction) {
    && IsOffset(i.off0) && IsOffset(i.off1) && IsOffset(i.off2)
    && i.res != (if i.pcUpdate == Jnz then Op1 else Unconstrained)
    && i.apUpdate != (if i.opcode == Call then ApRegular else Add2)
    && (i.fpUpdate == ApPlus2 <==> i.opcode == Call)
    && (i.fpUpdate == Dst <==> i.opcode == Ret)
  }

  function RegisterDigit(r: Register): nat {
    if r == RegFp then 1 else 0
  }

  function Op1Digits(a: Op1Addr): nat {
    match a case Op0 => 0 case Imm => 1 case OpFp => 2 case OpAp => 4
  }

  function ResDigits(r: Res): nat {
    match r case ResAdd => 1 case Mul => 2 case _ => 0
  }

  function PcDigits(p: PcUpdate): nat {
    match p case PcRegular => 0 case Jump => 1 case JumpRel => 2 case Jnz => 4
  }

  function ApDigits(a: ApUpdate): nat {
    match a case Add => 1 case Add1 => 2 case _ => 0
  }

  function OpcodeDigits(o: Opcode): nat {
    match o case NOp => 0 case Call => 1 case Ret => 2 case AssertEq => 4
  }

  function DigitsOf(i: Instruction): FlagGroups {
    FlagGroups(RegisterDigit(i.dstRegister), RegisterDigit(i.op0Register), Op1Digits(i.op1Addr), ResDigits(i.res),
               PcDigits(i.pcUpdate), ApDigits(i.apUpdate), OpcodeDigits(i.opcode))
  }

  predicate GroupsFit(g: FlagGroups) {
    g.dst < 2 && g.op0 < 2 && g.op1 < 8 && g.res < 4 && g.pc < 8 && g.ap < 4 && g.opcode < 8
  }

  /** The flag word made of given groups, by the layout drawn in src/instruction.h. */
  function JoinGroups(g: FlagGroups): (flags: nat) {
    g.dst + 0x2 * g.op0 + 0x4 * g.op1 + 0x20 * g.res + 0x80 * g.pc + 0x400 * g.ap + 0x1000 * g.opcode
  }

  function EncodeFlags(i: Instruction): nat {
    JoinGroups(DigitsOf(i))
  }

  function Encode(i: Instruction): (word: uint64)
    requires WellFormed(i)
  {
    GroupsOfJoined(DigitsOf(i));
    (i.off0 + BIAS) + 0x1_0000 * (i.off1 + BIAS) + 0x1_0000_0000 * (i.off2 + BIAS)
    + 0x1_0000_0000_0000 * EncodeFlags(i)
  }

  lemma WordFields(off0: nat, off1: nat, off2: nat, flags: nat, word: nat)
    requires off0 < 0x1_0000 && off1 < 0x1_0000 && off2 < 0x1_0000
    requires word == off0 + 0x1_0000 * off1 + 0x1_0000_0000 * off2 + 0x1_0000_0000_0000 * flags
    ensures Off0Field(word) == off0 && Off1Field(word) == off1
    ensures Off2Field(word) == off2 && Flags(word) == flags
  {
    assert word / 0x1_0000 == off1 + 0x1_0000 * off2 + 0x1_0000_0000 * flags;
    assert word / 0x1_0000_0000 == off2 + 0x1_0000 * flags;
  }

  lemma GroupsOfJoined(g: FlagGroups)
    requires GroupsFit(g)
    ensures GroupsOf(JoinGroups(g)) == g && JoinGroups(g) < 0x8000
  {
    FlagFields(g.dst, g.op0, g.op1, g.res, g.pc, g.ap, g.opcode, JoinGroups(g));
  }

  lemma FlagFields(dst: nat, op0: nat, op1: nat, res: nat, pc: nat, ap: nat, opcode: nat, flags: nat)
    requires dst < 2 && op0 < 2 && op1 < 8 && res < 4 && pc < 8 && ap < 4 && opcode < 8
    requires flags == dst + 2 * op0 + 4 * op1 + 0x20 * res + 0x80 * pc + 0x400 * ap + 0x1000 * opcode
    ensures DstField(flags) == dst && Op0Field(flags) == op0 && Op1Field(flags) == op1
    ensures ResField(flags) == res && PcField(flags) == pc
    ensures ApField(flags) == ap && OpcodeField(flags) == opcode
  {
    assert flags / 4 == op1 + 8 * res + 0x20 * pc + 0x100 * ap + 0x400 * opcode;
    assert flags / 0x20 == res + 4 * pc + 0x20 * ap + 0x80 * opcode;
    assert flags / 0x80 == pc + 8 * ap + 0x20 * opcode;
    assert flags / 0x400 == ap + 4 * opcode;
  }

  lemma JoinOfGroups(flags: nat)
    requires flags < 0x8000
    ensures JoinGroups(GroupsOf(flags)) == flags
  {
    var q1, q2, q3, q4, q5, q6 := flags / 2, flags / 4, flags / 0x20, flags / 0x80, flags / 0x400, flags / 0x1000;
    assert q1 / 2 == q2 && q2 / 8 == q3 && q3 / 4 == q4 && q4 / 8 == q5 && q5 / 4 == q6 && q6 / 8 == 0;
  }

  lemma SelectOfDigits(i: Instruction)
    requires WellFormed(i)
    ensures Select(i.off0, i.off1, i.off2, DigitsOf(i)) == Decoded(i)
  {
    assert OneHot(Op1Digits(i.op1Addr)) && Op1AddrOf(Op1Digits(i.op1Addr)) == i.op1Addr;
    assert OneHot(PcDigits(i.pcUpdate)) && PcUpdateOf(PcDigits(i.pcUpdate)) == i.pcUpdate;
    assert OneHot(OpcodeDigits(i.opcode)) && OpcodeOf(OpcodeDigits(i.opcode)) == i.opcode;
    assert ResDigits(i.res) < 3 && ResOf(ResDigits(i.res), i.pcUpdate) == i.res;
    assert ApDigits(i.apUpdate) < 3 && ApUpdateOf(ApDigits(i.apUpdate), i.opcode) == i.apUpdate;
  }

  lemma DigitsOfSelect(off0: int, off1: int, off2: int, g: FlagGroups)
    requires Select(off0, off1, off2, g).Decoded? && g.dst < 2 && g.op0 < 2
    ensures DigitsOf(Select(off0, off1, off2, g).instruction) == g
  {
  }

  /** Every well-formed instruction is the decoding of its encoding ... */
  lemma DecodeInvertsEncode(i: Instruction)
    requires WellFormed(i)
    ensures Decode(Encode(i)) == Decoded(i)
  {
    WordFields(i.off0 + BIAS, i.off1 + BIAS, i.off2 + BIAS, EncodeFlags(i), Encode(i));
    GroupsOfJoined(DigitsOf(i));
    SelectOfDigits(i);
  }

  lemma WordFromFields(word: nat)
    ensures word == Off0Field(word) + 0x1_0000 * Off1Field(word) + 0x1_0000_0000 * Off2Field(word)
                    + 0x1_0000_0000_0000 * Flags(word)
  {
    var q1, q2 := word / 0x1_0000, word / 0x1_0000_0000;
    assert q1 / 0x1_0000 == q2 && q2 / 0x1_0000 == Flags(word);
  }

  lemma DecodedFlags(word: uint64)
    requires Decode(word).Decoded?
    ensures EncodeFlags(Decode(word).instruction) == Flags(word)
  {
    var i := Decode(word).instruction;
    DigitsOfSelect(i.off0, i.off1, i.off2, GroupsOf(Flags(word)));
    JoinOfGroups(Flags(word));
  }

  /** ... and every accepted word is the encoding of its decoding, which is well formed. */
  lemma EncodeInvertsDecode(word: uint64)
    requires Decode(word).Decoded?
    ensures WellFormed(Decode(word).instruction)
    ensures Encode(Decode(word).instruction) == word
  {
    DecodedFlags(word);
    WordFromFields(word);
  }

  /** Distinct accepted words decode to distinct instructions. */
  lemma DecodeIsInjective(first: uint64, second: uint64)
    requires Decode(first).Decoded? && Decode(first) == Decode(second)
    ensures first == second
  {
    EncodeInvertsDecode(first);
    EncodeInvertsDecode(second);
  }

  // Which words are refused, bit by bit

  /** Among the binary digits lo, ..., lo + width - 1 at most one is set. */
  ghost predicate AtMostOneBit(word: nat, lo: nat, width: nat) {
    forall a: nat, b: nat :: lo <= a < b < lo + width ==> !(Bit(word, a) && Bit(word, b))
  }

  /** The condition under which each error applies, by bit positions of the word. */
  ghost predicate Fails(word: nat, error: DecodeError) {
    match error
    case NonZeroHighBit => Bit(word, 63)
    case InvalidOp1Reg => !AtMostOneBit(word, 50, 3)
    case InvalidPcUpdate => !AtMostOneBit(word, 55, 3)
    case InvalidRes => !AtMostOneBit(word, 53, 2)
    case InvalidOpcode => !AtMostOneBit(word, 60, 3)
    case InvalidApUpdate => !AtMostOneBit(word, 58, 2)
  }

  function CheckOrder(error: DecodeError): nat {
    match error
    case NonZeroHighBit => 0
    case InvalidOp1Reg => 1
    case InvalidPcUpdate => 2
    case InvalidRes => 3
    case InvalidOpcode => 4
    case InvalidApUpdate => 5
  }

  lemma {:induction false} BitOfShifted(x: nat, lo: nat, k: nat)
    ensures Bit(Shr(x, lo), k) <==> Bit(x, lo + k)
    decreases lo
  {
    if lo == 0 {
    } else {
      BitOfShifted(x / 2, lo - 1, k);
      DivDiv(x, 2, Pow2(lo - 1));
    }
  }

  lemma LowBits(x: nat)
    ensures Bit(x, 0) <==> x % 2 == 1
    ensures Bit(x, 1) <==> x / 2 % 2 == 1
    ensures Bit(x, 2) <==> x / 4 % 2 == 1
  {
    assert Bit(x, 2) == Bit(x / 2, 1) == Bit(x / 2 / 2, 0);
  }

  lemma TwoDigits(x: nat)
    ensures x % 4 == 2 * (x / 2 % 2) + x % 2 && x / 4 == x / 2 / 2
  {
    QuotientIsUnique(x, 4, x / 2 / 2, 2 * (x / 2 % 2) + x % 2);
  }

  lemma ThreeDigits(x: nat)
    ensures x % 8 == 4 * (x / 4 % 2) + 2 * (x / 2 % 2) + x % 2
  {
    TwoDigits(x);
    QuotientIsUnique(x, 8, x / 4 / 2, 4 * (x / 4 % 2) + x % 4);
  }

  function Digit(isOne: bool): nat {
    if isOne then 1 else 0
  }

  /** The groups of three and two digits from `lo` on. */
  lemma GroupDigits(word: nat, lo: nat)
    ensures word / Pow2(lo) % 8 == 4 * Digit(Bit(word, lo + 2)) + 2 * Digit(Bit(word, lo + 1)) + Digit(Bit(word, lo))
    ensures word / Pow2(lo) % 4 == 2 * Digit(Bit(word, lo + 1)) + Digit(Bit(word, lo))
  {
    BitOfShifted(word, lo, 0);
    BitOfShifted(word, lo, 1);
    BitOfShifted(word, lo, 2);
    LowBits(Shr(word, lo));
    ThreeDigits(Shr(word, lo));
    TwoDigits(Shr(word, lo));
  }

  lemma HighBit(word: uint64)
    ensures Bit(word, 63) <==> word >= 0x8000_0000_0000_0000
  {
    Pow2Values();
    BitIsShiftedParity(word, 63);
  }

  /** The flag groups, by their place in the whole word. */
  lemma FlagsInWord(word: nat)
    ensures Op1Field(Flags(word)) == word / Pow2(50) % 8 && ResField(Flags(word)) == word / Pow2(53) % 4
    ensures PcField(Flags(word)) == word / Pow2(55) % 8 && ApField(Flags(word)) == word / Pow2(58) % 4
    ensures OpcodeField(Flags(word)) == word / Pow2(60) % 8
  {
    Pow2Values();
    Pow2Sum(48, 2);
    Pow2Sum(48, 5);
    Pow2Sum(48, 7);
    Pow2Sum(48, 10);
    Pow2Sum(48, 12);
    DivDiv(word, Pow2(48), 4);
    DivDiv(word, Pow2(48), 0x20);
    DivDiv(word, Pow2(48), 0x80);
    DivDiv(word, Pow2(48), 0x400);
    DivDiv(word, Pow2(48), 0x1000);
  }

  lemma ThreeBitGroup(word: nat, lo: nat)
    ensures AtMostOneBit(word, lo, 3) <==> OneHot(word / Pow2(lo) % 8)
  {
    GroupDigits(word, lo);
  }

  lemma TwoBitGroup(word: nat, lo: nat)
    ensures AtMostOneBit(word, lo, 2) <==> word / Pow2(lo) % 4 < 3
  {
    GroupDigits(word, lo);
  }

  lemma GroupConditions(word: nat)
    ensures AtMostOneBit(word, 50, 3) <==> OneHot(Op1Field(Flags(word)))
    ensures AtMostOneBit(word, 53, 2) <==> ResField(Flags(word)) < 3
    ensures AtMostOneBit(word, 55, 3) <==> OneHot(PcField(Flags(word)))
    ensures AtMostOneBit(word, 58, 2) <==> ApField(Flags(word)) < 3
    ensures AtMostOneBit(word, 60, 3) <==> OneHot(OpcodeField(Flags(word)))
  {
    FlagsInWord(word);
    ThreeBitGroup(word, 50);
    TwoBitGroup(word, 53);
    ThreeBitGroup(word, 55);
    TwoBitGroup(word, 58);
    ThreeBitGroup(word, 60);
  }

  ghost predicate FieldFails(word: nat, error: DecodeError) {
    var g := GroupsOf(Flags(word));
    match error
    case NonZeroHighBit => word >= 0x8000_0000_0000_0000
    case InvalidOp1Reg => !OneHot(g.op1)
    case InvalidPcUpdate => !OneHot(g.pc)
    case InvalidRes => g.res >= 3
    case InvalidOpcode => !OneHot(g.opcode)
    case InvalidApUpdate => g.ap >= 3
  }

  lemma FailureByFields(word: uint64, error: DecodeError)
    ensures Fails(word, error) <==> FieldFails(word, error)
  {
    HighBit(word);
    GroupConditions(word);
  }

  lemma FirstFieldFailure(word: uint64, other: DecodeError)
    ensures Decode(word).Decoded? ==> !FieldFails(word, other)
    ensures Decode(word).Refused? ==>
      && FieldFails(word, Decode(word).error)
      && (CheckOrder(other) < CheckOrder(Decode(word).error) ==> !FieldFails(word, other))
  {
  }

  /** A word is accepted when no check fails, and otherwise reports the first check that fails. */
  lemma RefusalIsFirstFailure(word: uint64, error: DecodeError)
    ensures Decode(word).Decoded? <==> forall e :: !Fails(word, e)
    ensures Decode(word) == Refused(error)
      <==> Fails(word, error) && forall e :: CheckOrder(e) < CheckOrder(error) ==> !Fails(word, e)
  {
    forall e
      ensures Fails(word, e) <==> FieldFails(word, e)
    {
      FailureByFields(word, e);
    }
    forall e
      ensures Decode(word).Decoded? ==> !FieldFails(word, e)
      ensures Decode(word).Refused? && CheckOrder(e) < CheckOrder(Decode(word).error) ==> !FieldFails(word, e)
    {
      FirstFieldFailure(word, e);
    }
    if Decode(word).Refused? {
      var reported := Decode(word).error;
      FirstFieldFailure(word, reported);
      assert Fails(word, reported);
    }
  }

  lemma FlagsDecideAcceptance(first: uint64, second: uint64)
    requires Flags(first) == Flags(second)
    ensures Decode(first).Refused? ==> Decode(second) == Decode(first)
    ensures Decode(first).Decoded? ==> Decode(second).Decoded?
  {
  }

  // What an accepted word means, bit by bit

  /** The flag of a given weight, a power of two, is set. */
  predicate FlagSet(flags: nat, weight: nat)
    requires weight > 0
  {
    flags / weight % 2 == 1
  }

  lemma GroupOfFlags(flags: nat, weight: nat)
    requires weight > 0
    ensures flags / weight % 8
         == 4 * Digit(FlagSet(flags, weight * 4)) + 2 * Digit(FlagSet(flags, weight * 2))
            + Digit(FlagSet(flags, weight))
    ensures flags / weight % 4 == 2 * Digit(FlagSet(flags, weight * 2)) + Digit(FlagSet(flags, weight))
  {
    DivDiv(flags, weight, 2);
    DivDiv(flags, weight, 4);
    ThreeDigits(flags / weight);
    TwoDigits(flags / weight);
  }

  /** The flag groups, flag by flag. */
  lemma FlagDigits(flags: nat)
    ensures var g := GroupsOf(flags);
      && g.dst == Digit(FlagSet(flags, 0x1)) && g.op0 == Digit(FlagSet(flags, 0x2))
      && g.op1 == 4 * Digit(FlagSet(flags, 0x10)) + 2 * Digit(FlagSet(flags, 0x8)) + Digit(FlagSet(flags, 0x4))
      && g.res == 2 * Digit(FlagSet(flags, 0x40)) + Digit(FlagSet(flags, 0x20))
      && g.pc == 4 * Digit(FlagSet(flags, 0x200)) + 2 * Digit(FlagSet(flags, 0x100)) + Digit(FlagSet(flags, 0x80))
      && g.ap == 2 * Digit(FlagSet(flags, 0x800)) + Digit(FlagSet(flags, 0x400))
      && g.opcode
         == 4 * Digit(FlagSet(flags, 0x4000)) + 2 * Digit(FlagSet(flags, 0x2000)) + Digit(FlagSet(flags, 0x1000))
  {
    GroupOfFlags(flags, 0x4);
    GroupOfFlags(flags, 0x20);
    GroupOfFlags(flags, 0x80);
    GroupOfFlags(flags, 0x400);
    GroupOfFlags(flags, 0x1000);
  }

  /**
   * Each offset is its 16 bits less the bias, and each option is named by its flag; the flags
   * start at bit 48 of the word.
   */
  lemma OptionsByFlags(word: uint64)
    requires Decode(word).Decoded?
    ensures var (i, flags) := (Decode(word).instruction, word / 0x1_0000_0000_0000);
      && i.off0 == word % 0x1_0000 - 0x8000
      && i.off1 == word / 0x1_0000 % 0x1_0000 - 0x8000
      && i.off2 == word / 0x1_0000_0000 % 0x1_0000 - 0x8000
      && (i.dstRegister == RegFp <==> FlagSet(flags, 0x1))
      && (i.op0Register == RegFp <==> FlagSet(flags, 0x2))
      && (i.op1Addr == Imm <==> FlagSet(flags, 0x4))
      && (i.op1Addr == OpFp <==> FlagSet(flags, 0x8))
      && (i.op1Addr == OpAp <==> FlagSet(flags, 0x10))
      && (i.res == ResAdd <==> FlagSet(flags, 0x20))
      && (i.res == Mul <==> FlagSet(flags, 0x40))
      && (i.res == Unconstrained <==> !FlagSet(flags, 0x20) && !FlagSet(flags, 0x40) && FlagSet(flags, 0x200))
      && (i.pcUpdate == Jump <==> FlagSet(flags, 0x80))
      && (i.pcUpdate == JumpRel <==> FlagSet(flags, 0x100))
      && (i.pcUpdate == Jnz <==> FlagSet(flags, 0x200))
      && (i.apUpdate == Add <==> FlagSet(flags, 0x400))
      && (i.apUpdate == Add1 <==> FlagSet(flags, 0x800))
      && (i.apUpdate == Add2 <==> !FlagSet(flags, 0x400) && !FlagSet(flags, 0x800) && FlagSet(flags, 0x1000))
      && (i.opcode == Call <==> FlagSet(flags, 0x1000))
      && (i.opcode == Ret <==> FlagSet(flags, 0x2000))
      && (i.opcode == AssertEq <==> FlagSet(flags, 0x4000))
      && (i.fpUpdate == ApPlus2 <==> FlagSet(flags, 0x1000))
      && (i.fpUpdate == Dst <==> FlagSet(flags, 0x2000))
  {
    FlagDigits(Flags(word));
  }

  /**
   * Acceptance and the reported error depend on bits 48 to 63 only. For two accepted words, each offset
   * stands for its own 16 bits, and the options for bits 48 to 63.
   */
  lemma FieldsAreIndependent(first: uint64, second: uint64)
    ensures Flags(first) == Flags(second) ==>
      if Decode(first).Refused? then Decode(second) == Decode(first) else Decode(second).Decoded?
    ensures Decode(first).Decoded? && Decode(second).Decoded? ==>
      var (i, j) := (Decode(first).instruction, Decode(second).instruction);
      && (i.off0 == j.off0 <==> Off0Field(first) == Off0Field(second))
      && (i.off1 == j.off1 <==> Off1Field(first) == Off1Field(second))
      && (i.off2 == j.off2 <==> Off2Field(first) == Off2Field(second))
      && (j == i.(off0 := j.off0, off1 := j.off1, off2 := j.off2) <==> Flags(first) == Flags(second))
  {
    if Flags(first) == Flags(second) {
      FlagsDecideAcceptance(first, second);
    }
    if Decode(first).Decoded? && Decode(second).Decoded? {
      DecodedFlags(first);
      DecodedFlags(second);
    }
  }
}
