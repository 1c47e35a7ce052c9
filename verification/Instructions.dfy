/** The first word of a Cairo instruction and its size (src/instruction.h, src/instruction.c). */
module Instructions {
  datatype Register = RegAp | RegFp
  datatype Op1Addr = Imm | OpAp | OpFp | Op0
  datatype Res = Op1 | ResAdd | Mul | Unconstrained
  datatype PcUpdate = PcRegular | Jump | JumpRel | Jnz
  datatype ApUpdate = ApRegular | Add | Add1 | Add2
  datatype FpUpdate = FpRegular | ApPlus2 | Dst
  datatype Opcode = NOp | AssertEq | Call | Ret

  datatype Instruction = Instruction(
    off0: int,
    off1: int,
    off2: int,
    dstRegister: Register,
    op0Register: Register,
    op1Addr: Op1Addr,
    res: Res,
    pcUpdate: PcUpdate,
    apUpdate: ApUpdate,
    fpUpdate: FpUpdate,
    opcode: Opcode)

  datatype DecodeError =
    | NonZeroHighBit
    | InvalidOp1Reg
    | InvalidPcUpdate
    | InvalidRes
    | InvalidOpcode
    | InvalidApUpdate

  datatype DecodeResult = Decoded(instruction: Instruction) | Refused(error: DecodeError)

  function InstructionSize(instruction: Instruction): nat {
    if instruction.op1Addr == Imm then 2 else 1
  }
}
