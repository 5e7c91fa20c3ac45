/** The source side of the lowering pass: a Cretonne function in
    extended-basic-block SSA form, reduced to what the translator reads.
    Block parameters stand where a phi-node IR would have phis; branch and
    jump instructions pass arguments to them positionally. */
module CtonIr {

  /** An SSA value handle (`ir::Value`). */
  type Value = nat

  /** An extended basic block handle (`ir::Ebb`). Handles are local to a
      function: every function numbers its blocks from `ebb0`. */
  type Ebb = nat

  /** The 64-bit signed immediate of `iconst` (`Imm64`). */
  newtype i64 = x: int | -0x8000_0000_0000_0000 <= x < 0x8000_0000_0000_0000

  newtype byte = x: int | 0 <= x < 0x100

  /** The opcodes the translator distinguishes; every other opcode is
      `OtherOpcode`, named by its textual mnemonic. */
  datatype Opcode =
    | Iadd
    | Isub
    | Iconst
    | Brz
    | Jump
    | Return
    | OtherOpcode(mnemonic: string)

  /** Instruction formats (`ir::InstructionData`). The format decides which
      translation routine runs; the opcode decides what it emits. */
  datatype InstructionData =
    | BinaryData(opcode: Opcode, arg0: Value, arg1: Value)
    | BranchData(opcode: Opcode, destination: Ebb, args: seq<Value>)
    | JumpData(opcode: Opcode, destination: Ebb, args: seq<Value>)
    | UnaryImmData(opcode: Opcode, imm: i64)
    | MultiAryData(opcode: Opcode, args: seq<Value>)
    | OtherData(format: string)

  /** An instruction with the values it defines (`dfg.inst_results`). */
  datatype Inst = Inst(data: InstructionData, results: seq<Value>)

  /** One block of the layout with its instructions in program order. */
  datatype LayoutEbb = LayoutEbb(ebb: Ebb, insts: seq<Inst>)

  /** `ir::ExternalName`: only the `TestCase` form, a byte array with an
      explicit length, can be turned into a function name. */
  datatype ExternalName =
    | TestCase(length: byte, ascii: seq<byte>)
    | User(namespace: nat, index: nat)

  datatype ValueType = I8 | I16 | I32 | I64 | B1 | F32 | F64

  /** `ir::Function`: `ebbParams` is the data-flow graph's parameter list
      per block, `layout` the blocks in layout order (the first is the
      entry block). */
  datatype Function = Function(
    name: ExternalName,
    signature: seq<ValueType>,
    ebbParams: map<Ebb, seq<Value>>,
    layout: seq<LayoutEbb>)
}
