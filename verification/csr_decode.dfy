/**
  Recognition of a Zicsr instruction offered on the co-processor interface.

  The layout follows the Zicsr chapter of the RISC-V Unprivileged ISA:
  csr[31:20] | rs1 or uimm[19:15] | funct3[14:12] | rd[11:7] | opcode[6:0],
  with opcode SYSTEM = 1110011, funct3[2] the immediate flag and funct3[1:0]
  the operation (01 write, 10 set, 11 clear; 00 is not a CSR instruction).
 */
module CsrDecode {

  const SystemOpcode: bv32 := 0x73

  /** `csrinsn_valid` and `csrinsn_addr`. */
  datatype Decoded = Decoded(valid: bool, addr: bv12)

  function Opcode(insn: bv32): bv32 { insn & 0x7F }

  /** funct3[1:0], the CSR operation. */
  function Op(insn: bv32): bv2 { ((insn >> 12) & 3) as bv2 }

  /** funct3[2]: the source operand is the 5-bit immediate rather than rs1. */
  function ImmFlag(insn: bv32): bool { (insn >> 14) & 1 == 1 }

  function CsrField(insn: bv32): bv12 { ((insn >> 20) & 0xFFF) as bv12 }

  /**
    An instruction is a CSR instruction for the bank when the interface offers
    it, it has the SYSTEM opcode, its operation bits are not 00, and its
    source operand is available (rs1 valid, or an immediate form).
   */
  function Decode(pcpiValid: bool, insn: bv32, rs1Valid: bool): Decoded
  {
    Decoded(pcpiValid && Opcode(insn) == SystemOpcode && Op(insn) != 0
              && (rs1Valid || ImmFlag(insn)),
            CsrField(insn))
  }

  /** The fields of a SYSTEM-opcode instruction word. */
  datatype CsrInsn = CsrInsn(csr: bv12, src: bv5, imm: bool, op: bv2, rd: bv5)

  function Encode(c: CsrInsn): bv32
  {
    var funct3: bv32 := (if c.imm then 4 else 0) | (c.op as bv32);
    ((c.csr as bv32) << 20) | ((c.src as bv32) << 15) | (funct3 << 12)
      | ((c.rd as bv32) << 7) | SystemOpcode
  }

  function Fields(insn: bv32): CsrInsn
  {
    CsrInsn(CsrField(insn), ((insn >> 15) & 0x1F) as bv5, ImmFlag(insn), Op(insn),
            ((insn >> 7) & 0x1F) as bv5)
  }

  /** Decoding an encoded instruction recovers every field. */
  lemma FieldsOfEncode(c: CsrInsn)
    ensures Fields(Encode(c)) == c
    ensures Opcode(Encode(c)) == SystemOpcode
  {
  }

  /** Every SYSTEM-opcode word is the encoding of its own fields. */
  lemma EncodeOfFields(insn: bv32)
    requires Opcode(insn) == SystemOpcode
    ensures Encode(Fields(insn)) == insn
  {
  }

  /**
    The bank recognises an encoded instruction exactly when it is offered,
    its operation is one of write/set/clear, and its operand is available;
    the decoded address is the instruction's CSR field.
   */
  lemma DecodeOfEncode(pcpiValid: bool, rs1Valid: bool, c: CsrInsn)
    ensures Decode(pcpiValid, Encode(c), rs1Valid)
         == Decoded(pcpiValid && c.op != 0 && (rs1Valid || c.imm), c.csr)
  {
    FieldsOfEncode(c);
  }

  /** Words outside the SYSTEM opcode, and ECALL/EBREAK-shaped words (op 00), are never recognised. */
  lemma NotCsrNotDecoded(pcpiValid: bool, insn: bv32, rs1Valid: bool)
    requires Opcode(insn) != SystemOpcode || Op(insn) == 0
    ensures !Decode(pcpiValid, insn, rs1Valid).valid
  {
  }

}
