/** The part of the instruction database that the modelled transforms,
    checks and binders read or write. */
module Instructions {

  /** Width of the `opcode` field of an x86 encoding specification (uint32). */
  type uint32 = x: int | 0 <= x < 0x1_0000_0000

  /** The mnemonic and operands as written in the vendor's documentation. */
  datatype VendorSyntax = VendorSyntax(mnemonic: string, operands: seq<string>)

  /** The structured encoding of an instruction; only the numeric opcode is
      read by the modelled code. */
  datatype X86EncodingSpecification = X86EncodingSpecification(opcode: uint32)

  /** One instruction-encoding variant (InstructionProto). `featureName` is the
      empty string when unset, as for a protocol-buffer string field. */
  datatype InstructionProto = InstructionProto(
    vendorSyntax: VendorSyntax,
    rawEncodingSpecification: string,
    x86EncodingSpecification: X86EncodingSpecification,
    featureName: string,
    protectionMode: int)
  {
    function Mnemonic(): string { vendorSyntax.mnemonic }
    function Opcode(): uint32 { x86EncodingSpecification.opcode }
  }

  /** The ordered list of instructions (InstructionSetProto). */
  datatype InstructionSetProto = InstructionSetProto(instructions: seq<InstructionProto>)
}
