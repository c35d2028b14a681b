/** CheckOpcodeFormat, as pinned down by
    exegesis/x86/cleanup_instruction_set_checks_test.cc: every opcode, with
    its lowest byte cleared, must name a known opcode map; otherwise the check
    fails with INVALID_ARGUMENT and names the offending upper bytes in
    lower-case hexadecimal. The check only reads the instruction list. */
module CleanupInstructionSetChecks {
  import opened Util
  import opened Instructions

  /** The opcode with its lowest byte cleared (opcode & 0xffffff00). */
  function OpcodeUpperBytes(opcode: uint32): (r: uint32)
    ensures r % 0x100 == 0 && r <= opcode < r + 0x100
  {
    opcode / 0x100 * 0x100
  }

  /** Upper bytes of the opcode maps the tests accept: none (one-byte map),
      0F 38 and 0F 3A (three-byte maps). */
  const AcceptedOpcodeUpperBytes: set<int> := {0, 0x0F3800, 0x0F3A00}

  predicate HasValidOpcodeUpperBytes(instruction: InstructionProto)
  {
    OpcodeUpperBytes(instruction.Opcode()) in AcceptedOpcodeUpperBytes
  }

  // ---------------------------------------------------------------------------
  // Lower-case hexadecimal without leading zeros.

  const HexDigits: string := "0123456789abcdef"

  /** The digits of n in base 16, most significant first, no leading zeros. */
  function Hex(n: nat): (s: string)
    ensures |s| > 0 && (n > 0 ==> s[0] != '0')
    ensures forall i :: 0 <= i < |s| ==> s[i] in HexDigits
    decreases n
  {
    if n < 16 then [HexDigits[n]] else Hex(n / 16) + [HexDigits[n % 16]]
  }

  function DigitValue(c: char): nat
  {
    if '0' <= c <= '9' then (c as int) - ('0' as int)
    else if 'a' <= c <= 'f' then (c as int) - ('a' as int) + 10
    else 0
  }

  /** Reads a string of lower-case hexadecimal digits. */
  function HexValue(s: string): nat
  {
    if |s| == 0 then 0 else HexValue(s[..|s| - 1]) * 16 + DigitValue(s[|s| - 1])
  }

  /** Reading back what Hex prints gives the number, so distinct upper bytes
      are reported by distinct texts. */
  lemma {:induction false} HexRoundTrip(n: nat)
    ensures HexValue(Hex(n)) == n
    decreases n
  {
    if n < 16 {
      assert DigitValue(HexDigits[n]) == n;
    } else {
      var s := Hex(n);
      assert s[..|s| - 1] == Hex(n / 16);
      assert DigitValue(HexDigits[n % 16]) == n % 16;
      HexRoundTrip(n / 16);
    }
  }

  function InvalidUpperBytesMessage(upperBytes: nat): string
  {
    "Invalid opcode upper bytes: " + Hex(upperBytes)
  }

  /** The position of the first instruction whose upper bytes are rejected. */
  function FirstInvalidOpcode(instructions: seq<InstructionProto>): (r: Option<nat>)
    ensures r.None? <==> forall j :: 0 <= j < |instructions| ==> HasValidOpcodeUpperBytes(instructions[j])
    ensures r.Some? ==> r.value < |instructions| && !HasValidOpcodeUpperBytes(instructions[r.value])
    ensures r.Some? ==> forall j :: 0 <= j < r.value ==> HasValidOpcodeUpperBytes(instructions[j])
  {
    if |instructions| == 0 then None
    else if !HasValidOpcodeUpperBytes(instructions[0]) then Some(0)
    else match FirstInvalidOpcode(instructions[1..])
      case None => None
      case Some(k) => Some(k + 1)
  }

  /** CheckOpcodeFormat: OK when every opcode's upper bytes are accepted,
      otherwise INVALID_ARGUMENT naming the upper bytes of the first offending
      instruction. */
  function CheckOpcodeFormat(instructions: seq<InstructionProto>): (r: Status)
    ensures r.Ok? <==> forall i :: 0 <= i < |instructions| ==> HasValidOpcodeUpperBytes(instructions[i])
    ensures r.Error? ==> r.code == InvalidArgument
    ensures r.Error? ==>
      exists i :: 0 <= i < |instructions| && !HasValidOpcodeUpperBytes(instructions[i]) &&
                  (forall j :: 0 <= j < i ==> HasValidOpcodeUpperBytes(instructions[j])) &&
                  r.message == InvalidUpperBytesMessage(OpcodeUpperBytes(instructions[i].Opcode()))
  {
    match FirstInvalidOpcode(instructions)
    case None => Ok
    case Some(i) => Error(InvalidArgument, InvalidUpperBytesMessage(OpcodeUpperBytes(instructions[i].Opcode())))
  }

  /** Only the upper bytes of each opcode matter: two instruction lists whose
      opcodes agree above the lowest byte, position by position, get the same
      verdict and the same message, whatever else the instructions hold. */
  lemma {:induction false} CheckDependsOnlyOnUpperBytes(a: seq<InstructionProto>, b: seq<InstructionProto>)
    requires |a| == |b|
    requires forall i :: 0 <= i < |a| ==> OpcodeUpperBytes(a[i].Opcode()) == OpcodeUpperBytes(b[i].Opcode())
    ensures FirstInvalidOpcode(a) == FirstInvalidOpcode(b)
    ensures CheckOpcodeFormat(a) == CheckOpcodeFormat(b)
  {
    if |a| > 0 {
      assert HasValidOpcodeUpperBytes(a[0]) == HasValidOpcodeUpperBytes(b[0]);
      CheckDependsOnlyOnUpperBytes(a[1..], b[1..]);
    }
  }

  // ---------------------------------------------------------------------------
  // The test vectors.

  function TestInstruction(mnemonic: string, operands: seq<string>, raw: string, opcode: uint32): InstructionProto
  {
    InstructionProto(VendorSyntax(mnemonic, operands), raw, X86EncodingSpecification(opcode), "", 0)
  }

  /** ValidOpcodes: a one-byte opcode and three opcodes of the 0F 38 and 0F 3A
      maps pass the check. */
  lemma ValidOpcodesAccepted()
    ensures CheckOpcodeFormat([
      TestInstruction("ADC", ["AL", "imm8"], "14 ib", 0x14),
      TestInstruction("VFMSUB231PS", ["xmm0", "xmm1", "m128"], "VEX.DDS.128.66.0F38.W0 BA /r", 997562),
      TestInstruction("PMOVSXBW", ["xmm1", "xmm2"], "66 0F 38 20 /r", 997408),
      TestInstruction("KSHIFTLB", ["k1", "k2", "imm8"], "VEX.L0.66.0F3A.W0 32 /r ib", 0x0f3a32)]) == Ok
  {
    var s := [
      TestInstruction("ADC", ["AL", "imm8"], "14 ib", 0x14),
      TestInstruction("VFMSUB231PS", ["xmm0", "xmm1", "m128"], "VEX.DDS.128.66.0F38.W0 BA /r", 997562),
      TestInstruction("PMOVSXBW", ["xmm1", "xmm2"], "66 0F 38 20 /r", 997408),
      TestInstruction("KSHIFTLB", ["k1", "k2", "imm8"], "VEX.L0.66.0F3A.W0 32 /r ib", 0x0f3a32)];
    assert OpcodeUpperBytes(0x14) == 0;
    assert OpcodeUpperBytes(997562) == 0x0F3800;
    assert OpcodeUpperBytes(997408) == 0x0F3800;
    assert OpcodeUpperBytes(0x0f3a32) == 0x0F3A00;
    assert forall i :: 0 <= i < |s| ==> HasValidOpcodeUpperBytes(s[i]);
  }

  lemma HexOfD800()
    ensures Hex(0xD800) == "d800"
  {
    assert Hex(0xD) == "d";
    assert Hex(0xD8) == "d8";
    assert Hex(0xD80) == "d80";
  }

  lemma HexOfF0100()
    ensures Hex(0xF0100) == "f0100"
  {
    assert Hex(0xF) == "f";
    assert Hex(0xF0) == "f0";
    assert Hex(0xF01) == "f01";
    assert Hex(0xF010) == "f010";
  }

  /** InvalidOpcodes, first case: FSUB "D8 E0+i" with opcode 55520 (0xD8E0). */
  lemma FsubOpcodeRejected()
    ensures CheckOpcodeFormat([TestInstruction("FSUB", ["ST(i)"], "D8 E0+i", 55520)])
         == Error(InvalidArgument, "Invalid opcode upper bytes: d800")
  {
    assert OpcodeUpperBytes(55520) == 0xD800;
    HexOfD800();
  }

  /** InvalidOpcodes, second case: XTEST "NP 0F 01 D6" with opcode 983510
      (0x0F01D6). */
  lemma XtestOpcodeRejected()
    ensures CheckOpcodeFormat([TestInstruction("XTEST", [], "NP 0F 01 D6", 983510)])
         == Error(InvalidArgument, "Invalid opcode upper bytes: f0100")
  {
    assert OpcodeUpperBytes(983510) == 0xF0100;
    HexOfF0100();
  }
}
