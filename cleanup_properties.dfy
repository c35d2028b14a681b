/** The two instruction-set cleanup passes of
    exegesis/x86/cleanup_instruction_set_properties.cc. Both overwrite one
    field of each instruction of the list in place and always return OK. */
module CleanupInstructionSetProperties {
  import opened Util
  import opened Instructions

  // ---------------------------------------------------------------------------
  // AddMissingCpuFlags

  /** Instructions whose CPUID feature flag the source data omits. */
  const MissingCpuFlags: map<string, string> := map[
    "CLFLUSH" := "CLFSH",
    "CLFLUSHOPT" := "CLFLUSHOPT",
    "MOVBE" := "MOVBE"]

  /** The guard against stale rules: an instruction that already carries the
      flag its rule would add means the rule is obsolete, which is fatal. */
  predicate NoStaleCpuFlagRule(instruction: InstructionProto)
  {
    instruction.Mnemonic() in MissingCpuFlags ==>
      MissingCpuFlags[instruction.Mnemonic()] != instruction.featureName
  }

  /** One instruction after AddMissingCpuFlags. */
  function WithMissingCpuFlag(instruction: InstructionProto): InstructionProto
  {
    if instruction.Mnemonic() in MissingCpuFlags
    then instruction.(featureName := MissingCpuFlags[instruction.Mnemonic()])
    else instruction
  }

  method AddMissingCpuFlags(instructions: array<InstructionProto>) returns (status: Status)
    requires forall i :: 0 <= i < instructions.Length ==> NoStaleCpuFlagRule(instructions[i])
    modifies instructions
    ensures status == Ok
    ensures forall i :: 0 <= i < instructions.Length ==> instructions[i] == WithMissingCpuFlag(old(instructions[i]))
  {
    for i := 0 to instructions.Length
      invariant forall j :: 0 <= j < i ==> instructions[j] == WithMissingCpuFlag(old(instructions[j]))
      invariant forall j :: i <= j < instructions.Length ==> instructions[j] == old(instructions[j])
    {
      var mnemonic := instructions[i].Mnemonic();
      if mnemonic in MissingCpuFlags {
        var featureName := MissingCpuFlags[mnemonic];
        // The CHECK_NE against the current feature name holds by the precondition.
        instructions[i] := instructions[i].(featureName := featureName);
      }
    }
    return Ok;
  }

  /** The three rules of the table, for an instruction of any other content. */
  lemma MissingCpuFlagRules(instruction: InstructionProto)
    ensures instruction.Mnemonic() == "CLFLUSH" ==> WithMissingCpuFlag(instruction).featureName == "CLFSH"
    ensures instruction.Mnemonic() == "CLFLUSHOPT" ==> WithMissingCpuFlag(instruction).featureName == "CLFLUSHOPT"
    ensures instruction.Mnemonic() == "MOVBE" ==> WithMissingCpuFlag(instruction).featureName == "MOVBE"
  {
  }

  /** Only the feature name can change, and only for a mnemonic in the table. */
  lemma MissingCpuFlagTouchesOnlyFeatureName(instruction: InstructionProto)
    ensures WithMissingCpuFlag(instruction).(featureName := instruction.featureName) == instruction
    ensures instruction.Mnemonic() !in MissingCpuFlags ==> WithMissingCpuFlag(instruction) == instruction
  {
  }

  /** The pass is not idempotent: after it, every instruction it changed trips
      the stale-rule guard, so a second run over such a list is fatal. */
  lemma SecondAddMissingCpuFlagsIsFatal(instruction: InstructionProto)
    requires instruction.Mnemonic() in MissingCpuFlags
    ensures !NoStaleCpuFlagRule(WithMissingCpuFlag(instruction))
  {
  }

  // ---------------------------------------------------------------------------
  // AddProtectionModes

  /** Privileged instructions by mnemonic, with the privilege level they need. */
  const ProtectionModesByMnemonic: map<string, int> := map[
    // Restricted operations.
    "CLAC" := 0, "CLI" := 0, "CLTS" := 0, "HLT" := 0, "INVD" := 0,
    "INVPCID" := 0, "LGDT" := 0, "LIDT" := 0, "LLDT" := 0, "LMSW" := 0,
    "LTR" := 0, "MWAIT" := 0, "RDMSR" := 0, "RDPMC" := 0, "STAC" := 0,
    "STD" := 0, "STI" := 0, "SWAPGR" := 0, "SWAPGS" := 0, "WBINVD" := 0,
    "WRMSR" := 0, "XRSTORS" := 0, "XRSTORS64" := 0,
    // Input/output, assuming IOPL == 0.
    "IN" := 0, "INS" := 0, "INSB" := 0, "INSW" := 0, "INSD" := 0,
    "OUT" := 0, "OUTS" := 0, "OUTSB" := 0, "OUTSD" := 0, "OUTSW" := 0,
    // System management mode.
    "RSM" := 0]

  /** Privileged instructions not covered by mnemonic, keyed by the exact raw
      encoding string: moves from/to debug and control registers. The
      spacing before "/r" differs between the entries, as in the source. */
  const ProtectionModesByEncoding: map<string, int> := map[
    "0F 21/r" := 0,
    "0F 23 /r" := 0,
    "0F 20/r" := 0,
    "0F 22 /r" := 0]

  /** The level found for an instruction: by mnemonic first, then by raw
      encoding. */
  function ProtectionModeLookup(instruction: InstructionProto): Option<int>
  {
    if instruction.Mnemonic() in ProtectionModesByMnemonic then
      Some(ProtectionModesByMnemonic[instruction.Mnemonic()])
    else if instruction.rawEncodingSpecification in ProtectionModesByEncoding then
      Some(ProtectionModesByEncoding[instruction.rawEncodingSpecification])
    else
      None
  }

  /** One instruction after AddProtectionModes: the level found, or -1. */
  function WithProtectionMode(instruction: InstructionProto): InstructionProto
  {
    instruction.(protectionMode := match ProtectionModeLookup(instruction) case Some(mode) => mode case None => -1)
  }

  method AddProtectionModes(instructions: array<InstructionProto>) returns (status: Status)
    modifies instructions
    ensures status == Ok
    ensures forall i :: 0 <= i < instructions.Length ==> instructions[i] == WithProtectionMode(old(instructions[i]))
  {
    for i := 0 to instructions.Length
      invariant forall j :: 0 <= j < i ==> instructions[j] == WithProtectionMode(old(instructions[j]))
      invariant forall j :: i <= j < instructions.Length ==> instructions[j] == old(instructions[j])
    {
      var instruction := instructions[i];
      var mode: Option<int> := None;
      if instruction.Mnemonic() in ProtectionModesByMnemonic {
        mode := Some(ProtectionModesByMnemonic[instruction.Mnemonic()]);
      }
      if mode.None? && instruction.rawEncodingSpecification in ProtectionModesByEncoding {
        mode := Some(ProtectionModesByEncoding[instruction.rawEncodingSpecification]);
      }
      // Unrestricted unless a table says otherwise.
      instructions[i] := instructions[i].(protectionMode := -1);
      if mode.Some? {
        instructions[i] := instructions[i].(protectionMode := mode.value);
      }
    }
    return Ok;
  }

  /** Every table value is 0, so the pass leaves only -1 or 0. */
  lemma ProtectionModeIsUnrestrictedOrZero(instruction: InstructionProto)
    ensures WithProtectionMode(instruction).protectionMode in {-1, 0}
  {
  }

  /** A mnemonic hit wins over the encoding table, which is consulted only on
      a mnemonic miss; with neither, the mode is -1. */
  lemma ProtectionModePrecedence(instruction: InstructionProto)
    ensures instruction.Mnemonic() in ProtectionModesByMnemonic ==>
      WithProtectionMode(instruction).protectionMode == ProtectionModesByMnemonic[instruction.Mnemonic()]
    ensures instruction.Mnemonic() !in ProtectionModesByMnemonic &&
            instruction.rawEncodingSpecification in ProtectionModesByEncoding ==>
      WithProtectionMode(instruction).protectionMode == ProtectionModesByEncoding[instruction.rawEncodingSpecification]
    ensures instruction.Mnemonic() !in ProtectionModesByMnemonic &&
            instruction.rawEncodingSpecification !in ProtectionModesByEncoding ==>
      WithProtectionMode(instruction).protectionMode == -1
  {
  }

  /** The encoding lookup matches the string exactly: "0F 20/r" is
      privileged, "0F 20 /r" is not; "0F 22 /r" is, "0F 22/r" is not. */
  lemma EncodingLookupIsExact(instruction: InstructionProto)
    requires instruction.Mnemonic() !in ProtectionModesByMnemonic
    ensures instruction.rawEncodingSpecification == "0F 20/r" ==> WithProtectionMode(instruction).protectionMode == 0
    ensures instruction.rawEncodingSpecification == "0F 20 /r" ==> WithProtectionMode(instruction).protectionMode == -1
    ensures instruction.rawEncodingSpecification == "0F 22 /r" ==> WithProtectionMode(instruction).protectionMode == 0
    ensures instruction.rawEncodingSpecification == "0F 22/r" ==> WithProtectionMode(instruction).protectionMode == -1
  {
  }

  /** The prior value is ignored, so running the pass again changes nothing,
      and nothing but the protection mode changes. */
  lemma AddProtectionModesIdempotent(instruction: InstructionProto)
    ensures WithProtectionMode(WithProtectionMode(instruction)) == WithProtectionMode(instruction)
    ensures WithProtectionMode(instruction).(protectionMode := instruction.protectionMode) == instruction
  {
  }

  /** Both passes are registered at the same priority; they write disjoint
      fields and neither reads what the other writes, so their order does not
      matter, and running AddProtectionModes first cannot trip the guard of
      AddMissingCpuFlags. */
  lemma CleanupPassesCommute(instruction: InstructionProto)
    ensures WithMissingCpuFlag(WithProtectionMode(instruction)) == WithProtectionMode(WithMissingCpuFlag(instruction))
    ensures NoStaleCpuFlagRule(WithProtectionMode(instruction)) <==> NoStaleCpuFlagRule(instruction)
  {
  }
}
