# EXEgesis instruction-database core, modelled in Dafny

This project models three parts of the EXEgesis x86 instruction-database
tooling:

- **The microarchitecture registry and data binder** (`exegesis/base/microarchitecture.cc`).
  A `MicroArchitecture` has port masks with three 1-based port-mask slots and
  a protected-mode configuration. The registry maps CPU-model ids to
  microarchitecture ids, and microarchitecture ids to microarchitectures. It
  is filled once by `RegisterFromProto`. `MicroArchitectureData` binds an
  architecture's instruction set to one microarchitecture's itinerary table.
- **Two cleanup transforms** (`exegesis/x86/cleanup_instruction_set_properties.cc`).
  `AddMissingCpuFlags` and `AddProtectionModes` overwrite one field of each
  instruction, in place.
- **The opcode-format check `CheckOpcodeFormat`**, as its tests
  (`exegesis/x86/cleanup_instruction_set_checks_test.cc`) pin it down.

Files:

| file | module | contents |
|---|---|---|
| `util.dfy` | `Util` | `Option` (a pointer that may be null), `Status`, `StatusOr` |
| `instructions.dfy` | `Instructions` | the instruction record and the `uint32` opcode width |
| `microarchitecture.dfy` | `MicroArchitectures` | the microarchitecture value, port-mask slots, `IsProtectedMode` |
| `microarchitecture_registry.dfy` | `MicroArchitectureRegistry` | registration as a function, its lemmas, lookups, and the `Registry` class that fills the maps in place |
| `microarchitecture_data.dfy` | `MicroArchitectureDataBinder` | `Create` and `ForMicroarchitectureId` |
| `cleanup_properties.dfy` | `CleanupInstructionSetProperties` | the two passes over an `array` of instructions |
| `cleanup_checks.dfy` | `CleanupInstructionSetChecks` | `CheckOpcodeFormat`, lower-case hex printing, the test vectors |

The source has two kinds of failure, and the model keeps them apart:

- **Fatal aborts** are preconditions. These are `CHECK`, `LOG(FATAL)`,
  `InsertOrDie`, `FindOrDie` and `*OrDie`. For registration, the abort is also
  a value: `Registration` returns `None` when the source would abort, so the
  lemmas can say exactly when that happens.
- **Returned errors** are `Status` / `StatusOr` values. They carry the
  `InvalidArgument` code and the source's message text.

The registry is process-wide static state in the source. Here it is an
explicit `Registry` object while it is being filled. After that, lookups work
on a `RegistryMaps` snapshot of the two maps.

## Model

| member | source | states |
|---|---|---|
| `MicroArchitectures.GetPortMaskOrNull` | exegesis/base/microarchitecture.cc:47-49 | A negative index gives null. Any other index gives the mask at that position. Callers must stay below the number of masks, because the source has no upper-bound check. |
| `MicroArchitectures.LoadStoreAddressGeneration` | exegesis/base/microarchitecture.cc:33-36 | Null exactly when the stored 1-based index is <= 0. Otherwise it is the mask at stored index - 1. |
| `MicroArchitectures.StoreAddressGeneration` | exegesis/base/microarchitecture.cc:38-41 | Same 1-based rule for the store-address-generation slot. |
| `MicroArchitectures.StoreData` | exegesis/base/microarchitecture.cc:43-45 | Same 1-based rule for the store-data slot. |
| `MicroArchitectures.IsProtectedMode` | exegesis/base/microarchitecture.cc:51-69 | Requires that exactly one of the two mode lists is empty (the CHECK_NE). If protected modes are listed, the result is true iff the mode is among them. Otherwise it is true iff the mode is not among the user modes. |
| `MicroArchitectureRegistry.InsertModelIds` | exegesis/base/microarchitecture.cc:105-108 | The InsertOrDie loop over one entry's model ids, with None for the abort. On success every model id mapped before is still mapped. |
| `MicroArchitectureRegistry.Registration` | exegesis/base/microarchitecture.cc:102-115 | The registration loop as written: model ids first, then the entry, with None for either abort. On success every key registered before is still registered. |
| `MicroArchitectureRegistry.InsertModelIdsSpec` | exegesis/base/microarchitecture.cc:105-108 | Inserting one entry's model ids succeeds iff they are pairwise distinct and none is already mapped. On success each maps to the entry's id and the old mappings are kept. |
| `MicroArchitectureRegistry.RegistrationSucceedsIff` | exegesis/base/microarchitecture.cc:97-116 | Registration does not abort iff no model id and no microarchitecture id occurs twice, either among the new entries or against what is already registered. |
| `MicroArchitectureRegistry.RegistrationExtends` | exegesis/base/microarchitecture.cc:102-114 | A registration that does not abort never changes or removes an existing mapping. |
| `MicroArchitectureRegistry.RegistrationKeys` | exegesis/base/microarchitecture.cc:102-114 | After registration, the registered model ids are the old ones plus every entry's model ids. The registered ids are the old ones plus every entry's id. |
| `MicroArchitectureRegistry.RegisteredEntries` | exegesis/base/microarchitecture.cc:102-114 | After registration, every model id of every entry maps to that entry's id. Every entry is stored under its id as the MicroArchitecture built from it. |
| `MicroArchitectureRegistry.DuplicateIdIsFatal` | exegesis/base/microarchitecture.cc:109-114 | Two entries with the same id abort the registration. |
| `MicroArchitectureRegistry.RegisteredIdIsFatal` | exegesis/base/microarchitecture.cc:109-114 | An entry whose id is already registered aborts the registration. |
| `MicroArchitectureRegistry.DuplicateModelIdIsFatal` | exegesis/base/microarchitecture.cc:105-108 | A model id that two entries share, or that is already mapped, aborts the registration. |
| `MicroArchitectureRegistry.FromId` | exegesis/base/microarchitecture.cc:120-125 | Null exactly when the id is not registered. Otherwise it is the registered microarchitecture. |
| `MicroArchitectureRegistry.FromIdOrDie` | exegesis/base/microarchitecture.cc:127-130 | Requires a registered id, because an unknown id is fatal. The result is what FromId finds. |
| `MicroArchitectureRegistry.GetMicroarchitectureIdForCpuModelOrDie` | exegesis/base/microarchitecture.cc:90-93 | Requires a known CPU model, because an unknown one is fatal. In a consistent registry the id it returns always names a registered microarchitecture. `RegisterThenLookUp` states which id that is after registration. |
| `MicroArchitectureRegistry.RegistrationKeepsConsistent` | exegesis/base/microarchitecture.cc:97-116 | Registration keeps the registry consistent: every CPU model resolves to a registered microarchitecture, and each microarchitecture is stored under its own id. |
| `MicroArchitectureRegistry.RegisterThenLookUp` | exegesis/base/microarchitecture.cc:90-125 | For a catalog without duplicates, registration succeeds. Then GetMicroarchitectureIdForCpuModelOrDie resolves every model of every entry to that entry's id. FromId finds every entry, and finds only ids that were registered before or are in the catalog. |
| `MicroArchitectureRegistry.Registry.constructor` | exegesis/base/microarchitecture.cc:73-86 | The registry starts with both maps empty. |
| `MicroArchitectureRegistry.Registry.RegisterFromProto` | exegesis/base/microarchitecture.cc:97-116 | The nested loops over entries and model ids leave exactly the maps that the Registration function gives. Its preconditions exclude the duplicates that would abort. |
| `MicroArchitectureDataBinder.FirstItinerariesFor` | exegesis/base/microarchitecture.cc:148-157 | Finds the first itinerary table with the requested id, or reports that no table has it. |
| `MicroArchitectureDataBinder.Create` | exegesis/base/microarchitecture.cc:144-162 | Binds the first table whose id is the microarchitecture's. Requires that this table has one itinerary per instruction (the CHECK_EQ). The result keeps that invariant. With no matching table, it returns InvalidArgument "No itineraries for microarchitecture '<id>'". |
| `MicroArchitectureDataBinder.ForMicroarchitectureId` | exegesis/base/microarchitecture.cc:132-142 | For an unregistered id, it returns InvalidArgument "Unknown microarchitecture '<id>'". Otherwise it gives Create's result for the registered microarchitecture: the given architecture bound to the first matching table, or InvalidArgument "No itineraries for microarchitecture '<id>'". |
| `CleanupInstructionSetProperties.AddMissingCpuFlags` | exegesis/x86/cleanup_instruction_set_properties.cc:42-56 | Requires that no table rule is stale (the CHECK_NE). Each instruction becomes its flag-annotated version, in the same position. The result is always OK. |
| `CleanupInstructionSetProperties.MissingCpuFlagRules` | exegesis/x86/cleanup_instruction_set_properties.cc:31-38 | CLFLUSH gets CLFSH, CLFLUSHOPT gets CLFLUSHOPT, and MOVBE gets MOVBE. |
| `CleanupInstructionSetProperties.MissingCpuFlagTouchesOnlyFeatureName` | exegesis/x86/cleanup_instruction_set_properties.cc:44-53 | Only the feature name can change. An instruction whose mnemonic is not in the table is unchanged. |
| `CleanupInstructionSetProperties.SecondAddMissingCpuFlagsIsFatal` | exegesis/x86/cleanup_instruction_set_properties.cc:48-51 | Every instruction the pass changed trips the stale-rule guard, so a second run is fatal and the pass is not idempotent. |
| `CleanupInstructionSetProperties.AddProtectionModes` | exegesis/x86/cleanup_instruction_set_properties.cc:133-150 | Each instruction gets the level from the mnemonic table, else from the encoding table, else -1, in the same position. The result is always OK. |
| `CleanupInstructionSetProperties.ProtectionModeIsUnrestrictedOrZero` | exegesis/x86/cleanup_instruction_set_properties.cc:62-147 | Every table value is 0, so every protection mode becomes -1 or 0. |
| `CleanupInstructionSetProperties.ProtectionModePrecedence` | exegesis/x86/cleanup_instruction_set_properties.cc:136-147 | A mnemonic hit wins. The encoding table is consulted only on a mnemonic miss. With neither, the mode is -1. |
| `CleanupInstructionSetProperties.EncodingLookupIsExact` | exegesis/x86/cleanup_instruction_set_properties.cc:118-128 | Encodings match exactly: "0F 20/r" and "0F 22 /r" are privileged, "0F 20 /r" and "0F 22/r" are not. |
| `CleanupInstructionSetProperties.AddProtectionModesIdempotent` | exegesis/x86/cleanup_instruction_set_properties.cc:142-147 | The old value is ignored, so a second run changes nothing. Only the protection mode changes. |
| `CleanupInstructionSetProperties.CleanupPassesCommute` | exegesis/x86/cleanup_instruction_set_properties.cc:133-151 | The two passes share priority 1000 and commute. Running AddProtectionModes first does not change whether AddMissingCpuFlags aborts. |
| `CleanupInstructionSetChecks.OpcodeUpperBytes` | exegesis/x86/cleanup_instruction_set_checks_test.cc:143-163 | The result is the opcode with its lowest byte cleared. It is a multiple of 256 that lies within 256 below the opcode. |
| `CleanupInstructionSetChecks.Hex` | exegesis/x86/cleanup_instruction_set_checks_test.cc:151-163 | Lower-case hexadecimal digits, with no leading zero except for the number 0. |
| `CleanupInstructionSetChecks.HexRoundTrip` | exegesis/x86/cleanup_instruction_set_checks_test.cc:151-163 | Reading back the printed hex gives the number, so different upper bytes are reported by different texts. |
| `CleanupInstructionSetChecks.FirstInvalidOpcode` | exegesis/x86/cleanup_instruction_set_checks_test.cc:131-172 | Finds the first instruction whose upper bytes are not accepted, or reports that every instruction is accepted. |
| `CleanupInstructionSetChecks.CheckOpcodeFormat` | exegesis/x86/cleanup_instruction_set_checks_test.cc:125-172 | OK iff every opcode's upper bytes are 0, 0x0F3800 or 0x0F3A00. Otherwise it returns INVALID_ARGUMENT with "Invalid opcode upper bytes: <hex>" for the first offending instruction. It takes the list by value, so it cannot change it. |
| `CleanupInstructionSetChecks.CheckDependsOnlyOnUpperBytes` | exegesis/x86/cleanup_instruction_set_checks_test.cc:143-163 | Lists whose opcodes agree above the lowest byte, position by position, get the same result. |
| `CleanupInstructionSetChecks.ValidOpcodesAccepted` | exegesis/x86/cleanup_instruction_set_checks_test.cc:32-128 | The four instructions ADC "14 ib", VFMSUB231PS, PMOVSXBW and KSHIFTLB pass. |
| `CleanupInstructionSetChecks.HexOfD800` | exegesis/x86/cleanup_instruction_set_checks_test.cc:151 | 0xD800 prints as "d800". |
| `CleanupInstructionSetChecks.HexOfF0100` | exegesis/x86/cleanup_instruction_set_checks_test.cc:163 | 0xF0100 prints as "f0100". |
| `CleanupInstructionSetChecks.FsubOpcodeRejected` | exegesis/x86/cleanup_instruction_set_checks_test.cc:136-151 | FSUB "D8 E0+i" with opcode 55520 is rejected with INVALID_ARGUMENT "Invalid opcode upper bytes: d800". |
| `CleanupInstructionSetChecks.XtestOpcodeRejected` | exegesis/x86/cleanup_instruction_set_checks_test.cc:152-163 | XTEST "NP 0F 01 D6" with opcode 983510 is rejected with INVALID_ARGUMENT "Invalid opcode upper bytes: f0100". |

The rejected test opcodes are 55520 (0xD8E0) and 983510 (0x0F01D6);
"d800" and "f0100" are their upper bytes.

## Left out

- The transform registry and pipeline runner (`REGISTER_INSTRUCTION_SET_TRANSFORM`, declared in `exegesis/base/cleanup_instruction_set.h`, which `exegesis/x86/cleanup_instruction_set_properties.cc:20` includes) are outside the modelled files. `CleanupPassesCommute` covers the one fact about them that matters here: both passes run at priority 1000 and commute.
- Reading and writing protocol buffers (`exegesis/util/proto_util.h`) and parsing the test protos from text are I/O, so they are left out. The test vectors are written as values.
- The static singletons, `unique_ptr` ownership and `shared_ptr` sharing are left out. The registry is an explicit object, or a snapshot of its maps. Lookups return values rather than pointers, so aliasing is not modelled.
- The contents of `PortMask` and of itineraries are placeholder datatypes. Only their positions and counts matter here.
- `MicroArchitectureData` keeps the bound itinerary table as a value, not as a pointer into the architecture. `Create` states which table that is (the first match).
- `CHECK(instruction_set != nullptr)`, `CHECK(microarchitecture)` and the `CHECK_NOTNULL` calls in the `MicroArchitectureData` constructor have no counterpart, because a Dafny value cannot be null.
- The messages of fatal aborts (`LOG(FATAL)`, `CHECK`) are left out. Only the error messages that are returned are modelled.
- Registration inserts an entry's model ids before it checks for a duplicate id. The model keeps that order, but the order has no visible effect, because either duplicate aborts the whole process.
- MicroArchitectureRegistry.GetMicroarchitectureIdForCpuModelOrDie: its own contract says only that the returned id is registered in a consistent registry. Which id it returns after registration is stated by `RegisterThenLookUp`.
- CleanupInstructionSetChecks.CheckOpcodeFormat: the implementation in `exegesis/x86/cleanup_instruction_set_checks.cc` is outside the modelled files; the model follows its tests in `exegesis/x86/cleanup_instruction_set_checks_test.cc`: the accepted upper bytes are exactly 0, 0x0F3800 and 0x0F3A00. The two-byte 0F map (upper bytes 0x0F00) is not accepted, because no test shows it.
- CleanupInstructionSetChecks.CheckOpcodeFormat: the check that the opcode bytes written in the raw encoding string match the numeric opcode is left out. It would need a tokenizer of raw encoding strings that the tests do not pin down.
- CleanupInstructionSetChecks.CheckOpcodeFormat: the tests only say that the message contains "Invalid opcode upper bytes: <hex>". The model's message is exactly that text. It reports the first offending instruction, because the tests do not show how several failures are combined.
- 32-bit integer widths: only the opcode is bounded, as `uint32`. Port-mask indices and protection modes are unbounded integers.
- MicroArchitectures.LoadStoreAddressGeneration, MicroArchitectures.StoreAddressGeneration, MicroArchitectures.StoreData: the `- 1` in these three slot accessors is computed on unbounded integers. The overflow at the minimum 32-bit index is undefined behaviour in the source, and it is not modelled; the model returns null there.
