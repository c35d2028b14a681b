/** A microarchitecture: its port masks, the three 1-based port-mask slots
    and its protected-mode configuration (MicroArchitecture in
    exegesis/base/microarchitecture.cc). */
module MicroArchitectures {
  import opened Util

  /** The set of execution ports a micro-operation may issue to. Its contents
      are not interpreted by this model. */
  datatype PortMask = PortMask(ports: set<nat>)

  /** Either the protected levels or the user levels are listed; exactly one
      of the two lists is meant to be non-empty. */
  datatype ProtectedModeProto = ProtectedModeProto(protectedModes: seq<int>, userModes: seq<int>)

  /** MicroArchitectureProto. The three port-mask indices are 1-based; a
      value <= 0 means that the slot does not apply. */
  datatype MicroArchitectureProto = MicroArchitectureProto(
    id: string,
    modelIds: seq<string>,
    portMasks: seq<PortMask>,
    loadStoreAddressGenerationPortMaskIndex: int,
    storeAddressGenerationPortMaskIndex: int,
    storeDataPortMaskIndex: int,
    protectedMode: ProtectedModeProto)

  /** A MicroArchitecture is built from its proto and never changes; the
      port masks it keeps are a copy of the proto's list, so they are read
      from the proto here. */
  datatype MicroArchitecture = MicroArchitecture(proto: MicroArchitectureProto)

  /** The port mask at a 0-based index, or null for a negative index. There is
      no upper-bound check in the source, so callers must stay in range. */
  function GetPortMaskOrNull(microarchitecture: MicroArchitecture, index: int): (r: Option<PortMask>)
    requires index < |microarchitecture.proto.portMasks|
    ensures r.None? <==> index < 0
    ensures r.Some? ==> r.value == microarchitecture.proto.portMasks[index]
  {
    if index < 0 then None else Some(microarchitecture.proto.portMasks[index])
  }

  /** Reads a 1-based slot: stored index <= 0 gives null, otherwise the mask
      at position index - 1. */
  function PortMaskSlot(microarchitecture: MicroArchitecture, oneBasedIndex: int): (r: Option<PortMask>)
    requires oneBasedIndex <= |microarchitecture.proto.portMasks|
  {
    GetPortMaskOrNull(microarchitecture, oneBasedIndex - 1)
  }

  function LoadStoreAddressGeneration(microarchitecture: MicroArchitecture): (r: Option<PortMask>)
    requires microarchitecture.proto.loadStoreAddressGenerationPortMaskIndex <= |microarchitecture.proto.portMasks|
    ensures var k := microarchitecture.proto.loadStoreAddressGenerationPortMaskIndex;
      && (r.None? <==> k <= 0)
      && (r.Some? ==> 0 < k && r.value == microarchitecture.proto.portMasks[k - 1])
  {
    PortMaskSlot(microarchitecture, microarchitecture.proto.loadStoreAddressGenerationPortMaskIndex)
  }

  function StoreAddressGeneration(microarchitecture: MicroArchitecture): (r: Option<PortMask>)
    requires microarchitecture.proto.storeAddressGenerationPortMaskIndex <= |microarchitecture.proto.portMasks|
    ensures var k := microarchitecture.proto.storeAddressGenerationPortMaskIndex;
      && (r.None? <==> k <= 0)
      && (r.Some? ==> 0 < k && r.value == microarchitecture.proto.portMasks[k - 1])
  {
    PortMaskSlot(microarchitecture, microarchitecture.proto.storeAddressGenerationPortMaskIndex)
  }

  function StoreData(microarchitecture: MicroArchitecture): (r: Option<PortMask>)
    requires microarchitecture.proto.storeDataPortMaskIndex <= |microarchitecture.proto.portMasks|
    ensures var k := microarchitecture.proto.storeDataPortMaskIndex;
      && (r.None? <==> k <= 0)
      && (r.Some? ==> 0 < k && r.value == microarchitecture.proto.portMasks[k - 1])
  {
    PortMaskSlot(microarchitecture, microarchitecture.proto.storeDataPortMaskIndex)
  }

  /** The structural invariant checked on every call: exactly one of the two
      mode lists is empty. */
  predicate ModeListsExclusive(modes: ProtectedModeProto)
  {
    (|modes.protectedModes| == 0) != (|modes.userModes| == 0)
  }

  /** Whether code running at `protectionMode` is protected: membership in the
      protected list when that list is given, otherwise absence from the
      user list. The two linear searches return early on the first match. */
  method IsProtectedMode(microarchitecture: MicroArchitecture, protectionMode: int) returns (r: bool)
    requires ModeListsExclusive(microarchitecture.proto.protectedMode)
    ensures |microarchitecture.proto.protectedMode.protectedModes| > 0 ==>
      (r <==> protectionMode in microarchitecture.proto.protectedMode.protectedModes)
    ensures |microarchitecture.proto.protectedMode.protectedModes| == 0 ==>
      (r <==> protectionMode !in microarchitecture.proto.protectedMode.userModes)
  {
    var modes := microarchitecture.proto.protectedMode;
    if |modes.protectedModes| == 0 {
      var i := 0;
      while i < |modes.userModes|
        invariant 0 <= i <= |modes.userModes|
        invariant forall j :: 0 <= j < i ==> modes.userModes[j] != protectionMode
      {
        if protectionMode == modes.userModes[i] {
          return false;
        }
        i := i + 1;
      }
      return true;
    } else {
      var i := 0;
      while i < |modes.protectedModes|
        invariant 0 <= i <= |modes.protectedModes|
        invariant forall j :: 0 <= j < i ==> modes.protectedModes[j] != protectionMode
      {
        if protectionMode == modes.protectedModes[i] {
          return true;
        }
        i := i + 1;
      }
      return false;
    }
  }
}
