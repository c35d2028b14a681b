/** MicroArchitectureData: binds the instruction set of an architecture to
    one microarchitecture and to that microarchitecture's itinerary table
    (exegesis/base/microarchitecture.cc). */
module MicroArchitectureDataBinder {
  import opened Util
  import opened Instructions
  import opened MicroArchitectures
  import opened MicroArchitectureRegistry

  /** The timing description of one instruction. Its contents are not
      interpreted by this model. */
  datatype Itinerary = Itinerary(microOperations: seq<PortMask>)

  /** The itineraries of one microarchitecture: entry i describes
      instruction i of the instruction set. */
  datatype InstructionSetItinerariesProto = InstructionSetItinerariesProto(
    microarchitectureId: string,
    itineraries: seq<Itinerary>)

  /** ArchitectureProto: the instruction set and the itinerary tables of all
      microarchitectures. */
  datatype ArchitectureProto = ArchitectureProto(
    instructionSet: InstructionSetProto,
    perMicroarchitectureItineraries: seq<InstructionSetItinerariesProto>)

  /** The bound structure. Valid() is the invariant that Create establishes. */
  datatype MicroArchitectureData = MicroArchitectureData(
    architecture: ArchitectureProto,
    microarchitecture: MicroArchitecture,
    itineraries: InstructionSetItinerariesProto)
  {
    predicate Valid()
    {
      && itineraries.microarchitectureId == microarchitecture.proto.id
      && itineraries in architecture.perMicroarchitectureItineraries
      && |itineraries.itineraries| == |architecture.instructionSet.instructions|
    }
  }

  /** The index of the first itinerary table for `id`, if there is one. */
  function FirstItinerariesFor(tables: seq<InstructionSetItinerariesProto>, id: string): (r: Option<nat>)
    ensures r.Some? ==> r.value < |tables| && tables[r.value].microarchitectureId == id
    ensures r.Some? ==> forall j :: 0 <= j < r.value ==> tables[j].microarchitectureId != id
    ensures r.None? ==> forall j :: 0 <= j < |tables| ==> tables[j].microarchitectureId != id
  {
    if |tables| == 0 then None
    else if tables[0].microarchitectureId == id then Some(0)
    else match FirstItinerariesFor(tables[1..], id)
      case None => None
      case Some(k) => Some(k + 1)
  }

  /** What Create CHECKs before binding: the first matching table, if any,
      has one itinerary per instruction. */
  predicate FirstTableMatchesInstructionCount(architecture: ArchitectureProto, id: string)
  {
    match FirstItinerariesFor(architecture.perMicroarchitectureItineraries, id)
    case None => true
    case Some(i) =>
      |architecture.perMicroarchitectureItineraries[i].itineraries| == |architecture.instructionSet.instructions|
  }

  function NoItinerariesMessage(id: string): string
  {
    "No itineraries for microarchitecture '" + id + "'"
  }

  function UnknownMicroarchitectureMessage(id: string): string
  {
    "Unknown microarchitecture '" + id + "'"
  }

  /** MicroArchitectureData::Create: binds the first itinerary table whose id
      is the microarchitecture's; a count mismatch there is fatal, and no
      matching table is an InvalidArgument error. */
  method Create(architecture: ArchitectureProto, microarchitecture: MicroArchitecture)
    returns (r: StatusOr<MicroArchitectureData>)
    requires FirstTableMatchesInstructionCount(architecture, microarchitecture.proto.id)
    ensures var first := FirstItinerariesFor(architecture.perMicroarchitectureItineraries, microarchitecture.proto.id);
      && (r.Value? <==> first.Some?)
      && (r.Value? ==> r.value == MicroArchitectureData(architecture, microarchitecture,
                                                        architecture.perMicroarchitectureItineraries[first.value]))
    ensures r.Value? ==> r.value.Valid()
    ensures r.Failure? ==> r == Failure(InvalidArgument, NoItinerariesMessage(microarchitecture.proto.id))
  {
    var tables := architecture.perMicroarchitectureItineraries;
    var id := microarchitecture.proto.id;
    var i := 0;
    while i < |tables|
      invariant 0 <= i <= |tables|
      invariant forall j :: 0 <= j < i ==> tables[j].microarchitectureId != id
    {
      if id == tables[i].microarchitectureId {
        // The CHECK_EQ on the itinerary count holds by the precondition.
        return Value(MicroArchitectureData(architecture, microarchitecture, tables[i]));
      }
      i := i + 1;
    }
    return Failure(InvalidArgument, NoItinerariesMessage(id));
  }

  /** MicroArchitectureData::ForMicroarchitectureId: resolves the id in the
      registry, reporting an unknown id as InvalidArgument, then binds as
      Create does. */
  method ForMicroarchitectureId(registry: RegistryMaps, architecture: ArchitectureProto, microarchitectureId: string)
    returns (r: StatusOr<MicroArchitectureData>)
    requires microarchitectureId in registry.microarchitecturesById ==>
      FirstTableMatchesInstructionCount(architecture, registry.microarchitecturesById[microarchitectureId].proto.id)
    ensures microarchitectureId !in registry.microarchitecturesById ==>
      r == Failure(InvalidArgument, UnknownMicroarchitectureMessage(microarchitectureId))
    ensures microarchitectureId in registry.microarchitecturesById ==>
      var microarchitecture := registry.microarchitecturesById[microarchitectureId];
      var first := FirstItinerariesFor(architecture.perMicroarchitectureItineraries, microarchitecture.proto.id);
      && (r.Value? <==> first.Some?)
      && (r.Value? ==> r.value == MicroArchitectureData(architecture, microarchitecture,
                                                        architecture.perMicroarchitectureItineraries[first.value]))
      && (r.Value? ==> r.value.Valid())
      && (r.Failure? ==> r == Failure(InvalidArgument, NoItinerariesMessage(microarchitecture.proto.id)))
  {
    var microarchitecture := FromId(registry, microarchitectureId);
    if microarchitecture.None? {
      return Failure(InvalidArgument, UnknownMicroarchitectureMessage(microarchitectureId));
    }
    r := Create(architecture, microarchitecture.value);
  }
}
