/** The process-wide microarchitecture registry of
    exegesis/base/microarchitecture.cc: CPU-model id -> microarchitecture id,
    and microarchitecture id -> MicroArchitecture. It is filled once by
    RegisterFromProto and only read afterwards; the read-only phase is
    modelled by lookups over a snapshot of the two maps. */
module MicroArchitectureRegistry {
  import opened Util
  import opened MicroArchitectures

  /** A snapshot of the two maps of the registry. */
  datatype RegistryMaps = RegistryMaps(
    microarchitectureIdByCpuModelId: map<string, string>,
    microarchitecturesById: map<string, MicroArchitecture>)

  // ---------------------------------------------------------------------------
  // Registration, as a function of the maps before it. None stands for the
  // fatal abort (InsertOrDie on a model id already present, or LOG(FATAL) on a
  // duplicate microarchitecture id).

  /** InsertOrDie of each model id of one entry, in order. */
  function InsertModelIds(byModel: map<string, string>, modelIds: seq<string>, id: string): (r: Option<map<string, string>>)
    ensures r.Some? ==> byModel.Keys <= r.value.Keys
    decreases |modelIds|
  {
    if |modelIds| == 0 then Some(byModel)
    else if modelIds[0] in byModel then None
    else InsertModelIds(byModel[modelIds[0] := id], modelIds[1..], id)
  }

  /** Registers the entries in order: the model ids of an entry first, then
      the entry itself under its id. */
  function Registration(maps: RegistryMaps, protos: seq<MicroArchitectureProto>): (r: Option<RegistryMaps>)
    ensures r.Some? ==> && maps.microarchitectureIdByCpuModelId.Keys <= r.value.microarchitectureIdByCpuModelId.Keys
                        && maps.microarchitecturesById.Keys <= r.value.microarchitecturesById.Keys
    decreases |protos|
  {
    if |protos| == 0 then Some(maps)
    else
      match InsertModelIds(maps.microarchitectureIdByCpuModelId, protos[0].modelIds, protos[0].id)
      case None => None
      case Some(byModel) =>
        if protos[0].id in maps.microarchitecturesById then None
        else
          var byId := maps.microarchitecturesById[protos[0].id := MicroArchitecture(protos[0])];
          Registration(RegistryMaps(byModel, byId), protos[1..])
  }

  // ---------------------------------------------------------------------------
  // An independent description of when registration succeeds.

  predicate Distinct(s: seq<string>)
  {
    forall i, j :: 0 <= i < j < |s| ==> s[i] != s[j]
  }

  /** The model ids of all entries, in registration order. */
  function AllModelIds(protos: seq<MicroArchitectureProto>): seq<string>
  {
    if |protos| == 0 then [] else protos[0].modelIds + AllModelIds(protos[1..])
  }

  /** The microarchitecture ids of all entries, in registration order. */
  function Ids(protos: seq<MicroArchitectureProto>): (r: seq<string>)
    ensures |r| == |protos| && forall i :: 0 <= i < |protos| ==> r[i] == protos[i].id
  {
    seq(|protos|, i requires 0 <= i < |protos| => protos[i].id)
  }

  /** No model id and no microarchitecture id is registered twice, whether
      against the registry as it was or within the new entries. */
  predicate CanRegister(maps: RegistryMaps, protos: seq<MicroArchitectureProto>)
  {
    && Distinct(AllModelIds(protos))
    && (forall m :: m in AllModelIds(protos) ==> m !in maps.microarchitectureIdByCpuModelId)
    && Distinct(Ids(protos))
    && (forall id :: id in Ids(protos) ==> id !in maps.microarchitecturesById)
  }

  lemma {:induction false} DistinctConcat(a: seq<string>, b: seq<string>)
    ensures Distinct(a + b) <==> Distinct(a) && Distinct(b) && forall x :: x in a ==> x !in b
  {
    var c := a + b;
    if Distinct(a) && Distinct(b) && forall x :: x in a ==> x !in b {
      forall i, j | 0 <= i < j < |c| ensures c[i] != c[j] {
        if j < |a| {
          assert c[i] == a[i] && c[j] == a[j];
        } else if i >= |a| {
          assert c[i] == b[i - |a|] && c[j] == b[j - |a|];
        } else {
          assert c[i] == a[i] && a[i] in a;
          assert c[j] == b[j - |a|] && b[j - |a|] in b;
        }
      }
    }
    if Distinct(c) {
      forall i, j | 0 <= i < j < |a| ensures a[i] != a[j] {
        assert a[i] == c[i] && a[j] == c[j];
      }
      forall i, j | 0 <= i < j < |b| ensures b[i] != b[j] {
        assert b[i] == c[|a| + i] && b[j] == c[|a| + j];
      }
      forall x | x in a ensures x !in b {
        var i :| 0 <= i < |a| && a[i] == x;
        forall j | 0 <= j < |b| ensures b[j] != x {
          assert c[i] == a[i] && c[|a| + j] == b[j];
        }
      }
    }
  }

  /** InsertOrDie over one entry's model ids succeeds exactly when they are
      distinct and new, and then maps each of them to the entry's id. */
  lemma {:induction false} InsertModelIdsSpec(byModel: map<string, string>, modelIds: seq<string>, id: string)
    ensures InsertModelIds(byModel, modelIds, id).Some? <==>
      Distinct(modelIds) && forall m :: m in modelIds ==> m !in byModel
    ensures InsertModelIds(byModel, modelIds, id).Some? ==>
      var r := InsertModelIds(byModel, modelIds, id).value;
      && (forall m :: m in r <==> m in byModel || m in modelIds)
      && (forall m :: m in byModel ==> r[m] == byModel[m])
      && (forall m :: m in modelIds ==> r[m] == id)
    decreases |modelIds|
  {
    if |modelIds| > 0 {
      var rest := modelIds[1..];
      assert modelIds == [modelIds[0]] + rest;
      DistinctConcat([modelIds[0]], rest);
      InsertModelIdsSpec(byModel[modelIds[0] := id], rest, id);
    }
  }

  lemma {:induction false} AllModelIdsContains(protos: seq<MicroArchitectureProto>, i: nat, m: string)
    requires i < |protos| && m in protos[i].modelIds
    ensures m in AllModelIds(protos)
  {
    if i > 0 {
      AllModelIdsContains(protos[1..], i - 1, m);
    }
  }

  /** Registration does not abort exactly when no id, model or
      microarchitecture, is registered twice. */
  lemma {:induction false} RegistrationSucceedsIff(maps: RegistryMaps, protos: seq<MicroArchitectureProto>)
    ensures Registration(maps, protos).Some? <==> CanRegister(maps, protos)
    decreases |protos|
  {
    if |protos| > 0 {
      var p, rest := protos[0], protos[1..];
      var byModel, byId := maps.microarchitectureIdByCpuModelId, maps.microarchitecturesById;
      InsertModelIdsSpec(byModel, p.modelIds, p.id);
      DistinctConcat(p.modelIds, AllModelIds(rest));
      assert Ids(protos) == [p.id] + Ids(rest);
      DistinctConcat([p.id], Ids(rest));
      var inserted := InsertModelIds(byModel, p.modelIds, p.id);
      if inserted.Some? && p.id !in byId {
        var maps1 := RegistryMaps(inserted.value, byId[p.id := MicroArchitecture(p)]);
        RegistrationSucceedsIff(maps1, rest);
      }
    }
  }

  /** One step of registration: the maps after the first entry. */
  function FirstStep(maps: RegistryMaps, p: MicroArchitectureProto): RegistryMaps
    requires InsertModelIds(maps.microarchitectureIdByCpuModelId, p.modelIds, p.id).Some?
  {
    RegistryMaps(InsertModelIds(maps.microarchitectureIdByCpuModelId, p.modelIds, p.id).value,
                 maps.microarchitecturesById[p.id := MicroArchitecture(p)])
  }

  /** Everything registered in `maps` is registered, unchanged, in `r`. */
  predicate Extends(r: RegistryMaps, maps: RegistryMaps)
  {
    && (forall m :: m in maps.microarchitectureIdByCpuModelId ==>
          m in r.microarchitectureIdByCpuModelId && r.microarchitectureIdByCpuModelId[m] == maps.microarchitectureIdByCpuModelId[m])
    && (forall id :: id in maps.microarchitecturesById ==>
          id in r.microarchitecturesById && r.microarchitecturesById[id] == maps.microarchitecturesById[id])
  }

  /** Registration never overwrites what was registered before. */
  lemma {:induction false} RegistrationExtends(maps: RegistryMaps, protos: seq<MicroArchitectureProto>)
    requires Registration(maps, protos).Some?
    ensures Extends(Registration(maps, protos).value, maps)
    decreases |protos|
  {
    if |protos| > 0 {
      var p := protos[0];
      InsertModelIdsSpec(maps.microarchitectureIdByCpuModelId, p.modelIds, p.id);
      var maps1 := FirstStep(maps, p);
      assert Registration(maps, protos) == Registration(maps1, protos[1..]);
      RegistrationExtends(maps1, protos[1..]);
    }
  }

  /** After registration exactly the old keys and the catalog's ids are
      present. */
  lemma {:induction false} RegistrationKeys(maps: RegistryMaps, protos: seq<MicroArchitectureProto>)
    requires Registration(maps, protos).Some?
    ensures var r := Registration(maps, protos).value;
      && (forall m :: m in r.microarchitectureIdByCpuModelId <==>
            m in maps.microarchitectureIdByCpuModelId || m in AllModelIds(protos))
      && (forall id :: id in r.microarchitecturesById <==> id in maps.microarchitecturesById || id in Ids(protos))
    decreases |protos|
  {
    if |protos| > 0 {
      var p := protos[0];
      InsertModelIdsSpec(maps.microarchitectureIdByCpuModelId, p.modelIds, p.id);
      var maps1 := FirstStep(maps, p);
      assert Registration(maps, protos) == Registration(maps1, protos[1..]);
      RegistrationKeys(maps1, protos[1..]);
      assert Ids(protos) == [p.id] + Ids(protos[1..]);
    }
  }

  /** After registration every model id of every entry maps to that entry's
      id, and every entry is found under its id. */
  lemma {:induction false} RegisteredEntries(maps: RegistryMaps, protos: seq<MicroArchitectureProto>)
    requires Registration(maps, protos).Some?
    ensures var r := Registration(maps, protos).value;
      && (forall i, m :: 0 <= i < |protos| && m in protos[i].modelIds ==>
            m in r.microarchitectureIdByCpuModelId && r.microarchitectureIdByCpuModelId[m] == protos[i].id)
      && (forall i :: 0 <= i < |protos| ==>
            protos[i].id in r.microarchitecturesById && r.microarchitecturesById[protos[i].id] == MicroArchitecture(protos[i]))
    decreases |protos|
  {
    if |protos| > 0 {
      var p, rest := protos[0], protos[1..];
      InsertModelIdsSpec(maps.microarchitectureIdByCpuModelId, p.modelIds, p.id);
      var maps1 := FirstStep(maps, p);
      assert Registration(maps, protos) == Registration(maps1, rest);
      RegisteredEntries(maps1, rest);
      RegistrationExtends(maps1, rest);
      var r := Registration(maps, protos).value;
      forall i, m | 0 <= i < |protos| && m in protos[i].modelIds
        ensures m in r.microarchitectureIdByCpuModelId && r.microarchitectureIdByCpuModelId[m] == protos[i].id
      {
        if i > 0 {
          assert protos[i] == rest[i - 1];
        }
      }
      forall i | 0 <= i < |protos|
        ensures protos[i].id in r.microarchitecturesById && r.microarchitecturesById[protos[i].id] == MicroArchitecture(protos[i])
      {
        if i > 0 {
          assert protos[i] == rest[i - 1];
        }
      }
    }
  }

  /** Two entries with the same microarchitecture id abort the registration. */
  lemma DuplicateIdIsFatal(maps: RegistryMaps, protos: seq<MicroArchitectureProto>, i: nat, j: nat)
    requires i < j < |protos| && protos[i].id == protos[j].id
    ensures Registration(maps, protos) == None
  {
    RegistrationSucceedsIff(maps, protos);
    assert Ids(protos)[i] == Ids(protos)[j];
  }

  /** An entry whose id is already registered aborts the registration. */
  lemma RegisteredIdIsFatal(maps: RegistryMaps, protos: seq<MicroArchitectureProto>, i: nat)
    requires i < |protos| && protos[i].id in maps.microarchitecturesById
    ensures Registration(maps, protos) == None
  {
    RegistrationSucceedsIff(maps, protos);
    assert Ids(protos)[i] in Ids(protos);
  }

  lemma {:induction false} SharedModelIdNotDistinct(protos: seq<MicroArchitectureProto>, i: nat, j: nat, m: string)
    requires i < j < |protos| && m in protos[i].modelIds && m in protos[j].modelIds
    ensures !Distinct(AllModelIds(protos))
  {
    var rest := protos[1..];
    DistinctConcat(protos[0].modelIds, AllModelIds(rest));
    if i == 0 {
      AllModelIdsContains(rest, j - 1, m);
    } else {
      SharedModelIdNotDistinct(rest, i - 1, j - 1, m);
    }
  }

  /** A model id that is already mapped, or that two entries share, aborts
      the registration. */
  lemma DuplicateModelIdIsFatal(maps: RegistryMaps, protos: seq<MicroArchitectureProto>, i: nat, j: nat, m: string)
    requires i < |protos| && j < |protos| && m in protos[i].modelIds && m in protos[j].modelIds
    requires i != j || m in maps.microarchitectureIdByCpuModelId
    ensures Registration(maps, protos) == None
  {
    RegistrationSucceedsIff(maps, protos);
    if m in maps.microarchitectureIdByCpuModelId {
      AllModelIdsContains(protos, i, m);
    } else if i < j {
      SharedModelIdNotDistinct(protos, i, j, m);
    } else {
      SharedModelIdNotDistinct(protos, j, i, m);
    }
  }

  // ---------------------------------------------------------------------------
  // Lookups over the filled registry.

  /** MicroArchitecture::FromId: the registered microarchitecture, or null. */
  function FromId(maps: RegistryMaps, microarchitectureId: string): (r: Option<MicroArchitecture>)
    ensures r.None? <==> microarchitectureId !in maps.microarchitecturesById
    ensures r.Some? ==> r.value == maps.microarchitecturesById[microarchitectureId]
  {
    if microarchitectureId in maps.microarchitecturesById
    then Some(maps.microarchitecturesById[microarchitectureId])
    else None
  }

  /** MicroArchitecture::FromIdOrDie: FromId for an id the caller knows to be
      registered; an unknown id is fatal. */
  function FromIdOrDie(maps: RegistryMaps, microarchitectureId: string): (r: MicroArchitecture)
    requires microarchitectureId in maps.microarchitecturesById
    ensures FromId(maps, microarchitectureId) == Some(r)
  {
    maps.microarchitecturesById[microarchitectureId]
  }

  /** GetMicroarchitectureIdForCpuModelOrDie: FindOrDie on the model map; an
      unknown CPU model is fatal. */
  function GetMicroarchitectureIdForCpuModelOrDie(maps: RegistryMaps, cpuModelId: string): (r: string)
    requires cpuModelId in maps.microarchitectureIdByCpuModelId
    ensures Consistent(maps) ==> FromId(maps, r).Some?
  {
    maps.microarchitectureIdByCpuModelId[cpuModelId]
  }

  /** What the registry keeps true by construction: every CPU model resolves to
      a registered microarchitecture, and each microarchitecture is filed under
      its own id. */
  predicate Consistent(maps: RegistryMaps)
  {
    && (forall m :: m in maps.microarchitectureIdByCpuModelId ==>
          maps.microarchitectureIdByCpuModelId[m] in maps.microarchitecturesById)
    && (forall id :: id in maps.microarchitecturesById ==> maps.microarchitecturesById[id].proto.id == id)
  }

  /** Registering a catalog keeps the registry consistent. */
  lemma RegistrationKeepsConsistent(maps: RegistryMaps, protos: seq<MicroArchitectureProto>)
    requires Consistent(maps) && Registration(maps, protos).Some?
    ensures Consistent(Registration(maps, protos).value)
  {
    RegistrationExtends(maps, protos);
    RegistrationKeys(maps, protos);
    RegisteredEntries(maps, protos);
    var r := Registration(maps, protos).value;
    forall m | m in r.microarchitectureIdByCpuModelId
      ensures r.microarchitectureIdByCpuModelId[m] in r.microarchitecturesById
    {
      if m !in maps.microarchitectureIdByCpuModelId {
        AllModelIdsIn(protos, m);
      }
    }
    forall id | id in r.microarchitecturesById ensures r.microarchitecturesById[id].proto.id == id {
      if id !in maps.microarchitecturesById {
        var i :| 0 <= i < |protos| && Ids(protos)[i] == id;
      }
    }
  }

  lemma {:induction false} AllModelIdsIn(protos: seq<MicroArchitectureProto>, m: string)
    requires m in AllModelIds(protos)
    ensures exists i :: 0 <= i < |protos| && m in protos[i].modelIds
  {
    if m !in protos[0].modelIds {
      AllModelIdsIn(protos[1..], m);
      var i :| 0 <= i < |protos[1..]| && m in protos[1..][i].modelIds;
      assert m in protos[i + 1].modelIds;
    }
  }

  /** Registering a catalog without duplicates: it does not abort, every CPU
      model of every entry resolves to that entry's id, FromId finds each
      entry, and an id neither registered before nor in the catalog stays
      unknown. */
  lemma RegisterThenLookUp(maps: RegistryMaps, protos: seq<MicroArchitectureProto>)
    requires CanRegister(maps, protos)
    ensures Registration(maps, protos).Some?
    ensures var r := Registration(maps, protos).value;
      && (forall i, m :: 0 <= i < |protos| && m in protos[i].modelIds ==>
            m in r.microarchitectureIdByCpuModelId &&
            GetMicroarchitectureIdForCpuModelOrDie(r, m) == protos[i].id)
      && (forall i :: 0 <= i < |protos| ==> FromId(r, protos[i].id) == Some(MicroArchitecture(protos[i])))
      && (forall id :: FromId(r, id).Some? <==> id in maps.microarchitecturesById || id in Ids(protos))
  {
    RegistrationSucceedsIff(maps, protos);
    RegisteredEntries(maps, protos);
    RegistrationKeys(maps, protos);
  }

  // ---------------------------------------------------------------------------
  // The registration step itself, which fills the two maps in place.

  class Registry {
    var microarchitectureIdByCpuModelId: map<string, string>
    var microarchitecturesById: map<string, MicroArchitecture>

    function Maps(): RegistryMaps
      reads this
    {
      RegistryMaps(microarchitectureIdByCpuModelId, microarchitecturesById)
    }

    constructor ()
      ensures Maps() == RegistryMaps(map[], map[])
    {
      microarchitectureIdByCpuModelId := map[];
      microarchitecturesById := map[];
    }

    /** RegisterFromProto: inserts the model ids of each entry, then the entry;
        the caller guarantees the catalog has no duplicates, since any
        duplicate aborts the process. */
    method RegisterFromProto(microarchitectures: seq<MicroArchitectureProto>)
      requires Registration(Maps(), microarchitectures).Some?
      modifies this
      ensures Registration(old(Maps()), microarchitectures) == Some(Maps())
    {
      var i := 0;
      while i < |microarchitectures|
        invariant 0 <= i <= |microarchitectures|
        invariant Registration(Maps(), microarchitectures[i..]) == Registration(old(Maps()), microarchitectures)
      {
        var proto := microarchitectures[i];
        assert microarchitectures[i..][1..] == microarchitectures[i + 1..];
        ghost var before := Maps();
        var k := 0;
        while k < |proto.modelIds|
          invariant 0 <= k <= |proto.modelIds|
          invariant microarchitecturesById == before.microarchitecturesById
          invariant InsertModelIds(microarchitectureIdByCpuModelId, proto.modelIds[k..], proto.id)
                 == InsertModelIds(before.microarchitectureIdByCpuModelId, proto.modelIds, proto.id)
          invariant InsertModelIds(before.microarchitectureIdByCpuModelId, proto.modelIds, proto.id).Some?
        {
          assert proto.modelIds[k..][1..] == proto.modelIds[k + 1..];
          microarchitectureIdByCpuModelId := microarchitectureIdByCpuModelId[proto.modelIds[k] := proto.id];
          k := k + 1;
        }
        // The precondition excludes a duplicate id, which would be LOG(FATAL).
        microarchitecturesById := microarchitecturesById[proto.id := MicroArchitecture(proto)];
        i := i + 1;
      }
    }
  }
}
